/** Facts about represented filters that the methods of the filter class need: the arithmetic of
    run_end and offset_lower_bound, and where the items of a run are stored. */
module Navigation {
  import opened Words
  import opened Layout
  import opened RankSelect
  import opened Items
  import opened Runs


  lemma OpenRuns(encs: seq<Enc>, cells: seq<Cell>, occ: seq<bool>, s: nat, boffset: nat, occupied: nat, ended: nat)
    requires Indexed(encs, cells, occ) && s < |encs| && boffset == Spill(encs, s / 64) <= s % 64
    requires occupied == Count(occ, 64 * (s / 64), s + 1) && ended == Count(RunEnds(cells), 64 * (s / 64) + boffset, s)
    ensures ended <= occupied && s + (occupied - ended) <= Max(s, Next(encs, s + 1))
    ensures !cells[s].ext ==> (occupied == ended <==> !Used(encs, s))
  {
    hide Next, Used, Count, WellFormed;
    var b := s / 64;
    OpenRunsAt(encs, cells, occ, s);
    RankAtGap(encs, cells, occ, 64 * b, 64 * b + boffset);
    CountSplit(occ, 0, 64 * b, s + 1);
    CountSplit(RunEnds(cells), 0, 64 * b + boffset, s);
  }

  lemma MarkedIsUsed(encs: seq<Enc>, cells: seq<Cell>, i: nat)
    requires Stored(encs, cells) && i < |cells| && !cells[i].IsBlank()
    ensures Used(encs, i)
  {
  }

  lemma ShiftCells(run: seq<bool>, ext: seq<bool>, val: seq<nat>, ins: nat, empty: nat, value: nat)
    requires |run| == |ext| == |val| && ins <= empty < |run|
    ensures CellsOf(ShiftIn(run, ins, empty, false), ShiftIn(ext, ins, empty, false), ShiftIn(val, ins, empty, value))
         == ShiftIn(CellsOf(run, ext, val), ins, empty, Cell(false, false, value))
  {
    var a := CellsOf(ShiftIn(run, ins, empty, false), ShiftIn(ext, ins, empty, false), ShiftIn(val, ins, empty, value));
    var b := ShiftIn(CellsOf(run, ext, val), ins, empty, Cell(false, false, value));
    hide CellsOf, ShiftIn;
    forall i | 0 <= i < |run|
      ensures a[i] == b[i]
    {
      if ins < i <= empty {
        assert b[i] == CellsOf(run, ext, val)[i - 1];
      }
    }
  }

  /** The first unused slot at or behind `from` is below limit and is not the last slot. */
  ghost predicate Room(encs: seq<Enc>, from: nat, limit: nat) {
    forall e: nat | FirstEmpty(encs, from, e) :: e < limit && e + 1 < |encs|
  }

  lemma JumpIsUsed(encs: seq<Enc>, from: nat, t: nat)
    requires from < |encs| && t > 0 && from + t <= Max(from, Next(encs, from + 1)) && Next(encs, |encs|) < |encs|
    ensures from + t < |encs| && forall i | from <= i < from + t :: Used(encs, i)
  {
    NextMonotone(encs, from + 1, |encs|);
    forall i | from <= i < from + t
      ensures Used(encs, i)
    {
      UsedUntilNext(encs, from, i);
    }
  }

  /** The arithmetic of run_end: with the block's spill and the rank of q among its occupied bits,
      either the answer is immediate, or the run end to look for is the rank-th one behind the spill. */
  lemma RunEndByRank(encs: seq<Enc>, cells: seq<Cell>, occ: seq<bool>, q: nat, boff: nat, rank: nat)
    requires Indexed(encs, cells, occ) && q < |encs|
    requires boff == Spill(encs, q / 64) && rank == Count(occ, 64 * (q / 64), q + 1)
    ensures rank == 0 ==> Layout.RunEnd(encs, q) == if boff <= q % 64 then q else 64 * (q / 64) + boff - 1
    ensures var p := 64 * (q / 64 + boff / 64) + boff % 64;
            p < |encs| && Count(RunEnds(cells), 0, p) + rank == Count(occ, 0, q + 1)
  {
    hide Next, Count, WellFormed, Used;
    var b := q / 64;
    if rank == 0 {
      EmptyQuotients(encs, occ, 64 * b, q + 1);
    }
    CountSplit(occ, 0, 64 * b, q + 1);
    RankAtGap(encs, cells, occ, 64 * b, 64 * b + boff);
    RankAtNext(encs, cells, occ, 64 * b);
    assert 64 * (b + boff / 64) + boff % 64 == 64 * b + boff;
  }

  lemma {:induction false} EmptyRuns(runs: seq<Run>, q: nat)
    requires q <= |runs| && forall i | 0 <= i < |runs| :: runs[i] == []
    ensures Next(Encs(runs), q) == 0
    ensures q == |runs| ==> Total(runs) == 0
  {
    if q == 0 {
    } else {
      EmptyRuns(runs, q - 1);
      if q == |runs| {
        EmptyRuns(runs[..q - 1], q - 1);
      }
    }
  }

  lemma EmptyRun(items: Run)
    ensures Encode(items) == [] <==> items == []
  {
  }

  lemma EmptyIsRepresented(runs: seq<Run>, cells: seq<Cell>, occ: seq<bool>, off: seq<nat>, nslots: nat, r: nat,
                           limit: nat)
    requires |runs| == |cells| == |occ| == 64 * |off| && |off| > 0
    requires forall i | 0 <= i < |runs| :: runs[i] == [] && cells[i].IsBlank() && !occ[i]
    requires forall b | 0 <= b < |off| :: off[b] == 0
    ensures Represents(runs, cells, occ, off, nslots, r, limit) && Total(runs) == 0
  {
    hide Next, Encode, Total;
    EmptyRuns(runs, |runs|);
    forall i | 0 <= i < |runs|
      ensures Encs(runs)[i] == []
    {
      EmptyRun(runs[i]);
    }
    assert Stored(Encs(runs), cells);
    forall b | 0 <= b < |off|
      ensures off[b] == Min(MAX_OFFSET, Spill(Encs(runs), b))
    {
      EmptyRuns(runs, 64 * b);
    }
    assert RunsOk(runs, nslots, r);
  }

  lemma {:induction false} EmptyQuotients(encs: seq<Enc>, occ: seq<bool>, lo: nat, hi: nat)
    requires Occupied(encs, occ) && lo <= hi <= |encs| && Count(occ, lo, hi) == 0
    ensures Next(encs, hi) == Next(encs, lo)
    decreases hi
  {
    if lo == hi {
    } else {
      EmptyQuotients(encs, occ, lo, hi - 1);
    }
  }

  // ---- where items are stored -------------------------------------------------------------

  /** The slot of item j of quotient q. */
  ghost function ItemPos(runs: seq<Run>, q: nat, j: nat): nat
    requires q < |runs| && j <= |runs[q]|
  {
    Start(Encs(runs), q) + Offset(runs[q], j)
  }

  /** Item `it` is stored at slot p, closing its run iff `last`; the slot behind it is no extension. */
  ghost predicate StoredAt(cells: seq<Cell>, p: nat, it: Item, last: bool) {
    && p + it.Size() < |cells|
    && cells[p] == Cell(last, false, it.rem)
    && (forall x {:trigger cells[x]} | p + 1 <= x < p + 1 + |it.ext| ::
        cells[x] == Cell(false, true, it.ext[x - p - 1]))
    && (forall x {:trigger cells[x]} | p + 1 + |it.ext| <= x < p + it.Size() ::
          cells[x] == Cell(true, true, it.cnt[x - p - 1 - |it.ext|]))
    && !cells[p + it.Size()].ext
  }

  /** The k-th cell behind the base cell of an item: extensions, then counters, then the end. */
  lemma TailCell(cells: seq<Cell>, p: nat, it: Item, last: bool, k: nat)
    requires StoredAt(cells, p, it, last) && k <= |it.ext| + |it.cnt|
    ensures p + 1 + k < |cells|
    ensures k < |it.ext| ==> cells[p + 1 + k] == Cell(false, true, it.ext[k])
    ensures |it.ext| <= k < |it.ext| + |it.cnt| ==> cells[p + 1 + k] == Cell(true, true, it.cnt[k - |it.ext|])
    ensures k == |it.ext| + |it.cnt| ==> !cells[p + 1 + k].ext
  {
  }

  /** The encoding of the run lies at slot s, and the slot behind it is no extension. */
  ghost predicate StoredRun(cells: seq<Cell>, items: Run, s: nat) {
    StoredEnc(cells, Encode(items), s)
  }

  ghost predicate StoredEnc(cells: seq<Cell>, enc: Enc, s: nat) {
    && s + |enc| < |cells|
    && (forall i {:trigger cells[i]} | s <= i < s + |enc| :: cells[i] == enc[i - s])
    && !cells[s + |enc|].ext
  }

  lemma EncCells(encs: seq<Enc>, cells: seq<Cell>, q: nat)
    requires Stored(encs, cells) && q < |encs| && encs[q] != []
    ensures var s := Start(encs, q);
            s + |encs[q]| <= |cells| &&
            forall i {:trigger cells[i]} | s <= i < s + |encs[q]| :: cells[i] == encs[q][i - s]
  {
    assert RunAt(encs, cells, q);
  }

  lemma EncEnd(encs: seq<Enc>, q: nat)
    requires q < |encs| && encs[q] != []
    ensures Start(encs, q) + |encs[q]| == Next(encs, q + 1) <= Next(encs, |encs|)
  {
    NextMonotone(encs, q + 1, |encs|);
  }

  lemma EncStored(encs: seq<Enc>, cells: seq<Cell>, occ: seq<bool>, q: nat)
    requires Indexed(encs, cells, occ) && q < |encs| && encs[q] != []
    ensures StoredEnc(cells, encs[q], Start(encs, q))
  {
    EncEnd(encs, q);
    EncCells(encs, cells, q);
    BehindRun(encs, cells, occ, q + 1);
  }

  lemma {:induction false} ItemInRun(items: Run, cells: seq<Cell>, s: nat, j: nat)
    requires j < |items| && StoredRun(cells, items, s)
    ensures StoredAt(cells, s + Offset(items, j), items[j], j + 1 == |items|)
    ensures Offset(items, j + 1) == Offset(items, j) + items[j].Size()
    ensures Offset(items, j) < |Encode(items)|
  {
    ItemCells(items, j);
    OffsetStep(items, j);
  }

  lemma {:induction false} RunStored(runs: seq<Run>, cells: seq<Cell>, occ: seq<bool>, off: seq<nat>, q: nat)
    requires Placed(Encs(runs), cells, occ, off) && q < |runs| && runs[q] != []
    ensures StoredRun(cells, runs[q], Start(Encs(runs), q))
    ensures Start(Encs(runs), q) + |Encode(runs[q])| == Next(Encs(runs), q + 1) <= Next(Encs(runs), |runs|)
  {
    assert Encs(runs)[q] == Encode(runs[q]);
    hide Placed, Next, Start, Encode, StoredEnc, Indexed;
    PlacedIsIndexed(runs, cells, occ, off);
    EncStored(Encs(runs), cells, occ, q);
    EncEnd(Encs(runs), q);
  }

  lemma {:induction false} ItemStored(runs: seq<Run>, cells: seq<Cell>, occ: seq<bool>, off: seq<nat>, q: nat, j: nat)
    requires Placed(Encs(runs), cells, occ, off) && q < |runs| && j < |runs[q]|
    ensures StoredAt(cells, ItemPos(runs, q, j), runs[q][j], j + 1 == |runs[q]|)
    ensures ItemPos(runs, q, j + 1) == ItemPos(runs, q, j) + runs[q][j].Size()
    ensures ItemPos(runs, q, j) < Next(Encs(runs), |runs|)
  {
    hide Placed, Next, Encode, Offset, StoredAt;
    RunStored(runs, cells, occ, off, q);
    ItemInRun(runs[q], cells, Start(Encs(runs), q), j);
  }

  /** All items of a run that starts at slot s can be read off the cells. */
  ghost predicate Readable(cells: seq<Cell>, items: Run, s: nat, r: nat, limit: nat) {
    forall j {:trigger Offset(items, j)} | 0 <= j < |items| ::
      StoredAt(cells, s + Offset(items, j), items[j], j + 1 == |items|) && ItemOk(items[j], r) &&
      s + Offset(items, j) < limit
  }

  lemma ReadItem(cells: seq<Cell>, items: Run, s: nat, r: nat, limit: nat, j: nat)
    requires Readable(cells, items, s, r, limit) && j < |items|
    ensures StoredAt(cells, s + Offset(items, j), items[j], j + 1 == |items|)
    ensures ItemOk(items[j], r) && s + Offset(items, j) < limit
    ensures Offset(items, j + 1) == Offset(items, j) + items[j].Size()
  {
    OffsetStep(items, j);
  }

  lemma ReadableIfStored(items: Run, cells: seq<Cell>, s: nat, r: nat, limit: nat)
    requires RunOk(items, r) && StoredRun(cells, items, s) && s + |Encode(items)| <= limit
    ensures Readable(cells, items, s, r, limit)
  {
    forall j | 0 <= j < |items|
      ensures StoredAt(cells, s + Offset(items, j), items[j], j + 1 == |items|)
      ensures s + Offset(items, j) < limit
    {
      ItemInRun(items, cells, s, j);
    }
  }

  lemma RunReadable(runs: seq<Run>, cells: seq<Cell>, occ: seq<bool>, off: seq<nat>, q: nat, nslots: nat, r: nat,
                    limit: nat)
    requires Represents(runs, cells, occ, off, nslots, r, limit) && q < |runs|
    ensures Readable(cells, runs[q], Start(Encs(runs), q), r, limit) && RunOk(runs[q], r)
    ensures |occ| == |runs| && (occ[q] <==> runs[q] != [])
  {
    assert RunOk(runs[q], r);
    assert Encs(runs)[q] == Encode(runs[q]);
    if runs[q] != [] {
      RunStored(runs, cells, occ, off, q);
      ReadableIfStored(runs[q], cells, Start(Encs(runs), q), r, limit);
    }
  }

  /** Everything a represented filter guarantees about its slots, bits and offsets. */
  ghost predicate Represents(runs: seq<Run>, cells: seq<Cell>, occ: seq<bool>, off: seq<nat>,
                             nslots: nat, r: nat, limit: nat) {
    && Placed(Encs(runs), cells, occ, off)
    && RunsOk(runs, nslots, r)
    && Next(Encs(runs), |runs|) <= limit
  }
}
