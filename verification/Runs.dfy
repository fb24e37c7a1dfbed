/** The abstract contents of the filter: for every quotient an ordered run of items, and what it
    means for slots, metadata bits and cached block offsets to represent them. */
module Runs {
  import opened Numbers
  import opened Layout
  import opened RankSelect
  import opened Items
  import opened Hashes

  type Run = seq<Item>

  const MAX_OFFSET: nat := 255

  ghost function Encs(runs: seq<Run>): (e: seq<Enc>)
    ensures |e| == |runs| && forall q {:trigger e[q]} | 0 <= q < |e| :: e[q] == Encode(runs[q])
  {
    seq(|runs|, q requires 0 <= q < |runs| => Encode(runs[q]))
  }

  function CellsOf(run: seq<bool>, ext: seq<bool>, val: seq<nat>): (c: seq<Cell>)
    requires |run| == |ext| == |val|
    ensures |c| == |run| && forall i {:trigger c[i]} | 0 <= i < |c| :: c[i] == Cell(run[i], ext[i], val[i])
  {
    seq(|run|, i requires 0 <= i < |run| => Cell(run[i], ext[i], val[i]))
  }

  /** The number of slots the runs take. */
  ghost function Total(runs: seq<Run>): nat {
    if runs == [] then 0 else Total(runs[..|runs| - 1]) + |Encode(runs[|runs| - 1])|
  }

  ghost predicate ItemOk(it: Item, r: nat) {
    && it.rem < Pow2(r)
    && Digits(it.ext, r)
    && Digits(it.cnt, r)
    && |it.cnt| <= 1
    && (it.cnt != [] ==> it.cnt[0] >= 2)
  }

  ghost predicate Sorted(items: Run) {
    forall i, j | 0 <= i < j < |items| :: items[i].rem <= items[j].rem
  }

  ghost predicate RunOk(items: Run, r: nat) {
    Sorted(items) && forall i | 0 <= i < |items| :: ItemOk(items[i], r)
  }

  ghost predicate RunsOk(runs: seq<Run>, nslots: nat, r: nat) {
    && (forall q {:trigger RunOk(runs[q], r)} | 0 <= q < |runs| :: RunOk(runs[q], r))
    && (forall q | nslots <= q < |runs| :: runs[q] == [])
  }

  /** Every block's 8-bit offset is the spill of earlier quotients into it, saturated at 255. */
  ghost predicate OffsetsOk(encs: seq<Enc>, off: seq<nat>) {
    |encs| == 64 * |off| &&
    forall b {:trigger off[b]} | 0 <= b < |off| :: off[b] == Min(255, Spill(encs, b))
  }

  ghost predicate Placed(encs: seq<Enc>, cells: seq<Cell>, occ: seq<bool>, off: seq<nat>) {
    Stored(encs, cells) && Occupied(encs, occ) && OffsetsOk(encs, off)
  }

  lemma PlacedIsIndexed(runs: seq<Run>, cells: seq<Cell>, occ: seq<bool>, off: seq<nat>)
    requires Placed(Encs(runs), cells, occ, off)
    ensures Indexed(Encs(runs), cells, occ)
  {
    forall q | 0 <= q < |runs|
      ensures WellFormed(Encs(runs)[q])
    {
      EncodeWellFormed(runs[q]);
    }
  }

  // ---- the effect of one shifted-in slot on the whole representation ----------------------

  /** The offset update of insert_one_slot (src/gqf.c:1032-1046). */
  function Bump(off: seq<nat>, t: nat, e: nat): (o: seq<nat>)
    ensures |o| == |off|
    ensures forall b {:trigger o[b]} | 0 <= b < |o| ::
              o[b] == if t / 64 < b <= e / 64 && off[b] < MAX_OFFSET then off[b] + 1 else off[b]
  {
    seq(|off|, b requires 0 <= b < |off| =>
      if t / 64 < b <= e / 64 && off[b] < MAX_OFFSET then off[b] + 1 else off[b])
  }

  lemma {:induction false} BumpKeepsOffsets(encs: seq<Enc>, off: seq<nat>, t: nat, k: nat, c: Cell, e: nat)
    requires OffsetsOk(encs, off)
    requires t < |encs| && k <= |encs[t]| && FirstEmpty(encs, Start(encs, t) + k, e)
    ensures OffsetsOk(encs[t := InsertAt(encs[t], k, c)], Bump(off, t, e))
  {
    forall b | 0 <= b < |off|
      ensures Bump(off, t, e)[b] == Min(MAX_OFFSET, Spill(encs[t := InsertAt(encs[t], k, c)], b))
    {
      SpillAfterInsert(encs, t, k, c, e, b);
    }
  }

  lemma {:induction false} InsertKeepsPlaced(encs: seq<Enc>, cells: seq<Cell>, occ: seq<bool>, off: seq<nat>,
                                             t: nat, k: nat, c: Cell, e: nat)
    requires Placed(encs, cells, occ, off)
    requires t < |encs| && k <= |encs[t]| && FirstEmpty(encs, Start(encs, t) + k, e) && e + 1 < |encs|
    ensures Placed(encs[t := InsertAt(encs[t], k, c)], ShiftIn(cells, Start(encs, t) + k, e, c),
                   occ[t := true], Bump(off, t, e))
    ensures Start(encs[t := InsertAt(encs[t], k, c)], t) == Start(encs, t)
  {
    InsertKeepsStored(encs, cells, t, k, c, e);
    BumpKeepsOffsets(encs, off, t, k, c, e);
    NextAfterInsertBelow(encs, t, InsertAt(encs[t], k, c), t);
  }

  lemma {:induction false} UpdateKeepsPlaced(encs: seq<Enc>, cells: seq<Cell>, occ: seq<bool>, off: seq<nat>,
                                             t: nat, k: nat, c: Cell)
    requires Placed(encs, cells, occ, off) && t < |encs| && k < |encs[t]|
    ensures Start(encs, t) + k < |cells|
    ensures Placed(encs[t := encs[t][k := c]], cells[Start(encs, t) + k := c], occ, off)
    ensures Start(encs[t := encs[t][k := c]], t) == Start(encs, t)
  {
    UpdateKeepsStored(encs, cells, t, k, c);
    NextAfterUpdate(encs, t, k, c, t);
    forall b | 0 <= b < |off|
      ensures off[b] == Min(MAX_OFFSET, Spill(encs[t := encs[t][k := c]], b))
    {
      NextAfterUpdate(encs, t, k, c, 64 * b);
    }
  }

  lemma {:induction false} TotalUpdate(runs: seq<Run>, q: nat, items: Run)
    requires q < |runs|
    ensures Total(runs[q := items]) + |Encode(runs[q])| == Total(runs) + |Encode(items)|
    decreases |runs|
  {
    var n := |runs| - 1;
    if q < n {
      assert runs[q := items][..n] == runs[..n][q := items];
      TotalUpdate(runs[..n], q, items);
    } else {
      assert runs[q := items][..n] == runs[..n];
    }
  }

  lemma EncsUpdate(runs: seq<Run>, q: nat, items: Run)
    requires q < |runs|
    ensures Encs(runs[q := items]) == Encs(runs)[q := Encode(items)]
  {
  }

  // ---- the number of used slots -----------------------------------------------------------------

  ghost function UsedBelow(encs: seq<Enc>, i: nat): nat
    requires i <= |encs|
  {
    if i == 0 then 0 else UsedBelow(encs, i - 1) + if Used(encs, i - 1) then 1 else 0
  }

  lemma {:induction false} AllUsed(encs: seq<Enc>, lo: nat, hi: nat)
    requires lo <= hi <= |encs| && forall i | lo <= i < hi :: Used(encs, i)
    ensures UsedBelow(encs, hi) == UsedBelow(encs, lo) + hi - lo
    decreases hi
  {
    if lo == hi {
    } else {
      AllUsed(encs, lo, hi - 1);
    }
  }

  /** The slots used below the point where the next run may start are those of the runs so far. */
  lemma {:induction false} UsedByRuns(runs: seq<Run>, q: nat)
    requires q <= |runs| && Next(Encs(runs), |runs|) <= |runs|
    ensures Next(Encs(runs), q) <= |runs|
    ensures UsedBelow(Encs(runs), Max(q, Next(Encs(runs), q))) == Total(runs[..q])
  {
    hide Encode;
    var encs := Encs(runs);
    NextMonotone(encs, q, |encs|);
    if q == 0 {
    } else {
      UsedByRuns(runs, q - 1);
      assert runs[..q][..q - 1] == runs[..q - 1];
      assert encs[q - 1] == Encode(runs[q - 1]);
      RunSlotsAreUsed(encs, q - 1);
    }
  }

  /** One more run uses exactly its own slots. */
  lemma RunSlotsAreUsed(encs: seq<Enc>, q: nat)
    requires q < |encs| && Next(encs, |encs|) <= |encs|
    ensures Max(q, Next(encs, q)) <= |encs| && Max(q + 1, Next(encs, q + 1)) <= |encs|
    ensures UsedBelow(encs, Max(q + 1, Next(encs, q + 1))) == UsedBelow(encs, Max(q, Next(encs, q))) + |encs[q]|
  {
    NextMonotone(encs, q, |encs|);
    NextMonotone(encs, q + 1, |encs|);
    if encs[q] != [] {
      var s := Start(encs, q);
      forall i | s <= i < s + |encs[q]|
        ensures Used(encs, i)
      {
        RunIsUsed(encs, q, i);
      }
      AllUsed(encs, s, s + |encs[q]|);
    }
  }

  /** The total length of all runs is the number of used slots. */
  lemma TotalIsUsed(runs: seq<Run>)
    requires Next(Encs(runs), |runs|) <= |runs|
    ensures Total(runs) == UsedBelow(Encs(runs), |runs|)
  {
    hide Total, Next, UsedBelow, Encode;
    UsedByRuns(runs, |runs|);
    assert runs[..|runs|] == runs;
  }
}
