/** Edits of one run, as edits of the whole representation. */
module Edits {
  import opened Numbers
  import opened Words
  import opened Layout
  import opened RankSelect
  import opened Items
  import opened Runs
  import opened Contents
  import opened Navigation

  lemma InsertedRepresents(runs: seq<Run>, cells: seq<Cell>, occ: seq<bool>, off: seq<nat>, nslots: nat, r: nat,
                           limit: nat,
                           q: nat, k: nat, c: Cell, e: nat)
    requires Represents(runs, cells, occ, off, nslots, r, limit) && q < |runs| && k <= |Encode(runs[q])|
    requires FirstEmpty(Encs(runs), Start(Encs(runs), q) + k, e) && e < limit && e + 1 < |runs|
    ensures var encs := Encs(runs)[q := InsertAt(Encode(runs[q]), k, c)];
            && Placed(encs, ShiftIn(cells, Start(Encs(runs), q) + k, e, c), occ[q := true], Bump(off, q, e))
            && Next(encs, |encs|) <= limit && Start(encs, q) == Start(Encs(runs), q)
  {
    hide Placed, Next, Start, Encode, Bump, FirstEmpty;
    InsertKeepsPlaced(Encs(runs), cells, occ, off, q, k, c, e);
    NextAfterInsertBehind(Encs(runs), q, k, c, e, |runs|);
  }

  lemma RunsOkUpdate(runs: seq<Run>, nslots: nat, r: nat, q: nat, items: Run)
    requires RunsOk(runs, nslots, r) && q < |runs| && q < nslots && RunOk(items, r)
    ensures RunsOk(runs[q := items], nslots, r)
  {
    var runs' := runs[q := items];
    forall p | 0 <= p < |runs'|
      ensures RunOk(runs'[p], r)
    {
      assert RunOk(runs[p], r);
    }
  }

  /** The last item of a run: its base cell carries the run-end mark. */
  lemma LastItemCell(runs: seq<Run>, cells: seq<Cell>, occ: seq<bool>, off: seq<nat>, q: nat)
    requires Placed(Encs(runs), cells, occ, off) && q < |runs| && runs[q] != []
    ensures var o := Offset(runs[q], |runs[q]| - 1);
            && o < |Encode(runs[q])|
            && Start(Encs(runs), q) + o < |cells|
            && cells[Start(Encs(runs), q) + o] == Encode(runs[q])[o]
            && Encode(runs[q])[o].IsRunEnd()
    ensures Offset(runs[q], |runs[q]|) == |Encode(runs[q])|
  {
    EncodeLength(runs[q]);
    ItemCells(runs[q], |runs[q]| - 1);
    RunStored(runs, cells, occ, off, q);
  }

  /** Rewriting two cells of one run. */
  lemma MarkTwo(encs: seq<Enc>, cells: seq<Cell>, occ: seq<bool>, off: seq<nat>,
                      q: nat, s: nat, k: nat, c: Cell, i: nat, c': Cell)
    requires Placed(encs, cells, occ, off) && q < |encs| && k < |encs[q]| && i < |encs[q]| && s == Start(encs, q)
    ensures s + k < |cells| && s + i < |cells|
    ensures Placed(encs[q := encs[q][k := c][i := c']], cells[s + k := c][s + i := c'], occ, off)
    ensures Next(encs[q := encs[q][k := c][i := c']], |encs|) == Next(encs, |encs|)
  {
    hide Placed;
    var encs1 := encs[q := encs[q][k := c]];
    UpdateKeepsPlaced(encs, cells, occ, off, q, k, c);
    NextAfterUpdate(encs, q, k, c, |encs|);
    UpdateKeepsPlaced(encs1, cells[s + k := c], occ, off, q, i, c');
    NextAfterUpdate(encs1, q, i, c', |encs|);
    assert encs1[q := encs1[q][i := c']] == encs[q := encs[q][k := c][i := c']];
  }

  lemma EditedRepresents(runs: seq<Run>, encs: seq<Enc>, cells: seq<Cell>, occ: seq<bool>, off: seq<nat>,
                         nslots: nat, r: nat, limit: nat, q: nat, items: Run)
    requires q < |runs| && q < nslots && RunsOk(runs, nslots, r) && RunOk(items, r)
    requires Placed(encs, cells, occ, off) && Next(encs, |encs|) <= limit && encs == Encs(runs)[q := Encode(items)]
    ensures Represents(runs[q := items], cells, occ, off, nslots, r, limit)
    ensures Total(runs[q := items]) + |Encode(runs[q])| == Total(runs) + |Encode(items)|
  {
    EncsUpdate(runs, q, items);
    RunsOkUpdate(runs, nslots, r, q, items);
    TotalUpdate(runs, q, items);
  }

  /** One cell shifted into run q at position k and then marked: the run that this encodes replaces
      the old one, every other run stays, and one more slot is in use. */
  lemma EditByInsert(runs: seq<Run>, cells: seq<Cell>, occ: seq<bool>, off: seq<nat>, nslots: nat, r: nat, limit: nat,
                     q: nat, items: Run, k: nat, c: Cell, c': Cell, e: nat)
    requires Represents(runs, cells, occ, off, nslots, r, limit) && q < |runs| && q < nslots && RunOk(items, r)
    requires k <= |Encode(runs[q])| && Encode(items) == InsertAt(Encode(runs[q]), k, c)[k := c']
    requires FirstEmpty(Encs(runs), Start(Encs(runs), q) + k, e) && e < limit && e + 1 < |runs|
    ensures var ins := Start(Encs(runs), q) + k;
            Represents(runs[q := items], ShiftIn(cells, ins, e, c)[ins := c'], occ[q := true], Bump(off, q, e), nslots,
                r, limit)
    ensures Total(runs[q := items]) == Total(runs) + 1
    ensures runs[q] != [] ==> occ[q := true] == occ
  {
    hide Placed, Next, Start, Encode, Bump;
    var enc, ins := Encode(runs[q]), Start(Encs(runs), q) + k;
    OccupiedBit(runs, cells, occ, off, q);
    InsertedRepresents(runs, cells, occ, off, nslots, r, limit, q, k, c, e);
    var encs := Encs(runs)[q := InsertAt(enc, k, c)];
    UpdateKeepsPlaced(encs, ShiftIn(cells, ins, e, c), occ[q := true], Bump(off, q, e), q, k, c');
    NextAfterUpdate(encs, q, k, c', |encs|);
    var encs' := encs[q := encs[q][k := c']];
    assert encs' == Encs(runs)[q := Encode(items)];
    EditedRepresents(runs, encs', ShiftIn(cells, ins, e, c)[ins := c'], occ[q := true], Bump(off, q, e), nslots, r,
        limit, q, items);
  }

  lemma EncAt(runs: seq<Run>, q: nat)
    requires q < |runs|
    ensures Encs(runs)[q] == Encode(runs[q])
  {
  }

  lemma CellOfRun(runs: seq<Run>, cells: seq<Cell>, occ: seq<bool>, off: seq<nat>, q: nat, k: nat)
    requires Placed(Encs(runs), cells, occ, off) && q < |runs| && k < |Encode(runs[q])|
    ensures Start(Encs(runs), q) + k < |cells| && cells[Start(Encs(runs), q) + k] == Encode(runs[q])[k]
  {
    hide Placed, Next, Start;
    RunStored(runs, cells, occ, off, q);
  }

  /** One cell of run q rewritten in place. */
  lemma EditInPlace(runs: seq<Run>, cells: seq<Cell>, occ: seq<bool>, off: seq<nat>, nslots: nat, r: nat, limit: nat,
                    q: nat, items: Run, k: nat, c: Cell)
    requires Represents(runs, cells, occ, off, nslots, r, limit) && q < |runs| && q < nslots && RunOk(items, r)
    requires k < |Encode(runs[q])| && Encode(items) == Encode(runs[q])[k := c]
    ensures var p := Start(Encs(runs), q) + k;
            p < |cells| && cells[p] == Encode(runs[q])[k] &&
            Represents(runs[q := items], cells[p := c], occ, off, nslots, r, limit)
    ensures Total(runs[q := items]) == Total(runs)
  {
    hide Placed, Next, Start, Encode, RunsOk, StoredRun;
    var encs := Encs(runs);
    EncAt(runs, q);
    CellOfRun(runs, cells, occ, off, q, k);
    UpdateKeepsPlaced(encs, cells, occ, off, q, k, c);
    NextAfterUpdate(encs, q, k, c, |encs|);
    EditedRepresents(runs, encs[q := encs[q][k := c]], cells[Start(encs, q) + k := c], occ, off, nslots, r, limit, q,
        items);
  }

  // ---- insertion of an item ---------------------------------------------------------------

  /** The first item of a quotient. */
  lemma NewRunInserted(runs: seq<Run>, cells: seq<Cell>, occ: seq<bool>, off: seq<nat>, nslots: nat, r: nat, limit: nat,
                       q: nat, rem: nat, e: nat)
    requires Represents(runs, cells, occ, off, nslots, r, limit) && q < |runs| && q < nslots && runs[q] == []
    requires rem < Pow2(r)
    requires FirstEmpty(Encs(runs), Start(Encs(runs), q), e) && e < limit && e + 1 < |runs|
    ensures var s := Start(Encs(runs), q);
            Represents(runs[q := Inserted(runs[q], rem)],
                       ShiftIn(cells, s, e, Cell(false, false, rem))[s := Cell(true, false, rem)],
                       occ[q := true], Bump(off, q, e), nslots, r, limit)
    ensures Total(runs[q := Inserted(runs[q], rem)]) == Total(runs) + 1
  {
    FirstItemCells(rem);
    InsertedIsOk(runs[q], rem, r);
    EditByInsert(runs, cells, occ, off, nslots, r, limit, q, Inserted(runs[q], rem), 0,
                 Cell(false, false, rem), Cell(true, false, rem), e);
  }

  /** A further item of a non-empty run, in front of one of its items. */
  lemma ItemInsertedInFront(runs: seq<Run>, cells: seq<Cell>, occ: seq<bool>, off: seq<nat>, nslots: nat, r: nat,
                            limit: nat,
                            q: nat, rem: nat, ins: nat, e: nat)
    requires Represents(runs, cells, occ, off, nslots, r, limit) && q < |runs| && q < nslots && rem < Pow2(r)
    requires var p := LowerBound(runs[q], rem); p < |runs[q]| && ins == ItemPos(runs, q, p)
    requires FirstEmpty(Encs(runs), ins, e) && e < limit && e + 1 < |runs|
    ensures Represents(runs[q := Inserted(runs[q], rem)], ShiftIn(cells, ins, e, Cell(false, false, rem)),
                       occ, Bump(off, q, e), nslots, r, limit)
    ensures Total(runs[q := Inserted(runs[q], rem)]) == Total(runs) + 1
  {
    hide Placed, Next, Start, Encode, Offset, Bump;
    var c, k := Cell(false, false, rem), Offset(runs[q], LowerBound(runs[q], rem));
    InsertItemCells(runs[q], LowerBound(runs[q], rem), rem);
    assert InsertAt(Encode(runs[q]), k, c)[k := c] == InsertAt(Encode(runs[q]), k, c);
    assert RunOk(runs[q], r);
    InsertedIsOk(runs[q], rem, r);
    EditByInsert(runs, cells, occ, off, nslots, r, limit, q, Inserted(runs[q], rem), k, c, c, e);
    OccupiedBit(runs, cells, occ, off, q);
    assert ShiftIn(cells, ins, e, c)[ins := c] == ShiftIn(cells, ins, e, c);
  }

  /** A further item behind a non-empty run: the run-end mark moves to it. */
  lemma ItemInsertedBehind(runs: seq<Run>, cells: seq<Cell>, occ: seq<bool>, off: seq<nat>, nslots: nat, r: nat,
                           limit: nat,
                           q: nat, rem: nat, cur: nat, ins: nat, e: nat)
    requires Represents(runs, cells, occ, off, nslots, r, limit) && q < |runs| && q < nslots && rem < Pow2(r)
    requires runs[q] != [] && LowerBound(runs[q], rem) == |runs[q]|
    requires cur == ItemPos(runs, q, |runs[q]| - 1) && ins == ItemPos(runs, q, |runs[q]|)
    requires FirstEmpty(Encs(runs), ins, e) && e < limit && e + 1 < |runs|
    ensures cur < ins <= e < |cells| && cells[cur].IsRunEnd()
    ensures Represents(runs[q := Inserted(runs[q], rem)],
                       ShiftIn(cells, ins, e, Cell(false, false, rem))[ins := Cell(true, false,
                           rem)][cur := cells[cur].(run := false)],
                       occ, Bump(off, q, e), nslots, r, limit)
    ensures Total(runs[q := Inserted(runs[q], rem)]) == Total(runs) + 1
  {
    hide Placed, Next, Start, Encode, Offset, LowerBound, Bump;
    var c, c' := Cell(false, false, rem), Cell(true, false, rem);
    var items, enc, s, o := Inserted(runs[q], rem), Encode(runs[q]), Start(Encs(runs), q),
        Offset(runs[q], |runs[q]| - 1);
    LastItemCell(runs, cells, occ, off, q);
    OccupiedBit(runs, cells, occ, off, q);
    InsertedRepresents(runs, cells, occ, off, nslots, r, limit, q, |enc|, c, e);
    assert occ[q := true] == occ;
    var encs1 := Encs(runs)[q := InsertAt(enc, |enc|, c)];
    MarkTwo(encs1, ShiftIn(cells, ins, e, c), occ, Bump(off, q, e), q, s, |enc|, c', o, enc[o].(run := false));
    AppendItemCells(runs[q], rem);
    assert RunOk(runs[q], r);
    InsertedIsOk(runs[q], rem, r);
    EditedRepresents(runs, encs1[q := encs1[q][|enc| := c'][o := enc[o].(run := false)]],
                     ShiftIn(cells, ins, e, c)[ins := c'][cur := enc[o].(run := false)], occ, Bump(off, q, e),
                     nslots, r, limit, q, items);
  }

  // ---- where there is room, and whether the home slot is free ---------------------------------

  lemma UnusedHasNoRun(encs: seq<Enc>, q: nat)
    requires q < |encs| && !Used(encs, q)
    ensures encs[q] == [] && Start(encs, q) == q && FirstEmpty(encs, q, q)
  {
    if encs[q] != [] {
      RunIsUsedAt(encs, q);
    }
  }

  /** The slots from the home slot of q to the end of its run are used, so the next empty slot is the
      same from anywhere in between. */
  lemma RoomFromHome(encs: seq<Enc>, q: nat, ins: nat, limit: nat)
    requires q < |encs| && Room(encs, q, limit) && Used(encs, q) && Next(encs, |encs|) < |encs|
    requires q <= ins <= Next(encs, q + 1)
    ensures ins < |encs| && Room(encs, ins, limit) && (ins > 0 || Used(encs, 0))
  {
    NextMonotone(encs, q + 1, |encs|);
    forall e: nat | FirstEmpty(encs, ins, e)
      ensures e < limit && e + 1 < |encs|
    {
      forall i | q <= i < ins
        ensures Used(encs, i)
      {
        UsedUntilNext(encs, q, i);
      }
      assert FirstEmpty(encs, q, e);
    }
  }

  lemma StartWhenUsed(encs: seq<Enc>, q: nat)
    requires q < |encs| && Used(encs, q)
    ensures q <= Start(encs, q) <= Start(encs, q) + |encs[q]| == Next(encs, q + 1)
  {
  }

  lemma OccupiedBit(runs: seq<Run>, cells: seq<Cell>, occ: seq<bool>, off: seq<nat>, q: nat)
    requires Placed(Encs(runs), cells, occ, off) && q < |runs|
    ensures |occ| == |cells| == |runs| && (occ[q] <==> runs[q] != [])
  {
    assert Encs(runs)[q] == Encode(runs[q]);
  }

  /** There is room to insert at the insertion point of a non-empty run. */
  lemma InsertIndexInRun(runs: seq<Run>, cells: seq<Cell>, occ: seq<bool>, off: seq<nat>, nslots: nat, r: nat,
                         limit: nat,
                         q: nat, rem: nat)
    requires Represents(runs, cells, occ, off, nslots, r, limit) && q < |runs| && runs[q] != []
             && Room(Encs(runs), q, limit)
    ensures var ins := ItemPos(runs, q, LowerBound(runs[q], rem));
            ins < |runs| && Room(Encs(runs), ins, limit) && (ins > 0 || Used(Encs(runs), 0))
  {
    hide Next, RunsOk, LowerBound, Used;
    var p := LowerBound(runs[q], rem);
    EncAt(runs, q);
    RunIsUsedAt(Encs(runs), q);
    RunStored(runs, cells, occ, off, q);
    EncodeLength(runs[q]);
    if p < |runs[q]| {
      ItemInRun(runs[q], cells, Start(Encs(runs), q), p);
    }
    RoomFromHome(Encs(runs), q, ItemPos(runs, q, p), limit);
  }

  lemma NewRunIndex(runs: seq<Run>, cells: seq<Cell>, occ: seq<bool>, off: seq<nat>, nslots: nat, r: nat, limit: nat,
                    q: nat)
    requires Represents(runs, cells, occ, off, nslots, r, limit) && q < |runs| && Used(Encs(runs), q) && runs[q] == []
    requires Room(Encs(runs), q, limit)
    ensures 0 < Start(Encs(runs), q) < |runs| && Room(Encs(runs), Start(Encs(runs), q), limit)
  {
    assert Encs(runs)[q] == [];
    StartWhenUsed(Encs(runs), q);
    RoomFromHome(Encs(runs), q, Start(Encs(runs), q), limit);
  }

  lemma BlankIsUnused(encs: seq<Enc>, cells: seq<Cell>, occ: seq<bool>, q: nat)
    requires Indexed(encs, cells, occ) && q < |encs| && cells[q].IsBlank() && RunEnd(encs, q) == q
    ensures !Used(encs, q)
  {
    NextMonotone(encs, q + 1, |encs|);
    if Used(encs, q) {
      assert Next(encs, q + 1) == q + 1;
      CountZero(RunEnds(cells), q, q + 1);
      NoRunEndMeansExtension(encs, cells, occ, q);
    }
  }

  /** The test of insert_using_ll_table for an unused home slot is exact. */
  lemma HomeSlotState(runs: seq<Run>, cells: seq<Cell>, occ: seq<bool>, off: seq<nat>, nslots: nat, r: nat, limit: nat,
                      q: nat)
    requires Represents(runs, cells, occ, off, nslots, r, limit) && q < |runs|
    ensures |occ| == |cells| == |runs| && (occ[q] <==> runs[q] != [])
    ensures (!occ[q] && cells[q].IsBlank() && RunEnd(Encs(runs), q) == q) <==> !Used(Encs(runs), q)
    ensures !Used(Encs(runs), q) ==> FirstEmpty(Encs(runs), q, q)
  {
    var encs := Encs(runs);
    assert encs[q] == Encode(runs[q]);
    PlacedIsIndexed(runs, cells, occ, off);
    NextMonotone(encs, q + 1, |encs|);
    if Used(encs, q) && RunEnd(encs, q) == q && cells[q].IsBlank() {
      BlankIsUnused(encs, cells, occ, q);
    }
    if !Used(encs, q) {
      UnusedHasNoRun(encs, q);
    }
  }

  // ---- room in terms of the resulting layout ----------------------------------------------

  lemma {:induction false} LayoutGrows(encs: seq<Enc>, encs': seq<Enc>, q: nat)
    requires |encs| == |encs'| && q <= |encs| && forall i | 0 <= i < |encs| :: |encs[i]| <= |encs'[i]|
    ensures Next(encs, q) <= Next(encs', q)
  {
    if q == 0 {
    } else {
      LayoutGrows(encs, encs', q - 1);
      assert |encs[q - 1]| <= |encs'[q - 1]|;
    }
  }

  /** If run q has to grow to `enc`, the first empty slot behind any position of it is spent. */
  lemma EmptySlotIsSpent(encs: seq<Enc>, q: nat, k: nat, e: nat, enc: Enc)
    requires q < |encs| && k <= |encs[q]| < |enc| && FirstEmpty(encs, Start(encs, q) + k, e)
    ensures e < Next(encs[q := enc], |encs|)
  {
    var c := Cell(false, false, 0);
    var encs1 := encs[q := InsertAt(encs[q], k, c)];
    NextAfterInsertAtEmpty(encs, q, k, c, e);
    NextMonotone(encs1, e + 1, |encs|);
    LayoutGrows(encs1, encs[q := enc], |encs|);
  }

  /** The layout ends below limit and leaves the last slot free. */
  ghost predicate Fits(runs: seq<Run>, limit: nat) {
    Next(Encs(runs), |runs|) <= limit && Next(Encs(runs), |runs|) < |runs|
  }

  lemma FitsGivesRoom(runs: seq<Run>, q: nat, items: Run, limit: nat)
    requires q < |runs| && |Encode(runs[q])| < |Encode(items)| && Fits(runs[q := items], limit)
    ensures Room(Encs(runs), q, limit)
  {
    var encs := Encs(runs);
    EncsUpdate(runs, q, items);
    forall e: nat | FirstEmpty(encs, q, e)
      ensures e < limit && e + 1 < |encs|
    {
      if Used(encs, q) {
        StartWhenUsed(encs, q);
        if e < Start(encs, q) {
          UsedUntilNext(encs, q, e);
        }
      }
      assert FirstEmpty(encs, Start(encs, q), e);
      EmptySlotIsSpent(encs, q, 0, e, Encode(items));
    }
  }

  // ---- edits of one item --------------------------------------------------------------------

  lemma ReplacedIsOk(items: Run, j: nat, it: Item, r: nat)
    requires RunOk(items, r) && j < |items| && ItemOk(it, r) && it.rem == items[j].rem
    ensures RunOk(items[j := it], r)
  {
    var items' := items[j := it];
    forall i, k | 0 <= i < k < |items'|
      ensures items'[i].rem <= items'[k].rem
    {
      assert items[i].rem <= items[k].rem;
    }
  }

  lemma {:induction false} OffsetOfEdited(items: Run, j: nat, it: Item, k: nat)
    requires k <= j < |items|
    ensures Offset(items[j := it], k) == Offset(items, k)
    decreases k
  {
    if k == 0 {
    } else {
      OffsetStep(items, k - 1);
      OffsetStep(items[j := it], k - 1);
      OffsetOfEdited(items, j, it, k - 1);
    }
  }

  /** The contents with item j of quotient q replaced. */
  ghost function WithItem(runs: seq<Run>, q: nat, j: nat, it: Item): (runs': seq<Run>)
    requires q < |runs| && j < |runs[q]|
    ensures |runs'| == |runs| && |runs'[q]| == |runs[q]| && runs'[q][j] == it
    ensures forall p | 0 <= p < |runs| && p != q :: runs'[p] == runs[p]
    ensures forall i | 0 <= i < |runs[q]| && i != j :: runs'[q][i] == runs[q][i]
  {
    runs[q := runs[q][j := it]]
  }

  lemma EditAgain(runs: seq<Run>, q: nat, j: nat, a: Item, b: Item)
    requires q < |runs| && j < |runs[q]|
    ensures WithItem(WithItem(runs, q, j, a), q, j, b) == WithItem(runs, q, j, b)
  {
    assert runs[q][j := a][j := b] == runs[q][j := b];
  }

  lemma EditNothing(runs: seq<Run>, q: nat, j: nat)
    requires q < |runs| && j < |runs[q]|
    ensures WithItem(runs, q, j, runs[q][j]) == runs
  {
    assert runs[q][j := runs[q][j]] == runs[q];
  }

  /** Editing an item does not move it. */
  lemma EditedStaysPut(runs: seq<Run>, q: nat, j: nat, it: Item)
    requires q < |runs| && j < |runs[q]|
    ensures ItemPos(WithItem(runs, q, j, it), q, j) == ItemPos(runs, q, j)
  {
    OffsetOfEdited(runs[q], j, it, j);
    var runs' := WithItem(runs, q, j, it);
    assert forall i | 0 <= i < q :: Encs(runs)[i] == Encs(runs')[i];
    NextDependsOnLengths(Encs(runs), Encs(runs'), q);
  }

  lemma EditTwice(runs: seq<Run>, q: nat, j: nat, a: Item, b: Item)
    requires q < |runs| && j < |runs[q]|
    ensures WithItem(WithItem(runs, q, j, a), q, j, b) == WithItem(runs, q, j, b)
    ensures ItemPos(WithItem(runs, q, j, b), q, j) == ItemPos(WithItem(runs, q, j, a), q, j)
  {
    EditAgain(runs, q, j, a, b);
    EditedStaysPut(runs, q, j, a);
    EditedStaysPut(runs, q, j, b);
  }

  lemma EditedLength(items: Run, j: nat, it: Item)
    requires j < |items|
    ensures |Encode(items[j := it])| + items[j].Size() == |Encode(items)| + it.Size()
  {
    EncodeSplit(items, j);
    ReplaceItemCells(items, j, it);
  }

  /** The cells behind the extensions of item j, where the next extension or counter cell goes. */
  ghost function TailPos(runs: seq<Run>, q: nat, j: nat): nat
    requires q < |runs| && j < |runs[q]|
  {
    ItemPos(runs, q, j) + 1 + |runs[q][j].ext|
  }

  lemma RunIsOk(runs: seq<Run>, nslots: nat, r: nat, q: nat, j: nat)
    requires RunsOk(runs, nslots, r) && q < |runs| && j < |runs[q]|
    ensures RunOk(runs[q], r) && ItemOk(runs[q][j], r)
  {
  }

  lemma ItemExtended(runs: seq<Run>, cells: seq<Cell>, occ: seq<bool>, off: seq<nat>, nslots: nat, r: nat, limit: nat,
                     q: nat, j: nat, v: nat, ins: nat, e: nat)
    requires Represents(runs, cells, occ, off, nslots, r, limit) && q < |runs| && q < nslots && j < |runs[q]|
    requires runs[q][j].cnt == [] && v < Pow2(r) && ins == TailPos(runs, q, j)
    requires FirstEmpty(Encs(runs), ins, e) && e < limit && e + 1 < |runs|
    ensures var runs' := WithItem(runs, q, j, runs[q][j].(ext := runs[q][j].ext + [v]));
            Represents(runs', ShiftIn(cells, ins, e, Cell(false, false, v))[ins := Cell(false, true, v)],
                       occ, Bump(off, q, e), nslots, r, limit) && Total(runs') == Total(runs) + 1
  {
    hide Placed, Next, Start, Encode, Offset, Bump, RunsOk;
    var it, it' := runs[q][j], runs[q][j].(ext := runs[q][j].ext + [v]);
    RunIsOk(runs, nslots, r, q, j);
    ExtendCells(runs[q], j, v);
    ReplacedIsOk(runs[q], j, it', r);
    EditByInsert(runs, cells, occ, off, nslots, r, limit, q, runs[q][j := it'], Offset(runs[q], j) + 1 + |it.ext|,
                 Cell(false, false, v), Cell(false, true, v), e);
  }

  lemma CounterAdded(runs: seq<Run>, cells: seq<Cell>, occ: seq<bool>, off: seq<nat>, nslots: nat, r: nat, limit: nat,
                     q: nat, j: nat, v: nat, ins: nat, e: nat)
    requires Represents(runs, cells, occ, off, nslots, r, limit) && q < |runs| && q < nslots && j < |runs[q]|
    requires runs[q][j].cnt == [] && 2 <= v < Pow2(r) && ins == TailPos(runs, q, j)
    requires FirstEmpty(Encs(runs), ins, e) && e < limit && e + 1 < |runs|
    ensures var runs' := WithItem(runs, q, j, runs[q][j].(cnt := [v]));
            Represents(runs', ShiftIn(cells, ins, e, Cell(false, false, v))[ins := Cell(true, true, v)],
                       occ, Bump(off, q, e), nslots, r, limit) && Total(runs') == Total(runs) + 1
  {
    hide Placed, Next, Start, Encode, Offset, Bump, RunsOk;
    var it := runs[q][j];
    RunIsOk(runs, nslots, r, q, j);
    AddCounterCells(runs[q], j, v);
    ReplacedIsOk(runs[q], j, it.(cnt := [v]), r);
    EditByInsert(runs, cells, occ, off, nslots, r, limit, q, runs[q][j := it.(cnt := [v])], Offset(runs[q], j) + 1
        + |it.ext|,
                 Cell(false, false, v), Cell(true, true, v), e);
  }

  lemma CounterReused(runs: seq<Run>, cells: seq<Cell>, occ: seq<bool>, off: seq<nat>, nslots: nat, r: nat, limit: nat,
                      q: nat, j: nat, v: nat, p: nat)
    requires Represents(runs, cells, occ, off, nslots, r, limit) && q < |runs| && q < nslots && j < |runs[q]|
    requires |runs[q][j].cnt| == 1 && v < Pow2(r) && p == TailPos(runs, q, j)
    ensures var runs' := WithItem(runs, q, j, Item(runs[q][j].rem, runs[q][j].ext + [v], []));
            p < |cells| && cells[p].IsCounter() &&
            Represents(runs', cells[p := Cell(false, true, v)], occ, off, nslots, r, limit) &&
            Total(runs') == Total(runs)
  {
    hide Placed, Next, Start, Encode, RunsOk;
    var it := runs[q][j];
    ReuseCounterCells(runs[q], j, v);
    RunIsOk(runs, nslots, r, q, j);
    ReplacedIsOk(runs[q], j, Item(it.rem, it.ext + [v], []), r);
    EditInPlace(runs, cells, occ, off, nslots, r, limit, q, runs[q][j := Item(it.rem, it.ext + [v], [])],
                Offset(runs[q], j) + 1 + |it.ext|, Cell(false, true, v));
  }

  lemma CounterSet(runs: seq<Run>, cells: seq<Cell>, occ: seq<bool>, off: seq<nat>, nslots: nat, r: nat, limit: nat,
                   q: nat, j: nat, v: nat, p: nat)
    requires Represents(runs, cells, occ, off, nslots, r, limit) && q < |runs| && q < nslots && j < |runs[q]|
    requires |runs[q][j].cnt| == 1 && 2 <= v < Pow2(r) && p == TailPos(runs, q, j)
    ensures var runs' := WithItem(runs, q, j, runs[q][j].(cnt := [v]));
            p < |cells| && cells[p].IsCounter() &&
            Represents(runs', cells[p := Cell(true, true, v)], occ, off, nslots, r, limit) &&
            Total(runs') == Total(runs)
  {
    hide Placed, Next, Start, Encode, RunsOk;
    var it := runs[q][j];
    SetCounterCells(runs[q], j, v);
    ItemCells(runs[q], j);
    RunIsOk(runs, nslots, r, q, j);
    ReplacedIsOk(runs[q], j, it.(cnt := [v]), r);
    EditInPlace(runs, cells, occ, off, nslots, r, limit, q, runs[q][j := it.(cnt := [v])],
                Offset(runs[q], j) + 1 + |it.ext|, Cell(true, true, v));
  }

  lemma ChunkSet(runs: seq<Run>, cells: seq<Cell>, occ: seq<bool>, off: seq<nat>, nslots: nat, r: nat, limit: nat,
                 q: nat, j: nat, k: nat, v: nat, p: nat)
    requires Represents(runs, cells, occ, off, nslots, r, limit) && q < |runs| && q < nslots && j < |runs[q]|
    requires k < |runs[q][j].ext| && v < Pow2(r) && p == ItemPos(runs, q, j) + 1 + k
    ensures var runs' := WithItem(runs, q, j, runs[q][j].(ext := runs[q][j].ext[k := v]));
            p < |cells| && cells[p].IsExtension() &&
            Represents(runs', cells[p := Cell(false, true, v)], occ, off, nslots, r, limit) &&
            Total(runs') == Total(runs)
  {
    hide Placed, Next, Start, Encode, RunsOk;
    var it := runs[q][j];
    SetChunkCells(runs[q], j, k, v);
    ItemStored(runs, cells, occ, off, q, j);
    TailCell(cells, ItemPos(runs, q, j), it, j + 1 == |runs[q]|, k);
    RunIsOk(runs, nslots, r, q, j);
    ReplacedIsOk(runs[q], j, it.(ext := it.ext[k := v]), r);
    EditInPlace(runs, cells, occ, off, nslots, r, limit, q, runs[q][j := it.(ext := it.ext[k := v])],
                Offset(runs[q], j) + 1 + k, Cell(false, true, v));
  }

  /** The room that one turn of the adapt loop needs: the item is still shorter than its goal. */
  lemma AdaptRoom(runs0: seq<Run>, q: nat, j: nat, it: Item, goal: Item, empty: nat, limit: nat)
    requires q < |runs0| && j < |runs0[q]| && it.cnt == [] && goal.cnt == [] && |it.ext| < |goal.ext|
    requires var runs := WithItem(runs0, q, j, it); FirstEmpty(Encs(runs), TailPos(runs, q, j), empty)
    requires limit < |runs0| || Fits(WithItem(runs0, q, j, goal), |runs0|)
    ensures empty < limit ==> empty + 1 < |runs0|
    ensures Fits(WithItem(runs0, q, j, goal), limit) ==> empty < limit
  {
    var items, items' := runs0[q][j := it], runs0[q][j := goal];
    var runs := runs0[q := items];
    EditedLength(runs0[q], j, it);
    EditedLength(runs0[q], j, goal);
    EncodeSplit(items, j);
    EncsUpdate(runs, q, items');
    assert runs[q := items'] == runs0[q := items'];
    EmptySlotIsSpent(Encs(runs), q, Offset(items, j) + 1 + |it.ext|, empty, Encode(items'));
  }

  /** The first empty slot, if it is below limit, is not the last slot of the last block. */
  ghost predicate EdgeFree(encs: seq<Enc>, from: nat, limit: nat) {
    forall e: nat | FirstEmpty(encs, from, e) && e < limit :: e + 1 < |encs|
  }

  /** Item j can be replaced by its adapted form below limit; a counter slot is only reused when an
      empty slot is in reach as well, because the search for one comes first. */
  ghost predicate AdaptFits(runs: seq<Run>, q: nat, j: nat, goal: Item, limit: nat)
    requires q < |runs| && j < |runs[q]|
  {
    && Fits(WithItem(runs, q, j, goal), limit)
    && (runs[q][j].cnt != [] ==> Room(Encs(runs), TailPos(runs, q, j), limit))
  }

  /** The last slot of the last block is not reached while item j is adapted. */
  ghost predicate AdaptSafe(runs: seq<Run>, q: nat, j: nat, goal: Item, limit: nat)
    requires q < |runs| && j < |runs[q]|
  {
    limit < |runs| || Fits(WithItem(runs, q, j, goal), |runs|)
  }

  lemma AdaptRooms(runs0: seq<Run>, q: nat, j: nat, it: Item, goal: Item, limit: nat)
    requires q < |runs0| && j < |runs0[q]| && goal.cnt == [] && |it.ext| < |goal.ext|
    requires AdaptSafe(runs0, q, j, goal, limit)
    requires it.cnt != [] ==> it == runs0[q][j]
    ensures var runs := WithItem(runs0, q, j, it);
            && (it.cnt == [] ==> EdgeFree(Encs(runs), TailPos(runs, q, j), limit))
            && (AdaptFits(runs0, q, j, goal, limit) ==> Room(Encs(runs), TailPos(runs, q, j), limit))
  {
    var runs := WithItem(runs0, q, j, it);
    if it == runs0[q][j] {
      assert runs0[q][j := it] == runs0[q] && runs == runs0;
    }
    forall e: nat | it.cnt == [] && FirstEmpty(Encs(runs), TailPos(runs, q, j), e)
      ensures e < limit ==> e + 1 < |runs0|
      ensures Fits(WithItem(runs0, q, j, goal), limit) ==> e < limit
    {
      AdaptRoom(runs0, q, j, it, goal, e, limit);
    }
  }

  lemma TailSlot(runs: seq<Run>, cells: seq<Cell>, occ: seq<bool>, off: seq<nat>, nslots: nat, r: nat, limit: nat,
                 q: nat, j: nat)
    requires Represents(runs, cells, occ, off, nslots, r, limit) && q < |runs| && j < |runs[q]|
    ensures TailPos(runs, q, j) < |runs|
  {
    ItemStored(runs, cells, occ, off, q, j);
  }
}
