/** The placement discipline of the quotient filter, on values.
    Every quotient owns a run of cells; runs are stored in quotient order, each starting at its own
    quotient or right behind the previous run, whichever is later. */
module Layout {

  /** One slot with its two metadata bits (the two bits give its kind, src/gqf.c:441-475). */
  datatype Cell = Cell(run: bool, ext: bool, val: nat) {
    predicate IsRunEnd() { run && !ext }
    predicate IsExtension() { ext && !run }
    predicate IsCounter() { ext && run }
    predicate IsBlank() { !run && !ext }
  }

  type Enc = seq<Cell>

  function Max(a: int, b: int): int { if a >= b then a else b }
  function Min(a: int, b: int): int { if a <= b then a else b }

  /** The first slot behind all runs of quotients below q. */
  ghost function Next(encs: seq<Enc>, q: nat): nat
    requires q <= |encs|
  {
    if q == 0 then 0
    else if encs[q - 1] == [] then Next(encs, q - 1)
    else Max(q - 1, Next(encs, q - 1)) + |encs[q - 1]|
  }

  /** Where the run of q is (or would be) stored. */
  ghost function Start(encs: seq<Enc>, q: nat): nat
    requires q < |encs|
  {
    Max(q, Next(encs, q))
  }

  ghost predicate Used(encs: seq<Enc>, i: nat)
    requires i < |encs|
  {
    Next(encs, i + 1) > i
  }

  /** The last slot of the last non-empty run with quotient at most q, or q if that is behind it. */
  ghost function RunEnd(encs: seq<Enc>, q: nat): nat
    requires q < |encs|
  {
    Max(q, Next(encs, q + 1) - 1)
  }

  /** How far the runs of quotients below the block reach into it and beyond. */
  ghost function Spill(encs: seq<Enc>, block: nat): nat
    requires 64 * block <= |encs|
  {
    Max(0, Next(encs, 64 * block) - 64 * block)
  }

  ghost predicate RunAt(encs: seq<Enc>, cells: seq<Cell>, q: nat)
    requires q < |encs|
  {
    var s := Start(encs, q);
    s + |encs[q]| <= |cells| && forall i | s <= i < s + |encs[q]| :: cells[i] == encs[q][i - s]
  }

  /** The cells hold exactly the runs, and nothing is marked anywhere else. */
  ghost predicate Stored(encs: seq<Enc>, cells: seq<Cell>)
  {
    && |encs| == |cells|
    && Next(encs, |encs|) < |encs|
    && (forall q {:trigger RunAt(encs, cells, q)} | 0 <= q < |encs| && encs[q] != [] :: RunAt(encs, cells, q))
    && (forall i {:trigger Used(encs, i)} | 0 <= i < |encs| && !Used(encs, i) :: cells[i].IsBlank())
  }

  lemma {:induction false} NextMonotone(encs: seq<Enc>, p: nat, q: nat)
    requires p <= q <= |encs|
    ensures Next(encs, p) <= Next(encs, q)
    decreases q
  {
    if p == q {
    } else {
      NextMonotone(encs, p, q - 1);
    }
  }

  /** A used slot lies in exactly the run of some quotient at most its own index. */
  lemma {:induction false} UsedHasOwner(encs: seq<Enc>, i: nat, bound: nat) returns (q: nat)
    requires i < |encs| && bound <= i + 1 && Next(encs, bound) > i
    ensures q < bound && encs[q] != [] && Start(encs, q) <= i < Start(encs, q) + |encs[q]|
    decreases bound
  {
    if encs[bound - 1] == [] || Next(encs, bound - 1) > i {
      q := UsedHasOwner(encs, i, bound - 1);
    } else {
      q := bound - 1;
    }
  }

  lemma {:induction false} RunIsUsed(encs: seq<Enc>, q: nat, i: nat)
    requires q < |encs| && encs[q] != [] && Next(encs, |encs|) <= |encs|
    requires Start(encs, q) <= i < Start(encs, q) + |encs[q]|
    ensures i < |encs| && Used(encs, i)
  {
    NextMonotone(encs, q + 1, |encs|);
    NextMonotone(encs, q + 1, i + 1);
  }

  /** All slots from s to the end of the last run with quotient at most s are in use. */
  lemma {:induction false} UsedUntilNext(encs: seq<Enc>, s: nat, i: nat)
    requires s <= i < |encs| && i < Next(encs, s + 1)
    ensures Used(encs, i)
  {
    NextMonotone(encs, s + 1, i + 1);
  }

  lemma {:induction false} UnusedAfterNext(encs: seq<Enc>, q: nat, i: nat)
    requires q <= |encs| && Next(encs, q) <= i < q
    ensures !Used(encs, i)
  {
    NextMonotone(encs, i + 1, q);
  }

  // ---- inserting one cell ---------------------------------------------------------------

  /** The effect of moving entries ins..empty-1 up by one and writing c at ins. */
  function ShiftIn<T>(s: seq<T>, ins: nat, empty: nat, c: T): (r: seq<T>)
    requires ins <= empty < |s|
    ensures |r| == |s|
    ensures forall i | 0 <= i < |s| ::
              r[i] == (if i < ins || i > empty then s[i] else if i == ins then c else s[i - 1])
  {
    s[..ins] + [c] + s[ins..empty] + s[empty + 1..]
  }

  function InsertAt<T>(s: seq<T>, k: nat, c: T): (r: seq<T>)
    requires k <= |s|
    ensures |r| == |s| + 1
    ensures forall i | 0 <= i < |r| :: r[i] == (if i < k then s[i] else if i == k then c else s[i - 1])
  {
    s[..k] + [c] + s[k..]
  }

  /** e is the first unused slot at or behind position k of the run of t. */
  ghost predicate FirstEmpty(encs: seq<Enc>, from: nat, e: nat)
  {
    from <= e < |encs| && !Used(encs, e) && forall i | from <= i < e :: Used(encs, i)
  }

  lemma {:induction false} NextAfterInsertBelow(encs: seq<Enc>, t: nat, enc: Enc, q: nat)
    requires q <= t < |encs|
    ensures Next(encs[t := enc], q) == Next(encs, q)
  {
    NextDependsOnLengths(encs, encs[t := enc], q);
  }

  /** Runs behind the insertion point, up to the empty slot, are packed without gaps. */
  lemma {:induction false} PackedUpToEmpty(encs: seq<Enc>, t: nat, k: nat, e: nat, q: nat)
    requires t < |encs| && k <= |encs[t]| && FirstEmpty(encs, Start(encs, t) + k, e)
    requires t < q <= e
    ensures q <= Next(encs, q) <= e && Start(encs, t) + k <= Next(encs, q)
  {
    var ins := Start(encs, t) + k;
    NextMonotone(encs, q, e + 1);
    NextMonotone(encs, t + 1, q);
    if encs[t] == [] {
      assert Used(encs, t);
    }
    assert Next(encs, t + 1) >= ins;
    if q - 1 >= ins {
      assert Used(encs, q - 1);
    }
  }

  lemma {:induction false} NextAfterInsertWithin(encs: seq<Enc>, t: nat, k: nat, c: Cell, e: nat, q: nat)
    requires t < |encs| && k <= |encs[t]| && FirstEmpty(encs, Start(encs, t) + k, e)
    requires t < q <= e
    ensures Next(encs[t := InsertAt(encs[t], k, c)], q) == Next(encs, q) + 1
    decreases q
  {
    var encs' := encs[t := InsertAt(encs[t], k, c)];
    PackedUpToEmpty(encs, t, k, e, q);
    if q == t + 1 {
      NextAfterInsertBelow(encs, t, encs'[t], t);
      assert Next(encs', q) == Start(encs, t) + |encs[t]| + 1;
    } else {
      NextAfterInsertWithin(encs, t, k, c, e, q - 1);
      PackedUpToEmpty(encs, t, k, e, q - 1);
    }
  }

  lemma {:induction false} NextAfterInsertBehind(encs: seq<Enc>, t: nat, k: nat, c: Cell, e: nat, q: nat)
    requires t < |encs| && k <= |encs[t]| && FirstEmpty(encs, Start(encs, t) + k, e)
    requires e < q <= |encs|
    ensures var n := Next(encs[t := InsertAt(encs[t], k, c)], q);
            n == Next(encs, q) || (Next(encs, q) <= e && n == e + 1)
    decreases q
  {
    var encs' := encs[t := InsertAt(encs[t], k, c)];
    if q == e + 1 {
      if t == e {
        NextAfterInsertBelow(encs, t, encs'[t], t);
      } else {
        NextAfterInsertWithin(encs, t, k, c, e, e);
        PackedUpToEmpty(encs, t, k, e, e);
        assert Next(encs, e + 1) <= e;
        if encs[e] != [] {
          RunIsUsedAt(encs, e);
        }
      }
    } else {
      NextAfterInsertBehind(encs, t, k, c, e, q - 1);
    }
  }

  lemma {:induction false} RunIsUsedAt(encs: seq<Enc>, q: nat)
    requires q < |encs| && encs[q] != []
    ensures Used(encs, q)
  {
  }

  /** Cached offsets move exactly as insert_one_slot moves them. */
  lemma {:induction false} SpillAfterInsert(encs: seq<Enc>, t: nat, k: nat, c: Cell, e: nat, block: nat)
    requires t < |encs| && k <= |encs[t]| && FirstEmpty(encs, Start(encs, t) + k, e)
    requires 64 * block <= |encs|
    ensures Spill(encs[t := InsertAt(encs[t], k, c)], block)
         == Spill(encs, block) + if t / 64 < block <= e / 64 then 1 else 0
  {
    var q := 64 * block;
    if q <= t {
      NextAfterInsertBelow(encs, t, InsertAt(encs[t], k, c), q);
    } else if q <= e {
      NextAfterInsertWithin(encs, t, k, c, e, q);
      PackedUpToEmpty(encs, t, k, e, q);
    } else {
      NextAfterInsertBehind(encs, t, k, c, e, q);
    }
  }

  lemma {:induction false} InsertKeepsRunBelow(encs: seq<Enc>, cells: seq<Cell>, t: nat, k: nat, c: Cell, e: nat,
                                               q: nat)
    requires |cells| == |encs|
    requires t < |encs| && k <= |encs[t]| && FirstEmpty(encs, Start(encs, t) + k, e)
    requires q < t && encs[q] != [] && RunAt(encs, cells, q)
    ensures RunAt(encs[t := InsertAt(encs[t], k, c)], ShiftIn(cells, Start(encs, t) + k, e, c), q)
  {
    var encs' := encs[t := InsertAt(encs[t], k, c)];
    NextAfterInsertBelow(encs, t, InsertAt(encs[t], k, c), q);
    NextMonotone(encs, q + 1, t);
    assert Start(encs', q) == Start(encs, q);
    assert encs'[q] == encs[q];
  }

  lemma {:induction false} InsertKeepsRunHere(encs: seq<Enc>, cells: seq<Cell>, t: nat, k: nat, c: Cell, e: nat)
    requires |cells| == |encs|
    requires t < |encs| && k <= |encs[t]| && FirstEmpty(encs, Start(encs, t) + k, e)
    requires RunAt(encs, cells, t) || encs[t] == []
    ensures RunAt(encs[t := InsertAt(encs[t], k, c)], ShiftIn(cells, Start(encs, t) + k, e, c), t)
  {
    var encs' := encs[t := InsertAt(encs[t], k, c)];
    NextAfterInsertBelow(encs, t, InsertAt(encs[t], k, c), t);
    assert Start(encs', t) == Start(encs, t);
    if encs[t] != [] {
      RunIsUsedAt(encs, t);
      NextMonotone(encs, t + 1, e + 1);
    }
  }

  lemma {:induction false} InsertKeepsRunWithin(encs: seq<Enc>, cells: seq<Cell>, t: nat, k: nat, c: Cell, e: nat,
                                                q: nat)
    requires |cells| == |encs|
    requires t < |encs| && k <= |encs[t]| && FirstEmpty(encs, Start(encs, t) + k, e)
    requires t < q < e && encs[q] != [] && RunAt(encs, cells, q)
    ensures RunAt(encs[t := InsertAt(encs[t], k, c)], ShiftIn(cells, Start(encs, t) + k, e, c), q)
  {
    NextAfterInsertWithin(encs, t, k, c, e, q);
    PackedUpToEmpty(encs, t, k, e, q);
    PackedUpToEmpty(encs, t, k, e, q + 1);
  }

  lemma {:induction false} InsertKeepsRunBehind(encs: seq<Enc>, cells: seq<Cell>, t: nat, k: nat, c: Cell, e: nat,
                                                q: nat)
    requires |cells| == |encs|
    requires t < |encs| && k <= |encs[t]| && FirstEmpty(encs, Start(encs, t) + k, e)
    requires e < q < |encs| && encs[q] != [] && RunAt(encs, cells, q)
    ensures RunAt(encs[t := InsertAt(encs[t], k, c)], ShiftIn(cells, Start(encs, t) + k, e, c), q)
  {
    NextAfterInsertBehind(encs, t, k, c, e, q);
    NextMonotone(encs, t + 1, q);
  }

  lemma {:induction false} InsertKeepsRun(encs: seq<Enc>, cells: seq<Cell>, t: nat, k: nat, c: Cell, e: nat, q: nat)
    requires Stored(encs, cells)
    requires t < |encs| && k <= |encs[t]| && FirstEmpty(encs, Start(encs, t) + k, e)
    requires q < |encs| && (q == t || encs[q] != [])
    ensures RunAt(encs[t := InsertAt(encs[t], k, c)], ShiftIn(cells, Start(encs, t) + k, e, c), q)
  {
    assert q != t ==> RunAt(encs, cells, q);
    if q == t {
      assert encs[t] != [] ==> RunAt(encs, cells, t);
      InsertKeepsRunHere(encs, cells, t, k, c, e);
    } else if q < t {
      InsertKeepsRunBelow(encs, cells, t, k, c, e, q);
    } else if q < e {
      InsertKeepsRunWithin(encs, cells, t, k, c, e, q);
    } else if q > e {
      InsertKeepsRunBehind(encs, cells, t, k, c, e, q);
    } else {
      RunIsUsedAt(encs, e);
    }
  }

  /** Exactly the empty slot becomes used. */
  lemma {:induction false} UsedAfterInsert(encs: seq<Enc>, t: nat, k: nat, c: Cell, e: nat, i: nat)
    requires t < |encs| && k <= |encs[t]| && FirstEmpty(encs, Start(encs, t) + k, e)
    requires i < |encs|
    ensures Used(encs[t := InsertAt(encs[t], k, c)], i) <==> (Used(encs, i) || i == e)
  {
    if i < t {
      NextAfterInsertBelow(encs, t, InsertAt(encs[t], k, c), i + 1);
    } else if i < e {
      NextAfterInsertWithin(encs, t, k, c, e, i + 1);
      PackedUpToEmpty(encs, t, k, e, i + 1);
    } else if i == e {
      NextAfterInsertAtEmpty(encs, t, k, c, e);
    } else {
      NextAfterInsertBehind(encs, t, k, c, e, i + 1);
    }
  }

  lemma {:induction false} NextAfterInsertAtEmpty(encs: seq<Enc>, t: nat, k: nat, c: Cell, e: nat)
    requires t < |encs| && k <= |encs[t]| && FirstEmpty(encs, Start(encs, t) + k, e)
    ensures Next(encs[t := InsertAt(encs[t], k, c)], e + 1) == e + 1
  {
    var encs' := encs[t := InsertAt(encs[t], k, c)];
    if t == e {
      NextAfterInsertBelow(encs, t, encs'[t], t);
    } else {
      NextAfterInsertWithin(encs, t, k, c, e, e);
      PackedUpToEmpty(encs, t, k, e, e);
      if encs[e] != [] {
        RunIsUsedAt(encs, e);
      }
    }
  }

  /** Shifting one cell into a run, up to the next empty slot, stores the longer run and leaves
      every other run as it was. */
  lemma {:induction false} InsertKeepsStored(encs: seq<Enc>, cells: seq<Cell>, t: nat, k: nat, c: Cell, e: nat)
    requires Stored(encs, cells)
    requires t < |encs| && k <= |encs[t]| && FirstEmpty(encs, Start(encs, t) + k, e)
    requires e + 1 < |encs|
    ensures Stored(encs[t := InsertAt(encs[t], k, c)], ShiftIn(cells, Start(encs, t) + k, e, c))
  {
    var encs' := encs[t := InsertAt(encs[t], k, c)];
    var cells' := ShiftIn(cells, Start(encs, t) + k, e, c);
    NextAfterInsertBehind(encs, t, k, c, e, |encs|);
    forall q | 0 <= q < |encs'| && encs'[q] != []
      ensures RunAt(encs', cells', q)
    {
      InsertKeepsRun(encs, cells, t, k, c, e, q);
    }
    forall i | 0 <= i < |encs'| && !Used(encs', i)
      ensures cells'[i].IsBlank()
    {
      UsedAfterInsert(encs, t, k, c, e, i);
      assert !Used(encs, i) && i != e;
      assert cells'[i] == cells[i];
    }
  }

  lemma {:induction false} UpdateKeepsRun(encs: seq<Enc>, cells: seq<Cell>, t: nat, k: nat, c: Cell, q: nat)
    requires |cells| == |encs| && t < |encs| && k < |encs[t]| && q < |encs| && encs[q] != []
    requires RunAt(encs, cells, q) && Start(encs, t) + k < |cells|
    ensures RunAt(encs[t := encs[t][k := c]], cells[Start(encs, t) + k := c], q)
  {
    var encs' := encs[t := encs[t][k := c]];
    NextDependsOnLengths(encs, encs', q);
    NextDependsOnLengths(encs, encs', t);
    assert Start(encs', q) == Start(encs, q);
    if q < t {
      NextMonotone(encs, q + 1, t);
    } else if q > t {
      NextMonotone(encs, t + 1, q);
    }
  }

  lemma {:induction false} NextAfterUpdate(encs: seq<Enc>, t: nat, k: nat, c: Cell, q: nat)
    requires t < |encs| && k < |encs[t]| && q <= |encs|
    ensures Next(encs[t := encs[t][k := c]], q) == Next(encs, q)
  {
    NextDependsOnLengths(encs, encs[t := encs[t][k := c]], q);
  }

  /** Rewriting a cell of a run in place. */
  lemma {:induction false} UpdateKeepsStored(encs: seq<Enc>, cells: seq<Cell>, t: nat, k: nat, c: Cell)
    requires Stored(encs, cells)
    requires t < |encs| && k < |encs[t]|
    ensures Start(encs, t) + k < |cells|
    ensures Stored(encs[t := encs[t][k := c]], cells[Start(encs, t) + k := c])
  {
    var encs' := encs[t := encs[t][k := c]];
    RunIsUsed(encs, t, Start(encs, t) + k);
    var cells' := cells[Start(encs, t) + k := c];
    NextAfterUpdate(encs, t, k, c, |encs|);
    forall q | 0 <= q < |encs'| && encs'[q] != []
      ensures RunAt(encs', cells', q)
    {
      assert encs[q] != [] && RunAt(encs, cells, q);
      UpdateKeepsRun(encs, cells, t, k, c, q);
    }
    forall i | 0 <= i < |encs'| && !Used(encs', i)
      ensures cells'[i].IsBlank()
    {
      NextAfterUpdate(encs, t, k, c, i + 1);
      assert !Used(encs, i);
    }
  }

  lemma {:induction false} NextDependsOnLengths(encs: seq<Enc>, encs': seq<Enc>, q: nat)
    requires |encs| == |encs'| && q <= |encs|
    requires forall i | 0 <= i < q :: |encs[i]| == |encs'[i]|
    ensures Next(encs, q) == Next(encs', q)
  {
    if q == 0 {
    } else {
      NextDependsOnLengths(encs, encs', q - 1);
    }
  }
}
