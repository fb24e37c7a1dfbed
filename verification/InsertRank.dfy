/** The rank that an insert reports: what the rank loop of insert_using_ll_table (src/gqf.c:1441-1447)
    counts, slot by slot, and when that is the length of the minirun. */
module InsertRank {
  import opened Layout
  import opened Items
  import opened Runs
  import opened Contents
  import opened Navigation

  /** The first slot from i on that is no extension and no counter. */
  function BaseFrom(cells: seq<Cell>, i: nat): (k: nat)
    requires i <= |cells|
    ensures i <= k <= |cells|
    ensures i < |cells| && !cells[i].ext ==> k == i
    decreases |cells| - i
  {
    if i < |cells| && cells[i].ext then BaseFrom(cells, i + 1) else i
  }

  /** What the loop counts from slot `at` on. It compares every slot that it comes to as if it were a
      base slot. The end of the slots ends it. */
  function RankLoop(cells: seq<Cell>, at: nat, rem: nat): (k: nat)
    ensures k > 0 <==> at < |cells| && cells[at].val == rem
    decreases if at < |cells| then |cells| - at else 0
  {
    if at >= |cells| || cells[at].val != rem then 0
    else if cells[at].IsRunEnd() then 1
    else 1 + RankLoop(cells, BaseFrom(cells, at) + 1, rem)
  }

  /** The reported rank: zero if the remainder is new. */
  ghost function ReportedRank(cells: seq<Cell>, items: Run, s: nat, rem: nat): nat {
    var p := LowerBound(items, rem);
    if p < |items| && items[p].rem == rem then RankLoop(cells, s + Offset(items, p), rem) else 0
  }

  // ---- when it is the length of the minirun -------------------------------------------------------

  /** The value in the slot behind the base slot of item i: its first extension or counter, or the next
      remainder, or what follows the run. */
  ghost function Behind(items: Run, i: nat, follows: nat): nat
    requires i < |items|
  {
    (items[i].ext + items[i].cnt + [if i + 1 < |items| then items[i + 1].rem else follows])[0]
  }

  /** The loop comes to item i on its base slot, not on a slot of the item before. */
  ghost predicate ByBase(items: Run, rem: nat, i: nat)
    requires i < |items|
  {
    i == 0 || items[i - 1].rem != rem || items[i - 1].Size() == 1
  }

  /** Where the loop comes to item i. */
  ghost function Arrival(items: Run, s: nat, rem: nat, i: nat): nat
    requires i < |items|
  {
    if ByBase(items, rem, i) then s + Offset(items, i) else s + Offset(items, i - 1) + 1
  }

  /** From item i on, the slot behind a base slot looks like a further item with the remainder exactly
      when there is one; for the last item of the run it does not matter if the loop sees its mark. */
  ghost predicate LooksRight(items: Run, rem: nat, follows: nat, i: nat) {
    forall j | i <= j < |items| && items[j].rem == rem ::
      if j + 1 < |items| && items[j + 1].rem == rem then Behind(items, j, follows) == rem
      else Behind(items, j, follows) != rem || (j + 1 == |items| && ByBase(items, rem, j))
  }

  /** The value in the slot behind a run. */
  ghost function Follows(cells: seq<Cell>, items: Run, s: nat): nat {
    var e := s + Offset(items, |items|);
    if e < |cells| then cells[e].val else 0
  }

  lemma {:induction false} TailEndsAtBase(cells: seq<Cell>, p: nat, it: Item, last: bool, k: nat)
    requires StoredAt(cells, p, it, last) && 1 <= k <= it.Size()
    ensures BaseFrom(cells, p + k) == p + it.Size()
    decreases it.Size() - k
  {
    TailCell(cells, p, it, last, k - 1);
    if k < it.Size() {
      TailEndsAtBase(cells, p, it, last, k + 1);
    }
  }

  lemma BehindIs(cells: seq<Cell>, items: Run, s: nat, r: nat, limit: nat, i: nat)
    requires Readable(cells, items, s, r, limit) && i < |items|
    ensures var at := s + Offset(items, i) + 1;
            at < |cells| && cells[at].val == Behind(items, i, Follows(cells, items, s))
  {
    ReadItem(cells, items, s, r, limit, i);
    TailCell(cells, s + Offset(items, i), items[i], i + 1 == |items|, 0);
    if i + 1 < |items| {
      ReadItem(cells, items, s, r, limit, i + 1);
    }
  }

  /** One turn: the loop goes on with the slot behind the base slot of item i, however it came to i,
      unless it sees there the mark of the run's end. */
  lemma RankTurn(cells: seq<Cell>, items: Run, s: nat, r: nat, limit: nat, rem: nat, i: nat)
    requires Readable(cells, items, s, r, limit) && i < |items| && items[i].rem == rem
    requires ByBase(items, rem, i) || Behind(items, i - 1, Follows(cells, items, s)) == rem
    ensures RankLoop(cells, Arrival(items, s, rem, i), rem)
         == if ByBase(items, rem, i) && i + 1 == |items| then 1 else 1 + RankLoop(cells, s + Offset(items, i) + 1, rem)
  {
    hide Readable, Behind, Follows, RankLoop, BaseFrom, ItemOk;
    ReadItem(cells, items, s, r, limit, i);
    if ByBase(items, rem, i) {
      LoopStep(cells, s + Offset(items, i), rem);
    } else {
      ReadItem(cells, items, s, r, limit, i - 1);
      BehindIs(cells, items, s, r, limit, i - 1);
      TailCell(cells, s + Offset(items, i - 1), items[i - 1], false, 0);
      TailEndsAtBase(cells, s + Offset(items, i - 1), items[i - 1], false, 1);
      LoopStep(cells, s + Offset(items, i - 1) + 1, rem);
    }
  }

  lemma LoopStep(cells: seq<Cell>, at: nat, rem: nat)
    requires at < |cells| && cells[at].val == rem
    ensures RankLoop(cells, at, rem) == if cells[at].IsRunEnd() then 1 else 1 + RankLoop(cells, BaseFrom(cells, at) + 1, rem)
  {
  }

  lemma {:induction false} RankFrom(cells: seq<Cell>, items: Run, s: nat, r: nat, limit: nat, rem: nat, i: nat)
    requires Readable(cells, items, s, r, limit) && Sorted(items) && i < |items| && items[i].rem == rem
    requires ByBase(items, rem, i) || Behind(items, i - 1, Follows(cells, items, s)) == rem
    ensures RankLoop(cells, Arrival(items, s, rem, i), rem) + RankBefore(items, rem, i) == RankBefore(items, rem,
            |items|) <==>
            LooksRight(items, rem, Follows(cells, items, s), i)
    decreases |items| - i
  {
    hide Readable, RankLoop, Behind, Follows, RankBefore;
    var follows := Follows(cells, items, s);
    RankTurn(cells, items, s, r, limit, rem, i);
    BehindIs(cells, items, s, r, limit, i);
    RankStep(items, rem, i);
    if i + 1 < |items| && items[i + 1].rem == rem {
      RankMonotone(items, rem, i + 1, |items|);
      if Behind(items, i, follows) == rem {
        ReadItem(cells, items, s, r, limit, i);
        RankFrom(cells, items, s, r, limit, rem, i + 1);
      } else {
        RankStep(items, rem, i + 1);
        RankMonotone(items, rem, i + 2, |items|);
      }
    } else {
      forall j | i + 1 <= j < |items|
        ensures items[j].rem != rem
      {
        assert items[i].rem <= items[i + 1].rem <= items[j].rem;
      }
      RankAboveMinirun(items, rem, i + 1, |items|);
    }
  }

  /** The reported rank is the length of the minirun if and only if, for every item of the minirun, the
      slot behind its base slot has the remainder exactly when another item of the minirun follows. */
  lemma ReportedRankExact(cells: seq<Cell>, items: Run, s: nat, r: nat, limit: nat, rem: nat)
    requires Readable(cells, items, s, r, limit) && Sorted(items)
    ensures ReportedRank(cells, items, s, rem) == RankBefore(items, rem, |items|) <==>
            LooksRight(items, rem, Follows(cells, items, s), 0)
  {
    hide Readable, RankLoop, Behind, Follows, LooksRight, RankBefore;
    var p := LowerBound(items, rem);
    RankBelowLowerBound(items, rem, p);
    LooksRightFrom(items, rem, Follows(cells, items, s), p);
    if p < |items| && items[p].rem == rem {
      RankFrom(cells, items, s, r, limit, rem, p);
    } else {
      forall i | p <= i < |items|
        ensures items[i].rem != rem
      {
        assert items[p].rem <= items[i].rem;
      }
      RankAboveMinirun(items, rem, p, |items|);
      LooksRightFrom(items, rem, Follows(cells, items, s), |items|);
    }
  }

  lemma LooksRightFrom(items: Run, rem: nat, follows: nat, p: nat)
    requires p <= |items| && forall i | 0 <= i < p :: items[i].rem != rem
    ensures LooksRight(items, rem, follows, 0) <==> LooksRight(items, rem, follows, p)
    ensures p == |items| ==> LooksRight(items, rem, follows, p)
  {
    hide Behind, ByBase;
  }

  /** Without extensions and counters it always is. */
  lemma PlainLooksRight(items: Run, rem: nat, follows: nat)
    requires forall i | 0 <= i < |items| :: items[i].Size() == 1
    ensures LooksRight(items, rem, follows, 0)
  {
  }

  /** An extended item hides the item behind it: the loop counts one item of two. */
  lemma ExtendedItemHides()
    ensures var items := [Item(5, [1], []), Item(5, [], [])];
            var cells := [Cell(false, false, 5), Cell(false, true, 1), Cell(true, false, 5), Cell(false, false, 0)];
            && Readable(cells, items, 0, 3, 4) && Sorted(items)
            && ReportedRank(cells, items, 0, 5) == 1 && RankBefore(items, 5, |items|) == 2
  {
    var items := [Item(5, [1], []), Item(5, [], [])];
    RankStep(items, 5, 0);
    RankStep(items, 5, 1);
    LowerBoundUnique(items, 5, 0);
    assert Offset(items, 1) == 2;
  }

  /** A chunk that equals the remainder is counted as an item: the loop counts two items of one. */
  lemma ChunkLooksLikeItem()
    ensures var items := [Item(5, [5], []), Item(7, [], [])];
            var cells := [Cell(false, false, 5), Cell(false, true, 5), Cell(true, false, 7), Cell(false, false, 0)];
            && Readable(cells, items, 0, 3, 4) && Sorted(items)
            && ReportedRank(cells, items, 0, 5) == 2 && RankBefore(items, 5, |items|) == 1
  {
    var items := [Item(5, [5], []), Item(7, [], [])];
    RankStep(items, 5, 0);
    RankStep(items, 5, 1);
    LowerBoundUnique(items, 5, 0);
    assert Offset(items, 1) == 2;
  }
}
