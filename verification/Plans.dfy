/** What can be done about false positives over a whole query sequence, and what it costs: a plan
    decides for every query whether a false positive is tolerated, counted or adapted to. */
module Plans {
  import opened Numbers
  import opened Layout
  import opened Items
  import opened Hashes
  import opened Runs
  import opened Contents
  import opened Navigation
  import opened Edits
  import opened Agreement
  import opened Loading
  import opened Adapting

  /** Whose fingerprints the filter holds, its parameters, and what an adaptation costs, in false
      positives. */
  datatype Policy = Policy(keys: seq<seq<nat>>, breakEven: nat, qbits: nat, r: nat)

  datatype Decision = Tolerate | Count | Adapt

  // ---- one query --------------------------------------------------------------------------------

  ghost predicate FilterOf(runs: seq<Run>, p: Policy) {
    |runs| >= Pow2(p.qbits) && p.r > 0 && AllOwned(runs, p.keys, p.qbits, p.r)
  }

  ghost function Bucket(runs: seq<Run>, h: nat, p: Policy): Run
    requires FilterOf(runs, p)
  {
    runs[Quotient(h, p.qbits, p.r)]
  }

  ghost function HitOf(items: Run, h: nat, p: Policy): (m: nat)
    ensures m <= |items|
  {
    FirstMatch(items, h, p.qbits, p.r, 0)
  }

  ghost predicate IsHit(items: Run, h: nat, p: Policy) {
    HitOf(items, h, p) < |items|
  }

  /** The hash was never loaded. */
  ghost predicate Foreign(h: nat, p: Policy) {
    |p.keys| >= Pow2(p.qbits) && h < Pow2(HASH_BITS) && !IsOwner(p.keys, h, p.qbits, p.r)
  }

  ghost predicate FalseHit(runs: seq<Run>, h: nat, p: Policy)
    requires FilterOf(runs, p)
  {
    Foreign(h, p) && IsHit(Bucket(runs, h, p), h, p)
  }

  /** Only false positives change the filter. */
  ghost function PlanStep(runs: seq<Run>, h: nat, d: Decision, p: Policy): (runs': seq<Run>)
    requires FilterOf(runs, p)
    ensures |runs'| == |runs|
  {
    if !FalseHit(runs, h, p) then runs
    else
      OwnedAt(runs, p.keys, p.qbits, p.r, Quotient(h, p.qbits, p.r));
      match d
      case Tolerate => runs
      case Count => CountHit(runs, p.keys, h, p.qbits, p.r, HitOf(Bucket(runs, h, p), h, p))
      case Adapt => AdaptHit(runs, p.keys, h, p.qbits, p.r, HitOf(Bucket(runs, h, p), h, p))
  }

  /** What the step does to the item it hits. */
  ghost function ItemAfter(runs: seq<Run>, h: nat, d: Decision, p: Policy): Item
    requires FilterOf(runs, p) && IsHit(Bucket(runs, h, p), h, p)
  {
    var items, m := Bucket(runs, h, p), HitOf(Bucket(runs, h, p), h, p);
    OwnedAt(runs, p.keys, p.qbits, p.r, Quotient(h, p.qbits, p.r));
    match d
    case Tolerate => items[m]
    case Count => items[m].(cnt := [ItemCount(items[m], p.r) + 1])
    case Adapt => Separated(runs, p.keys, h, p.qbits, p.r, m)
  }

  lemma EditMayBecome(runs: seq<Run>, keys: seq<seq<nat>>, h: nat, qbits: nat, r: nat, m: nat, it: Item)
    requires |runs| >= Pow2(qbits) && r > 0 && Hits(runs, keys, h, qbits, r, m)
    requires it == Separated(runs, keys, h, qbits, r, m) || OnlyRecounted(runs[Quotient(h, qbits, r)][m], it)
    ensures MayBecome(runs, WithItem(runs, Quotient(h, qbits, r), m, it), keys, h, qbits, r)
  {
  }

  lemma StepIsEdit(runs: seq<Run>, h: nat, d: Decision, p: Policy)
    requires FilterOf(runs, p)
    ensures FilterOf(PlanStep(runs, h, d, p), p) && MayBecome(runs, PlanStep(runs, h, d, p), p.keys, h, p.qbits, p.r)
    ensures !FalseHit(runs, h, p) ==> PlanStep(runs, h, d, p) == runs
    ensures FalseHit(runs, h, p) ==>
              PlanStep(runs, h, d, p)
              == WithItem(runs, Quotient(h, p.qbits, p.r), HitOf(Bucket(runs, h, p), h, p), ItemAfter(runs, h, d, p))
  {
    hide FirstMatch, Foreign, AllOwned, MayBecome;
    OwnedAt(runs, p.keys, p.qbits, p.r, Quotient(h, p.qbits, p.r));
    if FalseHit(runs, h, p) {
      var q, m := Quotient(h, p.qbits, p.r), HitOf(Bucket(runs, h, p), h, p);
      EditMayBecome(runs, p.keys, h, p.qbits, p.r, m, ItemAfter(runs, h, d, p));
      assert runs[q][m := runs[q][m]] == runs[q] && runs[q := runs[q]] == runs;
    } else {
      Unchanged(runs, p.keys, h, p.qbits, p.r);
    }
    StepKeepsOwners(runs, PlanStep(runs, h, d, p), p.keys, h, p.qbits, p.r);
  }

  // ---- how a step looks to another hash -----------------------------------------------------------

  /** Item j of quotient q accepts the foreign query h. */
  ghost predicate Takes(runs: seq<Run>, q: nat, j: nat, h: nat, p: Policy)
    requires q < |runs| && j < |runs[q]|
  {
    Foreign(h, p) && Quotient(h, p.qbits, p.r) == q && Matches(runs[q][j], h, p.qbits, p.r)
  }

  /** No stored item accepts two different foreign queries of the sequence. */
  ghost predicate Disjoint(runs: seq<Run>, hs: seq<nat>, p: Policy) {
    forall q, j, g, h | 0 <= q < |runs| && 0 <= j < |runs[q]| && g in hs && h in hs && g != h ::
      !(Takes(runs, q, j, g, p) && Takes(runs, q, j, h, p))
  }

  /** A step lets no item take a query that it did not take before. */
  lemma TakenBefore(runs: seq<Run>, g: nat, d: Decision, p: Policy, q: nat, j: nat, h: nat)
    requires FilterOf(runs, p) && q < |runs| && j < |runs[q]|
    requires |PlanStep(runs, g, d, p)[q]| == |runs[q]| && Takes(PlanStep(runs, g, d, p), q, j, h, p)
    ensures Takes(runs, q, j, h, p)
  {
    StepExtends(runs, g, d, p);
    LongerAcceptsLess(runs[q][j], PlanStep(runs, g, d, p)[q][j], h, p.qbits, p.r);
  }

  lemma StepKeepsDisjoint(runs: seq<Run>, g: nat, d: Decision, hs: seq<nat>, p: Policy)
    requires FilterOf(runs, p) && Disjoint(runs, hs, p)
    ensures Disjoint(PlanStep(runs, g, d, p), hs, p)
  {
    hide FilterOf, PlanStep, Extends, Takes;
    var runs' := PlanStep(runs, g, d, p);
    StepExtends(runs, g, d, p);
    forall q, j, x, y | 0 <= q < |runs'| && 0 <= j < |runs'[q]| && x in hs && y in hs && x != y
      ensures !(Takes(runs', q, j, x, p) && Takes(runs', q, j, y, p))
    {
      if Takes(runs', q, j, x, p) && Takes(runs', q, j, y, p) {
        TakenBefore(runs, g, d, p, q, j, x);
        TakenBefore(runs, g, d, p, q, j, y);
      }
    }
  }

  lemma StepExtends(runs: seq<Run>, g: nat, d: Decision, p: Policy)
    requires FilterOf(runs, p)
    ensures var runs' := PlanStep(runs, g, d, p);
            && |runs'| == |runs| && (forall q | 0 <= q < |runs| :: |runs'[q]| == |runs[q]|)
            && forall q, j | 0 <= q < |runs| && 0 <= j < |runs[q]| :: Extends(runs'[q][j], runs[q][j])
  {
    StepIsEdit(runs, g, d, p);
    StepKeepsOwners(runs, PlanStep(runs, g, d, p), p.keys, g, p.qbits, p.r);
  }

  ghost function Matching(items: Run, h: nat, p: Policy): nat {
    CountMatches(items, h, p.qbits, p.r, |items|)
  }

  lemma HitIffMatching(items: Run, h: nat, p: Policy)
    ensures IsHit(items, h, p) <==> Matching(items, h, p) > 0
  {
    CountMatchesZero(items, h, p.qbits, p.r, |items|);
    if IsHit(items, h, p) {
      assert Matches(items[HitOf(items, h, p)], h, p.qbits, p.r);
    }
  }

  /** At most an item that does not accept h was changed, and it still does not. */
  ghost predicate Bystander(items: Run, items': Run, h: nat, p: Policy) {
    items' == items ||
    exists k: nat, it ::
      k < |items| && items' == items[k := it] && !Matches(items[k], h, p.qbits, p.r) && !Matches(it, h, p.qbits, p.r)
  }

  /** The items that h can hit after a query for g: adapting takes h off the item that it hit, and
      queries for other hashes do not concern h. */
  ghost predicate Seen(items: Run, items': Run, g: nat, d: Decision, h: nat, p: Policy) {
    if g == h && IsHit(items, h, p) then
      var m := HitOf(items, h, p);
      match d
      case Tolerate => items' == items
      case Count => items' == items[m := items[m].(cnt := [ItemCount(items[m], p.r) + 1])]
      case Adapt => |items'| == |items| && items' == items[m := items'[m]] && !Matches(items'[m], h, p.qbits, p.r)
    else Bystander(items, items', h, p)
  }

  lemma StepSeen(runs: seq<Run>, g: nat, d: Decision, h: nat, hs: seq<nat>, p: Policy)
    requires FilterOf(runs, p) && Disjoint(runs, hs, p) && g in hs && h in hs && Foreign(h, p)
    ensures FilterOf(PlanStep(runs, g, d, p), p)
    ensures Seen(Bucket(runs, h, p), Bucket(PlanStep(runs, g, d, p), h, p), g, d, h, p)
  {
    hide Matches, Foreign, Disjoint, PlanStep, ItemAfter, FirstMatch;
    StepIsEdit(runs, g, d, p);
    if FalseHit(runs, g, p) && g == h {
      HitSeen(runs, d, h, p);
    } else if FalseHit(runs, g, p) && Quotient(g, p.qbits, p.r) == Quotient(h, p.qbits, p.r) {
      OtherStaysOff(runs, g, d, h, hs, p);
    }
  }

  lemma HitSeen(runs: seq<Run>, d: Decision, h: nat, p: Policy)
    requires FilterOf(runs, p) && FalseHit(runs, h, p)
    ensures FilterOf(PlanStep(runs, h, d, p), p)
    ensures Seen(Bucket(runs, h, p), Bucket(PlanStep(runs, h, d, p), h, p), h, d, h, p)
  {
    hide PlanStep, MayBecome, AllOwned;
    StepIsEdit(runs, h, d, p);
    AcceptsIffFound(runs, h, p.qbits, p.r);
    AdaptationSeparates(runs, p.keys, h, p.qbits, p.r);
  }

  lemma OtherStaysOff(runs: seq<Run>, g: nat, d: Decision, h: nat, hs: seq<nat>, p: Policy)
    requires FilterOf(runs, p) && Disjoint(runs, hs, p) && g in hs && h in hs && g != h && Foreign(h, p)
             && FalseHit(runs, g, p)
    requires Quotient(g, p.qbits, p.r) == Quotient(h, p.qbits, p.r)
    ensures !Matches(Bucket(runs, g, p)[HitOf(Bucket(runs, g, p), g, p)], h, p.qbits, p.r)
    ensures !Matches(ItemAfter(runs, g, d, p), h, p.qbits, p.r)
  {
    StepIsEdit(runs, g, d, p);
    StepExtends(runs, g, d, p);
    var q, m := Quotient(g, p.qbits, p.r), HitOf(Bucket(runs, g, p), g, p);
    assert Takes(runs, q, m, g, p);
    assert !Takes(runs, q, m, h, p);
    if Matches(ItemAfter(runs, g, d, p), h, p.qbits, p.r) {
      LongerAcceptsLess(runs[q][m], PlanStep(runs, g, d, p)[q][m], h, p.qbits, p.r);
    }
  }

  lemma SeenMatching(items: Run, items': Run, g: nat, d: Decision, h: nat, p: Policy)
    requires Seen(items, items', g, d, h, p)
    ensures Matching(items', h, p) == Matching(items, h, p) - if g == h && IsHit(items, h, p)
            && d == Adapt then 1 else 0
  {
    if g == h && IsHit(items, h, p) {
      var m := HitOf(items, h, p);
      assert Matches(items[m], h, p.qbits, p.r);
      if d != Tolerate {
        CountMatchesAfterEdit(items, m, items'[m], h, p.qbits, p.r, |items|);
      }
    } else if items' != items {
      var k: nat, it :| k < |items| && items' == items[k := it] && !Matches(items[k], h, p.qbits, p.r)
          && !Matches(it, h, p.qbits, p.r);
      CountMatchesAfterEdit(items, k, it, h, p.qbits, p.r, |items|);
    }
  }

  // ---- sequences of queries ---------------------------------------------------------------------

  /** A decision for every query. */
  ghost predicate PlanFor(runs: seq<Run>, hs: seq<nat>, ds: seq<Decision>, p: Policy) {
    FilterOf(runs, p) && |ds| == |hs|
  }

  /** The filter after the first n queries. */
  ghost function After(runs: seq<Run>, hs: seq<nat>, ds: seq<Decision>, p: Policy, n: nat): (now: seq<Run>)
    requires PlanFor(runs, hs, ds, p) && n <= |hs|
    ensures FilterOf(now, p)
  {
    if n == 0 then runs
    else
      StepIsEdit(After(runs, hs, ds, p, n - 1), hs[n - 1], ds[n - 1], p);
      PlanStep(After(runs, hs, ds, p, n - 1), hs[n - 1], ds[n - 1], p)
  }

  ghost function Occurrences(hs: seq<nat>, h: nat, n: nat): (c: nat)
    requires n <= |hs|
    ensures c <= n
  {
    if n == 0 then 0 else Occurrences(hs, h, n - 1) + if hs[n - 1] == h then 1 else 0
  }

  /** How often h was a false positive. */
  ghost function FalsePositives(runs: seq<Run>, hs: seq<nat>, ds: seq<Decision>, h: nat, p: Policy, n: nat): nat
    requires PlanFor(runs, hs, ds, p) && n <= |hs|
  {
    if n == 0 then 0
    else FalsePositives(runs, hs, ds, h, p, n - 1)
         + if hs[n - 1] == h && FalseHit(After(runs, hs, ds, p, n - 1), h, p) then 1 else 0
  }

  /** How often that led to an adaptation. */
  ghost function Adaptations(runs: seq<Run>, hs: seq<nat>, ds: seq<Decision>, h: nat, p: Policy, n: nat): nat
    requires PlanFor(runs, hs, ds, p) && n <= |hs|
  {
    if n == 0 then 0
    else Adaptations(runs, hs, ds, h, p, n - 1)
         + if hs[n - 1] == h && FalseHit(After(runs, hs, ds, p, n - 1), h, p) && ds[n - 1] == Adapt then 1 else 0
  }

  function Charge(breakEven: nat, adapts: nat): nat {
    breakEven * adapts
  }

  /** One for every false positive, breakEven for every adaptation. */
  ghost function Cost(runs: seq<Run>, hs: seq<nat>, ds: seq<Decision>, h: nat, p: Policy, n: nat): nat
    requires PlanFor(runs, hs, ds, p) && n <= |hs|
  {
    FalsePositives(runs, hs, ds, h, p, n) + Charge(p.breakEven, Adaptations(runs, hs, ds, h, p, n))
  }

  /** The cost of a query for g in the given state. */
  ghost function StepCost(runs: seq<Run>, g: nat, d: Decision, p: Policy): nat
    requires FilterOf(runs, p)
  {
    if !FalseHit(runs, g, p) then 0 else 1 + if d == Adapt then p.breakEven else 0
  }

  ghost function TotalCost(runs: seq<Run>, hs: seq<nat>, ds: seq<Decision>, p: Policy, n: nat): nat
    requires PlanFor(runs, hs, ds, p) && n <= |hs|
  {
    if n == 0 then 0
    else TotalCost(runs, hs, ds, p, n - 1) + StepCost(After(runs, hs, ds, p, n - 1), hs[n - 1], ds[n - 1], p)
  }

  lemma {:induction false} StaysDisjoint(runs: seq<Run>, hs: seq<nat>, ds: seq<Decision>, p: Policy, n: nat)
    requires PlanFor(runs, hs, ds, p) && Disjoint(runs, hs, p) && n <= |hs|
    ensures Disjoint(After(runs, hs, ds, p, n), hs, p)
  {
    hide Disjoint, PlanStep, FilterOf;
    if n == 0 {
    } else {
      StaysDisjoint(runs, hs, ds, p, n - 1);
      StepKeepsDisjoint(After(runs, hs, ds, p, n - 1), hs[n - 1], ds[n - 1], hs, p);
    }
  }

  /** One more query, seen from h. */
  lemma NextSeen(runs: seq<Run>, hs: seq<nat>, ds: seq<Decision>, h: nat, p: Policy, n: nat)
    requires PlanFor(runs, hs, ds, p) && Disjoint(runs, hs, p) && 0 < n <= |hs| && h in hs && Foreign(h, p)
    ensures Seen(Bucket(After(runs, hs, ds, p, n - 1), h, p), Bucket(After(runs, hs, ds, p, n), h, p), hs[n - 1],
            ds[n - 1], h, p)
    ensures FalseHit(After(runs, hs, ds, p, n - 1), h, p) <==> IsHit(Bucket(After(runs, hs, ds, p, n - 1), h, p), h, p)
  {
    hide Disjoint, PlanStep, FilterOf, Seen;
    StaysDisjoint(runs, hs, ds, p, n - 1);
    StepSeen(After(runs, hs, ds, p, n - 1), hs[n - 1], ds[n - 1], h, hs, p);
  }

  // ---- the space it takes -----------------------------------------------------------------------

  /** Counters have one slot, and an item with a counter counts at least twice. */
  ghost predicate CountersOk(runs: seq<Run>) {
    forall q, j | 0 <= q < |runs| && 0 <= j < |runs[q]| ::
      |runs[q][j].cnt| <= 1 && (runs[q][j].cnt != [] ==> runs[q][j].cnt[0] >= 2)
  }

  lemma ItemGrows(runs: seq<Run>, g: nat, d: Decision, p: Policy)
    requires FilterOf(runs, p) && CountersOk(runs) && FalseHit(runs, g, p)
    ensures var it := ItemAfter(runs, g, d, p);
            && it.Size() >= Bucket(runs, g, p)[HitOf(Bucket(runs, g, p), g, p)].Size()
            && |it.cnt| <= 1 && (it.cnt != [] ==> it.cnt[0] >= 2)
  {
    var q, m := Quotient(g, p.qbits, p.r), HitOf(Bucket(runs, g, p), g, p);
    assert |runs[q][m].cnt| <= 1;
    if runs[q][m].cnt != [] {
      OneDigit(runs[q][m], p.r);
    }
  }

  lemma StepGrows(runs: seq<Run>, g: nat, d: Decision, p: Policy)
    requires FilterOf(runs, p) && CountersOk(runs)
    ensures var runs' := PlanStep(runs, g, d, p);
            CountersOk(runs') && |runs'| == |runs| && forall q | 0 <= q < |runs| ::
                |Encode(runs[q])| <= |Encode(runs'[q])|
  {
    hide FilterOf, PlanStep, MayBecome, Encode, Foreign;
    StepIsEdit(runs, g, d, p);
    if FalseHit(runs, g, p) {
      EditedLength(Bucket(runs, g, p), HitOf(Bucket(runs, g, p), g, p), ItemAfter(runs, g, d, p));
      ItemGrows(runs, g, d, p);
    }
  }

  /** No run becomes shorter under any plan, and no item gets a second counter slot. */
  lemma {:induction false} PlanGrows(runs: seq<Run>, hs: seq<nat>, ds: seq<Decision>, p: Policy, m: nat, n: nat)
    requires PlanFor(runs, hs, ds, p) && CountersOk(runs) && m <= n <= |hs|
    ensures CountersOk(After(runs, hs, ds, p, n)) && |After(runs, hs, ds, p, m)| == |After(runs, hs, ds, p,
            n)| == |runs|
    ensures forall q | 0 <= q < |runs| :: |Encode(After(runs, hs, ds, p, m)[q])| <= |Encode(After(runs, hs, ds, p,
            n)[q])|
    decreases n
  {
    hide FilterOf, PlanStep, CountersOk, Encode;
    if n == 0 {
    } else {
      PlanGrows(runs, hs, ds, p, Min(m, n - 1), n - 1);
      StepGrows(After(runs, hs, ds, p, n - 1), hs[n - 1], ds[n - 1], p);
    }
  }

  /** The layout ends below limit with a slot to spare, which is not the last one. */
  ghost predicate Spare(runs: seq<Run>, limit: nat) {
    Next(Encs(runs), |runs|) < limit && Next(Encs(runs), |runs|) + 1 < |runs|
  }

  lemma SpareBefore(runs: seq<Run>, runs': seq<Run>, limit: nat)
    requires Spare(runs', limit) && |runs| == |runs'| && forall q | 0 <= q < |runs| ::
             |Encode(runs[q])| <= |Encode(runs'[q])|
    ensures Spare(runs, limit) && Fits(runs, limit) && Fits(runs, |runs|)
  {
    hide Encode, Next;
    assert forall i | 0 <= i < |runs| :: |Encs(runs)[i]| <= |Encs(runs')[i]|;
    LayoutGrows(Encs(runs), Encs(runs'), |runs|);
  }

  lemma SpareGivesRoom(runs: seq<Run>, q: nat, m: nat, limit: nat)
    requires Spare(runs, limit) && q < |runs| && m < |runs[q]|
    ensures Room(Encs(runs), TailPos(runs, q, m), limit)
  {
    hide Encode, Offset;
    var encs, from := Encs(runs), TailPos(runs, q, m);
    ItemCells(runs[q], m);
    assert |encs[q]| == |Encode(runs[q])| > 0;
    assert from <= Next(encs, q + 1);
    NextMonotone(encs, q + 1, |encs|);
    var free := Next(encs, |encs|);
    UnusedAfterNext(encs, |encs|, free);
  }

  lemma {:induction false} TotalGrows(runs: seq<Run>, runs': seq<Run>)
    requires |runs| == |runs'| && forall q | 0 <= q < |runs| :: |Encode(runs[q])| <= |Encode(runs'[q])|
    ensures Total(runs) <= Total(runs')
    decreases |runs|
  {
    hide Encode;
    if runs == [] {
    } else {
      TotalGrows(runs[..|runs| - 1], runs'[..|runs| - 1]);
    }
  }

  /** A plan that ends with a slot to spare and below the full point. */
  ghost predicate EndsWithin(runs: seq<Run>, hs: seq<nat>, ds: seq<Decision>, p: Policy, limit: nat, fullPoint: nat) {
    && PlanFor(runs, hs, ds, p) && CountersOk(runs)
    && var end := After(runs, hs, ds, p, |hs|); Spare(end, limit) && Total(end) < fullPoint
  }

  /** Then so does every state on the way. */
  lemma WithinBefore(runs: seq<Run>, hs: seq<nat>, ds: seq<Decision>, p: Policy, limit: nat, fullPoint: nat, n: nat)
    requires EndsWithin(runs, hs, ds, p, limit, fullPoint) && n <= |hs|
    ensures var now := After(runs, hs, ds, p, n);
            Spare(now, limit) && Fits(now, limit) && Fits(now, |now|) && Total(now) < fullPoint && CountersOk(now)
  {
    hide Spare, CountersOk, Encode, FilterOf;
    PlanGrows(runs, hs, ds, p, n, |hs|);
    PlanGrows(runs, hs, ds, p, n, n);
    SpareBefore(After(runs, hs, ds, p, n), After(runs, hs, ds, p, |hs|), limit);
    TotalGrows(After(runs, hs, ds, p, n), After(runs, hs, ds, p, |hs|));
  }

  /** Every adaptation that such a plan decides on has room. */
  lemma AdaptationFits(runs: seq<Run>, hs: seq<nat>, ds: seq<Decision>, p: Policy, limit: nat, fullPoint: nat, n: nat)
    requires EndsWithin(runs, hs, ds, p, limit, fullPoint) && n < |hs| && ds[n] == Adapt
    requires FalseHit(After(runs, hs, ds, p, n), hs[n], p)
    ensures var now := After(runs, hs, ds, p, n);
            var m := HitOf(Bucket(now, hs[n], p), hs[n], p);
            && Hits(now, p.keys, hs[n], p.qbits, p.r, m)
            && RoomToAdapt(now, p.keys, hs[n], p.qbits, p.r, m, limit)
                && SafeToAdapt(now, p.keys, hs[n], p.qbits, p.r, m, limit)
  {
    hide Spare, CountersOk, Foreign, After, PlanStep, AllOwned, TailPos, FirstMatch, Encode, Encs, Next, Matches, Pow2;
    var now, h := After(runs, hs, ds, p, n), hs[n];
    WithinBefore(runs, hs, ds, p, limit, fullPoint, n);
    WithinBefore(runs, hs, ds, p, limit, fullPoint, n + 1);
    AfterNext(runs, hs, ds, p, n);
    OwnedAt(now, p.keys, p.qbits, p.r, Quotient(h, p.qbits, p.r));
    SpareGivesRoom(now, Quotient(h, p.qbits, p.r), HitOf(Bucket(now, h, p), h, p), limit);
    StepIsEdit(now, h, Adapt, p);
  }

  lemma AfterNext(runs: seq<Run>, hs: seq<nat>, ds: seq<Decision>, p: Policy, n: nat)
    requires PlanFor(runs, hs, ds, p) && n < |hs|
    ensures After(runs, hs, ds, p, n + 1) == PlanStep(After(runs, hs, ds, p, n), hs[n], ds[n], p)
  {
  }

  // ---- no plan is cheaper than tolerating everything or adapting everything -----------------------

  /** After `times` queries for h: every adaptation answered a false positive and took h off one of at
      first `total` items, and h was always a false positive while one of these was left. */
  ghost predicate PlanLedger(items: Run, h: nat, p: Policy, times: nat, fps: nat, adapts: nat, total: nat) {
    && adapts + Matching(items, h, p) == total
    && adapts <= fps <= times
    && (fps == times || !IsHit(items, h, p))
  }

  lemma {:induction false} PlanLedgerHolds(runs: seq<Run>, hs: seq<nat>, ds: seq<Decision>, h: nat, p: Policy, n: nat)
    requires PlanFor(runs, hs, ds, p) && Disjoint(runs, hs, p) && n <= |hs| && h in hs && Foreign(h, p)
    ensures PlanLedger(Bucket(After(runs, hs, ds, p, n), h, p), h, p, Occurrences(hs, h, n),
                       FalsePositives(runs, hs, ds, h, p, n), Adaptations(runs, hs, ds, h, p, n),
                           Matching(Bucket(runs, h, p), h, p))
  {
    hide Disjoint, PlanStep, FilterOf, Seen, Matching, IsHit, Bucket;
    if n == 0 {
    } else {
      PlanLedgerHolds(runs, hs, ds, h, p, n - 1);
      NextSeen(runs, hs, ds, h, p, n);
      var items, items' := Bucket(After(runs, hs, ds, p, n - 1), h, p), Bucket(After(runs, hs, ds, p, n), h, p);
      SeenMatching(items, items', hs[n - 1], ds[n - 1], h, p);
      HitIffMatching(items, h, p);
      HitIffMatching(items', h, p);
    }
  }

  /** The cheaper of tolerating `times` false positives and paying for `total` of them with an
      adaptation each. */
  ghost function BestCost(times: nat, total: nat, breakEven: nat): nat {
    Min(times, Charge(breakEven + 1, total))
  }

  lemma ChargeAlso(breakEven: nat, total: nat)
    ensures Charge(breakEven + 1, total) == total + Charge(breakEven, total)
  {
  }

  /** No plan serves a hash for less. */
  lemma NoPlanIsCheaper(runs: seq<Run>, hs: seq<nat>, ds: seq<Decision>, h: nat, p: Policy)
    requires PlanFor(runs, hs, ds, p) && Disjoint(runs, hs, p) && h in hs && Foreign(h, p)
    ensures BestCost(Occurrences(hs, h, |hs|), Matching(Bucket(runs, h, p), h, p), p.breakEven) <= Cost(runs, hs, ds,
            h, p, |hs|)
  {
    hide Charge, Disjoint, FilterOf, Bucket, Matching, FalsePositives, Adaptations, Occurrences;
    PlanLedgerHolds(runs, hs, ds, h, p, |hs|);
    var items := Bucket(After(runs, hs, ds, p, |hs|), h, p);
    HitIffMatching(items, h, p);
    ChargeAlso(p.breakEven, Matching(Bucket(runs, h, p), h, p));
  }

  /** The plan made in hindsight: adapt to the hashes that come often enough. */
  ghost function BestPlan(runs: seq<Run>, hs: seq<nat>, p: Policy): (ds: seq<Decision>)
    requires FilterOf(runs, p)
    ensures |ds| == |hs|
  {
    seq(|hs|, i requires 0 <= i < |hs| => BestDecision(runs, hs, hs[i], p))
  }

  ghost function BestDecision(runs: seq<Run>, hs: seq<nat>, h: nat, p: Policy): Decision
    requires FilterOf(runs, p)
  {
    if Occurrences(hs, h, |hs|) > Charge(p.breakEven + 1, Matching(Bucket(runs, h, p), h, p)) then Adapt else Tolerate
  }

  /** A plan that always decides alike about h. */
  lemma {:induction false} AlwaysAlike(runs: seq<Run>, hs: seq<nat>, ds: seq<Decision>, h: nat, d: Decision, p: Policy,
                                       n: nat)
    requires PlanFor(runs, hs, ds, p) && n <= |hs| && forall i | 0 <= i < |hs| && hs[i] == h :: ds[i] == d
    ensures Adaptations(runs, hs, ds, h, p, n) == if d == Adapt then FalsePositives(runs, hs, ds, h, p, n) else 0
  {
    hide PlanStep, FilterOf, FalseHit, After;
    if n == 0 {
    } else {
      AlwaysAlike(runs, hs, ds, h, d, p, n - 1);
    }
  }

  /** It attains the bound, for every hash at once. */
  lemma BestPlanAttains(runs: seq<Run>, hs: seq<nat>, h: nat, p: Policy)
    requires FilterOf(runs, p) && Disjoint(runs, hs, p) && h in hs && Foreign(h, p)
    ensures Cost(runs, hs, BestPlan(runs, hs, p), h, p, |hs|)
         == BestCost(Occurrences(hs, h, |hs|), Matching(Bucket(runs, h, p), h, p), p.breakEven)
  {
    hide Charge, Disjoint, FilterOf, Bucket, Matching, FalsePositives, Adaptations, Occurrences;
    var ds, total := BestPlan(runs, hs, p), Matching(Bucket(runs, h, p), h, p);
    AlwaysAlike(runs, hs, ds, h, BestDecision(runs, hs, h, p), p, |hs|);
    PlanLedgerHolds(runs, hs, ds, h, p, |hs|);
    HitIffMatching(Bucket(After(runs, hs, ds, p, |hs|), h, p), h, p);
    ChargeAlso(p.breakEven, total);
    ChargeNothing(p.breakEven);
    ChargeNothing(p.breakEven + 1);
  }

  lemma ChargeNothing(breakEven: nat)
    ensures Charge(breakEven, 0) == 0
  {
  }

  // ---- the total over all hashes ----------------------------------------------------------------

  ghost predicate Distinct(ks: seq<nat>) {
    forall i, j | 0 <= i < j < |ks| :: ks[i] != ks[j]
  }

  /** ks lists the hashes that were never loaded. */
  ghost predicate ForeignOf(ks: seq<nat>, hs: seq<nat>, p: Policy) {
    Distinct(ks) && (forall h | h in ks :: h in hs && Foreign(h, p)) && forall h | h in hs && Foreign(h, p) :: h in ks
  }

  ghost function ForeignList(hs: seq<nat>, p: Policy, n: nat): (ks: seq<nat>)
    requires n <= |hs|
    ensures ForeignOf(ks, hs[..n], p)
  {
    if n == 0 then []
    else
      var ks := ForeignList(hs, p, n - 1);
      assert hs[..n] == hs[..n - 1] + [hs[n - 1]];
      if Foreign(hs[n - 1], p) && hs[n - 1] !in ks then ks + [hs[n - 1]] else ks
  }

  ghost function SumOfCosts(runs: seq<Run>, hs: seq<nat>, ds: seq<Decision>, ks: seq<nat>, p: Policy, n: nat): nat
    requires PlanFor(runs, hs, ds, p) && n <= |hs|
  {
    if ks == [] then 0 else Cost(runs, hs, ds, ks[0], p, n) + SumOfCosts(runs, hs, ds, ks[1..], p, n)
  }

  lemma CostOfQuery(runs: seq<Run>, hs: seq<nat>, ds: seq<Decision>, h: nat, p: Policy, n: nat)
    requires PlanFor(runs, hs, ds, p) && 0 < n <= |hs|
    ensures Cost(runs, hs, ds, h, p, n)
         == Cost(runs, hs, ds, h, p, n - 1)
            + if hs[n - 1] == h then StepCost(After(runs, hs, ds, p, n - 1), h, ds[n - 1], p) else 0
  {
    hide After, FilterOf, FalseHit, Charge;
    ChargeNext(p.breakEven, Adaptations(runs, hs, ds, h, p, n - 1));
  }

  lemma ChargeNext(breakEven: nat, adapts: nat)
    ensures Charge(breakEven, adapts + 1) == Charge(breakEven, adapts) + breakEven
  {
  }

  lemma {:induction false} SumOfQuery(runs: seq<Run>, hs: seq<nat>, ds: seq<Decision>, ks: seq<nat>, p: Policy, n: nat)
    requires PlanFor(runs, hs, ds, p) && 0 < n <= |hs| && Distinct(ks)
    ensures SumOfCosts(runs, hs, ds, ks, p, n)
         == SumOfCosts(runs, hs, ds, ks, p, n - 1)
            + if hs[n - 1] in ks then StepCost(After(runs, hs, ds, p, n - 1), hs[n - 1], ds[n - 1], p) else 0
  {
    hide Cost, StepCost, After, FilterOf;
    if ks == [] {
    } else {
      CostOfQuery(runs, hs, ds, ks[0], p, n);
      SumOfQuery(runs, hs, ds, ks[1..], p, n);
      assert hs[n - 1] in ks <==> hs[n - 1] == ks[0] || hs[n - 1] in ks[1..];
    }
  }

  lemma {:induction false} EmptySum(runs: seq<Run>, hs: seq<nat>, ds: seq<Decision>, ks: seq<nat>, p: Policy)
    requires PlanFor(runs, hs, ds, p)
    ensures SumOfCosts(runs, hs, ds, ks, p, 0) == 0
  {
    if ks == [] {
    } else {
      EmptySum(runs, hs, ds, ks[1..], p);
      ChargeNothing(p.breakEven);
    }
  }

  /** Every unit of cost belongs to exactly one hash. */
  lemma {:induction false} TotalIsSum(runs: seq<Run>, hs: seq<nat>, ds: seq<Decision>, ks: seq<nat>, p: Policy, n: nat)
    requires PlanFor(runs, hs, ds, p) && n <= |hs| && ForeignOf(ks, hs, p)
    ensures TotalCost(runs, hs, ds, p, n) == SumOfCosts(runs, hs, ds, ks, p, n)
  {
    hide SumOfCosts, After, FilterOf, Foreign;
    if n == 0 {
      EmptySum(runs, hs, ds, ks, p);
    } else {
      TotalIsSum(runs, hs, ds, ks, p, n - 1);
      SumOfQuery(runs, hs, ds, ks, p, n);
      assert hs[n - 1] in hs;
    }
  }

  /** If a plan serves every hash for at most `factor` times the cost of another plan, so it does the sequence. */
  lemma {:induction false} CompareSums(runs: seq<Run>, hs: seq<nat>, ds: seq<Decision>, ds': seq<Decision>,
                                       ks: seq<nat>, p: Policy,
                                       factor: nat)
    requires PlanFor(runs, hs, ds, p) && PlanFor(runs, hs, ds', p)
    requires forall h | h in ks :: Cost(runs, hs, ds, h, p, |hs|) <= factor * Cost(runs, hs, ds', h, p, |hs|)
    ensures SumOfCosts(runs, hs, ds, ks, p, |hs|) <= factor * SumOfCosts(runs, hs, ds', ks, p, |hs|)
  {
    hide Cost, FilterOf;
    if ks == [] {
    } else {
      CompareSums(runs, hs, ds, ds', ks[1..], p, factor);
      Distribute(factor, Cost(runs, hs, ds', ks[0], p, |hs|), SumOfCosts(runs, hs, ds', ks[1..], p, |hs|));
    }
  }

  lemma Distribute(factor: nat, a: nat, b: nat)
    ensures factor * (a + b) == factor * a + factor * b
  {
  }

  lemma CompareTotals(runs: seq<Run>, hs: seq<nat>, ds: seq<Decision>, ds': seq<Decision>, p: Policy, factor: nat)
    requires PlanFor(runs, hs, ds, p) && PlanFor(runs, hs, ds', p)
    requires forall h | h in hs && Foreign(h, p) :: Cost(runs, hs, ds, h, p, |hs|) <= factor * Cost(runs, hs, ds', h,
             p, |hs|)
    ensures TotalCost(runs, hs, ds, p, |hs|) <= factor * TotalCost(runs, hs, ds', p, |hs|)
  {
    hide Cost, FilterOf, Foreign, TotalCost, SumOfCosts;
    var ks := ForeignList(hs, p, |hs|);
    assert hs[..|hs|] == hs;
    TotalIsSum(runs, hs, ds, ks, p, |hs|);
    TotalIsSum(runs, hs, ds', ks, p, |hs|);
    CompareSums(runs, hs, ds, ds', ks, p, factor);
  }

  /** The plan made in hindsight is a cheapest one. */
  lemma BestPlanIsBest(runs: seq<Run>, hs: seq<nat>, ds: seq<Decision>, p: Policy)
    requires PlanFor(runs, hs, ds, p) && Disjoint(runs, hs, p)
    ensures TotalCost(runs, hs, BestPlan(runs, hs, p), p, |hs|) <= TotalCost(runs, hs, ds, p, |hs|)
  {
    hide Cost, FilterOf, Foreign, TotalCost, BestPlan, Disjoint, BestCost;
    var best := BestPlan(runs, hs, p);
    forall h | h in hs && Foreign(h, p)
      ensures Cost(runs, hs, best, h, p, |hs|) <= 1 * Cost(runs, hs, ds, h, p, |hs|)
    {
      BestPlanAttains(runs, hs, h, p);
      NoPlanIsCheaper(runs, hs, ds, h, p);
    }
    CompareTotals(runs, hs, best, ds, p, 1);
  }
}
