/** The count-then-adapt policy of variants/skiqf.hpp over whole query sequences: how often a hash is a
    false positive, how often that leads to an adaptation, and what both cost, against every other plan. */
module SkiRental {
  import opened Numbers
  import opened Layout
  import opened Items
  import opened Hashes
  import opened Runs
  import opened Contents
  import opened Edits
  import opened Agreement
  import opened Loading
  import opened Adapting
  import opened Plans

  // ---- the policy -------------------------------------------------------------------------------

  /** The break-even count fits a slot and the byte that a query reports. */
  ghost predicate BreakEvenFits(p: Policy) {
    1 <= p.breakEven < 256 && p.breakEven < Pow2(p.r)
  }

  /** The count of the item that a query hits. */
  ghost function HitCount(items: Run, h: nat, p: Policy): nat {
    if IsHit(items, h, p) then ItemCount(items[HitOf(items, h, p)], p.r) else 1
  }

  /** A false positive is counted below the break-even point and adapted to at it. */
  ghost function SkiDecision(items: Run, h: nat, p: Policy): Decision {
    if HitCount(items, h, p) < p.breakEven then Count else Adapt
  }

  /** What SkiQF.adapt does on a query that hits item m. */
  ghost predicate SkiStepped(runs: seq<Run>, runs': seq<Run>, keys: seq<seq<nat>>, breakEven: nat, h: nat, qbits: nat,
                             r: nat,
                             m: nat, limit: nat)
    requires |runs| >= Pow2(qbits) && r > 0 && Hits(runs, keys, h, qbits, r, m)
  {
    if ItemCount(runs[Quotient(h, qbits, r)][m], r) < breakEven then runs' == CountHit(runs, keys, h, qbits, r, m)
    else Separates(runs, runs', keys, h, qbits, r, m, limit)
  }

  /** The filter after the first n queries. */
  ghost function SkiAfter(runs: seq<Run>, hs: seq<nat>, p: Policy, n: nat): (now: seq<Run>)
    requires FilterOf(runs, p) && n <= |hs|
    ensures FilterOf(now, p) && |now| == |runs|
  {
    if n == 0 then runs
    else
      var now := SkiAfter(runs, hs, p, n - 1);
      StepIsEdit(now, hs[n - 1], SkiDecision(Bucket(now, hs[n - 1], p), hs[n - 1], p), p);
      PlanStep(now, hs[n - 1], SkiDecision(Bucket(now, hs[n - 1], p), hs[n - 1], p), p)
  }

  /** The decisions that the policy takes, one query at a time. */
  ghost function SkiPlan(runs: seq<Run>, hs: seq<nat>, p: Policy): (ds: seq<Decision>)
    requires FilterOf(runs, p)
    ensures |ds| == |hs|
  {
    seq(|hs|, i requires 0 <= i < |hs| => SkiDecision(Bucket(SkiAfter(runs, hs, p, i), hs[i], p), hs[i], p))
  }

  lemma {:induction false} SkiPlanServes(runs: seq<Run>, hs: seq<nat>, p: Policy, n: nat)
    requires FilterOf(runs, p) && n <= |hs|
    ensures After(runs, hs, SkiPlan(runs, hs, p), p, n) == SkiAfter(runs, hs, p, n)
  {
    hide FilterOf, PlanStep, SkiDecision, Bucket;
    if n == 0 {
    } else {
      SkiPlanServes(runs, hs, p, n - 1);
    }
  }

  lemma SkiNext(runs: seq<Run>, hs: seq<nat>, p: Policy, n: nat)
    requires FilterOf(runs, p) && n < |hs|
    ensures var now := SkiAfter(runs, hs, p, n);
            SkiAfter(runs, hs, p, n + 1) == PlanStep(now, hs[n], SkiDecision(Bucket(now, hs[n], p), hs[n], p), p)
  {
  }

  // ---- whether counters are where the code expects them -----------------------------------------

  /** If the policy counts a false positive and the item has a counter, the address that the code
      computes is that of the counter. */
  ghost predicate CountLands(runs: seq<Run>, h: nat, p: Policy)
    requires FilterOf(runs, p)
  {
    FalseHit(runs, h, p) && HitCount(Bucket(runs, h, p), h, p) < p.breakEven ==>
      var it := Bucket(runs, h, p)[HitOf(Bucket(runs, h, p), h, p)]; it.cnt != [] ==> Value(it.ext, p.r) == |it.ext|
  }

  /** So it is at every step of the policy: exactly then the code goes through its states. */
  ghost predicate CountsLand(runs: seq<Run>, hs: seq<nat>, p: Policy)
    requires FilterOf(runs, p)
  {
    forall n {:trigger hs[n]} | 0 <= n < |hs| :: CountLands(SkiAfter(runs, hs, p, n), hs[n], p)
  }

  /** The items that accept a foreign query have no counter yet, and the address that the code computes
      for one is behind their extension. Freshly loaded items are like that. */
  ghost predicate Countable(runs: seq<Run>, hs: seq<nat>, p: Policy) {
    Addressed(runs, hs, p) &&
    forall q, j, h | 0 <= q < |runs| && 0 <= j < |runs[q]| && h in hs && Takes(runs, q, j, h, p) :: runs[q][j].cnt == []
  }

  ghost predicate Addressed(runs: seq<Run>, hs: seq<nat>, p: Policy) {
    forall q, j, h | 0 <= q < |runs| && 0 <= j < |runs[q]| && h in hs && Takes(runs, q, j, h, p) ::
      Value(runs[q][j].ext, p.r) == |runs[q][j].ext|
  }

  lemma FreshIsCountable(runs: seq<Run>, hs: seq<nat>, p: Policy)
    requires Fresh(runs)
    ensures Countable(runs, hs, p)
  {
    assert Value([], p.r) == 0;
  }

  /** An adapted item accepts no query any more, and a counted one keeps its extension. */
  lemma StepKeepsAddressed(runs: seq<Run>, g: nat, d: Decision, hs: seq<nat>, p: Policy)
    requires FilterOf(runs, p) && Disjoint(runs, hs, p) && Addressed(runs, hs, p) && g in hs
    ensures Addressed(PlanStep(runs, g, d, p), hs, p)
  {
    hide FilterOf, PlanStep, MayBecome, Matches, Extends, Foreign, Value, ItemAfter;
    var runs' := PlanStep(runs, g, d, p);
    StepIsEdit(runs, g, d, p);
    StepExtends(runs, g, d, p);
    if FalseHit(runs, g, p) {
      var q0, m := Quotient(g, p.qbits, p.r), HitOf(Bucket(runs, g, p), g, p);
      forall q, j, h | 0 <= q < |runs'| && 0 <= j < |runs'[q]| && h in hs && Takes(runs', q, j, h, p)
        ensures Value(runs'[q][j].ext, p.r) == |runs'[q][j].ext|
      {
        TakenBefore(runs, g, d, p, q, j, h);
        if q == q0 && j == m {
          HitStaysAddressed(runs, g, d, h, hs, p);
        } else {
          assert runs'[q][j] == runs[q][j];
        }
      }
    }
  }

  lemma HitStaysAddressed(runs: seq<Run>, g: nat, d: Decision, h: nat, hs: seq<nat>, p: Policy)
    requires FilterOf(runs, p) && Disjoint(runs, hs, p) && FalseHit(runs, g, p) && g in hs && h in hs && Foreign(h, p)
    requires Quotient(g, p.qbits, p.r) == Quotient(h, p.qbits, p.r)
             && Matches(ItemAfter(runs, g, d, p), h, p.qbits, p.r)
    ensures ItemAfter(runs, g, d, p).ext == Bucket(runs, g, p)[HitOf(Bucket(runs, g, p), g, p)].ext
  {
    if g != h {
      OtherStaysOff(runs, g, d, h, hs, p);
    } else if d == Adapt {
      AcceptsIffFound(runs, h, p.qbits, p.r);
      AdaptationSeparates(runs, p.keys, h, p.qbits, p.r);
    }
  }

  lemma {:induction false} StaysAddressed(runs: seq<Run>, hs: seq<nat>, p: Policy, n: nat)
    requires FilterOf(runs, p) && Disjoint(runs, hs, p) && Addressed(runs, hs, p) && n <= |hs|
    ensures Disjoint(SkiAfter(runs, hs, p, n), hs, p) && Addressed(SkiAfter(runs, hs, p, n), hs, p)
  {
    hide Disjoint, Addressed, PlanStep, FilterOf, SkiDecision, Bucket;
    if n == 0 {
    } else {
      StaysAddressed(runs, hs, p, n - 1);
      var now, g := SkiAfter(runs, hs, p, n - 1), hs[n - 1];
      StepKeepsDisjoint(now, g, SkiDecision(Bucket(now, g, p), g, p), hs, p);
      StepKeepsAddressed(now, g, SkiDecision(Bucket(now, g, p), g, p), hs, p);
    }
  }

  lemma HitIsAddressed(runs: seq<Run>, hs: seq<nat>, h: nat, p: Policy)
    requires FilterOf(runs, p) && Addressed(runs, hs, p) && h in hs
    ensures CountLands(runs, h, p)
  {
    if FalseHit(runs, h, p) {
      assert Takes(runs, Quotient(h, p.qbits, p.r), HitOf(Bucket(runs, h, p), h, p), h, p);
    }
  }

  /** Items that take one query each keep all counts where they belong. */
  lemma DisjointLands(runs: seq<Run>, hs: seq<nat>, p: Policy)
    requires FilterOf(runs, p) && Disjoint(runs, hs, p) && Addressed(runs, hs, p)
    ensures CountsLand(runs, hs, p)
  {
    hide FilterOf, Disjoint, Addressed, CountLands, SkiAfter;
    forall n | 0 <= n < |hs|
      ensures CountLands(SkiAfter(runs, hs, p, n), hs[n], p)
    {
      StaysAddressed(runs, hs, p, n);
      HitIsAddressed(SkiAfter(runs, hs, p, n), hs, hs[n], p);
    }
  }

  // ---- the ledger of one hash -------------------------------------------------------------------

  /** fps false positives and adapts adaptations so far, of at first `total` items that accept h: each
      adaptation was paid for by breakEven false positives, the others are in the hit item's counter,
      and no other item that accepts h has been counted. */
  ghost predicate Ledger(items: Run, h: nat, p: Policy, fps: nat, adapts: nat, total: nat) {
    && adapts + Matching(items, h, p) == total
    && 1 <= HitCount(items, h, p) <= p.breakEven
    && fps == Charge(p.breakEven, adapts) + HitCount(items, h, p) - 1
    && forall j | 0 <= j < |items| && j != HitOf(items, h, p) && Matches(items[j], h, p.qbits, p.r) ::
        items[j].cnt == []
  }

  lemma {:induction false} FirstMatchIs(items: Run, h: nat, qbits: nat, r: nat, j: nat, m: nat)
    requires j <= m <= |items| && (m < |items| ==> Matches(items[m], h, qbits, r))
    requires forall i | j <= i < m :: !Matches(items[i], h, qbits, r)
    ensures FirstMatch(items, h, qbits, r, j) == m
    decreases |items| - j
  {
    if j == m {
    } else {
      FirstMatchIs(items, h, qbits, r, j + 1, m);
    }
  }

  /** A counted false positive. */
  lemma LedgerCounts(items: Run, h: nat, p: Policy, fps: nat, adapts: nat, total: nat)
    requires Ledger(items, h, p, fps, adapts, total) && IsHit(items, h, p) && HitCount(items, h, p) < p.breakEven
    ensures var m := HitOf(items, h, p);
            Ledger(items[m := items[m].(cnt := [HitCount(items, h, p) + 1])], h, p, fps + 1, adapts, total)
  {
    var m := HitOf(items, h, p);
    var it := items[m].(cnt := [HitCount(items, h, p) + 1]);
    var items' := items[m := it];
    OneDigit(it, p.r);
    assert forall i | 0 <= i < m :: items'[i] == items[i];
    FirstMatchIs(items', h, p.qbits, p.r, 0, m);
    CountMatchesAfterEdit(items, m, it, h, p.qbits, p.r, |items|);
  }

  /** A false positive at the break-even point. */
  lemma LedgerAdapts(items: Run, h: nat, p: Policy, fps: nat, adapts: nat, total: nat, it: Item)
    requires Ledger(items, h, p, fps, adapts, total) && IsHit(items, h, p) && HitCount(items, h, p) >= p.breakEven
    requires !Matches(it, h, p.qbits, p.r)
    ensures Ledger(items[HitOf(items, h, p) := it], h, p, fps + 1, adapts + 1, total)
  {
    hide Charge;
    var m := HitOf(items, h, p);
    var items' := items[m := it];
    CountMatchesAfterEdit(items, m, it, h, p.qbits, p.r, |items|);
    var m' := HitOf(items', h, p);
    assert m' != m;
    assert m' < |items| ==> items'[m'] == items[m'] && items[m'].cnt == [];
    ChargeNext(p.breakEven, adapts);
  }

  /** A step on an item that does not accept h. */
  lemma LedgerStays(items: Run, h: nat, p: Policy, fps: nat, adapts: nat, total: nat, k: nat, it: Item)
    requires Ledger(items, h, p, fps, adapts, total) && k < |items|
    requires !Matches(items[k], h, p.qbits, p.r) && !Matches(it, h, p.qbits, p.r)
    ensures Ledger(items[k := it], h, p, fps, adapts, total)
  {
    var m := HitOf(items, h, p);
    var items' := items[k := it];
    assert forall i | 0 <= i < m :: items'[i] == if i == k then it else items[i];
    FirstMatchIs(items', h, p.qbits, p.r, 0, m);
    CountMatchesAfterEdit(items, k, it, h, p.qbits, p.r, |items|);
  }

  /** One more query, seen from the ledger of h. */
  lemma LedgerStep(items: Run, items': Run, g: nat, d: Decision, h: nat, p: Policy, fps: nat, adapts: nat, total: nat)
    requires Ledger(items, h, p, fps, adapts, total) && Seen(items, items', g, d, h, p)
    requires g == h ==> d == SkiDecision(items, h, p)
    ensures var hit := g == h && IsHit(items, h, p);
            Ledger(items', h, p, fps + if hit then 1 else 0, adapts + if hit && d == Adapt then 1 else 0, total)
  {
    hide Matches, Charge, Matching, Ledger;
    if g == h && IsHit(items, h, p) {
      if HitCount(items, h, p) < p.breakEven {
        LedgerCounts(items, h, p, fps, adapts, total);
      } else {
        LedgerAdapts(items, h, p, fps, adapts, total, items'[HitOf(items, h, p)]);
      }
    } else if items' != items {
      var k: nat, it :| k < |items| && items' == items[k := it] && !Matches(items[k], h, p.qbits, p.r)
          && !Matches(it, h, p.qbits, p.r);
      LedgerStays(items, h, p, fps, adapts, total, k, it);
    }
  }

  lemma LedgerOpens(runs: seq<Run>, hs: seq<nat>, h: nat, p: Policy)
    requires FilterOf(runs, p) && Countable(runs, hs, p) && BreakEvenFits(p) && h in hs && Foreign(h, p)
    ensures Ledger(Bucket(runs, h, p), h, p, 0, 0, Matching(Bucket(runs, h, p), h, p))
  {
    ChargeNothing(p.breakEven);
    var items := Bucket(runs, h, p);
    forall j | 0 <= j < |items| && Matches(items[j], h, p.qbits, p.r)
      ensures items[j].cnt == []
    {
      assert Takes(runs, Quotient(h, p.qbits, p.r), j, h, p);
    }
  }

  /** The ledger of every hash holds after every sequence of queries, however they are interleaved. */
  lemma {:induction false} LedgerHolds(runs: seq<Run>, hs: seq<nat>, h: nat, p: Policy, n: nat)
    requires FilterOf(runs, p) && Disjoint(runs, hs, p) && Countable(runs, hs, p) && BreakEvenFits(p)
    requires h in hs && Foreign(h, p) && n <= |hs|
    ensures var ds := SkiPlan(runs, hs, p);
            Ledger(Bucket(SkiAfter(runs, hs, p, n), h, p), h, p, FalsePositives(runs, hs, ds, h, p, n),
                   Adaptations(runs, hs, ds, h, p, n), Matching(Bucket(runs, h, p), h, p))
  {
    hide Ledger, Disjoint, Foreign, Countable, FilterOf, PlanStep, SkiDecision, Seen, Bucket, SkiAfter, After;
    var ds := SkiPlan(runs, hs, p);
    SkiPlanServes(runs, hs, p, n);
    if n == 0 {
      LedgerOpens(runs, hs, h, p);
      SkiAtStart(runs, hs, p);
    } else {
      LedgerHolds(runs, hs, h, p, n - 1);
      SkiPlanServes(runs, hs, p, n - 1);
      NextSeen(runs, hs, ds, h, p, n);
      LedgerStep(Bucket(SkiAfter(runs, hs, p, n - 1), h, p), Bucket(SkiAfter(runs, hs, p, n), h, p), hs[n - 1],
          ds[n - 1], h, p,
                 FalsePositives(runs, hs, ds, h, p, n - 1), Adaptations(runs, hs, ds, h, p, n - 1),
                 Matching(Bucket(runs, h, p), h, p));
    }
  }

  lemma SkiAtStart(runs: seq<Run>, hs: seq<nat>, p: Policy)
    requires FilterOf(runs, p)
    ensures SkiAfter(runs, hs, p, 0) == runs
  {
  }

  // ---- the guarantee ----------------------------------------------------------------------------

  /** The ski-rental guarantee, for every hash in every interleaving: of the queries for h exactly
      the first breakEven per accepting item are false positives, every breakEven-th of these is
      adapted to, and the cost is at most twice the cost under any plan. */
  lemma TwiceOptimal(runs: seq<Run>, hs: seq<nat>, h: nat, p: Policy, ds: seq<Decision>)
    requires FilterOf(runs, p) && Disjoint(runs, hs, p) && Countable(runs, hs, p) && BreakEvenFits(p)
    requires h in hs && Foreign(h, p) && |ds| == |hs|
    ensures var ski := SkiPlan(runs, hs, p);
            var fps := FalsePositives(runs, hs, ski, h, p, |hs|);
            && fps == Min(Occurrences(hs, h, |hs|), Charge(p.breakEven, Matching(Bucket(runs, h, p), h, p)))
            && Adaptations(runs, hs, ski, h, p, |hs|) == fps / p.breakEven
            && Cost(runs, hs, ski, h, p, |hs|) <= 2 * Cost(runs, hs, ds, h, p, |hs|)
  {
    hide Disjoint, FilterOf, Countable, Foreign, Bucket, FalsePositives, Adaptations, Occurrences, SkiPlan, SkiAfter,
        After, Matching,
         Charge, HitCount;
    var ski := SkiPlan(runs, hs, p);
    var f, a, total := FalsePositives(runs, hs, ski, h, p, |hs|), Adaptations(runs, hs, ski, h, p, |hs|),
        Matching(Bucket(runs, h, p), h, p);
    LedgerHolds(runs, hs, h, p, |hs|);
    SkiPlanServes(runs, hs, p, |hs|);
    PlanLedgerHolds(runs, hs, ski, h, p, |hs|);
    LedgerBounds(Bucket(SkiAfter(runs, hs, p, |hs|), h, p), h, p, f, a, total);
    NoPlanIsCheaper(runs, hs, ds, h, p);
    ChargeAlso(p.breakEven, total);
  }

  lemma LedgerBounds(items: Run, h: nat, p: Policy, fps: nat, adapts: nat, total: nat)
    requires Ledger(items, h, p, fps, adapts, total)
    ensures Charge(p.breakEven, adapts) <= fps <= Charge(p.breakEven, total)
    ensures !IsHit(items, h, p) ==> fps == Charge(p.breakEven, total)
    ensures p.breakEven > 0 && adapts == fps / p.breakEven
  {
    HitIffMatching(items, h, p);
    DivModUnique(fps, p.breakEven, adapts, HitCount(items, h, p) - 1);
    if IsHit(items, h, p) {
      MulStep(adapts, total, p.breakEven);
    } else {
      assert adapts == total;
    }
  }

  /** The whole run costs at most twice what it costs under any other plan. */
  lemma RunTwiceOptimal(runs: seq<Run>, hs: seq<nat>, p: Policy, ds: seq<Decision>)
    requires FilterOf(runs, p) && Disjoint(runs, hs, p) && Countable(runs, hs, p) && BreakEvenFits(p)
    requires |ds| == |hs|
    ensures TotalCost(runs, hs, SkiPlan(runs, hs, p), p, |hs|) <= 2 * TotalCost(runs, hs, ds, p, |hs|)
  {
    hide FilterOf, Foreign, Cost, TotalCost, Disjoint, Countable, SkiPlan;
    forall h | h in hs && Foreign(h, p)
      ensures Cost(runs, hs, SkiPlan(runs, hs, p), h, p, |hs|) <= 2 * Cost(runs, hs, ds, h, p, |hs|)
    {
      TwiceOptimal(runs, hs, h, p, ds);
    }
    CompareTotals(runs, hs, SkiPlan(runs, hs, p), ds, p, 2);
  }

  // ---- one turn of a run --------------------------------------------------------------------------

  /** What a run asks of the filter that it starts from: counts land where they belong, `limit` slots
      are enough to the end, and the full point is not reached. */
  ghost predicate Runnable(runs: seq<Run>, hs: seq<nat>, p: Policy, limit: nat, fullPoint: nat) {
    FilterOf(runs, p) && BreakEvenFits(p) && CountsLand(runs, hs, p) &&
    EndsWithin(runs, hs, SkiPlan(runs, hs, p), p, limit, fullPoint)
  }

  /** A false positive leaves room for its step, counters are found where they are, and one slot is
      enough for the next count. */
  ghost predicate StepFits(runs: seq<Run>, h: nat, p: Policy, limit: nat)
    requires FilterOf(runs, p) && FalseHit(runs, h, p)
  {
    var m := HitOf(Bucket(runs, h, p), h, p);
    && Hits(runs, p.keys, h, p.qbits, p.r, m)
    && (if HitCount(Bucket(runs, h, p), h, p) < p.breakEven
        then RoomToCount(runs, p.keys, h, p.qbits, p.r, m, limit)
        else RoomToAdapt(runs, p.keys, h, p.qbits, p.r, m, limit) && SafeToAdapt(runs, p.keys, h, p.qbits, p.r, m, limit))
  }

  /** What one query of a run asks for, and what it leads to. */
  ghost predicate Servable(runs: seq<Run>, h: nat, p: Policy, limit: nat) {
    && FilterOf(runs, p) && BreakEvenFits(p) && h < Pow2(HASH_BITS)
    && (FalseHit(runs, h, p) ==> StepFits(runs, h, p, limit))
  }

  ghost predicate StepOutcome(runs: seq<Run>, runs': seq<Run>, h: nat, p: Policy, fps: nat, adapts: nat) {
    FilterOf(runs, p) &&
    var d := SkiDecision(Bucket(runs, h, p), h, p);
    && runs' == PlanStep(runs, h, d, p)
    && fps == (if FalseHit(runs, h, p) then 1 else 0)
    && adapts == (if FalseHit(runs, h, p) && d == Adapt then 1 else 0)
  }

  lemma StepOutcomeCost(runs: seq<Run>, runs': seq<Run>, h: nat, p: Policy, fps: nat, adapts: nat)
    requires StepOutcome(runs, runs', h, p, fps, adapts)
    ensures FilterOf(runs, p)
    ensures Charge(p.breakEven, adapts) + fps == StepCost(runs, h, SkiDecision(Bucket(runs, h, p), h, p), p)
  {
    hide PlanStep, FilterOf, FalseHit;
    ChargeNothing(p.breakEven);
    ChargeNext(p.breakEven, 0);
  }

  /** The queries among the first n that are false positives. */
  ghost function FalseAt(runs: seq<Run>, hs: seq<nat>, p: Policy, n: nat): set<nat>
    requires FilterOf(runs, p) && n <= |hs|
  {
    set i: nat {:trigger hs[i]} | i < n && FalseHit(SkiAfter(runs, hs, p, i), hs[i], p)
  }

  /** Those of them that are adapted to: their item has been counted up to the break-even point. */
  ghost function AdaptedAt(runs: seq<Run>, hs: seq<nat>, p: Policy, n: nat): set<nat>
    requires FilterOf(runs, p) && n <= |hs|
  {
    set i: nat {:trigger hs[i]} | i < n && FalseHit(SkiAfter(runs, hs, p, i), hs[i], p) &&
                                  HitCount(Bucket(SkiAfter(runs, hs, p, i), hs[i], p), hs[i], p) >= p.breakEven
  }

  lemma CountsNext(runs: seq<Run>, hs: seq<nat>, p: Policy, n: nat)
    requires FilterOf(runs, p) && n < |hs|
    ensures var now, h := SkiAfter(runs, hs, p, n), hs[n];
            && |FalseAt(runs, hs, p, n + 1)| == |FalseAt(runs, hs, p, n)| + (if FalseHit(now, h, p) then 1 else 0)
            && |AdaptedAt(runs, hs, p, n + 1)| == |AdaptedAt(runs, hs, p, n)|
               + (if FalseHit(now, h, p) && SkiDecision(Bucket(now, h, p), h, p) == Adapt then 1 else 0)
  {
    hide FilterOf, SkiAfter, FalseHit, Bucket, HitCount;
    var now, h := SkiAfter(runs, hs, p, n), hs[n];
    assert FalseAt(runs, hs, p, n + 1) == FalseAt(runs, hs, p, n) + if FalseHit(now, h, p) then {n} else {};
    assert AdaptedAt(runs, hs, p, n + 1) == AdaptedAt(runs, hs, p, n)
         + if FalseHit(now, h, p) && HitCount(Bucket(now, h, p), h, p) >= p.breakEven then {n} else {};
  }

  lemma CountsStart(runs: seq<Run>, hs: seq<nat>, p: Policy)
    requires FilterOf(runs, p)
    ensures FalseAt(runs, hs, p, 0) == {} && AdaptedAt(runs, hs, p, 0) == {}
  {
  }

  lemma EveryStepFits(runs: seq<Run>, hs: seq<nat>, p: Policy, limit: nat, fullPoint: nat, n: nat)
    requires Runnable(runs, hs, p, limit, fullPoint) && n < |hs| && FalseHit(SkiAfter(runs, hs, p, n), hs[n], p)
    ensures StepFits(SkiAfter(runs, hs, p, n), hs[n], p, limit)
  {
    hide Spare, CountersOk, Foreign, SkiAfter, After, PlanStep, AllOwned, Value, TailPos, FirstMatch, Encode, Encs,
        Next, Matches, Pow2;
    var now, h, ski := SkiAfter(runs, hs, p, n), hs[n], SkiPlan(runs, hs, p);
    SkiPlanServes(runs, hs, p, n);
    assert CountLands(now, h, p);
    WithinBefore(runs, hs, ski, p, limit, fullPoint, n);
    OwnedAt(now, p.keys, p.qbits, p.r, Quotient(h, p.qbits, p.r));
    SpareGivesRoom(now, Quotient(h, p.qbits, p.r), HitOf(Bucket(now, h, p), h, p), limit);
    if ski[n] == Adapt {
      AdaptationFits(runs, hs, ski, p, limit, fullPoint, n);
    }
  }

  /** So the code follows the policy. */
  lemma StepIsSki(runs: seq<Run>, runs': seq<Run>, h: nat, p: Policy, m: nat, limit: nat)
    requires FilterOf(runs, p) && FalseHit(runs, h, p) && StepFits(runs, h, p, limit)
    requires Hits(runs, p.keys, h, p.qbits, p.r, m) && SkiStepped(runs, runs', p.keys, p.breakEven, h, p.qbits, p.r, m,
             limit)
    ensures runs' == PlanStep(runs, h, SkiDecision(Bucket(runs, h, p), h, p), p)
  {
    hide RoomToCount, RoomToAdapt, SafeToAdapt, AllOwned, FirstMatch;
    OwnedAt(runs, p.keys, p.qbits, p.r, Quotient(h, p.qbits, p.r));
  }

  /** Along a run every loaded key stays accepted, whatever the queries are. */
  lemma SkiKeepsKeys(runs: seq<Run>, hs: seq<nat>, p: Policy, n: nat, key: nat)
    requires FilterOf(runs, p) && n <= |hs| && |p.keys| >= Pow2(p.qbits) && IsOwner(p.keys, key, p.qbits, p.r)
    ensures Accepts(SkiAfter(runs, hs, p, n), key, p.qbits, p.r)
  {
    OwnersAreAccepted(SkiAfter(runs, hs, p, n), p.keys, key, p.qbits, p.r);
  }
}
