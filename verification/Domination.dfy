/** Adapting to every false positive has the fewest false positives of all plans: its fingerprints are
    always at least as long as those of any other plan. */
module Domination {
  import opened Numbers
  import opened Items
  import opened Hashes
  import opened Runs
  import opened Contents
  import opened Edits
  import opened Agreement
  import opened Loading
  import opened Adapting
  import opened Plans

  // ---- one item -----------------------------------------------------------------------------------

  /** An extension towards y is no longer than the position of a chunk that tells y apart. */
  lemma {:induction false} ExtendedWithin(ext: seq<nat>, longer: seq<nat>, x: nat, y: nat, d: nat, qbits: nat, r: nat)
    requires r > 0 && ext <= longer && Agrees(longer, x, r) && |ext| <= d < |longer| && Chunk(x, r, d) != Chunk(y, r, d)
    ensures Extended(ext, x, y, qbits, r) <= longer
    decreases d - |ext|
  {
    hide Chunk;
    var e := ext + [Chunk(x, r, |ext|)];
    assert longer[|ext|] == Chunk(x, r, |ext|);
    assert r * |e| == r * |ext| + r;
    if Chunk(x, r, |ext|) == Chunk(y, r, |ext|) && r * |e| + qbits + r < HASH_BITS {
      ExtendedWithin(e, longer, x, y, d, qbits, r);
    }
  }

  /** Extending starts with chunks on which both hashes agree, as long as these do not cover 64 bits. */
  lemma {:induction false} ExtendedThrough(ext: seq<nat>, longer: seq<nat>, x: nat, y: nat, qbits: nat, r: nat)
    requires r > 0 && ext <= longer && Agrees(longer, x, r) && Agrees(longer, y, r) && r * |longer| + qbits
             + r < HASH_BITS
    ensures Extended(ext, x, y, qbits, r) == Extended(longer, x, y, qbits, r)
    decreases |longer| - |ext|
  {
    hide Chunk;
    if |ext| == |longer| {
      assert ext == longer;
    } else {
      var e := ext + [Chunk(x, r, |ext|)];
      assert longer[|ext|] == Chunk(x, r, |ext|) == Chunk(y, r, |ext|);
      assert r * |e| == r * |ext| + r;
      MulMonotone(|e|, |longer|, r);
      ExtendedThrough(e, longer, x, y, qbits, r);
    }
  }

  /** A fingerprint that covers 64 bits accepts its own key only. */
  lemma FullAcceptsOne(it: Item, key: nat, h: nat, qbits: nat, r: nat)
    requires key < Pow2(HASH_BITS) && h < Pow2(HASH_BITS) && Quotient(key, qbits, r) == Quotient(h, qbits, r)
    requires Matches(it, key, qbits, r) && Matches(it, h, qbits, r) && qbits + r + r * |it.ext| >= HASH_BITS
    ensures h == key
  {
    assert forall i | 0 <= i < |it.ext| :: Chunk(High(key, qbits, r), r, i) == it.ext[i] == Chunk(High(h, qbits, r), r,
        i);
    SameFingerprintSameHash(h, key, qbits, r, |it.ext|);
  }

  /** Of two fingerprints of a key, adapting both to a hash keeps the longer one longer; if it rejects
      the hash already, it need not be adapted. */
  lemma AdaptedStaysShorter(long: Item, short: Item, key: nat, h: nat, qbits: nat, r: nat)
    requires r > 0 && Extends(long, short) && Matches(long, key, qbits, r) && Matches(short, h, qbits, r)
    requires key < Pow2(HASH_BITS) && h < Pow2(HASH_BITS) && Quotient(key, qbits, r) == Quotient(h, qbits, r)
             && h != key
    ensures Matches(long, h, qbits, r) ==> Extends(Adapted(long, key, h, qbits, r), Adapted(short, key, h, qbits, r))
    ensures !Matches(long, h, qbits, r) ==> Extends(long, Adapted(short, key, h, qbits, r))
  {
    var x, y := High(key, qbits, r), High(h, qbits, r);
    if Matches(long, h, qbits, r) {
      if qbits + r + r * |long.ext| >= HASH_BITS {
        FullAcceptsOne(long, key, h, qbits, r);
      }
      ExtendedThrough(short.ext, long.ext, x, y, qbits, r);
    } else {
      var d :| 0 <= d < |long.ext| && long.ext[d] != Chunk(y, r, d);
      assert forall i | 0 <= i < |short.ext| :: long.ext[i] == short.ext[i];
      ExtendedWithin(short.ext, long.ext, x, y, d, qbits, r);
    }
  }

  // ---- one query ----------------------------------------------------------------------------------

  /** Every fingerprint of `a` extends the one of `b`. */
  ghost predicate Dominates(a: seq<Run>, b: seq<Run>) {
    && |a| == |b| && (forall q | 0 <= q < |a| :: |a[q]| == |b[q]|)
    && forall q, j | 0 <= q < |a| && 0 <= j < |a[q]| :: Extends(a[q][j], b[q][j])
  }

  /** Then what hits in `a` hits in `b`, at the same item or an earlier one. */
  lemma DominatedHits(a: seq<Run>, b: seq<Run>, h: nat, p: Policy)
    requires FilterOf(a, p) && FilterOf(b, p) && Dominates(a, b)
    ensures HitOf(Bucket(b, h, p), h, p) <= HitOf(Bucket(a, h, p), h, p)
    ensures FalseHit(a, h, p) ==> FalseHit(b, h, p)
  {
    var q := Quotient(h, p.qbits, p.r);
    var m := HitOf(a[q], h, p);
    if m < |a[q]| {
      LongerAcceptsLess(b[q][m], a[q][m], h, p.qbits, p.r);
    }
  }

  lemma ExtendsChain(a: Item, b: Item, c: Item)
    requires Extends(a, b) && Extends(b, c)
    ensures Extends(a, c)
  {
  }

  /** The item that is hit in `b` stays ahead in `a`, if both are adapted. */
  lemma HitStaysAhead(a: seq<Run>, b: seq<Run>, h: nat, p: Policy)
    requires FilterOf(a, p) && FilterOf(b, p) && Dominates(a, b) && FalseHit(b, h, p)
    ensures var q, m, a' := Quotient(h, p.qbits, p.r), HitOf(Bucket(b, h, p), h, p), PlanStep(a, h, Adapt, p);
            |a'| == |a| && m < |a'[q]| && Extends(a'[q][m], ItemAfter(b, h, Adapt, p))
  {
    hide FilterOf, PlanStep, Extends, Matches, FalseHit, HitOf, ItemAfter, Adapted;
    var q, m := Quotient(h, p.qbits, p.r), HitOf(Bucket(b, h, p), h, p);
    StepExtends(a, h, Adapt, p);
    OwnersAgree(a, b, h, p);
    AdaptedItem(b, h, p);
    AdaptedStaysShorter(a[q][m], b[q][m], p.keys[q][m], h, p.qbits, p.r);
    if Matches(a[q][m], h, p.qbits, p.r) {
      HitHere(a, b, h, p);
      AdaptedItem(a, h, p);
    } else {
      ExtendsChain(PlanStep(a, h, Adapt, p)[q][m], a[q][m], ItemAfter(b, h, Adapt, p));
    }
  }

  lemma AdaptedItem(runs: seq<Run>, h: nat, p: Policy)
    requires FilterOf(runs, p) && FalseHit(runs, h, p)
    ensures var q, m := Quotient(h, p.qbits, p.r), HitOf(Bucket(runs, h, p), h, p);
            && |p.keys| == |runs| && |p.keys[q]| == |runs[q]| && m < |runs[q]|
            && ItemAfter(runs, h, Adapt, p) == Adapted(runs[q][m], p.keys[q][m], h, p.qbits, p.r)
            && PlanStep(runs, h, Adapt, p) == WithItem(runs, q, m, ItemAfter(runs, h, Adapt, p))
  {
    hide FirstMatch, PlanStep;
    StepIsEdit(runs, h, Adapt, p);
    OwnedAt(runs, p.keys, p.qbits, p.r, Quotient(h, p.qbits, p.r));
  }

  lemma HitHere(a: seq<Run>, b: seq<Run>, h: nat, p: Policy)
    requires FilterOf(a, p) && FilterOf(b, p) && Dominates(a, b) && FalseHit(b, h, p)
    requires var q, m := Quotient(h, p.qbits, p.r), HitOf(Bucket(b, h, p), h, p);
             m < |a[q]| && Matches(a[q][m], h, p.qbits, p.r)
    ensures FalseHit(a, h, p) && HitOf(Bucket(a, h, p), h, p) == HitOf(Bucket(b, h, p), h, p)
  {
    hide Dominates, AllOwned;
    DominatedHits(a, b, h, p);
  }

  lemma OwnersAgree(a: seq<Run>, b: seq<Run>, h: nat, p: Policy)
    requires FilterOf(a, p) && FilterOf(b, p) && Dominates(a, b) && FalseHit(b, h, p)
    ensures var q, m := Quotient(h, p.qbits, p.r), HitOf(Bucket(b, h, p), h, p);
            && p.r > 0 && q < |a| == |p.keys| == |b| && m < |a[q]| == |p.keys[q]| == |b[q]|
                && Hits(b, p.keys, h, p.qbits, p.r, m)
            && Matches(a[q][m], p.keys[q][m], p.qbits, p.r) && Matches(b[q][m], h, p.qbits, p.r)
            && p.keys[q][m] < Pow2(HASH_BITS) && h < Pow2(HASH_BITS) && Quotient(p.keys[q][m], p.qbits, p.r) == q
                && p.keys[q][m] != h
  {
    OwnedItem(a, p.keys, p.qbits, p.r, Quotient(h, p.qbits, p.r), HitOf(Bucket(b, h, p), h, p));
  }

  /** Adapting keeps the lead over any decision. */
  lemma StepDominates(a: seq<Run>, b: seq<Run>, h: nat, d: Decision, p: Policy)
    requires FilterOf(a, p) && FilterOf(b, p) && Dominates(a, b)
    ensures Dominates(PlanStep(a, h, Adapt, p), PlanStep(b, h, d, p))
  {
    hide FilterOf, PlanStep, MayBecome, Extends, Foreign, FirstMatch;
    var a', b' := PlanStep(a, h, Adapt, p), PlanStep(b, h, d, p);
    StepIsEdit(b, h, d, p);
    StepExtends(a, h, Adapt, p);
    StepExtends(b, h, d, p);
    if FalseHit(b, h, p) {
      HitStaysAhead(a, b, h, p);
    }
    forall q, j | 0 <= q < |a'| && 0 <= j < |a'[q]|
      ensures Extends(a'[q][j], b'[q][j])
    {
      ExtendsChain(a'[q][j], a[q][j], b[q][j]);
      if FalseHit(b, h, p) && q == Quotient(h, p.qbits, p.r) && j == HitOf(Bucket(b, h, p), h, p) && d != Adapt {
        RecountedExtends(a'[q][j], b, h, d, p);
      }
    }
  }

  lemma RecountedExtends(long: Item, b: seq<Run>, h: nat, d: Decision, p: Policy)
    requires FilterOf(b, p) && FalseHit(b, h, p) && d != Adapt
             && Extends(long, Bucket(b, h, p)[HitOf(Bucket(b, h, p), h, p)])
    ensures Extends(long, ItemAfter(b, h, d, p))
  {
  }

  // ---- sequences of queries -----------------------------------------------------------------------

  /** Every false positive is adapted to. */
  ghost function AdaptAll(hs: seq<nat>): (ds: seq<Decision>)
    ensures |ds| == |hs| && forall i | 0 <= i < |ds| :: ds[i] == Adapt
  {
    seq(|hs|, i => Adapt)
  }

  lemma {:induction false} AdaptAllDominates(runs: seq<Run>, hs: seq<nat>, ds: seq<Decision>, p: Policy, n: nat)
    requires PlanFor(runs, hs, ds, p) && n <= |hs|
    ensures Dominates(After(runs, hs, AdaptAll(hs), p, n), After(runs, hs, ds, p, n))
  {
    hide FilterOf, PlanStep, Dominates;
    if n == 0 {
      DominatesItself(runs);
    } else {
      AdaptAllDominates(runs, hs, ds, p, n - 1);
      StepDominates(After(runs, hs, AdaptAll(hs), p, n - 1), After(runs, hs, ds, p, n - 1), hs[n - 1], ds[n - 1], p);
    }
  }

  lemma DominatesItself(runs: seq<Run>)
    ensures Dominates(runs, runs)
  {
  }

  /** The false positives of a run. */
  ghost function AllFalsePositives(runs: seq<Run>, hs: seq<nat>, ds: seq<Decision>, p: Policy, n: nat): nat
    requires PlanFor(runs, hs, ds, p) && n <= |hs|
  {
    if n == 0 then 0
    else AllFalsePositives(runs, hs, ds, p, n - 1) + if FalseHit(After(runs, hs, ds, p, n - 1), hs[n - 1],
        p) then 1 else 0
  }

  /** No plan has fewer false positives, at any time. */
  lemma {:induction false} FewestFalsePositives(runs: seq<Run>, hs: seq<nat>, ds: seq<Decision>, p: Policy, n: nat)
    requires PlanFor(runs, hs, ds, p) && n <= |hs|
    ensures AllFalsePositives(runs, hs, AdaptAll(hs), p, n) <= AllFalsePositives(runs, hs, ds, p, n)
  {
    hide FilterOf, FalseHit, Dominates, After;
    if n == 0 {
    } else {
      FewestFalsePositives(runs, hs, ds, p, n - 1);
      AdaptAllDominates(runs, hs, ds, p, n - 1);
      DominatedHits(After(runs, hs, AdaptAll(hs), p, n - 1), After(runs, hs, ds, p, n - 1), hs[n - 1], p);
    }
  }

  lemma {:induction false} CostOfFalsePositives(runs: seq<Run>, hs: seq<nat>, ds: seq<Decision>, p: Policy, n: nat)
    requires PlanFor(runs, hs, ds, p) && n <= |hs|
    ensures TotalCost(runs, hs, ds, p, n) >= AllFalsePositives(runs, hs, ds, p, n)
    ensures p.breakEven == 1 && ds == AdaptAll(hs) ==> TotalCost(runs, hs, ds, p, n) == 2 * AllFalsePositives(runs, hs,
            ds, p, n)
  {
    hide FilterOf, FalseHit, After;
    if n == 0 {
    } else {
      CostOfFalsePositives(runs, hs, ds, p, n - 1);
    }
  }

  /** If an adaptation costs as much as a false positive, adapting to every one costs at most twice what
      any plan costs, for all queries. */
  lemma AdaptAllTwiceOptimal(runs: seq<Run>, hs: seq<nat>, ds: seq<Decision>, p: Policy)
    requires PlanFor(runs, hs, ds, p) && p.breakEven == 1
    ensures TotalCost(runs, hs, AdaptAll(hs), p, |hs|) <= 2 * TotalCost(runs, hs, ds, p, |hs|)
  {
    FewestFalsePositives(runs, hs, ds, p, |hs|);
    CostOfFalsePositives(runs, hs, ds, p, |hs|);
    CostOfFalsePositives(runs, hs, AdaptAll(hs), p, |hs|);
  }

  // ---- the test loop with room to the end -----------------------------------------------------------

  /** The database holds exactly the keys that were loaded. */
  ghost predicate Knows(db: set<nat>, hs: seq<nat>, p: Policy) {
    forall h | h in hs :: h < Pow2(HASH_BITS) && (h in db <==> !Foreign(h, p))
  }

  /** Adapting to everything ends with a slot to spare and below the full point. */
  ghost predicate RoomForAll(runs: seq<Run>, hs: seq<nat>, db: set<nat>, p: Policy, limit: nat, fullPoint: nat) {
    EndsWithin(runs, hs, AdaptAll(hs), p, limit, fullPoint) && Knows(db, hs, p)
  }

  /** Then the next query is safe. */
  lemma RoomForTurn(runs: seq<Run>, hs: seq<nat>, db: set<nat>, p: Policy, limit: nat, fullPoint: nat, n: nat)
    requires RoomForAll(runs, hs, db, p, limit, fullPoint) && n < |hs|
    ensures var now, h := After(runs, hs, AdaptAll(hs), p, n), hs[n];
            h !in db ==> SafeToServe(now, p.keys, h, p.qbits, p.r, limit)
  {
    hide Spare, CountersOk, After, PlanStep, SafeToAdapt, RoomToAdapt, AllOwned, FirstMatch, MayBecome, Separated,
        Total, Matches;
    var now, h := After(runs, hs, AdaptAll(hs), p, n), hs[n];
    assert h in hs;
    if h !in db && FalseHit(now, h, p) {
      AdaptationFits(runs, hs, AdaptAll(hs), p, limit, fullPoint, n);
    }
  }

  /** And what it leads to is the next state of the plan. */
  lemma ServedIsNext(runs: seq<Run>, hs: seq<nat>, db: set<nat>, p: Policy, limit: nat, fullPoint: nat, n: nat,
                     next: seq<Run>)
    requires RoomForAll(runs, hs, db, p, limit, fullPoint) && n < |hs|
    requires var now, h := After(runs, hs, AdaptAll(hs), p, n), hs[n];
             Served(now, next, p.keys, h, h !in db && Total(now) < fullPoint, p.qbits, p.r, limit)
    ensures next == After(runs, hs, AdaptAll(hs), p, n + 1)
  {
    hide Spare, CountersOk, After, PlanStep, SafeToAdapt, RoomToAdapt, AllOwned, FirstMatch, MayBecome, Separated,
        Total, Matches;
    var now, h := After(runs, hs, AdaptAll(hs), p, n), hs[n];
    assert h in hs;
    WithinBefore(runs, hs, AdaptAll(hs), p, limit, fullPoint, n);
    AfterNext(runs, hs, AdaptAll(hs), p, n);
    StepIsEdit(now, h, Adapt, p);
    AcceptsIffFound(now, h, p.qbits, p.r);
    OwnedAt(now, p.keys, p.qbits, p.r, Quotient(h, p.qbits, p.r));
    if FalseHit(now, h, p) {
      AdaptationFits(runs, hs, AdaptAll(hs), p, limit, fullPoint, n);
    }
  }

  /** The states of the test loop are those of the plan that always adapts. */
  ghost predicate FullRun(states: seq<seq<Run>>, hs: seq<nat>, p: Policy) {
    && |states| == |hs| + 1 && FilterOf(states[0], p)
    && forall i {:trigger states[i]} | 0 <= i <= |hs| :: states[i] == After(states[0], hs, AdaptAll(hs), p, i)
  }

  lemma FullRunAdapts(states: seq<seq<Run>>, hs: seq<nat>, p: Policy, h: nat)
    requires FullRun(states, hs, p) && IsHistory(states, hs, p.keys, p.qbits, p.r) && p.r > 0 && Foreign(h, p)
    ensures AlwaysAdapts(states, hs, p.keys, h, p.qbits, p.r)
  {
    hide After, PlanStep, FirstMatch, MayBecome, Matches, Foreign;
    forall i | 0 <= i < |hs| && hs[i] == h && Accepts(states[i], h, p.qbits, p.r)
      ensures exists m :: Hits(states[i], p.keys, h, p.qbits, p.r, m) && states[i + 1] == AdaptHit(states[i], p.keys, h, p.qbits, p.r, m)
    {
      AcceptsIffFound(states[i], h, p.qbits, p.r);
      AfterNext(states[0], hs, AdaptAll(hs), p, i);
      StepIsEdit(states[i], h, Adapt, p);
      OwnedAt(states[i], p.keys, p.qbits, p.r, Quotient(h, p.qbits, p.r));
      assert Hits(states[i], p.keys, h, p.qbits, p.r, HitOf(Bucket(states[i], h, p), h, p));
    }
  }

  /** So every hash is a false positive at most once for every item that accepts it at first. */
  lemma FullRunBounded(states: seq<seq<Run>>, hs: seq<nat>, p: Policy, h: nat)
    requires FullRun(states, hs, p) && IsHistory(states, hs, p.keys, p.qbits, p.r) && p.r > 0 && Foreign(h, p)
    ensures AcceptedQueries(states, hs, p.keys, h, p.qbits, p.r, |hs|) <= MatchCount(states[0], h, p.qbits, p.r)
  {
    FullRunAdapts(states, hs, p, h);
    FalsePositivesBounded(states, hs, p.keys, h, p.qbits, p.r, |hs|);
  }

  ghost predicate Bounded(states: seq<seq<Run>>, hs: seq<nat>, p: Policy) {
    && p.r > 0 && IsHistory(states, hs, p.keys, p.qbits, p.r)
    && forall h | Foreign(h, p) :: AcceptedQueries(states, hs, p.keys, h, p.qbits, p.r, |hs|) <= MatchCount(states[0],
        h, p.qbits, p.r)
  }

  /** The states so far are those of the plan. */
  ghost predicate FullSoFar(states: seq<seq<Run>>, hs: seq<nat>, p: Policy) {
    && 0 < |states| <= |hs| + 1 && FilterOf(states[0], p)
    && forall i {:trigger states[i]} | 0 <= i < |states| :: states[i] == After(states[0], hs, AdaptAll(hs), p, i)
  }

  lemma FullStarts(runs: seq<Run>, hs: seq<nat>, db: set<nat>, p: Policy, limit: nat, fullPoint: nat)
    requires RoomForAll(runs, hs, db, p, limit, fullPoint)
    ensures FullSoFar([runs], hs, p)
  {
  }

  lemma FullTurn(states: seq<seq<Run>>, hs: seq<nat>, db: set<nat>, p: Policy, limit: nat, fullPoint: nat, n: nat)
    requires |states| == n + 1 && n < |hs| && FullSoFar(states, hs, p)
             && RoomForAll(states[0], hs, db, p, limit, fullPoint)
    ensures |states[n]| >= Pow2(p.qbits) && p.r > 0
    ensures hs[n] !in db ==> SafeToServe(states[n], p.keys, hs[n], p.qbits, p.r, limit)
  {
    hide RoomForAll, After, SafeToServe;
    RoomForTurn(states[0], hs, db, p, limit, fullPoint, n);
  }

  lemma FullNext(states: seq<seq<Run>>, hs: seq<nat>, db: set<nat>, p: Policy, limit: nat, fullPoint: nat, n: nat,
                 next: seq<Run>)
    requires |states| == n + 1 && n < |hs| && FullSoFar(states, hs, p)
             && RoomForAll(states[0], hs, db, p, limit, fullPoint)
    requires |states[n]| >= Pow2(p.qbits) && p.r > 0
    requires Served(states[n], next, p.keys, hs[n], hs[n] !in db && Total(states[n]) < fullPoint, p.qbits, p.r, limit)
    ensures FullSoFar(states + [next], hs, p)
  {
    hide RoomForAll, After, Served;
    ServedIsNext(states[0], hs, db, p, limit, fullPoint, n, next);
  }

  lemma FullEnds(states: seq<seq<Run>>, hs: seq<nat>, answers: seq<bool>, db: set<nat>, p: Policy, fullPoint: nat,
                 limit: nat)
    requires p.r > 0 && |states| == |hs| + 1 && FullSoFar(states, hs, p)
    requires TestRun(states, hs, answers, p.keys, db, fullPoint, p.qbits, p.r, limit)
    ensures FullRun(states, hs, p) && Bounded(states, hs, p)
  {
    forall h | Foreign(h, p)
      ensures AcceptedQueries(states, hs, p.keys, h, p.qbits, p.r, |hs|) <= MatchCount(states[0], h, p.qbits, p.r)
    {
      FullRunBounded(states, hs, p, h);
    }
  }

  // ---- loading first ------------------------------------------------------------------------------

  /** The same in terms of the keys to be loaded. */
  ghost predicate LoadedRoom(runs: seq<Run>, keys: seq<seq<nat>>, ks: seq<nat>, hs: seq<nat>, qbits: nat, r: nat,
                             limit: nat,
                             fullPoint: nat) {
    && AreHashes(hs) && AreHashes(ks) && |runs| >= Pow2(qbits) && AllOwned(runs, keys, qbits, r)
    && EndsWithin(Load(runs, ks, qbits, r), hs, AdaptAll(hs), Policy(LoadKeys(runs, keys, ks, qbits, r), 1, qbits, r),
        limit, fullPoint)
  }

  lemma ListedCovers(lists: map<nat, seq<nat>>, p: Policy)
    requires Listed(lists, p.keys, p.qbits, p.r)
    ensures |p.keys| >= Pow2(p.qbits)
  {
  }

  lemma LoadedKnows(lists: map<nat, seq<nat>>, ks: seq<nat>, hs: seq<nat>, p: Policy)
    requires AreHashes(hs) && Listed(lists, p.keys, p.qbits, p.r) && Loaded(lists, ks, p.qbits + p.r)
    ensures Knows(KeySet(ks), hs, p)
  {
    hide Listed, Loaded, IsOwner;
    ListedCovers(lists, p);
    forall h | h in hs
      ensures h < Pow2(HASH_BITS) && (h in KeySet(ks) <==> !Foreign(h, p))
    {
      LoadedExactly(lists, p.keys, ks, p.qbits, p.r, h);
    }
  }

  lemma LoadedHasRoom(runs: seq<Run>, keys: seq<seq<nat>>, lists: map<nat, seq<nat>>, ks: seq<nat>, hs: seq<nat>,
                      qbits: nat, r: nat,
                      limit: nat, fullPoint: nat)
    requires |runs| >= Pow2(qbits) && AllOwned(runs, keys, qbits, r) && AreHashes(ks)
    requires Listed(lists, LoadKeys(runs, keys, ks, qbits, r), qbits, r) && Loaded(lists, ks, qbits + r)
    ensures LoadedRoom(runs, keys, ks, hs, qbits, r, limit, fullPoint) ==>
              RoomForAll(Load(runs, ks, qbits, r), hs, KeySet(ks),
                  Policy(LoadKeys(runs, keys, ks, qbits, r), 1, qbits, r), limit, fullPoint)
  {
    hide EndsWithin, Knows, Listed, Loaded, Load, LoadKeys, AllOwned, AreHashes, AdaptAll, KeySet, Pow2;
    if LoadedRoom(runs, keys, ks, hs, qbits, r, limit, fullPoint) {
      LoadedKnows(lists, ks, hs, Policy(LoadKeys(runs, keys, ks, qbits, r), 1, qbits, r));
    }
  }
}
