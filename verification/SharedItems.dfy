/** Queries that share an item. Without the assumption that every item accepts one query only, what
    SkiQF promises depends on the break-even count and on the widths of the hash fields: here is exactly
    how, for filters as they are after loading. */
module SharedItems {
  import opened Numbers
  import opened Items
  import opened Hashes
  import opened Runs
  import opened Contents
  import opened Edits
  import opened Agreement
  import opened Loading
  import opened Adapting
  import opened Plans
  import opened Domination
  import opened SkiRental

  // ---- where counts always land -------------------------------------------------------------------

  /** One chunk and the fields below it cover a hash. */
  predicate OneChunkCovers(qbits: nat, r: nat) {
    qbits + 2 * r >= 64
  }

  lemma FreshCountersOk(runs: seq<Run>)
    requires Fresh(runs)
    ensures CountersOk(runs)
  {
  }

  lemma SkiCountersOk(runs: seq<Run>, hs: seq<nat>, p: Policy, n: nat)
    requires FilterOf(runs, p) && CountersOk(runs) && n <= |hs|
    ensures CountersOk(SkiAfter(runs, hs, p, n))
  {
    SkiPlanServes(runs, hs, p, n);
    PlanGrows(runs, hs, SkiPlan(runs, hs, p), p, n, n);
  }

  /** With a break-even count of at most 2, no existing counter is ever counted up. */
  lemma SmallBreakEvenLands(runs: seq<Run>, hs: seq<nat>, p: Policy)
    requires FilterOf(runs, p) && CountersOk(runs) && p.breakEven <= 2
    ensures CountsLand(runs, hs, p)
  {
    forall n | 0 <= n < |hs|
      ensures CountLands(SkiAfter(runs, hs, p, n), hs[n], p)
    {
      SkiCountersOk(runs, hs, p, n);
      CountedIsAtLeastTwo(SkiAfter(runs, hs, p, n), hs[n], p);
    }
  }

  lemma CountedIsAtLeastTwo(runs: seq<Run>, h: nat, p: Policy)
    requires FilterOf(runs, p) && CountersOk(runs)
    ensures FalseHit(runs, h, p) ==>
              var it := Bucket(runs, h, p)[HitOf(Bucket(runs, h, p), h, p)];
              HitCount(Bucket(runs, h, p), h, p) >= if it.cnt == [] then 1 else 2
  {
    if FalseHit(runs, h, p) {
      var q, m := Quotient(h, p.qbits, p.r), HitOf(Bucket(runs, h, p), h, p);
      if runs[q][m].cnt != [] {
        assert |runs[q][m].cnt| <= 1;
        OneDigit(runs[q][m], p.r);
      }
    }
  }

  /** If one chunk covers the hash, false positives only hit items without extension. */
  lemma CoveredHitIsPlain(runs: seq<Run>, h: nat, p: Policy)
    requires FilterOf(runs, p) && OneChunkCovers(p.qbits, p.r) && FalseHit(runs, h, p)
    ensures Bucket(runs, h, p)[HitOf(Bucket(runs, h, p), h, p)].ext == []
  {
    var q, m := Quotient(h, p.qbits, p.r), HitOf(Bucket(runs, h, p), h, p);
    OwnedItem(runs, p.keys, p.qbits, p.r, q, m);
    if runs[q][m].ext != [] {
      MulMonotone(1, |runs[q][m].ext|, p.r);
      FullAcceptsOne(runs[q][m], p.keys[q][m], h, p.qbits, p.r);
    }
  }

  lemma CoveredLands(runs: seq<Run>, hs: seq<nat>, p: Policy)
    requires FilterOf(runs, p) && OneChunkCovers(p.qbits, p.r)
    ensures CountsLand(runs, hs, p)
  {
    forall n | 0 <= n < |hs|
      ensures CountLands(SkiAfter(runs, hs, p, n), hs[n], p)
    {
      if FalseHit(SkiAfter(runs, hs, p, n), hs[n], p) {
        CoveredHitIsPlain(SkiAfter(runs, hs, p, n), hs[n], p);
      }
    }
  }

  // ---- hashes with given chunks -------------------------------------------------------------------

  /** The hash with remainder 1, quotient 0 and the chunks c and d. */
  function Make(c: nat, d: nat, qbits: nat, r: nat): nat {
    1 + Times(c + Times(d, Pow2(r)), Pow2(qbits + r))
  }

  function Times(a: nat, b: nat): nat {
    assert a * b >= 0;
    a * b
  }

  lemma MadeHigh(c: nat, d: nat, qbits: nat, r: nat)
    requires r > 0
    ensures High(Make(c, d, qbits, r), qbits, r) == c + Times(d, Pow2(r))
  {
    TimesOne(qbits + r);
    DivModUnique(Make(c, d, qbits, r), Pow2(qbits + r), c + Times(d, Pow2(r)), 1);
  }

  lemma TimesOne(n: nat)
    requires n > 0
    ensures Pow2(n) > 1
  {
  }

  lemma MadeFields(c: nat, d: nat, qbits: nat, r: nat)
    requires r > 0
    ensures Remainder(Make(c, d, qbits, r), r) == 1 && Quotient(Make(c, d, qbits, r), qbits, r) == 0
  {
    var x, y, h := c + Times(d, Pow2(r)), Pow2(qbits), Make(c, d, qbits, r);
    Pow2Add(qbits, r);
    TimesOne(r);
    MulAssociate(x, y, Pow2(r));
    DivModUnique(h, Pow2(r), x * y, 1);
    DivModUnique(x * y, y, x, 0);
  }

  lemma MulAssociate(x: nat, y: nat, z: nat)
    ensures x * (y * z) == x * y * z && x * y >= 0
  {
  }

  lemma MadeChunks(c: nat, d: nat, qbits: nat, r: nat)
    requires r > 0 && c < Pow2(r) && d < Pow2(r)
    ensures var x := High(Make(c, d, qbits, r), qbits, r); Chunk(x, r, 0) == c && Chunk(x, r, 1) == d
  {
    MadeHigh(c, d, qbits, r);
    var x := c + Times(d, Pow2(r));
    DivModUnique(x, Pow2(r), d, c);
    assert Chunk(x, r, 1) == Chunk(Shr(x, r), r, 0) == Low(d, r);
    DivModUnique(d, Pow2(r), 0, d);
  }

  lemma MadeBound(c: nat, d: nat, qbits: nat, r: nat)
    requires r > 0 && c < Pow2(r) && d <= 1 && qbits + 2 * r < HASH_BITS
    ensures Make(c, d, qbits, r) < Pow2(HASH_BITS)
  {
    hide Pow2;
    var b := Pow2(qbits + r);
    TimesOne(qbits + r);
    TimesSmall(d, Pow2(r));
    MulStep(c + Times(d, Pow2(r)), 2 * Pow2(r), b);
    Pow2Add(r + 1, qbits + r);
    Pow2Twice(r);
    Pow2Grows(qbits + 2 * r + 1, HASH_BITS);
  }

  lemma TimesSmall(d: nat, b: nat)
    ensures d == 0 ==> Times(d, b) == 0
    ensures d == 1 ==> Times(d, b) == b
  {
  }

  lemma Pow2Twice(n: nat)
    ensures Pow2(n + 1) == 2 * Pow2(n)
  {
  }

  lemma {:induction false} Pow2Grows(a: nat, b: nat)
    requires a <= b
    ensures Pow2(a) <= Pow2(b)
  {
    if a == b {
    } else {
      Pow2Grows(a, b - 1);
    }
  }

  lemma MadeMatches(ext: seq<nat>, cnt: seq<nat>, c: nat, d: nat, qbits: nat, r: nat)
    requires r > 0 && c < Pow2(r) && d < Pow2(r) && |ext| <= 2
    ensures Matches(Item(1, ext, cnt), Make(c, d, qbits, r), qbits, r) <==>
            (|ext| > 0 ==> ext[0] == c) && (|ext| > 1 ==> ext[1] == d)
  {
    hide Chunk, High, Make, Remainder;
    MadeFields(c, d, qbits, r);
    MadeChunks(c, d, qbits, r);
    var x := High(Make(c, d, qbits, r), qbits, r);
    if (|ext| > 0 ==> ext[0] == c) && (|ext| > 1 ==> ext[1] == d) {
      assert forall i | 0 <= i < |ext| :: ext[i] == Chunk(x, r, i);
    }
  }

  /** An item that is adapted to a hash with another first chunk gets that chunk of its own. */
  lemma AdaptedByFirst(cnt: seq<nat>, c: nat, c': nat, d: nat, d': nat, qbits: nat, r: nat)
    requires r > 0 && c < Pow2(r) && c' < Pow2(r) && d < Pow2(r) && d' < Pow2(r) && c != c'
    ensures Adapted(Item(1, [], cnt), Make(c, d, qbits, r), Make(c', d', qbits, r), qbits, r) == Item(1, [c], [])
  {
    hide Chunk, High, Make, Adapted;
    MadeChunks(c, d, qbits, r);
    MadeChunks(c', d', qbits, r);
    assert r * 0 == 0 && [] + [c] == [c];
    AdaptedStep(Item(1, [], cnt), Make(c, d, qbits, r), Make(c', d', qbits, r), qbits, r, 0);
  }

  lemma AdaptedBySecond(ext: seq<nat>, cnt: seq<nat>, c: nat, d: nat, d': nat, qbits: nat, r: nat)
    requires r > 0 && c < Pow2(r) && d < Pow2(r) && d' < Pow2(r) && d != d' && qbits + 2 * r < HASH_BITS
             && (ext == [] || ext == [c])
    ensures Adapted(Item(1, ext, cnt), Make(c, d, qbits, r), Make(c, d', qbits, r), qbits, r) == Item(1, [c, d], [])
  {
    hide Chunk, High, Make, Adapted;
    MadeChunks(c, d, qbits, r);
    MadeChunks(c, d', qbits, r);
    assert r * 0 == 0 && r * 1 == r && [] + [c] == [c] && [c] + [d] == [c, d];
    if ext == [] {
      AdaptedStep(Item(1, [], cnt), Make(c, d, qbits, r), Make(c, d', qbits, r), qbits, r, 0);
      AdaptedStep(Item(1, [c], []), Make(c, d, qbits, r), Make(c, d', qbits, r), qbits, r, r);
    } else {
      AdaptedStep(Item(1, [c], cnt), Make(c, d, qbits, r), Make(c, d', qbits, r), qbits, r, r);
    }
  }

  // ---- a filter with one key ----------------------------------------------------------------------

  /** One item, in quotient 0. */
  ghost function One(n: nat, it: Item): (runs: seq<Run>)
    requires n > 0
    ensures |runs| == n && runs[0] == [it] && forall q | 0 < q < n :: runs[q] == []
  {
    seq(n, q => if q == 0 then [it] else [])
  }

  ghost function OneKey(n: nat, key: nat): (keys: seq<seq<nat>>)
    requires n > 0
    ensures |keys| == n && keys[0] == [key] && forall q | 0 < q < n :: keys[q] == []
  {
    seq(n, q => if q == 0 then [key] else [])
  }

  ghost predicate Empty(runs: seq<Run>) {
    forall q | 0 <= q < |runs| :: runs[q] == []
  }

  /** It is what loading the key gives. */
  lemma OneIsLoaded(runs: seq<Run>, key: nat, qbits: nat, r: nat)
    requires |runs| >= Pow2(qbits) && Empty(runs) && Quotient(key, qbits, r) == 0
    ensures Load(runs, [key], qbits, r) == One(|runs|, Item(Remainder(key, r), [], []))
    ensures Fresh(One(|runs|, Item(Remainder(key, r), [], [])))
  {
    assert [key][..0] == [] && Load(runs, [], qbits, r) == runs;
    assert LowerBound([], Remainder(key, r)) == 0;
    var items := Inserted([], Remainder(key, r));
    assert items == [Item(Remainder(key, r), [], [])];
    assert runs[0 := items] == One(|runs|, Item(Remainder(key, r), [], []));
  }

  /** The parameters of these runs. */
  ghost predicate Setting(n: nat, key: nat, p: Policy) {
    && n >= Pow2(p.qbits) && p.r > 0 && n > 0 && p.keys == OneKey(n, key) && p.breakEven > 0
    && key < Pow2(HASH_BITS) && Quotient(key, p.qbits, p.r) == 0 && Remainder(key, p.r) == 1
  }

  /** A foreign hash that looks for the key's item. */
  ghost predicate Visitor(h: nat, key: nat, p: Policy) {
    h < Pow2(HASH_BITS) && h != key && Quotient(h, p.qbits, p.r) == 0 && Remainder(h, p.r) == 1
  }

  lemma OneIsFilter(n: nat, it: Item, key: nat, p: Policy)
    requires Setting(n, key, p) && Matches(it, key, p.qbits, p.r)
    ensures FilterOf(One(n, it), p)
  {
    var runs := One(n, it);
    forall q | 0 <= q < |runs|
      ensures Owned(runs[q], p.keys[q], q, p.qbits, p.r)
    {
    }
  }

  /** One query for a visitor. */
  lemma OneServed(n: nat, it: Item, key: nat, h: nat, d: Decision, p: Policy)
    requires Setting(n, key, p) && Visitor(h, key, p) && FilterOf(One(n, it), p)
    ensures FalseHit(One(n, it), h, p) <==> Matches(it, h, p.qbits, p.r)
    ensures Matches(it, h, p.qbits, p.r) ==>
              Bucket(One(n, it), h, p) == [it] && HitOf([it], h, p) == 0 && HitCount([it], h, p) == ItemCount(it, p.r)
    ensures PlanStep(One(n, it), h, d, p)
         == One(n, if !Matches(it, h, p.qbits, p.r) then it
                   else match d
                        case Tolerate => it
                        case Count => it.(cnt := [ItemCount(it, p.r) + 1])
                        case Adapt => Adapted(it, key, h, p.qbits, p.r))
  {
    hide PlanStep, MayBecome, Matches, AllOwned, Adapted;
    assert Bucket(One(n, it), h, p) == [it];
    StepIsEdit(One(n, it), h, d, p);
    if Matches(it, h, p.qbits, p.r) {
      FirstMatchIs([it], h, p.qbits, p.r, 0, 0);
      var it' := ItemAfter(One(n, it), h, d, p);
      assert One(n, it)[0 := [it'] ] == One(n, it');
      assert [it][0 := it'] == [it'];
    } else {
      FirstMatchIs([it], h, p.qbits, p.r, 0, 1);
    }
  }

  // ---- break-even many false positives ------------------------------------------------------------

  /** The counter after i counted false positives. */
  function Tally(i: nat): seq<nat> {
    if i == 0 then [] else [i + 1]
  }

  lemma TallyCounts(ext: seq<nat>, i: nat, p: Policy)
    ensures ItemCount(Item(1, ext, Tally(i)), p.r) == i + 1
    ensures Item(1, ext, Tally(i)).(cnt := [i + 2]) == Item(1, ext, Tally(i + 1))
  {
    if i > 0 {
      OneDigit(Item(1, ext, Tally(i)), p.r);
    }
  }

  lemma CountAside(ext: seq<nat>, cnt: seq<nat>, key: nat, h: nat, qbits: nat, r: nat)
    requires r > 0
    ensures Matches(Item(1, ext, cnt), h, qbits, r) <==> Matches(Item(1, ext, []), h, qbits, r)
    ensures Adapted(Item(1, ext, cnt), key, h, qbits, r) == Adapted(Item(1, ext, []), key, h, qbits, r)
  {
  }

  /** The item is fresh from position `base` on, and the next i queries are visitors that it accepts. */
  ghost predicate Visited(n: nat, key: nat, runs: seq<Run>, hs: seq<nat>, p: Policy, base: nat, ext: seq<nat>, i: nat) {
    && Setting(n, key, p) && FilterOf(runs, p) && base + i <= |hs|
    && SkiAfter(runs, hs, p, base) == One(n, Item(1, ext, []))
    && forall k {:trigger hs[k]} | base <= k < base + i :: Visitor(hs[k], key, p)
        && Matches(Item(1, ext, []), hs[k], p.qbits, p.r)
  }

  lemma VisitStep(n: nat, key: nat, runs: seq<Run>, hs: seq<nat>, p: Policy, base: nat, ext: seq<nat>, i: nat)
    requires Visited(n, key, runs, hs, p, base, ext, i + 1) && i < p.breakEven
    requires SkiAfter(runs, hs, p, base + i) == One(n, Item(1, ext, Tally(i)))
    ensures var k, h := base + i, hs[base + i];
            && SkiAfter(runs, hs, p, k + 1)
            == One(n, if i + 1 < p.breakEven then Item(1, ext, Tally(i + 1)) else Adapted(Item(1, ext, []), key, h,
                p.qbits, p.r))
            && TotalCost(runs, hs, SkiPlan(runs, hs, p), p, k + 1)
            == TotalCost(runs, hs, SkiPlan(runs, hs, p), p, k) + 1 + (if i + 1 < p.breakEven then 0 else p.breakEven)
            && FalseHit(SkiAfter(runs, hs, p, k), h, p)
            && (CountLands(SkiAfter(runs, hs, p, k), h, p) <==> (0 < i < p.breakEven - 1 ==> Value(ext, p.r) == |ext|))
  {
    hide FilterOf, PlanStep, Matches, Adapted, ItemCount, After, Value;
    var now, h := One(n, Item(1, ext, Tally(i))), hs[base + i];
    TallyCounts(ext, i, p);
    CountAside(ext, Tally(i), key, h, p.qbits, p.r);
    SkiNext(runs, hs, p, base + i);
    SkiPlanServes(runs, hs, p, base + i);
    OneServed(n, Item(1, ext, Tally(i)), key, h, SkiDecision(Bucket(now, h, p), h, p), p);
  }

  lemma {:induction false} Visits(n: nat, key: nat, runs: seq<Run>, hs: seq<nat>, p: Policy, base: nat, ext: seq<nat>,
                                  i: nat)
    requires Visited(n, key, runs, hs, p, base, ext, i) && i < p.breakEven
    ensures SkiAfter(runs, hs, p, base + i) == One(n, Item(1, ext, Tally(i)))
    ensures TotalCost(runs, hs, SkiPlan(runs, hs, p), p, base + i) == TotalCost(runs, hs, SkiPlan(runs, hs, p), p,
            base) + i
    ensures Value(ext, p.r) == |ext| ==> forall k | base <= k < base + i ::
            CountLands(SkiAfter(runs, hs, p, k), hs[k], p)
  {
    hide FilterOf, PlanStep, Matches, Adapted, ItemCount, After, Value, SkiAfter, CountLands, SkiPlan, TotalCost;
    if i == 0 {
    } else {
      Visits(n, key, runs, hs, p, base, ext, i - 1);
      VisitStep(n, key, runs, hs, p, base, ext, i - 1);
    }
  }

  /** The last of breakEven many visitors is adapted to. */
  lemma VisitsEnd(n: nat, key: nat, runs: seq<Run>, hs: seq<nat>, p: Policy, base: nat, ext: seq<nat>)
    requires Visited(n, key, runs, hs, p, base, ext, p.breakEven)
    ensures SkiAfter(runs, hs, p, base + p.breakEven)
         == One(n, Adapted(Item(1, ext, []), key, hs[base + p.breakEven - 1], p.qbits, p.r))
    ensures TotalCost(runs, hs, SkiPlan(runs, hs, p), p, base + p.breakEven)
         == TotalCost(runs, hs, SkiPlan(runs, hs, p), p, base) + 2 * p.breakEven
    ensures Value(ext, p.r) == |ext| ==>
              forall k | base <= k < base + p.breakEven :: CountLands(SkiAfter(runs, hs, p, k), hs[k], p)
  {
    hide FilterOf, PlanStep, Matches, Adapted, ItemCount, After, Value, SkiAfter, CountLands, SkiPlan, TotalCost;
    Visits(n, key, runs, hs, p, base, ext, p.breakEven - 1);
    VisitStep(n, key, runs, hs, p, base, ext, p.breakEven - 1);
  }

  // ---- a run that loses a loaded key ---------------------------------------------------------------

  /** breakEven queries that are told apart by the first chunk, then two that are not. */
  function LosingQueries(qbits: nat, r: nat, breakEven: nat): (hs: seq<nat>)
    ensures |hs| == breakEven + 2
  {
    seq(breakEven, i => Make(1, 0, qbits, r)) + [Make(0, 1, qbits, r), Make(0, 1, qbits, r)]
  }

  lemma MadeVisits(n: nat, c: nat, d: nat, c': nat, d': nat, p: Policy)
    requires n >= Pow2(p.qbits) && p.r > 0 && p.breakEven > 0 && p.qbits + 2 * p.r < HASH_BITS
    requires c <= 1 && d <= 1 && c' <= 1 && d' <= 1 && (c != c' || d != d')
             && p.keys == OneKey(n, Make(c, d, p.qbits, p.r))
    ensures Setting(n, Make(c, d, p.qbits, p.r), p) && Visitor(Make(c', d', p.qbits, p.r), Make(c, d, p.qbits, p.r), p)
    ensures FilterOf(One(n, Item(1, [], [])), p)
  {
    hide Make, Pow2, Matches;
    TimesOne(p.r);
    MadeFields(c, d, p.qbits, p.r);
    MadeFields(c', d', p.qbits, p.r);
    MadeBound(c, d, p.qbits, p.r);
    MadeBound(c', d', p.qbits, p.r);
    MadeChunks(c, d, p.qbits, p.r);
    MadeChunks(c', d', p.qbits, p.r);
    MadeMatches([], [], c, d, p.qbits, p.r);
    OneIsFilter(n, Item(1, [], []), Make(c, d, p.qbits, p.r), p);
  }

  /** After all but the last of these queries the policy wants to count the extended item up once more. */
  lemma LosingRun(n: nat, p: Policy)
    requires n >= Pow2(p.qbits) && 3 <= p.breakEven < Pow2(p.r) && p.qbits + 2 * p.r < HASH_BITS
    requires p.keys == OneKey(n, Make(0, 0, p.qbits, p.r))
    ensures var runs, hs, b := One(n, Item(1, [], [])), LosingQueries(p.qbits, p.r, p.breakEven), p.breakEven;
            && p.r > 0 && FilterOf(runs, p)
            && (forall k | 0 <= k <= b :: CountLands(SkiAfter(runs, hs, p, k), hs[k], p))
            && SkiAfter(runs, hs, p, b + 1) == One(n, Item(1, [0], [2]))
            && FalseHit(One(n, Item(1, [0], [2])), hs[b + 1], p) && !CountLands(One(n, Item(1, [0], [2])), hs[b + 1], p)
  {
    hide Make, Pow2, FilterOf, PlanStep, Matches, Adapted, SkiAfter, CountLands, SkiPlan, TotalCost, Value;
    OneBit(p);
    var key, g, h := Make(0, 0, p.qbits, p.r), Make(1, 0, p.qbits, p.r), Make(0, 1, p.qbits, p.r);
    var runs, hs, b := One(n, Item(1, [], [])), LosingQueries(p.qbits, p.r, p.breakEven), p.breakEven;
    MadeVisits(n, 0, 0, 1, 0, p);
    MadeVisits(n, 0, 0, 0, 1, p);
    MadeMatches([], [], 1, 0, p.qbits, p.r);
    MadeMatches([0], [], 0, 1, p.qbits, p.r);
    SkiAtStart(runs, hs, p);
    ValueOfOne(0, p.r);
    VisitsEnd(n, key, runs, hs, p, 0, []);
    AdaptedByFirst([], 0, 1, 0, 0, p.qbits, p.r);
    VisitStep(n, key, runs, hs, p, b, [0], 0);
    Visits(n, key, runs, hs, p, b, [0], 1);
    VisitStep(n, key, runs, hs, p, b, [0], 1);
  }

  lemma OneBit(p: Policy)
    requires 1 < Pow2(p.r)
    ensures p.r > 0
  {
  }

  lemma ValueOfOne(c: nat, r: nat)
    ensures Value([c], r) == c && Value([], r) == 0
  {
    assert [c][1..] == [] && Pow2(r) * 0 == 0;
  }

  /** The code then overwrites the item's chunk with the count 3, and the key is not accepted any more. */
  lemma LosesLoadedKey(n: nat, p: Policy)
    requires n >= Pow2(p.qbits) && 3 <= p.breakEven < Pow2(p.r) && p.qbits + 2 * p.r < HASH_BITS
    requires p.keys == OneKey(n, Make(0, 0, p.qbits, p.r))
    ensures var key, it := Make(0, 0, p.qbits, p.r), Item(1, [0], [2]);
            && Value(it.ext, p.r) < |it.ext| && Strayed(it, p.r) == Item(1, [3], [2])
            && Accepts(One(n, it), key, p.qbits, p.r) && !Accepts(One(n, Strayed(it, p.r)), key, p.qbits, p.r)
  {
    hide Make, Pow2, Matches;
    OneBit(p);
    ValueOfOne(0, p.r);
    MadeVisits(n, 0, 0, 1, 0, p);
    var key, it := Make(0, 0, p.qbits, p.r), Item(1, [0], [2]);
    MadeMatches([0], [2], 0, 0, p.qbits, p.r);
    MadeMatches([3], [2], 0, 0, p.qbits, p.r);
    assert One(n, it)[0][0] == it;
  }

  /** For one: two-bit remainders, no quotient bits, break-even count 3, the key 1, and the queries 5, 5,
      5, 17 and 17. */
  lemma LosingRunExample(n: nat)
    requires n > 0
    ensures var p, runs, hs := Policy(OneKey(n, 1), 3, 0, 2), One(n, Item(1, [], [])), [5, 5, 5, 17, 17];
            && FilterOf(runs, p)
            && SkiAfter(runs, hs, p, 4) == One(n, Item(1, [0], [2])) && FalseHit(One(n, Item(1, [0], [2])), 17, p)
            && Value([0], 2) < 1 && Strayed(Item(1, [0], [2]), 2) == Item(1, [3], [2])
            && !Accepts(One(n, Item(1, [3], [2])), 1, 0, 2)
  {
    hide FilterOf, SkiAfter, FalseHit, CountLands, Accepts, Strayed;
    assert Pow2(0) == 1 && Pow2(2) == 4;
    assert Make(0, 0, 0, 2) == 1 && Make(1, 0, 0, 2) == 5 && Make(0, 1, 0, 2) == 17;
    var p := Policy(OneKey(n, 1), 3, 0, 2);
    assert LosingQueries(0, 2, 3) == [5, 5, 5, 17, 17];
    LosingRun(n, p);
    LosesLoadedKey(n, p);
  }

  /** What the code does on every query sequence after every load: it follows the policy, and so keeps
      every loaded key. */
  ghost predicate AlwaysFollows(qbits: nat, r: nat, breakEven: nat) {
    forall runs, hs, keys {:trigger CountsLand(runs, hs, Policy(keys, breakEven, qbits, r))} |
      FilterOf(runs, Policy(keys, breakEven, qbits, r)) && Fresh(runs) ::
      CountsLand(runs, hs, Policy(keys, breakEven, qbits, r))
  }

  /** It does so exactly for these parameters. */
  lemma FollowsExactly(qbits: nat, r: nat, breakEven: nat)
    requires 1 <= breakEven < Pow2(r)
    ensures AlwaysFollows(qbits, r, breakEven) <==> breakEven <= 2 || OneChunkCovers(qbits, r)
  {
    hide FilterOf, CountsLand, Fresh, Pow2, Make;
    if breakEven <= 2 || OneChunkCovers(qbits, r) {
      forall runs, hs, keys | FilterOf(runs, Policy(keys, breakEven, qbits, r)) && Fresh(runs)
        ensures CountsLand(runs, hs, Policy(keys, breakEven, qbits, r))
      {
        FreshLands(runs, hs, Policy(keys, breakEven, qbits, r));
      }
    } else {
      var runs, hs, keys := DoesNotFollow(qbits, r, breakEven);
      assert !CountsLand(runs, hs, Policy(keys, breakEven, qbits, r));
    }
  }

  lemma FreshLands(runs: seq<Run>, hs: seq<nat>, p: Policy)
    requires FilterOf(runs, p) && Fresh(runs) && (p.breakEven <= 2 || OneChunkCovers(p.qbits, p.r))
    ensures CountsLand(runs, hs, p)
  {
    hide FilterOf, CountsLand, Fresh;
    FreshCountersOk(runs);
    if p.breakEven <= 2 {
      SmallBreakEvenLands(runs, hs, p);
    } else {
      CoveredLands(runs, hs, p);
    }
  }

  lemma DoesNotFollow(qbits: nat, r: nat, breakEven: nat) returns (runs: seq<Run>, hs: seq<nat>, keys: seq<seq<nat>>)
    requires 3 <= breakEven < Pow2(r) && !OneChunkCovers(qbits, r)
    ensures var p := Policy(keys, breakEven, qbits, r); FilterOf(runs, p) && Fresh(runs) && !CountsLand(runs, hs, p)
  {
    hide FilterOf, CountsLand, Fresh, Make, CountLands, SkiAfter, FalseHit;
    var n := Pow2(qbits);
    keys := OneKey(n, Make(0, 0, qbits, r));
    var p := Policy(keys, breakEven, qbits, r);
    runs, hs := One(n, Item(1, [], [])), LosingQueries(qbits, r, breakEven);
    LosingRun(n, p);
    OneIsFresh(n);
    NotAllLand(runs, hs, p, breakEven + 1);
  }

  lemma NotAllLand(runs: seq<Run>, hs: seq<nat>, p: Policy, n: nat)
    requires FilterOf(runs, p) && n < |hs| && !CountLands(SkiAfter(runs, hs, p, n), hs[n], p)
    ensures !CountsLand(runs, hs, p)
  {
  }

  lemma OneIsFresh(n: nat)
    requires n > 0
    ensures Fresh(One(n, Item(1, [], [])))
  {
  }

  /** The first count of the run that goes astray, for query n, makes the filter reject a loaded key. */
  ghost predicate LosesKey(runs: seq<Run>, hs: seq<nat>, p: Policy, n: nat, key: nat)
    requires FilterOf(runs, p)
  {
    n < |hs| && (forall k | 0 <= k < n :: CountLands(SkiAfter(runs, hs, p, k), hs[k], p)) &&
    var now := SkiAfter(runs, hs, p, n);
    FalseHit(now, hs[n], p) && !CountLands(now, hs[n], p) &&
    var q, m := Quotient(hs[n], p.qbits, p.r), HitOf(Bucket(now, hs[n], p), hs[n], p);
    |now[q][m].cnt| == 1 && Value(now[q][m].ext, p.r) < |now[q][m].ext| &&
    IsOwner(p.keys, key, p.qbits, p.r) && !Accepts(WithItem(now, q, m, Strayed(now[q][m], p.r)), key, p.qbits, p.r)
  }

  ghost predicate SometimesLoses(qbits: nat, r: nat, breakEven: nat) {
    exists runs, hs, keys, n: nat, key: nat ::
      FilterOf(runs, Policy(keys, breakEven, qbits, r)) && Fresh(runs) &&
      LosesKey(runs, hs, Policy(keys, breakEven, qbits, r), n, key)
  }

  /** After some load and some queries SkiQF loses a loaded key exactly for the other parameters. */
  lemma LosesExactly(qbits: nat, r: nat, breakEven: nat)
    requires 1 <= breakEven < Pow2(r)
    ensures SometimesLoses(qbits, r, breakEven) <==> breakEven > 2 && !OneChunkCovers(qbits, r)
  {
    hide FilterOf, CountsLand, Fresh, LosesKey, Pow2, Make;
    if breakEven > 2 && !OneChunkCovers(qbits, r) {
      var runs, hs, keys, n, key := SomeLoss(qbits, r, breakEven);
      assert LosesKey(runs, hs, Policy(keys, breakEven, qbits, r), n, key);
    } else if SometimesLoses(qbits, r, breakEven) {
      var runs, hs, keys, n: nat, key: nat :|
        FilterOf(runs, Policy(keys, breakEven, qbits, r)) && Fresh(runs) &&
        LosesKey(runs, hs, Policy(keys, breakEven, qbits, r), n, key);
      FreshLands(runs, hs, Policy(keys, breakEven, qbits, r));
      LossIsAstray(runs, hs, Policy(keys, breakEven, qbits, r), n, key);
    }
  }

  lemma SomeLoss(qbits: nat, r: nat, breakEven: nat)
    returns (runs: seq<Run>, hs: seq<nat>, keys: seq<seq<nat>>, n: nat, key: nat)
    requires 3 <= breakEven < Pow2(r) && !OneChunkCovers(qbits, r)
    ensures var p := Policy(keys, breakEven, qbits, r); FilterOf(runs, p) && Fresh(runs) && LosesKey(runs, hs, p, n, key)
  {
    hide FilterOf, Fresh, LosesKey, Make;
    var size := Pow2(qbits);
    key := Make(0, 0, qbits, r);
    keys := OneKey(size, key);
    runs, hs, n := One(size, Item(1, [], [])), LosingQueries(qbits, r, breakEven), breakEven + 1;
    LosingRunLoses(size, Policy(keys, breakEven, qbits, r));
    OneIsFresh(size);
  }

  lemma LossIsAstray(runs: seq<Run>, hs: seq<nat>, p: Policy, n: nat, key: nat)
    requires FilterOf(runs, p) && LosesKey(runs, hs, p, n, key)
    ensures !CountsLand(runs, hs, p)
  {
    NotAllLand(runs, hs, p, n);
  }

  lemma LosingRunLoses(n: nat, p: Policy)
    requires n >= Pow2(p.qbits) && 3 <= p.breakEven < Pow2(p.r) && p.qbits + 2 * p.r < HASH_BITS
    requires p.keys == OneKey(n, Make(0, 0, p.qbits, p.r))
    ensures var runs := One(n, Item(1, [], []));
            p.r > 0 && FilterOf(runs, p) &&
            LosesKey(runs, LosingQueries(p.qbits, p.r, p.breakEven), p, p.breakEven + 1, Make(0, 0, p.qbits, p.r))
  {
    hide Make, Pow2, FilterOf, PlanStep, Matches, Adapted, SkiAfter, CountLands, SkiPlan, TotalCost, Value, Accepts, Strayed, IsHit;
    LosingRun(n, p);
    LosesLoadedKey(n, p);
    var key, h, it := Make(0, 0, p.qbits, p.r), Make(0, 1, p.qbits, p.r), Item(1, [0], [2]);
    MadeVisits(n, 0, 0, 0, 1, p);
    MadeMatches([0], [2], 0, 1, p.qbits, p.r);
    OneServed(n, it, key, h, Tolerate, p);
    OneOwns(n, key, p);
    assert One(n, it)[0 := [Strayed(it, p.r)]] == One(n, Strayed(it, p.r));
    assert [it][0 := Strayed(it, p.r)] == [Strayed(it, p.r)];
  }

  lemma OneOwns(n: nat, key: nat, p: Policy)
    requires Setting(n, key, p)
    ensures IsOwner(p.keys, key, p.qbits, p.r)
  {
  }

  // ---- a run that costs more than twice as much as a plan -------------------------------------------

  /** One query that is told apart by the second chunk only, breakEven - 1 that are told apart by the
      first, and then the first one again. */
  function CostlyQueries(qbits: nat, r: nat, breakEven: nat): (hs: seq<nat>)
    requires breakEven > 0
    ensures |hs| == 2 * breakEven
  {
    [Make(1, 1, qbits, r)] + seq(breakEven - 1, i => Make(0, 0, qbits, r)) + seq(breakEven, i => Make(1, 1, qbits, r))
  }

  /** Adapting to the first query, and to no other. */
  function EarlyPlan(breakEven: nat): (ds: seq<Decision>)
    requires breakEven > 0
    ensures |ds| == 2 * breakEven && ds[0] == Adapt
  {
    [Adapt] + seq(2 * breakEven - 1, i => Tolerate)
  }

  /** The policy adapts twice. */
  lemma CostlyRun(n: nat, p: Policy)
    requires n >= Pow2(p.qbits) && 2 <= p.breakEven && 1 < Pow2(p.r) && p.qbits + 2 * p.r < HASH_BITS
    requires p.keys == OneKey(n, Make(1, 0, p.qbits, p.r))
    ensures var runs, hs := One(n, Item(1, [], [])), CostlyQueries(p.qbits, p.r, p.breakEven);
            && p.r > 0 && FilterOf(runs, p) && CountsLand(runs, hs, p)
            && TotalCost(runs, hs, SkiPlan(runs, hs, p), p, |hs|) == 4 * p.breakEven
  {
    hide Make, Pow2, FilterOf, PlanStep, Matches, Adapted, SkiAfter, CountLands, SkiPlan, Value;
    OneBit(p);
    var key, b := Make(1, 0, p.qbits, p.r), p.breakEven;
    var runs, hs := One(n, Item(1, [], [])), CostlyQueries(p.qbits, p.r, b);
    MadeVisits(n, 1, 0, 0, 0, p);
    MadeVisits(n, 1, 0, 1, 1, p);
    MadeMatches([], [], 0, 0, p.qbits, p.r);
    MadeMatches([], [], 1, 1, p.qbits, p.r);
    MadeMatches([1], [], 1, 1, p.qbits, p.r);
    SkiAtStart(runs, hs, p);
    ValueOfOne(1, p.r);
    VisitsEnd(n, key, runs, hs, p, 0, []);
    AdaptedByFirst([], 1, 0, 0, 0, p.qbits, p.r);
    VisitsEnd(n, key, runs, hs, p, b, [1]);
  }

  /** The other plan pays for one adaptation, and no later query hits. */
  lemma {:induction false} EarlyPlanCosts(n: nat, p: Policy, i: nat)
    requires n >= Pow2(p.qbits) && 2 <= p.breakEven && 1 < Pow2(p.r) && p.qbits + 2 * p.r < HASH_BITS
             && 1 <= i <= 2 * p.breakEven
    requires p.keys == OneKey(n, Make(1, 0, p.qbits, p.r))
    ensures var runs, hs, ds := One(n, Item(1, [], [])), CostlyQueries(p.qbits, p.r, p.breakEven),
            EarlyPlan(p.breakEven);
            && PlanFor(runs, hs, ds, p)
            && After(runs, hs, ds, p, i) == One(n, Item(1, [1, 0], []))
            && TotalCost(runs, hs, ds, p, i) == 1 + p.breakEven
  {
    hide Make, Pow2, FilterOf, PlanStep, Matches, Adapted;
    OneBit(p);
    var key, b := Make(1, 0, p.qbits, p.r), p.breakEven;
    var runs, hs, ds := One(n, Item(1, [], [])), CostlyQueries(p.qbits, p.r, b), EarlyPlan(b);
    MadeVisits(n, 1, 0, 0, 0, p);
    MadeVisits(n, 1, 0, 1, 1, p);
    if i == 1 {
      MadeMatches([], [], 1, 1, p.qbits, p.r);
      AdaptedBySecond([], [], 1, 0, 1, p.qbits, p.r);
      assert After(runs, hs, ds, p, 0) == runs && TotalCost(runs, hs, ds, p, 0) == 0;
      OneServed(n, Item(1, [], []), key, hs[0], Adapt, p);
    } else {
      EarlyPlanCosts(n, p, i - 1);
      MadeMatches([1, 0], [], 0, 0, p.qbits, p.r);
      MadeMatches([1, 0], [], 1, 1, p.qbits, p.r);
      OneServed(n, Item(1, [1, 0], []), key, hs[i - 1], ds[i - 1], p);
    }
  }

  // ---- where queries that share an item are as good as equal ----------------------------------------

  ghost predicate SameMinirun(g: nat, h: nat, p: Policy) {
    Quotient(g, p.qbits, p.r) == Quotient(h, p.qbits, p.r) && Remainder(g, p.r) == Remainder(h, p.r)
  }

  lemma CoveredHitFor(runs: seq<Run>, g: nat, h: nat, p: Policy)
    requires FilterOf(runs, p) && OneChunkCovers(p.qbits, p.r) && Foreign(g, p) && Foreign(h, p) && SameMinirun(g, h, p)
    ensures FalseHit(runs, g, p) ==> HitOf(Bucket(runs, h, p), h, p) <= HitOf(Bucket(runs, g, p), g, p)
  {
    if FalseHit(runs, g, p) {
      CoveredHitIsPlain(runs, g, p);
      var m := HitOf(Bucket(runs, g, p), g, p);
      assert Matches(Bucket(runs, h, p)[m], h, p.qbits, p.r);
    }
  }

  lemma CoveredAdapted(it: Item, key: nat, g: nat, h: nat, qbits: nat, r: nat)
    requires r > 0 && OneChunkCovers(qbits, r) && it.ext == []
    ensures Adapted(it, key, g, qbits, r) == Adapted(it, key, h, qbits, r)
  {
    assert r * 0 == 0;
    AdaptedStep(it, key, g, qbits, r, 0);
    AdaptedStep(it, key, h, qbits, r, 0);
  }

  /** If one chunk covers the hash, foreign queries for one minirun do the same. */
  lemma SameStep(runs: seq<Run>, g: nat, h: nat, d: Decision, p: Policy)
    requires FilterOf(runs, p) && OneChunkCovers(p.qbits, p.r) && Foreign(g, p) && Foreign(h, p) && SameMinirun(g, h, p)
    ensures FalseHit(runs, g, p) <==> FalseHit(runs, h, p)
    ensures HitCount(Bucket(runs, g, p), g, p) == HitCount(Bucket(runs, h, p), h, p)
    ensures PlanStep(runs, g, d, p) == PlanStep(runs, h, d, p)
  {
    hide AllOwned, Matches, Foreign, FirstMatch, Adapted, PlanStep, MayBecome;
    CoveredHitFor(runs, g, h, p);
    CoveredHitFor(runs, h, g, p);
    StepIsEdit(runs, g, d, p);
    StepIsEdit(runs, h, d, p);
    if FalseHit(runs, g, p) {
      CoveredHitIsPlain(runs, g, p);
      SameItemAfter(runs, g, h, d, p);
    }
  }

  lemma SameItemAfter(runs: seq<Run>, g: nat, h: nat, d: Decision, p: Policy)
    requires FilterOf(runs, p) && OneChunkCovers(p.qbits, p.r) && FalseHit(runs, g, p) && FalseHit(runs, h, p)
             && SameMinirun(g, h, p)
    requires HitOf(Bucket(runs, g, p), g, p) == HitOf(Bucket(runs, h, p), h, p)
    requires Bucket(runs, g, p)[HitOf(Bucket(runs, g, p), g, p)].ext == []
    ensures ItemAfter(runs, g, d, p) == ItemAfter(runs, h, d, p)
  {
    hide AllOwned, Matches, Foreign, FirstMatch, Adapted;
    var q, m := Quotient(g, p.qbits, p.r), HitOf(Bucket(runs, g, p), g, p);
    OwnedAt(runs, p.keys, p.qbits, p.r, q);
    CoveredAdapted(runs[q][m], p.keys[q][m], g, h, p.qbits, p.r);
  }

  /** The first foreign query from i on for the minirun of h. */
  ghost function FirstLike(hs: seq<nat>, h: nat, p: Policy, i: nat): nat
    requires i <= |hs|
    decreases |hs| - i
  {
    if i == |hs| then h else if Foreign(hs[i], p) && SameMinirun(hs[i], h, p) then hs[i] else FirstLike(hs, h, p, i + 1)
  }

  lemma {:induction false} FirstLikeIs(hs: seq<nat>, h: nat, g: nat, p: Policy, i: nat)
    requires i <= |hs| && h in hs[i..] && Foreign(h, p) && SameMinirun(g, h, p)
    ensures var f := FirstLike(hs, g, p, i); f in hs && Foreign(f, p) && SameMinirun(f, h, p) && f == FirstLike(hs, h, p, i)
    decreases |hs| - i
  {
    hide Foreign;
    if Foreign(hs[i], p) && SameMinirun(hs[i], h, p) {
    } else {
      assert h in hs[i + 1..];
      FirstLikeIs(hs, h, g, p, i + 1);
    }
  }

  /** The sequence with every foreign query replaced by the first one for its minirun. */
  ghost function Merged(hs: seq<nat>, p: Policy): (ks: seq<nat>)
    ensures |ks| == |hs|
  {
    seq(|hs|, i requires 0 <= i < |hs| => if Foreign(hs[i], p) then FirstLike(hs, hs[i], p, 0) else hs[i])
  }

  lemma MergedIs(hs: seq<nat>, p: Policy, i: nat)
    requires i < |hs|
    ensures Merged(hs, p)[i] in hs && (Foreign(Merged(hs, p)[i], p) <==> Foreign(hs[i], p))
    ensures Foreign(hs[i], p) ==> SameMinirun(Merged(hs, p)[i], hs[i], p)
    ensures !Foreign(hs[i], p) ==> Merged(hs, p)[i] == hs[i]
  {
    hide Foreign;
    if Foreign(hs[i], p) {
      assert hs[0..] == hs && hs[i] in hs;
      FirstLikeIs(hs, hs[i], hs[i], p, 0);
    }
  }

  lemma MergedStep(runs: seq<Run>, hs: seq<nat>, d: Decision, p: Policy, i: nat)
    requires FilterOf(runs, p) && OneChunkCovers(p.qbits, p.r) && i < |hs|
    ensures var g, h := hs[i], Merged(hs, p)[i];
            && (FalseHit(runs, g, p) <==> FalseHit(runs, h, p)) && PlanStep(runs, g, d, p) == PlanStep(runs, h, d, p)
            && (Foreign(g, p) ==> HitCount(Bucket(runs, g, p), g, p) == HitCount(Bucket(runs, h, p), h, p))
            && (!Foreign(g, p) ==> g == h)
  {
    hide Foreign, FilterOf, PlanStep, SameMinirun, Merged, HitCount;
    MergedIs(hs, p, i);
    if Foreign(hs[i], p) {
      SameStep(runs, Merged(hs, p)[i], hs[i], d, p);
    }
  }

  /** Every plan does the same on it, for the same cost. */
  lemma {:induction false} MergedServes(runs: seq<Run>, hs: seq<nat>, ds: seq<Decision>, p: Policy, n: nat)
    requires PlanFor(runs, hs, ds, p) && OneChunkCovers(p.qbits, p.r) && n <= |hs|
    ensures After(runs, Merged(hs, p), ds, p, n) == After(runs, hs, ds, p, n)
    ensures TotalCost(runs, Merged(hs, p), ds, p, n) == TotalCost(runs, hs, ds, p, n)
  {
    hide FilterOf, PlanStep, Foreign, FalseHit, Merged;
    if n == 0 {
    } else {
      MergedServes(runs, hs, ds, p, n - 1);
      MergedStep(After(runs, hs, ds, p, n - 1), hs, ds[n - 1], p, n - 1);
    }
  }

  lemma {:induction false} MergedSki(runs: seq<Run>, hs: seq<nat>, p: Policy, n: nat)
    requires FilterOf(runs, p) && OneChunkCovers(p.qbits, p.r) && n <= |hs|
    ensures SkiAfter(runs, Merged(hs, p), p, n) == SkiAfter(runs, hs, p, n)
  {
    hide FilterOf, PlanStep, Foreign, Merged, Bucket, HitCount;
    if n == 0 {
    } else {
      MergedSki(runs, hs, p, n - 1);
      MergedStep(SkiAfter(runs, hs, p, n - 1), hs, SkiDecision(Bucket(SkiAfter(runs, hs, p, n - 1), hs[n - 1], p),
          hs[n - 1], p), p, n - 1);
    }
  }

  lemma MergedSkiPlan(runs: seq<Run>, hs: seq<nat>, p: Policy)
    requires FilterOf(runs, p) && OneChunkCovers(p.qbits, p.r)
    ensures SkiPlan(runs, Merged(hs, p), p) == SkiPlan(runs, hs, p)
  {
    hide FilterOf, PlanStep, Foreign, Merged, Bucket, HitCount, SkiAfter;
    forall i | 0 <= i < |hs|
      ensures SkiPlan(runs, Merged(hs, p), p)[i] == SkiPlan(runs, hs, p)[i]
    {
      MergedSki(runs, hs, p, i);
      MergedStep(SkiAfter(runs, hs, p, i), hs, Tolerate, p, i);
    }
  }

  lemma MergedIsDisjoint(runs: seq<Run>, hs: seq<nat>, p: Policy)
    ensures Disjoint(runs, Merged(hs, p), p)
  {
    hide Foreign, FirstLike;
    var ks := Merged(hs, p);
    forall q, j, g, h | 0 <= q < |runs| && 0 <= j < |runs[q]| && g in ks && h in ks && g != h
      ensures !(Takes(runs, q, j, g, p) && Takes(runs, q, j, h, p))
    {
      if Takes(runs, q, j, g, p) && Takes(runs, q, j, h, p) {
        var a :| 0 <= a < |ks| && ks[a] == g;
        var b :| 0 <= b < |ks| && ks[b] == h;
        MergedIs(hs, p, a);
        MergedIs(hs, p, b);
        assert hs[0..] == hs && hs[b] in hs;
        FirstLikeIs(hs, hs[b], hs[a], p, 0);
      }
    }
  }

  lemma MergedIsCountable(runs: seq<Run>, hs: seq<nat>, p: Policy)
    requires Countable(runs, hs, p)
    ensures Countable(runs, Merged(hs, p), p)
  {
    hide Takes, Merged, Value;
    forall h | h in Merged(hs, p)
      ensures h in hs
    {
      var i :| 0 <= i < |hs| && Merged(hs, p)[i] == h;
      MergedIs(hs, p, i);
    }
  }

  /** The guarantee without the assumption on shared items. */
  lemma CoveredTwiceOptimal(runs: seq<Run>, hs: seq<nat>, p: Policy, ds: seq<Decision>)
    requires PlanFor(runs, hs, ds, p) && OneChunkCovers(p.qbits, p.r) && Countable(runs, hs, p) && BreakEvenFits(p)
    ensures TotalCost(runs, hs, SkiPlan(runs, hs, p), p, |hs|) <= 2 * TotalCost(runs, hs, ds, p, |hs|)
  {
    hide FilterOf, Countable, Disjoint, Merged, SkiPlan, TotalCost;
    MergedIsDisjoint(runs, hs, p);
    MergedIsCountable(runs, hs, p);
    RunTwiceOptimal(runs, Merged(hs, p), p, ds);
    MergedSkiPlan(runs, hs, p);
    MergedServes(runs, hs, ds, p, |hs|);
    MergedServes(runs, hs, SkiPlan(runs, hs, p), p, |hs|);
  }

  // ---- the exact parameters of the guarantee --------------------------------------------------------

  lemma SkiAdaptsAll(runs: seq<Run>, hs: seq<nat>, p: Policy)
    requires FilterOf(runs, p) && CountersOk(runs) && p.breakEven == 1
    ensures TotalCost(runs, hs, SkiPlan(runs, hs, p), p, |hs|) == TotalCost(runs, hs, AdaptAll(hs), p, |hs|)
  {
    hide TotalCost, FilterOf, SkiAfter;
    AdaptsAllUpTo(runs, hs, p, |hs|);
  }

  lemma {:induction false} AdaptsAllUpTo(runs: seq<Run>, hs: seq<nat>, p: Policy, n: nat)
    requires FilterOf(runs, p) && CountersOk(runs) && p.breakEven == 1 && n <= |hs|
    ensures After(runs, hs, AdaptAll(hs), p, n) == SkiAfter(runs, hs, p, n)
    ensures TotalCost(runs, hs, SkiPlan(runs, hs, p), p, n) == TotalCost(runs, hs, AdaptAll(hs), p, n)
  {
    hide FilterOf, PlanStep, CountersOk, SkiDecision, Bucket, StepCost, FalseHit, HitCount, HitOf;
    if n == 0 {
    } else {
      AdaptsAllUpTo(runs, hs, p, n - 1);
      SkiPlanServes(runs, hs, p, n - 1);
      var now, h := SkiAfter(runs, hs, p, n - 1), hs[n - 1];
      SkiCountersOk(runs, hs, p, n - 1);
      DecidesToAdapt(now, h, p);
    }
  }

  lemma DecidesToAdapt(runs: seq<Run>, h: nat, p: Policy)
    requires FilterOf(runs, p) && CountersOk(runs) && p.breakEven == 1
    ensures var d := SkiDecision(Bucket(runs, h, p), h, p);
            PlanStep(runs, h, d, p) == PlanStep(runs, h, Adapt, p)
                && StepCost(runs, h, d, p) == StepCost(runs, h, Adapt, p)
  {
    hide PlanStep, FilterOf, Foreign;
    CountedIsAtLeastTwo(runs, h, p);
    StepIsEdit(runs, h, Adapt, p);
    StepIsEdit(runs, h, SkiDecision(Bucket(runs, h, p), h, p), p);
  }

  /** What the policy promises on every query sequence after every load. */
  ghost predicate AlwaysTwiceOptimal(qbits: nat, r: nat, breakEven: nat) {
    forall runs, hs, keys, ds {:trigger PlanFor(runs, hs, ds, Policy(keys, breakEven, qbits, r))} |
      PlanFor(runs, hs, ds, Policy(keys, breakEven, qbits, r)) && Fresh(runs) ::
      var p := Policy(keys, breakEven, qbits, r);
      TotalCost(runs, hs, SkiPlan(runs, hs, p), p, |hs|) <= 2 * TotalCost(runs, hs, ds, p, |hs|)
  }

  /** It keeps the promise exactly for these parameters. */
  lemma TwiceOptimalExactly(qbits: nat, r: nat, breakEven: nat)
    requires 1 <= breakEven < 256 && breakEven < Pow2(r)
    ensures AlwaysTwiceOptimal(qbits, r, breakEven) <==> breakEven == 1 || OneChunkCovers(qbits, r)
  {
    hide FilterOf, Fresh, TotalCost, SkiPlan, Pow2, Make;
    if breakEven == 1 || OneChunkCovers(qbits, r) {
      forall runs, hs, keys, ds | PlanFor(runs, hs, ds, Policy(keys, breakEven, qbits, r)) && Fresh(runs)
        ensures var p := Policy(keys, breakEven, qbits, r);
                TotalCost(runs, hs, SkiPlan(runs, hs, p), p, |hs|) <= 2 * TotalCost(runs, hs, ds, p, |hs|)
      {
        FreshTwiceOptimal(runs, hs, ds, Policy(keys, breakEven, qbits, r));
      }
    } else {
      var runs, hs, keys, ds := SomeCostlyRun(qbits, r, breakEven);
      assert PlanFor(runs, hs, ds, Policy(keys, breakEven, qbits, r));
    }
  }

  lemma FreshTwiceOptimal(runs: seq<Run>, hs: seq<nat>, ds: seq<Decision>, p: Policy)
    requires PlanFor(runs, hs, ds, p) && Fresh(runs) && BreakEvenFits(p) && (p.breakEven == 1 || OneChunkCovers(p.qbits, p.r))
    ensures TotalCost(runs, hs, SkiPlan(runs, hs, p), p, |hs|) <= 2 * TotalCost(runs, hs, ds, p, |hs|)
  {
    hide FilterOf, Fresh, TotalCost, SkiPlan, Countable, CountersOk;
    FreshCountersOk(runs);
    FreshIsCountable(runs, hs, p);
    if p.breakEven == 1 {
      SkiAdaptsAll(runs, hs, p);
      AdaptAllTwiceOptimal(runs, hs, ds, p);
    } else {
      CoveredTwiceOptimal(runs, hs, p, ds);
    }
  }

  lemma SomeCostlyRun(qbits: nat, r: nat, breakEven: nat)
    returns (runs: seq<Run>, hs: seq<nat>, keys: seq<seq<nat>>, ds: seq<Decision>)
    requires 2 <= breakEven < Pow2(r) && !OneChunkCovers(qbits, r)
    ensures var p := Policy(keys, breakEven, qbits, r);
            && PlanFor(runs, hs, ds, p) && Fresh(runs)
            && TotalCost(runs, hs, SkiPlan(runs, hs, p), p, |hs|) > 2 * TotalCost(runs, hs, ds, p, |hs|)
  {
    hide FilterOf, Fresh, TotalCost, SkiPlan, Make, CountsLand, After;
    var n := Pow2(qbits);
    keys := OneKey(n, Make(1, 0, qbits, r));
    var p := Policy(keys, breakEven, qbits, r);
    runs, hs, ds := One(n, Item(1, [], [])), CostlyQueries(qbits, r, breakEven), EarlyPlan(breakEven);
    CostlyRun(n, p);
    EarlyPlanCosts(n, p, 2 * breakEven);
    OneIsFresh(n);
  }

  // ---- a run of the program -----------------------------------------------------------------------

  /** When the cost is bounded: items take one query each, or the parameters make up for it. */
  ghost predicate Guaranteed(runs: seq<Run>, hs: seq<nat>, p: Policy) {
    p.breakEven == 1 || (Countable(runs, hs, p) && (Disjoint(runs, hs, p) || OneChunkCovers(p.qbits, p.r)))
  }

  /** A run that followed the policy: the answers, the numbers of false positives and of adaptations, and
      what any plan for the same queries would have cost at least. */
  ghost predicate RunOutcome(runs: seq<Run>, runs': seq<Run>, hs: seq<nat>, p: Policy, answers: seq<bool>,
                             fps: nat, adapts: nat) {
    && FilterOf(runs, p) && runs' == SkiAfter(runs, hs, p, |hs|) && |answers| == |hs|
    && (forall i {:trigger answers[i]} | 0 <= i < |hs| :: answers[i] <==>
        Accepts(SkiAfter(runs, hs, p, i), hs[i], p.qbits, p.r))
    && (forall i {:trigger answers[i]} | 0 <= i < |hs| && |p.keys| >= Pow2(p.qbits)
        && IsOwner(p.keys, hs[i], p.qbits, p.r) :: answers[i])
    && fps == |FalseAt(runs, hs, p, |hs|)| && adapts == |AdaptedAt(runs, hs, p, |hs|)|
    && Charge(p.breakEven, adapts) + fps == TotalCost(runs, hs, SkiPlan(runs, hs, p), p, |hs|)
    && (Guaranteed(runs, hs, p) ==>
          forall ds | |ds| == |hs| :: Charge(p.breakEven, adapts) + fps <= 2 * TotalCost(runs, hs, ds, p, |hs|))
  }

  lemma RunStarts(runs: seq<Run>, hs: seq<nat>, p: Policy, limit: nat, fullPoint: nat)
    requires Runnable(runs, hs, p, limit, fullPoint)
    ensures FilterOf(runs, p) && BreakEvenFits(p) && SkiAfter(runs, hs, p, 0) == runs
    ensures SoFar(runs, hs, p, 0, 0, 0)
  {
    ChargeNothing(p.breakEven);
    CountsStart(runs, hs, p);
  }

  /** The numbers after n queries. */
  ghost predicate SoFar(runs: seq<Run>, hs: seq<nat>, p: Policy, n: nat, fps: nat, adapts: nat) {
    && FilterOf(runs, p) && n <= |hs| && fps == |FalseAt(runs, hs, p, n)| && adapts == |AdaptedAt(runs, hs, p, n)|
    && Charge(p.breakEven, adapts) + fps == TotalCost(runs, hs, SkiPlan(runs, hs, p), p, n)
  }

  lemma SoFarNext(runs: seq<Run>, hs: seq<nat>, p: Policy, n: nat, fps: nat, adapts: nat, runs': seq<Run>, fp: nat, adapt: nat)
    requires SoFar(runs, hs, p, n, fps, adapts) && n < |hs|
    requires StepOutcome(SkiAfter(runs, hs, p, n), runs', hs[n], p, fp, adapt)
    ensures SoFar(runs, hs, p, n + 1, fps + fp, adapts + adapt)
  {
    hide FilterOf, FalseAt, AdaptedAt, FalseHit, PlanStep, SkiAfter, After, Bucket, HitCount, Charge, SkiPlan, StepCost;
    CountsNext(runs, hs, p, n);
    SkiPlanServes(runs, hs, p, n);
    SkiPlanAt(runs, hs, p, n);
    StepOutcomeCost(SkiAfter(runs, hs, p, n), runs', hs[n], p, fp, adapt);
    ChargeMore(p.breakEven, adapts, adapt);
  }

  lemma SkiPlanAt(runs: seq<Run>, hs: seq<nat>, p: Policy, n: nat)
    requires FilterOf(runs, p) && n < |hs|
    ensures SkiPlan(runs, hs, p)[n] == SkiDecision(Bucket(SkiAfter(runs, hs, p, n), hs[n], p), hs[n], p)
  {
  }

  lemma RunTurn(runs: seq<Run>, hs: seq<nat>, p: Policy, limit: nat, fullPoint: nat, n: nat)
    requires Runnable(runs, hs, p, limit, fullPoint) && n < |hs|
    ensures FilterOf(runs, p)
    ensures var now, h := SkiAfter(runs, hs, p, n), hs[n];
            && h in hs
            && (FalseHit(now, h, p) ==> StepFits(now, h, p, limit))
            && Total(now) < fullPoint
            && SkiAfter(runs, hs, p, n + 1) == PlanStep(now, h, SkiDecision(Bucket(now, h, p), h, p), p)
  {
    hide StepFits, Spare, CountersOk, Total, PlanStep, FalseHit, FilterOf, SkiDecision, SkiAfter, Bucket, StepCost,
        Encode, After,
         CountsLand;
    SkiNext(runs, hs, p, n);
    SkiPlanServes(runs, hs, p, n);
    WithinBefore(runs, hs, SkiPlan(runs, hs, p), p, limit, fullPoint, n);
    if FalseHit(SkiAfter(runs, hs, p, n), hs[n], p) {
      EveryStepFits(runs, hs, p, limit, fullPoint, n);
    }
  }

  lemma RunEnds(runs: seq<Run>, hs: seq<nat>, p: Policy, limit: nat, fullPoint: nat, answers: seq<bool>,
                fps: nat, adapts: nat)
    requires Runnable(runs, hs, p, limit, fullPoint) && |answers| == |hs| && SoFar(runs, hs, p, |hs|, fps, adapts)
    requires forall i {:trigger answers[i]} | 0 <= i < |hs| :: answers[i] <==>
             Accepts(SkiAfter(runs, hs, p, i), hs[i], p.qbits, p.r)
    ensures RunOutcome(runs, SkiAfter(runs, hs, p, |hs|), hs, p, answers, fps, adapts)
  {
    hide FilterOf, SkiAfter, Accepts, TotalCost, SkiPlan, Countable, Disjoint, Spare, CountersOk, After, CountsLand,
         IsOwner, FalseAt, AdaptedAt, Charge;
    forall i | 0 <= i < |hs| && |p.keys| >= Pow2(p.qbits) && IsOwner(p.keys, hs[i], p.qbits, p.r)
      ensures answers[i]
    {
      SkiKeepsKeys(runs, hs, p, i, hs[i]);
    }
    forall ds | |ds| == |hs| && Guaranteed(runs, hs, p)
      ensures Charge(p.breakEven, adapts) + fps <= 2 * TotalCost(runs, hs, ds, p, |hs|)
    {
      if p.breakEven == 1 {
        SkiAdaptsAll(runs, hs, p);
        AdaptAllTwiceOptimal(runs, hs, ds, p);
      } else if Disjoint(runs, hs, p) {
        RunTwiceOptimal(runs, hs, p, ds);
      } else {
        CoveredTwiceOptimal(runs, hs, p, ds);
      }
    }
  }

  lemma ChargeMore(breakEven: nat, a: nat, b: nat)
    ensures Charge(breakEven, a + b) == Charge(breakEven, a) + Charge(breakEven, b)
  {
  }

  lemma LoadedKeysAnswered(runs: seq<Run>, runs': seq<Run>, hs: seq<nat>, p: Policy, answers: seq<bool>,
                           fps: nat, adapts: nat, lists: map<nat, seq<nat>>, ks: seq<nat>)
    requires RunOutcome(runs, runs', hs, p, answers, fps, adapts) && Listed(lists, p.keys, p.qbits, p.r)
             && Loaded(lists, ks, p.qbits + p.r)
    ensures |answers| == |hs| && forall i | 0 <= i < |hs| && hs[i] in ks :: answers[i]
  {
    hide FilterOf, SkiAfter, Accepts, TotalCost, SkiPlan, Guaranteed, IsOwner, Loaded, FalseAt, AdaptedAt, Charge;
    forall i | 0 <= i < |hs| && hs[i] in ks
      ensures answers[i]
    {
      LoadedKeysAreOwners(lists, p.keys, ks, p.qbits, p.r, hs[i]);
    }
  }

  /** A run in terms of the keys to be loaded. */
  ghost predicate LoadedRunnable(runs: seq<Run>, keys: seq<seq<nat>>, ks: seq<nat>, hs: seq<nat>, breakEven: nat,
                                 qbits: nat, r: nat,
                                 limit: nat, fullPoint: nat) {
    && AreHashes(hs) && AreHashes(ks) && |runs| >= Pow2(qbits) && AllOwned(runs, keys, qbits, r)
    && Runnable(Load(runs, ks, qbits, r), hs, Policy(LoadKeys(runs, keys, ks, qbits, r), breakEven, qbits, r), limit,
        fullPoint)
  }

  lemma RunnableHashes(runs: seq<Run>, keys: seq<seq<nat>>, ks: seq<nat>, hs: seq<nat>, breakEven: nat, qbits: nat,
                       r: nat,
                       limit: nat, fullPoint: nat)
    requires LoadedRunnable(runs, keys, ks, hs, breakEven, qbits, r, limit, fullPoint)
    ensures AreHashes(hs) && AreHashes(ks) && |runs| >= Pow2(qbits) && AllOwned(runs, keys, qbits, r)
    ensures Runnable(Load(runs, ks, qbits, r), hs, Policy(LoadKeys(runs, keys, ks, qbits, r), breakEven, qbits, r),
            limit, fullPoint)
  {
  }
}
