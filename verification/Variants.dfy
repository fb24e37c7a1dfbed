/** The filter variants of variants/base_adaptive_filter.hpp, variants/adaptiveqf.hpp and
    variants/skiqf.hpp: the quotient filter together with its reverse map. */
module Variants {
  import opened Numbers
  import opened Layout
  import opened Hashes
  import opened Runs
  import opened Contents
  import opened Navigation
  import opened InsertRank
  import opened Edits
  import opened Agreement
  import opened Loading
  import opened Adapting
  import opened ReverseMap
  import opened Plans
  import opened Domination
  import opened SkiRental
  import opened SharedItems
  import opened Filter

  class QueryResult {
    var key_present: bool
    var minirun_rank: nat
    var minirun_count: nat
    var hash: nat
    var hash_index: nat

    constructor () {
    }
  }

  class BaseAdaptiveFilter {
    const qf: QF
    const reverseMap: SplinterDB
    const fullPoint: nat
    /** keys[q][j] owns item j of quotient q. */
    ghost var keys: seq<seq<nat>>

    ghost predicate Valid()
      reads this, reverseMap, qf, qf.Repr()
    {
      && qf.Valid() && reverseMap.Valid()
      && reverseMap.quotient_remainder_bits == qf.qbits + qf.slots.bps
      && Consistent(qf.runs, keys, reverseMap.lists, qf.qbits, qf.slots.bps)
    }

    /** Both parts start empty. The full point (a load factor times the number of slots) is a
        parameter. */
    constructor (qbits: nat, rbits: nat, xnslots: nat, fullPoint: nat)
      requires 1 <= rbits <= 56 && qbits + rbits <= 64 && Pow2(qbits) <= xnslots
      ensures Valid() && fresh(qf) && fresh(qf.Repr()) && fresh(reverseMap)
      ensures qf.qbits == qbits && qf.slots.bps == rbits && qf.xnslots == xnslots && this.fullPoint == fullPoint
      ensures qf.noccupied_slots == 0 && Fresh(qf.runs) && Loaded(reverseMap.lists, [], qbits + rbits)
    {
      this.qf := new QF(qbits, rbits, xnslots);
      this.reverseMap := new SplinterDB(qbits + rbits);
      this.fullPoint := fullPoint;
      this.keys := seq((xnslots + 63) / 64 * 64, _ => []);
      new;
      hide Pow2, Consistent;
      EmptyIsConsistent(qf.runs, keys, qbits, rbits);
    }

    /** bulkLoad (variants/base_adaptive_filter.hpp:32-58): keys are inserted into filter and reverse
        map until the filter holds numKeys of them, or is loaded to 95 percent of its slots. */
    method BulkLoad(ks: seq<nat>, numKeys: nat) returns (ret: int)
      requires Valid() && Fresh(qf.runs) && qf.noccupied_slots == 0 && numKeys <= |ks|
      requires Loaded(reverseMap.lists, [], qf.qbits + qf.slots.bps)
      requires AreHashes(ks)
      requires Fits(Load(qf.runs, ks[..numKeys], qf.qbits, qf.slots.bps), qf.xnslots)
      modifies this, reverseMap, qf.Repr()
      ensures Valid() && Fresh(qf.runs)
      ensures var m := qf.noccupied_slots;
              && m <= numKeys && (ret == 0 <==> m == numKeys) && (ret != 0 ==> ret == -1 && 20 * m >= 19 * qf.nslots)
              && qf.runs == Load(old(qf.runs), ks[..m], qf.qbits, qf.slots.bps)
              && keys == LoadKeys(old(qf.runs), old(keys), ks[..m], qf.qbits, qf.slots.bps)
              && Loaded(reverseMap.lists, ks[..m], qf.qbits + qf.slots.bps)
    {
      hide Pow2, Consistent, Fits, Fresh, Room, Encs, LoadedSoFar, Loaded, Load, LoadOne, ListsAfter, Represents,
          StoreOk,
           Total, Quotient, Next, LoadKeys, AllOwned, KeysAfter;
      ghost var runs0, keys0, r := qf.runs, keys, qf.slots.bps;
      ghost var all := ks[..numKeys];
      ConsistentIsOwned(qf.runs, keys, reverseMap.lists, qf.qbits, r);
      LoadStarts(runs0, keys0, reverseMap.lists, all, qf.qbits, r, qf.xnslots);
      var i: nat := 0;
      ret := 0;
      while ret == 0 && qf.noccupied_slots < numKeys
        invariant Valid() && Fresh(qf.runs) && qf.noccupied_slots == i <= numKeys && -1 <= ret <= 0
        invariant ret == -1 ==> 20 * i >= 19 * qf.nslots && i < numKeys
        invariant LoadedSoFar(qf.runs, keys, reverseMap.lists, runs0, keys0, all, i, qf.qbits, r, qf.xnslots)
        decreases ret, numKeys - i
      {
        LoadTurn(qf.runs, keys, reverseMap.lists, runs0, keys0, all, i, qf.qbits, r, qf.xnslots);
        assert all[i] == ks[i];
        ret := LoadKey(ks[i]);
        if ret == 0 {
          i := i + 1;
        }
      }
      LoadEnds(qf.runs, keys, reverseMap.lists, runs0, keys0, all, i, qf.qbits, r, qf.xnslots);
      assert all[..i] == ks[..i];
    }

    /** One turn of the loop of bulkLoad. */
    method LoadKey(key: nat) returns (ret: int)
      requires Valid() && Fresh(qf.runs) && key < Pow2(HASH_BITS)
      requires Room(Encs(qf.runs), Quotient(key, qf.qbits, qf.slots.bps), qf.xnslots)
      modifies this, reverseMap, qf.Repr()
      ensures Valid() && Fresh(qf.runs)
      ensures ret == if 20 * old(qf.noccupied_slots) >= 19 * qf.nslots then -1 else 0
      ensures qf.noccupied_slots == old(qf.noccupied_slots) + ret + 1
      ensures qf.runs == if ret == 0 then LoadOne(old(qf.runs), key, qf.qbits, qf.slots.bps) else old(qf.runs)
      ensures reverseMap.lists == if ret == 0 then ListsAfter(old(reverseMap.lists), key, qf.qbits + qf.slots.bps)
                                  else old(reverseMap.lists)
      ensures ret != 0 ==> keys == old(keys)
      ensures ret == 0 ==> IsKeysAfter(keys, old(qf.runs), old(keys), key, qf.qbits, qf.slots.bps)
    {
      hide Pow2, Fresh, Consistent, Inserted, Low, RankBefore, Room, Encs, ListsAfter, Put, Remainder, Quotient, Sorted,
           ReportedRank, LooksRight, Follows, Start, IsKeysAfter, Represents, StoreOk, Total;
      if 20 * qf.noccupied_slots >= 19 * qf.nslots {
        return -1;
      }
      ghost var lists0 := reverseMap.lists;
      ghost var q := Quotient(key, qf.qbits, qf.slots.bps);
      qf.InsertRankExact(key);
      FreshLooksRight(qf.runs, q, Remainder(key, qf.slots.bps),
          Follows(qf.Cells(), qf.runs[q], Start(Encs(qf.runs), q)));
      ghost var keys' := LoadKeepsConsistent(qf.runs, keys, lists0, key, qf.qbits, qf.slots.bps);
      var existed, rank := qf.Insert(key);
      ghost var runs1 := qf.runs;
      reverseMap.InsertFingerprint(Low(key, qf.qbits + qf.slots.bps), rank, key);
      assert reverseMap.lists == ListsAfter(lists0, key, qf.qbits + qf.slots.bps);
      keys := keys';
      ret := 0;
    }

    /** The stored answer of a query for this key in the present state. */
    ghost predicate IsAnswer(queryKey: nat, result: QueryResult)
      requires Valid()
      reads this, reverseMap, qf, qf.Repr(), result
    {
      && result.hash == queryKey
      && Answers(qf.runs, qf.qbits, qf.slots.bps, queryKey, result.key_present, result.minirun_count,
          result.minirun_rank,
                 result.hash_index)
    }

    /** queryFilter (variants/base_adaptive_filter.hpp:60-80) */
    method QueryFilter(queryKey: nat, result: QueryResult)
      requires Valid() && result !in qf.Repr()
      modifies result
      ensures Valid() && IsAnswer(queryKey, result)
      ensures result.key_present <==> Accepts(qf.runs, queryKey, qf.qbits, qf.slots.bps)
    {
      hide Pow2, ItemPos, RankBefore, FirstMatch, ItemCount, Accepts, Byte, AllOwned, Listed;
      var count, rank, index := qf.GetCountWithIndex(queryKey);
      CountTellsPresence(qf.runs, qf.qbits, qf.slots.bps, queryKey, count, rank, index);
      var minirun_count := Byte(count);
      if minirun_count > 0 {
        result.key_present := true;
        result.minirun_count := minirun_count;
        result.hash_index := index;
      } else {
        result.key_present := false;
      }
      result.hash := queryKey;
      result.minirun_rank := rank;
    }

    /** The answer is that the query hits item m, whose rank fits a byte. */
    ghost predicate IsHitOf(queryKey: nat, result: QueryResult, m: nat)
      requires Valid()
      reads this, reverseMap, qf, qf.Repr(), result
    {
      && IsAnswer(queryKey, result) && result.key_present
      && Hits(qf.runs, keys, queryKey, qf.qbits, qf.slots.bps, m)
      && |reverseMap.List(Low(queryKey, qf.qbits + qf.slots.bps))| <= 256
    }

    /** That item can be adapted. */
    ghost predicate ReadyToAdapt(queryKey: nat, result: QueryResult, m: nat)
      requires Valid()
      reads this, reverseMap, qf, qf.Repr(), result
    {
      IsHitOf(queryKey, result, m) && SafeToAdapt(qf.runs, keys, queryKey, qf.qbits, qf.slots.bps, m, qf.xnslots)
    }

    lemma CounterInReach(h: nat, m: nat)
      requires Valid() && Hits(qf.runs, keys, h, qf.qbits, qf.slots.bps, m)
      requires RoomToCount(qf.runs, keys, h, qf.qbits, qf.slots.bps, m, qf.xnslots)
      ensures CountReaches(qf.runs, keys, h, qf.qbits, qf.slots.bps, m, qf.xnslots)
      ensures CountHitsCounter(qf.runs, keys, h, qf.qbits, qf.slots.bps, m)
    {
      hide Consistent, StoreOk, FirstMatch, Value, Total;
      TailSlot(qf.runs, qf.Cells(), qf.occupieds[..], qf.offsets[..], qf.nslots, qf.slots.bps, qf.xnslots,
               Quotient(h, qf.qbits, qf.slots.bps), m);
    }

    /** The part of adapt shared by both variants: the key of the item that was hit is looked up in
        the reverse map by rank, and the item is extended until it no longer accepts the query. */
    method ExtendHit(queryKey: nat, result: QueryResult, ghost m: nat) returns (ret: int)
      requires Valid() && ReadyToAdapt(queryKey, result, m)
      modifies qf.Repr()
      ensures Valid() && ret == 1
      ensures MayBecome(old(qf.runs), qf.runs, keys, queryKey, qf.qbits, qf.slots.bps)
      ensures Separates(old(qf.runs), qf.runs, keys, queryKey, qf.qbits, qf.slots.bps, m, qf.xnslots)
    {
      hide Pow2, Consistent, StoreOk, Represents, Low, Byte, RankBefore, MinirunItem, AdaptSafe, AdaptFits, Adapted,
          Extends,
           FirstMatch, MayBecome, WithItem, Quotient, Remainder, Total, ListOf, ItemCount, CountsFitByte, Matches,
               ItemPos;
      RankLeadsToOwner(qf.runs, keys, reverseMap.lists, queryKey, qf.qbits, qf.slots.bps, m);
      ghost var runs0 := qf.runs;
      var origKey;
      ret, origKey := reverseMap.GetFingerprint(result.hash, result.minirun_rank);
      ghost var it;
      ret, it := qf.AdaptUsingRank(origKey, queryKey, result.minirun_rank);
      ExtendedHit(runs0, keys, reverseMap.lists, queryKey, qf.qbits, qf.slots.bps, m, it);
      ret := 1;
    }
  }

  /** variants/adaptiveqf.hpp: every reported false positive is adapted to. */
  class AdaptiveQF {
    const base: BaseAdaptiveFilter

    constructor (base: BaseAdaptiveFilter)
      ensures this.base == base
    {
      this.base := base;
    }

    /** adapt (variants/adaptiveqf.hpp:17-31) */
    method Adapt(queryKey: nat, result: QueryResult, ghost m: nat) returns (ret: int)
      requires base.Valid() && base.ReadyToAdapt(queryKey, result, m)
      modifies base.qf.Repr()
      ensures base.Valid()
      ensures ret == if old(base.qf.noccupied_slots) >= base.fullPoint then -1 else 1
      ensures MayBecome(old(base.qf.runs), base.qf.runs, base.keys, queryKey, base.qf.qbits, base.qf.slots.bps)
      ensures if ret == -1 then base.qf.runs == old(base.qf.runs)
              else Separates(old(base.qf.runs), base.qf.runs, base.keys, queryKey, base.qf.qbits, base.qf.slots.bps, m,
                  base.qf.xnslots)
    {
      hide Pow2, Consistent, StoreOk, Represents, Low, Quotient, FirstMatch, Total, RoomToAdapt, SafeToAdapt, Separated;
      if base.qf.noccupied_slots >= base.fullPoint {
        return -1;
      }
      ret := base.ExtendHit(queryKey, result, m);
      return 1;
    }

    /** The parameters for its plan: adapt to everything. */
    ghost function Setting(): Policy
      reads base
    {
      Policy(base.keys, 1, base.qf.qbits, base.qf.slots.bps)
    }

    /** One query of the test loop (bench/cpp/bench_variants.cc:219-264): the filter is asked, and if it
        says present although the database has no such key, it is adapted. */
    method ServeQuery(queryKey: nat, db: set<nat>, result: QueryResult) returns (present: bool)
      requires base.Valid() && result !in base.qf.Repr()
      requires queryKey !in db ==>
                 SafeToServe(base.qf.runs, base.keys, queryKey, base.qf.qbits, base.qf.slots.bps, base.qf.xnslots)
      requires |base.reverseMap.List(Low(queryKey, base.qf.qbits + base.qf.slots.bps))| <= 256
      modifies result, base.qf.Repr()
      ensures base.Valid()
      ensures present <==> Accepts(old(base.qf.runs), queryKey, base.qf.qbits, base.qf.slots.bps)
      ensures MayBecome(old(base.qf.runs), base.qf.runs, base.keys, queryKey, base.qf.qbits, base.qf.slots.bps)
      ensures Served(old(base.qf.runs), base.qf.runs, base.keys, queryKey,
                     queryKey !in db && Total(old(base.qf.runs)) < base.fullPoint,
                     base.qf.qbits, base.qf.slots.bps, base.qf.xnslots)
    {
      hide Pow2, Consistent, StoreOk, Represents, Low, Quotient, FirstMatch, Total, RoomToAdapt, Separated, Accepts,
           MayBecome, Separates, ItemPos, Byte, ItemCount, RankBefore, SafeToAdapt;
      base.QueryFilter(queryKey, result);
      present := result.key_present;
      ghost var m := AnswerIsHit(base.qf.runs, base.keys, base.reverseMap.lists, queryKey, base.qf.qbits,
          base.qf.slots.bps);
      Unchanged(base.qf.runs, base.keys, queryKey, base.qf.qbits, base.qf.slots.bps);
      if present && queryKey !in db {
        var ret := Adapt(queryKey, result, m);
      }
    }

    /** The test loop over a query sequence, with the states of the filter before and after every query. It
        asks for a free slot behind the usable ones, or for room to the end. With room to the end, every
        false positive is fully adapted to. */
    method ServeQueries(queries: seq<nat>, db: set<nat>) returns (answers: seq<bool>, ghost states: seq<seq<Run>>)
      requires base.Valid()
      requires base.qf.xnslots < base.qf.n || RoomForAll(base.qf.runs, queries, db, Setting(), base.qf.xnslots,
               base.fullPoint)
      requires forall h | h in queries :: |base.reverseMap.List(Low(h, base.qf.qbits + base.qf.slots.bps))| <= 256
      modifies base.qf.Repr()
      ensures base.Valid()
      ensures TestRun(states, queries, answers, base.keys, db, base.fullPoint, base.qf.qbits, base.qf.slots.bps,
              base.qf.xnslots)
      ensures states[0] == old(base.qf.runs) && states[|queries|] == base.qf.runs
      ensures RoomForAll(old(base.qf.runs), queries, db, Setting(), base.qf.xnslots, base.fullPoint) ==>
                FullRun(states, queries, Setting()) && Bounded(states, queries, Setting())
    {
      hide Pow2, Consistent, StoreOk, Represents, Low, Quotient, Total, Accepts, MayBecome, Served, TestRun,
          RoomForAll, FullRun,
           FullSoFar, SafeToServe, Bounded;
      ghost var runs0, p := base.qf.runs, Setting();
      ghost var room := RoomForAll(runs0, queries, db, p, base.qf.xnslots, base.fullPoint);
      var result := new QueryResult();
      answers, states := [], [base.qf.runs];
      TestRunStarts(base.qf.runs, base.keys, db, base.fullPoint, base.qf.qbits, base.qf.slots.bps, base.qf.xnslots);
      if room {
        FullStarts(runs0, queries, db, p, base.qf.xnslots, base.fullPoint);
      }
      for i := 0 to |queries|
        invariant base.Valid() && fresh(result) && |states| == i + 1
        invariant states[0] == runs0 && states[i] == base.qf.runs
        invariant TestRun(states, queries[..i], answers, base.keys, db, base.fullPoint, base.qf.qbits,
                  base.qf.slots.bps,
                          base.qf.xnslots)
        invariant room ==> FullSoFar(states, queries, p)
      {
        assert queries[i] in queries && queries[..i + 1] == queries[..i] + [queries[i]];
        if room {
          FullTurn(states, queries, db, p, base.qf.xnslots, base.fullPoint, i);
        } else {
          EdgeIsSafe(base.qf.runs, base.keys, queries[i], base.qf.qbits, base.qf.slots.bps, base.qf.xnslots);
        }
        var present := ServeQuery(queries[i], db, result);
        TestRunNext(states, queries[..i], answers, base.keys, db, base.fullPoint, base.qf.qbits, base.qf.slots.bps,
                    base.qf.xnslots, queries[i], present, base.qf.runs);
        if room {
          FullNext(states, queries, db, p, base.qf.xnslots, base.fullPoint, i, base.qf.runs);
        }
        answers, states := answers + [present], states + [base.qf.runs];
      }
      assert queries[..|queries|] == queries;
      if room {
        FullEnds(states, queries, answers, db, p, base.fullPoint, base.qf.xnslots);
      }
    }

    /** Loading and querying together: every query for a loaded key says present, and a query that was
        once answered with absent is so ever after. */
    method LoadAndServe(ks: seq<nat>, queries: seq<nat>) returns (loaded: bool, answers: seq<bool>,
                        ghost states: seq<seq<Run>>)
      requires base.Valid() && Fresh(base.qf.runs) && base.qf.noccupied_slots == 0
      requires Loaded(base.reverseMap.lists, [], base.qf.qbits + base.qf.slots.bps) && AreHashes(ks)
      requires Fits(Load(base.qf.runs, ks, base.qf.qbits, base.qf.slots.bps), base.qf.xnslots)
      requires base.qf.xnslots < base.qf.n ||
               LoadedRoom(base.qf.runs, base.keys, ks, queries, base.qf.qbits, base.qf.slots.bps, base.qf.xnslots,
                   base.fullPoint)
      requires forall h | h in queries ::
                 |WithId(ks, Low(h, base.qf.qbits + base.qf.slots.bps), base.qf.qbits + base.qf.slots.bps)| <= 256
      modifies base, base.reverseMap, base.qf.Repr()
      ensures base.Valid()
      ensures !loaded ==> base.qf.noccupied_slots < |ks| && 20 * base.qf.noccupied_slots >= 19 * base.qf.nslots
      ensures loaded ==>
                && TestRun(states, queries, answers, base.keys, KeySet(ks), base.fullPoint, base.qf.qbits,
                    base.qf.slots.bps,
                           base.qf.xnslots)
                && states[0] == Load(old(base.qf.runs), ks, base.qf.qbits, base.qf.slots.bps)
                    && states[|queries|] == base.qf.runs
      ensures loaded ==> forall i | 0 <= i < |queries| && queries[i] in ks :: answers[i]
      ensures loaded ==> forall i, j | 0 <= i <= j < |queries| && queries[i] == queries[j] && answers[j] :: answers[i]
      ensures loaded && LoadedRoom(old(base.qf.runs), old(base.keys), ks, queries, base.qf.qbits, base.qf.slots.bps,
              base.qf.xnslots,
                                   base.fullPoint) ==>
                Bounded(states, queries, Setting())
    {
      hide Pow2, StoreOk, Represents, Low, Quotient, Total, Accepts, MayBecome, Served, Load, Fits, Fresh, Listed,
          CountsFitByte, WithId,
           LoadedRoom, RoomForAll, FullRun, Bounded, LoadKeys, AllOwned;
      ghost var qbits, r, runs0, keys0, lists0 := base.qf.qbits, base.qf.slots.bps, base.qf.runs, base.keys,
          base.reverseMap.lists;
      assert ks[..|ks|] == ks;
      var ret := base.BulkLoad(ks, |ks|);
      loaded, answers, states := ret == 0, [], [];
      if !loaded {
        return;
      }
      ListsAreShort(base.reverseMap.lists, ks, queries, qbits + r);
      var db := KeySet(ks);
      ghost var lists := base.reverseMap.lists;
      ConsistentIsOwned(runs0, keys0, lists0, qbits, r);
      LoadedHasRoom(runs0, keys0, lists, ks, queries, qbits, r, base.qf.xnslots, base.fullPoint);
      answers, states := ServeQueries(queries, db);
      forall i | 0 <= i < |queries| && queries[i] in ks
        ensures answers[i]
      {
        LoadedKeysStayPresent(lists, base.keys, ks, states, queries, qbits, r, i, queries[i]);
      }
      forall i, j | 0 <= i <= j < |queries| && queries[i] == queries[j] && answers[j]
        ensures answers[i]
      {
        AcceptedSetShrinks(states, queries, base.keys, qbits, r, i, j, queries[j]);
      }
    }
  }

  /** variants/skiqf.hpp: false positives are counted, and adapted to at the break-even point. */
  class SkiQF {
    const base: BaseAdaptiveFilter
    const breakEvenCount: nat

    constructor (base: BaseAdaptiveFilter, breakEvenCount: nat)
      ensures this.base == base && this.breakEvenCount == breakEvenCount
    {
      this.base, this.breakEvenCount := base, breakEvenCount;
    }

    /** adapt (variants/skiqf.hpp:17-49). The count of an existing counter only comes to where it is found
        again if the extension's value equals its length, as it does for unextended items. */
    method Adapt(queryKey: nat, result: QueryResult, ghost m: nat) returns (ret: int)
      requires breakEvenCount < 256 && breakEvenCount < Pow2(base.qf.slots.bps)
      requires base.Valid() && base.IsHitOf(queryKey, result, m)
      requires if result.minirun_count < breakEvenCount
               then CountReaches(base.qf.runs, base.keys, queryKey, base.qf.qbits, base.qf.slots.bps, m,
                   base.qf.xnslots)
               else base.ReadyToAdapt(queryKey, result, m)
      modifies base.qf.Repr()
      ensures ret == if old(base.qf.noccupied_slots) >= base.fullPoint then -1
                     else if old(result.minirun_count) < breakEvenCount then 0 else 1
      ensures Outcome(old(base.qf.runs), queryKey, m, ret)
    {
      hide Pow2, Consistent, StoreOk, Represents, Low, Quotient, FirstMatch, Total, RoomToAdapt, SafeToAdapt, Separated,
           ItemCount, ItemPos, Value, MayBecome, Separates, CountHit;
      ConsistentIsOwned(base.qf.runs, base.keys, base.reverseMap.lists, base.qf.qbits, base.qf.slots.bps);
      if base.qf.noccupied_slots >= base.fullPoint {
        Unchanged(base.qf.runs, base.keys, queryKey, base.qf.qbits, base.qf.slots.bps);
        return -1;
      }
      if result.minirun_count < breakEvenCount {
        CountedHit(base.qf.runs, base.keys, base.reverseMap.lists, queryKey, base.qf.qbits, base.qf.slots.bps, m,
            breakEvenCount);
        CountHitIs(base.qf.runs, base.keys, queryKey, base.qf.qbits, base.qf.slots.bps, m);
        base.qf.IncrementCounter(result.hash, result.hash_index, m);
        return 0;
      } else {
        ret := base.ExtendHit(queryKey, result, m);
        return 1;
      }
    }

    /** What adapt leaves behind: the filter of the policy, unless a count went astray. */
    ghost predicate Outcome(runs: seq<Run>, queryKey: nat, m: nat, ret: int)
      reads base, base.reverseMap, base.qf, base.qf.Repr()
    {
      |runs| >= Pow2(base.qf.qbits) && base.qf.slots.bps > 0 &&
      Hits(runs, base.keys, queryKey, base.qf.qbits, base.qf.slots.bps, m) &&
      if ret == 0 && !CountHitsCounter(runs, base.keys, queryKey, base.qf.qbits, base.qf.slots.bps, m)
      then Astray(runs, queryKey, m)
      else
        && base.Valid() && MayBecome(runs, base.qf.runs, base.keys, queryKey, base.qf.qbits, base.qf.slots.bps)
        && (if ret == -1 then base.qf.runs == runs
            else SkiStepped(runs, base.qf.runs, base.keys, breakEvenCount, queryKey, base.qf.qbits, base.qf.slots.bps, m,
                            base.qf.xnslots))
    }

    /** The count went to another slot: to a chunk of the hit item if the value is below the length. */
    ghost predicate Astray(runs: seq<Run>, queryKey: nat, m: nat)
      requires |runs| >= Pow2(base.qf.qbits) && Hits(runs, base.keys, queryKey, base.qf.qbits, base.qf.slots.bps, m)
      reads base, base.qf, base.qf.Repr()
    {
      var it := runs[Quotient(queryKey, base.qf.qbits, base.qf.slots.bps)][m];
      |it.cnt| == 1 && Value(it.ext, base.qf.slots.bps) < |it.ext| ==>
        base.qf.Valid() && base.qf.runs == StrayHit(runs, base.keys, queryKey, base.qf.qbits, base.qf.slots.bps, m)
    }

    /** The policy that these parameters make. */
    ghost function Setting(): Policy
      reads base
    {
      Policy(base.keys, breakEvenCount, base.qf.qbits, base.qf.slots.bps)
    }

    /** One query of the test loop, with what it costs. */
    method ServeQuery(queryKey: nat, db: set<nat>, result: QueryResult) returns (present: bool, fps: nat, adapts: nat)
      requires base.Valid() && result !in base.qf.Repr() && base.qf.noccupied_slots < base.fullPoint
      requires Servable(base.qf.runs, queryKey, Setting(), base.qf.xnslots)
      requires queryKey in db <==> !Foreign(queryKey, Setting())
      requires |base.reverseMap.List(Low(queryKey, base.qf.qbits + base.qf.slots.bps))| <= 256
      modifies result, base.qf.Repr()
      ensures base.Valid()
      ensures present <==> Accepts(old(base.qf.runs), queryKey, base.qf.qbits, base.qf.slots.bps)
      ensures StepOutcome(old(base.qf.runs), base.qf.runs, queryKey, Setting(), fps, adapts)
    {
      hide Pow2, Consistent, StoreOk, Represents, Low, Quotient, FirstMatch, Total, RoomToAdapt, SafeToAdapt,
          RoomToCount, Accepts,
           MayBecome, ItemPos, Byte, ItemCount, RankBefore, Foreign, PlanStep, SkiStepped, CountReaches,
               CountHitsCounter;
      ghost var p, runs := Setting(), base.qf.runs;
      fps, adapts := 0, 0;
      base.QueryFilter(queryKey, result);
      present := result.key_present;
      ghost var m := AnswerIsHit(runs, base.keys, base.reverseMap.lists, queryKey, base.qf.qbits, base.qf.slots.bps);
      if present && queryKey !in db {
        if result.minirun_count < breakEvenCount {
          base.CounterInReach(queryKey, m);
        }
        var ret := Adapt(queryKey, result, m);
        StepIsSki(runs, base.qf.runs, queryKey, p, m, base.qf.xnslots);
        fps, adapts := 1, ret;
      } else {
        StepIsEdit(runs, queryKey, SkiDecision(Bucket(runs, queryKey, p), queryKey, p), p);
      }
    }

    /** The test loop over a query sequence: the filter goes through the states of the policy, every loaded
        key is answered with present, and where the guarantee holds, the false positives and adaptations
        together cost at most twice what any plan for the same queries costs. */
    method ServeQueries(queries: seq<nat>, db: set<nat>) returns (answers: seq<bool>, fpCount: nat, adaptCount: nat)
      requires base.Valid() && Runnable(base.qf.runs, queries, Setting(), base.qf.xnslots, base.fullPoint)
      requires Knows(db, queries, Setting())
      requires forall h | h in queries :: |base.reverseMap.List(Low(h, base.qf.qbits + base.qf.slots.bps))| <= 256
      modifies base.qf.Repr()
      ensures base.Valid()
      ensures RunOutcome(old(base.qf.runs), base.qf.runs, queries, Setting(), answers, fpCount, adaptCount)
    {
      hide Pow2, Consistent, StoreOk, Represents, Low, Quotient, Total, FilterOf, Foreign, PlanStep, FalseHit,
          Runnable, StepFits,
           SkiDecision, Bucket, StepCost, SkiAfter, TotalCost, Charge, BreakEvenFits, SkiPlan, RunOutcome, Accepts, SoFar;
      ghost var runs0, p := base.qf.runs, Setting();
      RunStarts(runs0, queries, p, base.qf.xnslots, base.fullPoint);
      var result := new QueryResult();
      answers, fpCount, adaptCount := [], 0, 0;
      for i := 0 to |queries|
        invariant base.Valid() && fresh(result) && base.qf.runs == SkiAfter(runs0, queries, p, i) && |answers| == i
        invariant forall j {:trigger answers[j]} | 0 <= j < i ::
                    answers[j] <==> Accepts(SkiAfter(runs0, queries, p, j), queries[j], p.qbits, p.r)
        invariant SoFar(runs0, queries, p, i, fpCount, adaptCount)
      {
        RunTurn(runs0, queries, p, base.qf.xnslots, base.fullPoint, i);
        var present, fps, adapts := ServeQuery(queries[i], db, result);
        SoFarNext(runs0, queries, p, i, fpCount, adaptCount, base.qf.runs, fps, adapts);
        answers, fpCount, adaptCount := answers + [present], fpCount + fps, adaptCount + adapts;
      }
      RunEnds(runs0, queries, p, base.qf.xnslots, base.fullPoint, answers, fpCount, adaptCount);
    }

    /** Loading and querying together. */
    method LoadAndServe(ks: seq<nat>, queries: seq<nat>)
      returns (loaded: bool, answers: seq<bool>, fpCount: nat, adaptCount: nat)
      requires base.Valid() && Fresh(base.qf.runs) && base.qf.noccupied_slots == 0
      requires Loaded(base.reverseMap.lists, [], base.qf.qbits + base.qf.slots.bps)
      requires Fits(Load(base.qf.runs, ks, base.qf.qbits, base.qf.slots.bps), base.qf.xnslots)
      requires LoadedRunnable(base.qf.runs, base.keys, ks, queries, breakEvenCount, base.qf.qbits, base.qf.slots.bps,
               base.qf.xnslots,
                              base.fullPoint)
      requires forall h | h in queries ::
                 |WithId(ks, Low(h, base.qf.qbits + base.qf.slots.bps), base.qf.qbits + base.qf.slots.bps)| <= 256
      modifies base, base.reverseMap, base.qf.Repr()
      ensures base.Valid()
      ensures !loaded ==> base.qf.noccupied_slots < |ks| && 20 * base.qf.noccupied_slots >= 19 * base.qf.nslots
      ensures loaded ==>
                RunOutcome(Load(old(base.qf.runs), ks, base.qf.qbits, base.qf.slots.bps), base.qf.runs, queries,
                    Setting(), answers, fpCount, adaptCount)
      ensures loaded ==> forall i | 0 <= i < |queries| && queries[i] in ks :: answers[i]
    {
      hide Pow2, StoreOk, Represents, Low, Quotient, Total, Load, Fits, Fresh, Listed, CountsFitByte, WithId,
          RunOutcome, Runnable,
           LoadKeys, AllOwned, Knows, LoadedRunnable, Loaded;
      ghost var qbits, r, runs0, keys0 := base.qf.qbits, base.qf.slots.bps, base.qf.runs, base.keys;
      RunnableHashes(runs0, keys0, ks, queries, breakEvenCount, qbits, r, base.qf.xnslots, base.fullPoint);
      assert ks[..|ks|] == ks;
      var ret := base.BulkLoad(ks, |ks|);
      loaded, answers, fpCount, adaptCount := ret == 0, [], 0, 0;
      if !loaded {
        return;
      }
      ListsAreShort(base.reverseMap.lists, ks, queries, qbits + r);
      LoadedKnows(base.reverseMap.lists, ks, queries, Setting());
      ghost var lists := base.reverseMap.lists;
      var db := KeySet(ks);
      answers, fpCount, adaptCount := ServeQueries(queries, db);
      LoadedKeysAnswered(Load(runs0, ks, qbits, r), base.qf.runs, queries, Setting(), answers, fpCount, adaptCount,
                         lists, ks);
    }
  }
}
