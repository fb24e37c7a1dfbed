/** What a query hits, what adapting or counting does to it, and the always-adapt policy over whole
    runs. */
module Adapting {
  import opened Numbers
  import opened Layout
  import opened Items
  import opened Hashes
  import opened Runs
  import opened Contents
  import opened Navigation
  import opened Edits
  import opened Agreement
  import opened ReverseMap
  import opened Loading

  /** The item that a query for h hits. */
  ghost predicate Hits(runs: seq<Run>, keys: seq<seq<nat>>, h: nat, qbits: nat, r: nat, m: nat)
    requires |runs| >= Pow2(qbits)
  {
    var q := Quotient(h, qbits, r);
    |keys| == |runs| && |keys[q]| == |runs[q]| && m < |runs[q]| && m == FirstMatch(runs[q], h, qbits, r, 0)
  }

  /** The hit item after a complete adaptation. */
  ghost function Separated(runs: seq<Run>, keys: seq<seq<nat>>, h: nat, qbits: nat, r: nat, m: nat): Item
    requires |runs| >= Pow2(qbits) && Hits(runs, keys, h, qbits, r, m) && r > 0
  {
    Adapted(runs[Quotient(h, qbits, r)][m], keys[Quotient(h, qbits, r)][m], h, qbits, r)
  }

  ghost function AdaptHit(runs: seq<Run>, keys: seq<seq<nat>>, h: nat, qbits: nat, r: nat, m: nat): seq<Run>
    requires |runs| >= Pow2(qbits) && Hits(runs, keys, h, qbits, r, m) && r > 0
  {
    WithItem(runs, Quotient(h, qbits, r), m, Separated(runs, keys, h, qbits, r, m))
  }

  /** The hit item with its counter one higher. */
  ghost function CountHit(runs: seq<Run>, keys: seq<seq<nat>>, h: nat, qbits: nat, r: nat, m: nat): seq<Run>
    requires |runs| >= Pow2(qbits) && Hits(runs, keys, h, qbits, r, m)
  {
    var q := Quotient(h, qbits, r);
    WithItem(runs, q, m, runs[q][m].(cnt := [ItemCount(runs[q][m], r) + 1]))
  }

  lemma CountHitIs(runs: seq<Run>, keys: seq<seq<nat>>, h: nat, qbits: nat, r: nat, m: nat)
    requires |runs| >= Pow2(qbits) && Hits(runs, keys, h, qbits, r, m)
    ensures var q := Quotient(h, qbits, r);
            CountHit(runs, keys, h, qbits, r, m) == WithItem(runs, q, m,
                runs[q][m].(cnt := [ItemCount(runs[q][m], r) + 1]))
  {
  }

  /** A counter that exists is where the code looks for it, and there is a slot for one that does not. */
  ghost predicate RoomToCount(runs: seq<Run>, keys: seq<seq<nat>>, h: nat, qbits: nat, r: nat, m: nat, limit: nat)
    requires |runs| >= Pow2(qbits) && Hits(runs, keys, h, qbits, r, m)
  {
    var q := Quotient(h, qbits, r);
    if runs[q][m].cnt != [] then Value(runs[q][m].ext, r) == |runs[q][m].ext|
    else Room(Encs(runs), TailPos(runs, q, m), limit)
  }

  /** The write of the count stays within the slots, and there is a slot for a counter that does not exist. */
  ghost predicate CountReaches(runs: seq<Run>, keys: seq<seq<nat>>, h: nat, qbits: nat, r: nat, m: nat, limit: nat)
    requires |runs| >= Pow2(qbits) && Hits(runs, keys, h, qbits, r, m)
  {
    var q := Quotient(h, qbits, r);
    if runs[q][m].cnt != [] then CounterAddress(ItemPos(runs, q, m), runs[q][m], r) < |runs|
    else Room(Encs(runs), TailPos(runs, q, m), limit)
  }

  /** The count comes to be where the decoder looks for it. */
  ghost predicate CountHitsCounter(runs: seq<Run>, keys: seq<seq<nat>>, h: nat, qbits: nat, r: nat, m: nat)
    requires |runs| >= Pow2(qbits) && Hits(runs, keys, h, qbits, r, m)
  {
    var it := runs[Quotient(h, qbits, r)][m];
    it.cnt == [] || Value(it.ext, r) == |it.ext|
  }

  /** The hit item with the count written over one of its chunks. */
  ghost function StrayHit(runs: seq<Run>, keys: seq<seq<nat>>, h: nat, qbits: nat, r: nat, m: nat): seq<Run>
    requires |runs| >= Pow2(qbits) && Hits(runs, keys, h, qbits, r, m)
    requires var it := runs[Quotient(h, qbits, r)][m]; |it.cnt| == 1 && Value(it.ext, r) < |it.ext|
  {
    WithItem(runs, Quotient(h, qbits, r), m, Strayed(runs[Quotient(h, qbits, r)][m], r))
  }

  /** There is room for that. */
  ghost predicate RoomToAdapt(runs: seq<Run>, keys: seq<seq<nat>>, h: nat, qbits: nat, r: nat, m: nat, limit: nat)
    requires |runs| >= Pow2(qbits) && Hits(runs, keys, h, qbits, r, m) && r > 0
  {
    AdaptFits(runs, Quotient(h, qbits, r), m, Separated(runs, keys, h, qbits, r, m), limit)
  }

  /** With room, and unless the query is the very key of the item it hit, the step is exactly that
      adaptation. */
  ghost predicate Separates(runs: seq<Run>, runs': seq<Run>, keys: seq<seq<nat>>, h: nat, qbits: nat, r: nat, m: nat,
                            limit: nat)
    requires |runs| >= Pow2(qbits) && Hits(runs, keys, h, qbits, r, m) && r > 0
  {
    keys[Quotient(h, qbits, r)][m] != h && RoomToAdapt(runs, keys, h, qbits, r, m, limit) ==>
      runs' == AdaptHit(runs, keys, h, qbits, r, m)
  }

  /** What a query does to the filter under the always-adapt policy: an accepted query is adapted to if
      the key is not stored and the filter is not full. */
  ghost predicate Served(runs: seq<Run>, runs': seq<Run>, keys: seq<seq<nat>>, h: nat, adapts: bool, qbits: nat,
                         r: nat, limit: nat)
    requires |runs| >= Pow2(qbits) && r > 0
  {
    if Accepts(runs, h, qbits, r) && adapts then
      var m := FirstMatch(runs[Quotient(h, qbits, r)], h, qbits, r, 0);
      Hits(runs, keys, h, qbits, r, m) && Separates(runs, runs', keys, h, qbits, r, m, limit)
    else runs' == runs
  }

  /** Adapting to this query, if it hits, does not touch the last slot of the last block. */
  ghost predicate SafeToServe(runs: seq<Run>, keys: seq<seq<nat>>, h: nat, qbits: nat, r: nat, limit: nat)
    requires |runs| >= Pow2(qbits) && r > 0
  {
    forall m: nat | Hits(runs, keys, h, qbits, r, m) :: SafeToAdapt(runs, keys, h, qbits, r, m, limit)
  }

  /** With a slot behind the usable ones, every query is safe. */
  lemma EdgeIsSafe(runs: seq<Run>, keys: seq<seq<nat>>, h: nat, qbits: nat, r: nat, limit: nat)
    requires |runs| >= Pow2(qbits) && r > 0 && limit < |runs|
    ensures SafeToServe(runs, keys, h, qbits, r, limit)
  {
  }

  /** A run of the test loop: every answer is that of the filter at the time, and the filter goes on as
      the policy says. */
  ghost predicate TestRun(states: seq<seq<Run>>, queries: seq<nat>, answers: seq<bool>, keys: seq<seq<nat>>,
                          db: set<nat>,
                          fullPoint: nat, qbits: nat, r: nat, limit: nat)
    requires r > 0
  {
    && IsHistory(states, queries, keys, qbits, r) && |answers| == |queries|
    && forall i {:trigger queries[i]} | 0 <= i < |queries| ::
         && (answers[i] <==> Accepts(states[i], queries[i], qbits, r))
         && Served(states[i], states[i + 1], keys, queries[i], queries[i] !in db && Total(states[i]) < fullPoint,
             qbits, r, limit)
  }

  lemma TestRunStarts(runs: seq<Run>, keys: seq<seq<nat>>, db: set<nat>, fullPoint: nat, qbits: nat, r: nat, limit: nat)
    requires r > 0 && |runs| >= Pow2(qbits)
    ensures TestRun([runs], [], [], keys, db, fullPoint, qbits, r, limit)
  {
  }

  lemma TestRunNext(states: seq<seq<Run>>, queries: seq<nat>, answers: seq<bool>, keys: seq<seq<nat>>, db: set<nat>,
                    fullPoint: nat, qbits: nat, r: nat, limit: nat, query: nat, answer: bool, next: seq<Run>)
    requires r > 0 && TestRun(states, queries, answers, keys, db, fullPoint, qbits, r, limit) && |next| >= Pow2(qbits)
    requires var now := states[|queries|];
             && MayBecome(now, next, keys, query, qbits, r) && (answer <==> Accepts(now, query, qbits, r))
             && Served(now, next, keys, query, query !in db && Total(now) < fullPoint, qbits, r, limit)
    ensures TestRun(states + [next], queries + [query], answers + [answer], keys, db, fullPoint, qbits, r, limit)
  {
    hide MayBecome, Accepts, Served, Total, Pow2;
  }

  /** The answer of the filter says which item was hit. */
  lemma AnswerIsHit(runs: seq<Run>, keys: seq<seq<nat>>, lists: map<nat, seq<nat>>, h: nat, qbits: nat,
                    r: nat) returns (m: nat)
    requires |runs| >= Pow2(qbits) && r > 0 && Consistent(runs, keys, lists, qbits, r)
    ensures m == FirstMatch(runs[Quotient(h, qbits, r)], h, qbits, r, 0)
    ensures Accepts(runs, h, qbits, r) <==> m < |runs[Quotient(h, qbits, r)]|
    ensures Accepts(runs, h, qbits, r) ==> Hits(runs, keys, h, qbits, r, m)
  {
    m := FirstMatch(runs[Quotient(h, qbits, r)], h, qbits, r, 0);
    AcceptsIffFound(runs, h, qbits, r);
    OwnedAt(runs, keys, qbits, r, Quotient(h, qbits, r));
  }

  lemma ConsistentIsOwned(runs: seq<Run>, keys: seq<seq<nat>>, lists: map<nat, seq<nat>>, qbits: nat, r: nat)
    requires Consistent(runs, keys, lists, qbits, r)
    ensures AllOwned(runs, keys, qbits, r)
  {
  }

  /** Without room the last slot of the last block is still not reached. */
  ghost predicate SafeToAdapt(runs: seq<Run>, keys: seq<seq<nat>>, h: nat, qbits: nat, r: nat, m: nat, limit: nat)
    requires |runs| >= Pow2(qbits) && Hits(runs, keys, h, qbits, r, m) && r > 0
  {
    AdaptSafe(runs, Quotient(h, qbits, r), m, Separated(runs, keys, h, qbits, r, m), limit)
  }

  /** The rank that a query reports leads to the key of the item it hit, and back to that item. */
  lemma RankLeadsToOwner(runs: seq<Run>, keys: seq<seq<nat>>, lists: map<nat, seq<nat>>, h: nat, qbits: nat, r: nat,
                         m: nat)
    requires |runs| >= Pow2(qbits) && Consistent(runs, keys, lists, qbits, r) && Hits(runs, keys, h, qbits, r, m)
    requires |ListOf(lists, Low(h, qbits + r))| <= 256
    ensures var q, rem, list := Quotient(h, qbits, r), Remainder(h, r), ListOf(lists, Low(h, qbits + r));
            var k := Byte(RankBefore(runs[q], rem, m));
            && k < |list| && list[k] == keys[q][m]
            && k < RankBefore(runs[q], rem, |runs[q]|) && MinirunItem(runs[q], rem, k) == m
            && Quotient(keys[q][m], qbits, r) == q && Matches(runs[q][m], keys[q][m], qbits, r)
  {
    hide Listed, RankBefore, Byte, Owned, MinirunItem, Low, Pow2, CountsFitByte, WithRem, ListOf, FirstMatch;
    var q, rem := Quotient(h, qbits, r), Remainder(h, r);
    var k := RankBefore(runs[q], rem, m);
    ListedAt(lists, keys, h, qbits, r);
    OwnedItem(runs, keys, qbits, r, q, m);
    OwnedAt(runs, keys, qbits, r, q);
    HitRemainder(runs, keys, h, qbits, r, m);
    MinirunItemUnique(runs[q], rem, k, m);
    KeyOfRank(runs[q], keys[q], q, qbits, r, rem, k);
    ByteOfSmall(k);
  }

  lemma HitRemainder(runs: seq<Run>, keys: seq<seq<nat>>, h: nat, qbits: nat, r: nat, m: nat)
    requires |runs| >= Pow2(qbits) && Hits(runs, keys, h, qbits, r, m)
    ensures runs[Quotient(h, qbits, r)][m].rem == Remainder(h, r)
  {
  }

  lemma ListedAt(lists: map<nat, seq<nat>>, keys: seq<seq<nat>>, h: nat, qbits: nat, r: nat)
    requires Listed(lists, keys, qbits, r)
    ensures ListOf(lists, Low(h, qbits + r)) == WithRem(keys[Quotient(h, qbits, r)], Remainder(h, r), r)
  {
    IdOfKey(h, qbits, r);
  }

  lemma OwnedItem(runs: seq<Run>, keys: seq<seq<nat>>, qbits: nat, r: nat, q: nat, m: nat)
    requires AllOwned(runs, keys, qbits, r) && q < |runs| && m < |runs[q]|
    ensures |keys| == |runs| && |keys[q]| == |runs[q]|
    ensures Matches(runs[q][m], keys[q][m], qbits, r) && Quotient(keys[q][m], qbits, r) == q
            && keys[q][m] < Pow2(HASH_BITS)
  {
    OwnedAt(runs, keys, qbits, r, q);
  }

  /** What an adaptation or a counter step does to the hit item keeps everything consistent. */
  lemma StepKeepsConsistent(runs: seq<Run>, runs': seq<Run>, keys: seq<seq<nat>>, lists: map<nat, seq<nat>>,
                            h: nat, qbits: nat, r: nat, m: nat, it: Item)
    requires |runs| >= Pow2(qbits) && r > 0 && Consistent(runs, keys, lists, qbits, r)
             && Hits(runs, keys, h, qbits, r, m)
    requires var q := Quotient(h, qbits, r);
             && (ExtendedTowards(runs[q][m], it, keys[q][m], h, qbits, r) || OnlyRecounted(runs[q][m], it))
             && ItemCount(it, r) < 256 && runs' == WithItem(runs, q, m, it)
    ensures MayBecome(runs, runs', keys, h, qbits, r) && Consistent(runs', keys, lists, qbits, r)
  {
    EditKeepsCounts(runs, Quotient(h, qbits, r), m, it, r);
    StepKeepsOwners(runs, runs', keys, h, qbits, r);
  }

  /** The outcome of an adaptation, with or without room. */
  lemma ExtendedHit(runs: seq<Run>, keys: seq<seq<nat>>, lists: map<nat, seq<nat>>, h: nat, qbits: nat, r: nat, m: nat,
                    it: Item)
    requires |runs| >= Pow2(qbits) && r > 0 && Consistent(runs, keys, lists, qbits, r)
             && Hits(runs, keys, h, qbits, r, m)
    requires var q := Quotient(h, qbits, r);
             && (it == runs[q][m] || (Extends(it, runs[q][m]) && Extends(Separated(runs, keys, h, qbits, r, m), it)))
             && (it.cnt != [] ==> it == runs[q][m])
    ensures var q := Quotient(h, qbits, r);
            MayBecome(runs, WithItem(runs, q, m, it), keys, h, qbits, r) &&
            Consistent(WithItem(runs, q, m, it), keys, lists, qbits, r)
  {
    StepKeepsConsistent(runs, WithItem(runs, Quotient(h, qbits, r), m, it), keys, lists, h, qbits, r, m, it);
  }

  lemma Unchanged(runs: seq<Run>, keys: seq<seq<nat>>, h: nat, qbits: nat, r: nat)
    requires |runs| >= Pow2(qbits) && r > 0
    ensures MayBecome(runs, runs, keys, h, qbits, r)
  {
  }

  /** The outcome of counting a false positive below the break-even point. */
  lemma CountedHit(runs: seq<Run>, keys: seq<seq<nat>>, lists: map<nat, seq<nat>>, h: nat, qbits: nat, r: nat, m: nat,
                   breakEven: nat)
    requires |runs| >= Pow2(qbits) && r > 0 && Consistent(runs, keys, lists, qbits, r)
             && Hits(runs, keys, h, qbits, r, m)
    requires ItemCount(runs[Quotient(h, qbits, r)][m], r) < breakEven < 256
    ensures MayBecome(runs, CountHit(runs, keys, h, qbits, r, m), keys, h, qbits, r) &&
            Consistent(CountHit(runs, keys, h, qbits, r, m), keys, lists, qbits, r)
  {
    var q := Quotient(h, qbits, r);
    var it := runs[q][m].(cnt := [ItemCount(runs[q][m], r) + 1]);
    OneDigit(it, r);
    StepKeepsConsistent(runs, CountHit(runs, keys, h, qbits, r, m), keys, lists, h, qbits, r, m, it);
  }

  // ---- filter and reverse map over whole runs ---------------------------------------------------

  /** In every consistent state the k-th item of a minirun, in slot order, is the fingerprint of the
      k-th key in the reverse map's list, and item and list lengths agree. */
  lemma ListIsMinirun(runs: seq<Run>, keys: seq<seq<nat>>, lists: map<nat, seq<nat>>, qbits: nat, r: nat, q: nat,
                      rem: nat, k: nat)
    requires |runs| >= Pow2(qbits) && Consistent(runs, keys, lists, qbits, r) && q < Pow2(qbits) && rem < Pow2(r)
    ensures var list := ListOf(lists, IdOf(q, rem, r));
            && |list| == RankBefore(runs[q], rem, |runs[q]|)
            && (k < |list| ==> Matches(runs[q][MinirunItem(runs[q], rem, k)], list[k], qbits, r))
  {
    hide RankBefore, MinirunItem, Matches, Pow2, WithRem, ListOf;
    OwnedAt(runs, keys, qbits, r, q);
    KeyOfRank(runs[q], keys[q], q, qbits, r, rem, k);
    assert ListOf(lists, IdOf(q, rem, r)) == WithRem(keys[q], rem, r);
    if k < RankBefore(runs[q], rem, |runs[q]|) {
      RankedItem(runs[q], rem, k);
      OwnedItem(runs, keys, qbits, r, q, MinirunItem(runs[q], rem, k));
    }
  }

  lemma RankedItem(items: Run, rem: nat, k: nat)
    requires k < RankBefore(items, rem, |items|)
    ensures MinirunItem(items, rem, k) < |items|
  {
  }

  /** After a bulk load and any queries and adaptations, with or without room for them, every loaded
      key is still accepted. */
  lemma LoadedKeysStayPresent(lists: map<nat, seq<nat>>, keys: seq<seq<nat>>, ks: seq<nat>, states: seq<seq<Run>>,
                              queries: seq<nat>, qbits: nat, r: nat, n: nat, key: nat)
    requires r > 0 && IsHistory(states, queries, keys, qbits, r) && n <= |queries|
    requires Consistent(states[0], keys, lists, qbits, r) && Loaded(lists, ks, qbits + r) && key in ks
    ensures Accepts(states[n], key, qbits, r)
  {
    LoadedKeysAreOwners(lists, keys, ks, qbits, r, key);
    NoFalseNegatives(states, queries, keys, qbits, r, n, key);
  }

  // ---- the address of an existing counter -------------------------------------------------------

  /** The item then has the new count exactly when value and length of its extension coincide. */
  lemma CounterWriteHits(cells: seq<Cell>, p: nat, it: Item, last: bool, r: nat)
    requires StoredAt(cells, p, it, last) && |it.cnt| == 1 && CounterAddress(p, it, r) < |cells|
    ensures var a, count := CounterAddress(p, it, r), it.cnt[0] + 1;
            StoredAt(cells[a := cells[a].(val := count)], p, it.(cnt := [count]), last) <==>
                Value(it.ext, r) == |it.ext|
  {
    var a, count := CounterAddress(p, it, r), it.cnt[0] + 1;
    var cells', it' := cells[a := cells[a].(val := count)], it.(cnt := [count]);
    var c := p + 1 + |it.ext|;
    TailCell(cells, p, it, last, |it.ext|);
    if a == c {
      assert forall x | 0 <= x < |cells| && x != c :: cells'[x] == cells[x];
      assert StoredAt(cells', p, it', last);
    } else {
      assert cells'[c].val == it.cnt[0];
    }
  }

  /** For one, an item with the chunk 7 and count 2 does not get the count 3: the write lands elsewhere. */
  lemma CounterWriteMisses()
    ensures var b := Cell(false, false, 0);
            var it := Item(5, [7], [2]);
            var cells := [Cell(true, false, 5), Cell(false, true, 7), Cell(true, true, 2), b, b, b, b, b, b, b];
            var a := CounterAddress(0, it, 3);
            && a == 8 && StoredAt(cells, 0, it, true)
            && !StoredAt(cells[a := cells[a].(val := 3)], 0, it.(cnt := [3]), true)
  {
    var b := Cell(false, false, 0);
    var it := Item(5, [7], [2]);
    var cells := [Cell(true, false, 5), Cell(false, true, 7), Cell(true, true, 2), b, b, b, b, b, b, b];
    assert it.ext[1..] == [] && Value([], 3) == 0 && Pow2(3) * 0 == 0;
    assert StoredAt(cells, 0, it, true);
    CounterWriteHits(cells, 0, it, true, 3);
  }

  /** If the value is below the length, the item gets the count as a chunk. */
  lemma StrayWrite(cells: seq<Cell>, p: nat, it: Item, last: bool, r: nat)
    requires StoredAt(cells, p, it, last) && |it.cnt| == 1 && Value(it.ext, r) < |it.ext|
    ensures var a := CounterAddress(p, it, r);
            a < |cells| && StoredAt(cells[a := cells[a].(val := it.cnt[0] + 1)], p, Strayed(it, r), last)
  {
    var v, count, a := Value(it.ext, r), it.cnt[0] + 1, CounterAddress(p, it, r);
    TailCell(cells, p, it, last, v);
    var cells' := cells[a := cells[a].(val := count)];
    assert forall x | 0 <= x < |cells| && x != a :: cells'[x] == cells[x];
  }

  /** Then the filter no longer knows the stored key, unless the count is by chance the chunk. */
  lemma StrayWriteLosesKey(it: Item, key: nat, qbits: nat, r: nat)
    requires Matches(it, key, qbits, r) && |it.cnt| == 1 && Value(it.ext, r) < |it.ext|
    ensures Matches(Strayed(it, r), key, qbits, r) <==> it.cnt[0] + 1 == it.ext[Value(it.ext, r)]
  {
    var v, it' := Value(it.ext, r), Strayed(it, r);
    assert it'.ext[v] == it.cnt[0] + 1;
    assert forall i | 0 <= i < |it.ext| && i != v :: it'.ext[i] == it.ext[i];
  }

  /** Of the whole filter: the slot that the code writes is that of the next count exactly when value and
      length coincide. */
  lemma CountStepExact(runs: seq<Run>, cells: seq<Cell>, occ: seq<bool>, off: seq<nat>, nslots: nat, r: nat, limit: nat,
                       q: nat, j: nat)
    requires Represents(runs, cells, occ, off, nslots, r, limit) && q < |runs| && q < nslots && j < |runs[q]|
    requires |runs[q][j].cnt| == 1 && runs[q][j].cnt[0] + 1 < Pow2(r)
             && CounterAddress(ItemPos(runs, q, j), runs[q][j], r) < |cells|
    ensures var it, a := runs[q][j], CounterAddress(ItemPos(runs, q, j), runs[q][j], r);
            Represents(WithItem(runs, q, j, it.(cnt := [it.cnt[0] + 1])), cells[a := cells[a].(val := it.cnt[0] + 1)],
                       occ, off, nslots, r, limit)
            <==> Value(it.ext, r) == |it.ext|
  {
    hide Next, Start, Encode, Offset, Value, RunsOk;
    var it, p := runs[q][j], ItemPos(runs, q, j);
    var a, it' := CounterAddress(p, it, r), it.(cnt := [it.cnt[0] + 1]);
    var runs', cells' := WithItem(runs, q, j, it'), cells[a := cells[a].(val := it.cnt[0] + 1)];
    ItemStored(runs, cells, occ, off, q, j);
    CounterWriteHits(cells, p, it, j + 1 == |runs[q]|, r);
    RunIsOk(runs, nslots, r, q, j);
    if Value(it.ext, r) == |it.ext| {
      CounterSet(runs, cells, occ, off, nslots, r, limit, q, j, it.cnt[0] + 1, a);
      TailCell(cells, p, it, j + 1 == |runs[q]|, |it.ext|);
      assert cells[a].(val := it.cnt[0] + 1) == Cell(true, true, it.cnt[0] + 1);
    } else if Represents(runs', cells', occ, off, nslots, r, limit) {
      ItemStored(runs', cells', occ, off, q, j);
      EditedStaysPut(runs, q, j, it');
    }
  }

  // ---- the always-adapt policy over whole runs --------------------------------------------------

  lemma {:induction false} LongerItemsMatchLess(items: Run, items': Run, h: nat, qbits: nat, r: nat, n: nat)
    requires n <= |items| == |items'| && forall j | 0 <= j < |items| :: Extends(items'[j], items[j])
    ensures CountMatches(items', h, qbits, r, n) <= CountMatches(items, h, qbits, r, n)
  {
    if n == 0 {
    } else {
      LongerItemsMatchLess(items, items', h, qbits, r, n - 1);
      if Matches(items'[n - 1], h, qbits, r) {
        LongerAcceptsLess(items[n - 1], items'[n - 1], h, qbits, r);
      }
    }
  }

  ghost function MatchCount(runs: seq<Run>, h: nat, qbits: nat, r: nat): nat
    requires |runs| >= Pow2(qbits)
  {
    CountMatches(runs[Quotient(h, qbits, r)], h, qbits, r, |runs[Quotient(h, qbits, r)]|)
  }

  /** Every accepted query for h is answered by a complete adaptation. */
  ghost predicate AlwaysAdapts(states: seq<seq<Run>>, queries: seq<nat>, keys: seq<seq<nat>>, h: nat, qbits: nat,
                               r: nat)
    requires r > 0 && IsHistory(states, queries, keys, qbits, r)
  {
    forall i {:trigger queries[i]} | 0 <= i < |queries| && queries[i] == h && Accepts(states[i], h, qbits, r) ::
      exists m :: Hits(states[i], keys, h, qbits, r, m) && states[i + 1] == AdaptHit(states[i], keys, h, qbits, r, m)
  }

  /** How many of the first n queries accept h wrongly. */
  ghost function AcceptedQueries(states: seq<seq<Run>>, queries: seq<nat>, keys: seq<seq<nat>>, h: nat, qbits: nat,
                                 r: nat, n: nat): nat
    requires r > 0 && IsHistory(states, queries, keys, qbits, r) && n <= |queries|
  {
    if n == 0 then 0
    else AcceptedQueries(states, queries, keys, h, qbits, r, n - 1)
         + if queries[n - 1] == h && Accepts(states[n - 1], h, qbits, r) then 1 else 0
  }

  /** Always adapting, a hash is a false positive at most once for every item that accepts it at
      first, whatever else is queried in between. */
  lemma {:induction false} FalsePositivesBounded(states: seq<seq<Run>>, queries: seq<nat>, keys: seq<seq<nat>>, h: nat,
                                                 qbits: nat, r: nat, n: nat)
    requires r > 0 && IsHistory(states, queries, keys, qbits, r) && AllOwned(states[0], keys, qbits, r)
             && n <= |queries|
    requires |keys| >= Pow2(qbits) && h < Pow2(HASH_BITS) && !IsOwner(keys, h, qbits, r)
    requires AlwaysAdapts(states, queries, keys, h, qbits, r)
    ensures AcceptedQueries(states, queries, keys, h, qbits, r, n) + MatchCount(states[n], h, qbits, r)
         <= MatchCount(states[0], h, qbits, r)
  {
    if n == 0 {
    } else {
      FalsePositivesBounded(states, queries, keys, h, qbits, r, n - 1);
      HistoryKeepsOwners(states, queries, keys, qbits, r, n - 1);
      var now, next, q := states[n - 1], states[n - 1 + 1], Quotient(h, qbits, r);
      assert MayBecome(now, next, keys, queries[n - 1], qbits, r);
      StepKeepsOwners(now, next, keys, queries[n - 1], qbits, r);
      LongerItemsMatchLess(now[q], next[q], h, qbits, r, |now[q]|);
      if queries[n - 1] == h && Accepts(now, h, qbits, r) {
        AdaptationSeparates(now, keys, h, qbits, r);
      }
    }
  }
}
