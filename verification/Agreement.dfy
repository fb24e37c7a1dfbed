/** Which key every stored fingerprint belongs to. The filter inserts a fingerprint in front of its
    minirun and never reorders items afterwards, so the keys of a minirun, read in slot order, are
    the list that the reverse map keeps for it. */
module Agreement {
  import opened Numbers
  import opened Items
  import opened Hashes
  import opened Runs
  import opened Contents
  import opened Edits

  /** keys[j] is the key whose fingerprint is item j of quotient q. */
  ghost predicate Owned(items: Run, keys: seq<nat>, q: nat, qbits: nat, r: nat) {
    |keys| == |items| &&
    forall j {:trigger keys[j]} {:trigger items[j]} | 0 <= j < |items| ::
      Matches(items[j], keys[j], qbits, r) && Quotient(keys[j], qbits, r) == q && keys[j] < Pow2(HASH_BITS)
  }

  ghost predicate AllOwned(runs: seq<Run>, keys: seq<seq<nat>>, qbits: nat, r: nat) {
    |keys| == |runs| &&
    forall q {:trigger keys[q]} {:trigger runs[q]} | 0 <= q < |runs| :: Owned(runs[q], keys[q], q, qbits, r)
  }

  /** The keys with remainder rem, in slot order. */
  ghost function WithRem(keys: seq<nat>, rem: nat, r: nat): seq<nat> {
    if keys == [] then []
    else WithRem(keys[..|keys| - 1], rem, r) + if Remainder(keys[|keys| - 1], r) == rem then [keys[|keys| - 1]] else []
  }

  lemma {:induction false} WithRemConcat(a: seq<nat>, b: seq<nat>, rem: nat, r: nat)
    ensures WithRem(a + b, rem, r) == WithRem(a, rem, r) + WithRem(b, rem, r)
  {
    if b == [] {
      assert a + b == a;
    } else {
      assert (a + b)[..|a + b| - 1] == a + b[..|b| - 1];
      WithRemConcat(a, b[..|b| - 1], rem, r);
    }
  }

  lemma {:induction false} WithRemNone(keys: seq<nat>, rem: nat, r: nat)
    requires forall i | 0 <= i < |keys| :: Remainder(keys[i], r) != rem
    ensures WithRem(keys, rem, r) == []
  {
    if keys == [] {
    } else {
      WithRemNone(keys[..|keys| - 1], rem, r);
    }
  }

  lemma WithRemOne(key: nat, rem: nat, r: nat)
    ensures WithRem([key], rem, r) == if Remainder(key, r) == rem then [key] else []
  {
    assert [key][..0] == [];
  }

  /** The rank of an item in its minirun is its position in the list of keys. */
  lemma {:induction false} RankInList(items: Run, keys: seq<nat>, q: nat, qbits: nat, r: nat, rem: nat, n: nat)
    requires Owned(items, keys, q, qbits, r) && n <= |items|
    ensures |WithRem(keys[..n], rem, r)| == RankBefore(items, rem, n)
    ensures forall j {:trigger RankBefore(items, rem, j)} | 0 <= j < n && items[j].rem == rem ::
              RankBefore(items, rem, j) < |WithRem(keys[..n], rem, r)| &&
              WithRem(keys[..n], rem, r)[RankBefore(items, rem, j)] == keys[j]
  {
    if n == 0 {
    } else {
      RankInList(items, keys, q, qbits, r, rem, n - 1);
      assert keys[..n][..n - 1] == keys[..n - 1];
      assert Matches(items[n - 1], keys[n - 1], qbits, r);
    }
  }

  /** The k-th key of a minirun's list owns the k-th item of the minirun. */
  lemma KeyOfRank(items: Run, keys: seq<nat>, q: nat, qbits: nat, r: nat, rem: nat, k: nat)
    requires Owned(items, keys, q, qbits, r)
    ensures |WithRem(keys, rem, r)| == RankBefore(items, rem, |items|)
    ensures k < |WithRem(keys, rem, r)| ==> WithRem(keys, rem, r)[k] == keys[MinirunItem(items, rem, k)]
  {
    RankInList(items, keys, q, qbits, r, rem, |items|);
    assert keys[..|items|] == keys;
  }

  function InsertKey(keys: seq<nat>, p: nat, key: nat): (k: seq<nat>)
    requires p <= |keys|
    ensures |k| == |keys| + 1 && k[p] == key
    ensures forall i {:trigger k[i]} | 0 <= i < |k| ::
            k[i] == if i < p then keys[i] else if i == p then key else keys[i - 1]
  {
    keys[..p] + [key] + keys[p..]
  }

  /** Inserting a key in front of its minirun puts it at the head of the minirun's list and leaves
      every other list alone. */
  lemma {:induction false} InsertedList(items: Run, keys: seq<nat>, q: nat, qbits: nat, r: nat, key: nat, rem: nat)
    requires Owned(items, keys, q, qbits, r)
    ensures var keys' := InsertKey(keys, LowerBound(items, Remainder(key, r)), key);
            WithRem(keys', rem, r) == (if Remainder(key, r) == rem then [key] else []) + WithRem(keys, rem, r)
  {
    var p := LowerBound(items, Remainder(key, r));
    WithRemInserted(keys, p, key, rem, r);
    if Remainder(key, r) == rem {
      NoneBelow(items, keys, q, qbits, r, rem, p);
    }
  }

  lemma WithRemInserted(keys: seq<nat>, p: nat, key: nat, rem: nat, r: nat)
    requires p <= |keys|
    ensures WithRem(InsertKey(keys, p, key), rem, r)
         == WithRem(keys[..p], rem, r) + (if Remainder(key, r) == rem then [key] else []) + WithRem(keys[p..], rem, r)
    ensures WithRem(keys, rem, r) == WithRem(keys[..p], rem, r) + WithRem(keys[p..], rem, r)
  {
    WithRemOne(key, rem, r);
    hide WithRem, Remainder;
    WithRemConcat(keys[..p] + [key], keys[p..], rem, r);
    WithRemConcat(keys[..p], [key], rem, r);
    WithRemConcat(keys[..p], keys[p..], rem, r);
    assert keys[..p] + keys[p..] == keys;
  }

  lemma NoneBelow(items: Run, keys: seq<nat>, q: nat, qbits: nat, r: nat, rem: nat, p: nat)
    requires Owned(items, keys, q, qbits, r) && p == LowerBound(items, rem)
    ensures WithRem(keys[..p], rem, r) == []
  {
    forall i | 0 <= i < p
      ensures Remainder(keys[..p][i], r) != rem
    {
      assert items[i].rem < rem && Matches(items[i], keys[i], qbits, r);
    }
    WithRemNone(keys[..p], rem, r);
  }

  lemma InsertedOwned(items: Run, keys: seq<nat>, q: nat, qbits: nat, r: nat, key: nat)
    requires Owned(items, keys, q, qbits, r) && key < Pow2(HASH_BITS) && Quotient(key, qbits, r) == q
    ensures Owned(Inserted(items, Remainder(key, r)), InsertKey(keys, LowerBound(items, Remainder(key, r)), key), q,
            qbits, r)
  {
    var p := LowerBound(items, Remainder(key, r));
    var items', keys' := Inserted(items, Remainder(key, r)), InsertKey(keys, p, key);
    forall j | 0 <= j < |items'|
      ensures Matches(items'[j], keys'[j], qbits, r) && Quotient(keys'[j], qbits, r) == q && keys'[j] < Pow2(HASH_BITS)
    {
      if j < p {
        assert items'[j] == items[j] && keys'[j] == keys[j];
      } else if j > p {
        assert items'[j] == items[j - 1] && keys'[j] == keys[j - 1];
      }
    }
  }

  // ---- what the filter accepts ------------------------------------------------------------

  /** A query for h succeeds. */
  ghost predicate Accepts(runs: seq<Run>, h: nat, qbits: nat, r: nat)
    requires |runs| >= Pow2(qbits)
  {
    exists j :: 0 <= j < |runs[Quotient(h, qbits, r)]| && Matches(runs[Quotient(h, qbits, r)][j], h, qbits, r)
  }

  lemma AcceptsIffFound(runs: seq<Run>, h: nat, qbits: nat, r: nat)
    requires |runs| >= Pow2(qbits)
    ensures Accepts(runs, h, qbits, r) <==>
            FirstMatch(runs[Quotient(h, qbits, r)], h, qbits, r, 0) < |runs[Quotient(h, qbits, r)]|
  {
    var items := runs[Quotient(h, qbits, r)];
    var m := FirstMatch(items, h, qbits, r, 0);
    if m < |items| {
      assert Matches(items[m], h, qbits, r);
    }
  }

  /** The key has a fingerprint of its own in the filter. */
  ghost predicate IsOwner(keys: seq<seq<nat>>, h: nat, qbits: nat, r: nat)
    requires |keys| >= Pow2(qbits)
  {
    h in keys[Quotient(h, qbits, r)]
  }

  /** No false negatives. */
  lemma OwnersAreAccepted(runs: seq<Run>, keys: seq<seq<nat>>, h: nat, qbits: nat, r: nat)
    requires AllOwned(runs, keys, qbits, r) && |runs| >= Pow2(qbits) && IsOwner(keys, h, qbits, r)
    ensures Accepts(runs, h, qbits, r)
  {
    var q := Quotient(h, qbits, r);
    assert Owned(runs[q], keys[q], q, qbits, r);
    var j :| 0 <= j < |keys[q]| && keys[q][j] == h;
    assert Matches(runs[q][j], h, qbits, r);
  }

  // ---- one step of a run: what any variant may do to the filter on a query --------------------

  /** Either nothing happens, or the first item that accepts h gets more chunks of its own key, at
      most until it is told apart from h; or only its counter changes. */
  ghost predicate MayBecome(runs: seq<Run>, runs': seq<Run>, keys: seq<seq<nat>>, h: nat, qbits: nat, r: nat)
    requires |runs| >= Pow2(qbits) && r > 0
  {
    var q := Quotient(h, qbits, r);
    var m := FirstMatch(runs[q], h, qbits, r, 0);
    || runs' == runs
    || (m < |runs[q]| && |keys| == |runs| && |keys[q]| == |runs[q]| && exists it ::
          runs' == WithItem(runs, q, m, it) &&
          (ExtendedTowards(runs[q][m], it, keys[q][m], h, qbits, r) || OnlyRecounted(runs[q][m], it)))
  }

  ghost predicate ExtendedTowards(it: Item, it': Item, key: nat, h: nat, qbits: nat, r: nat)
    requires r > 0
  {
    Extends(it', it) && Extends(Adapted(it, key, h, qbits, r), it')
  }

  ghost predicate OnlyRecounted(it: Item, it': Item) {
    it'.rem == it.rem && it'.ext == it.ext
  }

  /** A step extends the fingerprints, and their keys still match. */
  lemma StepKeepsItem(it: Item, it': Item, key: nat, h: nat, qbits: nat, r: nat)
    requires r > 0 && Matches(it, key, qbits, r)
    requires ExtendedTowards(it, it', key, h, qbits, r) || OnlyRecounted(it, it')
    ensures Matches(it', key, qbits, r) && Extends(it', it)
  {
    if ExtendedTowards(it, it', key, h, qbits, r) {
      AdaptedAccepts(it, key, h, qbits, r);
      LongerAcceptsLess(it', Adapted(it, key, h, qbits, r), key, qbits, r);
    }
  }

  lemma StepKeepsOwners(runs: seq<Run>, runs': seq<Run>, keys: seq<seq<nat>>, h: nat, qbits: nat, r: nat)
    requires |runs| >= Pow2(qbits) && r > 0 && AllOwned(runs, keys, qbits, r)
             && MayBecome(runs, runs', keys, h, qbits, r)
    ensures AllOwned(runs', keys, qbits, r)
    ensures |runs'| == |runs| && forall q | 0 <= q < |runs| :: |runs'[q]| == |runs[q]|
    ensures forall q, j | 0 <= q < |runs| && 0 <= j < |runs[q]| :: Extends(runs'[q][j], runs[q][j])
  {
    var q := Quotient(h, qbits, r);
    var m := FirstMatch(runs[q], h, qbits, r, 0);
    assert Owned(runs[q], keys[q], q, qbits, r);
    if runs' != runs {
      var it :| runs' == WithItem(runs, q, m, it) &&
                (ExtendedTowards(runs[q][m], it, keys[q][m], h, qbits, r) || OnlyRecounted(runs[q][m], it));
      StepKeepsItem(runs[q][m], it, keys[q][m], h, qbits, r);
      forall p | 0 <= p < |runs'|
        ensures Owned(runs'[p], keys[p], p, qbits, r)
      {
        assert Owned(runs[p], keys[p], p, qbits, r);
        if p == q {
          assert forall j | 0 <= j < |runs[q]| :: runs'[q][j] == if j == m then it else runs[q][j];
        }
      }
    }
  }

  /** The accepted set never grows when items only get longer. */
  lemma LongerRunsAcceptLess(runs: seq<Run>, runs': seq<Run>, h: nat, qbits: nat, r: nat)
    requires |runs| == |runs'| >= Pow2(qbits)
    requires forall q | 0 <= q < |runs| :: |runs'[q]| == |runs[q]|
    requires forall q, j | 0 <= q < |runs| && 0 <= j < |runs[q]| :: Extends(runs'[q][j], runs[q][j])
    requires Accepts(runs', h, qbits, r)
    ensures Accepts(runs, h, qbits, r)
  {
    var q := Quotient(h, qbits, r);
    var j :| 0 <= j < |runs'[q]| && Matches(runs'[q][j], h, qbits, r);
    LongerAcceptsLess(runs[q][j], runs'[q][j], h, qbits, r);
  }

  // ---- whole runs ---------------------------------------------------------------------------

  /** States of a filter over a sequence of queries, one state before and one after each of them. */
  ghost predicate IsHistory(states: seq<seq<Run>>, queries: seq<nat>, keys: seq<seq<nat>>, qbits: nat, r: nat)
    requires r > 0
  {
    && |states| == |queries| + 1
    && (forall i | 0 <= i < |states| :: |states[i]| >= Pow2(qbits))
    && (forall i {:trigger queries[i]} | 0 <= i < |queries| ::
        MayBecome(states[i], states[i + 1], keys, queries[i], qbits, r))
  }

  lemma {:induction false} HistoryKeepsOwners(states: seq<seq<Run>>, queries: seq<nat>, keys: seq<seq<nat>>,
                                              qbits: nat, r: nat, n: nat)
    requires r > 0 && IsHistory(states, queries, keys, qbits, r) && AllOwned(states[0], keys, qbits, r)
             && n <= |queries|
    ensures AllOwned(states[n], keys, qbits, r)
  {
    if n == 0 {
    } else {
      HistoryKeepsOwners(states, queries, keys, qbits, r, n - 1);
      assert MayBecome(states[n - 1], states[n - 1 + 1], keys, queries[n - 1], qbits, r);
      StepKeepsOwners(states[n - 1], states[n], keys, queries[n - 1], qbits, r);
    }
  }

  /** No false negatives, over whole runs: in every later state every key is still accepted. */
  lemma NoFalseNegatives(states: seq<seq<Run>>, queries: seq<nat>, keys: seq<seq<nat>>, qbits: nat, r: nat, n: nat,
                         key: nat)
    requires r > 0 && IsHistory(states, queries, keys, qbits, r) && AllOwned(states[0], keys, qbits, r)
             && n <= |queries|
    requires |keys| >= Pow2(qbits) && IsOwner(keys, key, qbits, r)
    ensures Accepts(states[n], key, qbits, r)
  {
    HistoryKeepsOwners(states, queries, keys, qbits, r, n);
    OwnersAreAccepted(states[n], keys, key, qbits, r);
  }

  /** False positives only disappear: what a later state accepts, every earlier one accepted. */
  lemma {:induction false} AcceptedSetShrinks(states: seq<seq<Run>>, queries: seq<nat>, keys: seq<seq<nat>>,
                                              qbits: nat, r: nat,
                                              m: nat, n: nat, h: nat)
    requires r > 0 && IsHistory(states, queries, keys, qbits, r) && AllOwned(states[0], keys, qbits, r)
    requires m <= n <= |queries| && Accepts(states[n], h, qbits, r)
    ensures Accepts(states[m], h, qbits, r)
    decreases n
  {
    if m == n {
    } else {
      HistoryKeepsOwners(states, queries, keys, qbits, r, n - 1);
      assert MayBecome(states[n - 1], states[n - 1 + 1], keys, queries[n - 1], qbits, r);
      StepKeepsOwners(states[n - 1], states[n], keys, queries[n - 1], qbits, r);
      LongerRunsAcceptLess(states[n - 1], states[n], h, qbits, r);
      AcceptedSetShrinks(states, queries, keys, qbits, r, m, n - 1, h);
    }
  }

  // ---- how often one hash can be a false positive ---------------------------------------------

  /** The number of items among the first j that accept h. */
  ghost function CountMatches(items: Run, h: nat, qbits: nat, r: nat, j: nat): (c: nat)
    requires j <= |items|
    ensures c <= j
  {
    if j == 0 then 0 else CountMatches(items, h, qbits, r, j - 1) + if Matches(items[j - 1], h, qbits, r) then 1 else 0
  }

  lemma {:induction false} CountMatchesAfterEdit(items: Run, m: nat, it: Item, h: nat, qbits: nat, r: nat, j: nat)
    requires m < |items| && j <= |items|
    ensures CountMatches(items[m := it], h, qbits, r, j) ==
            CountMatches(items, h, qbits, r, j) +
            if m < j && Matches(it, h, qbits, r) && !Matches(items[m], h, qbits, r) then 1
            else if m < j && !Matches(it, h, qbits, r) && Matches(items[m], h, qbits, r) then -1
            else 0
  {
    if j == 0 {
    } else {
      CountMatchesAfterEdit(items, m, it, h, qbits, r, j - 1);
    }
  }

  lemma {:induction false} CountMatchesZero(items: Run, h: nat, qbits: nat, r: nat, j: nat)
    requires j <= |items|
    ensures CountMatches(items, h, qbits, r, j) == 0 <==> forall i | 0 <= i < j :: !Matches(items[i], h, qbits, r)
  {
    if j == 0 {
    } else {
      CountMatchesZero(items, h, qbits, r, j - 1);
    }
  }

  /** An adaptation that finds room takes the false positive off the item it hit. */
  lemma AdaptationSeparates(runs: seq<Run>, keys: seq<seq<nat>>, h: nat, qbits: nat, r: nat)
    requires r > 0 && |runs| >= Pow2(qbits) && AllOwned(runs, keys, qbits, r) && h < Pow2(HASH_BITS)
    requires Accepts(runs, h, qbits, r) && !IsOwner(keys, h, qbits, r)
    ensures var q := Quotient(h, qbits, r);
            var m := FirstMatch(runs[q], h, qbits, r, 0);
            && m < |runs[q]| == |keys[q]|
            && var items' := WithItem(runs, q, m, Adapted(runs[q][m], keys[q][m], h, qbits, r))[q];
               && !Matches(items'[m], h, qbits, r)
               && CountMatches(items', h, qbits, r, |items'|) == CountMatches(runs[q], h, qbits, r, |runs[q]|) - 1
  {
    var q := Quotient(h, qbits, r);
    AcceptsIffFound(runs, h, qbits, r);
    var m := FirstMatch(runs[q], h, qbits, r, 0);
    assert Owned(runs[q], keys[q], q, qbits, r);
    assert keys[q][m] != h;
    AdaptedRejects(runs[q][m], keys[q][m], h, qbits, r);
    CountMatchesAfterEdit(runs[q], m, Adapted(runs[q][m], keys[q][m], h, qbits, r), h, qbits, r, |runs[q]|);
  }
}
