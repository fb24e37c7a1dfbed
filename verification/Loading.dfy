/** Bulk loading on the abstract contents: the filter, the keys that own its items, and the lists of
    the reverse map, one key at a time. */
module Loading {
  import opened Numbers
  import opened Items
  import opened Hashes
  import opened Runs
  import opened Contents
  import opened Navigation
  import opened InsertRank
  import opened Edits
  import opened Agreement
  import opened ReverseMap

  ghost function LoadOne(runs: seq<Run>, key: nat, qbits: nat, r: nat): (runs': seq<Run>)
    requires |runs| >= Pow2(qbits)
    ensures |runs'| == |runs|
  {
    var q := Quotient(key, qbits, r);
    runs[q := Inserted(runs[q], Remainder(key, r))]
  }

  ghost function Load(runs: seq<Run>, ks: seq<nat>, qbits: nat, r: nat): (runs': seq<Run>)
    requires |runs| >= Pow2(qbits)
    ensures |runs'| == |runs|
  {
    if ks == [] then runs else LoadOne(Load(runs, ks[..|ks| - 1], qbits, r), ks[|ks| - 1], qbits, r)
  }

  lemma LoadNext(runs: seq<Run>, ks: seq<nat>, m: nat, qbits: nat, r: nat)
    requires |runs| >= Pow2(qbits) && m < |ks|
    ensures Load(runs, ks[..m + 1], qbits, r) == LoadOne(Load(runs, ks[..m], qbits, r), ks[m], qbits, r)
  {
    assert ks[..m + 1][..m] == ks[..m];
  }

  // ---- room -----------------------------------------------------------------------------------

  lemma InsertedLength(items: Run, rem: nat)
    ensures |Encode(Inserted(items, rem))| == |Encode(items)| + 1
  {
    var p := LowerBound(items, rem);
    if items == [] {
      FirstItemCells(rem);
    } else if p < |items| {
      InsertItemCells(items, p, rem);
    } else {
      AppendItemCells(items, rem);
    }
  }

  lemma {:induction false} LoadGrows(runs: seq<Run>, ks: seq<nat>, m: nat, n: nat, qbits: nat, r: nat, q: nat)
    requires |runs| >= Pow2(qbits) && m <= n <= |ks| && q < |runs|
    ensures |Encode(Load(runs, ks[..m], qbits, r)[q])| <= |Encode(Load(runs, ks[..n], qbits, r)[q])|
    decreases n
  {
    hide Load, Inserted, Encode, Remainder, Pow2;
    if m == n {
    } else {
      LoadGrows(runs, ks, m, n - 1, qbits, r, q);
      LoadNext(runs, ks, n - 1, qbits, r);
      InsertedLength(Load(runs, ks[..n - 1], qbits, r)[q], Remainder(ks[n - 1], r));
    }
  }

  /** If the final contents fit below limit, there is room for every key on the way. */
  lemma RoomToLoad(runs: seq<Run>, ks: seq<nat>, m: nat, qbits: nat, r: nat, limit: nat)
    requires |runs| >= Pow2(qbits) && m < |ks| && Fits(Load(runs, ks, qbits, r), limit)
    ensures Room(Encs(Load(runs, ks[..m], qbits, r)), Quotient(ks[m], qbits, r), limit)
  {
    var runs1, runs2, q := Load(runs, ks[..m], qbits, r), Load(runs, ks[..m + 1], qbits, r), Quotient(ks[m], qbits, r);
    LoadNext(runs, ks, m, qbits, r);
    InsertedLength(runs1[q], Remainder(ks[m], r));
    assert ks[..|ks|] == ks;
    forall i | 0 <= i < |runs|
      ensures |Encs(runs2)[i]| <= |Encs(Load(runs, ks, qbits, r))[i]|
    {
      LoadGrows(runs, ks, m + 1, |ks|, qbits, r, i);
    }
    LayoutGrows(Encs(runs2), Encs(Load(runs, ks, qbits, r)), |runs|);
    FitsGivesRoom(runs1, q, runs2[q], limit);
  }

  // ---- nothing is extended or counted while loading -------------------------------------------

  ghost predicate Fresh(runs: seq<Run>) {
    forall q, j | 0 <= q < |runs| && 0 <= j < |runs[q]| :: runs[q][j].ext == [] && runs[q][j].cnt == []
  }

  lemma LoadOneKeepsFresh(runs: seq<Run>, key: nat, qbits: nat, r: nat)
    requires |runs| >= Pow2(qbits) && Fresh(runs)
    ensures Fresh(LoadOne(runs, key, qbits, r))
  {
  }

  // ---- agreement with the reverse map ---------------------------------------------------------

  function IdOf(q: nat, rem: nat, r: nat): nat {
    assert Pow2(r) * q >= 0;
    rem + Pow2(r) * q
  }

  lemma IdOfInjective(q: nat, rem: nat, q': nat, rem': nat, r: nat)
    requires rem < Pow2(r) && rem' < Pow2(r) && IdOf(q, rem, r) == IdOf(q', rem', r)
    ensures q == q' && rem == rem'
  {
    DivModUnique(IdOf(q, rem, r), Pow2(r), q, rem);
    DivModUnique(IdOf(q, rem, r), Pow2(r), q', rem');
  }

  lemma IdOfKey(key: nat, qbits: nat, r: nat)
    ensures Low(key, qbits + r) == IdOf(Quotient(key, qbits, r), Remainder(key, r), r)
  {
    MinirunId(key, qbits, r);
  }

  /** The reverse map's list of every minirun is the list of the keys that own its items, in slot
      order. */
  ghost predicate Listed(lists: map<nat, seq<nat>>, keys: seq<seq<nat>>, qbits: nat, r: nat) {
    |keys| >= Pow2(qbits) &&
    forall q: nat, rem: nat {:trigger WithRem(keys[q], rem, r)} {:trigger IdOf(q, rem, r)} | q < Pow2(qbits)
        && rem < Pow2(r) ::
      ListOf(lists, IdOf(q, rem, r)) == WithRem(keys[q], rem, r)
  }

  /** The keys after one more key was inserted in front of its minirun. */
  ghost function KeysAfter(runs: seq<Run>, keys: seq<seq<nat>>, key: nat, qbits: nat, r: nat): (keys': seq<seq<nat>>)
    requires |runs| == |keys| >= Pow2(qbits) && |keys[Quotient(key, qbits, r)]| == |runs[Quotient(key, qbits, r)]|
    ensures |keys'| == |keys|
  {
    var q := Quotient(key, qbits, r);
    keys[q := InsertKey(keys[q], LowerBound(runs[q], Remainder(key, r)), key)]
  }

  ghost predicate IsKeysAfter(keys': seq<seq<nat>>, runs: seq<Run>, keys: seq<seq<nat>>, key: nat, qbits: nat, r: nat) {
    && |runs| == |keys| >= Pow2(qbits) && |keys[Quotient(key, qbits, r)]| == |runs[Quotient(key, qbits, r)]|
    && keys' == KeysAfter(runs, keys, key, qbits, r)
  }

  lemma OwnedAt(runs: seq<Run>, keys: seq<seq<nat>>, qbits: nat, r: nat, q: nat)
    requires AllOwned(runs, keys, qbits, r) && q < |runs|
    ensures |keys| == |runs| && |keys[q]| == |runs[q]| && Owned(runs[q], keys[q], q, qbits, r)
  {
  }

  lemma LoadOneOwned(runs: seq<Run>, keys: seq<seq<nat>>, key: nat, qbits: nat, r: nat)
    requires AllOwned(runs, keys, qbits, r) && |runs| == |keys| >= Pow2(qbits) && key < Pow2(HASH_BITS)
    requires |keys[Quotient(key, qbits, r)]| == |runs[Quotient(key, qbits, r)]|
    ensures AllOwned(LoadOne(runs, key, qbits, r), KeysAfter(runs, keys, key, qbits, r), qbits, r)
  {
    var q := Quotient(key, qbits, r);
    OwnedAt(runs, keys, qbits, r, q);
    InsertedOwned(runs[q], keys[q], q, qbits, r, key);
    var runs', keys' := LoadOne(runs, key, qbits, r), KeysAfter(runs, keys, key, qbits, r);
    hide Owned, Inserted;
    forall p | 0 <= p < |runs'|
      ensures Owned(runs'[p], keys'[p], p, qbits, r)
    {
      OwnedAt(runs, keys, qbits, r, p);
    }
  }

  /** Keys are 64-bit hashes. */
  ghost predicate AreHashes(ks: seq<nat>) {
    forall i | 0 <= i < |ks| :: ks[i] < Pow2(HASH_BITS)
  }

  /** The owners after loading. */
  ghost function LoadKeys(runs: seq<Run>, keys: seq<seq<nat>>, ks: seq<nat>, qbits: nat, r: nat): (keys': seq<seq<nat>>)
    requires AllOwned(runs, keys, qbits, r) && |runs| >= Pow2(qbits) && AreHashes(ks)
    ensures AllOwned(Load(runs, ks, qbits, r), keys', qbits, r)
  {
    if ks == [] then keys
    else
      var n := |ks| - 1;
      var before, owners := Load(runs, ks[..n], qbits, r), LoadKeys(runs, keys, ks[..n], qbits, r);
      OwnedAt(before, owners, qbits, r, Quotient(ks[n], qbits, r));
      LoadOneOwned(before, owners, ks[n], qbits, r);
      KeysAfter(before, owners, ks[n], qbits, r)
  }

  lemma LoadKeysNext(runs: seq<Run>, keys: seq<seq<nat>>, ks: seq<nat>, m: nat, qbits: nat, r: nat)
    requires AllOwned(runs, keys, qbits, r) && |runs| >= Pow2(qbits) && m < |ks| && AreHashes(ks)
    ensures var before, owners := Load(runs, ks[..m], qbits, r), LoadKeys(runs, keys, ks[..m], qbits, r);
            && |owners| == |before| && |owners[Quotient(ks[m], qbits, r)]| == |before[Quotient(ks[m], qbits, r)]|
            && LoadKeys(runs, keys, ks[..m + 1], qbits, r) == KeysAfter(before, owners, ks[m], qbits, r)
  {
    assert ks[..m + 1][..m] == ks[..m];
    OwnedAt(Load(runs, ks[..m], qbits, r), LoadKeys(runs, keys, ks[..m], qbits, r), qbits, r,
        Quotient(ks[m], qbits, r));
  }

  lemma FieldBounds(key: nat, qbits: nat, r: nat)
    ensures Quotient(key, qbits, r) < Pow2(qbits) && Remainder(key, r) < Pow2(r)
  {
  }

  /** Front insertion in the filter and new-before-old merging in the reverse map keep the two in
      agreement. */
  lemma LoadOneListed(runs: seq<Run>, keys: seq<seq<nat>>, lists: map<nat, seq<nat>>, key: nat, qbits: nat, r: nat,
                      rank: nat)
    requires AllOwned(runs, keys, qbits, r) && |runs| == |keys| && Listed(lists, keys, qbits, r)
    requires |keys[Quotient(key, qbits, r)]| == |runs[Quotient(key, qbits, r)]|
    requires rank == RankBefore(runs[Quotient(key, qbits, r)], Remainder(key, r), |runs[Quotient(key, qbits, r)]|)
    ensures var id := Low(key, qbits + r);
            && (if rank > 0 then ListOf(lists, id) else []) == ListOf(lists, id)
            && Listed(lists[id := [key] + ListOf(lists, id)], KeysAfter(runs, keys, key, qbits, r), qbits, r)
  {
    hide Owned, AllOwned, WithRem, IdOf, Remainder, Quotient, Low, Pow2, RankBefore, LowerBound;
    var q0, rem0 := Quotient(key, qbits, r), Remainder(key, r);
    FieldBounds(key, qbits, r);
    var id := Low(key, qbits + r);
    var lists' := lists[id := [key] + ListOf(lists, id)];
    var keys' := KeysAfter(runs, keys, key, qbits, r);
    IdOfKey(key, qbits, r);
    OwnedAt(runs, keys, qbits, r, q0);
    KeyOfRank(runs[q0], keys[q0], q0, qbits, r, rem0, 0);
    assert ListOf(lists, id) == WithRem(keys[q0], rem0, r);
    forall q: nat, rem: nat | q < Pow2(qbits) && rem < Pow2(r)
      ensures ListOf(lists', IdOf(q, rem, r)) == WithRem(keys'[q], rem, r)
    {
      assert ListOf(lists, IdOf(q, rem, r)) == WithRem(keys[q], rem, r);
      if q == q0 {
        InsertedList(runs[q0], keys[q0], q0, qbits, r, key, rem);
      }
      if IdOf(q, rem, r) == id {
        IdOfInjective(q, rem, q0, rem0, r);
      }
    }
  }

  /** The loaded keys of a minirun, latest first. */
  ghost function WithId(ks: seq<nat>, id: nat, n: nat): seq<nat> {
    if ks == [] then []
    else (if Low(ks[|ks| - 1], n) == id then [ks[|ks| - 1]] else []) + WithId(ks[..|ks| - 1], id, n)
  }

  // ---- the joint invariant of filter and reverse map --------------------------------------------

  /** Every counter fits a byte, so that a stored item never looks absent. */
  ghost predicate CountsFitByte(runs: seq<Run>, r: nat) {
    forall q, j | 0 <= q < |runs| && 0 <= j < |runs[q]| :: ItemCount(runs[q][j], r) < 256
  }

  lemma FreshCountsFit(runs: seq<Run>, r: nat)
    requires Fresh(runs)
    ensures CountsFitByte(runs, r)
  {
  }

  /** While only loading happens, an insert reports the length of the minirun. */
  lemma FreshLooksRight(runs: seq<Run>, q: nat, rem: nat, follows: nat)
    requires Fresh(runs) && q < |runs|
    ensures LooksRight(runs[q], rem, follows, 0)
  {
    PlainLooksRight(runs[q], rem, follows);
  }

  lemma EditKeepsCounts(runs: seq<Run>, q: nat, j: nat, it: Item, r: nat)
    requires CountsFitByte(runs, r) && q < |runs| && j < |runs[q]| && ItemCount(it, r) < 256
    ensures CountsFitByte(WithItem(runs, q, j, it), r)
  {
  }

  /** The lists of the reverse map are the loaded keys of each minirun, latest first. */
  ghost predicate Loaded(lists: map<nat, seq<nat>>, ks: seq<nat>, n: nat) {
    forall id: nat {:trigger ListOf(lists, id)} | id < Pow2(n) :: ListOf(lists, id) == WithId(ks, id, n)
  }

  /** The lists after one more key was loaded. */
  ghost function ListsAfter(lists: map<nat, seq<nat>>, key: nat, n: nat): map<nat, seq<nat>> {
    lists[Low(key, n) := [key] + ListOf(lists, Low(key, n))]
  }

  lemma LoadedNext(lists: map<nat, seq<nat>>, ks: seq<nat>, m: nat, n: nat)
    requires m < |ks| && Loaded(lists, ks[..m], n)
    ensures Loaded(ListsAfter(lists, ks[m], n), ks[..m + 1], n)
  {
    assert ks[..m + 1][..m] == ks[..m];
    forall jd: nat | jd < Pow2(n)
      ensures ListOf(ListsAfter(lists, ks[m], n), jd) == WithId(ks[..m + 1], jd, n)
    {
      assert ListOf(lists, jd) == WithId(ks[..m], jd, n);
    }
  }

  /** The loop invariant of bulkLoad: the first i keys are loaded, and all of them will fit. */
  ghost predicate LoadedSoFar(runs: seq<Run>, keys: seq<seq<nat>>, lists: map<nat, seq<nat>>, runs0: seq<Run>,
                              keys0: seq<seq<nat>>,
                              ks: seq<nat>, i: nat, qbits: nat, r: nat, limit: nat) {
    && |runs0| >= Pow2(qbits) && i <= |ks| && AllOwned(runs0, keys0, qbits, r) && AreHashes(ks)
    && runs == Load(runs0, ks[..i], qbits, r) && keys == LoadKeys(runs0, keys0, ks[..i], qbits, r)
    && Loaded(lists, ks[..i], qbits + r)
    && Fits(Load(runs0, ks, qbits, r), limit)
  }

  lemma LoadStarts(runs: seq<Run>, keys: seq<seq<nat>>, lists: map<nat, seq<nat>>, ks: seq<nat>, qbits: nat, r: nat,
                   limit: nat)
    requires |runs| >= Pow2(qbits) && Loaded(lists, [], qbits + r) && Fits(Load(runs, ks, qbits, r), limit)
    requires AllOwned(runs, keys, qbits, r) && AreHashes(ks)
    ensures LoadedSoFar(runs, keys, lists, runs, keys, ks, 0, qbits, r, limit)
  {
    assert ks[..0] == [];
  }

  lemma LoadTurn(runs: seq<Run>, keys: seq<seq<nat>>, lists: map<nat, seq<nat>>, runs0: seq<Run>, keys0: seq<seq<nat>>,
                 ks: seq<nat>,
                 i: nat, qbits: nat, r: nat, limit: nat)
    requires LoadedSoFar(runs, keys, lists, runs0, keys0, ks, i, qbits, r, limit) && i < |ks|
    ensures |runs| >= Pow2(qbits) && Room(Encs(runs), Quotient(ks[i], qbits, r), limit)
    ensures |keys| == |runs| && |keys[Quotient(ks[i], qbits, r)]| == |runs[Quotient(ks[i], qbits, r)]|
    ensures LoadedSoFar(LoadOne(runs, ks[i], qbits, r), KeysAfter(runs, keys, ks[i], qbits, r),
            ListsAfter(lists, ks[i], qbits + r),
                        runs0, keys0, ks, i + 1, qbits, r, limit)
  {
    hide Fits, Room, Inserted, AllOwned, WithId, Encs;
    RoomToLoad(runs0, ks, i, qbits, r, limit);
    LoadNext(runs0, ks, i, qbits, r);
    LoadKeysNext(runs0, keys0, ks, i, qbits, r);
    LoadedNext(lists, ks, i, qbits + r);
  }

  lemma LoadEnds(runs: seq<Run>, keys: seq<seq<nat>>, lists: map<nat, seq<nat>>, runs0: seq<Run>, keys0: seq<seq<nat>>,
                 ks: seq<nat>,
                 i: nat, qbits: nat, r: nat, limit: nat)
    requires LoadedSoFar(runs, keys, lists, runs0, keys0, ks, i, qbits, r, limit)
    ensures |runs0| >= Pow2(qbits) && i <= |ks| && AllOwned(runs0, keys0, qbits, r) && AreHashes(ks[..i])
    ensures runs == Load(runs0, ks[..i], qbits, r) && Loaded(lists, ks[..i], qbits + r)
    ensures keys == LoadKeys(runs0, keys0, ks[..i], qbits, r)
  {
  }

  lemma {:induction false} LoadedWasInserted(ks: seq<nat>, key: nat, id: nat, n: nat)
    requires key in WithId(ks, id, n)
    ensures key in ks
  {
    if Low(ks[|ks| - 1], n) == id && key == ks[|ks| - 1] {
    } else {
      LoadedWasInserted(ks[..|ks| - 1], key, id, n);
    }
  }

  lemma {:induction false} OwnerIsListed(keys: seq<nat>, key: nat, r: nat)
    requires key in keys
    ensures key in WithRem(keys, Remainder(key, r), r)
  {
    if key == keys[|keys| - 1] {
    } else {
      assert key in keys[..|keys| - 1];
      OwnerIsListed(keys[..|keys| - 1], key, r);
    }
  }

  /** The owners are the loaded keys, and no others. */
  lemma LoadedExactly(lists: map<nat, seq<nat>>, keys: seq<seq<nat>>, ks: seq<nat>, qbits: nat, r: nat, key: nat)
    requires Listed(lists, keys, qbits, r) && Loaded(lists, ks, qbits + r)
    ensures IsOwner(keys, key, qbits, r) <==> key in ks
  {
    var q, rem := Quotient(key, qbits, r), Remainder(key, r);
    IdOfKey(key, qbits, r);
    LowBound(key, qbits + r);
    assert ListOf(lists, IdOf(q, rem, r)) == WithRem(keys[q], rem, r);
    if key in keys[q] {
      OwnerIsListed(keys[q], key, r);
      LoadedWasInserted(ks, key, Low(key, qbits + r), qbits + r);
    }
    if key in ks {
      LoadedKeysAreOwners(lists, keys, ks, qbits, r, key);
    }
  }

  lemma {:induction false} LoadedIsListed(ks: seq<nat>, key: nat, n: nat)
    requires key in ks
    ensures key in WithId(ks, Low(key, n), n)
  {
    if key != ks[|ks| - 1] {
      assert key in ks[..|ks| - 1];
      LoadedIsListed(ks[..|ks| - 1], key, n);
    }
  }

  lemma {:induction false} ListedIsOwner(keys: seq<nat>, rem: nat, r: nat, key: nat)
    requires key in WithRem(keys, rem, r)
    ensures key in keys
  {
    if key in WithRem(keys[..|keys| - 1], rem, r) {
      ListedIsOwner(keys[..|keys| - 1], rem, r, key);
    }
  }

  /** Every loaded key has a fingerprint of its own. */
  lemma LoadedKeysAreOwners(lists: map<nat, seq<nat>>, keys: seq<seq<nat>>, ks: seq<nat>, qbits: nat, r: nat, key: nat)
    requires Listed(lists, keys, qbits, r) && Loaded(lists, ks, qbits + r) && key in ks
    ensures IsOwner(keys, key, qbits, r)
  {
    var q, rem := Quotient(key, qbits, r), Remainder(key, r);
    IdOfKey(key, qbits, r);
    assert ListOf(lists, IdOf(q, rem, r)) == WithRem(keys[q], rem, r);
    LoadedIsListed(ks, key, qbits + r);
    ListedIsOwner(keys[q], rem, r, key);
  }

  /** Filter contents, owners and reverse map belong together. */
  ghost predicate Consistent(runs: seq<Run>, keys: seq<seq<nat>>, lists: map<nat, seq<nat>>, qbits: nat, r: nat) {
    AllOwned(runs, keys, qbits, r) && Listed(lists, keys, qbits, r) && CountsFitByte(runs, r)
  }

  lemma EmptyIsConsistent(runs: seq<Run>, keys: seq<seq<nat>>, qbits: nat, r: nat)
    requires |runs| == |keys| >= Pow2(qbits) && forall q | 0 <= q < |runs| :: runs[q] == [] && keys[q] == []
    ensures Consistent(runs, keys, map[], qbits, r) && Fresh(runs) && Loaded(map[], [], qbits + r)
  {
    hide Pow2;
    assert forall q, rem | 0 <= q < |keys| :: WithRem(keys[q], rem, r) == [];
  }

  /** One loaded key keeps them together. */
  lemma LoadKeepsConsistent(runs: seq<Run>, keys: seq<seq<nat>>, lists: map<nat, seq<nat>>, key: nat, qbits: nat,
                            r: nat)
    returns (keys': seq<seq<nat>>)
    requires |runs| >= Pow2(qbits) && Consistent(runs, keys, lists, qbits, r) && Fresh(runs) && key < Pow2(HASH_BITS)
    ensures var q, id := Quotient(key, qbits, r), Low(key, qbits + r);
            var rank := RankBefore(runs[q], Remainder(key, r), |runs[q]|);
            && Low(id, qbits + r) == id
            && Put(lists, id, rank, key) == ListsAfter(lists, key, qbits + r)
            && IsKeysAfter(keys', runs, keys, key, qbits, r)
            && Consistent(LoadOne(runs, key, qbits, r), keys', Put(lists, id, rank, key), qbits, r)
            && Fresh(LoadOne(runs, key, qbits, r))
  {
    var q := Quotient(key, qbits, r);
    OwnedAt(runs, keys, qbits, r, q);
    LoadOneKeepsFresh(runs, key, qbits, r);
    LoadOneOwned(runs, keys, key, qbits, r);
    LoadOneListed(runs, keys, lists, key, qbits, r, RankBefore(runs[q], Remainder(key, r), |runs[q]|));
    FreshCountsFit(LoadOne(runs, key, qbits, r), r);
    LowLow(key, qbits + r);
    keys' := KeysAfter(runs, keys, key, qbits, r);
  }

  /** What a query reports in a given state. */
  ghost predicate Answers(runs: seq<Run>, qbits: nat, r: nat, key: nat, present: bool, count: nat, rank: nat,
                          index: nat)
    requires |runs| >= Pow2(qbits)
  {
    var q := Quotient(key, qbits, r);
    var m := FirstMatch(runs[q], key, qbits, r, 0);
    && (present <==> m < |runs[q]|)
    && (present ==>
          && count == ItemCount(runs[q][m], r)
          && rank == Byte(RankBefore(runs[q], Remainder(key, r), m))
          && index == ItemPos(runs, q, m))
  }

  /** Counts are positive and fit a byte, so the truncated count still tells presence. */
  lemma CountTellsPresence(runs: seq<Run>, qbits: nat, r: nat, key: nat, count: nat, rank: nat, index: nat)
    requires |runs| >= Pow2(qbits) && CountsFitByte(runs, r)
    requires var q := Quotient(key, qbits, r);
             var m := FirstMatch(runs[q], key, qbits, r, 0);
             if m < |runs[q]| then
               && count == ItemCount(runs[q][m], r) > 0
               && rank == Byte(RankBefore(runs[q], Remainder(key, r), m)) && index == ItemPos(runs, q, m)
             else count == 0
    ensures Answers(runs, qbits, r, key, Byte(count) > 0, Byte(count), rank, index)
    ensures Byte(count) > 0 <==> Accepts(runs, key, qbits, r)
  {
    AcceptsIffFound(runs, key, qbits, r);
  }

  /** The lists after loading are as long as the loaded keys make them. */
  lemma ListsAreShort(lists: map<nat, seq<nat>>, ks: seq<nat>, queries: seq<nat>, n: nat)
    requires Loaded(lists, ks, n) && forall h | h in queries :: |WithId(ks, Low(h, n), n)| <= 256
    ensures forall h | h in queries :: |ListOf(lists, Low(h, n))| <= 256
  {
    hide WithId;
    forall h | h in queries
      ensures |ListOf(lists, Low(h, n))| <= 256
    {
      LowBound(h, n);
      assert ListOf(lists, Low(h, n)) == WithId(ks, Low(h, n), n);
    }
  }

  lemma LowBound(h: nat, n: nat)
    ensures Low(h, n) < Pow2(n)
  {
  }

  /** What the database holds after the keys were inserted into it. */
  function KeySet(ks: seq<nat>): set<nat> {
    set k | k in ks
  }
}
