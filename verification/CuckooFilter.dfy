/** The adaptive cuckoo filter of other_filters/acf/src/cuckoofilter.h with its backing map from table
    locations to keys. */
module CuckooFilter {
  import opened Numbers
  import opened MirroredTable

  const MAX_CUCKOO_COUNT: nat := 500

  datatype Status = Ok | NotFound | NotEnoughSpace

  /** The hash functions of a filter with n buckets: two for the buckets of a key, and sixteen for
      its tags. */
  datatype Hashing = Hashing(n: nat, first: nat -> nat, second: nat -> nat, tag: (nat, nat) -> bv32, width: nat)

  /** GenerateIndexHash */
  function Index(f: Hashing, key: nat): (i: nat)
    requires f.n > 0
    ensures i < f.n
  {
    f.first(key) % f.n
  }

  function Before(f: Hashing, i: nat): (p: nat)
    requires i < f.n
    ensures p < f.n && (f.n > 1 ==> p != i)
  {
    if i > 0 then i - 1 else f.n - 1
  }

  /** GenerateAltIndexHash */
  function AltIndex(f: Hashing, key: nat, first_index: nat): (i: nat)
    requires f.n > 0
    ensures i < f.n
  {
    var index := f.second(key) % f.n;
    if index == first_index then Before(f, index) else index
  }

  /** AltIndexFromKey */
  function AltIndexFromKey(f: Hashing, index: nat, key: nat): (i: nat)
    requires f.n > 0
    ensures i < f.n
  {
    var alt_index := f.second(key) % f.n;
    if alt_index == index then
      var first := f.first(key) % f.n;
      if first == index then Before(f, first) else first
    else alt_index
  }

  /** With more than one bucket, a key has two different buckets and AltIndexFromKey leads from each
      of them to the other. */
  lemma AltIndexSwaps(f: Hashing, key: nat)
    requires f.n > 1
    ensures var i := Index(f, key);
            var a := AltIndex(f, key, i);
            a != i && AltIndexFromKey(f, i, key) == a && AltIndexFromKey(f, a, key) == i
  {
  }

  /** The homes are the buckets of the two hashes, or if these coincide, that bucket and the one before. */
  lemma HomesAre(f: Hashing, key: nat, i: nat)
    requires f.n > 0 && i < f.n
    ensures var a, b := f.first(key) % f.n, f.second(key) % f.n;
            IsHome(f, key, i) <==> i == a || i == if a != b then b else (a + f.n - 1) % f.n
  {
    var a := f.first(key) % f.n;
    if a > 0 {
      DivModUnique(a + f.n - 1, f.n, 1, a - 1);
    } else {
      DivModUnique(f.n - 1, f.n, 0, f.n - 1);
    }
  }

  ghost predicate IsHome(f: Hashing, key: nat, i: nat)
    requires f.n > 0
  {
    i == Index(f, key) || i == AltIndex(f, key, Index(f, key))
  }

  lemma AltIndexIsHome(f: Hashing, key: nat, i: nat)
    requires f.n > 1 && IsHome(f, key, i)
    ensures IsHome(f, key, AltIndexFromKey(f, i, key))
  {
    AltIndexSwaps(f, key);
  }

  // ---- selectors ------------------------------------------------------------------------------

  /** The four-bit selector of a bucket: two share a byte. */
  function SelectorOf(b: bv8, index: nat): bv8 {
    if index % 2 == 1 then b >> 4 else b & 0xf
  }

  /** IncrHashSel (cuckoofilter.h:228-234) on the byte of a bucket. */
  function Incremented(b: bv8, index: nat): bv8 {
    var n0, n1 := b & 0xf, b >> 4;
    if index % 2 == 1 then n0 | (((n1 + 1) & 0xf) << 4) else ((n0 + 1) & 0xf) | (n1 << 4)
  }

  lemma IncrementedByOne(b: bv8, index: nat, other: nat)
    ensures SelectorOf(Incremented(b, index), other)
         == if index % 2 == other % 2 then (SelectorOf(b, other) + 1) & 0xf else SelectorOf(b, other)
  {
  }

  function Selector(sels: seq<bv8>, index: nat): bv8
    requires index < 2 * |sels|
  {
    SelectorOf(sels[index / 2], index)
  }

  /** GenerateTagHash: a tag is never zero. */
  function TagHash(f: Hashing, sels: seq<bv8>, key: nat, index: nat): bv32
    requires index < 2 * |sels| && IsWidth(f.width)
  {
    TagFor(f, Selector(sels, index), key)
  }

  function Masked(x: bv32, w: nat): bv32
    requires IsWidth(w)
  {
    x & Mask(w)
  }

  function TagFor(f: Hashing, sel: bv8, key: nat): bv32
    requires IsWidth(f.width)
  {
    var tag := Masked(f.tag(sel as nat, key), f.width);
    if tag == 0 then 1 else tag
  }

  lemma TagHashFits(f: Hashing, sels: seq<bv8>, key: nat, index: nat)
    requires index < 2 * |sels| && IsWidth(f.width)
    ensures TagHash(f, sels, key, index) != 0 && TagHash(f, sels, key, index) & Mask(f.width) == TagHash(f, sels, key,
            index)
  {
    NonZeroTag(f.tag(Selector(sels, index) as nat, key), f.width);
  }

  lemma NonZeroTag(h: bv32, w: nat)
    requires IsWidth(w)
    ensures (h & Mask(w)) & Mask(w) == h & Mask(w) && 1 & Mask(w) == 1
  {
  }

  // ---- when two keys have the same tag ------------------------------------------------------------

  /** The w low bits of x: the others are shifted out and zeros come back. */
  function LowBits(x: bv32, w: nat): bv32
    requires IsWidth(w)
  {
    if w == 2 then (x << 30) >> 30 else if w == 4 then (x << 28) >> 28 else if w == 8 then (x << 24) >> 24
    else if w == 12 then (x << 20) >> 20 else if w == 16 then (x << 16) >> 16 else x
  }

  function OneForZero(x: bv32): bv32 {
    if x == 0 then 1 else x
  }

  /** The tag hashes of the two keys under this selector have the same low bits, as many as a tag has; 0
      is read as 1. */
  ghost predicate Agree(f: Hashing, sel: bv8, a: nat, b: nat)
    requires IsWidth(f.width)
  {
    OneForZero(LowBits(f.tag(sel as nat, a), f.width)) == OneForZero(LowBits(f.tag(sel as nat, b), f.width))
  }

  lemma MaskIsLow2(x: bv32)
    ensures Masked(x, 2) == LowBits(x, 2)
  {
  }

  lemma MaskIsLow4(x: bv32)
    ensures Masked(x, 4) == LowBits(x, 4)
  {
  }

  lemma MaskIsLow8(x: bv32)
    ensures Masked(x, 8) == LowBits(x, 8)
  {
  }

  lemma MaskIsLow12(x: bv32)
    ensures Masked(x, 12) == LowBits(x, 12)
  {
  }

  lemma MaskIsLow16(x: bv32)
    ensures Masked(x, 16) == LowBits(x, 16)
  {
  }

  lemma MaskIsLow32(x: bv32)
    ensures Masked(x, 32) == LowBits(x, 32)
  {
  }

  lemma MaskIsLow(x: bv32, w: nat)
    requires IsWidth(w)
    ensures Masked(x, w) == LowBits(x, w)
  {
    hide Masked, LowBits;
    MaskIsLow2(x);
    MaskIsLow4(x);
    MaskIsLow8(x);
    MaskIsLow12(x);
    MaskIsLow16(x);
    MaskIsLow32(x);
  }

  lemma TagForMasked(f: Hashing, sel: bv8, key: nat)
    requires IsWidth(f.width)
    ensures TagFor(f, sel, key) == OneForZero(Masked(f.tag(sel as nat, key), f.width))
  {
    hide Mask, Masked;
  }

  /** A tag consists of the low bits of the tag hash; 0 is read as 1. */
  lemma TagForIs(f: Hashing, sel: bv8, key: nat)
    requires IsWidth(f.width)
    ensures TagFor(f, sel, key) == OneForZero(LowBits(f.tag(sel as nat, key), f.width))
  {
    hide Masked, LowBits, TagFor, OneForZero;
    TagForMasked(f, sel, key);
    MaskIsLow(f.tag(sel as nat, key), f.width);
  }

  lemma SameTagIff(f: Hashing, sel: bv8, a: nat, b: nat)
    requires IsWidth(f.width)
    ensures TagFor(f, sel, a) == TagFor(f, sel, b) <==> Agree(f, sel, a, b)
  {
    hide TagFor, LowBits, OneForZero;
    TagForIs(f, sel, a);
    TagForIs(f, sel, b);
  }

  // ---- consistency of table and backing map -----------------------------------------------------

  /** The key of the backing map for place j of bucket i. */
  function Location(f: Hashing, i: nat, j: nat): nat {
    assert j * f.n >= 0;
    i + j * f.n
  }

  lemma LocationInjective(f: Hashing, i: nat, j: nat, k: nat, l: nat)
    requires i < f.n && k < f.n && Location(f, i, j) == Location(f, k, l)
    ensures i == k && j == l
  {
    DivModUnique(Location(f, i, j), f.n, j, i);
    DivModUnique(Location(f, i, j), f.n, l, k);
  }

  /** A place with tag `tag` shows the tag h: it holds it, or, with two-bit tags, at least all its bits. */
  ghost predicate Shows(w: nat, tag: bv32, h: bv32) {
    if w == 2 then h & !tag == 0 else tag == h
  }

  lemma WrittenShows(w: nat, was: bv32, h: bv32)
    ensures Shows(w, Written(w, was, h), h)
  {
  }

  lemma ShownIsNonZero(w: nat, tag: bv32, h: bv32)
    requires Shows(w, tag, h) && h != 0
    ensures tag != 0
  {
  }

  /** A place shows the key's tag under the bucket's current selector, and the key is at home there. */
  ghost predicate PlaceOk(f: Hashing, tag: bv32, sels: seq<bv8>, bm: map<nat, nat>, i: nat, j: nat)
    requires i < f.n == 2 * |sels| && IsWidth(f.width)
  {
    if Location(f, i, j) in bm then
      IsHome(f, bm[Location(f, i, j)], i) && Shows(f.width, tag, TagHash(f, sels, bm[Location(f, i, j)], i))
    else tag == 0
  }

  ghost predicate BucketOk(f: Hashing, tags: seq<bv32>, sels: seq<bv8>, bm: map<nat, nat>, i: nat)
    requires i < f.n == 2 * |sels| && IsWidth(f.width)
  {
    |tags| == 4 && forall j {:trigger tags[j]} | 0 <= j < 4 :: PlaceOk(f, tags[j], sels, bm, i, j)
  }

  ghost predicate TableOk(f: Hashing, tags: seq<seq<bv32>>, sels: seq<bv8>, bm: map<nat, nat>) {
    && f.n > 1 && f.n == 2 * |sels| == |tags| && IsWidth(f.width)
    && (forall i {:trigger tags[i]} | 0 <= i < |tags| :: BucketOk(f, tags[i], sels, bm, i))
    && (forall l | l in bm :: exists i: nat, j: nat :: i < f.n && j < 4 && l == Location(f, i, j))
  }

  /** Putting a key at one of its homes, in a free place or over another key. */
  lemma KeyPlaced(f: Hashing, tags: seq<seq<bv32>>, sels: seq<bv8>, bm: map<nat, nat>, i: nat, j: nat, key: nat)
    requires TableOk(f, tags, sels, bm) && i < f.n && j < 4 && |tags[i]| == 4 && IsHome(f, key, i)
    ensures TableOk(f, tags[i := tags[i][j := Written(f.width, tags[i][j], TagHash(f, sels, key, i))]], sels,
            bm[Location(f, i, j) := key])
    ensures tags[i][j] != 0 <==> Location(f, i, j) in bm
  {
    hide Location, TagHash, IsHome, Shows, Written;
    var bm' := bm[Location(f, i, j) := key];
    var tags' := tags[i := tags[i][j := Written(f.width, tags[i][j], TagHash(f, sels, key, i))]];
    WrittenShows(f.width, tags[i][j], TagHash(f, sels, key, i));
    forall k | 0 <= k < |tags'|
      ensures BucketOk(f, tags'[k], sels, bm', k)
    {
      assert BucketOk(f, tags[k], sels, bm, k);
      forall l | 0 <= l < 4
        ensures PlaceOk(f, tags'[k][l], sels, bm', k, l)
      {
        assert PlaceOk(f, tags[k][l], sels, bm, k, l);
        if Location(f, k, l) == Location(f, i, j) {
          LocationInjective(f, k, l, i, j);
        }
      }
    }
    assert BucketOk(f, tags[i], sels, bm, i);
    assert PlaceOk(f, tags[i][j], sels, bm, i, j);
    NonZeroPlace(f, tags[i][j], sels, bm, i, j);
  }

  lemma NonZeroPlace(f: Hashing, tag: bv32, sels: seq<bv8>, bm: map<nat, nat>, i: nat, j: nat)
    requires i < f.n == 2 * |sels| && IsWidth(f.width) && PlaceOk(f, tag, sels, bm, i, j)
    ensures tag != 0 <==> Location(f, i, j) in bm
  {
    hide Shows, Mask;
    if Location(f, i, j) in bm {
      TagHashFits(f, sels, bm[Location(f, i, j)], i);
      ShownIsNonZero(f.width, tag, TagHash(f, sels, bm[Location(f, i, j)], i));
    }
  }

  /** Unless tags have two bits, a stored key's tag is in one of its two buckets. */
  lemma StoredIsFound(f: Hashing, tags: seq<seq<bv32>>, sels: seq<bv8>, bm: map<nat, nat>, key: nat)
    requires TableOk(f, tags, sels, bm) && key in bm.Values && f.width != 2
    ensures exists i :: 0 <= i < f.n && IsHome(f, key, i) && TagHash(f, sels, key, i) in tags[i]
  {
    hide Location, TagHash, IsHome;
    var l :| l in bm && bm[l] == key;
    var i: nat, j: nat :| i < f.n && j < 4 && l == Location(f, i, j);
    assert BucketOk(f, tags[i], sels, bm, i);
    assert PlaceOk(f, tags[i][j], sels, bm, i, j);
    assert TagHash(f, sels, key, i) in tags[i];
  }

  /** The values of a map after one of its entries was set: what was there before comes out. */
  lemma ValuesAfter(bm: map<nat, nat>, l: nat, key: nat)
    ensures bm[l := key].Values + (if l in bm then {bm[l]} else {}) == bm.Values + {key}
  {
    var bm' := bm[l := key];
    var out := if l in bm then {bm[l]} else {};
    forall v | v in bm.Values + {key}
      ensures v in bm'.Values + out
    {
      if v == key {
        assert bm'[l] == key;
      } else {
        var k :| k in bm && bm[k] == v;
        if k != l {
          assert bm'[k] == v;
        }
      }
    }
    forall v | v in bm'.Values
      ensures v in bm.Values + {key}
    {
    }
  }

  lemma SizeAfter(bm: map<nat, nat>, l: nat, key: nat)
    ensures |bm[l := key]| == |bm| + if l in bm then 0 else 1
  {
    assert bm[l := key].Keys == bm.Keys + {l};
    assert |bm[l := key].Keys| == |bm[l := key]|;
    assert |bm.Keys| == |bm|;
  }

  lemma EntrySet(bm: map<nat, nat>, l: nat, key: nat)
    ensures l !in bm ==> |bm[l := key]| == |bm| + 1 && bm[l := key].Values == bm.Values + {key}
    ensures l in bm ==> |bm[l := key]| == |bm| && bm[l := key].Values + {bm[l]} == bm.Values + {key}
  {
    ValuesAfter(bm, l, key);
    SizeAfter(bm, l, key);
  }

  // ---- the kick chain -------------------------------------------------------------------------------

  /** One placement of the chain: the key is put in this place of the bucket. */
  datatype Stop = Stop(bucket: nat, place: nat, key: nat)

  /** All four places of the bucket are taken. */
  ghost predicate IsFull(f: Hashing, bm: map<nat, nat>, i: nat) {
    && Location(f, i, 0) in bm && Location(f, i, 1) in bm && Location(f, i, 2) in bm && Location(f, i, 3) in bm
  }

  /** The backing map after the first n placements. */
  ghost function MapAfter(f: Hashing, bm: map<nat, nat>, stops: seq<Stop>, n: nat): map<nat, nat>
    requires n <= |stops|
  {
    if n == 0 then bm
    else MapAfter(f, bm, stops, n - 1)[Location(f, stops[n - 1].bucket, stops[n - 1].place) := stops[n - 1].key]
  }

  /** A stop follows another one: the key that had to leave there goes to its other bucket. */
  ghost predicate Follows(f: Hashing, bm: map<nat, nat>, stop: Stop, key: nat, bucket: nat)
    requires f.n > 0
  {
    var l := Location(f, stop.bucket, stop.place);
    l in bm && key == bm[l] && bucket == AltIndexFromKey(f, stop.bucket, key)
  }

  /** A chain of placements from the given key and bucket on. Each but the last was in a full bucket. */
  ghost predicate IsChain(f: Hashing, bm: map<nat, nat>, index: nat, key: nat, stops: seq<Stop>) {
    && f.n > 0 && (stops != [] ==> stops[0].bucket == index && stops[0].key == key)
    && (forall i | 0 <= i < |stops| :: stops[i].bucket < f.n && stops[i].place < 4)
    && (forall i | 0 <= i < |stops| - 1 :: IsFull(f, bm, stops[i].bucket))
    && (forall i {:trigger stops[i]} | 1 <= i < |stops| ::
          Follows(f, MapAfter(f, bm, stops, i - 1), stops[i - 1], stops[i].key, stops[i].bucket))
  }

  /** How a chain ends: in the first bucket that is not full, or after 500 full ones with a key in hand. */
  ghost predicate ChainEnds(f: Hashing, bm: map<nat, nat>, bm': map<nat, nat>, index: nat, key: nat, stops: seq<Stop>,
                            inserted: bool, curindex: nat, curkey: nat)
  {
    && IsChain(f, bm, index, key, stops) && 1 <= |stops| <= 500 && bm' == MapAfter(f, bm, stops, |stops|)
    && var last := stops[|stops| - 1];
       && (inserted <==> !IsFull(f, bm, last.bucket))
       && (inserted ==> Location(f, last.bucket, last.place) !in bm)
       && (!inserted ==> |stops| == 500 && Follows(f, MapAfter(f, bm, stops, 499), last, curkey, curindex))
  }

  /** On the way no place is taken or becomes free. */
  ghost predicate OnTheWay(f: Hashing, bm: map<nat, nat>, bm': map<nat, nat>, index: nat, key: nat, stops: seq<Stop>,
                           curindex: nat, curkey: nat)
  {
    && IsChain(f, bm, index, key, stops) && bm' == MapAfter(f, bm, stops, |stops|) && bm'.Keys == bm.Keys
    && (forall i | 0 <= i < |stops| :: IsFull(f, bm, stops[i].bucket))
    && (if stops == [] then curindex == index && curkey == key
        else Follows(f, MapAfter(f, bm, stops, |stops| - 1), stops[|stops| - 1], curkey, curindex))
  }

  lemma {:induction false} MapAfterPrefix(f: Hashing, bm: map<nat, nat>, stops: seq<Stop>, more: seq<Stop>, n: nat)
    requires n <= |stops|
    ensures MapAfter(f, bm, stops + more, n) == MapAfter(f, bm, stops, n)
  {
    hide Location;
    if n == 0 {
    } else {
      MapAfterPrefix(f, bm, stops, more, n - 1);
      assert (stops + more)[n - 1] == stops[n - 1];
    }
  }

  lemma FullIsSame(f: Hashing, bm: map<nat, nat>, bm': map<nat, nat>, i: nat)
    requires bm.Keys == bm'.Keys
    ensures IsFull(f, bm, i) <==> IsFull(f, bm', i)
  {
    hide Location;
    SameKeys(bm, bm', Location(f, i, 0));
    SameKeys(bm, bm', Location(f, i, 1));
    SameKeys(bm, bm', Location(f, i, 2));
    SameKeys(bm, bm', Location(f, i, 3));
  }

  /** One more placement. */
  lemma OneMoreStop(f: Hashing, bm: map<nat, nat>, now: map<nat, nat>, index: nat, key: nat, stops: seq<Stop>, stop: Stop)
    requires OnTheWay(f, bm, now, index, key, stops, stop.bucket, stop.key) && stop.bucket < f.n && stop.place < 4
    ensures var l, stops' := Location(f, stop.bucket, stop.place), stops + [stop];
            && IsChain(f, bm, index, key, stops') && MapAfter(f, bm, stops', |stops'|) == now[l := stop.key]
            && MapAfter(f, bm, stops', |stops|) == now && (IsFull(f, now, stop.bucket) <==> IsFull(f, bm, stop.bucket))
            && (l in now <==> l in bm)
  {
    hide Location, IsFull, Follows, MapAfter;
    var stops' := stops + [stop];
    FullIsSame(f, bm, now, stop.bucket);
    MapAfterPrefix(f, bm, stops, [stop], |stops|);
    MapAfterLast(f, bm, stops');
    StopFollows(f, bm, now, index, key, stops, stop);
    SameKeys(bm, now, Location(f, stop.bucket, stop.place));
  }

  lemma StopFollows(f: Hashing, bm: map<nat, nat>, now: map<nat, nat>, index: nat, key: nat, stops: seq<Stop>, stop: Stop)
    requires OnTheWay(f, bm, now, index, key, stops, stop.bucket, stop.key)
    ensures var stops' := stops + [stop];
            forall i {:trigger stops'[i]} | 1 <= i < |stops'| ::
              Follows(f, MapAfter(f, bm, stops', i - 1), stops'[i - 1], stops'[i].key, stops'[i].bucket)
  {
    hide Location, IsFull, Follows, MapAfter;
    var stops' := stops + [stop];
    forall i | 1 <= i < |stops'|
      ensures Follows(f, MapAfter(f, bm, stops', i - 1), stops'[i - 1], stops'[i].key, stops'[i].bucket)
    {
      MapAfterPrefix(f, bm, stops, [stop], i - 1);
      assert stops'[i - 1] == stops[i - 1];
      if i < |stops| {
        assert stops'[i] == stops[i];
      }
    }
  }

  lemma MapAfterLast(f: Hashing, bm: map<nat, nat>, stops: seq<Stop>)
    requires stops != []
    ensures var n := |stops|;
            MapAfter(f, bm, stops, n)
            == MapAfter(f, bm, stops, n - 1)[Location(f, stops[n - 1].bucket, stops[n - 1].place) := stops[n - 1].key]
  {
  }

  lemma SameKeys(bm: map<nat, nat>, bm': map<nat, nat>, l: nat)
    requires bm.Keys == bm'.Keys
    ensures l in bm <==> l in bm'
  {
    assert l in bm <==> l in bm.Keys;
  }

  lemma WayGoesOn(f: Hashing, bm: map<nat, nat>, now: map<nat, nat>, index: nat, key: nat, stops: seq<Stop>, stop: Stop,
                  out: nat)
    requires OnTheWay(f, bm, now, index, key, stops, stop.bucket, stop.key) && stop.bucket < f.n && stop.place < 4
    requires IsFull(f, now, stop.bucket) && Location(f, stop.bucket, stop.place) in now
    requires out == now[Location(f, stop.bucket, stop.place)]
    ensures OnTheWay(f, bm, now[Location(f, stop.bucket, stop.place) := stop.key], index, key, stops + [stop],
                     AltIndexFromKey(f, stop.bucket, out), out)
  {
    hide Location, IsFull, MapAfter, IsChain, AltIndexFromKey;
    OneMoreStop(f, bm, now, index, key, stops, stop);
    assert (stops + [stop])[|stops|] == stop;
  }

  lemma WayEnds(f: Hashing, bm: map<nat, nat>, now: map<nat, nat>, index: nat, key: nat, stops: seq<Stop>, stop: Stop)
    requires OnTheWay(f, bm, now, index, key, stops, stop.bucket, stop.key) && stop.bucket < f.n && stop.place < 4
    requires !IsFull(f, now, stop.bucket) && Location(f, stop.bucket, stop.place) !in now && |stops| < 500
    ensures ChainEnds(f, bm, now[Location(f, stop.bucket, stop.place) := stop.key], index, key, stops + [stop], true,
                      stop.bucket, stop.key)
  {
    hide Location, IsFull, MapAfter, IsChain;
    OneMoreStop(f, bm, now, index, key, stops, stop);
  }

  lemma WayStops(f: Hashing, bm: map<nat, nat>, now: map<nat, nat>, index: nat, key: nat, stops: seq<Stop>,
                 curindex: nat, curkey: nat)
    requires OnTheWay(f, bm, now, index, key, stops, curindex, curkey) && |stops| == 500
    ensures ChainEnds(f, bm, now, index, key, stops, false, curindex, curkey)
  {
    hide Location, IsFull, MapAfter, IsChain;
  }

  /** If every bucket but the key's first one has a free place, no key is left in hand. */
  lemma SecondBucketIsFree(f: Hashing, tags: seq<seq<bv32>>, sels: seq<bv8>, bm: map<nat, nat>, bm': map<nat, nat>, key: nat,
                           stops: seq<Stop>, inserted: bool, curindex: nat, curkey: nat)
    requires TableOk(f, tags, sels, bm) && ChainEnds(f, bm, bm', Index(f, key), key, stops, inserted, curindex, curkey)
    requires forall i | 0 <= i < f.n && i != Index(f, key) :: !IsFull(f, bm, i)
    ensures inserted && |stops| <= 2
  {
    hide Location, IsHome, TagHash, MapAfter, IsFull, AltIndexFromKey, Index;
    if |stops| > 1 {
      assert IsChain(f, bm, Index(f, key), key, stops);
      assert IsFull(f, bm, stops[0].bucket);
      assert Follows(f, MapAfter(f, bm, stops, 0), stops[0], stops[1].key, stops[1].bucket);
      NothingPlaced(f, bm, stops);
      StoredIsHome(f, tags, sels, bm, stops[0].bucket, stops[0].place);
      OtherBucket(f, stops[1].key, stops[0].bucket);
      assert !IsFull(f, bm, stops[1].bucket);
    }
  }

  lemma NothingPlaced(f: Hashing, bm: map<nat, nat>, stops: seq<Stop>)
    ensures MapAfter(f, bm, stops, 0) == bm
  {
  }

  lemma OtherBucket(f: Hashing, key: nat, i: nat)
    requires f.n > 1 && i < f.n && IsHome(f, key, i)
    ensures AltIndexFromKey(f, i, key) != i
  {
    AltIndexSwaps(f, key);
  }

  /** The parked key, if any, waits at one of its homes with its tag. */
  ghost predicate VictimOk(f: Hashing, sels: seq<bv8>, used: bool, key: nat, index: nat, tag: bv32)
    requires f.n == 2 * |sels| && IsWidth(f.width)
  {
    used ==> index < f.n && IsHome(f, key, index) && tag == TagHash(f, sels, key, index)
  }

  /** Bucket i, or the parked place if that waits there, has the key's tag. */
  ghost predicate HasTag(f: Hashing, tags: seq<seq<bv32>>, sels: seq<bv8>, used: bool, index: nat, tag: bv32, key: nat,
                         i: nat)
    requires i < f.n == 2 * |sels| == |tags| && IsWidth(f.width)
  {
    var t := TagHash(f, sels, key, i);
    t in tags[i] || (used && index == i && tag == t)
  }

  /** One of the key's two buckets, or the parked place, has the key's tag. */
  ghost predicate IsReported(f: Hashing, tags: seq<seq<bv32>>, sels: seq<bv8>, used: bool, index: nat, tag: bv32,
                             key: nat)
    requires f.n == 2 * |sels| == |tags| && IsWidth(f.width)
  {
    exists i: nat :: i < f.n && IsHome(f, key, i) && HasTag(f, tags, sels, used, index, tag, key, i)
  }

  /** Some key that is mapped in bucket i, or the one that is parked there, agrees with the key. */
  ghost predicate MeetsSameTag(f: Hashing, sels: seq<bv8>, bm: map<nat, nat>, used: bool, index: nat, parked: nat,
                               key: nat, i: nat)
    requires i < f.n == 2 * |sels| && IsWidth(f.width)
  {
    || (exists j: nat {:trigger Location(f, i, j)} ::
          j < 4 && Location(f, i, j) in bm && Agree(f, Selector(sels, i), bm[Location(f, i, j)], key))
    || (used && index == i && Agree(f, Selector(sels, i), parked, key))
  }

  /** Unless tags have two bits, the bucket reports a key exactly for that reason. */
  lemma HasTagIff(f: Hashing, tags: seq<seq<bv32>>, sels: seq<bv8>, bm: map<nat, nat>, used: bool, parked: nat, index: nat,
                  tag: bv32, key: nat, i: nat)
    requires TableOk(f, tags, sels, bm) && VictimOk(f, sels, used, parked, index, tag) && i < f.n && f.width != 2
    ensures HasTag(f, tags, sels, used, index, tag, key, i) <==> MeetsSameTag(f, sels, bm, used, index, parked, key, i)
  {
    hide Location, IsHome, Agree, TagFor, Mask, Selector;
    assert BucketOk(f, tags[i], sels, bm, i);
    TagHashFits(f, sels, key, i);
    SameTagIff(f, Selector(sels, i), parked, key);
    forall j: nat | j < 4
      ensures tags[i][j] == TagHash(f, sels, key, i) <==>
              Location(f, i, j) in bm && Agree(f, Selector(sels, i), bm[Location(f, i, j)], key)
    {
      assert PlaceOk(f, tags[i][j], sels, bm, i, j);
      if Location(f, i, j) in bm {
        SameTagIff(f, Selector(sels, i), bm[Location(f, i, j)], key);
      }
    }
  }

  class CuckooFilter {
    const f: Hashing
    const table: MirroredTable
    const hash_sels: array<bv8>
    var backing_map: map<nat, nat>
    var num_items: nat
    var victim_index: nat
    var victim_tag: bv32
    var victim_used: bool
    /** The parked key, if there is one. */
    ghost var victim_key: nat

    /** An empty filter. The selectors are not initialised, so they may be anything. */
    constructor (f: Hashing, selectors: array<bv8>)
      requires f.n > 1 && f.n == 2 * selectors.Length && IsWidth(f.width)
      ensures Valid() && Keys() == {} && this.f == f && fresh(table.buckets)
    {
      this.f := f;
      this.table := new MirroredTable(f.width, f.n);
      this.hash_sels := selectors;
      this.backing_map, this.num_items, this.victim_used := map[], 0, false;
      this.victim_index, this.victim_tag := 0, 0;
    }

    ghost predicate Valid()
      reads this, table.buckets, hash_sels
    {
      && table.Valid() && table.width == f.width && table.buckets.Length == f.n
      && TableOk(f, table.Tags(), hash_sels[..], backing_map)
      && num_items == |backing_map|
      && VictimOk(f, hash_sels[..], victim_used, victim_key, victim_index, victim_tag)
    }

    /** All keys in the table, and the parked one. */
    ghost function Keys(): set<nat>
      reads this
    {
      backing_map.Values + if victim_used then {victim_key} else {}
    }

    /** One kick or the final insertion of AddUsingBackingMap: the key is put in its bucket, and the key
        that had to leave, if any, comes out. */
    method Place(curindex: nat, curkey: nat) returns (inserted: bool, nextkey: nat, j: nat)
      requires Valid() && curindex < f.n && IsHome(f, curkey, curindex) && !victim_used
      modifies table.buckets, this`backing_map, this`num_items
      ensures Valid() && j < 4
      ensures backing_map == old(backing_map)[Location(f, curindex, j) := curkey]
      ensures (inserted <==> Location(f, curindex, j) !in old(backing_map)) &&
              (inserted <==> !IsFull(f, old(backing_map), curindex))
      ensures inserted ==> backing_map.Values == old(backing_map.Values) + {curkey} && num_items == old(num_items) + 1
      ensures !inserted ==> backing_map.Values + {nextkey} == old(backing_map.Values) + {curkey} && num_items == old(num_items) &&
                            IsHome(f, nextkey, curindex) && nextkey == old(backing_map)[Location(f, curindex, j)]
    {
      hide TableOk, TagHash, IsHome, Location, Mask, Index, AltIndex, IsBucket, AllTags, TagsOf, Written, VictimOk, IsFull;
      HasBuckets();
      ghost var tags, sels := table.Tags(), hash_sels[..];
      var free;
      free, j := WriteTagOf(curkey, curindex);
      var location := Location(f, curindex, j);
      KeyPlaced(f, tags, sels, backing_map, curindex, j, curkey);
      FullMeansNoZero(f, tags, sels, backing_map, curindex);
      EntrySet(backing_map, location, curkey);
      if free {
        backing_map := backing_map[location := curkey];
        num_items := num_items + 1;
        return true, curkey, j;
      }
      nextkey := backing_map[location];
      StoredIsHome(f, tags, sels, backing_map, curindex, j);
      backing_map := backing_map[location := curkey];
      return false, nextkey, j;
    }

    /** The key's tag goes to a free place of the bucket, if there is one, or over a random tag. */
    method WriteTagOf(key: nat, i: nat) returns (free: bool, j: nat)
      requires Valid() && i < f.n
      modifies table.buckets
      ensures table.Valid() && j < 4 && (free <==> old(table.Tags())[i][j] == 0) && (free <==> 0 in old(table.Tags())[i])
      ensures table.Tags() ==
              old(table.Tags())[i := old(table.Tags())[i][j := Written(f.width, old(table.Tags())[i][j],
                  TagHash(f, hash_sels[..], key, i))]]
    {
      hide TableOk, TagHash, Mask, IsBucket, AllTags, TagsOf, Written, VictimOk;
      HasBuckets();
      TagHashFits(f, hash_sels[..], key, i);
      var random: nat := *;
      var insert_index := table.InsertTagToBucket(i, TagHash(f, hash_sels[..], key, i), random);
      free := insert_index > 0;
      j := if free then insert_index - 1 else -insert_index - 1;
    }

    /** AddUsingBackingMap (cuckoofilter.h:360-424). Every key stays stored; the one that is in hand
        when the kicks run out is parked, which takes 500 full buckets in a row. */
    method AddUsingBackingMap(key: nat) returns (status: Status, ghost stops: seq<Stop>)
      requires Valid()
      modifies table.buckets, this
      ensures Valid()
      ensures status == if old(victim_used) then NotEnoughSpace else Ok
      ensures status != Ok ==> backing_map == old(backing_map) && table.Tags() == old(table.Tags()) && victim_used
      ensures Keys() == old(Keys()) + if status == Ok then {key} else {}
      ensures num_items == old(num_items) + if status == Ok && !victim_used then 1 else 0
      ensures status == Ok ==>
                ChainEnds(f, old(backing_map), backing_map, Index(f, key), key, stops, !victim_used, victim_index, victim_key)
      ensures status == Ok && (forall i | 0 <= i < f.n && i != Index(f, key) :: !IsFull(f, old(backing_map), i)) ==>
                !victim_used && |stops| <= 2
    {
      hide TableOk, TagHash, IsHome, Location, Mask, Index, AltIndexFromKey, IsBucket, AllTags, VictimOk, ChainEnds, IsFull;
      stops := [];
      if victim_used {
        NothingAdded(Keys());
        return NotEnoughSpace, stops;
      }
      ghost var stored, bm, tags, sels := backing_map.Values, backing_map, table.Tags(), hash_sels[..];
      NothingAdded(stored);
      HasBuckets();
      FirstIsHome(f, key);
      var inserted, curindex, curkey;
      inserted, curindex, curkey, stops := Kick(Index(f, key), key);
      NothingAdded(backing_map.Values);
      if forall i | 0 <= i < f.n && i != Index(f, key) :: !IsFull(f, bm, i) {
        SecondBucketIsFree(f, tags, sels, bm, backing_map, key, stops, inserted, curindex, curkey);
      }
      if inserted {
        AnyHand(f, bm, backing_map, Index(f, key), key, stops, curindex, curkey, victim_index, victim_key);
      } else {
        Park(curindex, curkey);
      }
      return Ok, stops;
    }

    /** The key in hand goes to the victim place. */
    method Park(curindex: nat, curkey: nat)
      requires Valid() && !victim_used && curindex < f.n && IsHome(f, curkey, curindex)
      modifies this`victim_index, this`victim_tag, this`victim_used, this`victim_key
      ensures Valid() && victim_used && victim_key == curkey && victim_index == curindex
    {
      hide TableOk, TagHash, IsHome, Location, Mask, Index, AltIndexFromKey;
      HasBuckets();
      victim_index, victim_tag, victim_used, victim_key := curindex, TagHash(f, hash_sels[..], curkey, curindex), true,
          curkey;
    }

    /** The kick chain: at most 500 placements, each but the last displacing a key to its other bucket. */
    method Kick(index: nat, key: nat) returns (inserted: bool, curindex: nat, curkey: nat, ghost stops: seq<Stop>)
      requires Valid() && !victim_used && index < f.n && IsHome(f, key, index)
      modifies table.buckets, this`backing_map, this`num_items
      ensures Valid() && curindex < f.n && IsHome(f, curkey, curindex)
      ensures backing_map.Values + (if inserted then {} else {curkey}) == old(backing_map.Values) + {key}
      ensures num_items == old(num_items) + if inserted then 1 else 0
      ensures ChainEnds(f, old(backing_map), backing_map, index, key, stops, inserted, curindex, curkey)
    {
      hide TableOk, TagHash, IsHome, Location, Mask, Index, AltIndexFromKey, IsBucket, AllTags, VictimOk, OnTheWay, ChainEnds,
           IsFull;
      HasBuckets();
      ghost var bm := backing_map;
      curindex, curkey, inserted, stops := index, key, false, [];
      WayStarts(f, bm, index, key);
      var count := 0;
      while count < MAX_CUCKOO_COUNT && !inserted
        invariant Valid() && curindex < f.n && IsHome(f, curkey, curindex)
        invariant backing_map.Values + (if inserted then {} else {curkey}) == old(backing_map.Values) + {key}
        invariant num_items == old(num_items) + if inserted then 1 else 0
        invariant |stops| == count <= 500
        invariant if inserted then ChainEnds(f, bm, backing_map, index, key, stops, true, curindex, curkey)
                  else OnTheWay(f, bm, backing_map, index, key, stops, curindex, curkey)
        decreases MAX_CUCKOO_COUNT - count
      {
        ghost var now := backing_map;
        var nextkey, j;
        inserted, nextkey, j := Place(curindex, curkey);
        ghost var stop := Stop(curindex, j, curkey);
        if !inserted {
          WayGoesOn(f, bm, now, index, key, stops, stop, nextkey);
          curkey := nextkey;
          AltIndexIsHome(f, curkey, curindex);
          curindex := AltIndexFromKey(f, curindex, curkey);
        } else {
          WayEnds(f, bm, now, index, key, stops, stop);
        }
        stops := stops + [stop];
        count := count + 1;
      }
      if !inserted {
        WayStops(f, bm, backing_map, index, key, stops, curindex, curkey);
      }
    }

    lemma HasBuckets()
      requires Valid()
      ensures f.n > 1 && f.n == 2 * hash_sels.Length && IsWidth(f.width)
    {
    }

    /** Contain (cuckoofilter.h:538-559): unless tags have two bits, no key that is stored or parked is ever
        missed. */
    method Contain(key: nat) returns (status: Status)
      requires Valid()
      ensures f.width != 2 && key in Keys() ==> status == Ok
      ensures status == if Reported(key) then Ok else NotFound
      ensures f.width != 2 ==> (status == Ok <==> Collides(key))
    {
      hide TagHash, TableOk, Location, Mask, Index, AltIndex, AltIndexFromKey, IsHome, IsBucket, AllTags, VictimOk,
           TagsOf, MeetsSameTag;
      HasBuckets();
      var i1 := Index(f, key);
      var tag1 := TagHash(f, hash_sels[..], key, i1);
      var i2 := AltIndex(f, key, i1);
      var tag2 := TagHash(f, hash_sels[..], key, i2);
      AltIndexSwaps(f, key);
      assert i1 == AltIndexFromKey(f, i2, key);
      ReportedIs(key);
      KeysAreReported(key);
      ReportedIffCollides(key);
      var found := victim_used && ((tag1 == victim_tag && i1 == victim_index) || (tag2 == victim_tag
          && i2 == victim_index));
      var found1 := FindTagOf(key, i1);
      var found2 := FindTagOf(key, i2);
      return if found || found1 || found2 then Ok else NotFound;
    }

    method FindTagOf(key: nat, i: nat) returns (found: bool)
      requires Valid() && i < f.n
      ensures found <==> TagHash(f, hash_sels[..], key, i) in table.Tags()[i]
    {
      hide TagHash, TableOk, Mask, IsBucket, AllTags, VictimOk, TagsOf;
      HasBuckets();
      TagHashFits(f, hash_sels[..], key, i);
      found := table.FindTagInBucket(i, TagHash(f, hash_sels[..], key, i));
    }

    lemma ReportedIs(key: nat)
      requires Valid() && f.n > 0
      ensures Reported(key) <==> HasTagOf(key, Index(f, key)) || HasTagOf(key, AltIndex(f, key, Index(f, key)))
    {
      hide TagHash, TableOk;
      BothHomes(f, key);
    }

    lemma KeysAreReported(key: nat)
      requires Valid()
      ensures f.width != 2 && key in Keys() ==> Reported(key)
    {
      hide TagHash, IsHome;
      if f.width != 2 && key in backing_map.Values {
        StoredIsFound(f, table.Tags(), hash_sels[..], backing_map, key);
        var i: nat :| i < f.n && IsHome(f, key, i) && TagHash(f, hash_sels[..], key, i) in table.Tags()[i];
        assert HasTagOf(key, i);
      } else if victim_used && key == victim_key {
        assert HasTagOf(key, victim_index);
      }
    }

    ghost predicate Reported(key: nat)
      requires Valid()
      reads this, table.buckets, hash_sels
    {
      IsReported(f, table.Tags(), hash_sels[..], victim_used, victim_index, victim_tag, key)
    }

    /** In one of the key's two buckets, a key mapped there or parked there agrees with it. */
    ghost predicate Collides(key: nat)
      requires Valid()
      reads this, table.buckets, hash_sels
    {
      exists i: nat {:trigger IsHome(f, key, i)} ::
        i < f.n && IsHome(f, key, i) &&
        MeetsSameTag(f, hash_sels[..], backing_map, victim_used, victim_index, victim_key, key, i)
    }

    lemma ReportedIffCollides(key: nat)
      requires Valid()
      ensures f.width != 2 ==> (Reported(key) <==> Collides(key))
    {
      hide TableOk, VictimOk, IsHome, HasTag, MeetsSameTag, AllTags, IsBucket;
      HasBuckets();
      if f.width != 2 {
        forall i: nat | i < f.n
          ensures HasTag(f, table.Tags(), hash_sels[..], victim_used, victim_index, victim_tag, key, i) <==>
                  MeetsSameTag(f, hash_sels[..], backing_map, victim_used, victim_index, victim_key, key, i)
        {
          HasTagIff(f, table.Tags(), hash_sels[..], backing_map, victim_used, victim_key, victim_index, victim_tag, key, i);
        }
      }
    }

    ghost predicate HasTagOf(key: nat, i: nat)
      requires Valid() && i < f.n
      reads this, table.buckets, hash_sels
    {
      HasTag(f, table.Tags(), hash_sels[..], victim_used, victim_index, victim_tag, key, i)
    }

    /** The parked place reports the key. */
    ghost predicate ParkedReports(key: nat)
      requires Valid()
      reads this, table.buckets, hash_sels
    {
      var i1 := Index(f, key);
      var i2 := AltIndex(f, key, i1);
      victim_used && ((TagHash(f, hash_sels[..], key, i1) == victim_tag && i1 == victim_index) ||
                      (TagHash(f, hash_sels[..], key, i2) == victim_tag && i2 == victim_index))
    }

    /** Adapt (cuckoofilter.h:465-508): unless the parked place reports the key, the selector of the first
        bucket that does moves on, and all its tags are recomputed from the keys in the backing map. The
        parked tag is not recomputed, so the parked key stays stored exactly when that does not matter. */
    method Adapt(key: nat) returns (ghost index: nat)
      requires Valid() && Reported(key)
      modifies table.buckets, hash_sels
      ensures old(ParkedReports(key)) ==> Valid() && table.Tags() == old(table.Tags()) && hash_sels[..] == old(hash_sels[..])
      ensures !old(ParkedReports(key)) ==>
                var i1 := Index(f, key);
                && index == (if TagHash(f, old(hash_sels[..]), key,
                    i1) in old(table.Tags())[i1] then i1 else AltIndex(f, key, i1))
                && Rehashed(old(table.Tags()), old(hash_sels[..]), index)
                && (Valid() <==> (victim_used && victim_index == index ==>
                    victim_tag == TagHash(f, hash_sels[..], victim_key, index)))
      ensures Keys() == old(Keys())
    {
      hide TagHash, Location, TableOk, Mask, Incremented, Rehashing, IsHome, IsBucket, AllTags, TagsOf, VictimOk,
          Index, AltIndex;
      HasBuckets();
      BothHomes(f, key);
      ReportedIs(key);
      var i1 := Index(f, key);
      var tag1 := TagHash(f, hash_sels[..], key, i1);
      var i2 := AltIndex(f, key, i1);
      var tag2 := TagHash(f, hash_sels[..], key, i2);
      index := i1;
      if victim_used && ((tag1 == victim_tag && i1 == victim_index) || (tag2 == victim_tag && i2 == victim_index)) {
        return;
      }
      var found := FindTagOf(key, i1);
      var at := if found then i1 else i2;
      Rehash(at);
      index := at;
    }

    /** The selector of bucket `at` has moved on, and its tags with it; nothing else has changed. */
    ghost predicate Rehashed(tags: seq<seq<bv32>>, sels: seq<bv8>, at: nat)
      reads this, table.buckets, hash_sels
    {
      && at < f.n == 2 * |sels| == 2 * hash_sels.Length && |tags| == f.n
      && hash_sels[..] == sels[at / 2 := Incremented(sels[at / 2], at)]
      && table.Valid() && table.buckets.Length == f.n && TableOk(f, table.Tags(), hash_sels[..], backing_map)
      && forall i | 0 <= i < f.n && i != at :: table.Tags()[i] == tags[i]
    }

    method Rehash(at: nat)
      requires Valid() && at < f.n
      modifies table.buckets, hash_sels
      ensures Rehashed(old(table.Tags()), old(hash_sels[..]), at)
      ensures Valid() <==> (victim_used && victim_index == at ==>
              victim_tag == TagHash(f, hash_sels[..], victim_key, at))
    {
      hide TagHash, Location, TableOk, Mask, Incremented, Rehashing, IsHome, IsBucket, AllTags, TagsOf, VictimOk;
      HasBuckets();
      ghost var tags, sels := table.Tags(), hash_sels[..];
      hash_sels[at / 2] := Incremented(hash_sels[at / 2], at);
      assert hash_sels[..] == sels[at / 2 := Incremented(sels[at / 2], at)];
      RehashStarts(f, tags, sels, backing_map, at);
      var j := 0;
      while j < 4
        invariant j <= 4 && table.Valid() && hash_sels[..] == sels[at / 2 := Incremented(sels[at / 2], at)]
        invariant Rehashing(f, table.Tags(), tags, sels, hash_sels[..], backing_map, at, j)
      {
        RehashStep(f, table.Tags(), tags, sels, hash_sels[..], backing_map, at, j);
        var location := Location(f, at, j);
        if location in backing_map {
          TagHashFits(f, hash_sels[..], backing_map[location], at);
          table.WriteTag(at, j, TagHash(f, hash_sels[..], backing_map[location], at));
        }
        j := j + 1;
      }
      RehashEnds(f, table.Tags(), tags, sels, hash_sels[..], backing_map, at);
      VictimAfter(f, sels, hash_sels[..], victim_used, victim_key, victim_index, victim_tag, at);
    }
  }

  lemma NothingAdded(s: set<nat>)
    ensures s + {} == s
  {
  }

  lemma WayStarts(f: Hashing, bm: map<nat, nat>, index: nat, key: nat)
    requires f.n > 0
    ensures OnTheWay(f, bm, bm, index, key, [], index, key)
  {
  }

  lemma AnyHand(f: Hashing, bm: map<nat, nat>, bm': map<nat, nat>, index: nat, key: nat, stops: seq<Stop>,
                curindex: nat, curkey: nat, otherindex: nat, otherkey: nat)
    requires ChainEnds(f, bm, bm', index, key, stops, true, curindex, curkey)
    ensures ChainEnds(f, bm, bm', index, key, stops, true, otherindex, otherkey)
  {
  }

  /** A full bucket has no tag 0. */
  lemma FullMeansNoZero(f: Hashing, tags: seq<seq<bv32>>, sels: seq<bv8>, bm: map<nat, nat>, i: nat)
    requires TableOk(f, tags, sels, bm) && i < f.n
    ensures IsFull(f, bm, i) <==> 0 !in tags[i]
  {
    hide Location, PlaceOk;
    assert BucketOk(f, tags[i], sels, bm, i);
    forall j | 0 <= j < 4
      ensures tags[i][j] != 0 <==> Location(f, i, j) in bm
    {
      assert PlaceOk(f, tags[i][j], sels, bm, i, j);
      NonZeroPlace(f, tags[i][j], sels, bm, i, j);
    }
  }

  lemma FirstIsHome(f: Hashing, key: nat)
    requires f.n > 0
    ensures IsHome(f, key, Index(f, key))
  {
  }

  lemma BothHomes(f: Hashing, key: nat)
    requires f.n > 0
    ensures IsHome(f, key, Index(f, key)) && IsHome(f, key, AltIndex(f, key, Index(f, key)))
  {
  }

  lemma StoredIsHome(f: Hashing, tags: seq<seq<bv32>>, sels: seq<bv8>, bm: map<nat, nat>, i: nat, j: nat)
    requires TableOk(f, tags, sels, bm) && i < f.n && j < 4 && Location(f, i, j) in bm
    ensures IsHome(f, bm[Location(f, i, j)], i)
  {
    assert BucketOk(f, tags[i], sels, bm, i);
    assert PlaceOk(f, tags[i][j], sels, bm, i, j);
  }

  /** While the tags of bucket `at` are recomputed: the first j of them are new, the others old. */
  ghost predicate Rehashing(f: Hashing, tags: seq<seq<bv32>>, tags0: seq<seq<bv32>>, sels0: seq<bv8>, sels: seq<bv8>,
                            bm: map<nat, nat>, at: nat, j: nat)
  {
    && TableOk(f, tags0, sels0, bm) && |sels| == |sels0| && at < f.n && |tags| == |tags0| && j <= 4 && |tags[at]| == 4
    && (forall i | 0 <= i < |sels| && i != at / 2 :: sels[i] == sels0[i])
    && sels[at / 2] == Incremented(sels0[at / 2], at)
    && (forall i | 0 <= i < |tags| && i != at :: tags[i] == tags0[i])
    && (forall k | j <= k < 4 && |tags0[at]| == 4 :: tags[at][k] == tags0[at][k])
    && (forall k {:trigger tags[at][k]} | 0 <= k < j :: PlaceOk(f, tags[at][k], sels, bm, at, k))
  }

  lemma RehashStarts(f: Hashing, tags: seq<seq<bv32>>, sels: seq<bv8>, bm: map<nat, nat>, at: nat)
    requires TableOk(f, tags, sels, bm) && at < f.n
    ensures Rehashing(f, tags, tags, sels, sels[at / 2 := Incremented(sels[at / 2], at)], bm, at, 0)
  {
    assert BucketOk(f, tags[at], sels, bm, at);
  }

  lemma RehashStep(f: Hashing, tags: seq<seq<bv32>>, tags0: seq<seq<bv32>>, sels0: seq<bv8>, sels: seq<bv8>,
                   bm: map<nat, nat>, at: nat, j: nat)
    requires Rehashing(f, tags, tags0, sels0, sels, bm, at, j) && j < 4
    ensures at < 2 * |sels| && at < |tags| && |tags[at]| == 4 && IsWidth(f.width)
    ensures var l := Location(f, at, j);
            if l in bm then Rehashing(f, tags[at := tags[at][j := Written(f.width, tags[at][j],
                TagHash(f, sels, bm[l], at))]], tags0, sels0, sels, bm, at, j + 1)
            else Rehashing(f, tags, tags0, sels0, sels, bm, at, j + 1)
  {
    hide TagHash, Location, IsHome, Shows, Written;
    assert BucketOk(f, tags0[at], sels0, bm, at);
    assert PlaceOk(f, tags0[at][j], sels0, bm, at, j);
    if Location(f, at, j) in bm {
      WrittenShows(f.width, tags[at][j], TagHash(f, sels, bm[Location(f, at, j)], at));
    }
  }

  /** Only the selector of bucket `at` moves, although it shares its byte with another one. */
  lemma SelectorKept(sels0: seq<bv8>, sels: seq<bv8>, at: nat, i: nat)
    requires |sels| == |sels0| && at < 2 * |sels| && i < 2 * |sels| && i != at
    requires (forall k | 0 <= k < |sels| && k != at / 2 :: sels[k] == sels0[k])
             && sels[at / 2] == Incremented(sels0[at / 2], at)
    ensures Selector(sels, i) == Selector(sels0, i)
  {
    hide Incremented, SelectorOf;
    IncrementedByOne(sels0[at / 2], at, i);
  }

  lemma VictimAfter(f: Hashing, sels0: seq<bv8>, sels: seq<bv8>, used: bool, key: nat, index: nat, tag: bv32, at: nat)
    requires f.n == 2 * |sels0| == 2 * |sels| && IsWidth(f.width) && at < f.n
             && VictimOk(f, sels0, used, key, index, tag)
    requires (forall k | 0 <= k < |sels| && k != at / 2 :: sels[k] == sels0[k])
             && sels[at / 2] == Incremented(sels0[at / 2], at)
    ensures VictimOk(f, sels, used, key, index, tag) <==> (used && index == at ==> tag == TagHash(f, sels, key, at))
  {
    hide Incremented, Selector, TagFor, IsHome;
    if used && index != at {
      SelectorKept(sels0, sels, at, index);
    }
  }

  lemma PlaceKept(f: Hashing, tag: bv32, sels0: seq<bv8>, sels: seq<bv8>, bm: map<nat, nat>, i: nat, j: nat)
    requires i < f.n == 2 * |sels| == 2 * |sels0| && IsWidth(f.width)
    requires PlaceOk(f, tag, sels0, bm, i, j) && Selector(sels, i) == Selector(sels0, i)
    ensures PlaceOk(f, tag, sels, bm, i, j)
  {
    hide TagFor, Selector, Location, IsHome;
  }

  lemma RehashEnds(f: Hashing, tags: seq<seq<bv32>>, tags0: seq<seq<bv32>>, sels0: seq<bv8>, sels: seq<bv8>,
                   bm: map<nat, nat>, at: nat)
    requires Rehashing(f, tags, tags0, sels0, sels, bm, at, 4)
    ensures TableOk(f, tags, sels, bm) && forall i | 0 <= i < |tags| && i != at :: tags[i] == tags0[i]
  {
    hide Location, IsHome, TagHash, PlaceOk, Incremented, Selector;
    forall i | 0 <= i < |tags|
      ensures BucketOk(f, tags[i], sels, bm, i)
    {
      if i != at {
        assert BucketOk(f, tags0[i], sels0, bm, i);
        SelectorKept(sels0, sels, at, i);
        forall j | 0 <= j < 4
          ensures PlaceOk(f, tags[i][j], sels, bm, i, j)
        {
          assert PlaceOk(f, tags0[i][j], sels0, bm, i, j);
          PlaceKept(f, tags0[i][j], sels0, sels, bm, i, j);
        }
      }
    }
  }

  // ---- a parked key that is lost --------------------------------------------------------------------

  /** Two buckets that are the homes of every key. The keys below 8 have the tag 2; the key 8 has the
      tag 1 under the first selector and 3 under the others; all other keys have the tag 2. */
  function TwoBuckets(): Hashing {
    Hashing(2, k => 0, k => 1, (s, k) => if k != 8 then 2 else if s == 0 then 1 else 3, 8)
  }

  function EightKeys(): map<nat, nat> {
    map[0 := 0, 1 := 1, 2 := 2, 3 := 3, 4 := 4, 5 := 5, 6 := 6, 7 := 7]
  }

  /** The keys below 8 fill the table, and the key 8 is parked at bucket 0. Adapting to the key 100 moves
      the selector of bucket 0 on. The tags in the table stay right, but the parked key is not reported
      any more. */
  lemma ParkedKeyLost()
    ensures var f, tags: seq<seq<bv32>>, bm := TwoBuckets(), [[2, 2, 2, 2], [2, 2, 2, 2]], EightKeys();
            var sels, sels' := [0], [Incremented(0, 0)];
            && TableOk(f, tags, sels, bm) && VictimOk(f, sels, true, 8, 0, 1)
                && IsReported(f, tags, sels, true, 0, 1, 8)
            && TagHash(f, sels, 100, Index(f, 100)) in tags[Index(f, 100)] && TagHash(f, sels, 100, Index(f, 100)) != 1
            && TableOk(f, tags, sels', bm) && !IsReported(f, tags, sels', true, 0, 1, 8)
  {
    var f, tags: seq<seq<bv32>>, bm := TwoBuckets(), [[2, 2, 2, 2], [2, 2, 2, 2]], EightKeys();
    var sels, sels' := [0], [Incremented(0, 0)];
    LostTags(sels);
    LostTags(sels');
    LostTable(tags, sels, bm);
    LostTable(tags, sels', bm);
    assert IsHome(f, 8, 0) && HasTag(f, tags, sels, true, 0, 1, 8, 0);
  }

  lemma LostTags(sels: seq<bv8>)
    requires sels == [0] || sels == [Incremented(0, 0)]
    ensures forall k: nat, i: nat | i < 2 && k != 8 :: TagHash(TwoBuckets(), sels, k, i) == 2
    ensures TagHash(TwoBuckets(), sels, 8, 1) == 1
    ensures TagHash(TwoBuckets(), sels, 8, 0) == if sels == [0] then 1 else 3
  {
    assert Incremented(0, 0) == 1;
  }

  lemma LostTable(tags: seq<seq<bv32>>, sels: seq<bv8>, bm: map<nat, nat>)
    requires sels == [0] || sels == [Incremented(0, 0)]
    requires tags == [[2, 2, 2, 2], [2, 2, 2, 2]] && bm == EightKeys()
    ensures TableOk(TwoBuckets(), tags, sels, bm)
  {
    hide TagHash, Incremented;
    LostTags(sels);
    var f := TwoBuckets();
    forall i | 0 <= i < |tags|
      ensures BucketOk(f, tags[i], sels, bm, i)
    {
      forall j | 0 <= j < 4
        ensures PlaceOk(f, tags[i][j], sels, bm, i, j)
      {
        assert Location(f, i, j) == i + 2 * j && bm[i + 2 * j] == i + 2 * j;
      }
    }
    forall l | l in bm
      ensures exists i: nat, j: nat :: i < f.n && j < 4 && l == Location(f, i, j)
    {
      assert l == Location(f, l % 2, l / 2);
    }
  }
}
