/** The tag table of other_filters/acf/src/mirroredtable.h: four tags of 2 to 32 bits in the bytes of
    a bucket. */
module MirroredTable {

  const TAGS_PER_BUCKET: nat := 4

  type Bucket = seq<bv8>

  predicate IsWidth(w: nat) {
    w == 2 || w == 4 || w == 8 || w == 12 || w == 16 || w == 32
  }

  function BytesPerBucket(w: nat): nat {
    (w * TAGS_PER_BUCKET + 7) / 8
  }

  predicate IsBucket(b: Bucket, w: nat) {
    IsWidth(w) && |b| == BytesPerBucket(w)
  }

  function Mask(w: nat): bv32
    requires IsWidth(w)
  {
    if w == 2 then 0x3 else if w == 4 then 0xf else if w == 8 then 0xff else if w == 12 then 0xfff
    else if w == 16 then 0xffff else 0xffff_ffff
  }

  function Pair(x: bv8, y: bv8): bv16 {
    (x as bv16) | ((y as bv16) << 8)
  }

  /** The little-endian 16-bit word at byte p. */
  function Word16(b: Bucket, p: nat): bv16
    requires p + 1 < |b|
  {
    Pair(b[p], b[p + 1])
  }

  function PutWord16(b: Bucket, p: nat, v: bv16): (b': Bucket)
    requires p + 1 < |b|
    ensures |b'| == |b|
  {
    b[p := (v & 0xff) as bv8][p + 1 := (v >> 8) as bv8]
  }

  function Word32(b: Bucket, p: nat): bv32
    requires p + 3 < |b|
  {
    (b[p] as bv32) | ((b[p + 1] as bv32) << 8) | ((b[p + 2] as bv32) << 16) | ((b[p + 3] as bv32) << 24)
  }

  function PutWord32(b: Bucket, p: nat, v: bv32): (b': Bucket)
    requires p + 3 < |b|
    ensures |b'| == |b|
    ensures forall i | 0 <= i < |b| && !(p <= i < p + 4) :: b'[i] == b[i]
    ensures b'[p] == (v & 0xff) as bv8 && b'[p + 1] == ((v >> 8) & 0xff) as bv8
    ensures b'[p + 2] == ((v >> 16) & 0xff) as bv8 && b'[p + 3] == ((v >> 24) & 0xff) as bv8
  {
    b[p := (v & 0xff) as bv8][p + 1 := ((v >> 8) & 0xff) as bv8][p + 2 := ((v >> 16) & 0xff) as bv8][p
        + 3 := ((v >> 24) & 0xff) as bv8]
  }

  lemma Word32Stored(b: Bucket, p: nat, v: bv32)
    requires p + 3 < |b|
    ensures Word32(PutWord32(b, p, v), p) == v
  {
    hide PutWord32;
  }

  /** ReadTag (mirroredtable.h:75-97) */
  function TagOf(b: Bucket, w: nat, j: nat): bv32
    requires IsBucket(b, w) && j < 4
  {
    if w == 2 then ((b[0] >> (2 * j)) & 0x3) as bv32
    else if w == 4 then (if j % 2 == 0 then b[j / 2] & 0xf else (b[j / 2] >> 4) & 0xf) as bv32
    else if w == 8 then b[j] as bv32
    else if w == 12 then (if j % 2 == 0 then Word16(b, j + j / 2) & 0xfff else (Word16(b, j + j / 2) >> 4) & 0xfff) as bv32
    else if w == 16 then Word16(b, 2 * j) as bv32
    else Word32(b, 4 * j)
  }

  /** WriteTag (mirroredtable.h:100-132) on the bytes of a bucket. Tags of two bits are or-ed in without
      clearing what was there. */
  function Put(b: Bucket, w: nat, j: nat, t: bv32): (b': Bucket)
    requires IsBucket(b, w) && j < 4
    ensures IsBucket(b', w)
  {
    var tag := t & Mask(w);
    if w == 2 then b[0 := b[0] | (((tag & 0x3) as bv8) << (2 * j))]
    else if w == 4 then
      b[j / 2 := if j % 2 == 0 then (b[j / 2] & 0xf0) | ((tag & 0xf) as bv8) else (b[j / 2] & 0x0f) | (((tag & 0xf) as bv8) << 4)]
    else if w == 8 then b[j := Narrow8(tag)]
    else if w == 12 then
      var p := j + j / 2;
      PutWord16(b, p, if j % 2 == 0 then (Word16(b, p) & 0xf000) | ((tag & 0xfff) as bv16)
                      else (Word16(b, p) & 0x000f) | (((tag & 0xfff) as bv16) << 4))
    else if w == 16 then PutWord16(b, 2 * j, Narrow16(tag))
    else PutWord32(b, 4 * j, tag)
  }

  lemma Put2(b: Bucket, j: nat, t: bv32, k: nat)
    requires IsBucket(b, 2) && j < 4 && k < 4 && t & 0x3 == t
    ensures TagOf(Put(b, 2, j, t), 2, k) == if k == j then TagOf(b, 2, k) | t else TagOf(b, 2, k)
  {
    if j == 0 {} else if j == 1 {} else if j == 2 {} else {}
    if k == 0 {} else if k == 1 {} else if k == 2 {} else {}
  }

  lemma Put4(b: Bucket, j: nat, t: bv32, k: nat)
    requires IsBucket(b, 4) && j < 4 && k < 4 && t & 0xf == t
    ensures TagOf(Put(b, 4, j, t), 4, k) == if k == j then t else TagOf(b, 4, k)
  {
  }

  lemma Put12(b: Bucket, j: nat, t: bv32, k: nat)
    requires IsBucket(b, 12) && j < 4 && k < 4 && t & 0xfff == t
    ensures TagOf(Put(b, 12, j, t), 12, k) == if k == j then t else TagOf(b, 12, k)
  {
    if j / 2 != k / 2 {
      assert j + j / 2 + 1 < k + k / 2 || k + k / 2 + 1 < j + j / 2;
    }
  }

  lemma Put8(b: Bucket, j: nat, t: bv32, k: nat)
    requires IsBucket(b, 8) && j < 4 && k < 4 && t & 0xff == t
    ensures TagOf(Put(b, 8, j, t), 8, k) == if k == j then t else TagOf(b, 8, k)
  {
  }

  lemma Put16(b: Bucket, j: nat, t: bv32, k: nat)
    requires IsBucket(b, 16) && j < 4 && k < 4 && t & 0xffff == t
    ensures TagOf(Put(b, 16, j, t), 16, k) == if k == j then t else TagOf(b, 16, k)
  {
  }

  lemma Put32(b: Bucket, j: nat, t: bv32, k: nat)
    requires IsBucket(b, 32) && j < 4 && k < 4
    ensures TagOf(Put(b, 32, j, t), 32, k) == if k == j then t else TagOf(b, 32, k)
  {
    hide PutWord32;
    assert t & 0xffff_ffff == t;
    Word32Stored(b, 4 * j, t);
  }

  /** What a place holds after a tag was written to it: two-bit tags are merged with what was there. */
  function Written(w: nat, was: bv32, t: bv32): bv32 {
    if w == 2 then was | t else t
  }

  /** Writing a tag changes just that tag; two-bit tags are merged with what was there. */
  lemma PutChangesOneTag(b: Bucket, w: nat, j: nat, t: bv32, k: nat)
    requires IsBucket(b, w) && j < 4 && k < 4 && t & Mask(w) == t
    ensures TagOf(Put(b, w, j, t), w, k)
         == if k == j then Written(w, TagOf(b, w, j), t) else TagOf(b, w, k)
  {
    hide TagOf, Put;
    if w == 2 { Put2(b, j, t, k); }
    if w == 4 { Put4(b, j, t, k); }
    if w == 8 { Put8(b, j, t, k); }
    if w == 12 { Put12(b, j, t, k); }
    if w == 16 { Put16(b, j, t, k); }
    if w == 32 { Put32(b, j, t, k); }
  }

  /** A two-bit tag reads back as written exactly when the old tag has no bits outside the new one. */
  lemma TwoBitTagReadsBack(b: Bucket, j: nat, t: bv32)
    requires IsBucket(b, 2) && j < 4 && t & 0x3 == t
    ensures TagOf(Put(b, 2, j, t), 2, j) == t <==> TagOf(b, 2, j) & !t == 0
  {
    hide TagOf, Put;
    Put2(b, j, t, j);
  }

  /** After writing a two-bit tag, its bucket reports it exactly when it reads back as written or the
      bucket held it anyway. */
  lemma TwoBitTagReported(b: Bucket, j: nat, t: bv32)
    requires IsBucket(b, 2) && j < 4 && t & 0x3 == t
    ensures t in TagsOf(Put(b, 2, j, t), 2) <==> TagOf(b, 2, j) & !t == 0 || exists k | 0 <= k < 4 && k != j ::
            TagOf(b, 2, k) == t
  {
    hide TagOf, Put;
    TwoBitTagReadsBack(b, j, t);
    var ts := TagsOf(Put(b, 2, j, t), 2);
    forall k | 0 <= k < 4
      ensures ts[k] == if k == j then TagOf(b, 2, k) | t else TagOf(b, 2, k)
    {
      Put2(b, j, t, k);
    }
  }

  /** For one, the tag 1 cannot be replaced by the tag 2. */
  lemma TwoBitTagsMerge()
    ensures var b := Put([0], 2, 0, 1);
            IsBucket([0], 2) && TagOf(b, 2, 0) == 1 && TagOf(Put(b, 2, 0, 2), 2, 0) == 3
  {
  }

  // ---- finding a tag with word arithmetic -----------------------------------------------------

  // The subtraction of haszero borrows through a lane exactly from the lowest zero lane on, so the
  // test is exact; comparing with a tag in every lane turns equal lanes into zero lanes.

  function Lanes4(a: bv4, b: bv4, c: bv4, d: bv4, next: bv64): bv64 {
    (a as bv64) | ((b as bv64) << 4) | ((c as bv64) << 8) | ((d as bv64) << 12) | (next << 16)
  }

  /** haszero4 (bitsutil.h:8-19) */
  function HasZero4(x: bv64): bv64 { (x - 0x1111) & !x & 0x8888 }

  function HasValue4(v: bv64, n: bv64): bool { HasZero4(v ^ (0x1111 * n)) != 0 }

  lemma Repeat4(t: bv4)
    ensures 0x1111 * (t as bv64) == Lanes4(t, t, t, t, 0)
  {
  }

  lemma XorLanes4(a: bv4, b: bv4, c: bv4, d: bv4, next: bv64, e: bv4, f: bv4, g: bv4, h: bv4)
    ensures Lanes4(a, b, c, d, next) ^ Lanes4(e, f, g, h, 0) == Lanes4(a ^ e, b ^ f, c ^ g, d ^ h, next)
  {
  }

  lemma ZeroLane4(a: bv4, b: bv4, c: bv4, d: bv4, next: bv64)
    ensures HasZero4(Lanes4(a, b, c, d, next)) != 0 <==> a == 0 || b == 0 || c == 0 || d == 0
  {
  }

  lemma XorZero4(a: bv4, t: bv4)
    ensures a ^ t == 0 <==> a == t
  {
  }

  lemma EqualLane4(a: bv4, b: bv4, c: bv4, d: bv4, next: bv64, t: bv4)
    ensures HasValue4(Lanes4(a, b, c, d, next), t as bv64) <==> a == t || b == t || c == t || d == t
  {
    hide HasZero4, Lanes4;
    Repeat4(t);
    XorLanes4(a, b, c, d, next, t, t, t, t);
    ZeroLane4(a ^ t, b ^ t, c ^ t, d ^ t, next);
    XorZero4(a, t);
    XorZero4(b, t);
    XorZero4(c, t);
    XorZero4(d, t);
  }

  function Lanes8(a: bv8, b: bv8, c: bv8, d: bv8, next: bv64): bv64 {
    (a as bv64) | ((b as bv64) << 8) | ((c as bv64) << 16) | ((d as bv64) << 24) | (next << 32)
  }

  /** haszero8 (bitsutil.h:8-19) */
  function HasZero8(x: bv64): bv64 { (x - 0x0101_0101) & !x & 0x8080_8080 }

  function HasValue8(v: bv64, n: bv64): bool { HasZero8(v ^ (0x0101_0101 * n)) != 0 }

  lemma Repeat8(t: bv8)
    ensures 0x0101_0101 * (t as bv64) == Lanes8(t, t, t, t, 0)
  {
  }

  lemma XorLanes8(a: bv8, b: bv8, c: bv8, d: bv8, next: bv64, e: bv8, f: bv8, g: bv8, h: bv8)
    ensures Lanes8(a, b, c, d, next) ^ Lanes8(e, f, g, h, 0) == Lanes8(a ^ e, b ^ f, c ^ g, d ^ h, next)
  {
  }

  lemma ZeroLane8(a: bv8, b: bv8, c: bv8, d: bv8, next: bv64)
    ensures HasZero8(Lanes8(a, b, c, d, next)) != 0 <==> a == 0 || b == 0 || c == 0 || d == 0
  {
  }

  lemma XorZero8(a: bv8, t: bv8)
    ensures a ^ t == 0 <==> a == t
  {
  }

  lemma EqualLane8(a: bv8, b: bv8, c: bv8, d: bv8, next: bv64, t: bv8)
    ensures HasValue8(Lanes8(a, b, c, d, next), t as bv64) <==> a == t || b == t || c == t || d == t
  {
    hide HasZero8, Lanes8;
    Repeat8(t);
    XorLanes8(a, b, c, d, next, t, t, t, t);
    ZeroLane8(a ^ t, b ^ t, c ^ t, d ^ t, next);
    XorZero8(a, t);
    XorZero8(b, t);
    XorZero8(c, t);
    XorZero8(d, t);
  }

  function Lanes12(a: bv12, b: bv12, c: bv12, d: bv12, next: bv64): bv64 {
    (a as bv64) | ((b as bv64) << 12) | ((c as bv64) << 24) | ((d as bv64) << 36) | (next << 48)
  }

  /** haszero12 (bitsutil.h:8-19) */
  function HasZero12(x: bv64): bv64 { (x - 0x0010_0100_1001) & !x & 0x8008_0080_0800 }

  function HasValue12(v: bv64, n: bv64): bool { HasZero12(v ^ (0x0010_0100_1001 * n)) != 0 }

  lemma Repeat12(t: bv12)
    ensures 0x0010_0100_1001 * (t as bv64) == Lanes12(t, t, t, t, 0)
  {
  }

  lemma XorLanes12(a: bv12, b: bv12, c: bv12, d: bv12, next: bv64, e: bv12, f: bv12, g: bv12, h: bv12)
    ensures Lanes12(a, b, c, d, next) ^ Lanes12(e, f, g, h, 0) == Lanes12(a ^ e, b ^ f, c ^ g, d ^ h, next)
  {
  }

  lemma ZeroLane12(a: bv12, b: bv12, c: bv12, d: bv12, next: bv64)
    ensures HasZero12(Lanes12(a, b, c, d, next)) != 0 <==> a == 0 || b == 0 || c == 0 || d == 0
  {
  }

  lemma XorZero12(a: bv12, t: bv12)
    ensures a ^ t == 0 <==> a == t
  {
  }

  lemma EqualLane12(a: bv12, b: bv12, c: bv12, d: bv12, next: bv64, t: bv12)
    ensures HasValue12(Lanes12(a, b, c, d, next), t as bv64) <==> a == t || b == t || c == t || d == t
  {
    hide HasZero12, Lanes12;
    Repeat12(t);
    XorLanes12(a, b, c, d, next, t, t, t, t);
    ZeroLane12(a ^ t, b ^ t, c ^ t, d ^ t, next);
    XorZero12(a, t);
    XorZero12(b, t);
    XorZero12(c, t);
    XorZero12(d, t);
  }

  function Lanes16(a: bv16, b: bv16, c: bv16, d: bv16): bv64 {
    (a as bv64) | ((b as bv64) << 16) | ((c as bv64) << 32) | ((d as bv64) << 48)
  }

  /** haszero16 (bitsutil.h:8-19) */
  function HasZero16(x: bv64): bv64 { (x - 0x0001_0001_0001_0001) & !x & 0x8000_8000_8000_8000 }

  function HasValue16(v: bv64, n: bv64): bool { HasZero16(v ^ (0x0001_0001_0001_0001 * n)) != 0 }

  lemma Repeat16(t: bv16)
    ensures 0x0001_0001_0001_0001 * (t as bv64) == Lanes16(t, t, t, t)
  {
  }

  lemma XorLanes16(a: bv16, b: bv16, c: bv16, d: bv16, e: bv16, f: bv16, g: bv16, h: bv16)
    ensures Lanes16(a, b, c, d) ^ Lanes16(e, f, g, h) == Lanes16(a ^ e, b ^ f, c ^ g, d ^ h)
  {
  }

  lemma ZeroLane16(a: bv16, b: bv16, c: bv16, d: bv16)
    ensures HasZero16(Lanes16(a, b, c, d)) != 0 <==> a == 0 || b == 0 || c == 0 || d == 0
  {
  }

  lemma XorZero16(a: bv16, t: bv16)
    ensures a ^ t == 0 <==> a == t
  {
  }

  lemma EqualLane16(a: bv16, b: bv16, c: bv16, d: bv16, t: bv16)
    ensures HasValue16(Lanes16(a, b, c, d), t as bv64) <==> a == t || b == t || c == t || d == t
  {
    hide HasZero16, Lanes16;
    Repeat16(t);
    XorLanes16(a, b, c, d, t, t, t, t);
    ZeroLane16(a ^ t, b ^ t, c ^ t, d ^ t);
    XorZero16(a, t);
    XorZero16(b, t);
    XorZero16(c, t);
    XorZero16(d, t);
  }

  // ---- the word load of a bucket --------------------------------------------------------------

  // The 64-bit little-endian word of some bytes and what follows them.

  function Bytes4(a: bv8, b: bv8, next: bv64): bv64 {
    (a as bv64) | ((b as bv64) << 8) | (next << 16)
  }

  function Bytes8(a: bv8, b: bv8, c: bv8, d: bv8, next: bv64): bv64 {
    (a as bv64) | ((b as bv64) << 8) | ((c as bv64) << 16) | ((d as bv64) << 24) | (next << 32)
  }

  function Bytes12(a: bv8, b: bv8, c: bv8, d: bv8, e: bv8, f: bv8, next: bv64): bv64 {
    (a as bv64) | ((b as bv64) << 8) | ((c as bv64) << 16) | ((d as bv64) << 24)
    | ((e as bv64) << 32) | ((f as bv64) << 40) | (next << 48)
  }

  function Bytes16(a: bv8, b: bv8, c: bv8, d: bv8, e: bv8, f: bv8, g: bv8, h: bv8): bv64 {
    (a as bv64) | ((b as bv64) << 8) | ((c as bv64) << 16) | ((d as bv64) << 24)
    | ((e as bv64) << 32) | ((f as bv64) << 40) | ((g as bv64) << 48) | ((h as bv64) << 56)
  }

  /** The word at the first byte of a bucket; `next` is what follows the bucket. */
  function Load(b: Bucket, w: nat, next: bv64): bv64
    requires IsBucket(b, w) && (w == 4 || w == 8 || w == 12 || w == 16)
  {
    if w == 4 then Bytes4(b[0], b[1], next)
    else if w == 8 then Bytes8(b[0], b[1], b[2], b[3], next)
    else if w == 12 then Bytes12(b[0], b[1], b[2], b[3], b[4], b[5], next)
    else Bytes16(b[0], b[1], b[2], b[3], b[4], b[5], b[6], b[7])
  }

  /** The test of FindTagInBucket for these widths. */
  function WordTest(v: bv64, w: nat, tag: bv32): bool
    requires w == 4 || w == 8 || w == 12 || w == 16
  {
    var n := tag as bv64;
    if w == 4 then HasValue4(v, n) else if w == 8 then HasValue8(v, n) else if w == 12 then HasValue12(v,
        n) else HasValue16(v, n)
  }

  ghost predicate AnyTag(b: Bucket, w: nat, tag: bv32)
    requires IsBucket(b, w)
  {
    TagOf(b, w, 0) == tag || TagOf(b, w, 1) == tag || TagOf(b, w, 2) == tag || TagOf(b, w, 3) == tag
  }

  function Even4(x: bv8): bv4 { (x & 0xf) as bv4 }

  function Odd4(x: bv8): bv4 { (x >> 4) as bv4 }

  function Narrow4(tag: bv32): bv4 { (tag & 0xf) as bv4 }

  function Lane4(b: Bucket, j: nat): bv4
    requires IsBucket(b, 4) && j < 4
  {
    if j % 2 == 0 then Even4(b[j / 2]) else Odd4(b[j / 2])
  }

  lemma SameLane4(x: bv8, tag: bv32)
    requires tag & 0xf == tag
    ensures Even4(x) == Narrow4(tag) <==> (x & 0xf) as bv32 == tag
    ensures Odd4(x) == Narrow4(tag) <==> ((x >> 4) & 0xf) as bv32 == tag
  {
  }

  lemma LaneIsTag4(b: Bucket, j: nat, tag: bv32)
    requires IsBucket(b, 4) && j < 4 && tag & 0xf == tag
    ensures Lane4(b, j) == Narrow4(tag) <==> TagOf(b, 4, j) == tag
  {
    hide Even4, Odd4;
    SameLane4(b[j / 2], tag);
  }

  lemma BytesAreLanes4(a: bv8, b: bv8, next: bv64)
    ensures Bytes4(a, b, next) == Lanes4(Even4(a), Odd4(a), Even4(b), Odd4(b), next)
  {
  }

  lemma Loaded4(b: Bucket, next: bv64)
    requires IsBucket(b, 4)
    ensures Load(b, 4, next) == Lanes4(Lane4(b, 0), Lane4(b, 1), Lane4(b, 2), Lane4(b, 3), next)
  {
    hide Lanes4, Bytes4, Even4, Odd4;
    BytesAreLanes4(b[0], b[1], next);
  }

  lemma WordTest4(b: Bucket, next: bv64, tag: bv32)
    requires IsBucket(b, 4) && tag & 0xf == tag
    ensures WordTest(Load(b, 4, next), 4, tag) <==> AnyTag(b, 4, tag)
  {
    hide TagOf, Load, HasValue4, Lanes4, Lane4, Narrow4;
    Loaded4(b, next);
    NarrowKeeps4(tag);
    EqualLane4(Lane4(b, 0), Lane4(b, 1), Lane4(b, 2), Lane4(b, 3), next, Narrow4(tag));
    LaneIsTag4(b, 0, tag);
    LaneIsTag4(b, 1, tag);
    LaneIsTag4(b, 2, tag);
    LaneIsTag4(b, 3, tag);
  }

  lemma NarrowKeeps4(tag: bv32)
    requires tag & 0xf == tag
    ensures Narrow4(tag) as bv64 == tag as bv64
  {
  }

  function Narrow8(tag: bv32): bv8 { (tag & 0xff) as bv8 }

  function Lane8(b: Bucket, j: nat): bv8
    requires IsBucket(b, 8) && j < 4
  {
    b[j]
  }

  lemma SameLane8(x: bv8, tag: bv32)
    requires tag & 0xff == tag
    ensures x == Narrow8(tag) <==> x as bv32 == tag
  {
  }

  lemma LaneIsTag8(b: Bucket, j: nat, tag: bv32)
    requires IsBucket(b, 8) && j < 4 && tag & 0xff == tag
    ensures Lane8(b, j) == Narrow8(tag) <==> TagOf(b, 8, j) == tag
  {
    SameLane8(b[j], tag);
  }

  lemma BytesAreLanes8(a: bv8, b: bv8, c: bv8, d: bv8, next: bv64)
    ensures Bytes8(a, b, c, d, next) == Lanes8(a, b, c, d, next)
  {
  }

  lemma Loaded8(b: Bucket, next: bv64)
    requires IsBucket(b, 8)
    ensures Load(b, 8, next) == Lanes8(Lane8(b, 0), Lane8(b, 1), Lane8(b, 2), Lane8(b, 3), next)
  {
    hide Lanes8, Bytes8;
    BytesAreLanes8(b[0], b[1], b[2], b[3], next);
  }

  lemma WordTest8(b: Bucket, next: bv64, tag: bv32)
    requires IsBucket(b, 8) && tag & 0xff == tag
    ensures WordTest(Load(b, 8, next), 8, tag) <==> AnyTag(b, 8, tag)
  {
    hide TagOf, Load, HasValue8, Lanes8, Lane8, Narrow8;
    Loaded8(b, next);
    NarrowKeeps8(tag);
    EqualLane8(Lane8(b, 0), Lane8(b, 1), Lane8(b, 2), Lane8(b, 3), next, Narrow8(tag));
    LaneIsTag8(b, 0, tag);
    LaneIsTag8(b, 1, tag);
    LaneIsTag8(b, 2, tag);
    LaneIsTag8(b, 3, tag);
  }

  lemma NarrowKeeps8(tag: bv32)
    requires tag & 0xff == tag
    ensures Narrow8(tag) as bv64 == tag as bv64
  {
  }

  function Even12(x: bv16): bv12 { (x & 0xfff) as bv12 }

  function Odd12(x: bv16): bv12 { (x >> 4) as bv12 }

  function Narrow12(tag: bv32): bv12 { (tag & 0xfff) as bv12 }

  function Lane12(b: Bucket, j: nat): bv12
    requires IsBucket(b, 12) && j < 4
  {
    if j % 2 == 0 then Even12(Word16(b, j + j / 2)) else Odd12(Word16(b, j + j / 2))
  }

  function EvenTag12(x: bv16): bv32 { (x & 0xfff) as bv32 }

  function OddTag12(x: bv16): bv32 { ((x >> 4) & 0xfff) as bv32 }

  lemma SameLane12(x: bv16, tag: bv32)
    requires tag & 0xfff == tag
    ensures Even12(x) == Narrow12(tag) <==> EvenTag12(x) == tag
    ensures Odd12(x) == Narrow12(tag) <==> OddTag12(x) == tag
  {
  }

  lemma Tag12(b: Bucket, j: nat)
    requires IsBucket(b, 12) && j < 4
    ensures var x := Word16(b, j + j / 2);
            TagOf(b, 12, j) == if j % 2 == 0 then EvenTag12(x) else OddTag12(x)
  {
    hide Word16;
  }

  lemma LaneIsTag12(b: Bucket, j: nat, tag: bv32)
    requires IsBucket(b, 12) && j < 4 && tag & 0xfff == tag
    ensures Lane12(b, j) == Narrow12(tag) <==> TagOf(b, 12, j) == tag
  {
    hide Even12, Odd12, EvenTag12, OddTag12, Narrow12, Word16, TagOf;
    Tag12(b, j);
    SameLane12(Word16(b, j + j / 2), tag);
  }

  lemma BytesAreLanes12(a: bv8, b: bv8, c: bv8, d: bv8, e: bv8, f: bv8, next: bv64)
    ensures Bytes12(a, b, c, d, e, f, next) == Lanes12(Even12(Pair(a, b)), Odd12(Pair(b, c)), Even12(Pair(d, e)),
            Odd12(Pair(e, f)), next)
  {
  }

  lemma Loaded12(b: Bucket, next: bv64)
    requires IsBucket(b, 12)
    ensures Load(b, 12, next) == Lanes12(Lane12(b, 0), Lane12(b, 1), Lane12(b, 2), Lane12(b, 3), next)
  {
    hide Lanes12, Bytes12, Even12, Odd12, Pair;
    BytesAreLanes12(b[0], b[1], b[2], b[3], b[4], b[5], next);
  }

  lemma WordTest12(b: Bucket, next: bv64, tag: bv32)
    requires IsBucket(b, 12) && tag & 0xfff == tag
    ensures WordTest(Load(b, 12, next), 12, tag) <==> AnyTag(b, 12, tag)
  {
    hide TagOf, Load, HasValue12, Lanes12, Lane12, Narrow12;
    Loaded12(b, next);
    NarrowKeeps12(tag);
    EqualLane12(Lane12(b, 0), Lane12(b, 1), Lane12(b, 2), Lane12(b, 3), next, Narrow12(tag));
    LaneIsTag12(b, 0, tag);
    LaneIsTag12(b, 1, tag);
    LaneIsTag12(b, 2, tag);
    LaneIsTag12(b, 3, tag);
  }

  lemma NarrowKeeps12(tag: bv32)
    requires tag & 0xfff == tag
    ensures Narrow12(tag) as bv64 == tag as bv64
  {
  }

  function Narrow16(tag: bv32): bv16 { (tag & 0xffff) as bv16 }

  function Lane16(b: Bucket, j: nat): bv16
    requires IsBucket(b, 16) && j < 4
  {
    Word16(b, 2 * j)
  }

  function Wide16(x: bv16): bv32 { x as bv32 }

  lemma SameLane16(x: bv16, tag: bv32)
    requires tag & 0xffff == tag
    ensures x == Narrow16(tag) <==> Wide16(x) == tag
  {
    hide Wide16, Narrow16;
    Widened16(x, Narrow16(tag));
    NarrowWide16(tag);
  }

  lemma NarrowWide16(tag: bv32)
    requires tag & 0xffff == tag
    ensures Wide16(Narrow16(tag)) == tag
  {
  }

  lemma Widened16(x: bv16, y: bv16)
    ensures Wide16(x) == Wide16(y) <==> x == y
  {
  }

  lemma Tag16(b: Bucket, j: nat)
    requires IsBucket(b, 16) && j < 4
    ensures TagOf(b, 16, j) == Wide16(Word16(b, 2 * j))
  {
    hide Word16;
  }

  lemma LaneIsTag16(b: Bucket, j: nat, tag: bv32)
    requires IsBucket(b, 16) && j < 4 && tag & 0xffff == tag
    ensures Lane16(b, j) == Narrow16(tag) <==> TagOf(b, 16, j) == tag
  {
    hide Word16, TagOf, Wide16, Narrow16;
    Tag16(b, j);
    SameLane16(Word16(b, 2 * j), tag);
  }

  lemma BytesAreLanes16(a: bv8, b: bv8, c: bv8, d: bv8, e: bv8, f: bv8, g: bv8, h: bv8)
    ensures Bytes16(a, b, c, d, e, f, g, h) == Lanes16(Pair(a, b), Pair(c, d), Pair(e, f), Pair(g, h))
  {
  }

  lemma Loaded16(b: Bucket, next: bv64)
    requires IsBucket(b, 16)
    ensures Load(b, 16, next) == Lanes16(Lane16(b, 0), Lane16(b, 1), Lane16(b, 2), Lane16(b, 3))
  {
    hide Lanes16, Bytes16, Pair;
    BytesAreLanes16(b[0], b[1], b[2], b[3], b[4], b[5], b[6], b[7]);
  }

  lemma WordTest16(b: Bucket, next: bv64, tag: bv32)
    requires IsBucket(b, 16) && tag & 0xffff == tag
    ensures WordTest(Load(b, 16, next), 16, tag) <==> AnyTag(b, 16, tag)
  {
    hide TagOf, Load, HasValue16, Lanes16, Lane16, Narrow16;
    Loaded16(b, next);
    NarrowKeeps16(tag);
    EqualLane16(Lane16(b, 0), Lane16(b, 1), Lane16(b, 2), Lane16(b, 3), Narrow16(tag));
    LaneIsTag16(b, 0, tag);
    LaneIsTag16(b, 1, tag);
    LaneIsTag16(b, 2, tag);
    LaneIsTag16(b, 3, tag);
  }

  lemma NarrowKeeps16(tag: bv32)
    requires tag & 0xffff == tag
    ensures Narrow16(tag) as bv64 == tag as bv64
  {
  }

  // ---- the table ------------------------------------------------------------------------------

  class MirroredTable {
    const width: nat
    const buckets: array<Bucket>

    ghost predicate Valid()
      reads buckets
    {
      IsWidth(width) && forall i {:trigger buckets[i]} | 0 <= i < buckets.Length :: IsBucket(buckets[i], width)
    }

    /** The four tags of every bucket. */
    ghost function Tags(): (t: seq<seq<bv32>>)
      requires Valid()
      reads buckets
      ensures |t| == buckets.Length && forall i {:trigger t[i]} | 0 <= i < |t| :: t[i] == TagsOf(buckets[i], width)
    {
      AllTags(buckets[..], width)
    }

    constructor (width: nat, num: nat)
      requires IsWidth(width)
      ensures Valid() && this.width == width && buckets.Length == num && fresh(buckets)
      ensures forall i, j | 0 <= i < num && 0 <= j < 4 :: Tags()[i][j] == 0
    {
      this.width := width;
      buckets := new Bucket[num](_ => seq(BytesPerBucket(width), _ => 0));
      new;
      assert forall i | 0 <= i < num :: buckets[i] == EmptyBucket(width);
      EmptyTags(width);
    }

    method ReadTag(i: nat, j: nat) returns (tag: bv32)
      requires Valid() && i < buckets.Length && j < 4
      ensures tag == Tags()[i][j]
    {
      tag := TagOf(buckets[i], width, j);
    }

    /** WriteTag and UpdateTag (mirroredtable.h:100-165) do the same. */
    method WriteTag(i: nat, j: nat, t: bv32)
      requires Valid() && i < buckets.Length && j < 4 && t & Mask(width) == t
      modifies buckets
      ensures Valid() && Tags() == old(Tags())[i := old(Tags())[i][j := Written(width, old(Tags())[i][j], t)]]
    {
      hide TagOf, Put, Mask, TagsOf, Written;
      ghost var was := Tags();
      ghost var b := buckets[i];
      buckets[i] := Put(buckets[i], width, j, t);
      PutTags(b, width, j, t);
      assert Tags() == was[i := was[i][j := Written(width, was[i][j], t)]];
    }

    /** FindTagInBucket (mirroredtable.h:212-238): one test on the word at the bucket for tags of 4, 8,
        12 and 16 bits, whatever follows the bucket in memory; tag by tag otherwise. */
    method FindTagInBucket(i: nat, tag: bv32) returns (found: bool)
      requires Valid() && i < buckets.Length && tag & Mask(width) == tag
      ensures found <==> tag in Tags()[i]
    {
      hide TagOf, Load, WordTest;
      if width == 4 || width == 8 || width == 12 || width == 16 {
        var next: bv64 := *;
        var v := Load(buckets[i], width, next);
        WordTestIs(buckets[i], width, next, tag);
        return WordTest(v, width, tag);
      }
      var j := 0;
      while j < 4
        invariant j <= 4 && forall k | 0 <= k < j :: Tags()[i][k] != tag
      {
        var t := ReadTag(i, j);
        if t == tag {
          return true;
        }
        j := j + 1;
      }
      return false;
    }

    /** InsertTagToBucket (mirroredtable.h:262-279) with kickout: the first empty place, or some full
        one, whose number comes back negative. */
    method InsertTagToBucket(i: nat, tag: bv32, random: nat) returns (ret: int)
      requires Valid() && i < buckets.Length && tag & Mask(width) == tag && tag != 0
      modifies buckets
      ensures Valid() && (1 <= ret <= 4 || -4 <= ret <= -1)
      ensures var j := (if ret > 0 then ret else -ret) - 1;
              && Tags() == old(Tags())[i := old(Tags())[i][j := Written(width, old(Tags())[i][j], tag)]]
              && (ret > 0 <==> 0 in old(Tags())[i])
              && (if ret > 0 then old(Tags())[i][j] == 0 && forall k | 0 <= k < j ::
                  old(Tags())[i][k] != 0 else j == random % 4)
    {
      hide TagOf, Put, Mask, TagsOf, Written;
      var j := 0;
      while j < 4
        invariant j <= 4 && Valid() && Tags() == old(Tags()) && forall k | 0 <= k < j :: Tags()[i][k] != 0
      {
        var t := ReadTag(i, j);
        if t == 0 {
          WriteTag(i, j, tag);
          return j + 1;
        }
        j := j + 1;
      }
      var r := random % 4;
      WriteTag(i, r, tag);
      return -(r + 1);
    }
  }

  /** The word test finds a tag exactly when the bucket holds it. */
  lemma WordTestIs(b: Bucket, w: nat, next: bv64, tag: bv32)
    requires IsBucket(b, w) && (w == 4 || w == 8 || w == 12 || w == 16) && tag & Mask(w) == tag
    ensures WordTest(Load(b, w, next), w, tag) <==> tag in TagsOf(b, w)
  {
    hide TagOf, Load, WordTest;
    if w == 4 {
      WordTest4(b, next, tag);
    } else if w == 8 {
      WordTest8(b, next, tag);
    } else if w == 12 {
      WordTest12(b, next, tag);
    } else {
      WordTest16(b, next, tag);
    }
    AnyTagIs(b, w, tag);
  }

  lemma AnyTagIs(b: Bucket, w: nat, tag: bv32)
    requires IsBucket(b, w)
    ensures AnyTag(b, w, tag) <==> tag in TagsOf(b, w)
  {
    hide TagOf;
    var ts := TagsOf(b, w);
    assert ts[0] == TagOf(b, w, 0) && ts[1] == TagOf(b, w, 1) && ts[2] == TagOf(b, w, 2) && ts[3] == TagOf(b, w, 3);
  }

  ghost function AllTags(bs: seq<Bucket>, w: nat): (t: seq<seq<bv32>>)
    requires forall i {:trigger bs[i]} | 0 <= i < |bs| :: IsBucket(bs[i], w)
    ensures |t| == |bs| && forall i {:trigger t[i]} | 0 <= i < |t| :: t[i] == TagsOf(bs[i], w)
  {
    seq(|bs|, i requires 0 <= i < |bs| => TagsOf(bs[i], w))
  }

  ghost function TagsOf(b: Bucket, w: nat): (t: seq<bv32>)
    requires IsBucket(b, w)
    ensures |t| == 4
  {
    [TagOf(b, w, 0), TagOf(b, w, 1), TagOf(b, w, 2), TagOf(b, w, 3)]
  }

  lemma PutTags(b: Bucket, w: nat, j: nat, t: bv32)
    requires IsBucket(b, w) && j < 4 && t & Mask(w) == t
    ensures TagsOf(Put(b, w, j, t), w) == TagsOf(b, w)[j := Written(w, TagsOf(b, w)[j], t)]
  {
    hide TagOf, Put, Mask, Written;
    PutChangesOneTag(b, w, j, t, 0);
    PutChangesOneTag(b, w, j, t, 1);
    PutChangesOneTag(b, w, j, t, 2);
    PutChangesOneTag(b, w, j, t, 3);
  }

  function EmptyBucket(w: nat): Bucket {
    seq(BytesPerBucket(w), _ => 0)
  }

  lemma EmptyTags(w: nat)
    requires IsWidth(w)
    ensures TagsOf(EmptyBucket(w), w) == [0, 0, 0, 0]
  {
  }
}
