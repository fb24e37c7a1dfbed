/** The integer arithmetic coder for extensions of src/taf.cc: every extension narrows an interval of
    code points by truncated shifts, and the code is the low end of the last interval. */
module ExtensionCoding {
  import opened Numbers
  import opened Hashes

  const CODE_BITS: nat := 56

  /** An extension of len bits. */
  datatype Ext = Ext(bits: nat, len: nat)

  datatype Interval = Interval(low: nat, high: nat)

  ghost predicate Within(a: Interval, b: Interval) {
    b.low <= a.low <= a.high <= b.high
  }

  /** No coding step is allowed to leave less than two code points. */
  predicate Wide(a: Interval) {
    a.low + 2 <= a.high
  }

  function Whole(): Interval {
    Interval(0, Pow2(CODE_BITS) - 1)
  }

  function EmptyGap(range: nat): nat {
    Shr(range, 1) + Shr(range, 2) + Shr(range, 3) + Shr(range, 5)
  }

  function LengthGap(range: nat): nat {
    Shr(range, 5) + Shr(range, 6)
  }

  function Times(a: nat, b: nat): nat {
    assert a * b >= 0;
    a * b
  }

  /** The piece number `bits` of 2^len equal pieces of [low, low + gap). */
  function Piece(low: nat, gap: nat, ext: Ext): Interval {
    var g := Shr(gap, ext.len);
    Interval(low + Times(ext.bits, g), low + Times(ext.bits, g) + g)
  }

  /** Skip one gap for every further unit of length, halving the gap each time. */
  function LengthPiece(low: nat, gap: nat, ext: Ext, len: nat): Interval
    decreases len
  {
    if len <= 1 then Piece(low, gap, ext) else LengthPiece(low + gap, Shr(gap, 1), ext, len - 1)
  }

  /** The interval after one extension. */
  function Narrow(a: Interval, ext: Ext): Interval
    requires a.low <= a.high
  {
    var range := a.high - a.low;
    if ext.len == 0 then Interval(a.low, a.low + EmptyGap(range))
    else LengthPiece(a.low + EmptyGap(range), LengthGap(range), ext, ext.len)
  }

  predicate IsExt(ext: Ext) {
    ext.len < 64 && ext.bits < Pow2(ext.len)
  }

  // ---- nesting ------------------------------------------------------------------------------

  lemma ShrTimes(x: nat, k: nat)
    ensures Shr(x, k) * Pow2(k) <= x
  {
    assert x == Pow2(k) * (x / Pow2(k)) + x % Pow2(k);
  }

  lemma ShrScaled(x: nat, k: nat, p: nat)
    requires Pow2(k) == p
    ensures p * Shr(x, k) <= x
  {
    ShrTimes(x, k);
  }

  lemma GapsFit(range: nat)
    ensures EmptyGap(range) + 2 * LengthGap(range) <= range
  {
    hide Shr;
    ShrScaled(range, 1, 2);
    ShrScaled(range, 2, 4);
    ShrScaled(range, 3, 8);
    ShrScaled(range, 5, 32);
    ShrScaled(range, 6, 64);
  }

  lemma PieceWithin(low: nat, gap: nat, ext: Ext)
    requires ext.bits < Pow2(ext.len)
    ensures Within(Piece(low, gap, ext), Interval(low, low + gap))
  {
    var g := Shr(gap, ext.len);
    ShrTimes(gap, ext.len);
    MulStep(ext.bits, Pow2(ext.len), g);
  }

  lemma {:induction false} LengthPieceWithin(low: nat, gap: nat, ext: Ext, len: nat)
    requires ext.bits < Pow2(ext.len)
    ensures Within(LengthPiece(low, gap, ext, len), Interval(low, low + 2 * gap))
    ensures len > 1 ==> LengthPiece(low, gap, ext, len).low >= low + gap
    ensures len <= 1 ==> LengthPiece(low, gap, ext, len).high <= low + gap
    decreases len
  {
    if len <= 1 {
      PieceWithin(low, gap, ext);
    } else {
      LengthPieceWithin(low + gap, Shr(gap, 1), ext, len - 1);
      ShrScaled(gap, 1, 2);
    }
  }

  lemma NarrowWithin(a: Interval, ext: Ext)
    requires a.low <= a.high && IsExt(ext)
    ensures Within(Narrow(a, ext), a)
    ensures var mid := a.low + EmptyGap(a.high - a.low);
            if ext.len == 0 then Narrow(a, ext).high == mid else Narrow(a, ext).low >= mid
  {
    hide EmptyGap, LengthGap, LengthPiece, Pow2;
    var range := a.high - a.low;
    GapsFit(range);
    if ext.len > 0 {
      LengthPieceWithin(a.low + EmptyGap(range), LengthGap(range), ext, ext.len);
    }
  }

  /** The interval after all the extensions. */
  ghost function NarrowAll(exts: seq<Ext>): (a: Interval)
    requires forall i | 0 <= i < |exts| :: IsExt(exts[i])
    ensures Within(a, Whole())
  {
    if exts == [] then Whole()
    else
      NarrowWithin(NarrowAll(exts[..|exts| - 1]), exts[|exts| - 1]);
      Narrow(NarrowAll(exts[..|exts| - 1]), exts[|exts| - 1])
  }

  lemma IntervalIsOrdered(exts: seq<Ext>)
    requires forall i | 0 <= i < |exts| :: IsExt(exts[i])
    ensures NarrowAll(exts).low <= NarrowAll(exts).high
  {
  }

  lemma {:induction false} LaterIntervalsAreWithin(exts: seq<Ext>, i: nat, j: nat)
    requires i <= j <= |exts| && forall k | 0 <= k < |exts| :: IsExt(exts[k])
    ensures Within(NarrowAll(exts[..j]), NarrowAll(exts[..i]))
    decreases j
  {
    hide Narrow, NarrowAll, Pow2;
    if i < j {
      LaterIntervalsAreWithin(exts, i, j - 1);
      NextInterval(exts, j - 1);
      NarrowWithin(NarrowAll(exts[..j - 1]), exts[j - 1]);
    } else {
      IntervalIsOrdered(exts[..i]);
    }
  }

  /** The coder never runs out of code points. */
  ghost predicate Encodable(exts: seq<Ext>) {
    && (forall i | 0 <= i < |exts| :: IsExt(exts[i]))
    && (forall i {:trigger exts[..i]} | 0 < i <= |exts| :: Wide(NarrowAll(exts[..i])))
  }

  ghost function Code(exts: seq<Ext>): nat
    requires Encodable(exts)
  {
    NarrowAll(exts).low
  }

  /** The code lies in every interval on the way, and fits the code's bits. */
  lemma CodeInside(exts: seq<Ext>, i: nat)
    requires Encodable(exts) && i <= |exts| && |exts| > 0
    ensures NarrowAll(exts[..i]).low <= Code(exts) < NarrowAll(exts[..i]).high
    ensures Code(exts) < Pow2(56)
  {
    LaterIntervalsAreWithin(exts, i, |exts|);
    LaterIntervalsAreWithin(exts, 0, |exts|);
    assert exts[..|exts|] == exts;
    assert exts[..0] == [];
  }

  // ---- encoding -----------------------------------------------------------------------------

  /** One turn of encode_ext. */
  method NarrowBy(low0: nat, high0: nat, ext: Ext) returns (low: nat, high: nat)
    requires low0 <= high0
    ensures Interval(low, high) == Narrow(Interval(low0, high0), ext)
  {
    hide Shr, Times;
    var range: nat := high0 - low0;
    var gap: nat := Shr(range, 1) + Shr(range, 2) + Shr(range, 3) + Shr(range, 5);
    if ext.len == 0 {
      return low0, low0 + gap;
    }
    low := low0 + gap;
    gap := Shr(range, 5) + Shr(range, 6);
    var j := 1;
    while j < ext.len
      invariant 1 <= j <= ext.len
      invariant Narrow(Interval(low0, high0), ext) == LengthPiece(low, gap, ext, ext.len - j + 1)
    {
      low := low + gap;
      gap := Shr(gap, 1);
      j := j + 1;
    }
    gap := Shr(gap, ext.len);
    low := low + Times(ext.bits, gap);
    high := low + gap;
  }

  /** encode_ext (src/taf.cc:631-676) */
  method EncodeExt(exts: array<Ext>) returns (ret: int, code: nat)
    requires exts.Length == 64 && forall i | 0 <= i < 64 :: IsExt(exts[i])
    ensures ret == 0 <==> Encodable(exts[..])
    ensures ret == 0 || ret == -1
    ensures ret == 0 ==> code == Code(exts[..]) < Pow2(56)
  {
    hide Narrow, Pow2, IsExt;
    var low: nat, high: nat := 0, Pow2(CODE_BITS) - 1;
    code := 0;
    ghost var all := exts[..];
    var i: nat := 0;
    WholeInterval(all);
    while i < 64
      invariant i <= 64 && (forall k | 0 <= k < |all| :: IsExt(all[k])) && Interval(low, high) == NarrowAll(all[..i])
      invariant forall k {:trigger all[..k]} | 0 < k <= i :: Wide(NarrowAll(all[..k]))
      invariant low <= high
    {
      NextInterval(all, i);
      low, high := NarrowBy(low, high, exts[i]);
      if !Wide(Interval(low, high)) {
        return -1, 0;
      }
      i := i + 1;
    }
    assert all[..64] == all;
    CodeInside(all, 0);
    return 0, low;
  }

  lemma WholeInterval(exts: seq<Ext>)
    ensures NarrowAll(exts[..0]) == Interval(0, Pow2(CODE_BITS) - 1)
  {
    assert exts[..0] == [];
  }

  lemma NextInterval(exts: seq<Ext>, i: nat)
    requires i < |exts| && forall k | 0 <= k < |exts| :: IsExt(exts[k])
    ensures var a := NarrowAll(exts[..i]);
            a.low <= a.high && NarrowAll(exts[..i + 1]) == Narrow(a, exts[i]) &&
            NarrowAll(exts[..i + 1]).low <= NarrowAll(exts[..i + 1]).high
  {
    assert exts[..i + 1][..i] == exts[..i];
  }

  // ---- decoding -----------------------------------------------------------------------------

  /** One turn of decode_ext: the extension whose interval the code lies in. The search for its length
      ends because that interval exists. */
  method DecodeOne(code: nat, low0: nat, high0: nat, ghost ext: Ext) returns (low: nat, high: nat, out: Ext)
    requires low0 <= high0 && IsExt(ext)
    requires Wide(Narrow(Interval(low0, high0), ext))
    requires Narrow(Interval(low0, high0), ext).low <= code < Narrow(Interval(low0, high0), ext).high
    ensures out == ext && Interval(low, high) == Narrow(Interval(low0, high0), ext)
  {
    hide Shr, Times, LengthPiece, Piece, Pow2;
    ghost var goal := Narrow(Interval(low0, high0), ext);
    NarrowWithin(Interval(low0, high0), ext);
    var range: nat := high0 - low0;
    var gap: nat := Shr(range, 1) + Shr(range, 2) + Shr(range, 3) + Shr(range, 5);
    low, high := low0, high0;
    if low + gap > code {
      NoBits(ext);
      return low, low + gap, Ext(0, 0);
    }
    low := low + gap;
    gap := Shr(range, 5) + Shr(range, 6);
    var len: nat := 1;
    LengthPieceWithin(low, gap, ext, ext.len);
    while low + gap <= code
      invariant 1 <= len <= ext.len && goal == LengthPiece(low, gap, ext, ext.len - len + 1)
      invariant len < ext.len <==> low + gap <= code
      decreases ext.len - len
    {
      NextLength(low, gap, ext, ext.len - len + 1);
      low := low + gap;
      gap := Shr(gap, 1);
      len := len + 1;
      LengthPieceWithin(low, gap, ext, ext.len - len + 1);
    }
    LastLength(low, gap, ext);
    gap := Shr(gap, len);
    var bits := Ratio(code - low, gap, ext.bits);
    low := low + Times(bits, gap);
    high := low + gap;
    out := Ext(bits, len);
  }

  lemma NoBits(ext: Ext)
    requires IsExt(ext)
    ensures ext.len == 0 ==> ext.bits == 0
  {
  }

  lemma NextLength(low: nat, gap: nat, ext: Ext, len: nat)
    requires len > 1
    ensures LengthPiece(low, gap, ext, len) == LengthPiece(low + gap, Shr(gap, 1), ext, len - 1)
  {
  }

  lemma LastLength(low: nat, gap: nat, ext: Ext)
    ensures LengthPiece(low, gap, ext, 1)
         == Interval(low + Times(ext.bits, Shr(gap, ext.len)), low + Times(ext.bits, Shr(gap, ext.len))
             + Shr(gap, ext.len))
  {
  }

  /** The number of the piece that the offset lies in. */
  method Ratio(offset: nat, gap: nat, ghost bits: nat) returns (b: nat)
    requires gap > 0 && Times(bits, gap) <= offset < Times(bits, gap) + gap
    ensures b == bits
  {
    DivModUnique(offset, gap, bits, offset - Times(bits, gap));
    b := offset / gap;
  }

  /** decode_ext (src/taf.cc:678-717) on a code that encode_ext produced: the extensions come back. */
  method DecodeExt(code: nat, exts: array<Ext>, ghost all: seq<Ext>)
    requires exts.Length == 64 == |all| && Encodable(all) && code == Code(all)
    modifies exts
    ensures exts[..] == all
  {
    hide Narrow, Pow2, IsExt;
    var low: nat, high: nat := 0, Pow2(CODE_BITS) - 1;
    WholeInterval(all);
    var i: nat := 0;
    while i < 64
      invariant i <= 64 && Interval(low, high) == NarrowAll(all[..i]) && low <= high
      invariant exts[..i] == all[..i]
    {
      NextInterval(all, i);
      CodeInside(all, i + 1);
      assert Wide(NarrowAll(all[..i + 1]));
      var ext;
      low, high, ext := DecodeOne(code, low, high, all[i]);
      exts[i] := ext;
      assert exts[..i + 1] == exts[..i] + [ext];
      assert all[..i + 1] == all[..i] + [all[i]];
      i := i + 1;
    }
    assert all[..64] == all;
  }
}
