/** What the arithmetic coders of src/taf.cc have room for: the interval that an extension or a selector
    leaves is its probability's share of the interval before, up to the rounding of the shifts. */
module CodingCapacity {
  import opened Numbers
  import opened Hashes
  import opened ExtensionCoding
  import opened SelectorCoding

  // ---- rounding -----------------------------------------------------------------------------------

  /** g halved k times. */
  function Halved(g: real, k: nat): real {
    if k == 0 then g else Halved(g, k - 1) / 2.0
  }

  lemma {:induction false} HalvedMonotone(g: real, h: real, k: nat)
    requires g <= h
    ensures Halved(g, k) <= Halved(h, k)
  {
    if k == 0 {
    } else {
      HalvedMonotone(g, h, k - 1);
    }
  }

  lemma {:induction false} HalvedLess(g: real, c: real, k: nat)
    requires c >= 0.0
    ensures Halved(g - c, k) >= Halved(g, k) - c
    ensures k > 0 ==> Halved(g - c, k) >= Halved(g, k) - c / 2.0
  {
    if k == 0 {
    } else {
      HalvedLess(g, c, k - 1);
    }
  }

  lemma {:induction false} HalvedTwice(g: real, j: nat, k: nat)
    ensures Halved(Halved(g, j), k) == Halved(g, j + k)
  {
    if k == 0 {
    } else {
      HalvedTwice(g, j, k - 1);
    }
  }

  lemma ShrOnce(x: nat, k: nat)
    ensures Shr(x, k + 1) == Shr(Shr(x, k), 1)
  {
    Pow2Add(k, 1);
    DivDiv(x, Pow2(k), 2);
  }

  lemma HalfShr(x: nat)
    ensures 2 * Shr(x, 1) <= x <= 2 * Shr(x, 1) + 1
  {
  }

  /** A shift by k loses less than one point. */
  lemma {:induction false} ShrIsHalved(x: nat, k: nat)
    ensures Halved(x as real, k) - 1.0 <= Shr(x, k) as real <= Halved(x as real, k)
  {
    hide Shr;
    if k == 0 {
      ShrNothing(x);
    } else {
      ShrIsHalved(x, k - 1);
      ShrOnce(x, k - 1);
      HalfShr(Shr(x, k - 1));
    }
  }

  lemma ShrNothing(x: nat)
    ensures Shr(x, 0) == x
  {
  }

  // ---- extensions ---------------------------------------------------------------------------------

  /** The share of a width w that an extension of length len gets: 29/32 for an empty one, and 3/64 for
      the length 1 and half as much for each further unit of length, in 2^len equal pieces. */
  function ExtShare(w: real, len: nat): real {
    if len == 0 then w * 29.0 / 32.0 else Halved(w * 3.0 / 64.0, 2 * len - 1)
  }

  function Width(a: Interval): int {
    a.high - a.low
  }

  lemma EmptyWidth(range: nat)
    ensures 29 * range - 128 <= 32 * EmptyGap(range) <= 29 * range
  {
    hide Shr;
    HalfIs(range, 1, 2);
    HalfIs(range, 2, 4);
    HalfIs(range, 3, 8);
    HalfIs(range, 5, 32);
  }

  lemma LengthWidth(range: nat)
    ensures 3 * range - 128 <= 64 * LengthGap(range) <= 3 * range
  {
    hide Shr;
    HalfIs(range, 5, 32);
    HalfIs(range, 6, 64);
  }

  lemma {:induction false} ShrTwice(x: nat, j: nat, k: nat)
    ensures Shr(Shr(x, j), k) == Shr(x, j + k)
  {
    hide Shr;
    if k == 0 {
      ShrNothing(Shr(x, j));
    } else {
      ShrTwice(x, j, k - 1);
      ShrOnce(x, j + k - 1);
      ShrOnce(Shr(x, j), k - 1);
    }
  }

  lemma {:induction false} PieceWidth(low: nat, gap: nat, ext: Ext, len: nat)
    requires len > 0
    ensures Width(LengthPiece(low, gap, ext, len)) == Shr(gap, len - 1 + ext.len)
    decreases len
  {
    hide Shr;
    if len == 1 {
    } else {
      PieceWidth(low + gap, Shr(gap, 1), ext, len - 1);
      ShrTwice(gap, 1, len - 2 + ext.len);
    }
  }

  /** One extension leaves its share, less at most four points. */
  lemma ExtWidth(a: Interval, ext: Ext)
    requires a.low <= a.high
    ensures ExtShare(Width(a) as real, ext.len) - 4.0 <= Width(Narrow(a, ext)) as real <= ExtShare(Width(a) as real, ext.len)
  {
    hide Shr, EmptyGap, LengthGap, LengthPiece;
    var range: nat := Width(a);
    if ext.len == 0 {
      EmptyWidth(range);
    } else {
      var gap, k := LengthGap(range), 2 * ext.len - 1;
      PieceWidth(a.low + EmptyGap(range), gap, ext, ext.len);
      ShrIsHalved(gap, k);
      LengthWidth(range);
      var ideal := range as real * 3.0 / 64.0;
      assert ideal - 2.0 <= gap as real <= ideal;
      HalvedMonotone(ideal - 2.0, gap as real, k);
      HalvedMonotone(gap as real, ideal, k);
      HalvedLess(ideal, 2.0, k);
    }
  }

  /** The width that a list of extensions leaves of w, without rounding. */
  ghost function ExtShares(w: real, exts: seq<Ext>): real {
    if exts == [] then w else ExtShare(ExtShares(w, exts[..|exts| - 1]), exts[|exts| - 1].len)
  }

  lemma {:induction false} HalvedAdds(g: real, h: real, k: nat)
    ensures Halved(g + h, k) == Halved(g, k) + Halved(h, k)
  {
    if k == 0 {
    } else {
      HalvedAdds(g, h, k - 1);
    }
  }

  lemma {:induction false} HalvedSmall(g: real, k: nat)
    requires g >= 0.0
    ensures 0.0 <= Halved(g, k) <= g
    ensures k > 0 ==> Halved(g, k) <= g / 2.0
  {
    if k == 0 {
    } else {
      HalvedSmall(g, k - 1);
    }
  }

  lemma ExtShareMonotone(v: real, w: real, len: nat)
    requires v <= w
    ensures ExtShare(v, len) <= ExtShare(w, len)
  {
    if len > 0 {
      HalvedMonotone(v * 3.0 / 64.0, w * 3.0 / 64.0, 2 * len - 1);
    }
  }

  /** 43 points make up for the rounding of all later extensions. */
  lemma ExtShareSlack(w: real, len: nat)
    ensures ExtShare(w - 43.0, len) - 4.0 >= ExtShare(w, len) - 43.0
  {
    if len > 0 {
      HalvedAdds((w - 43.0) * 3.0 / 64.0, 43.0 * 3.0 / 64.0, 2 * len - 1);
      HalvedSmall(43.0 * 3.0 / 64.0, 2 * len - 1);
      assert w * 3.0 / 64.0 == (w - 43.0) * 3.0 / 64.0 + 43.0 * 3.0 / 64.0;
    }
  }

  const WHOLE: nat := 0xff_ffff_ffff_ffff

  lemma WholeWidth()
    ensures Width(Whole()) == WHOLE
  {
    hide Pow2;
    Bits7();
    Pow2Add(7, 7);
    Pow2Add(14, 14);
    Pow2Add(28, 28);
  }

  lemma Bits7()
    ensures Pow2(7) == 128
  {
  }

  ghost predicate AreExts(exts: seq<Ext>) {
    forall i | 0 <= i < |exts| :: IsExt(exts[i])
  }

  /** The interval of a list of extensions is as wide as their shares, up to 43 points. */
  lemma {:induction false} ExtsWidth(exts: seq<Ext>)
    requires AreExts(exts)
    ensures ExtShares(WHOLE as real + 43.0, exts) - 43.0 <= Width(NarrowAll(exts)) as real <= ExtShares(WHOLE as real, exts)
  {
    hide Narrow, Pow2, IsExt, ExtShare;
    if exts == [] {
      WholeWidth();
    } else {
      var n := |exts| - 1;
      var a, len := NarrowAll(exts[..n]), exts[n].len;
      ExtsWidth(exts[..n]);
      ExtWidth(a, exts[n]);
      var w := ExtShares(WHOLE as real + 43.0, exts[..n]);
      ExtShareSlack(w, len);
      ExtShareMonotone(w - 43.0, Width(a) as real, len);
      ExtShareMonotone(Width(a) as real, ExtShares(WHOLE as real, exts[..n]), len);
    }
  }

  lemma {:induction false} SharesShrink(w: real, exts: seq<Ext>, i: nat)
    requires i <= |exts| && w >= 0.0
    ensures 0.0 <= ExtShares(w, exts) <= ExtShares(w, exts[..i])
    decreases |exts|
  {
    if i == |exts| {
      assert exts[..i] == exts;
      SharesPositive(w, exts);
    } else {
      var n := |exts| - 1;
      SharesShrink(w, exts[..n], i);
      assert exts[..n][..i] == exts[..i];
      ShareIsPart(ExtShares(w, exts[..n]), exts[n].len);
    }
  }

  lemma {:induction false} SharesPositive(w: real, exts: seq<Ext>)
    requires w >= 0.0
    ensures ExtShares(w, exts) >= 0.0
  {
    if exts == [] {
    } else {
      SharesPositive(w, exts[..|exts| - 1]);
      ShareIsPart(ExtShares(w, exts[..|exts| - 1]), exts[|exts| - 1].len);
    }
  }

  lemma ShareIsPart(w: real, len: nat)
    requires w >= 0.0
    ensures 0.0 <= ExtShare(w, len) <= w
  {
    if len > 0 {
      HalvedSmall(w * 3.0 / 64.0, 2 * len - 1);
    }
  }

  /** Extensions are encodable if their share of the code points is at least 45, and only if it is at
      least 2. */
  lemma ExtsEncodable(exts: seq<Ext>)
    requires AreExts(exts)
    ensures ExtShares(WHOLE as real + 43.0, exts) >= 45.0 ==> Encodable(exts)
    ensures Encodable(exts) && exts != [] ==> ExtShares(WHOLE as real, exts) >= 2.0
  {
    hide NarrowAll, IsExt, ExtShares;
    if ExtShares(WHOLE as real + 43.0, exts) >= 45.0 {
      forall i | 0 < i <= |exts|
        ensures Wide(NarrowAll(exts[..i]))
      {
        SharesShrink(WHOLE as real + 43.0, exts, i);
        ExtsWidth(exts[..i]);
      }
    }
    if Encodable(exts) && exts != [] {
      assert exts[..|exts|] == exts;
      assert Wide(NarrowAll(exts[..|exts|]));
      ExtsWidth(exts);
    }
  }

  // ---- a few extensions of length 1 -----------------------------------------------------------------

  /** How many of the extensions are nonempty. */
  ghost function Nonempty(exts: seq<Ext>): (n: nat)
    ensures n <= |exts|
  {
    if exts == [] then 0 else Nonempty(exts[..|exts| - 1]) + if exts[|exts| - 1].len == 0 then 0 else 1
  }

  /** What a empty extensions and b of length 1 leave of w, wherever they stand. */
  function Left(w: real, a: nat, b: nat): real {
    if a > 0 then Left(w, a - 1, b) * 29.0 / 32.0
    else if b > 0 then Left(w, 0, b - 1) * 3.0 / 128.0
    else w
  }

  lemma {:induction false} LeftLater(w: real, a: nat, b: nat)
    ensures Left(w, a, b + 1) == Left(w, a, b) * 3.0 / 128.0
  {
    if a == 0 {
    } else {
      LeftLater(w, a - 1, b);
    }
  }

  lemma {:induction false} SharesAreLeft(w: real, exts: seq<Ext>)
    requires forall i | 0 <= i < |exts| :: exts[i].len <= 1
    ensures ExtShares(w, exts) == Left(w, |exts| - Nonempty(exts), Nonempty(exts))
  {
    if exts == [] {
    } else {
      var n := |exts| - 1;
      SharesAreLeft(w, exts[..n]);
      if exts[n].len > 0 {
        LeftLater(w, n - Nonempty(exts[..n]), Nonempty(exts[..n]));
        HalvedOnce(ExtShares(w, exts[..n]) * 3.0 / 64.0);
      }
    }
  }

  lemma HalvedOnce(g: real)
    ensures Halved(g, 1) == g / 2.0
  {
    assert Halved(g, 0) == g;
  }

  lemma {:induction false} LeftAtLeast(w: real, a: nat, b: nat, a': nat, b': nat)
    requires w >= 0.0 && a <= a' && b <= b'
    ensures 0.0 <= Left(w, a', b') <= Left(w, a, b)
    decreases a' + b'
  {
    if a < a' {
      LeftAtLeast(w, a, b, a' - 1, b');
    } else if b < b' {
      LeftAtLeast(w, a, b, a', b' - 1);
      LeftLater(w, a', b' - 1);
    } else {
      LeftPositive(w, a, b);
    }
  }

  lemma {:induction false} LeftPositive(w: real, a: nat, b: nat)
    requires w >= 0.0
    ensures Left(w, a, b) >= 0.0
    decreases a + b
  {
    if a > 0 {
      LeftPositive(w, a - 1, b);
    } else if b > 0 {
      LeftPositive(w, 0, b - 1);
    }
  }

  lemma EightEmpty(w: real, a: nat, b: nat)
    requires w >= 0.0
    ensures Left(w, a + 8, b) >= Left(w, a, b) * 0.45
  {
    LeftPositive(w, a, b);
    var l := Left(w, a, b);
    assert Left(w, a + 1, b) == l * 29.0 / 32.0;
    assert Left(w, a + 2, b) >= l * 0.82;
    assert Left(w, a + 4, b) >= l * 0.67 by {
      assert Left(w, a + 3, b) >= l * 0.74;
    }
    assert Left(w, a + 6, b) >= l * 0.549 by {
      assert Left(w, a + 5, b) >= l * 0.607;
    }
    assert Left(w, a + 7, b) >= l * 0.497;
  }

  lemma SevenIsEnough()
    ensures Left(WHOLE as real + 43.0, 57, 7) >= 45.0
  {
    var w := WHOLE as real + 43.0;
    EightEmpty(w, 0, 7);
    EightEmpty(w, 8, 7);
    EightEmpty(w, 16, 7);
    EightEmpty(w, 24, 7);
    EightEmpty(w, 32, 7);
    EightEmpty(w, 40, 7);
    EightEmpty(w, 48, 7);
    assert Left(w, 57, 7) == Left(w, 56, 7) * 29.0 / 32.0;
    assert Left(w, 0, 1) == w * 3.0 / 128.0;
    assert Left(w, 0, 3) == Left(w, 0, 1) * 9.0 / 16384.0 by {
      assert Left(w, 0, 2) == Left(w, 0, 1) * 3.0 / 128.0;
    }
    assert Left(w, 0, 5) == Left(w, 0, 3) * 9.0 / 16384.0 by {
      assert Left(w, 0, 4) == Left(w, 0, 3) * 3.0 / 128.0;
    }
    assert Left(w, 0, 7) == Left(w, 0, 5) * 9.0 / 16384.0 by {
      assert Left(w, 0, 6) == Left(w, 0, 5) * 3.0 / 128.0;
    }
  }

  /** Up to seven extensions of one bit in a block are encodable, wherever they stand. */
  lemma SevenBitsEncodable(exts: seq<Ext>)
    requires |exts| == 64 && AreExts(exts) && (forall i | 0 <= i < 64 :: exts[i].len <= 1) && Nonempty(exts) <= 7
    ensures Encodable(exts)
  {
    hide ExtShares, Encodable, Left, IsExt;
    var w, b := WHOLE as real + 43.0, Nonempty(exts);
    SharesAreLeft(w, exts);
    SevenIsEnough();
    SwapEmpty(w, 57, b, 7 - b);
    ExtsEncodable(exts);
  }

  /** Empty extensions instead of nonempty ones leave more. */
  lemma {:induction false} SwapEmpty(w: real, a: nat, b: nat, n: nat)
    requires w >= 0.0
    ensures Left(w, a + n, b) >= Left(w, a, b + n)
  {
    if n == 0 {
    } else {
      SwapEmpty(w, a, b, n - 1);
      LeftPositive(w, a, b + n - 1);
      LeftPositive(w, a + n - 1, b);
      LeftLater(w, a, b + n - 1);
    }
  }

  // ---- selectors ----------------------------------------------------------------------------------

  /** The share of a width w that a selector gets. */
  function SelShare(w: real, k: nat): real {
    match k
    case 0 => w * 25.0 / 32.0
    case 1 => w * 101.0 / 512.0
    case 2 => w * 5.0 / 256.0
    case 3 => w * 3.0 / 2048.0
    case 4 => w * 5.0 / 65536.0
    case 5 => w * 25.0 / 8388608.0
    case 6 => w * 7.0 / 67108864.0
    case _ => 0.0
  }

  /** One selector leaves its share, less at most four points. */
  lemma SelWidth(range: nat, k: nat)
    requires k <= 6
    ensures SelShare(range as real, k) - 4.0 <= Gap(range, k) as real <= SelShare(range as real, k)
  {
    hide Shr;
    GapsScaled(range);
    HalfIs(range, 1, 2);
    HalfIs(range, 2, 4);
    HalfIs(range, 3, 8);
    HalfIs(range, 4, 16);
    HalfIs(range, 5, 32);
    HalfIs(range, 6, 64);
    HalfIs(range, 7, 128);
    HalfIs(range, 8, 256);
    HalfIs(range, 9, 512);
    HalfIs(range, 10, 1024);
    HalfIs(range, 11, 2048);
    HalfIs(range, 14, 16384);
    HalfIs(range, 16, 65536);
    HalfIs(range, 19, 524288);
    HalfIs(range, 20, 1048576);
    HalfIs(range, 23, 8388608);
    HalfIs(range, 24, 16777216);
    HalfIs(range, 25, 33554432);
    HalfIs(range, 26, 67108864);
  }

  lemma SelShareMonotone(v: real, w: real, k: nat)
    requires v <= w && k <= 6
    ensures SelShare(v, k) <= SelShare(w, k)
  {
  }

  lemma SelShareIsPart(w: real, k: nat)
    requires k <= 6
    ensures SelShare(w - 19.0, k) - 4.0 >= SelShare(w, k) - 19.0
    ensures w >= 0.0 ==> SelShare(w, 6) <= SelShare(w, k) && 0.0 <= SelShare(w, k) <= w
    ensures SelShare(SelShare(w, k), 0) == SelShare(SelShare(w, 0), k)
  {
  }

  /** The width that a list of selectors leaves of w, without rounding. */
  ghost function SelShares(w: real, sels: seq<nat>): real {
    if sels == [] then w else SelShare(SelShares(w, sels[..|sels| - 1]), sels[|sels| - 1])
  }

  lemma {:induction false} SelsWidth(sels: seq<nat>)
    requires AreSelectors(sels)
    ensures SelShares(WHOLE as real + 19.0, sels) - 19.0 <= Width(SelectAll(sels)) as real <= SelShares(WHOLE as real, sels)
  {
    hide Pow2, Gap, SelShare, Below;
    if sels == [] {
      WholeWidth();
    } else {
      var n := |sels| - 1;
      SelsWidth(sels[..n]);
      var a, k := SelectAll(sels[..n]), sels[n];
      SelWidth(Width(a), k);
      SelShareMonotone(SelShares(WHOLE as real + 19.0, sels[..n]) - 19.0, Width(a) as real, k);
      SelShareMonotone(Width(a) as real, SelShares(WHOLE as real, sels[..n]), k);
      SelShareIsPart(SelShares(WHOLE as real + 19.0, sels[..n]), k);
    }
  }

  lemma {:induction false} SelSharesShrink(w: real, sels: seq<nat>, i: nat)
    requires i <= |sels| && w >= 0.0 && AreSelectors(sels)
    ensures 0.0 <= SelShares(w, sels) <= SelShares(w, sels[..i])
    decreases |sels|
  {
    hide SelShare;
    if i == |sels| {
      assert sels[..i] == sels;
      if sels != [] {
        SelSharesShrink(w, sels[..|sels| - 1], |sels| - 1);
        SelShareIsPart(SelShares(w, sels[..|sels| - 1]), sels[|sels| - 1]);
      }
    } else {
      var n := |sels| - 1;
      SelSharesShrink(w, sels[..n], i);
      assert sels[..n][..i] == sels[..i];
      SelShareIsPart(SelShares(w, sels[..n]), sels[n]);
    }
  }

  /** Selectors are encodable if their share of the code points is at least 21, and only if it is at least
      2. */
  lemma SelsEncodable(sels: seq<nat>)
    requires AreSelectors(sels)
    ensures SelShares(WHOLE as real + 19.0, sels) >= 21.0 ==> SelEncodable(sels)
    ensures SelEncodable(sels) && sels != [] ==> SelShares(WHOLE as real, sels) >= 2.0
  {
    hide SelectAll, SelShares;
    if SelShares(WHOLE as real + 19.0, sels) >= 21.0 {
      forall i | 0 < i <= |sels|
        ensures Wide(SelectAll(sels[..i]))
      {
        SelSharesShrink(WHOLE as real + 19.0, sels, i);
        SelsWidth(sels[..i]);
      }
    }
    if SelEncodable(sels) && sels != [] {
      assert sels[..|sels|] == sels;
      assert Wide(SelectAll(sels[..|sels|]));
      SelsWidth(sels);
    }
  }

  /** What n zeros leave of w. */
  function ZerosLeave(w: real, n: nat): real {
    if n == 0 then w else SelShare(ZerosLeave(w, n - 1), 0)
  }

  lemma {:induction false} OneAmongZeros(w: real, i: nat, k: nat, j: nat)
    requires i < 64 && k <= 6 && j <= 64
    ensures SelShares(w, Zeros(64)[i := k][..j])
         == if j <= i then ZerosLeave(w, j) else SelShare(ZerosLeave(w, j - 1), k)
  {
    hide SelShare;
    var s := Zeros(64)[i := k];
    if j == 0 {
    } else {
      OneAmongZeros(w, i, k, j - 1);
      assert s[..j][..j - 1] == s[..j - 1];
      if j > i + 1 {
        SelShareIsPart(ZerosLeave(w, j - 2), k);
      }
    }
  }

  lemma EightZeros(w: real, n: nat)
    requires ZerosLeave(w, n) >= 0.0
    ensures ZerosLeave(w, n + 8) >= ZerosLeave(w, n) * 0.138
  {
    var l := ZerosLeave(w, n);
    assert ZerosLeave(w, n + 2) == l * 625.0 / 1024.0 by {
      assert ZerosLeave(w, n + 1) == l * 25.0 / 32.0;
    }
    assert ZerosLeave(w, n + 4) == ZerosLeave(w, n + 2) * 625.0 / 1024.0 by {
      assert ZerosLeave(w, n + 3) == ZerosLeave(w, n + 2) * 25.0 / 32.0;
    }
    assert ZerosLeave(w, n + 6) == ZerosLeave(w, n + 4) * 625.0 / 1024.0 by {
      assert ZerosLeave(w, n + 5) == ZerosLeave(w, n + 4) * 25.0 / 32.0;
    }
    assert ZerosLeave(w, n + 8) == ZerosLeave(w, n + 6) * 625.0 / 1024.0 by {
      assert ZerosLeave(w, n + 7) == ZerosLeave(w, n + 6) * 25.0 / 32.0;
    }
  }

  lemma SixtyThreeZeros()
    ensures SelShare(ZerosLeave(WHOLE as real + 19.0, 63), 6) >= 21.0
  {
    hide ZerosLeave;
    var w := WHOLE as real + 19.0;
    NoZeros(w);
    EightZeros(w, 0);
    EightZeros(w, 8);
    EightZeros(w, 16);
    EightZeros(w, 24);
    EightZeros(w, 32);
    EightZeros(w, 40);
    EightZeros(w, 48);
    EightZeros(w, 56);
    LastZero(w);
  }

  lemma NoZeros(w: real)
    ensures ZerosLeave(w, 0) == w
  {
  }

  lemma LastZero(w: real)
    ensures ZerosLeave(w, 64) == ZerosLeave(w, 63) * 25.0 / 32.0
  {
  }

  /** One selector other than zero is always encodable, wherever it stands. */
  lemma OneSelectorEncodable(i: nat, k: nat)
    requires i < 64 && k <= 6
    ensures SelEncodable(Zeros(64)[i := k])
  {
    hide SelShare, SelShares, ZerosLeave, SelEncodable;
    var w, s := WHOLE as real + 19.0, Zeros(64)[i := k];
    OneAmongZeros(w, i, k, 64);
    assert s[..64] == s;
    SixtyThreeZeros();
    ZerosLeavePositive(w, 63);
    SelShareIsPart(ZerosLeave(w, 63), k);
    SelsEncodable(s);
  }

  lemma {:induction false} ZerosLeavePositive(w: real, n: nat)
    requires w >= 0.0
    ensures ZerosLeave(w, n) >= 0.0
  {
    if n == 0 {
    } else {
      ZerosLeavePositive(w, n - 1);
    }
  }
}
