/** The broadword select of src/gqf.c: the position of the k-th set bit of a word, computed by adding
    and comparing all bytes at once, is the position that the bit-by-bit definition gives. Words are
    numbers below 2^64, arithmetic wraps around. */
module Broadword {
  import opened Numbers
  import opened Hashes
  import W = Words

  // ---- bitwise operations on numbers, digit by digit --------------------------------------------

  /** a & b */
  function BitAnd(a: nat, b: nat): (c: nat)
    ensures c <= a
    decreases a
  {
    if a == 0 then 0 else (if a % 2 == 1 && b % 2 == 1 then 1 else 0) + 2 * BitAnd(a / 2, b / 2)
  }

  lemma BitAndHalves(a: nat, b: nat)
    ensures BitAnd(a, b) / 2 == BitAnd(a / 2, b / 2) && BitAnd(a, b) % 2 == if a % 2 == 1 && b % 2 == 1 then 1 else 0
  {
  }

  /** The word with the low w bits a and the others h. */
  function Join(a: nat, h: nat, w: nat): nat {
    a + Pow2(w) * h
  }

  lemma JoinHalf(a: nat, h: nat, w: nat)
    requires w > 0
    ensures Join(a, h, w) / 2 == Join(a / 2, h, w - 1) && Join(a, h, w) % 2 == a % 2
    ensures a < Pow2(w) ==> a / 2 < Pow2(w - 1)
  {
    MulDouble(Pow2(w - 1), h);
  }

  lemma JoinNothing(h: nat)
    ensures Join(0, h, 0) == h && Pow2(0) == 1
  {
  }

  lemma BitAndZeros()
    ensures BitAnd(0, 0) == 0
  {
  }

  /** The low w bits and the others are combined separately. */
  lemma {:induction false} BitAndSplit(a: nat, h: nat, b: nat, g: nat, w: nat)
    requires a < Pow2(w) && b < Pow2(w)
    ensures BitAnd(Join(a, h, w), Join(b, g, w)) == Join(BitAnd(a, b), BitAnd(h, g), w)
    decreases w
  {
    hide BitAnd, Join;
    if w > 0 {
      JoinHalf(a, h, w);
      JoinHalf(b, g, w);
      JoinHalf(BitAnd(a, b), BitAnd(h, g), w);
      BitAndSplit(a / 2, h, b / 2, g, w - 1);
      BitAndHalves(Join(a, h, w), Join(b, g, w));
      BitAndHalves(a, b);
    } else {
      JoinNothing(h);
      JoinNothing(g);
      JoinNothing(BitAnd(h, g));
      BitAndZeros();
    }
  }

  lemma {:induction false} BitAndOnes(a: nat, w: nat)
    requires a < Pow2(w)
    ensures BitAnd(a, Pow2(w) - 1) == a
    decreases w
  {
    if w > 0 && a > 0 {
      assert (Pow2(w) - 1) / 2 == Pow2(w - 1) - 1;
      BitAndOnes(a / 2, w - 1);
    }
  }

  lemma {:induction false} BitAndZero(a: nat)
    ensures BitAnd(a, 0) == 0
  {
    if a == 0 {
    } else {
      BitAndZero(a / 2);
    }
  }

  function AndDigits(d: seq<nat>, m: seq<nat>): (e: seq<nat>)
    requires |d| == |m|
    ensures |e| == |d|
  {
    seq(|d|, i requires 0 <= i < |d| => BitAnd(d[i], m[i]))
  }

  lemma {:induction false} AndValue(d: seq<nat>, m: seq<nat>, w: nat)
    requires |d| == |m| && Digits(d, w) && Digits(m, w)
    ensures BitAnd(Value(d, w), Value(m, w)) == Value(AndDigits(d, m), w)
  {
    if d == [] {
    } else {
      assert AndDigits(d, m)[1..] == AndDigits(d[1..], m[1..]);
      AndValue(d[1..], m[1..], w);
      BitAndSplit(d[0], Value(d[1..], w), m[0], Value(m[1..], w), w);
    }
  }

  function AddDigits(a: seq<nat>, b: seq<nat>): (c: seq<nat>)
    requires |a| == |b|
    ensures |c| == |a|
  {
    seq(|a|, i requires 0 <= i < |a| => a[i] + b[i])
  }

  lemma {:induction false} AddValue(a: seq<nat>, b: seq<nat>, w: nat)
    requires |a| == |b|
    ensures Value(a, w) + Value(b, w) == Value(AddDigits(a, b), w)
  {
    if a == [] {
    } else {
      assert AddDigits(a, b)[1..] == AddDigits(a[1..], b[1..]);
      AddValue(a[1..], b[1..], w);
      AddProduct(Pow2(w), Value(a[1..], w), Value(b[1..], w));
    }
  }

  lemma AddProduct(p: nat, x: nat, y: nat)
    ensures p * (x + y) == p * x + p * y
  {
  }

  // ---- pairing digits ---------------------------------------------------------------------------

  function Evens(d: seq<nat>): (e: seq<nat>)
    ensures |e| == |d| / 2
  {
    seq(|d| / 2, i requires 0 <= i < |d| / 2 => d[2 * i])
  }

  function Odds(d: seq<nat>): (e: seq<nat>)
    ensures |e| == |d| / 2
  {
    seq(|d| / 2, i requires 0 <= i < |d| / 2 => d[2 * i + 1])
  }

  /** The sums of neighbouring digits. */
  function Pairs(d: seq<nat>): (e: seq<nat>)
    ensures |e| == |d| / 2 && forall i | 0 <= i < |e| :: e[i] == d[2 * i] + d[2 * i + 1]
  {
    AddDigits(Evens(d), Odds(d))
  }

  /** A word is its even and its odd digits, in the square of the base. */
  lemma {:induction false} SplitValue(d: seq<nat>, w: nat)
    requires |d| % 2 == 0
    ensures Value(d, w) == Value(Evens(d), 2 * w) + Pow2(w) * Value(Odds(d), 2 * w)
    decreases |d|
  {
    if d == [] {
    } else {
      assert Evens(d)[1..] == Evens(d[2..]) && Odds(d)[1..] == Odds(d[2..]) && d[1..][1..] == d[2..];
      SplitValue(d[2..], w);
      Pow2Add(w, w);
      var p, e, o := Pow2(w), Value(Evens(d[2..]), 2 * w), Value(Odds(d[2..]), 2 * w);
      Distribute(p, d[0], d[1], e, o);
    }
  }

  lemma Distribute(p: nat, x: nat, y: nat, e: nat, o: nat)
    ensures x + p * (y + p * (e + p * o)) == (x + p * p * e) + p * (y + p * p * o)
  {
    calc {
      x + p * (y + p * (e + p * o));
      x + (p * y + p * (p * (e + p * o)));
      { assert p * (p * (e + p * o)) == p * p * (e + p * o); }
      { assert p * p * (e + p * o) == p * p * e + p * p * (p * o); }
      x + p * y + p * p * e + p * p * (p * o);
      { assert p * p * (p * o) == p * (p * p * o); }
      (x + p * p * e) + p * (y + p * p * o);
    }
  }

  lemma {:induction false} ZeroValue(z: seq<nat>, w: nat)
    requires forall i | 0 <= i < |z| :: z[i] == 0
    ensures Value(z, w) == 0
  {
    if z == [] {
    } else {
      ZeroValue(z[1..], w);
      assert Pow2(w) * 0 == 0;
    }
  }

  function Repeat(v: nat, n: nat): (d: seq<nat>)
    ensures |d| == n && forall i | 0 <= i < n :: d[i] == v
  {
    seq(n, _ => v)
  }

  /** A repeated digit, times one less than the base. */
  lemma {:induction false} RepeatValue(v: nat, n: nat, w: nat)
    ensures (Pow2(w) - 1) * Value(Repeat(v, n), w) == v * (Pow2(w * n) - 1)
  {
    if n == 0 {
      assert w * 0 == 0;
    } else {
      RepeatValue(v, n - 1, w);
      assert Repeat(v, n)[1..] == Repeat(v, n - 1);
      assert w * n == w + w * (n - 1);
      Pow2Add(w, w * (n - 1));
      GeometricStep(Pow2(w), v, Value(Repeat(v, n - 1), w), Pow2(w * (n - 1)));
    }
  }

  lemma GeometricStep(p: int, v: int, r: int, q: int)
    requires (p - 1) * r == v * (q - 1)
    ensures (p - 1) * (v + p * r) == v * (p * q - 1)
  {
    calc {
      (p - 1) * (v + p * r);
      (p - 1) * v + (p - 1) * (p * r);
      { assert (p - 1) * (p * r) == p * ((p - 1) * r); }
      (p - 1) * v + p * (v * (q - 1));
      { assert p * (v * (q - 1)) == v * (p * q) - v * p; }
      v * (p * q - 1);
    }
  }

  /** The mask that keeps the even digits, and the one that keeps the odd ones. */
  function EvenMask(n: nat, w: nat): (m: seq<nat>)
    ensures |m| == 2 * n
  {
    seq(2 * n, i => if i % 2 == 0 then Pow2(w) - 1 else 0)
  }

  function OddMask(n: nat, w: nat): (m: seq<nat>)
    ensures |m| == 2 * n
  {
    seq(2 * n, i => if i % 2 == 1 then Pow2(w) - 1 else 0)
  }

  lemma MaskDigits(n: nat, w: nat)
    ensures Digits(EvenMask(n, w), w) && Digits(OddMask(n, w), w)
    ensures Evens(EvenMask(n, w)) == Repeat(Pow2(w) - 1, n) && Odds(EvenMask(n, w)) == Repeat(0, n)
    ensures Odds(OddMask(n, w)) == Repeat(Pow2(w) - 1, n) && Evens(OddMask(n, w)) == Repeat(0, n)
  {
    hide Pow2;
  }

  lemma EvenMaskValue(n: nat, w: nat)
    ensures (Pow2(2 * w) - 1) * Value(EvenMask(n, w), w) == (Pow2(w) - 1) * (Pow2(2 * w * n) - 1)
  {
    hide Value, Pow2, EvenMask, OddMask, Evens, Odds;
    MaskDigits(n, w);
    SplitValue(EvenMask(n, w), w);
    ZeroValue(Repeat(0, n), 2 * w);
    RepeatValue(Pow2(w) - 1, n, 2 * w);
  }

  lemma OddMaskValue(n: nat, w: nat)
    ensures var v := Value(Repeat(Pow2(w) - 1, n), 2 * w);
            Value(OddMask(n, w), w) == Pow2(w) * v && (Pow2(2 * w) - 1) * v == (Pow2(w) - 1) * (Pow2(2 * w * n) - 1)
  {
    hide Value, Pow2, EvenMask, OddMask, Evens, Odds;
    MaskDigits(n, w);
    SplitValue(OddMask(n, w), w);
    ZeroValue(Repeat(0, n), 2 * w);
    RepeatValue(Pow2(w) - 1, n, 2 * w);
  }

  lemma Kept(x: nat, w: nat, keep: bool)
    requires x < Pow2(w)
    ensures BitAnd(x, if keep then Pow2(w) - 1 else 0) == if keep then x else 0
  {
    BitAndOnes(x, w);
    BitAndZero(x);
  }

  /** The digits that a mask leaves. */
  lemma MaskedDigits(d: seq<nat>, n: nat, w: nat)
    requires |d| == 2 * n && Digits(d, w)
    ensures var e := AndDigits(d, EvenMask(n, w)); Evens(e) == Evens(d) && Odds(e) == Repeat(0, n)
    ensures var e := AndDigits(d, OddMask(n, w)); Odds(e) == Odds(d) && Evens(e) == Repeat(0, n)
  {
    hide Pow2, BitAnd;
    forall i | 0 <= i < 2 * n
      ensures AndDigits(d, EvenMask(n, w))[i] == if i % 2 == 0 then d[i] else 0
      ensures AndDigits(d, OddMask(n, w))[i] == if i % 2 == 1 then d[i] else 0
    {
      Kept(d[i], w, i % 2 == 0);
      Kept(d[i], w, i % 2 == 1);
    }
  }

  lemma KeepEvens(d: seq<nat>, n: nat, w: nat)
    requires |d| == 2 * n && Digits(d, w)
    ensures BitAnd(Value(d, w), Value(EvenMask(n, w), w)) == Value(Evens(d), 2 * w)
  {
    hide Value, Pow2, BitAnd, EvenMask, OddMask, Evens, Odds, AndDigits;
    MaskDigits(n, w);
    AndValue(d, EvenMask(n, w), w);
    MaskedDigits(d, n, w);
    SplitValue(AndDigits(d, EvenMask(n, w)), w);
    ZeroValue(Repeat(0, n), 2 * w);
  }

  lemma KeepOdds(d: seq<nat>, n: nat, w: nat)
    requires |d| == 2 * n && Digits(d, w)
    ensures BitAnd(Value(d, w), Value(OddMask(n, w), w)) == Pow2(w) * Value(Odds(d), 2 * w)
  {
    hide Value, Pow2, BitAnd, EvenMask, OddMask, Evens, Odds, AndDigits;
    MaskDigits(n, w);
    AndValue(d, OddMask(n, w), w);
    MaskedDigits(d, n, w);
    SplitValue(AndDigits(d, OddMask(n, w)), w);
    ZeroValue(Repeat(0, n), 2 * w);
  }

  // ---- sideways addition ------------------------------------------------------------------------

  const STEP4: nat := 0x1111_1111_1111_1111
  const ONES: nat := 0x0101_0101_0101_0101
  const MSBS: nat := 0x8080_8080_8080_8080

  lemma Powers()
    ensures Pow2(1) == 2 && Pow2(2) == 4 && Pow2(4) == 16 && Pow2(7) == 128 && Pow2(8) == 256
            && Pow2(64) == 0x1_0000_0000_0000_0000
  {
    assert Pow2(16) == 65536;
    Pow2Add(16, 16);
    Pow2Add(32, 32);
  }

  lemma Masks()
    ensures Value(OddMask(32, 1), 1) == 0xA * STEP4
    ensures Value(EvenMask(16, 2), 2) == 0x3 * STEP4
    ensures Value(EvenMask(8, 4), 4) == 0xF * ONES
  {
    hide Value, OddMask, EvenMask, Pow2;
    Powers();
    OddMaskValue(32, 1);
    EvenMaskValue(16, 2);
    EvenMaskValue(8, 4);
  }

  /** a - b, wrapping around */
  function Minus(a: nat, b: nat): nat {
    (a - b) % Pow2(64)
  }

  lemma MinusSmall(a: nat, b: nat)
    requires b <= a < Pow2(64)
    ensures Minus(a, b) == a - b
  {
    hide Pow2;
    DivModUnique(a - b, Pow2(64), 0, a - b);
  }

  /** s - ((s & 0xA..A) >> 1) */
  function Sum2(s: nat): nat { Minus(s, Shr(BitAnd(s, 0xA * STEP4), 1)) }

  /** (s & 0x3..3) + ((s >> 2) & 0x3..3) */
  function Sum4(s: nat): nat { BitAnd(s, 0x3 * STEP4) + BitAnd(Shr(s, 2), 0x3 * STEP4) }

  /** (s + (s >> 4)) & 0x0F..0F */
  function Sum8(s: nat): nat { BitAnd(s + Shr(s, 4), 0xF * ONES) }

  lemma Sum2Pairs(d: seq<nat>)
    requires |d| == 64 && Digits(d, 1)
    ensures Sum2(Value(d, 1)) == Value(Pairs(d), 2)
  {
    hide Value, Pow2, BitAnd, Evens, Odds, AddDigits, Minus;
    Powers();
    Masks();
    KeepOdds(d, 32, 1);
    var o := Value(Odds(d), 2);
    DivModUnique(2 * o, 2, o, 0);
    SplitValue(d, 1);
    ValueBound(d, 1);
    MinusSmall(Value(d, 1), o);
    AddValue(Evens(d), Odds(d), 2);
  }

  /** Shifting by one digit. */
  lemma ShiftDigit(d: seq<nat>, w: nat)
    requires d != [] && Digits(d, w)
    ensures Shr(Value(d, w), w) == Value(d[1..] + [0], w)
  {
    DivModUnique(Value(d, w), Pow2(w), Value(d[1..], w), d[0]);
    ValueAppend(d[1..], 0, w);
    assert 0 * Pow2(w * |d[1..]|) == 0;
  }

  lemma Sum4Pairs(d: seq<nat>)
    requires |d| == 32 && Digits(d, 2)
    ensures Sum4(Value(d, 2)) == Value(Pairs(d), 4)
  {
    hide Value, Pow2, BitAnd, AddDigits;
    Powers();
    Masks();
    KeepEvens(d, 16, 2);
    ShiftDigit(d, 2);
    var e := d[1..] + [0];
    KeepEvens(e, 16, 2);
    assert Evens(e) == Odds(d);
    AddValue(Evens(d), Odds(d), 4);
  }

  lemma Sum8Pairs(d: seq<nat>)
    requires |d| == 16 && forall i | 0 <= i < 16 :: d[i] <= 4
    ensures Sum8(Value(d, 4)) == Value(Pairs(d), 8)
  {
    hide Value, Pow2, BitAnd;
    Powers();
    Masks();
    ShiftDigit(d, 4);
    var e := d[1..] + [0];
    AddValue(d, e, 4);
    var f := AddDigits(d, e);
    KeepEvens(f, 8, 4);
    assert Evens(f) == Pairs(d);
  }

  // ---- adding up and comparing bytes --------------------------------------------------------------

  /** A word by its eight bytes. */
  lemma Value8(d: seq<nat>)
    requires |d| == 8
    ensures Value(d, 8) == 0x1 * d[0] + 0x100 * d[1] + 0x10000 * d[2] + 0x1000000 * d[3] + 0x100000000 * d[4]
            + 0x10000000000 * d[5] + 0x1000000000000 * d[6] + 0x100000000000000 * d[7]
  {
    assert Pow2(8) == 256;
    hide Pow2;
    var d1, d2, d3, d4, d5, d6, d7 := d[1..], d[2..], d[3..], d[4..], d[5..], d[6..], d[7..];
    assert d1[1..] == d2 && d2[1..] == d3 && d3[1..] == d4 && d4[1..] == d5 && d5[1..] == d6 && d6[1..] == d7
        && d7[1..] == [];
    assert Value(d7, 8) == d[7];
    assert Value(d6, 8) == d[6] + 256 * Value(d7, 8);
    assert Value(d5, 8) == d[5] + 256 * Value(d6, 8);
    assert Value(d4, 8) == d[4] + 256 * Value(d5, 8);
    assert Value(d3, 8) == d[3] + 256 * Value(d4, 8);
    assert Value(d2, 8) == d[2] + 256 * Value(d3, 8);
    assert Value(d1, 8) == d[1] + 256 * Value(d2, 8);
  }

  /** The sum of the first j digits. */
  function Prefix(p: seq<nat>, j: nat): nat
    requires j <= |p|
  {
    if j == 0 then 0 else Prefix(p, j - 1) + p[j - 1]
  }

  function Prefixes(p: seq<nat>): (c: seq<nat>)
    ensures |c| == |p| && forall j | 0 <= j < |p| :: c[j] == Prefix(p, j + 1)
  {
    seq(|p|, j requires 0 <= j < |p| => Prefix(p, j + 1))
  }

  lemma {:induction false} PrefixBound(p: seq<nat>, j: nat, b: nat)
    requires j <= |p| && forall i | 0 <= i < |p| :: p[i] <= b
    ensures Prefix(p, j) <= b * j
  {
    if j > 0 {
      PrefixBound(p, j - 1, b);
      assert b * j == b * (j - 1) + b;
    } else {
      assert b * 0 == 0;
    }
  }

  lemma Prefix8(p: seq<nat>)
    requires |p| == 8
    ensures Prefix(p, 1) == p[0] && Prefix(p, 2) == p[0] + p[1] && Prefix(p, 3) == p[0] + p[1] + p[2]
    ensures Prefix(p, 4) == Prefix(p, 3) + p[3] && Prefix(p, 5) == Prefix(p, 4) + p[4]
    ensures Prefix(p, 6) == Prefix(p, 5) + p[5] && Prefix(p, 7) == Prefix(p, 6) + p[6] && Prefix(p, 8) == Prefix(p, 7)
            + p[7]
  {
    assert Prefix(p, 0) == 0;
  }

  function Carried(p1: nat, p2: nat, p3: nat, p4: nat, p5: nat, p6: nat, p7: nat): nat {
    p1 * 0x1 + p2 * 0x101 + p3 * 0x10101 + p4 * 0x1010101 + p5 * 0x101010101 + p6 * 0x10101010101 + p7 * 0x1010101010101
  }

  lemma SumsIdentity(p0: nat, p1: nat, p2: nat, p3: nat, p4: nat, p5: nat, p6: nat, p7: nat)
    ensures (0x1 * p0 + 0x100 * p1 + 0x10000 * p2 + 0x1000000 * p3 + 0x100000000 * p4 + 0x10000000000 * p5
            + 0x1000000000000 * p6 + 0x100000000000000 * p7) * ONES
         == Carried(p1, p2, p3, p4, p5, p6, p7) * 0x1_0000_0000_0000_0000
            + (0x1 * (p0) + 0x100 * (p0 + p1) + 0x10000 * (p0 + p1 + p2) + 0x1000000 * (p0 + p1 + p2 + p3)
                + 0x100000000 * (p0 + p1 + p2 + p3 + p4) + 0x10000000000 * (p0 + p1 + p2 + p3 + p4 + p5)
                + 0x1000000000000 * (p0 + p1 + p2 + p3 + p4 + p5 + p6)
                + 0x100000000000000 * (p0 + p1 + p2 + p3 + p4 + p5 + p6 + p7))
  {
  }

  /** Multiplying by 0x01..01 leaves in every byte the sum of the bytes up to it. */
  lemma SumsOfBytes(p: seq<nat>)
    requires |p| == 8 && forall i | 0 <= i < 8 :: p[i] <= 8
    ensures Low(Value(p, 8) * ONES, 64) == Value(Prefixes(p), 8) && Digits(Prefixes(p), 8)
    ensures forall j | 0 <= j <= 8 :: Prefix(p, j) <= 64
  {
    hide Pow2, Prefix, Value, Carried;
    Powers();
    forall j | 0 <= j <= 8
      ensures Prefix(p, j) <= 64
    {
      PrefixBound(p, j, 8);
    }
    ValueBound(Prefixes(p), 8);
    Value8(p);
    Value8(Prefixes(p));
    Prefix8(p);
    SumsIdentity(p[0], p[1], p[2], p[3], p[4], p[5], p[6], p[7]);
    DivModUnique(Value(p, 8) * ONES, Pow2(64), Carried(p[1], p[2], p[3], p[4], p[5], p[6], p[7]),
        Value(Prefixes(p), 8));
  }

  lemma BitOrHalves(a: nat, b: nat)
    ensures BitOr(a, b) / 2 == BitOr(a / 2, b / 2) && BitOr(a, b) % 2 == if a % 2 == 1 || b % 2 == 1 then 1 else 0
  {
  }

  lemma BitOrZeros()
    ensures BitOr(0, 0) == 0
  {
  }

  /** The low w bits and the others are combined separately. */
  lemma {:induction false} BitOrSplit(a: nat, h: nat, b: nat, g: nat, w: nat)
    requires a < Pow2(w) && b < Pow2(w)
    ensures BitOr(Join(a, h, w), Join(b, g, w)) == Join(BitOr(a, b), BitOr(h, g), w)
    decreases w
  {
    hide BitOr, Join;
    if w > 0 {
      JoinHalf(a, h, w);
      JoinHalf(b, g, w);
      JoinHalf(BitOr(a, b), BitOr(h, g), w);
      BitOrSplit(a / 2, h, b / 2, g, w - 1);
      BitOrHalves(Join(a, h, w), Join(b, g, w));
      BitOrHalves(a, b);
    } else {
      JoinNothing(h);
      JoinNothing(g);
      JoinNothing(BitOr(h, g));
      BitOrZeros();
    }
  }

  lemma RepeatJoin(v: nat, n: nat)
    ensures Value(Repeat(v, n), 8) == if n == 0 then 0 else Join(v, Value(Repeat(v, n - 1), 8), 8)
  {
    if n > 0 {
      assert Repeat(v, n)[1..] == Repeat(v, n - 1);
    }
  }

  /** Setting the top bit of n equal bytes below 128. */
  lemma {:induction false} OrRepeated(k: nat, n: nat)
    requires k < 128
    ensures BitOr(Value(Repeat(k, n), 8), Value(Repeat(128, n), 8)) == Value(Repeat(k + 128, n), 8)
  {
    hide Value, Join, BitOr, Pow2;
    RepeatJoin(k, n);
    RepeatJoin(128, n);
    RepeatJoin(k + 128, n);
    if n > 0 {
      Powers();
      OrRepeated(k, n - 1);
      BitOrSplit(k, Value(Repeat(k, n - 1), 8), 128, Value(Repeat(128, n - 1), 8), 8);
      BitOrDisjoint(k, 1, 7);
    } else {
      BitOrZeros();
    }
  }

  lemma TopBit(v: nat)
    requires v < 256
    ensures BitAnd(v, 128) == if v >= 128 then 128 else 0
  {
    assert Pow2(7) == 128;
    BitAndSplit(v % 128, v / 128, 0, 1, 7);
    BitAndZero(v % 128);
    assert v / 128 == 0 || v / 128 == 1;
    assert BitAnd(1, 1) == 1 && BitAnd(0, 1) == 0;
  }

  /** 0x80 in every byte whose sum is at most k. */
  function Reached(k: nat, c: seq<nat>): (g: seq<nat>)
    ensures |g| == |c|
  {
    seq(|c|, j requires 0 <= j < |c| => if k >= c[j] then 128 else 0)
  }

  /** (k * 0x01..01) | 0x80..80 has k + 128 in every byte. */
  lemma Everywhere(k: nat)
    requires k < 64
    ensures BitOr(Low(k * ONES, 64), MSBS) == Value(Repeat(k + 128, 8), 8) && Value(Repeat(128, 8), 8) == MSBS
  {
    hide Pow2, Value, BitOr;
    Powers();
    Value8(Repeat(k, 8));
    DivModUnique(k * ONES, Pow2(64), 0, k * ONES);
    Value8(Repeat(128, 8));
    OrRepeated(k, 8);
  }

  /** (((k * 0x01..01) | 0x80..80) - byteSums) & 0x80..80 compares all bytes at once. */
  lemma CompareBytes(k: nat, c: seq<nat>)
    requires k < 64 && |c| == 8 && forall j | 0 <= j < 8 :: c[j] <= 64
    ensures BitAnd(Minus(BitOr(Low(k * ONES, 64), MSBS), Value(c, 8)), MSBS) == Value(Reached(k, c), 8)
  {
    hide Pow2, Value, BitAnd, BitOr, Low, Minus;
    Powers();
    Everywhere(k);
    var e := seq(8, j requires 0 <= j < 8 => k + 128 - c[j]);
    Value8(Repeat(k + 128, 8));
    Value8(c);
    Value8(e);
    MinusSmall(Value(Repeat(k + 128, 8), 8), Value(c, 8));
    AndValue(e, Repeat(128, 8), 8);
    var g := AndDigits(e, Repeat(128, 8));
    forall j | 0 <= j < 8
      ensures g[j] == Reached(k, c)[j]
    {
      TopBit(e[j]);
    }
    assert g == Reached(k, c);
  }

  // ---- bits of words ------------------------------------------------------------------------------

  lemma {:induction false} FromNatSplit(a: nat, h: nat, w: nat, n: nat)
    requires a < Pow2(w)
    ensures FromNat(a + Pow2(w) * h, w + n) == FromNat(a, w) + FromNat(h, n)
  {
    if w == 0 {
    } else {
      JoinHalf(a, h, w);
      FromNatSplit(a / 2, h, w - 1, n);
    }
  }

  lemma CountConcat(a: seq<bool>, b: seq<bool>)
    ensures W.Count(a + b, 0, |a + b|) == W.Count(a, 0, |a|) + W.Count(b, 0, |b|)
  {
    hide W.Count;
    W.CountSplit(a + b, 0, |a|, |a + b|);
    W.CountShift(a, 0, |a|, a + b, 0);
    W.CountShift(b, 0, |b|, a + b, |a|);
  }

  /** The bits of a byte that is zero or 0x80. */
  lemma ByteBits(v: nat)
    requires v == 0 || v == 128
    ensures W.Count(FromNat(v, 8), 0, 8) == if v == 0 then 0 else 1
  {
    var b := FromNat(v, 8);
    assert Pow2(7) == 128 && FromNat(1, 1) == [true] && FromNat(0, 1) == [false];
    FromNatSplit(0, v / 128, 7, 1);
    var z := FromNat(0, 7);
    ZeroBits(7);
    W.CountZero(z, 0, 7);
    CountConcat(z, FromNat(v / 128, 1));
    assert W.Count([true], 0, 1) == W.Count([true], 0, 0) + 1;
    assert W.Count([false], 0, 1) == W.Count([false], 0, 0);
  }

  lemma {:induction false} ZeroBits(n: nat)
    ensures forall i | 0 <= i < n :: !FromNat(0, n)[i]
  {
    if n == 0 {
    } else {
      ZeroBits(n - 1);
    }
  }

  /** The number of nonzero digits. */
  function NonZero(g: seq<nat>): nat {
    if g == [] then 0 else (if g[0] != 0 then 1 else 0) + NonZero(g[1..])
  }

  lemma {:induction false} CountNonZero(g: seq<nat>)
    requires forall j | 0 <= j < |g| :: g[j] == 0 || g[j] == 128
    ensures W.Count(FromNat(Value(g, 8), 8 * |g|), 0, 8 * |g|) == NonZero(g)
  {
    hide Pow2, FromNat;
    if g == [] {
    } else {
      Powers();
      CountNonZero(g[1..]);
      assert 8 * |g| == 8 + 8 * |g[1..]|;
      FromNatSplit(g[0], Value(g[1..], 8), 8, 8 * |g[1..]|);
      CountConcat(FromNat(g[0], 8), FromNat(Value(g[1..], 8), 8 * |g[1..]|));
      ByteBits(g[0]);
    }
  }

  // ---- the bits of a word as digits ---------------------------------------------------------------

  function BitDigits(b: seq<bool>): (d: seq<nat>)
    ensures |d| == |b| && forall i | 0 <= i < |d| :: d[i] == if b[i] then 1 else 0
  {
    seq(|b|, i requires 0 <= i < |b| => if b[i] then 1 else 0)
  }

  lemma {:induction false} BitDigitsValue(x: nat, n: nat)
    requires x < Pow2(n)
    ensures Value(BitDigits(FromNat(x, n)), 1) == x
  {
    if n == 0 {
    } else {
      assert Pow2(1) == 2;
      BitDigitsValue(x / 2, n - 1);
      assert BitDigits(FromNat(x, n))[1..] == BitDigits(FromNat(x / 2, n - 1));
    }
  }

  /** Any slice of the bits of x are the bits of x shifted. */
  lemma {:induction false} FromNatSlice(x: nat, n: nat, a: nat, m: nat)
    requires a + m <= n
    ensures FromNat(x, n)[a..a + m] == FromNat(Shr(x, a), m)
    decreases n
  {
    if a > 0 {
      FromNatSlice(x / 2, n - 1, a - 1, m);
      assert FromNat(x, n)[a..a + m] == FromNat(x / 2, n - 1)[a - 1..a - 1 + m];
      ShrShr(x, 1, a - 1);
      assert Pow2(1) == 2;
    } else {
      assert Shr(x, 0) == x;
      FromNatTake(x, n, m);
    }
  }

  lemma {:induction false} FromNatTake(x: nat, n: nat, m: nat)
    requires m <= n
    ensures FromNat(x, n)[..m] == FromNat(x, m)
    decreases m
  {
    if m == 0 {
    } else {
      FromNatTake(x / 2, n - 1, m - 1);
    }
  }

  lemma FromNatLow(x: nat, m: nat)
    ensures FromNat(Low(x, m), m) == FromNat(x, m)
  {
    var q := Shr(x, m);
    assert x == Pow2(m) * q + Low(x, m);
    FromNatSplit(Low(x, m), q, m, 0);
    assert FromNat(q, 0) == [];
    assert x == Low(x, m) + Pow2(m) * q;
  }

  /** The sums of eight neighbouring bits. */
  function ByteCounts(d: seq<nat>): (p: seq<nat>)
    requires |d| == 64
    ensures |p| == 8
  {
    Pairs(Pairs(Pairs(d)))
  }

  lemma CountNext(b: seq<bool>, lo: nat, i: nat)
    requires lo <= i < |b|
    ensures W.Count(b, lo, i + 1) == W.Count(b, lo, i) + (if b[i] then 1 else 0) && W.Count(b, lo, lo) == 0
  {
  }

  lemma ByteCount(b: seq<bool>, j: nat)
    requires |b| == 64 && j < 8
    ensures W.Count(b, 8 * j, 8 * j + 8) == ByteCounts(BitDigits(b))[j] <= 8
  {
    hide W.Count, AddDigits, Evens, Odds;
    var d, lo := BitDigits(b), 8 * j;
    assert Pairs(Pairs(d))[2 * j] == Pairs(d)[4 * j] + Pairs(d)[4 * j + 1];
    assert Pairs(Pairs(d))[2 * j + 1] == Pairs(d)[4 * j + 2] + Pairs(d)[4 * j + 3];
    CountNext(b, lo, lo);
    CountNext(b, lo, lo + 1);
    CountNext(b, lo, lo + 2);
    CountNext(b, lo, lo + 3);
    CountNext(b, lo, lo + 4);
    CountNext(b, lo, lo + 5);
    CountNext(b, lo, lo + 6);
    CountNext(b, lo, lo + 7);
  }

  lemma {:induction false} PrefixIsCount(b: seq<bool>, j: nat)
    requires |b| == 64 && j <= 8
    ensures Prefix(ByteCounts(BitDigits(b)), j) == W.Count(b, 0, 8 * j)
  {
    hide BitDigits, ByteCounts, W.Count;
    if j > 0 {
      PrefixIsCount(b, j - 1);
      ByteCount(b, j - 1);
      W.CountSplit(b, 0, 8 * (j - 1), 8 * j);
    } else {
      NoCount(b);
    }
  }

  lemma NoCount(b: seq<bool>)
    ensures W.Count(b, 0, 0) == 0
  {
  }

  // ---- the select ---------------------------------------------------------------------------------

  /** kSelectInByte: the position of the r-th set bit of a byte, 8 if there is none. */
  function SelectInByte(b: nat, r: nat): nat {
    W.SelectFrom(FromNat(b, 8), 0, r)
  }

  /** popcnt */
  function PopCount(x: nat): nat {
    W.Count(FromNat(x, 64), 0, 64)
  }

  /** byteSums: in every byte the number of set bits of x up to the end of that byte. */
  function ByteSums(x: nat): nat {
    Low(Sum8(Sum4(Sum2(x))) * ONES, 64)
  }

  /** _select64 (src/gqf.c:403-422) */
  function Select64(x: nat, k: nat): nat {
    if k >= PopCount(x) then 64
    else
      var byteSums := ByteSums(x);
      var geqKStep8 := BitAnd(Minus(BitOr(Low(k * ONES, 64), MSBS), byteSums), MSBS);
      var place := PopCount(geqKStep8) * 8;
      var byteRank := Minus(k, Low(Shr(Low(byteSums * 256, 64), place), 8));
      place + SelectInByte(Low(Shr(x, place), 8), byteRank)
  }

  /** The three folding steps and the multiplication count the bits of all bytes. */
  lemma ByteSumsAre(x: nat)
    requires x < Pow2(64)
    ensures var p := ByteCounts(BitDigits(FromNat(x, 64)));
            && ByteSums(x) == Value(Prefixes(p), 8) && Digits(Prefixes(p), 8)
            && (forall j | 0 <= j <= 8 :: Prefix(p, j) <= 64)
  {
    hide Value, Sum2, Sum4, Sum8, Pow2, Prefix, FromNat, BitAnd;
    var b := FromNat(x, 64);
    var d := BitDigits(b);
    Powers();
    BitDigitsValue(x, 64);
    Sum2Pairs(d);
    Sum4Pairs(Pairs(d));
    Sum8Pairs(Pairs(Pairs(d)));
    var p := ByteCounts(d);
    forall j | 0 <= j < 8
      ensures p[j] <= 8
    {
      ByteCount(b, j);
    }
    SumsOfBytes(p);
  }

  /** The first sum above k. */
  function FirstAbove(c: seq<nat>, k: nat): (n: nat)
    ensures n <= |c| && (n < |c| ==> c[n] > k) && forall j | 0 <= j < n :: c[j] <= k
  {
    if c == [] || c[0] > k then 0 else 1 + FirstAbove(c[1..], k)
  }

  lemma {:induction false} ReachedCount(k: nat, c: seq<nat>, n: nat)
    requires n <= |c| && (forall j | 0 <= j < n :: c[j] <= k) && forall j | n <= j < |c| :: c[j] > k
    ensures NonZero(Reached(k, c)) == n
  {
    if c == [] {
    } else {
      assert Reached(k, c)[1..] == Reached(k, c[1..]);
      ReachedCount(k, c[1..], if n > 0 then n - 1 else 0);
    }
  }

  lemma {:induction false} PrefixMonotone(p: seq<nat>, i: nat, j: nat)
    requires i <= j <= |p|
    ensures Prefix(p, i) <= Prefix(p, j)
    decreases j
  {
    if i == j {
    } else {
      PrefixMonotone(p, i, j - 1);
    }
  }

  /** Reading byte n of a word. */
  lemma DigitAt(d: seq<nat>, n: nat)
    requires n < |d| && Digits(d, 8)
    ensures Low(Shr(Value(d, 8), 8 * n), 8) == d[n]
  {
    hide Pow2;
    ValueBound(d, 8);
    DivModUnique(Value(d, 8), Pow2(8 * |d|), 0, Value(d, 8));
    MaskedCompare(d, Value(d, 8), 8);
    ChunkIsShifted(Value(d, 8), 8, n);
  }

  /** Shifting up by one byte. */
  lemma ShiftUpByte(c: seq<nat>)
    requires |c| == 8 && Digits(c, 8)
    ensures Low(Value(c, 8) * 256, 64) == Value([0] + c[..7], 8) && Digits([0] + c[..7], 8)
  {
    hide Pow2, Value;
    Powers();
    ValueBound([0] + c[..7], 8);
    Value8([0] + c[..7]);
    Value8(c);
    DivModUnique(Value(c, 8) * 256, Pow2(64), c[7], Value([0] + c[..7], 8));
  }

  /** What the comparison of all bytes finds: the byte of the k-th set bit, and how many are below. */
  lemma PlaceIs(x: nat, k: nat)
    requires x < Pow2(64) && k < PopCount(x)
    ensures var b, byteSums := FromNat(x, 64), ByteSums(x);
            var n := PopCount(BitAnd(Minus(BitOr(Low(k * ONES, 64), MSBS), byteSums), MSBS));
            && n < 8 && W.Count(b, 0, 8 * n) <= k < W.Count(b, 0, 8 * n + 8)
            && Minus(k, Low(Shr(Low(byteSums * 256, 64), 8 * n), 8)) == k - W.Count(b, 0, 8 * n)
  {
    hide Value, Pow2, Low, BitAnd, BitOr, ByteSums, FromNat, W.Count, ByteCounts, BitDigits, Prefix, Shr, Minus;
    Powers();
    var b := FromNat(x, 64);
    var p := ByteCounts(BitDigits(b));
    var c := Prefixes(p);
    ByteSumsAre(x);
    PrefixIsCount(b, 8);
    CountBound(b, k);
    var n := FirstAbove(c, k);
    assert c[7] == W.Count(b, 0, 64);
    forall j | n <= j < 8
      ensures c[j] > k
    {
      PrefixMonotone(p, n + 1, j + 1);
    }
    CompareBytes(k, c);
    ReachedCount(k, c, n);
    CountNonZero(Reached(k, c));
    PrefixIsCount(b, n);
    PrefixIsCount(b, n + 1);
    ShiftUpByte(c);
    DigitAt([0] + c[..7], n);
    PrefixStart(p);
    MinusSmall(k, Prefix(p, n));
  }

  lemma PrefixStart(p: seq<nat>)
    ensures Prefix(p, 0) == 0
  {
  }

  lemma CountBound(b: seq<bool>, k: nat)
    requires |b| == 64 && k < W.Count(b, 0, 64)
    ensures k < 64
  {
  }

  /** Selecting in the right byte. */
  lemma SelectInRightByte(b: W.Word, n: nat, k: nat)
    requires n < 8 && W.Count(b, 0, 8 * n) <= k < W.Count(b, 0, 8 * n + 8)
    ensures 8 * n + W.SelectFrom(b[8 * n..8 * n + 8], 0, k - W.Count(b, 0, 8 * n)) == W.Select(b, k)
  {
    hide W.Count;
    var r := k - W.Count(b, 0, 8 * n);
    var y := b[8 * n..8 * n + 8];
    W.CountShift(y, 0, 8, b, 8 * n);
    W.CountSplit(b, 0, 8 * n, 8 * n + 8);
    W.CountSplit(b, 0, 8 * n + 8, 64);
    var t := W.SelectFrom(y, 0, r);
    assert t < 8;
    W.CountShift(y, 0, t, b, 8 * n);
    W.CountSplit(b, 0, 8 * n, 8 * n + t);
    W.CountInjective(b, 0, 8 * n + t, W.Select(b, k));
  }

  /** The broadword select is the bit-by-bit select, for every word and every k. */
  lemma Select64IsSelect(x: nat, k: nat)
    requires x < Pow2(64)
    ensures Select64(x, k) == W.Select(FromNat(x, 64), k)
  {
    hide Value, Pow2, Low, BitAnd, BitOr, ByteSums, FromNat, W.Count, Shr, W.Select, W.SelectFrom, Minus;
    var b := FromNat(x, 64);
    if k < PopCount(x) {
      PlaceIs(x, k);
      var n := PopCount(BitAnd(Minus(BitOr(Low(k * ONES, 64), MSBS), ByteSums(x)), MSBS));
      FromNatSlice(x, 64, 8 * n, 8);
      FromNatLow(Shr(x, 8 * n), 8);
      SelectInRightByte(b, n, k);
    } else {
      NoneLeft(b, k);
    }
  }

  lemma NoneLeft(b: W.Word, k: nat)
    requires k >= W.Count(b, 0, 64)
    ensures W.Select(b, k) == 64
  {
  }
}
