/** Powers of two and the binary value of a bit sequence. */
module Numbers {

  function Pow2(n: nat): (p: nat)
    ensures p > 0
  {
    if n == 0 then 1 else 2 * Pow2(n - 1)
  }

  /** The value of a little-endian bit sequence. */
  function ToNat(b: seq<bool>): (v: nat) {
    if b == [] then 0 else (if b[0] then 1 else 0) + 2 * ToNat(b[1..])
  }

  /** The n low bits of v. */
  function FromNat(v: nat, n: nat): (b: seq<bool>)
    ensures |b| == n
  {
    if n == 0 then [] else [v % 2 == 1] + FromNat(v / 2, n - 1)
  }

  lemma {:induction false} ToNatBound(b: seq<bool>)
    ensures ToNat(b) < Pow2(|b|)
  {
    if b == [] {
    } else {
      ToNatBound(b[1..]);
    }
  }

  lemma {:induction false} ToNatFromNat(v: nat, n: nat)
    requires v < Pow2(n)
    ensures ToNat(FromNat(v, n)) == v
  {
    if n == 0 {
    } else {
      ToNatFromNat(v / 2, n - 1);
      assert FromNat(v, n)[1..] == FromNat(v / 2, n - 1);
    }
  }

  /** Zero bits above the top do not change the value. */
  lemma {:induction false} ToNatHighZeros(b: seq<bool>, n: nat)
    requires n <= |b| && forall i | n <= i < |b| :: !b[i]
    ensures ToNat(b) == ToNat(b[..n])
  {
    if n == 0 {
      if b != [] {
        ToNatHighZeros(b[1..], 0);
      }
    } else {
      ToNatHighZeros(b[1..], n - 1);
      assert b[..n][1..] == b[1..][..n - 1];
    }
  }

  /** A value below 2^n has no bits at or above position n. */
  lemma {:induction false} FromNatHighZeros(v: nat, n: nat, m: nat)
    requires v < Pow2(n) && n <= m
    ensures FromNat(v, m)[..n] == FromNat(v, n)
    ensures forall i | n <= i < m :: !FromNat(v, m)[i]
  {
    if n == 0 {
      if m > 0 {
        FromNatHighZeros(0, 0, m - 1);
      }
    } else {
      FromNatHighZeros(v / 2, n - 1, m - 1);
      forall i | n <= i < m
        ensures !FromNat(v, m)[i]
      {
        assert FromNat(v, m)[i] == FromNat(v / 2, m - 1)[i - 1];
      }
    }
  }

  lemma MulMonotone(a: nat, b: nat, c: nat)
    requires a <= b
    ensures a * c <= b * c
  {
  }

  /** Truncation to uint8_t. */
  function Byte(a: nat): nat { a % 256 }

  lemma ByteOfSmall(a: nat)
    requires a < 256
    ensures Byte(a) == a
  {
  }

  lemma ByteIncrement(a: nat)
    ensures Byte(Byte(a) + 1) == Byte(a + 1)
  {
  }

  lemma DivNonNegative(a: nat, b: nat)
    requires b > 0
    ensures a / b >= 0
  {
  }

  lemma MulStep(a: nat, b: nat, c: nat)
    requires a < b
    ensures a * c + c <= b * c
  {
    MulMonotone(a + 1, b, c);
  }

  lemma MulDistribute(p: nat, w: nat, v: nat, m: nat)
    ensures p * (w + v * m) == p * w + v * (p * m)
  {
    assert p * (v * m) == v * (p * m);
  }

  lemma MulDouble(x: nat, y: nat)
    ensures 2 * x * y == 2 * (x * y)
  {
  }

  lemma {:induction false} Pow2Add(a: nat, b: nat)
    ensures Pow2(a + b) == Pow2(a) * Pow2(b)
  {
    if a == 0 {
    } else {
      Pow2Add(a - 1, b);
      MulDouble(Pow2(a - 1), Pow2(b));
      assert Pow2(a + b) == 2 * Pow2(a - 1 + b);
    }
  }

  /** x = q*d + r determines quotient and remainder. */
  lemma DivModUnique(x: nat, d: nat, q: nat, r: nat)
    requires d > 0 && r < d && x == q * d + r
    ensures x / d == q && x % d == r
  {
    var p := x / d;
    assert x == p * d + x % d;
    if p < q {
      MulStep(p, q, d);
    } else if q < p {
      MulStep(q, p, d);
    }
  }

  lemma MulAssociative(a: nat, b: nat, q: nat)
    ensures a * (b * q) == q * (a * b)
  {
  }

  lemma MulSum(a: nat, x: nat, y: nat)
    ensures a * (x + y) == a * x + a * y
  {
  }

  lemma NestedDivision(x: nat, a: nat, b: nat, y: nat, s: nat, q: nat, t: nat)
    requires x == a * y + s && s < a && y == b * q + t && t < b
    ensures x == q * (a * b) + (s + a * t) && s + a * t < a * b
  {
    MulSum(a, b * q, t);
    MulAssociative(a, b, q);
    MulStep(t, b, a);
  }

  lemma DivModOf(x: nat, d: nat)
    requires d > 0
    ensures x == d * (x / d) + x % d && x / d >= 0 && x % d < d
  {
  }

  lemma DivDiv(x: nat, a: nat, b: nat)
    requires a > 0 && b > 0
    ensures a * b > 0 && x / (a * b) == x / a / b
    ensures x % (a * b) == x % a + a * (x / a % b)
  {
    DivModOf(x, a);
    var y: nat, s: nat := x / a, x % a;
    DivModOf(y, b);
    var q: nat, t: nat := y / b, y % b;
    NestedDivision(x, a, b, y, s, q, t);
    DivModUnique(x, a * b, q, s + a * t);
  }

  /** Bitwise or on numbers. */
  function BitOr(a: nat, b: nat): nat
    decreases a + b
  {
    if a == 0 && b == 0 then 0
    else (if a % 2 == 1 || b % 2 == 1 then 1 else 0) + 2 * BitOr(a / 2, b / 2)
  }

  lemma {:induction false} BitOrZero(b: nat)
    ensures BitOr(0, b) == b
  {
    if b == 0 {
    } else {
      BitOrZero(b / 2);
    }
  }

  /** Or-ing a shifted value above the top bit adds it. */
  lemma {:induction false} BitOrDisjoint(a: nat, c: nat, k: nat)
    requires a < Pow2(k)
    ensures BitOr(a, c * Pow2(k)) == a + c * Pow2(k)
  {
    if k == 0 {
      BitOrZero(c);
    } else {
      var b := c * Pow2(k - 1);
      assert c * Pow2(k) == 2 * b;
      BitOrDisjoint(a / 2, c, k - 1);
    }
  }
}
