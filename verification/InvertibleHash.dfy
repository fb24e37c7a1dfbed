/** The invertible integer hash of src/hashutil.c. Additions, subtractions and shifts wrap around at 64
    bits; a mask of k bits keeps the k low ones. */
module InvertibleHash {
  import opened Numbers
  import opened Hashes

  // ---- machine arithmetic ---------------------------------------------------------------------

  function Wrap(a: int): (w: nat)
    ensures w < Pow2(64)
  {
    a % Pow2(64)
  }

  /** ~a */
  function Not(a: int): nat { Wrap(0 - a - 1) }

  /** a << n */
  function Shl(a: int, n: nat): nat { Wrap(a * Pow2(n)) }

  /** a ^ b */
  function Xor(a: nat, b: nat): nat
    decreases a + b
  {
    if a == 0 && b == 0 then 0 else (if a % 2 == b % 2 then 0 else 1) + 2 * Xor(a / 2, b / 2)
  }

  // ---- the hash and its inverse ---------------------------------------------------------------

  // Each step of hash_64 (src/hashutil.c:123-133) and the step of hash_64i (src/hashutil.c:137-172)
  // that inverts it.

  function Step1(key: nat, k: nat): nat { Low(Wrap(Not(key) + Shl(key, 21)), k) }

  function Undo1(key: nat, k: nat): nat {
    var tmp := Not(key);
    var tmp' := Not(Wrap(key - Shl(tmp, 21)));
    var tmp'' := Not(Wrap(key - Shl(tmp', 21)));
    Low(Not(Wrap(key - Shl(tmp'', 21))), k)
  }

  function Step2(key: nat): nat { Xor(key, Shr(key, 24)) }

  function Undo2(key: nat): nat {
    var tmp := Xor(key, Shr(key, 24));
    Xor(key, Shr(tmp, 24))
  }

  function Step3(key: nat, k: nat): nat { Low(Wrap(Wrap(key + Shl(key, 3)) + Shl(key, 8)), k) }

  const INVERSE_OF_265: nat := 15244667743933553977

  function Undo3(key: nat, k: nat): nat { Low(Wrap(key * INVERSE_OF_265), k) }

  function Step4(key: nat): nat { Xor(key, Shr(key, 14)) }

  function Undo4(key: nat): nat {
    var tmp := Xor(key, Shr(key, 14));
    var tmp' := Xor(key, Shr(tmp, 14));
    var tmp'' := Xor(key, Shr(tmp', 14));
    Xor(key, Shr(tmp'', 14))
  }

  function Step5(key: nat, k: nat): nat { Low(Wrap(Wrap(key + Shl(key, 2)) + Shl(key, 4)), k) }

  const INVERSE_OF_21: nat := 14933078535860113213

  function Undo5(key: nat, k: nat): nat { Low(Wrap(key * INVERSE_OF_21), k) }

  function Step6(key: nat): nat { Xor(key, Shr(key, 28)) }

  function Undo6(key: nat): nat {
    var tmp := Xor(key, Shr(key, 28));
    Xor(key, Shr(tmp, 28))
  }

  function Step7(key: nat, k: nat): nat { Low(Wrap(key + Shl(key, 31)), k) }

  function Undo7(key: nat, k: nat): nat {
    var tmp := Wrap(key - Shl(key, 31));
    Low(Wrap(key - Shl(tmp, 31)), k)
  }

  function Hash64(key: nat, k: nat): nat {
    Step7(Step6(Step5(Step4(Step3(Step2(Step1(key, k)), k)), k)), k)
  }

  function Hash64i(key: nat, k: nat): nat {
    Undo1(Undo2(Undo3(Undo4(Undo5(Undo6(Undo7(key, k)), k)), k)), k)
  }

  // ---- congruence modulo a power of two -------------------------------------------------------

  /** a and b have the same k low bits. */
  predicate Same(a: int, b: int, k: nat) {
    a % Pow2(k) == b % Pow2(k)
  }

  lemma MulAtLeast(d: int, m: int)
    requires d >= 1 && m >= 0
    ensures d * m >= m
  {
    if d > 1 {
      MulAtLeast(d - 1, m);
      assert d * m == (d - 1) * m + m;
    }
  }

  lemma MulDiff(p: int, q: int, m: int)
    ensures (q - p) * m == q * m - p * m
  {
  }

  lemma ModUnique(x: int, m: int, q: int, r: int)
    requires 0 <= r < m && x == q * m + r
    ensures x % m == r
  {
    var p := x / m;
    var s := x % m;
    assert x == p * m + s;
    MulDiff(p, q, m);
    if p < q {
      MulAtLeast(q - p, m);
    } else if q < p {
      MulDiff(q, p, m);
      MulAtLeast(p - q, m);
    }
  }

  lemma AddProducts(q: int, z: int, m: int)
    ensures (q + z) * m == q * m + z * m
  {
  }

  lemma SameIf(a: int, b: int, z: int, k: nat)
    requires a == b + z * Pow2(k)
    ensures Same(a, b, k)
  {
    var m := Pow2(k);
    var q, r := b / m, b % m;
    assert b == q * m + r;
    AddProducts(q, z, m);
    ModUnique(a, m, q + z, r);
  }

  lemma SameGives(a: int, b: int, k: nat) returns (z: int)
    requires Same(a, b, k)
    ensures a == b + z * Pow2(k)
  {
    var m := Pow2(k);
    var p, q := a / m, b / m;
    z := p - q;
    assert a == p * m + a % m;
    assert b == q * m + b % m;
    MulDiff(q, p, m);
  }

  lemma SameAdd(a: int, b: int, c: int, d: int, k: nat)
    requires Same(a, b, k) && Same(c, d, k)
    ensures Same(a + c, b + d, k)
  {
    var y := SameGives(a, b, k);
    var z := SameGives(c, d, k);
    AddProducts(y, z, Pow2(k));
    SameIf(a + c, b + d, y + z, k);
  }

  lemma SameScale(a: int, b: int, c: int, k: nat)
    requires Same(a, b, k)
    ensures Same(c * a, c * b, k)
  {
    var z := SameGives(a, b, k);
    assert c * a == c * b + (c * z) * Pow2(k);
    SameIf(c * a, c * b, c * z, k);
  }

  /** Wrapping at 64 bits does not change the low bits. */
  lemma SameWrap(a: int, k: nat)
    requires k <= 64
    ensures Same(Wrap(a), a, k)
  {
    hide Pow2, Same;
    var m, n, p := Pow2(k), Pow2(64 - k), Pow2(64);
    Pow2Add(k, 64 - k);
    var q := a / p;
    assert a == p * q + Wrap(a);
    Regroup(m, n, q);
    SameIf(a, Wrap(a), q * n, k);
    SameSymmetric(a, Wrap(a), k);
  }

  lemma Regroup(m: int, n: int, q: int)
    ensures m * n * q == q * n * m
  {
  }

  lemma SameSymmetric(a: int, b: int, k: nat)
    requires Same(a, b, k)
    ensures Same(b, a, k)
  {
  }

  lemma SameLow(a: nat, k: nat)
    ensures Same(Low(a, k), a, k)
  {
    hide Pow2;
    var q := a / Pow2(k);
    assert a == q * Pow2(k) + Low(a, k);
    SameIf(a, Low(a, k), q, k);
  }

  lemma SameSmall(a: nat, b: nat, k: nat)
    requires a < Pow2(k) && b < Pow2(k) && Same(a, b, k)
    ensures a == b
  {
    ModUnique(a, Pow2(k), 0, a);
    ModUnique(b, Pow2(k), 0, b);
  }

  lemma Powers()
    ensures Pow2(21) == 2097152 && Pow2(31) == 2147483648 && Pow2(64) == 18446744073709551616
  {
    assert Pow2(10) == 1024 && Pow2(11) == 2048 && Pow2(12) == 4096;
    Pow2Add(10, 11);
    Pow2Add(10, 21);
    Pow2Add(12, 21);
    Pow2Add(31, 33);
  }

  // ---- the affine steps -----------------------------------------------------------------------

  lemma SameTransitive(a: int, b: int, c: int, k: nat)
    requires Same(a, b, k) && Same(b, c, k)
    ensures Same(a, c, k)
  {
  }

  /** The result of a step: k bits, congruent to a given number. */
  predicate Is(y: nat, a: int, k: nat) {
    y < Pow2(k) && Same(y, a, k)
  }

  /** A masked, wrapped sum. */
  lemma Masked(w: nat, a: int, k: nat)
    requires Same(w, a, k)
    ensures Is(Low(w, k), a, k)
  {
    SameLow(w, k);
    SameTransitive(Low(w, k), w, a, k);
  }

  lemma WrapIs(a: int, b: int, k: nat)
    requires k <= 64 && Same(a, b, k)
    ensures Same(Wrap(a), b, k)
  {
    SameWrap(a, k);
    SameTransitive(Wrap(a), a, b, k);
  }

  lemma ShlIs(a: int, n: nat, p: int, k: nat)
    requires k <= 64 && Pow2(n) == p
    ensures Same(Shl(a, n), p * a, k)
  {
    hide Pow2, Same;
    assert a * Pow2(n) == p * a;
    SameWrap(a * Pow2(n), k);
  }

  lemma SameSelf(a: int, k: nat)
    ensures Same(a, a, k)
  {
  }

  lemma NotIs(a: int, b: int, k: nat)
    requires k <= 64 && Same(a, b, k)
    ensures Same(Not(a), 0 - b - 1, k)
  {
    hide Same;
    SameScale(a, b, -1, k);
    SameSelf(-1, k);
    SameAdd(-1 * a, -1 * b, -1, -1, k);
    WrapIs(0 - a - 1, 0 - b - 1, k);
  }

  /** a - b wrapped */
  lemma SubIs(a: int, b: int, c: int, d: int, k: nat)
    requires k <= 64 && Same(a, b, k) && Same(c, d, k)
    ensures Same(Wrap(a - c), b - d, k)
  {
    hide Same;
    SameScale(c, d, -1, k);
    SameAdd(a, b, -1 * c, -1 * d, k);
    WrapIs(a - c, b - d, k);
  }

  lemma AddIs(a: int, b: int, c: int, d: int, k: nat)
    requires k <= 64 && Same(a, b, k) && Same(c, d, k)
    ensures Same(Wrap(a + c), b + d, k)
  {
    hide Same;
    SameAdd(a, b, c, d, k);
    WrapIs(a + c, b + d, k);
  }

  lemma SumOfShifts(key: nat, k: nat, n: nat, p: int, m: nat, q: int)
    requires k <= 64 && Pow2(n) == p && Pow2(m) == q
    ensures Same(Wrap(Wrap(key + Shl(key, n)) + Shl(key, m)), key + p * key + q * key, k)
  {
    hide Same, Pow2;
    SameSelf(key, k);
    ShlIs(key, n, p, k);
    ShlIs(key, m, q, k);
    AddIs(key, key, Shl(key, n), p * key, k);
    AddIs(Wrap(key + Shl(key, n)), key + p * key, Shl(key, m), q * key, k);
  }

  lemma Step3Is(key: nat, k: nat)
    requires k <= 64
    ensures Is(Step3(key, k), 265 * key, k)
  {
    hide Same, Is, Low, Wrap, Shl;
    assert Pow2(3) == 8 && Pow2(8) == 256;
    SumOfShifts(key, k, 3, 8, 8, 256);
    Masked(Wrap(Wrap(key + Shl(key, 3)) + Shl(key, 8)), 265 * key, k);
  }

  lemma Step5Is(key: nat, k: nat)
    requires k <= 64
    ensures Is(Step5(key, k), 21 * key, k)
  {
    hide Same, Is, Low, Wrap, Shl;
    assert Pow2(2) == 4 && Pow2(4) == 16;
    SumOfShifts(key, k, 2, 4, 4, 16);
    Masked(Wrap(Wrap(key + Shl(key, 2)) + Shl(key, 4)), 21 * key, k);
  }

  lemma UndoTimes(key: nat, c: nat, k: nat)
    requires k <= 64
    ensures Is(Low(Wrap(key * c), k), c * key, k)
  {
    hide Same, Is, Low, Wrap;
    SameWrap(key * c, k);
    Masked(Wrap(key * c), c * key, k);
  }

  lemma Step1Is(key: nat, k: nat)
    requires k <= 64
    ensures Is(Step1(key, k), 2097151 * key - 1, k)
  {
    hide Same, Is, Low, Wrap, Shl, Not;
    Powers();
    SameSelf(key, k);
    NotIs(key, key, k);
    ShlIs(key, 21, 2097152, k);
    AddIs(Not(key), 0 - key - 1, Shl(key, 21), 2097152 * key, k);
    Masked(Wrap(Not(key) + Shl(key, 21)), 2097151 * key - 1, k);
  }

  lemma Step7Is(key: nat, k: nat)
    requires k <= 64
    ensures Is(Step7(key, k), 2147483649 * key, k)
  {
    hide Same, Is, Low, Wrap, Shl;
    Powers();
    SameSelf(key, k);
    ShlIs(key, 31, 2147483648, k);
    AddIs(key, key, Shl(key, 31), 2147483648 * key, k);
    Masked(Wrap(key + Shl(key, 31)), 2147483649 * key, k);
  }

  /** tmp << n, with tmp congruent to b. */
  lemma ShiftedIs(a: nat, b: int, n: nat, p: int, k: nat)
    requires k <= 64 && Pow2(n) == p && Same(a, b, k)
    ensures Same(Shl(a, n), p * b, k)
  {
    hide Same, Pow2;
    ShlIs(a, n, p, k);
    SameScale(a, b, p, k);
    SameTransitive(Shl(a, n), p * a, p * b, k);
  }

  lemma Undo7Is(key: nat, k: nat)
    requires k <= 64
    ensures Is(Undo7(key, k), key - 2147483648 * (key - 2147483648 * key), k)
  {
    hide Same, Is, Low, Wrap, Shl;
    Powers();
    SameSelf(key, k);
    ShlIs(key, 31, 2147483648, k);
    SubIs(key, key, Shl(key, 31), 2147483648 * key, k);
    var tmp := Wrap(key - Shl(key, 31));
    ShiftedIs(tmp, key - 2147483648 * key, 31, 2147483648, k);
    SubIs(key, key, Shl(tmp, 31), 2147483648 * (key - 2147483648 * key), k);
    Masked(Wrap(key - Shl(tmp, 31)), key - 2147483648 * (key - 2147483648 * key), k);
  }

  /** One turn of the iteration that inverts the first step. */
  lemma TurnIs(key: nat, tmp: nat, b: int, k: nat)
    requires k <= 64 && Same(tmp, b, k)
    ensures Same(Not(Wrap(key - Shl(tmp, 21))), 2097152 * b - key - 1, k)
  {
    hide Same, Wrap, Shl, Not;
    Powers();
    SameSelf(key, k);
    ShiftedIs(tmp, b, 21, 2097152, k);
    SubIs(key, key, Shl(tmp, 21), 2097152 * b, k);
    NotIs(Wrap(key - Shl(tmp, 21)), key - 2097152 * b, k);
  }

  lemma Undo1Is(key: nat, k: nat)
    requires k <= 64
    ensures var b := 0 - key - 1;
            Is(Undo1(key, k), 2097152 * (2097152 * (2097152 * b + b) + b) + b, k)
  {
    hide Same, Is, Low, Wrap, Shl, Not;
    var b := 0 - key - 1;
    SameSelf(key, k);
    NotIs(key, key, k);
    var t0 := Not(key);
    TurnIs(key, t0, b, k);
    var t1 := Not(Wrap(key - Shl(t0, 21)));
    TurnIs(key, t1, 2097152 * b + b, k);
    var t2 := Not(Wrap(key - Shl(t1, 21)));
    TurnIs(key, t2, 2097152 * (2097152 * b + b) + b, k);
    Masked(Not(Wrap(key - Shl(t2, 21))), 2097152 * (2097152 * (2097152 * b + b) + b) + b, k);
  }

  // ---- each affine step is undone, in both orders -----------------------------------------------

  /** x + z * 2^64 has the low bits of x. */
  lemma SameWhole(x: int, z: int, k: nat)
    requires k <= 64
    ensures Same(x + z * 18446744073709551616, x, k)
  {
    hide Pow2, Same;
    Powers();
    Pow2Add(k, 64 - k);
    var m, n := Pow2(k), Pow2(64 - k);
    Regroup(m, n, z);
    SameIf(x + z * 18446744073709551616, x, z * n, k);
  }

  /** y is congruent to a, z to f(y); with f(a) congruent to x, z is x. */
  lemma Undone(x: nat, z: nat, fy: int, fa: int, q: int, k: nat)
    requires k <= 64 && x < Pow2(k) && Is(z, fy, k) && Same(fy, fa, k) && fa == x + q * 18446744073709551616
    ensures z == x
  {
    hide Pow2, Same;
    SameWhole(x, q, k);
    SameTransitive(z, fy, fa, k);
    SameTransitive(z, fa, x, k);
    SameSmall(z, x, k);
  }

  lemma Undo3Step3(x: nat, k: nat)
    requires k <= 64 && x < Pow2(k)
    ensures Undo3(Step3(x, k), k) == x && Step3(Undo3(x, k), k) == x
  {
    hide Pow2, Same, Step3, Undo3;
    Step3Is(x, k);
    UndoIs3(Step3(x, k), k);
    SameScale(Step3(x, k), 265 * x, INVERSE_OF_265, k);
    Undone(x, Undo3(Step3(x, k), k), INVERSE_OF_265 * Step3(x, k), INVERSE_OF_265 * (265 * x), 219 * x, k);
    UndoIs3(x, k);
    Step3Is(Undo3(x, k), k);
    SameScale(Undo3(x, k), INVERSE_OF_265 * x, 265, k);
    Undone(x, Step3(Undo3(x, k), k), 265 * Undo3(x, k), 265 * (INVERSE_OF_265 * x), 219 * x, k);
  }

  lemma UndoIs3(key: nat, k: nat)
    requires k <= 64
    ensures Is(Undo3(key, k), INVERSE_OF_265 * key, k)
  {
    UndoTimes(key, INVERSE_OF_265, k);
  }

  lemma UndoIs5(key: nat, k: nat)
    requires k <= 64
    ensures Is(Undo5(key, k), INVERSE_OF_21 * key, k)
  {
    UndoTimes(key, INVERSE_OF_21, k);
  }

  lemma Undo5Step5(x: nat, k: nat)
    requires k <= 64 && x < Pow2(k)
    ensures Undo5(Step5(x, k), k) == x && Step5(Undo5(x, k), k) == x
  {
    hide Pow2, Same, Step5, Undo5;
    Step5Is(x, k);
    UndoIs5(Step5(x, k), k);
    SameScale(Step5(x, k), 21 * x, INVERSE_OF_21, k);
    Undone(x, Undo5(Step5(x, k), k), INVERSE_OF_21 * Step5(x, k), INVERSE_OF_21 * (21 * x), 17 * x, k);
    UndoIs5(x, k);
    Step5Is(Undo5(x, k), k);
    SameScale(Undo5(x, k), INVERSE_OF_21 * x, 21, k);
    Undone(x, Step5(Undo5(x, k), k), 21 * Undo5(x, k), 21 * (INVERSE_OF_21 * x), 17 * x, k);
  }

  /** 1 - 2^31 + 2^62, the inverse of 1 + 2^31. */
  const INVERSE_OF_SHIFT_31: int := 4611686016279904257

  lemma Undo7Step7(x: nat, k: nat)
    requires k <= 64 && x < Pow2(k)
    ensures Undo7(Step7(x, k), k) == x && Step7(Undo7(x, k), k) == x
  {
    hide Pow2, Same, Step7, Undo7;
    var a, c := 2147483649, INVERSE_OF_SHIFT_31;
    Step7Is(x, k);
    Undo7Is(Step7(x, k), k);
    SameScale(Step7(x, k), a * x, c, k);
    Undone(x, Undo7(Step7(x, k), k), c * Step7(x, k), c * (a * x), 536870912 * x, k);
    Undo7Is(x, k);
    Step7Is(Undo7(x, k), k);
    SameScale(Undo7(x, k), c * x, a, k);
    Undone(x, Step7(Undo7(x, k), k), a * Undo7(x, k), a * (c * x), 536870912 * x, k);
  }

  /** 1 + 2^21 + 2^42 + 2^63, what the iteration sums up to. */
  const ITERATED: int := 9223376434903384065

  lemma Undo1Step1(x: nat, k: nat)
    requires k <= 64 && x < Pow2(k)
    ensures Undo1(Step1(x, k), k) == x && Step1(Undo1(x, k), k) == x
  {
    hide Pow2, Same, Step1, Undo1;
    var a, c := 2097151, ITERATED;
    Step1Is(x, k);
    var y := Step1(x, k);
    Undo1Is(y, k);
    SameScale(y, a * x - 1, 0 - c, k);
    SameSelf(0 - c, k);
    SameAdd((0 - c) * y, (0 - c) * (a * x - 1), 0 - c, 0 - c, k);
    Undone(x, Undo1(y, k), c * (0 - y - 1), c * (0 - (a * x - 1) - 1), -1048576 * x, k);
    Undo1Is(x, k);
    var z := Undo1(x, k);
    Step1Is(z, k);
    SameScale(z, c * (0 - x - 1), a, k);
    SameSelf(-1, k);
    SameAdd(a * z, a * (c * (0 - x - 1)), -1, -1, k);
    Undone(x, Step1(z, k), a * z - 1, a * (c * (0 - x - 1)) - 1, -1048576 * (x + 1), k);
  }

  // ---- the xor-shift steps ----------------------------------------------------------------------

  lemma {:induction false} XorSelf(a: nat)
    ensures Xor(a, a) == 0
  {
    if a == 0 {
    } else {
      XorSelf(a / 2);
    }
  }

  lemma {:induction false} XorZero(a: nat)
    ensures Xor(a, 0) == a
  {
    if a == 0 {
    } else {
      XorZero(a / 2);
    }
  }

  lemma {:induction false} XorAssociative(a: nat, b: nat, c: nat)
    ensures Xor(Xor(a, b), c) == Xor(a, Xor(b, c))
    decreases a + b + c
  {
    if a + b + c > 0 {
      XorAssociative(a / 2, b / 2, c / 2);
      XorHalves(a, b);
      XorHalves(b, c);
    }
  }

  lemma XorHalves(a: nat, b: nat)
    ensures Xor(a, b) / 2 == Xor(a / 2, b / 2) && Xor(a, b) % 2 == if a % 2 == b % 2 then 0 else 1
  {
  }

  lemma {:induction false} XorCommutes(a: nat, b: nat)
    ensures Xor(a, b) == Xor(b, a)
    decreases a + b
  {
    if a + b > 0 {
      XorCommutes(a / 2, b / 2);
    }
  }

  lemma {:induction false} XorBound(a: nat, b: nat, k: nat)
    requires a < Pow2(k) && b < Pow2(k)
    ensures Xor(a, b) < Pow2(k)
    decreases k
  {
    if k == 0 {
    } else {
      XorBound(a / 2, b / 2, k - 1);
    }
  }

  lemma ShrStep(a: nat, n: nat)
    requires n > 0
    ensures Shr(a, n) == Shr(a / 2, n - 1)
  {
    ShrShr(a, 1, n - 1);
    assert Pow2(1) == 2;
  }

  lemma {:induction false} ShrXor(a: nat, b: nat, n: nat)
    ensures Shr(Xor(a, b), n) == Xor(Shr(a, n), Shr(b, n))
    decreases n
  {
    hide Xor;
    if n == 0 {
    } else {
      ShrStep(a, n);
      ShrStep(b, n);
      ShrStep(Xor(a, b), n);
      XorHalves(a, b);
      ShrXor(a / 2, b / 2, n - 1);
    }
  }

  lemma XorCancel(a: nat, b: nat, c: nat)
    ensures Xor(Xor(a, b), Xor(b, c)) == Xor(a, c)
  {
    hide Xor;
    XorAssociative(a, b, Xor(b, c));
    XorAssociative(b, b, c);
    XorSelf(b);
    XorZero(c);
    XorCommutes(0, c);
  }

  lemma XorSwap(a: nat, b: nat, c: nat, d: nat)
    ensures Xor(Xor(a, b), Xor(c, d)) == Xor(Xor(a, c), Xor(b, d))
  {
    hide Xor;
    XorAssociative(a, b, Xor(c, d));
    XorAssociative(b, c, d);
    XorCommutes(b, c);
    XorAssociative(c, b, d);
    XorAssociative(a, c, Xor(b, d));
  }

  /** Shifting out all of a word. */
  lemma ShiftedOut(x: nat, n: nat)
    requires x < Pow2(64) && n >= 64
    ensures Shr(x, n) == 0 && Xor(x, Shr(x, n)) == x
  {
    hide Pow2;
    Pow2Monotone(64, n);
    DivModUnique(x, Pow2(n), 0, x);
    XorZero(x);
  }

  /** With y = x ^ (x >> s): if tmp differs from x only by bits shifted by n, the next iterate differs
      only by bits shifted by n + s. */
  lemma Turn(x: nat, tmp: nat, s: nat, n: nat)
    requires tmp == Xor(x, Shr(x, n))
    ensures Xor(Xor(x, Shr(x, s)), Shr(tmp, s)) == Xor(x, Shr(x, n + s))
  {
    hide Xor, Shr;
    ShrXor(x, Shr(x, n), s);
    ShrShr(x, n, s);
    XorCancel(x, Shr(x, s), Shr(x, n + s));
  }

  /** The same for the other order: applying the step to the next iterate comes closer to y. */
  lemma BackTurn(y: nat, u: nat, s: nat, n: nat)
    requires Xor(u, Shr(u, s)) == Xor(y, Shr(y, n))
    ensures var v := Xor(y, Shr(u, s)); Xor(v, Shr(v, s)) == Xor(y, Shr(y, n + s))
  {
    hide Xor, Shr;
    var us, ys := Shr(u, s), Shr(y, s);
    ShrXor(y, us, s);
    XorSwap(y, us, ys, Shr(us, s));
    ShrXor(u, us, s);
    ShrXor(y, Shr(y, n), s);
    ShrShr(y, n, s);
    XorCancel(y, ys, Shr(y, n + s));
  }

  lemma Undo2Step2(x: nat)
    requires x < Pow2(64)
    ensures Undo2(Step2(x)) == x && Step2(Undo2(x)) == x
  {
    hide Xor, Shr, Pow2;
    var y := Step2(x);
    Turn(x, y, 24, 24);
    Turn(x, Xor(y, Shr(y, 24)), 24, 48);
    BackTurn(x, x, 24, 24);
    BackTurn(x, Xor(x, Shr(x, 24)), 24, 48);
    ShiftedOut(x, 72);
  }

  lemma Undo6Step6(x: nat)
    requires x < Pow2(64)
    ensures Undo6(Step6(x)) == x && Step6(Undo6(x)) == x
  {
    hide Xor, Shr, Pow2;
    var y := Step6(x);
    Turn(x, y, 28, 28);
    Turn(x, Xor(y, Shr(y, 28)), 28, 56);
    BackTurn(x, x, 28, 28);
    BackTurn(x, Xor(x, Shr(x, 28)), 28, 56);
    ShiftedOut(x, 84);
  }

  lemma Undo4Step4(x: nat)
    requires x < Pow2(64)
    ensures Undo4(Step4(x)) == x && Step4(Undo4(x)) == x
  {
    hide Xor, Shr, Pow2;
    var y := Step4(x);
    var t1 := Xor(y, Shr(y, 14));
    var t2 := Xor(y, Shr(t1, 14));
    var t3 := Xor(y, Shr(t2, 14));
    Turn(x, y, 14, 14);
    Turn(x, t1, 14, 28);
    Turn(x, t2, 14, 42);
    Turn(x, t3, 14, 56);
    var u1 := Xor(x, Shr(x, 14));
    var u2 := Xor(x, Shr(u1, 14));
    var u3 := Xor(x, Shr(u2, 14));
    BackTurn(x, x, 14, 14);
    BackTurn(x, u1, 14, 28);
    BackTurn(x, u2, 14, 42);
    BackTurn(x, u3, 14, 56);
    ShiftedOut(x, 70);
  }

  lemma ShrAtMost(a: nat, n: nat)
    ensures Shr(a, n) <= a
  {
    hide Pow2;
    var p := Pow2(n);
    DivNonNegative(a, p);
    var q: nat := a / p;
    assert a == p * q + a % p;
    MulMonotone(1, p, q);
  }

  /** An xor-shift stays within k bits. */
  lemma XorShiftBound(a: nat, b: nat, n: nat, k: nat)
    requires a < Pow2(k) && b < Pow2(k)
    ensures Xor(a, Shr(b, n)) < Pow2(k)
  {
    hide Xor, Shr, Pow2;
    ShrAtMost(b, n);
    XorBound(a, Shr(b, n), k);
  }

  lemma UndoBounds(y: nat, k: nat)
    requires y < Pow2(k)
    ensures Undo2(y) < Pow2(k) && Undo4(y) < Pow2(k) && Undo6(y) < Pow2(k)
  {
    hide Xor, Shr, Pow2;
    XorShiftBound(y, y, 24, k);
    XorShiftBound(y, Xor(y, Shr(y, 24)), 24, k);
    XorShiftBound(y, y, 28, k);
    XorShiftBound(y, Xor(y, Shr(y, 28)), 28, k);
    var t1 := Xor(y, Shr(y, 14));
    XorShiftBound(y, y, 14, k);
    var t2 := Xor(y, Shr(t1, 14));
    XorShiftBound(y, t1, 14, k);
    var t3 := Xor(y, Shr(t2, 14));
    XorShiftBound(y, t2, 14, k);
    XorShiftBound(y, t3, 14, k);
  }

  // ---- the round trips --------------------------------------------------------------------------

  // ---- what the hash computes -----------------------------------------------------------------

  /** y is x ^ (x >> n), bit by bit. */
  ghost predicate XorShifted(y: nat, x: nat, n: nat) {
    forall i: nat :: Bit(y, i) == (Bit(x, i) + Bit(x, i + n)) % 2
  }

  lemma XorBit(a: nat, b: nat, i: nat)
    ensures Bit(Xor(a, b), i) == (Bit(a, i) + Bit(b, i)) % 2
  {
    hide Shr, Xor;
    ShrXor(a, b, i);
    XorHalves(Shr(a, i), Shr(b, i));
  }

  lemma XorShiftedIs(x: nat, n: nat)
    ensures XorShifted(Xor(x, Shr(x, n)), x, n)
  {
    hide Shr, Xor;
    forall i: nat
      ensures Bit(Xor(x, Shr(x, n)), i) == (Bit(x, i) + Bit(x, i + n)) % 2
    {
      XorBit(x, Shr(x, n), i);
      ShrShr(x, n, i);
    }
  }

  /** The seven stages of the hash, modulo 2^k: times 2^21 - 1 less 1, times 265, times 21 and times 2^31 + 1,
      and in between xor with itself shifted by 24, 14 and 28. */
  lemma HashStages(key: nat, k: nat) returns (a1: nat, a2: nat, a3: nat, a4: nat, a5: nat, a6: nat)
    requires k <= 64
    ensures Is(a1, 2097151 * key - 1, k) && XorShifted(a2, a1, 24)
    ensures Is(a3, 265 * a2, k) && XorShifted(a4, a3, 14)
    ensures Is(a5, 21 * a4, k) && XorShifted(a6, a5, 28)
    ensures Is(Hash64(key, k), 2147483649 * a6, k)
  {
    hide Step1, Step3, Step5, Step7, Is, XorShifted, Xor, Shr;
    a1 := Step1(key, k);
    a2 := Step2(a1);
    a3 := Step3(a2, k);
    a4 := Step4(a3);
    a5 := Step5(a4, k);
    a6 := Step6(a5);
    Step1Is(key, k);
    XorShiftedIs(a1, 24);
    Step3Is(a2, k);
    XorShiftedIs(a3, 14);
    Step5Is(a4, k);
    XorShiftedIs(a5, 28);
    Step7Is(a6, k);
  }

  /** hash_64i undoes hash_64 on k-bit keys. */
  lemma HashThenInverse(key: nat, k: nat)
    requires k <= 64 && key < Pow2(k)
    ensures Hash64i(Hash64(key, k), k) == key && Hash64(key, k) < Pow2(k)
  {
    hide Pow2, Step1, Step2, Step3, Step4, Step5, Step6, Step7, Undo1, Undo2, Undo3, Undo4, Undo5, Undo6, Undo7;
    Pow2Monotone(k, 64);
    Undo1Step1(key, k);
    var key1 := Step1(key, k);
    StepBounds(key, k);
    Undo2Step2(key1);
    var key2 := Step2(key1);
    XorSteps(key1, k);
    Undo3Step3(key2, k);
    var key3 := Step3(key2, k);
    StepBounds(key2, k);
    Undo4Step4(key3);
    var key4 := Step4(key3);
    XorSteps(key3, k);
    Undo5Step5(key4, k);
    var key5 := Step5(key4, k);
    StepBounds(key4, k);
    Undo6Step6(key5);
    var key6 := Step6(key5);
    XorSteps(key5, k);
    Undo7Step7(key6, k);
    StepBounds(key6, k);
  }

  lemma StepBounds(key: nat, k: nat)
    ensures Step1(key, k) < Pow2(k) && Step3(key, k) < Pow2(k) && Step5(key, k) < Pow2(k) && Step7(key, k) < Pow2(k)
    ensures Undo1(key, k) < Pow2(k) && Undo3(key, k) < Pow2(k) && Undo5(key, k) < Pow2(k) && Undo7(key, k) < Pow2(k)
  {
  }

  lemma XorSteps(key: nat, k: nat)
    requires key < Pow2(k)
    ensures Step2(key) < Pow2(k) && Step4(key) < Pow2(k) && Step6(key) < Pow2(k)
  {
    hide Xor, Shr, Pow2;
    XorShiftBound(key, key, 24, k);
    XorShiftBound(key, key, 14, k);
    XorShiftBound(key, key, 28, k);
  }

  /** hash_64 undoes hash_64i on k-bit values, so hash_64 permutes the k-bit numbers. */
  lemma InverseThenHash(value: nat, k: nat)
    requires k <= 64 && value < Pow2(k)
    ensures Hash64(Hash64i(value, k), k) == value && Hash64i(value, k) < Pow2(k)
  {
    hide Pow2, Step1, Step2, Step3, Step4, Step5, Step6, Step7, Undo1, Undo2, Undo3, Undo4, Undo5, Undo6, Undo7;
    Pow2Monotone(k, 64);
    Undo7Step7(value, k);
    var v6 := Undo7(value, k);
    StepBounds(value, k);
    Undo6Step6(v6);
    var v5 := Undo6(v6);
    UndoBounds(v6, k);
    Undo5Step5(v5, k);
    var v4 := Undo5(v5, k);
    StepBounds(v5, k);
    Undo4Step4(v4);
    var v3 := Undo4(v4);
    UndoBounds(v4, k);
    Undo3Step3(v3, k);
    var v2 := Undo3(v3, k);
    StepBounds(v3, k);
    Undo2Step2(v2);
    var v1 := Undo2(v2);
    UndoBounds(v2, k);
    Undo1Step1(v1, k);
    StepBounds(v1, k);
  }

  /** Different keys have different hashes. */
  lemma HashInjective(x: nat, y: nat, k: nat)
    requires k <= 64 && x < Pow2(k) && y < Pow2(k)
    ensures Hash64(x, k) == Hash64(y, k) <==> x == y
  {
    hide Pow2, Hash64, Hash64i;
    HashThenInverse(x, k);
    HashThenInverse(y, k);
  }
}
