/** The fields of a 64-bit hash: remainder, quotient, and the further chunks that extend a
    fingerprint (src/gqf.c:1366-1367, 1650-1651, 2460-2516). */
module Hashes {
  import opened Numbers

  const HASH_BITS: nat := 64

  /** h >> n */
  function Shr(h: nat, n: nat): nat {
    DivNonNegative(h, Pow2(n));
    h / Pow2(n)
  }

  /** Bit i of x. */
  function Bit(x: nat, i: nat): nat {
    Shr(x, i) % 2
  }

  /** h & BITMASK(n) */
  function Low(h: nat, n: nat): (l: nat)
    ensures l < Pow2(n)
  {
    h % Pow2(n)
  }

  lemma LowLow(h: nat, n: nat)
    ensures Low(Low(h, n), n) == Low(h, n)
  {
    DivModUnique(Low(h, n), Pow2(n), 0, Low(h, n));
  }

  function Remainder(h: nat, r: nat): nat { Low(h, r) }

  function Quotient(h: nat, qbits: nat, r: nat): nat { Low(Shr(h, r), qbits) }

  /** The bits above quotient and remainder. */
  function High(h: nat, qbits: nat, r: nat): nat { Shr(h, qbits + r) }

  /** The i-th r-bit chunk of x. */
  function Chunk(x: nat, r: nat, i: nat): (c: nat)
    ensures c < Pow2(r)
    decreases i
  {
    if i == 0 then Low(x, r) else Chunk(Shr(x, r), r, i - 1)
  }

  /** The number spelled by r-bit digits, least significant first. */
  function Value(d: seq<nat>, r: nat): nat {
    if d == [] then 0 else d[0] + Pow2(r) * Value(d[1..], r)
  }

  ghost predicate Digits(d: seq<nat>, r: nat) {
    forall i | 0 <= i < |d| :: d[i] < Pow2(r)
  }

  /** The extension chunks agree with the hash. */
  ghost predicate Agrees(ext: seq<nat>, x: nat, r: nat) {
    forall i | 0 <= i < |ext| :: ext[i] == Chunk(x, r, i)
  }

  lemma {:induction false} ValueBound(d: seq<nat>, r: nat)
    requires Digits(d, r)
    ensures Value(d, r) < Pow2(r * |d|)
  {
    if d != [] {
      ValueBound(d[1..], r);
      assert r * |d| == r + r * |d[1..]|;
      Pow2Add(r, r * |d[1..]|);
      MulStep(Value(d[1..], r), Pow2(r * |d[1..]|), Pow2(r));
    } else {
      assert r * |d| == 0;
    }
  }

  lemma {:induction false} ValueAppend(d: seq<nat>, v: nat, r: nat)
    ensures Value(d + [v], r) == Value(d, r) + v * Pow2(r * |d|)
  {
    if d == [] {
      assert d + [v] == [v] && [v][1..] == [];
      calc {
        Value([v], r);
        v + Pow2(r) * Value([], r);
        v;
        { assert r * 0 == 0; }
        v * Pow2(r * 0);
      }
    } else {
      var p, w, m := Pow2(r), Value(d[1..], r), Pow2(r * |d[1..]|);
      assert Pow2(r * |d|) == p * m by {
        assert r * |d| == r + r * |d[1..]|;
        Pow2Add(r, r * |d[1..]|);
      }
      calc {
        Value(d + [v], r);
        { assert (d + [v])[1..] == d[1..] + [v]; }
        d[0] + p * Value(d[1..] + [v], r);
        { ValueAppend(d[1..], v, r); }
        d[0] + p * (w + v * m);
        { MulDistribute(p, w, v, m); }
        d[0] + p * w + v * (p * m);
      }
    }
  }

  /** One turn of the or-loop of get_slot_info. */
  lemma OrAppend(d: seq<nat>, v: nat, r: nat, shift: nat)
    requires Digits(d, r) && shift == |d| * r
    ensures BitOr(Value(d, r), v * Pow2(shift)) == Value(d + [v], r)
  {
    assert shift == r * |d|;
    ValueBound(d, r);
    ValueAppend(d, v, r);
    BitOrDisjoint(Value(d, r), v, shift);
  }

  /** acc | (v << (i * r)) */
  function OrChunk(acc: nat, v: nat, i: nat, r: nat): nat {
    assert i * r >= 0;
    BitOr(acc, v * Pow2(i * r))
  }

  lemma OrDigit(d: seq<nat>, len: nat, r: nat)
    requires Digits(d, r) && len < |d|
    ensures OrChunk(Value(d[..len], r), d[len], len, r) == Value(d[..len + 1], r)
  {
    OrAppend(d[..len], d[len], r, len * r);
    assert d[..len] + [d[len]] == d[..len + 1];
  }

  /** The masked comparison of the query succeeds exactly when every chunk agrees. */
  lemma {:induction false} MaskedCompare(ext: seq<nat>, x: nat, r: nat)
    requires Digits(ext, r)
    ensures Low(x, r * |ext|) == Value(ext, r) <==> Agrees(ext, x, r)
  {
    if ext == [] {
      assert r * |ext| == 0;
    } else {
      var rest, b, m := ext[1..], Pow2(r), Pow2(r * |ext[1..]|);
      MaskedCompare(rest, Shr(x, r), r);
      assert r * |ext| == r + r * |rest|;
      Pow2Add(r, r * |rest|);
      DivDiv(x, b, m);
      assert Low(x, r * |ext|) == x % b + b * Low(Shr(x, r), r * |rest|);
      var u, v := Low(Shr(x, r), r * |rest|), Value(rest, r);
      if x % b + b * u == ext[0] + b * v {
        DivModUnique(x % b + b * u, b, u, x % b);
        DivModUnique(x % b + b * u, b, v, ext[0]);
      }
      assert forall i | 1 <= i < |ext| :: Chunk(x, r, i) == Chunk(Shr(x, r), r, i - 1) && ext[i] == rest[i - 1];
      if Agrees(rest, Shr(x, r), r) && ext[0] == x % b {
        forall i | 0 <= i < |ext| ensures ext[i] == Chunk(x, r, i) {}
      }
      if Agrees(ext, x, r) {
        forall i | 0 <= i < |rest| ensures rest[i] == Chunk(Shr(x, r), r, i) {
          assert ext[i + 1] == Chunk(x, r, i + 1);
        }
        assert ext[0] == Chunk(x, r, 0);
      }
    }
  }

  lemma ShrShr(h: nat, a: nat, b: nat)
    ensures Shr(Shr(h, a), b) == Shr(h, a + b)
  {
    Pow2Add(a, b);
    DivDiv(h, Pow2(a), Pow2(b));
  }

  lemma {:induction false} ChunkIsShifted(x: nat, r: nat, i: nat)
    ensures Chunk(x, r, i) == Low(Shr(x, r * i), r)
    decreases i
  {
    if i == 0 {
      assert r * i == 0;
      assert Shr(x, 0) == x;
    } else {
      ChunkIsShifted(Shr(x, r), r, i - 1);
      ShrShr(x, r, r * (i - 1));
      assert r + r * (i - 1) == r * i;
    }
  }

  /** Numbers below 2^(r*n) with the same n chunks are equal. */
  lemma {:induction false} SameChunks(x: nat, y: nat, r: nat, n: nat)
    requires x < Pow2(r * n) && y < Pow2(r * n)
    requires forall i | 0 <= i < n :: Chunk(x, r, i) == Chunk(y, r, i)
    ensures x == y
    decreases n
  {
    if n == 0 {
      assert r * n == 0;
    } else {
      assert Shr(x, r) == Shr(y, r) by {
        assert r * n == r + r * (n - 1);
        ShrBound(x, r, r * (n - 1));
        ShrBound(y, r, r * (n - 1));
        forall i | 0 <= i < n - 1
          ensures Chunk(Shr(x, r), r, i) == Chunk(Shr(y, r), r, i)
        {
          assert Chunk(x, r, i + 1) == Chunk(y, r, i + 1);
        }
        SameChunks(Shr(x, r), Shr(y, r), r, n - 1);
      }
      assert Chunk(x, r, 0) == Chunk(y, r, 0);
      SameParts(x, y, r);
    }
  }

  lemma SameParts(x: nat, y: nat, n: nat)
    requires Low(x, n) == Low(y, n) && Shr(x, n) == Shr(y, n)
    ensures x == y
  {
    var p := Pow2(n);
    assert x == p * (x / p) + x % p;
    assert y == p * (y / p) + y % p;
  }

  lemma ShrBound(x: nat, a: nat, b: nat)
    requires x < Pow2(a + b)
    ensures Shr(x, a) < Pow2(b)
  {
    Pow2Add(a, b);
    if Pow2(b) <= x / Pow2(a) {
      MulMonotone(Pow2(b), x / Pow2(a), Pow2(a));
    }
  }

  lemma {:induction false} Pow2Monotone(a: nat, b: nat)
    requires a <= b
    ensures Pow2(a) <= Pow2(b)
  {
    if a == b {
    } else {
      Pow2Monotone(a, b - 1);
    }
  }

  lemma SameFields(h: nat, g: nat, qbits: nat, r: nat)
    requires Remainder(h, r) == Remainder(g, r) && Quotient(h, qbits, r) == Quotient(g, qbits, r)
    requires High(h, qbits, r) == High(g, qbits, r)
    ensures h == g
  {
    assert r + qbits == qbits + r;
    ShrShr(h, r, qbits);
    ShrShr(g, r, qbits);
    hide Shr, Low;
    SameParts(Shr(h, r), Shr(g, r), qbits);
    SameParts(h, g, r);
  }

  lemma HighBound(h: nat, qbits: nat, r: nat, m: nat)
    requires h < Pow2(HASH_BITS) && qbits + r + m >= HASH_BITS
    ensures High(h, qbits, r) < Pow2(m)
  {
    Pow2Monotone(HASH_BITS, qbits + r + m);
    hide Pow2;
    ShrBound(h, qbits + r, m);
  }

  /** Hashes with the same quotient, remainder and enough chunks to fill 64 bits are equal. */
  lemma {:induction false} SameFingerprintSameHash(h: nat, g: nat, qbits: nat, r: nat, n: nat)
    requires h < Pow2(HASH_BITS) && g < Pow2(HASH_BITS) && qbits + r + r * n >= HASH_BITS
    requires Remainder(h, r) == Remainder(g, r) && Quotient(h, qbits, r) == Quotient(g, qbits, r)
    requires forall i | 0 <= i < n :: Chunk(High(h, qbits, r), r, i) == Chunk(High(g, qbits, r), r, i)
    ensures h == g
  {
    hide Pow2, High, Remainder, Quotient;
    HighBound(h, qbits, r, r * n);
    HighBound(g, qbits, r, r * n);
    SameChunks(High(h, qbits, r), High(g, qbits, r), r, n);
    SameFields(h, g, qbits, r);
  }

  /** The minirun id (the low quotient and remainder bits) identifies quotient and remainder. */
  lemma MinirunId(h: nat, qbits: nat, r: nat)
    ensures Low(h, qbits + r) == Remainder(h, r) + Pow2(r) * Quotient(h, qbits, r)
    ensures Shr(Low(h, qbits + r), r) == Quotient(h, qbits, r)
    ensures Low(Low(h, qbits + r), r) == Remainder(h, r)
  {
    Pow2Add(r, qbits);
    assert r + qbits == qbits + r;
    DivDiv(h, Pow2(r), Pow2(qbits));
    DivModUnique(Low(h, qbits + r), Pow2(r), Quotient(h, qbits, r), Remainder(h, r));
  }

  /** The running shift of adapt: after one more shift by r the low bits are the next chunk. */
  lemma NextChunk(h: nat, qbits: nat, r: nat, len: nat, bits: nat)
    requires bits == r * len
    ensures var s := Shr(Shr(h, bits + qbits), r);
            Low(s, r) == Chunk(High(h, qbits, r), r, len) && s == Shr(h, bits + r + qbits)
  {
    ShrShr(h, bits + qbits, r);
    ShrShr(h, qbits + r, bits);
    assert bits + qbits + r == qbits + r + bits == bits + r + qbits;
    ChunkIsShifted(High(h, qbits, r), r, len);
  }
}
