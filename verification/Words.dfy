/** Machine words as 64-bit vectors, and the population-count / select vocabulary of src/gqf.c.
    A word is a sequence of 64 bits, least significant first; memory is a longer sequence of bits. */
module Words {

  type Word = w: seq<bool> | |w| == 64 witness seq(64, _ => false)

  function Zeros(n: nat): (s: seq<bool>)
    ensures |s| == n && forall i | 0 <= i < n :: !s[i]
  {
    seq(n, _ => false)
  }

  /** BITMASK(n): the n low bits set. */
  function BitMask(n: nat): (w: Word)
    requires n <= 64
    ensures forall i | 0 <= i < 64 :: w[i] == (i < n)
  {
    seq(64, i => i < n)
  }

  function And(a: Word, b: Word): (w: Word)
    ensures forall i | 0 <= i < 64 :: w[i] == (a[i] && b[i])
  {
    seq(64, i requires 0 <= i < 64 => a[i] && b[i])
  }

  function Or(a: Word, b: Word): (w: Word)
    ensures forall i | 0 <= i < 64 :: w[i] == (a[i] || b[i])
  {
    seq(64, i requires 0 <= i < 64 => a[i] || b[i])
  }

  function Not(a: Word): (w: Word)
    ensures forall i | 0 <= i < 64 :: w[i] == !a[i]
  {
    seq(64, i requires 0 <= i < 64 => !a[i])
  }

  function Shl(a: Word, n: nat): (w: Word)
    ensures forall i | 0 <= i < 64 :: w[i] == (i >= n && a[i - n])
  {
    seq(64, i requires 0 <= i < 64 => i >= n && a[i - n])
  }

  function Shr(a: Word, n: nat): (w: Word)
    ensures forall i | 0 <= i < 64 :: w[i] == (i + n < 64 && a[i + n])
  {
    seq(64, i requires 0 <= i < 64 => i + n < 64 && a[i + n])
  }

  /** The number of set bits of s at positions lo <= i < hi. */
  function Count(s: seq<bool>, lo: nat, hi: nat): (c: nat)
    requires hi <= |s|
    ensures lo <= hi ==> c <= hi - lo
    ensures hi <= lo ==> c == 0
  {
    if hi <= lo then 0 else Count(s, lo, hi - 1) + if s[hi - 1] then 1 else 0
  }

  /** popcnt */
  function PopCount(w: Word): nat {
    Count(w, 0, 64)
  }

  /** The position of the first set bit of s at or after `from` that has k set bits before it
      (counted from `from`), or |s| if there is none: the specification of the select instruction. */
  function SelectFrom(s: seq<bool>, from: nat, k: nat): (p: nat)
    requires from <= |s|
    ensures from <= p <= |s|
    ensures p < |s| ==> s[p] && Count(s, from, p) == k
    ensures p == |s| ==> Count(s, from, |s|) <= k
    decreases |s| - from
  {
    if from == |s| then from
    else if s[from] && k == 0 then from
    else
      var p := SelectFrom(s, from + 1, if s[from] then k - 1 else k);
      CountSplit(s, from, from + 1, p);
      assert Count(s, from, from + 1) == Count(s, from, from) + if s[from] then 1 else 0;
      p
  }

  function Select(w: Word, k: nat): (p: nat)
    ensures p <= 64
    ensures p < 64 ==> w[p] && Count(w, 0, p) == k
    ensures p == 64 <==> PopCount(w) <= k
  {
    var p := SelectFrom(w, 0, k);
    if p < 64 then CountSplit(w, 0, p, 64); CountPositive(w, p, 64, p); p else p
  }

  lemma {:induction false} CountSplit(s: seq<bool>, lo: nat, mid: nat, hi: nat)
    requires lo <= mid <= hi <= |s|
    ensures Count(s, lo, hi) == Count(s, lo, mid) + Count(s, mid, hi)
    decreases hi
  {
    if mid == hi {
    } else {
      CountSplit(s, lo, mid, hi - 1);
    }
  }

  lemma {:induction false} CountZero(s: seq<bool>, lo: nat, hi: nat)
    requires lo <= hi <= |s|
    requires forall i | lo <= i < hi :: !s[i]
    ensures Count(s, lo, hi) == 0
    decreases hi
  {
    if lo == hi {
    } else {
      CountZero(s, lo, hi - 1);
    }
  }

  lemma CountPositive(s: seq<bool>, lo: nat, hi: nat, p: nat)
    requires lo <= p < hi <= |s| && s[p]
    ensures Count(s, lo, hi) == Count(s, lo, p) + 1 + Count(s, p + 1, hi)
  {
    CountSplit(s, lo, p, hi);
    CountSplit(s, p, p + 1, hi);
    assert Count(s, p, p + 1) == Count(s, p, p) + 1;
  }

  lemma CountWitness(s: seq<bool>, lo: nat, hi: nat) returns (p: nat)
    requires lo <= hi <= |s| && Count(s, lo, hi) > 0
    ensures lo <= p < hi && s[p] && Count(s, p + 1, hi) == 0
    decreases hi
  {
    if s[hi - 1] {
      p := hi - 1;
    } else {
      p := CountWitness(s, lo, hi - 1);
    }
  }

  /** Two set bits with equally many set bits before them are the same bit. */
  lemma CountInjective(s: seq<bool>, lo: nat, p: nat, q: nat)
    requires lo <= p < |s| && lo <= q < |s| && s[p] && s[q]
    requires Count(s, lo, p) == Count(s, lo, q)
    ensures p == q
  {
    if p < q {
      CountPositive(s, lo, q, p);
    } else if q < p {
      CountPositive(s, lo, p, q);
    }
  }

  lemma CountMonotone(s: seq<bool>, lo: nat, mid: nat, hi: nat)
    requires lo <= mid <= hi <= |s|
    ensures Count(s, lo, mid) <= Count(s, lo, hi)
  {
    CountSplit(s, lo, mid, hi);
  }

  /** Counting is invariant under translation. */
  lemma {:induction false} CountShift(s: seq<bool>, lo: nat, hi: nat, t: seq<bool>, d: nat)
    requires lo <= hi <= |s| && hi + d <= |t|
    requires forall i | lo <= i < hi :: s[i] == t[i + d]
    ensures Count(s, lo, hi) == Count(t, lo + d, hi + d)
    decreases hi
  {
    if lo == hi {
    } else {
      CountShift(s, lo, hi - 1, t, d);
    }
  }

  /** popcntv / bitselectv / bitrank on a word of a longer bit vector, in terms of the vector. */
  lemma CountMaskedHigh(m: seq<bool>, b: nat, w: Word, ignore: nat)
    requires 64 * b + 64 <= |m| && ignore <= 64
    requires forall i | 0 <= i < 64 :: w[i] == (m[64 * b + i] && i >= ignore)
    ensures PopCount(w) == Count(m, 64 * b + ignore, 64 * b + 64)
    ensures forall p | ignore <= p <= 64 :: Count(w, 0, p) == Count(m, 64 * b + ignore, 64 * b + p)
  {
    forall p | ignore <= p <= 64
      ensures Count(w, 0, p) == Count(m, 64 * b + ignore, 64 * b + p)
    {
      CountZero(w, 0, ignore);
      CountSplit(w, 0, ignore, p);
      CountShift(w, ignore, p, m, 64 * b);
    }
  }

  lemma CountMaskedLow(m: seq<bool>, b: nat, w: Word, n: nat)
    requires 64 * b + 64 <= |m| && n <= 64
    requires forall i | 0 <= i < 64 :: w[i] == (m[64 * b + i] && i < n)
    ensures PopCount(w) == Count(m, 64 * b, 64 * b + n)
  {
    CountZero(w, n, 64);
    CountSplit(w, 0, n, 64);
    CountShift(w, 0, n, m, 64 * b);
  }

  lemma CountMaskedShifted(m: seq<bool>, b: nat, w: Word, lo: nat, hi: nat)
    requires 64 * b + 64 <= |m| && lo <= hi <= 64
    requires forall i | 0 <= i < 64 :: w[i] == (i + lo < hi && m[64 * b + lo + i])
    ensures PopCount(w) == Count(m, 64 * b + lo, 64 * b + hi)
  {
    CountZero(w, hi - lo, 64);
    CountSplit(w, 0, hi - lo, 64);
    CountShift(w, 0, hi - lo, m, 64 * b + lo);
  }

  /** shift_into_b (src/gqf.c:719-726), statement by statement. */
  function ShiftIntoB(a: Word, b: Word, bstart: nat, bend: nat, amount: nat): (r: Word)
    requires bstart <= bend <= 64 && 0 < amount <= 64
    ensures forall i | 0 <= i < 64 ::
              r[i] == (if !(bstart <= i < bend) then b[i]
                       else if i - amount >= bstart then b[i - amount]
                       else bstart == 0 && i < amount && a[64 - amount + i])
  {
    var aComponent := if bstart == 0 then Shr(a, 64 - amount) else Zeros(64);
    var bShiftedMask := Shl(BitMask(bend - bstart), bstart);
    var bShifted := And(Shl(And(bShiftedMask, b), amount), bShiftedMask);
    var bMask := Not(bShiftedMask);
    Or(Or(And(aComponent, bShiftedMask), bShifted), And(b, bMask))
  }
}
