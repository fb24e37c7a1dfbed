/** The integer arithmetic coder for hash selectors of src/taf.cc, and the adaptation of one slot of
    the telescoping filter, which rewrites the selector code of its block. */
module SelectorCoding {
  import opened Numbers
  import opened Hashes
  import opened ExtensionCoding

  const MAX_SELECTOR: nat := 6

  /** The share of the interval that each selector gets. */
  function Gap(range: nat, letter: nat): nat {
    match letter
    case 0 => Shr(range, 1) + Shr(range, 2) + Shr(range, 5)
    case 1 => Shr(range, 3) + Shr(range, 4) + Shr(range, 7) + Shr(range, 9)
    case 2 => Shr(range, 6) + Shr(range, 8)
    case 3 => Shr(range, 10) + Shr(range, 11)
    case 4 => Shr(range, 14) + Shr(range, 16)
    case 5 => Shr(range, 19) + Shr(range, 20) + Shr(range, 23)
    case 6 => Shr(range, 24) + Shr(range, 25) + Shr(range, 26)
    case _ => 0
  }

  /** The shares of the selectors below. */
  function Below(range: nat, letter: nat): nat {
    if letter == 0 then 0 else Below(range, letter - 1) + Gap(range, letter - 1)
  }

  /** The interval after one selector. */
  function Select(a: Interval, letter: nat): Interval
    requires a.low <= a.high
  {
    var range := a.high - a.low;
    Interval(a.low + Below(range, letter), a.low + Below(range, letter) + Gap(range, letter))
  }

  // ---- nesting ------------------------------------------------------------------------------

  /** Scaled by 2^26, every share is bounded by its binary fraction of the range. */
  lemma GapsScaled(range: nat)
    ensures 32 * Gap(range, 0) <= 25 * range
    ensures 512 * Gap(range, 1) <= 101 * range
    ensures 256 * Gap(range, 2) <= 5 * range
    ensures 2048 * Gap(range, 3) <= 3 * range
    ensures 65536 * Gap(range, 4) <= 5 * range
    ensures 8388608 * Gap(range, 5) <= 25 * range
    ensures 67108864 * Gap(range, 6) <= 7 * range
  {
    hide Shr;
    ShrScaled(range, 1, 2);
    ShrScaled(range, 2, 4);
    ShrScaled(range, 3, 8);
    ShrScaled(range, 4, 16);
    ShrScaled(range, 5, 32);
    ShrScaled(range, 6, 64);
    ShrScaled(range, 7, 128);
    ShrScaled(range, 8, 256);
    ShrScaled(range, 9, 512);
    ShrScaled(range, 10, 1024);
    ShrScaled(range, 11, 2048);
    ShrScaled(range, 14, 16384);
    ShrScaled(range, 16, 65536);
    ShrScaled(range, 19, 524288);
    ShrScaled(range, 20, 1048576);
    ShrScaled(range, 23, 8388608);
    ShrScaled(range, 24, 16777216);
    ShrScaled(range, 25, 33554432);
    ShrScaled(range, 26, 67108864);
  }

  lemma {:induction false} BelowMonotone(range: nat, i: nat, j: nat)
    requires i <= j
    ensures Below(range, i) <= Below(range, j)
    decreases j
  {
    if i == j {
    } else {
      BelowMonotone(range, i, j - 1);
    }
  }

  lemma BelowFirst(range: nat)
    ensures Below(range, 0) == 0 && Below(range, 1) == Gap(range, 0)
  {
    assert Below(range, 0) == 0;
  }

  lemma BelowNext(range: nat, k: nat)
    ensures Below(range, k + 1) == Below(range, k) + Gap(range, k)
  {
  }

  lemma AllGaps(range: nat)
    ensures Below(range, 0) == 0 && Below(range, 1) == Gap(range, 0) && Below(range, 2) == Below(range, 1)
            + Gap(range, 1)
    ensures Below(range, 3) == Below(range, 2) + Gap(range, 2) && Below(range, 4) == Below(range, 3) + Gap(range, 3)
    ensures Below(range, 5) == Below(range, 4) + Gap(range, 4) && Below(range, 6) == Below(range, 5) + Gap(range, 5)
    ensures Below(range, 7) == Below(range, 6) + Gap(range, 6)
  {
    hide Gap, Below;
    BelowFirst(range);
    BelowNext(range, 1);
    BelowNext(range, 2);
    BelowNext(range, 3);
    BelowNext(range, 4);
    BelowNext(range, 5);
    BelowNext(range, 6);
  }

  lemma SelectWithin(a: Interval, letter: nat)
    requires a.low <= a.high && letter <= MAX_SELECTOR
    ensures Within(Select(a, letter), a)
  {
    hide Gap;
    var range := a.high - a.low;
    GapsScaled(range);
    AllGaps(range);
    BelowMonotone(range, letter + 1, 7);
  }

  ghost predicate AreSelectors(sels: seq<nat>) {
    forall i | 0 <= i < |sels| :: sels[i] <= MAX_SELECTOR
  }

  /** The interval after all the selectors. */
  ghost function SelectAll(sels: seq<nat>): (a: Interval)
    requires AreSelectors(sels)
    ensures Within(a, Whole())
  {
    if sels == [] then Whole()
    else
      SelectWithin(SelectAll(sels[..|sels| - 1]), sels[|sels| - 1]);
      Select(SelectAll(sels[..|sels| - 1]), sels[|sels| - 1])
  }

  lemma NextSelected(sels: seq<nat>, i: nat)
    requires AreSelectors(sels) && i < |sels|
    ensures var a := SelectAll(sels[..i]);
            && a.low <= a.high && SelectAll(sels[..i + 1]) == Select(a, sels[i]) && Within(SelectAll(sels[..i + 1]), a)
  {
    assert sels[..i + 1][..i] == sels[..i];
    SelectWithin(SelectAll(sels[..i]), sels[i]);
  }

  lemma OrderedSelected(sels: seq<nat>)
    requires AreSelectors(sels)
    ensures Within(SelectAll(sels), Whole())
  {
  }

  lemma {:induction false} LaterSelectedWithin(sels: seq<nat>, i: nat, j: nat)
    requires AreSelectors(sels) && i <= j <= |sels|
    ensures Within(SelectAll(sels[..j]), SelectAll(sels[..i]))
    decreases j
  {
    hide Select, SelectAll, Pow2;
    if i < j {
      LaterSelectedWithin(sels, i, j - 1);
      NextSelected(sels, j - 1);
    } else {
      OrderedSelected(sels[..i]);
    }
  }

  /** The coder never runs out of code points. */
  ghost predicate SelEncodable(sels: seq<nat>) {
    AreSelectors(sels) && forall i {:trigger sels[..i]} | 0 < i <= |sels| :: Wide(SelectAll(sels[..i]))
  }

  ghost function SelCode(sels: seq<nat>): nat
    requires SelEncodable(sels)
  {
    SelectAll(sels).low
  }

  lemma SelCodeInside(sels: seq<nat>, i: nat)
    requires SelEncodable(sels) && i <= |sels| && |sels| > 0
    ensures SelectAll(sels[..i]).low <= SelCode(sels) < SelectAll(sels[..i]).high
    ensures SelCode(sels) < Pow2(56)
  {
    LaterSelectedWithin(sels, i, |sels|);
    assert sels[..|sels|] == sels;
    OrderedSelected(sels);
  }

  // ---- encoding -----------------------------------------------------------------------------

  /** The first switch of encode_sel: a fall-through sum of the shares below. */
  method LowOf(low0: nat, range: nat, letter: nat) returns (low: nat)
    requires letter <= MAX_SELECTOR
    ensures low == low0 + Below(range, letter)
  {
    hide Shr;
    low := low0;
    if letter >= 6 { low := low + Shr(range, 19) + Shr(range, 20) + Shr(range, 23); }
    if letter >= 5 { low := low + Shr(range, 14) + Shr(range, 16); }
    if letter >= 4 { low := low + Shr(range, 10) + Shr(range, 11); }
    if letter >= 3 { low := low + Shr(range, 6) + Shr(range, 8); }
    if letter >= 2 { low := low + Shr(range, 3) + Shr(range, 4) + Shr(range, 7) + Shr(range, 9); }
    if letter >= 1 { low := low + Shr(range, 1) + Shr(range, 2) + Shr(range, 5); }
    BelowCases(range, letter);
  }

  lemma BelowCases(range: nat, letter: nat)
    requires letter <= MAX_SELECTOR
    ensures Below(range, letter) ==
            (if letter >= 6 then Gap(range, 5) else 0) + (if letter >= 5 then Gap(range, 4) else 0) +
            (if letter >= 4 then Gap(range, 3) else 0) + (if letter >= 3 then Gap(range, 2) else 0) +
            (if letter >= 2 then Gap(range, 1) else 0) + (if letter >= 1 then Gap(range, 0) else 0)
  {
    AllGaps(range);
  }

  /** encode_sel (src/taf.cc:719-778). A selector above the maximum is first reduced. */
  method EncodeSel(sels: array<nat>) returns (ret: int, code: nat)
    requires sels.Length == 64
    ensures var s := Reduced(sels[..]);
            && (ret == 0 <==> SelEncodable(s)) && (ret == 0 || ret == -1)
            && (ret == 0 ==> code == SelCode(s) < Pow2(56))
  {
    hide Select, Pow2, Below, Gap;
    var low: nat, high: nat := 0, Pow2(CODE_BITS) - 1;
    ghost var all := Reduced(sels[..]);
    code := 0;
    var i: nat := 0;
    WholeSelected(all);
    while i < 64
      invariant i <= 64 && Interval(low, high) == SelectAll(all[..i]) && low <= high
      invariant forall k {:trigger all[..k]} | 0 < k <= i :: Wide(SelectAll(all[..k]))
    {
      var letter := sels[i];
      if letter > MAX_SELECTOR {
        letter := letter % MAX_SELECTOR;
      }
      NextSelected(all, i);
      SelectIs(low, high, letter);
      var range: nat := high - low;
      low := LowOf(low, range, letter);
      high := low + Gap(range, letter);
      if high - low < 2 {
        return -1, 0;
      }
      i := i + 1;
    }
    assert all[..64] == all;
    SelCodeInside(all, 0);
    return 0, low;
  }

  lemma SelectIs(low: nat, high: nat, letter: nat)
    requires low <= high
    ensures Select(Interval(low, high), letter)
         == Interval(low + Below(high - low, letter), low + Below(high - low, letter) + Gap(high - low, letter))
  {
  }

  ghost function Reduced(sels: seq<nat>): (s: seq<nat>)
    ensures |s| == |sels| && AreSelectors(s)
    ensures forall i {:trigger s[i]} | 0 <= i < |s| ::
            s[i] == if sels[i] > MAX_SELECTOR then sels[i] % MAX_SELECTOR else sels[i]
  {
    seq(|sels|, i requires 0 <= i < |sels| => if sels[i] > MAX_SELECTOR then sels[i] % MAX_SELECTOR else sels[i])
  }

  lemma WholeSelected(sels: seq<nat>)
    requires AreSelectors(sels)
    ensures SelectAll(sels[..0]) == Interval(0, Pow2(CODE_BITS) - 1)
  {
    assert sels[..0] == [];
  }

  // ---- decoding -----------------------------------------------------------------------------

  /** The selector whose share the code lies in, or 7 if there is none. */
  function Letter(code: nat, a: Interval, from: nat): (k: nat)
    requires a.low <= a.high && from <= 7
    ensures from <= k <= 7
    decreases 7 - from
  {
    if from == 7 || a.low + Below(a.high - a.low, from + 1) > code then from else Letter(code, a, from + 1)
  }

  /** The interval in which decoding goes on. */
  function After(a: Interval, k: nat): Interval
    requires a.low <= a.high && k <= 7
  {
    if k == 7 then Interval(a.low + Below(a.high - a.low, 6), a.high) else Select(a, k)
  }

  lemma AfterWithin(a: Interval, k: nat)
    requires a.low <= a.high && k <= 7
    ensures Within(After(a, k), a)
  {
    hide Below, Gap;
    SelectWithin(a, if k == 7 then 6 else k);
  }

  function Remaining(code: nat, n: nat): (a: Interval)
    ensures a.low <= a.high
  {
    if n == 0 then Whole()
    else
      AfterWithin(Remaining(code, n - 1), Letter(code, Remaining(code, n - 1), 0));
      After(Remaining(code, n - 1), Letter(code, Remaining(code, n - 1), 0))
  }

  /** The selectors that a code stands for. */
  function Decoded(code: nat, n: nat): (sels: seq<nat>)
    ensures |sels| == n
  {
    if n == 0 then [] else Decoded(code, n - 1) + [Letter(code, Remaining(code, n - 1), 0)]
  }

  lemma {:induction false} LetterIs(code: nat, a: Interval, k: nat, from: nat)
    requires a.low <= a.high && from <= k <= MAX_SELECTOR && Select(a, k).low <= code < Select(a, k).high
    ensures Letter(code, a, from) == k
    decreases k - from
  {
    BelowNext(a.high - a.low, k);
    if from == k {
    } else {
      BelowMonotone(a.high - a.low, from + 1, k);
      LetterIs(code, a, k, from + 1);
    }
  }

  /** Decoding the code of an encodable sequence gives the sequence back. */
  lemma {:induction false} DecodedIsEncoded(sels: seq<nat>, n: nat)
    requires SelEncodable(sels) && n <= |sels|
    ensures Remaining(SelCode(sels), n) == SelectAll(sels[..n]) && Decoded(SelCode(sels), n) == sels[..n]
  {
    hide Select, Letter, Pow2, SelCode;
    if n == 0 {
      WholeSelected(sels);
    } else {
      DecodedIsEncoded(sels, n - 1);
      NextSelected(sels, n - 1);
      SelCodeInside(sels, n);
      var a := SelectAll(sels[..n - 1]);
      assert Wide(SelectAll(sels[..n]));
      LetterIs(SelCode(sels), a, sels[n - 1], 0);
      assert sels[..n] == sels[..n - 1] + [sels[n - 1]];
    }
  }

  lemma SelRoundTrip(sels: seq<nat>)
    requires SelEncodable(sels)
    ensures Decoded(SelCode(sels), |sels|) == sels
  {
    DecodedIsEncoded(sels, |sels|);
    assert sels[..|sels|] == sels;
  }

  /** decode_sel (src/taf.cc:780-837): a cascade of comparisons for every selector. */
  method DecodeSel(code: nat, out: array<nat>)
    requires out.Length == 64
    modifies out
    ensures out[..] == Decoded(code, 64)
  {
    hide Pow2, Below, Gap, Letter, After;
    var low: nat, high: nat := 0, Pow2(CODE_BITS) - 1;
    var i: nat := 0;
    while i < 64
      invariant i <= 64 && low <= high && low <= code && Interval(low, high) == Remaining(code, i)
                && out[..i] == Decoded(code, i)
    {
      var letter;
      low, high, letter := DecodeLetter(code, low, high);
      out[i] := letter;
      assert out[..i + 1] == out[..i] + [letter];
      i := i + 1;
    }
    assert out[..64] == out[..];
  }

  /** One turn of decode_sel. */
  method DecodeLetter(code: nat, low0: nat, high0: nat) returns (low: nat, high: nat, letter: nat)
    requires low0 <= high0 && low0 <= code
    ensures letter == Letter(code, Interval(low0, high0), 0)
    ensures Interval(low, high) == After(Interval(low0, high0), letter) && low <= high && low <= code
  {
    hide Letter, Below, Shr, Gap, Select;
    var range: nat := high0 - low0;
    ghost var a := Interval(low0, high0);
    GapsAre(range);
    low, high := low0, high0;
    BelowFirst(range);
    Compared(code, a, 0, low);
    var gap: nat := Shr(range, 1) + Shr(range, 2) + Shr(range, 5);
    if low + gap > code {
      return low, low + gap, 0;
    }
    low := low + gap;
    gap := Shr(range, 3) + Shr(range, 4) + Shr(range, 7) + Shr(range, 9);
    Compared(code, a, 1, low);
    if low + gap > code {
      return low, low + gap, 1;
    }
    low := low + gap;
    gap := Shr(range, 6) + Shr(range, 8);
    Compared(code, a, 2, low);
    if low + gap > code {
      return low, low + gap, 2;
    }
    low := low + gap;
    gap := Shr(range, 10) + Shr(range, 11);
    Compared(code, a, 3, low);
    if low + gap > code {
      return low, low + gap, 3;
    }
    low := low + gap;
    gap := Shr(range, 14) + Shr(range, 16);
    Compared(code, a, 4, low);
    if low + gap > code {
      return low, low + gap, 4;
    }
    low := low + gap;
    gap := Shr(range, 19) + Shr(range, 20) + Shr(range, 23);
    Compared(code, a, 5, low);
    if low + gap > code {
      return low, low + gap, 5;
    }
    low := low + gap;
    gap := Shr(range, 24) + Shr(range, 25) + Shr(range, 26);
    Compared(code, a, 6, low);
    if low + gap > code {
      return low, low + gap, 6;
    }
    NotFound(code, a, 0);
    AfterWithin(a, 7);
    letter := 7;
  }

  lemma GapsAre(range: nat)
    ensures Gap(range, 0) == Shr(range, 1) + Shr(range, 2) + Shr(range, 5)
    ensures Gap(range, 1) == Shr(range, 3) + Shr(range, 4) + Shr(range, 7) + Shr(range, 9)
    ensures Gap(range, 2) == Shr(range, 6) + Shr(range, 8)
    ensures Gap(range, 3) == Shr(range, 10) + Shr(range, 11)
    ensures Gap(range, 4) == Shr(range, 14) + Shr(range, 16)
    ensures Gap(range, 5) == Shr(range, 19) + Shr(range, 20) + Shr(range, 23)
    ensures Gap(range, 6) == Shr(range, 24) + Shr(range, 25) + Shr(range, 26)
  {
  }

  /** The comparison for selector k: it is decoded, or low moves to the share of the next one. */
  lemma Compared(code: nat, a: Interval, k: nat, low: nat)
    requires a.low <= a.high && k <= 6 && low == a.low + Below(a.high - a.low, k) <= code
    ensures var next := low + Gap(a.high - a.low, k);
            && (next > code ==> Letter(code, a, 0) == k && After(a, k) == Interval(low, next))
            && (next <= code ==> next == a.low + Below(a.high - a.low, k + 1))
  {
    hide Below, Gap, Letter;
    BelowNext(a.high - a.low, k);
    if low + Gap(a.high - a.low, k) > code {
      LetterIs(code, a, k, 0);
    }
  }

  lemma {:induction false} NotFound(code: nat, a: Interval, from: nat)
    requires a.low <= a.high && from <= 7 && a.low + Below(a.high - a.low, 7) <= code
    ensures Letter(code, a, from) == 7
    decreases 7 - from
  {
    if from == 7 {
    } else {
      BelowMonotone(a.high - a.low, from + 1, 7);
      NotFound(code, a, from + 1);
    }
  }

  // ---- the code of an untouched block -------------------------------------------------------

  lemma TwoZerosKeepHalf(range: nat)
    requires range >= 64
    ensures 2 * Gap(Gap(range, 0), 0) >= range
  {
    hide Shr;
    HalfIs(range, 1, 2);
    HalfIs(range, 2, 4);
    var g := Gap(range, 0);
    HalfIs(g, 1, 2);
    HalfIs(g, 2, 4);
    assert 4 * g + 5 >= 3 * range;
    assert 4 * Gap(g, 0) + 5 >= 3 * g;
  }

  lemma HalfIs(x: nat, k: nat, p: nat)
    requires Pow2(k) == p
    ensures p * Shr(x, k) <= x < p * Shr(x, k) + p
  {
    assert x == p * (x / p) + x % p;
  }

  function Zeros(n: nat): (z: seq<nat>)
    ensures |z| == n && (forall i | 0 <= i < n :: z[i] == 0) && AreSelectors(z)
  {
    seq(n, _ => 0)
  }

  /** The points left after n zeros. */
  ghost function Points(n: nat): nat {
    SelectAll(Zeros(n)).high
  }

  lemma ZerosNext(n: nat)
    ensures SelectAll(Zeros(n)).low == 0 ==> SelectAll(Zeros(n + 1)) == Interval(0, Gap(Points(n), 0))
  {
    hide Gap, Pow2;
    assert Zeros(n + 1)[..n] == Zeros(n) && Zeros(n + 1)[..n + 1] == Zeros(n + 1);
    NextSelected(Zeros(n + 1), n);
    BelowFirst(Points(n));
  }

  /** Two zeros keep at least half of the points. */
  lemma {:induction false} ZerosStayWide(n: nat)
    requires n <= 32
    ensures SelectAll(Zeros(2 * n)).low == 0 && Points(2 * n) >= Pow2(55 - n)
    ensures n > 0 ==> SelectAll(Zeros(2 * n - 1)).low == 0 && Points(2 * n - 1) >= Points(2 * n)
  {
    hide Gap, Pow2, SelectAll;
    if n == 0 {
      WholePoints();
      assert Zeros(0) == [];
    } else {
      ZerosStayWide(n - 1);
      ZerosNext(2 * n - 2);
      ZerosNext(2 * n - 1);
      EnoughPoints(55 - (n - 1));
      TwoZerosKeepHalf(Points(2 * n - 2));
      GapsScaled(Points(2 * n - 1));
    }
  }

  lemma WholePoints()
    ensures SelectAll([]) == Interval(0, Pow2(56) - 1) && Pow2(56) - 1 >= Pow2(55)
  {
  }

  lemma EnoughPoints(k: nat)
    requires 24 <= k
    ensures Pow2(k) >= 64 && Pow2(k) == 2 * Pow2(k - 1)
  {
    Pow2Monotone(24, k);
  }

  /** A block without selectors is encodable, by the code 0. */
  lemma ZerosEncodable()
    ensures SelEncodable(Zeros(64)) && SelCode(Zeros(64)) == 0
  {
    hide Gap, Pow2, SelectAll;
    var z := Zeros(64);
    forall i | 0 < i <= 64
      ensures Wide(SelectAll(z[..i]))
    {
      assert z[..i] == Zeros(i);
      ZerosStayWide((i + 1) / 2);
      EnoughPoints(55 - (i + 1) / 2 + 1);
    }
    ZerosStayWide(32);
    assert z[..64] == z;
  }
}
