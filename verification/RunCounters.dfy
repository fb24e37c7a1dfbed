/** The counters that src/gqf_backup.c keeps inside a run: a remainder with its count is written as a
    short sequence of slots that starts and ends with the remainder. Reading a run slot by slot gives
    back the remainders and counts that were written. */
module RunCounters {
  import opened Numbers

  datatype Entry = Entry(rem: nat, count: nat)

  /** The number of digit values: all slot values but zero and the remainder. */
  function Base(rem: nat, r: nat): nat {
    Pow2(r) - if rem == 0 then 1 else if r == 0 then 1 else 2
  }

  /** A digit as a slot value that is neither zero nor the remainder. */
  function Mark(digit: nat, rem: nat): nat {
    if rem > 0 && digit + 1 >= rem then digit + 2 else digit + 1
  }

  function Quot(c: nat, base: nat): nat
    requires base > 0
  {
    DivNonNegative(c, base);
    c / base
  }

  function Rest(c: nat, base: nat): nat
    requires base > 0
  {
    c % base
  }

  function Horner(a: nat, base: nat, digit: nat): nat {
    assert a * base >= 0;
    a * base + digit
  }

  lemma DivPositive(c: nat, base: nat)
    requires 0 < base <= c
    ensures c / base > 0
  {
  }

  lemma QuotRest(c: nat, base: nat)
    requires base >= 2
    ensures Horner(Quot(c, base), base, Rest(c, base)) == c
    ensures c < base ==> Quot(c, base) == 0 && Rest(c, base) == c
    ensures c >= base ==> 0 < Quot(c, base) < c
  {
    assert c == base * (c / base) + c % base;
    if c < base {
      DivModUnique(c, base, 0, c);
    } else {
      DivPositive(c, base);
      MulMonotone(2, base, c / base);
    }
  }

  /** The digits of c, most significant first. */
  function Digits(c: nat, base: nat, rem: nat): (d: seq<nat>)
    requires base >= 2
    ensures d != []
  {
    QuotRest(c, base);
    (if c < base then [] else Digits(Quot(c, base), base, rem)) + [Mark(Rest(c, base), rem)]
  }

  /** A zero keeps the first slot behind the remainder below it. */
  function Lead(d: seq<nat>, rem: nat): seq<nat>
    requires d != []
  {
    if rem > 0 && d[0] >= rem then [0] else []
  }

  /** The slots between the remainders that enclose a count of four or more. */
  function Middle(rem: nat, count: nat, r: nat): (d: seq<nat>)
    requires r >= 2 && count >= 4
    ensures d != []
  {
    BaseAtLeastTwo(rem, r);
    var d := Digits(count - if rem == 0 then 4 else 3, Base(rem, r), rem);
    Lead(d, rem) + d
  }

  /** The slots that encode a remainder and its count. */
  function Slots(e: Entry, r: nat): seq<nat>
    requires r >= 2
  {
    if e.count == 0 then []
    else if e.count == 1 then [e.rem]
    else if e.count == 2 then [e.rem, e.rem]
    else if e.count == 3 then [e.rem, 0, e.rem]
    else [e.rem] + Middle(e.rem, e.count, r) + if e.rem == 0 then [0, 0] else [e.rem]
  }

  function RunSlots(es: seq<Entry>, r: nat): seq<nat>
    requires r >= 2
  {
    if es == [] then [] else Slots(es[0], r) + RunSlots(es[1..], r)
  }

  lemma BaseAtLeastTwo(rem: nat, r: nat)
    requires r >= 2
    ensures Base(rem, r) >= 2
  {
    assert Pow2(r) == 4 * Pow2(r - 2);
  }

  /** The number that a digit sequence spells; a leading zero counts as nothing. */
  function Unmark(d: nat, rem: nat): nat {
    var a := if d > rem then d - 1 else d;
    if a > 0 && rem > 0 then a - 1 else a
  }

  function Number(d: seq<nat>, base: nat, rem: nat): nat {
    if d == [] then 0 else Horner(Number(d[..|d| - 1], base, rem), base, Unmark(d[|d| - 1], rem))
  }

  lemma MarkUnmark(digit: nat, rem: nat)
    ensures Mark(digit, rem) > 0 && Mark(digit, rem) != rem && Unmark(Mark(digit, rem), rem) == digit
  {
  }

  lemma NumberAppend(d: seq<nat>, v: nat, base: nat, rem: nat)
    ensures Number(d + [v], base, rem) == Horner(Number(d, base, rem), base, Unmark(v, rem))
  {
    assert (d + [v])[..|d|] == d;
  }

  predicate AreDigits(d: seq<nat>, rem: nat) {
    forall i | 0 <= i < |d| :: d[i] > 0 && d[i] != rem
  }

  lemma DigitsStep(c: nat, base: nat, rem: nat)
    requires base >= 2
    ensures Digits(c, base, rem) == (if c < base then [] else Digits(Quot(c, base), base, rem))
            + [Mark(Rest(c, base), rem)]
  {
  }

  lemma NumberOfNothing(base: nat, rem: nat)
    ensures Number([], base, rem) == 0
  {
  }

  /** Every digit is positive, differs from the remainder, and the digits spell c. */
  lemma {:induction false} DigitsSpell(c: nat, base: nat, rem: nat)
    requires base >= 2
    ensures Number(Digits(c, base, rem), base, rem) == c && AreDigits(Digits(c, base, rem), rem)
  {
    hide Horner, Quot, Rest, Mark, Unmark, Number, Digits;
    QuotRest(c, base);
    DigitsStep(c, base, rem);
    MarkUnmark(Rest(c, base), rem);
    var high := if c < base then [] else Digits(Quot(c, base), base, rem);
    if c < base {
      HornerZero(base, c);
      NumberOfNothing(base, rem);
    } else {
      DigitsSpell(Quot(c, base), base, rem);
    }
    NumberAppend(high, Mark(Rest(c, base), rem), base, rem);
  }

  lemma HornerZero(base: nat, digit: nat)
    ensures Horner(0, base, digit) == digit
  {
  }

  lemma {:induction false} NumberOfLead(d: seq<nat>, base: nat, rem: nat)
    requires rem > 0
    ensures Number([0] + d, base, rem) == Number(d, base, rem)
  {
    if d == [] {
      assert [0] + d == [0] && [0][..0] == [];
      NumberAppend([], 0, base, rem);
      HornerZero(base, 0);
      assert [] + [0] == [0];
    } else {
      var n := |d| - 1;
      NumberOfLead(d[..n], base, rem);
      assert [0] + d == ([0] + d[..n]) + [d[n]];
      NumberAppend([0] + d[..n], d[n], base, rem);
    }
  }

  /** What the decoder relies on about the slots between the remainders. */
  lemma MiddleSpells(rem: nat, count: nat, r: nat)
    requires r >= 2 && count >= 4
    ensures var d := Middle(rem, count, r);
            && Number(d, Base(rem, r), rem) == count - (if rem == 0 then 4 else 3)
            && (forall i | 0 <= i < |d| :: d[i] != rem)
            && (rem > 0 ==> d[0] < rem && (d[0] == 0 ==> |d| > 1))
            && (forall i | 0 <= i < |d| :: d[i] == 0 ==> i == 0 && rem > 0)
  {
    hide Number, Base, Horner, Quot, Rest;
    BaseAtLeastTwo(rem, r);
    var c := count - if rem == 0 then 4 else 3;
    var d := Digits(c, Base(rem, r), rem);
    DigitsSpell(c, Base(rem, r), rem);
    assert [] + d == d;
    if rem > 0 {
      NumberOfLead(d, Base(rem, r), rem);
    }
  }

  /** Behind a remainder other than zero a zero is written exactly when the first digit is not below the
      remainder; behind the remainder zero none is. */
  lemma ZeroLeads(rem: nat, count: nat, r: nat)
    requires r >= 2 && count >= 4 && Base(rem, r) >= 2
    ensures var d := Digits(count - (if rem == 0 then 4 else 3), Base(rem, r), rem);
            Slots(Entry(rem, count), r)[1] == 0 <==> rem > 0 && d[0] >= rem
  {
    hide Digits, Base;
    var c: nat := count - if rem == 0 then 4 else 3;
    DigitsSpell(c, Base(rem, r), rem);
    assert Digits(c, Base(rem, r), rem)[0] > 0;
  }

  /** No slot value is wasted: every value but zero and the remainder stands for a digit. */
  lemma EveryValueIsDigit(v: nat, rem: nat, r: nat)
    requires r >= 2 && rem < Pow2(r) && 0 < v < Pow2(r) && v != rem
    ensures Unmark(v, rem) < Base(rem, r) && Mark(Unmark(v, rem), rem) == v
  {
  }

  function Power(base: nat, n: nat): nat {
    if n == 0 then 1 else Horner(Power(base, n - 1), base, 0)
  }

  lemma HornerBounds(a: nat, base: nat, digit: nat, low: nat, high: nat)
    requires low <= a < high && digit < base
    ensures Horner(low, base, 0) <= Horner(a, base, digit) < Horner(high, base, 0)
  {
    MulMonotone(low, a, base);
    MulStep(a, high, base);
  }

  /** And no digit: c takes as many of them as base^n needs to exceed it. */
  lemma {:induction false} DigitsLength(c: nat, base: nat, rem: nat)
    requires base >= 2
    ensures var n := |Digits(c, base, rem)|; c < Power(base, n) && (n > 1 ==> Power(base, n - 1) <= c)
  {
    hide Horner, Quot, Rest, Mark, Digits;
    QuotRest(c, base);
    DigitsStep(c, base, rem);
    RestBound(c, base);
    if c < base {
      OnePower(base);
    } else {
      DigitsLength(Quot(c, base), base, rem);
      var n := |Digits(Quot(c, base), base, rem)|;
      HornerBounds(Quot(c, base), base, Rest(c, base), if n > 1 then Power(base, n - 1) else 1, Power(base, n));
      OnePower(base);
    }
  }

  lemma RestBound(c: nat, base: nat)
    requires base > 0
    ensures Rest(c, base) < base
  {
  }

  lemma OnePower(base: nat)
    ensures Power(base, 0) == 1 && Power(base, 1) == base
  {
  }

  // ---- writing ------------------------------------------------------------------------------

  /** The buffer b is a with the slots t written so that they end just below `start`. */
  ghost predicate Wrote(a: seq<nat>, start: nat, b: seq<nat>, p: nat, t: seq<nat>) {
    p + |t| == start <= |a| && b == a[..p] + t + a[start..]
  }

  lemma WroteNothing(a: seq<nat>, start: nat)
    requires start <= |a|
    ensures Wrote(a, start, a, start, [])
  {
  }

  lemma WroteMore(a: seq<nat>, start: nat, b: seq<nat>, p: nat, t: seq<nat>, c: seq<nat>, q: nat, u: seq<nat>)
    requires Wrote(a, start, b, p, t) && Wrote(b, p, c, q, u)
    ensures Wrote(a, start, c, q, u + t)
  {
  }

  lemma WroteLength(a: seq<nat>, start: nat, b: seq<nat>, p: nat, t: seq<nat>)
    requires Wrote(a, start, b, p, t)
    ensures |b| == |a| && p + |t| == start <= |a|
  {
  }

  /** *--p = v */
  method Push(buf: array<nat>, p: nat, v: nat, ghost a: seq<nat>, ghost start: nat, ghost t: seq<nat>) returns (p': nat)
    requires 0 < p <= buf.Length && Wrote(a, start, buf[..], p, t)
    modifies buf
    ensures p' == p - 1 && Wrote(a, start, buf[..], p', [v] + t)
  {
    ghost var was := buf[..];
    p' := p - 1;
    buf[p'] := v;
    assert Wrote(was, p, buf[..], p', [v]);
    WroteMore(a, start, was, p, t, buf[..], p', [v]);
  }

  /** encode_counter (src/gqf_backup.c:1101-1156): the slots are written backwards, ending just below
      `slots`; the result is where they start. */
  method EncodeCounter(buf: array<nat>, slots: nat, remainder: nat, counter: nat, r: nat) returns (p: nat)
    requires r >= 2 && |Slots(Entry(remainder, counter), r)| <= slots <= buf.Length
    modifies buf
    ensures Wrote(old(buf[..]), slots, buf[..], p, Slots(Entry(remainder, counter), r))
  {
    hide Wrote, Middle, Pow2;
    ghost var a := buf[..];
    var base := Pow2(r) - 1;
    p := slots;
    WroteNothing(a, slots);
    if counter == 0 {
      return;
    }
    assert [remainder] + [] == [remainder] && [remainder] + [remainder] == [remainder, remainder];
    p := Push(buf, p, remainder, a, slots, []);
    if counter == 1 {
      return;
    }
    if counter == 2 {
      p := Push(buf, p, remainder, a, slots, [remainder]);
      return;
    }
    if counter == 3 {
      assert [0] + [remainder] == [0, remainder] && [remainder] + [0, remainder] == [remainder, 0, remainder];
      p := Push(buf, p, 0, a, slots, [remainder]);
      p := Push(buf, p, remainder, a, slots, [0, remainder]);
      return;
    }
    WroteLength(a, slots, buf[..], p, [remainder]);
    p := EncodeLarge(buf, p, remainder, counter, base, a, slots, r);
  }

  /** encode_counter from a count of four on, behind the last remainder. */
  method EncodeLarge(buf: array<nat>, start: nat, remainder: nat, counter: nat, initialBase: nat,
                     ghost a: seq<nat>, ghost slots: nat, r: nat) returns (p: nat)
    requires r >= 2 && counter >= 4 && initialBase == Pow2(r) - 1
    requires Wrote(a, slots, buf[..], start, [remainder]) && |Slots(Entry(remainder, counter), r)| <= slots == start + 1
    modifies buf
    ensures Wrote(a, slots, buf[..], p, Slots(Entry(remainder, counter), r))
  {
    hide Digits, Pow2, Wrote;
    BaseAtLeastTwo(remainder, r);
    WroteLength(a, slots, buf[..], start, [remainder]);
    ghost var c: nat := if remainder > 0 then counter - 3 else counter - 4;
    ghost var d, close := Digits(c, Base(remainder, r), remainder), if remainder == 0 then [0, 0] else [remainder];
    assert |Slots(Entry(remainder, counter), r)| == 1 + |Lead(d, remainder)| + |d| + |close|;
    assert [remainder] + [remainder] == [remainder, remainder];
    var base := initialBase;
    p := start;
    if remainder == 0 {
      p := Push(buf, p, remainder, a, slots, [remainder]);
    } else {
      base := base - 1;
    }
    var digit;
    p, digit := WriteDigits(buf, p, if remainder > 0 then counter - 3 else counter - 4, base, remainder, a, slots,
        close);
    WroteLength(a, slots, buf[..], p, d + close);
    if remainder > 0 && digit >= remainder {
      p := Push(buf, p, 0, a, slots, d + close);
    }
    assert [] + (d + close) == d + close;
    assert Lead(d, remainder) + (d + close) == Middle(remainder, counter, r) + close;
    p := Push(buf, p, remainder, a, slots, Middle(remainder, counter, r) + close);
    assert [remainder] + (Middle(remainder, counter, r) + close) == Slots(Entry(remainder, counter), r);
  }

  /** The digits of c in front of those already written. */
  function DigitsOnto(c: nat, base: nat, rem: nat, done: seq<nat>): seq<nat>
    requires base >= 2
  {
    QuotRest(c, base);
    var done' := [Mark(Rest(c, base), rem)] + done;
    if c < base then done' else DigitsOnto(Quot(c, base), base, rem, done')
  }

  lemma {:induction false} DigitsOntoConcat(c: nat, base: nat, rem: nat, done: seq<nat>)
    requires base >= 2
    ensures DigitsOnto(c, base, rem, done) == Digits(c, base, rem) + done
  {
    QuotRest(c, base);
    var m := Mark(Rest(c, base), rem);
    if c < base {
      assert Digits(c, base, rem) == [m];
    } else {
      DigitsOntoConcat(Quot(c, base), base, rem, [m] + done);
      assert Digits(Quot(c, base), base, rem) + ([m] + done) == (Digits(Quot(c, base), base, rem) + [m]) + done;
    }
  }

  /** The do-loop of encode_counter. */
  method WriteDigits(buf: array<nat>, start: nat, c: nat, base: nat, remainder: nat,
                     ghost a: seq<nat>, ghost slots: nat, ghost close: seq<nat>) returns (p: nat, digit: nat)
    requires base >= 2 && |Digits(c, base, remainder)| <= start && Wrote(a, slots, buf[..], start, close)
    modifies buf
    ensures digit == Digits(c, base, remainder)[0]
    ensures Wrote(a, slots, buf[..], p, Digits(c, base, remainder) + close)
  {
    hide Digits, DigitsOnto, Quot, Rest, Mark, Wrote;
    ghost var done: seq<nat> := [];
    ghost var all := Digits(c, base, remainder);
    var counter: nat := c;
    p, digit := start, 0;
    var again := true;
    OntoStarts(c, base, remainder);
    WroteLength(a, slots, buf[..], p, close);
    assert [] + close == close;
    while again
      invariant again ==> DigitsOnto(counter, base, remainder, done) == all
      invariant !again ==> done == all && digit == done[0]
      invariant |done| <= |all| && p == start - |done|
      invariant Wrote(a, slots, buf[..], p, done + close) && p <= buf.Length
      decreases again, counter
    {
      OntoNext(counter, base, remainder, done);
      digit := Rest(counter, base) + 1;
      if remainder > 0 && digit >= remainder {
        digit := digit + 1;
      }
      p := Push(buf, p, digit, a, slots, done + close);
      Prepend(digit, done, close);
      done := [digit] + done;
      counter := Quot(counter, base);
      again := counter > 0;
    }
  }

  lemma Prepend(x: nat, a: seq<nat>, b: seq<nat>)
    ensures [x] + (a + b) == ([x] + a) + b
  {
  }

  lemma OntoStarts(c: nat, base: nat, rem: nat)
    requires base >= 2
    ensures DigitsOnto(c, base, rem, []) == Digits(c, base, rem)
  {
    DigitsOntoConcat(c, base, rem, []);
  }

  lemma OntoNext(c: nat, base: nat, rem: nat, done: seq<nat>)
    requires base >= 2
    ensures var digit := Rest(c, base) + 1;
            var done' := [if rem > 0 && digit >= rem then digit + 1 else digit] + done;
            DigitsOnto(c, base, rem, done) == if Quot(c, base) == 0 then done' else DigitsOnto(Quot(c, base), base,
                rem, done')
    ensures Quot(c, base) == 0 || Quot(c, base) < c
    ensures |done| < |DigitsOnto(c, base, rem, done)|
  {
    QuotRest(c, base);
    DigitsOntoConcat(c, base, rem, done);
  }

  // ---- reading ------------------------------------------------------------------------------

  /** Remainders in a run strictly increase, and each occurs at least once. */
  ghost predicate Countable(es: seq<Entry>) {
    (forall i, j | 0 <= i < j < |es| :: es[i].rem < es[j].rem) && (forall i | 0 <= i < |es| :: es[i].count >= 1)
  }

  /** Every encoded value fits a slot. */
  lemma {:induction false} DigitsFit(c: nat, base: nat, rem: nat)
    requires base >= 2
    ensures forall i | 0 <= i < |Digits(c, base, rem)| :: Digits(c, base, rem)[i] <= base + if rem > 0 then 1 else 0
  {
    QuotRest(c, base);
    if c >= base {
      DigitsFit(Quot(c, base), base, rem);
    }
  }

  lemma SlotsFit(e: Entry, r: nat)
    requires r >= 2 && e.rem < Pow2(r)
    ensures forall i | 0 <= i < |Slots(e, r)| :: Slots(e, r)[i] < Pow2(r)
  {
    if e.count >= 4 {
      BaseAtLeastTwo(e.rem, r);
      DigitsFit(e.count - if e.rem == 0 then 4 else 3, Base(e.rem, r), e.rem);
    }
  }

  /** The slots of a count, case by case, as the decoder tells the cases apart. */
  lemma SlotsShape(e: Entry, r: nat)
    requires r >= 2 && e.count >= 1
    ensures var s := Slots(e, r);
            && s != [] && s[0] == e.rem
            && (e.count <= 3 ==> |s| == e.count)
            && (e.count == 2 ==> s[1] == e.rem)
            && (e.count == 3 ==> s[1] == 0 && s[2] == e.rem)
            && (e.count >= 4 ==>
                  var m := Middle(e.rem, e.count, r);
                  && |s| == 1 + |m| + (if e.rem == 0 then 2 else 1) && s[1..1 + |m|] == m
                  && s[1 + |m|] == e.rem && (e.rem == 0 ==> s[2 + |m|] == 0))
  {
  }

  /** Behind a positive remainder no two zeros follow each other, and none comes last. */
  ghost predicate NoDoubleZero(s: seq<nat>) {
    forall i | 0 <= i < |s| && s[i] == 0 :: i + 1 < |s| && s[i + 1] != 0
  }

  lemma SlotsHaveNoDoubleZero(e: Entry, r: nat)
    requires r >= 2 && e.rem > 0
    ensures NoDoubleZero(Slots(e, r))
  {
    if e.count >= 4 {
      MiddleSpells(e.rem, e.count, r);
      SlotsShape(e, r);
      var s, m := Slots(e, r), Middle(e.rem, e.count, r);
      forall i | 0 <= i < |s| && s[i] == 0
        ensures i + 1 < |s| && s[i + 1] != 0
      {
        assert 1 <= i < 1 + |m|;
        assert s[i] == m[i - 1];
        if i < |m| {
          assert s[i + 1] == m[i];
        }
      }
    }
  }

  lemma {:induction false} RunHasNoDoubleZero(es: seq<Entry>, r: nat)
    requires r >= 2 && Countable(es) && (es != [] ==> es[0].rem > 0)
    ensures NoDoubleZero(RunSlots(es, r))
  {
    if es == [] {
    } else {
      SlotsHaveNoDoubleZero(es[0], r);
      RunHasNoDoubleZero(es[1..], r);
    }
  }

  lemma RunStart(es: seq<Entry>, r: nat)
    requires r >= 2 && Countable(es) && es != []
    ensures var s, n := RunSlots(es, r), |Slots(es[0], r)|;
            && 0 < n <= |s| && s[..n] == Slots(es[0], r) && s[n..] == RunSlots(es[1..], r)
            && (|es| == 1 <==> n == |s|)
            && (|es| > 1 ==> s[n] == es[1].rem > es[0].rem)
  {
    SlotsShape(es[0], r);
    if |es| > 1 {
      SlotsShape(es[1], r);
    }
  }

  /** The entries are stored in the slots from index to last, and only the last slot is a run end. */
  ghost predicate StoredRun(slots: seq<nat>, ends: seq<bool>, index: nat, last: nat, es: seq<Entry>, r: nat) {
    && r >= 2 && Countable(es) && es != []
    && index <= last < |slots| == |ends| && slots[index..last + 1] == RunSlots(es, r)
    && ends[last] && forall i | index <= i < last :: !ends[i]
  }

  /** The loop of decode_counter: digits up to the next remainder or run end. */
  method DecodeDigits(slots: array<nat>, ends: array<bool>, start: nat, rem: nat, base: nat, ghost last: nat)
    returns (end: nat, cnt: nat)
    requires start <= last < slots.Length == ends.Length && ends[last] && forall i | start <= i < last :: !ends[i]
    ensures start <= end <= last && (slots[end] == rem || end == last)
    ensures forall i | start <= i < end :: slots[i] != rem
    ensures cnt == Number(slots[start..end], base, rem)
  {
    hide Horner, Number, Unmark;
    end, cnt := start, 0;
    NumberOfNothing(base, rem);
    assert slots[start..start] == [];
    var digit := slots[end];
    while digit != rem && !ends[end]
      invariant start <= end <= last && digit == slots[end]
      invariant forall i | start <= i < end :: slots[i] != rem
      invariant cnt == Number(slots[start..end], base, rem)
      decreases last - end
    {
      NumberAppend(slots[start..end], digit, base, rem);
      assert slots[start..end] + [digit] == slots[start..end + 1];
      UnmarkSteps(digit, rem);
      if digit > rem {
        digit := digit - 1;
      }
      if digit > 0 && rem > 0 {
        digit := digit - 1;
      }
      cnt := Horner(cnt, base, digit);
      end := end + 1;
      digit := slots[end];
    }
  }

  lemma UnmarkSteps(d: nat, rem: nat)
    ensures Unmark(d, rem) == var a: nat := if d > rem then d - 1 else d; if a > 0 && rem > 0 then a - 1 else a
  {
  }

  /** The slots of a stored run that encode its first entry, and what follows them. */
  lemma ReadStored(slots: seq<nat>, ends: seq<bool>, index: nat, last: nat, es: seq<Entry>, r: nat) returns (n: nat,
                   k: nat)
    requires StoredRun(slots, ends, index, last, es, r)
    ensures n == |Slots(es[0], r)| > 0 && index + n <= last + 1 < |slots| + 1 && slots[index] == es[0].rem
    ensures (index + n == last + 1 <==> |es| == 1) && (|es| > 1 ==> slots[index + n] > es[0].rem)
    ensures es[0].count >= 1
    ensures es[0].count <= 3 ==> n == es[0].count
    ensures es[0].count == 2 ==> slots[index + 1] == es[0].rem
    ensures es[0].count == 3 ==> slots[index + 1] == 0 && slots[index + 2] == es[0].rem
    ensures es[0].count >= 4 ==> IsLarge(slots, index, es[0], n, k, r)
    ensures es[0].rem == 0 ==> forall i | index + n <= i <= last && slots[i] == 0 :: i < last && slots[i + 1] != 0
  {
    hide Slots, RunSlots, Middle, Number, Base, NoDoubleZero, IsLarge;
    var e, s := es[0], RunSlots(es, r);
    n := |Slots(e, r)|;
    SlotsShape(e, r);
    RunStart(es, r);
    SliceAt(slots, index, s);
    SliceAt(s, 0, Slots(e, r));
    assert es[0].count >= 1;
    k := 0;
    if e.count >= 4 {
      k := |Middle(e.rem, e.count, r)|;
      LargeStored(slots, index, e, k, r);
    }
    if e.rem == 0 {
      RunHasNoDoubleZero(es[1..], r);
      NoDoubleZeroAt(slots, index, n, s);
    }
  }

  lemma SliceAt(a: seq<nat>, index: nat, s: seq<nat>)
    requires index + |s| <= |a| && a[index..index + |s|] == s
    ensures forall i {:trigger s[i]} | 0 <= i < |s| :: a[index + i] == s[i]
  {
  }

  lemma NoDoubleZeroAt(a: seq<nat>, index: nat, n: nat, s: seq<nat>)
    requires index + |s| <= |a| && a[index..index + |s|] == s && n <= |s| && NoDoubleZero(s[n..])
    ensures forall i | index + n <= i < index + |s| && a[i] == 0 :: i + 1 < index + |s| && a[i + 1] != 0
  {
    forall i | index + n <= i < index + |s| && a[i] == 0
      ensures i + 1 < index + |s| && a[i + 1] != 0
    {
      assert a[i] == s[i - index] == s[n..][i - index - n];
      if i + 1 < index + |s| {
        assert a[i + 1] == s[i + 1 - index] == s[n..][i + 1 - index - n];
      }
    }
  }

  /** k digit slots between remainders. */
  ghost predicate IsLarge(slots: seq<nat>, index: nat, e: Entry, n: nat, k: nat, r: nat) {
    && k > 0 && n == k + (if e.rem == 0 then 3 else 2) && index + n <= |slots|
    && slots[index + 1 + k] == e.rem && (e.rem == 0 ==> slots[index + 2 + k] == 0)
    && (forall i | index + 1 <= i < index + 1 + k :: slots[i] != e.rem)
    && (e.rem > 0 ==> slots[index + 1] < e.rem && (slots[index + 1] == 0 ==> k > 1))
    && (r >= 2 ==> Number(slots[index + 1..index + 1 + k], Base(e.rem, r), e.rem) + (if e.rem == 0 then 4 else 3) == e.count)
  }

  lemma LargeStored(slots: seq<nat>, index: nat, e: Entry, k: nat, r: nat)
    requires r >= 2 && e.count >= 4 && k == |Middle(e.rem, e.count, r)|
    requires index + |Slots(e, r)| <= |slots| && forall i | 0 <= i < |Slots(e, r)| :: slots[index + i] == Slots(e, r)[i]
    ensures IsLarge(slots, index, e, |Slots(e, r)|, k, r)
  {
    hide Number, Base;
    var m, s := Middle(e.rem, e.count, r), Slots(e, r);
    SlotsShape(e, r);
    MiddleSpells(e.rem, e.count, r);
    forall i | index + 1 <= i < index + 1 + k
      ensures slots[i] == m[i - index - 1]
    {
      assert slots[index + (i - index)] == s[i - index];
      assert s[i - index] == s[1..1 + k][i - index - 1];
    }
    assert slots[index + 1..index + 1 + k] == m;
    assert slots[index + (1 + k)] == s[1 + k];
    if e.rem == 0 {
      assert slots[index + (2 + k)] == s[2 + k];
    }
  }

  /** decode_counter (src/gqf_backup.c:1164-1234): the remainder and count that start at the index, and
      the slot where their encoding ends. */
  method DecodeCounter(slots: array<nat>, ends: array<bool>, index: nat, r: nat, ghost last: nat, ghost es: seq<Entry>)
    returns (rem: nat, count: nat, end: nat)
    requires StoredRun(slots[..], ends[..], index, last, es, r)
    ensures rem == es[0].rem && count == es[0].count && index <= end <= last
    ensures end + 1 == index + |Slots(es[0], r)| && (end == last <==> |es| == 1)
  {
    hide Slots, RunSlots, Number;
    BaseAtLeastTwo(0, r);
    ghost var n, k := ReadStored(slots[..], ends[..], index, last, es, r);
    rem := slots[index];
    if ends[index] {
      return rem, 1, index;
    }
    var digit := slots[index + 1];
    if ends[index + 1] {
      return rem, if digit == rem then 2 else 1, index + if digit == rem then 1 else 0;
    }
    if rem > 0 && digit >= rem {
      return rem, if digit == rem then 2 else 1, index + if digit == rem then 1 else 0;
    }
    if rem > 0 && digit == 0 && slots[index + 2] == rem {
      return rem, 3, index + 2;
    }
    if rem == 0 && digit == 0 {
      if slots[index + 2] == 0 {
        return rem, 3, index + 2;
      } else {
        return rem, 2, index + 1;
      }
    }
    var cnt;
    end, cnt := DecodeDigits(slots, ends, index + 1, rem, Pow2(r) - (if rem > 0 then 2 else 1), last);
    if rem > 0 {
      return rem, cnt + 3, end;
    }
    if ends[end] || slots[end + 1] != 0 {
      return rem, 1, index;
    }
    return rem, cnt + 4, end + 1;
  }

  /** The rest of a stored run starts behind its first entry. */
  lemma RestStored(slots: seq<nat>, ends: seq<bool>, index: nat, last: nat, es: seq<Entry>, r: nat)
    requires StoredRun(slots, ends, index, last, es, r) && |es| > 1
    ensures StoredRun(slots, ends, index + |Slots(es[0], r)|, last, es[1..], r)
  {
    RunStart(es, r);
    var n := |Slots(es[0], r)|;
    assert slots[index + n..last + 1] == slots[index..last + 1][n..];
  }

  /** Decoding a run entry by entry, as the iterators do, gives back exactly what was encoded. */
  method ReadRun(slots: array<nat>, ends: array<bool>, start: nat, r: nat, ghost last: nat, ghost es: seq<Entry>)
    returns (entries: seq<Entry>)
    requires StoredRun(slots[..], ends[..], start, last, es, r)
    ensures entries == es
  {
    hide StoredRun, Slots;
    StoredEnds(slots[..], ends[..], start, last, es, r);
    assert es[0..] == es;
    var index, more := start, true;
    entries := [];
    while more
      invariant |entries| <= |es| && entries == es[..|entries|]
      invariant if more then |entries| < |es| && StoredRun(slots[..], ends[..], index, last, es[|entries|..], r)
                else |entries| == |es|
      decreases more, |es| - |entries|
    {
      ghost var rest := es[|entries|..];
      StoredEnds(slots[..], ends[..], index, last, rest, r);
      var rem, count, end := DecodeCounter(slots, ends, index, r, last, rest);
      if |rest| > 1 {
        RestStored(slots[..], ends[..], index, last, rest, r);
        assert rest[1..] == es[|entries| + 1..];
      }
      more := !ends[end];
      entries, index := entries + [Entry(rem, count)], end + 1;
    }
  }

  /** Writing a run: its entries by encode_counter from the last to the first, with the run-end mark on the
      last slot only. */
  method WriteRun(slots: array<nat>, ends: array<bool>, es: seq<Entry>, last: nat, r: nat) returns (start: nat)
    requires r >= 2 && Countable(es) && es != []
    requires |RunSlots(es, r)| <= last + 1 <= slots.Length == ends.Length
    modifies slots, ends
    ensures StoredRun(slots[..], ends[..], start, last, es, r)
  {
    hide Slots, Wrote, Countable;
    ghost var a := slots[..];
    var i: nat := |es|;
    start := last + 1;
    WroteNothing(a, last + 1);
    assert es[|es|..] == [];
    while i > 0
      invariant i <= |es| && start <= last + 1 && Wrote(a, last + 1, slots[..], start, RunSlots(es[i..], r))
    {
      i := i - 1;
      RunSlotsFrom(es, i, r);
      WroteLength(a, last + 1, slots[..], start, RunSlots(es[i + 1..], r));
      ghost var b, p := slots[..], start;
      start := EncodeCounter(slots, start, es[i].rem, es[i].count, r);
      assert Entry(es[i].rem, es[i].count) == es[i];
      WroteMore(a, last + 1, b, p, RunSlots(es[i + 1..], r), slots[..], start, Slots(es[i], r));
      WroteLength(a, last + 1, slots[..], start, RunSlots(es[i..], r));
    }
    assert es[0..] == es;
    WroteRun(a, last + 1, slots[..], start, es, r);
    ghost var written := slots[..];
    for k := start to last
      invariant slots[..] == written
      invariant forall j | start <= j < k :: !ends[j]
    {
      ends[k] := false;
    }
    ends[last] := true;
  }

  lemma {:induction false} RunSlotsFrom(es: seq<Entry>, i: nat, r: nat)
    requires i < |es| && r >= 2
    ensures RunSlots(es[i..], r) == Slots(es[i], r) + RunSlots(es[i + 1..], r)
    ensures |RunSlots(es[i..], r)| <= |RunSlots(es, r)|
  {
    assert es[i..][1..] == es[i + 1..];
    if i == 0 {
      assert es[0..] == es;
    } else {
      RunSlotsFrom(es, i - 1, r);
    }
  }

  lemma WroteRun(a: seq<nat>, start: nat, b: seq<nat>, p: nat, es: seq<Entry>, r: nat)
    requires r >= 2 && Wrote(a, start, b, p, RunSlots(es, r)) && es != [] && Countable(es)
    ensures p < start <= |b| && b[p..start] == RunSlots(es, r)
  {
    RunStart(es, r);
  }

  /** What is written is read back: the round trip for every run that fits. */
  method WriteAndRead(es: seq<Entry>, slots: array<nat>, ends: array<bool>, last: nat,
                      r: nat) returns (entries: seq<Entry>)
    requires r >= 2 && Countable(es) && es != []
    requires |RunSlots(es, r)| <= last + 1 <= slots.Length == ends.Length
    modifies slots, ends
    ensures entries == es
  {
    var start := WriteRun(slots, ends, es, last, r);
    entries := ReadRun(slots, ends, start, r, last, es);
  }

  lemma StoredEnds(slots: seq<nat>, ends: seq<bool>, index: nat, last: nat, es: seq<Entry>, r: nat)
    requires StoredRun(slots, ends, index, last, es, r)
    ensures es != [] && index <= last < |ends| == |slots| && ends[last] && forall i | index <= i < last :: !ends[i]
  {
  }

  /** The scan of qf_count_key_value (src/gqf_backup.c:2387-2397): the count of the remainder, or 0. */
  method CountKey(slots: array<nat>, ends: array<bool>, start: nat, remainder: nat, r: nat, ghost last: nat,
                  ghost es: seq<Entry>)
    returns (count: nat)
    requires StoredRun(slots[..], ends[..], start, last, es, r)
    ensures count > 0 ==> Entry(remainder, count) in es
    ensures count == 0 ==> forall e | e in es :: e.rem != remainder
  {
    hide StoredRun, Slots;
    StoredEnds(slots[..], ends[..], start, last, es, r);
    assert es[0..] == es;
    var index, more := start, true;
    ghost var k := 0;
    while more
      invariant k <= |es| && forall j | 0 <= j < k :: es[j].rem != remainder
      invariant if more then k < |es| && StoredRun(slots[..], ends[..], index, last, es[k..], r) else k == |es|
      decreases more, |es| - k
    {
      ghost var rest := es[k..];
      StoredEnds(slots[..], ends[..], index, last, rest, r);
      CountsPositive(slots[..], ends[..], index, last, rest, r);
      var rem, cnt, end := DecodeCounter(slots, ends, index, r, last, rest);
      if rem == remainder {
        assert es[k] == Entry(remainder, cnt);
        return cnt;
      }
      if |rest| > 1 {
        RestStored(slots[..], ends[..], index, last, rest, r);
        assert rest[1..] == es[k + 1..];
      }
      more := !ends[end];
      index, k := end + 1, k + 1;
    }
    return 0;
  }

  lemma CountsPositive(slots: seq<nat>, ends: seq<bool>, index: nat, last: nat, es: seq<Entry>, r: nat)
    requires StoredRun(slots, ends, index, last, es, r)
    ensures es[0].count > 0
  {
  }
}
