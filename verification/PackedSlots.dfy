/** The packed remainder slots of the quotient filter: get_slot, set_slot and shift_remainders of
    src/gqf.c (run-time slot width), which read and write 64-bit words of a bit-packed array. */
module PackedSlots {
  import opened Words
  import opened Numbers

  /** The 64-bit word at bit position pos of little-endian memory. */
  function WordAt(m: seq<bool>, pos: nat): (w: Word)
    requires pos + 64 <= |m|
    ensures forall i {:trigger w[i]} | 0 <= i < 64 :: w[i] == m[pos + i]
  {
    m[pos..pos + 64]
  }

  /** The bits of slot i. */
  function SlotBits(m: seq<bool>, bps: nat, i: nat): (b: seq<bool>)
    requires i * bps + bps <= |m|
  {
    m[i * bps..i * bps + bps]
  }

  /** The slots of a packed array of n slots, as numbers. */
  function Values(m: seq<bool>, bps: nat, n: nat): (v: seq<nat>)
    requires n * bps <= |m|
    ensures |v| == n
  {
    seq(n, i requires 0 <= i < n => MulStep(i, n, bps); ToNat(SlotBits(m, bps, i)))
  }

  /** vals are the values of the packed slots. */
  ghost predicate Holds(m: seq<bool>, bps: nat, n: nat, vals: seq<nat>) {
    && |vals| == n && n * bps <= |m|
    && forall i {:trigger SlotBits(m, bps, i)} | 0 <= i < n ::
         i * bps + bps <= |m| && vals[i] == ToNat(SlotBits(m, bps, i))
  }

  lemma HoldsValues(m: seq<bool>, bps: nat, n: nat, vals: seq<nat>)
    requires n * bps <= |m|
    ensures Holds(m, bps, n, vals) <==> vals == Values(m, bps, n)
  {
    forall i | 0 <= i < n
      ensures i * bps + bps <= |m|
    {
      MulStep(i, n, bps);
    }
    if Holds(m, bps, n, vals) {
      assert forall i | 0 <= i < n :: vals[i] == ToNat(SlotBits(m, bps, i));
    }
  }

  method StoreWord(m: array<bool>, pos: nat, w: Word)
    requires pos + 64 <= m.Length
    modifies m
    ensures forall i | 0 <= i < m.Length && !(pos <= i < pos + 64) :: m[i] == old(m[..])[i]
    ensures forall i | pos <= i < pos + 64 :: m[i] == w[i - pos]
  {
    forall i | 0 <= i < 64 {
      m[pos + i] := w[i];
    }
  }

  /** The word that one turn of the shift loop stores: its bits come from itself and, across the
      word boundary, from the word below. */
  lemma ShiftedWordBits(m: seq<bool>, w: nat, bend: nat, amount: nat, r: Word)
    requires 0 < w && 64 * w + 64 <= |m| && bend <= 64 && 0 < amount < 64
    requires r == ShiftIntoB(WordAt(m, 64 * (w - 1)), WordAt(m, 64 * w), 0, bend, amount)
    ensures forall i {:trigger r[i]} | 0 <= i < bend :: r[i] == m[64 * w + i - amount]
    ensures forall i {:trigger r[i]} | bend <= i < 64 :: r[i] == m[64 * w + i]
  {
    var a, b := WordAt(m, 64 * (w - 1)), WordAt(m, 64 * w);
    forall i | 0 <= i < bend
      ensures r[i] == m[64 * w + i - amount]
    {
      if i >= amount {
        assert r[i] == b[i - amount];
      } else {
        assert r[i] == a[64 - amount + i];
      }
    }
    forall i | bend <= i < 64
      ensures r[i] == m[64 * w + i]
    {
      assert r[i] == b[i];
    }
  }

  lemma LastWordBits(m: seq<bool>, w: nat, bstart: nat, bend: nat, amount: nat, r: Word)
    requires 64 * w + 64 <= |m| && bstart <= bend <= 64 && 0 < amount < 64
    requires r == ShiftIntoB(Zeros(64), WordAt(m, 64 * w), bstart, bend, amount)
    ensures forall i | 0 <= i < 64 ::
              r[i] == if !(bstart <= i < bend) then m[64 * w + i] else i - amount >= bstart && m[64 * w + i - amount]
  {
    var b := WordAt(m, 64 * w);
    forall i | 0 <= i < 64
      ensures r[i] == if !(bstart <= i < bend) then m[64 * w + i] else i - amount >= bstart && m[64 * w + i - amount]
    {
      if !(bstart <= i < bend) {
        assert r[i] == b[i];
      } else if i - amount >= bstart {
        assert r[i] == b[i - amount];
      }
    }
  }

  method ShiftInnerWord(m: array<bool>, w: nat, bend: nat, amount: nat)
    requires 0 < w && 64 * w + 64 <= m.Length && bend <= 64 && 0 < amount < 64
    modifies m
    ensures forall d | 0 <= d < m.Length && !(64 * w <= d < 64 * w + bend) :: m[d] == old(m[..])[d]
    ensures forall d | 64 * w <= d < 64 * w + bend :: m[d] == old(m[..])[d - amount]
  {
    ghost var was := m[..];
    var r := ShiftIntoB(WordAt(m[..], 64 * (w - 1)), WordAt(m[..], 64 * w), 0, bend, amount);
    ShiftedWordBits(was, w, bend, amount, r);
    StoreWord(m, 64 * w, r);
    assert forall d | 64 * w <= d < 64 * w + 64 :: m[d] == r[d - 64 * w];
  }

  method ShiftLastWord(m: array<bool>, w: nat, bstart: nat, bend: nat, amount: nat)
    requires 64 * w + 64 <= m.Length && bstart <= bend <= 64 && 0 < amount < 64
    modifies m
    ensures forall d | 0 <= d < m.Length && !(64 * w + bstart <= d < 64 * w + bend) :: m[d] == old(m[..])[d]
    ensures forall d | 64 * w + bstart + amount <= d < 64 * w + bend :: m[d] == old(m[..])[d - amount]
    ensures bstart < bend ==> !m[64 * w + bstart]
  {
    ghost var was := m[..];
    var r := ShiftIntoB(Zeros(64), WordAt(m[..], 64 * w), bstart, bend, amount);
    LastWordBits(was, w, bstart, bend, amount, r);
    StoreWord(m, 64 * w, r);
    assert forall d | 64 * w <= d < 64 * w + 64 :: m[d] == r[d - 64 * w];
  }

  /** The word loop of shift_remainders and shift_runends: the bits from lo to hi - amount - 1 move
      up by `amount`; nothing outside lo..hi changes, and bit lo is cleared. */
  method ShiftUp(m: array<bool>, lo: nat, hi: nat, amount: nat)
    requires lo + amount <= hi && hi / 64 * 64 + 64 <= m.Length && 0 < amount < 64
    modifies m
    ensures forall d | 0 <= d < m.Length && !(lo <= d < hi) :: m[d] == old(m[..])[d]
    ensures forall d | lo + amount <= d < hi :: m[d] == old(m[..])[d - amount]
    ensures !m[lo]
  {
    ghost var was := m[..];
    var lastWord, bend: nat := hi / 64, hi % 64;
    var firstWord, bstart := lo / 64, lo % 64;
    ghost var done := hi;
    while lastWord != firstWord
      invariant firstWord <= lastWord <= hi / 64 && bend <= 64 && done == 64 * lastWord + bend
      invariant lo <= done <= hi && amount <= done && (done == hi || bend == 64)
      invariant lastWord == firstWord ==> bstart <= bend
      invariant forall d | 0 <= d < m.Length && !(done <= d < hi) :: m[d] == was[d]
      invariant forall d | done <= d < hi :: m[d] == was[d - amount]
    {
      ShiftInnerWord(m, lastWord, bend, amount);
      lastWord, bend := lastWord - 1, 64;
      done := 64 * lastWord + 64;
    }
    ShiftLastWord(m, lastWord, bstart, bend, amount);
  }

  /** A slot whose bits moved by d positions keeps its value. */
  lemma SlotMoved(m: seq<bool>, m': seq<bool>, bps: nat, n: nat, i: nat, i': nat, d: nat)
    requires n * bps <= |m| && n * bps <= |m'| && i < n && i' < n
    requires i * bps + bps <= |m| && i' * bps + bps <= |m'| && i' * bps == i * bps + d
    requires forall p | i * bps <= p < i * bps + bps :: m[p] == m'[p + d]
    ensures Values(m, bps, n)[i] == Values(m', bps, n)[i']
  {
    assert SlotBits(m, bps, i) == SlotBits(m', bps, i');
  }

  lemma OneSlotWritten(m: seq<bool>, m': seq<bool>, bps: nat, n: nat, index: nat, value: nat)
    requires |m| == |m'| && n * bps <= |m| && index < n && index * bps + bps <= |m| && value < Pow2(bps)
    requires forall p | 0 <= p < |m| && !(index * bps <= p < index * bps + bps) :: m'[p] == m[p]
    requires SlotBits(m', bps, index) == FromNat(value, bps)
    ensures Values(m', bps, n) == Values(m, bps, n)[index := value]
  {
    ToNatFromNat(value, bps);
    forall i | 0 <= i < n
      ensures Values(m', bps, n)[i] == Values(m, bps, n)[index := value][i]
    {
      MulStep(i, n, bps);
      if i < index {
        MulStep(i, index, bps);
        SlotMoved(m, m', bps, n, i, i, 0);
      } else if i > index {
        MulStep(index, i, bps);
        SlotMoved(m, m', bps, n, i, i, 0);
      }
    }
  }

  lemma SlotShifted(m: seq<bool>, m': seq<bool>, bps: nat, n: nat, start: nat, empty: nat, s: nat, e: nat, i: nat)
    requires |m| == |m'| && bps > 0 && n * bps <= |m| && start <= empty && empty + 1 < n && i < n && i != start
    requires s == start * bps && e == (empty + 1) * bps
    requires forall p | 0 <= p < |m| && !(s <= p < e) :: m'[p] == m[p]
    requires forall p | s + bps <= p < e && p < |m| :: m'[p] == m[p - bps]
    ensures Values(m', bps, n)[i] == Values(m, bps, n)[if start < i <= empty then i - 1 else i]
  {
    MulStep(i, n, bps);
    if i < start {
      MulStep(i, start, bps);
      SlotMoved(m, m', bps, n, i, i, 0);
    } else if i > empty {
      MulMonotone(empty + 1, i, bps);
      SlotMoved(m, m', bps, n, i, i, 0);
    } else {
      MulStep(start, i, bps);
      MulStep(i, empty + 1, bps);
      MulStep(i - 1, n, bps);
      MulMonotone(start, i - 1, bps);
      assert (i - 1) * bps + bps == i * bps;
      forall p | (i - 1) * bps <= p < (i - 1) * bps + bps
        ensures m[p] == m'[p + bps]
      {
        assert m'[p + bps] == m[p + bps - bps];
      }
      SlotMoved(m, m', bps, n, i - 1, i, bps);
    }
  }

  /** The masked store of set_slot, on one word. */
  function Patch(t: Word, bps: nat, shift: nat, value: nat): (w: Word)
    requires value < Pow2(bps) && shift + bps <= 64
    ensures forall i | 0 <= i < 64 :: w[i] == if shift <= i < shift + bps then FromNat(value, bps)[i - shift] else t[i]
  {
    FromNatHighZeros(value, bps, 64);
    assert forall i | 0 <= i < bps :: FromNat(value, 64)[i] == FromNat(value, 64)[..bps][i];
    var mask := Shl(BitMask(bps), shift);
    var v := Shl(FromNat(value, 64), shift);
    Or(And(t, Not(mask)), v)
  }

  /** Shifting and masking the window yields the slot's bits and nothing above them. */
  lemma WindowBits(m: seq<bool>, pos: nat, shift: nat, bps: nat, w: Word)
    requires pos + 64 <= |m| && shift + bps <= 64
    requires w == And(Shr(WordAt(m, pos), shift), BitMask(bps))
    ensures w[..bps] == m[pos + shift..pos + shift + bps]
    ensures ToNat(w) == ToNat(w[..bps]) < Pow2(bps)
  {
    forall i | 0 <= i < bps
      ensures w[..bps][i] == m[pos + shift..pos + shift + bps][i]
    {
      assert WordAt(m, pos)[i + shift] == m[pos + (i + shift)];
    }
    ToNatHighZeros(w, bps);
    ToNatBound(w[..bps]);
  }

  lemma PatchedBits(m: seq<bool>, m': seq<bool>, pos: nat, shift: nat, bps: nat, value: nat, w: Word)
    requires |m| == |m'| && pos + 64 <= |m| && shift + bps <= 64 && value < Pow2(bps)
    requires w == Patch(WordAt(m, pos), bps, shift, value)
    requires forall i | 0 <= i < |m| && !(pos <= i < pos + 64) :: m'[i] == m[i]
    requires forall i | pos <= i < pos + 64 :: m'[i] == w[i - pos]
    ensures forall p | 0 <= p < |m| && !(pos + shift <= p < pos + shift + bps) :: m'[p] == m[p]
    ensures m'[pos + shift..pos + shift + bps] == FromNat(value, bps)
  {
    forall p | 0 <= p < |m| && !(pos + shift <= p < pos + shift + bps)
      ensures m'[p] == m[p]
    {
      if pos <= p < pos + 64 {
        assert WordAt(m, pos)[p - pos] == m[p];
      }
    }
    forall i | 0 <= i < bps
      ensures m'[pos + shift..pos + shift + bps][i] == FromNat(value, bps)[i]
    {
      assert m'[pos + shift + i] == w[shift + i];
    }
  }

  /** The bit position of the byte-aligned word that get_slot and set_slot load, and the shift of
      the slot inside it. */
  function WindowPos(i: nat, bps: nat): nat { i / 64 * (64 * bps) + 8 * (i % 64 * bps / 8) }

  function WindowShift(i: nat, bps: nat): nat { i % 64 * bps % 8 }

  lemma WindowCoversSlot(i: nat, bps: nat, n: nat)
    requires i < n
    ensures WindowPos(i, bps) + WindowShift(i, bps) == i * bps && WindowShift(i, bps) < 8
    ensures i * bps + bps <= n * bps
  {
    MulStep(i, n, bps);
    var o := i % 64 * bps;
    assert 8 * (o / 8) + o % 8 == o;
    calc {
      i / 64 * (64 * bps) + o;
      == { assert i / 64 * (64 * bps) == 64 * (i / 64) * bps; }
      64 * (i / 64) * bps + i % 64 * bps;
      ==
      (64 * (i / 64) + i % 64) * bps;
    }
  }

  class PackedSlots {
    const bps: nat
    const n: nat
    const bits: array<bool>
    /** The slot values. */
    ghost var vals: seq<nat>

    ghost predicate Valid()
      reads this, bits
    {
      1 <= bps <= 56 && n > 0 && bits.Length == n * bps + 64 && Holds(bits[..], bps, n, vals)
    }

    constructor (n: nat, bps: nat)
      requires 1 <= bps <= 56 && n > 0
      ensures Valid() && this.n == n && this.bps == bps && fresh(bits)
    {
      this.n, this.bps := n, bps;
      bits := new bool[n * bps + 64](_ => false);
      new;
      vals := Values(bits[..], bps, n);
      HoldsValues(bits[..], bps, n, vals);
    }

    /** get_slot (src/gqf.c:540-558) */
    method Get(index: nat) returns (v: nat)
      requires Valid() && index < n
      ensures v == vals[index] && v < Pow2(bps)
    {
      var pos, shift := WindowPos(index, bps), WindowShift(index, bps);
      WindowCoversSlot(index, bps, n);
      var w := And(Shr(WordAt(bits[..], pos), shift), BitMask(bps));
      WindowBits(bits[..], pos, shift, bps, w);
      assert w[..bps] == SlotBits(bits[..], bps, index);
      v := ToNat(w);
    }

    /** set_slot (src/gqf.c:560-578): exactly one slot changes. */
    method Set(index: nat, value: nat)
      requires Valid() && index < n && value < Pow2(bps)
      modifies this, bits
      ensures Valid() && vals == old(vals)[index := value]
    {
      HoldsValues(bits[..], bps, n, vals);
      ghost var m := bits[..];
      var pos, shift := WindowPos(index, bps), WindowShift(index, bps);
      WindowCoversSlot(index, bps, n);
      var w := Patch(WordAt(bits[..], pos), bps, shift, value);
      StoreWord(bits, pos, w);
      PatchedBits(m, bits[..], pos, shift, bps, value, w);
      OneSlotWritten(m, bits[..], bps, n, index, value);
      vals := vals[index := value];
      HoldsValues(bits[..], bps, n, vals);
    }

    /** shift_remainders (src/gqf.c:758-771): the slots from start to empty - 1 move up by one;
        slot start is left for the caller to fill. */
    method ShiftRemainders(start: nat, empty: nat)
      requires Valid() && start <= empty && empty + 1 < n
      modifies this, bits
      ensures Valid() && forall i | 0 <= i < n && i != start ::
                vals[i] == old(vals)[if start < i <= empty then i - 1 else i]
    {
      HoldsValues(bits[..], bps, n, vals);
      ghost var m := bits[..];
      ghost var s, e := start * bps, (empty + 1) * bps;
      MulStep(start, empty + 1, bps);
      MulStep(empty + 1, n, bps);
      assert s + bps <= e;
      ShiftUp(bits, start * bps, (empty + 1) * bps, bps);
      vals := Values(bits[..], bps, n);
      HoldsValues(bits[..], bps, n, vals);
      forall i | 0 <= i < n && i != start
        ensures vals[i] == old(vals)[if start < i <= empty then i - 1 else i]
      {
        SlotShifted(m, bits[..], bps, n, start, empty, s, e, i);
      }
    }
  }
}
