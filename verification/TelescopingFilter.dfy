/** Blocks of the telescoping filter of src/taf.cc in normal mode: 64 remainders, the selector code
    that says which remainder of the remote hash each of them is, and the adaptation of one slot. */
module TelescopingFilter {
  import opened Numbers
  import opened Hashes
  import opened ExtensionCoding
  import opened SelectorCoding
  import opened CodingCapacity

  /** calc_rem (src/taf.cc:1483-1487) */
  function CalcRem(q: nat, r: nat, hash: nat, k: nat): nat
    requires r > 0 && q + r <= 64
  {
    Low(Shr(hash, q + Times(Choice(q, r, k), r)), r)
  }

  /** Selectors past the last remainder of the hash start over. */
  function Choice(q: nat, r: nat, k: nat): nat
    requires r > 0 && q + r <= 64
  {
    EnoughHash(q, r);
    if k >= (64 - q) / r then k % ((64 - q) / r) else k
  }

  lemma EnoughHash(q: nat, r: nat)
    requires r > 0 && q + r <= 64
    ensures (64 - q) / r > 0
  {
    assert 64 - q == r * ((64 - q) / r) + (64 - q) % r;
  }

  // ---- what a selector chooses ----------------------------------------------------------------------

  /** The number of remainders in a hash. */
  function Choices(q: nat, r: nat): (n: nat)
    requires r > 0 && q + r <= 64
    ensures n > 0
  {
    EnoughHash(q, r);
    (64 - q) / r
  }

  lemma BitOfLow(x: nat, r: nat, i: nat)
    requires i < r
    ensures Bit(Low(x, r), i) == Bit(x, i)
  {
    var a, b := Pow2(i), Pow2(r - i - 1);
    Pow2Add(i, r - i);
    Pow2Add(1, r - i - 1);
    DivDiv(x, a, 2 * b);
    var y := x / a;
    assert Low(x, r) == x % a + a * (y % (2 * b));
    DivModUnique(Low(x, r), a, y % (2 * b), x % a);
    DivDiv(y, 2, b);
    EvenRest(y % (2 * b), y % 2, y / 2 % b);
  }

  lemma EvenRest(x: nat, a: nat, c: nat)
    requires a < 2 && x == a + 2 * c
    ensures x % 2 == a
  {
  }

  /** Remainder k consists of the r bits of the hash from position q + (k mod n) * r on. */
  lemma CalcBits(q: nat, r: nat, hash: nat, k: nat, i: nat)
    requires r > 0 && q + r <= 64 && i < r
    ensures CalcRem(q, r, hash, k) < Pow2(r)
    ensures Bit(CalcRem(q, r, hash, k), i) == Bit(hash, q + Times(k % Choices(q, r), r) + i)
  {
    hide Low, Shr;
    var at := q + Times(k % Choices(q, r), r);
    ChoiceIs(q, r, k);
    BitOfLow(Shr(hash, at), r, i);
    ShrShr(hash, at, i);
  }

  lemma ChoiceIs(q: nat, r: nat, k: nat)
    requires r > 0 && q + r <= 64
    ensures Choice(q, r, k) == k % Choices(q, r)
  {
    if k < Choices(q, r) {
      DivModUnique(k, Choices(q, r), 0, k);
    }
  }

  /** The low a + b bits agree exactly when the low a bits and the b bits above them do. */
  lemma SameLow(x: nat, y: nat, a: nat, b: nat)
    ensures Low(x, a + b) == Low(y, a + b) <==> Low(x, a) == Low(y, a) && Low(Shr(x, a), b) == Low(Shr(y, a), b)
  {
    hide Low, Shr, Times;
    LowSplit(x, a, b);
    LowSplit(y, a, b);
    SplitUnique(Pow2(a), Low(Shr(x, a), b), Low(x, a), Low(Shr(y, a), b), Low(y, a));
  }

  lemma LowSplit(x: nat, a: nat, b: nat)
    ensures Low(x, a + b) == Low(x, a) + Times(Low(Shr(x, a), b), Pow2(a))
  {
    Pow2Add(a, b);
    DivDiv(x, Pow2(a), Pow2(b));
  }

  lemma SplitUnique(m: nat, u: nat, s: nat, v: nat, t: nat)
    requires s < m && t < m
    ensures s + Times(u, m) == t + Times(v, m) <==> s == t && u == v
  {
    if s + Times(u, m) == t + Times(v, m) {
      DivModUnique(s + Times(u, m), m, u, s);
      DivModUnique(s + Times(u, m), m, v, t);
    }
  }

  /** Two hashes have the same first m remainders exactly when they agree in the bits that these cover. */
  lemma {:induction false} SameRemainders(q: nat, r: nat, h: nat, g: nat, m: nat)
    requires r > 0 && q + r <= 64 && m <= Choices(q, r) && Low(h, q) == Low(g, q)
    ensures (forall k | 0 <= k < m :: CalcRem(q, r, h, k) == CalcRem(q, r, g, k)) <==>
            Low(h, q + Times(m, r)) == Low(g, q + Times(m, r))
  {
    hide Low, Shr, CalcRem, Times;
    if m == 0 {
      NoTimes(r);
    } else {
      SameRemainders(q, r, h, g, m - 1);
      CalcAt(q, r, h, m - 1);
      CalcAt(q, r, g, m - 1);
      OneMoreTimes(m - 1, r);
      SameLow(h, g, q + Times(m - 1, r), r);
    }
  }

  lemma NoTimes(r: nat)
    ensures Times(0, r) == 0
  {
  }

  lemma OneMoreTimes(m: nat, r: nat)
    ensures Times(m + 1, r) == Times(m, r) + r
  {
  }

  lemma CalcAt(q: nat, r: nat, hash: nat, k: nat)
    requires r > 0 && q + r <= 64 && k < Choices(q, r)
    ensures CalcRem(q, r, hash, k) == Low(Shr(hash, q + Times(k, r)), r)
  {
    ChoiceIs(q, r, k);
    DivModUnique(k, Choices(q, r), 0, k);
  }

  /** So some selector tells two different hashes apart that agree in the quotient and have no bits above
      the last remainder. */
  lemma SomeSelectorSeparates(q: nat, r: nat, h: nat, g: nat)
    requires r > 0 && q + r <= 64 && Low(h, q) == Low(g, q) && h != g
    requires h < Pow2(q + Times(Choices(q, r), r)) && g < Pow2(q + Times(Choices(q, r), r))
    ensures exists k | 0 <= k < Choices(q, r) :: CalcRem(q, r, h, k) != CalcRem(q, r, g, k)
  {
    hide CalcRem;
    var n := q + Times(Choices(q, r), r);
    SameRemainders(q, r, h, g, Choices(q, r));
    DivModUnique(h, Pow2(n), 0, h);
    DivModUnique(g, Pow2(n), 0, g);
  }

  /** Every remainder of the block is the one its selector chooses from the remote hash. */
  ghost predicate Fits(rems: seq<nat>, remote: seq<nat>, sels: seq<nat>, block: nat, q: nat, r: nat)
    requires r > 0 && q + r <= 64 && |sels| == 64 && 64 * block + 64 <= |rems| == |remote|
  {
    forall i {:trigger sels[i]} | 0 <= i < 64 :: rems[64 * block + i] == CalcRem(q, r, remote[64 * block + i], sels[i])
  }

  /** Every block's remainders agree with its decoded selectors. */
  ghost predicate AllFit(rems: seq<nat>, remote: seq<nat>, codes: seq<nat>, q: nat, r: nat) {
    && r > 0 && q + r <= 64 && |rems| == |remote| == 64 * |codes|
    && forall b {:trigger codes[b]} | 0 <= b < |codes| ::
         AreSelectors(Decoded(codes[b], 64)) && Fits(rems, remote, Decoded(codes[b], 64), b, q, r)
  }

  /** A block that is rewritten consistently keeps the whole filter consistent. */
  lemma BlockRewritten(rems: seq<nat>, rems': seq<nat>, remote: seq<nat>, codes: seq<nat>, q: nat, r: nat,
                       block: nat, sels: seq<nat>, code: nat)
    requires AllFit(rems, remote, codes, q, r) && block < |codes| && |rems'| == |rems|
    requires forall i | 0 <= i < |rems| && !(64 * block <= i < 64 * block + 64) :: rems'[i] == rems[i]
    requires |sels| == 64 && AreSelectors(sels) && Decoded(code, 64) == sels && Fits(rems', remote, sels, block, q, r)
    ensures AllFit(rems', remote, codes[block := code], q, r)
  {
    hide CalcRem, Decoded;
    var codes' := codes[block := code];
    forall b | 0 <= b < |codes'|
      ensures AreSelectors(Decoded(codes'[b], 64)) && Fits(rems', remote, Decoded(codes'[b], 64), b, q, r)
    {
      if b != block {
        var s := Decoded(codes[b], 64);
        assert Fits(rems, remote, s, b, q, r);
        forall i | 0 <= i < 64
          ensures rems'[64 * b + i] == CalcRem(q, r, remote[64 * b + i], s[i])
        {
          assert rems[64 * b + i] == CalcRem(q, r, remote[64 * b + i], s[i]);
        }
      }
    }
  }

  lemma NothingToCalc(q: nat, r: nat, k: nat)
    requires r > 0 && q + r <= 64
    ensures CalcRem(q, r, 0, k) == 0
  {
    DivModUnique(0, Pow2(q + Times(Choice(q, r, k), r)), 0, 0);
    DivModUnique(0, Pow2(r), 0, 0);
  }

  lemma EmptyFits(rems: seq<nat>, remote: seq<nat>, codes: seq<nat>, q: nat, r: nat)
    requires r > 0 && q + r <= 64 && |rems| == |remote| == 64 * |codes|
    requires (forall i | 0 <= i < |rems| :: rems[i] == 0 && remote[i] == 0) && forall b | 0 <= b < |codes| ::
             codes[b] == 0
    ensures AllFit(rems, remote, codes, q, r)
  {
    hide CalcRem, Decoded, Zeros, Pow2, SelCode, SelEncodable;
    ZerosEncodable();
    SelRoundTrip(Zeros(64));
    NothingToCalc(q, r, 0);
    forall b | 0 <= b < |codes|
      ensures AreSelectors(Decoded(codes[b], 64)) && Fits(rems, remote, Decoded(codes[b], 64), b, q, r)
    {
      assert Decoded(codes[b], 64) == Zeros(64);
      forall i | 0 <= i < 64
        ensures rems[64 * b + i] == CalcRem(q, r, remote[64 * b + i], Zeros(64)[i])
      {
        ZeroAt(i);
      }
    }
  }

  lemma ZeroAt(i: nat)
    requires i < 64
    ensures Zeros(64)[i] == 0
  {
  }

  lemma NothingReduced(sels: seq<nat>)
    requires AreSelectors(sels)
    ensures Reduced(sels) == sels
  {
  }

  class TAF {
    const q: nat
    const r: nat
    const remainders: array<nat>
    const codes: array<nat>
    const remote: array<nat>

    ghost predicate Shape() {
      && remainders != codes && remainders != remote && codes != remote
      && r > 0 && q + r <= 64 && remainders.Length == remote.Length == 64 * codes.Length
    }

    ghost predicate Valid()
      reads remainders, codes, remote
    {
      && Shape()
      && AllFit(remainders[..], remote[..], codes[..], q, r)
    }

    /** taf_init: zeroed blocks, zeroed remote hashes. */
    constructor (q: nat, r: nat, nblocks: nat)
      requires r > 0 && q + r <= 64
      ensures Valid() && remainders.Length == 64 * nblocks
    {
      this.q, this.r := q, r;
      remainders := new nat[64 * nblocks](_ => 0);
      codes := new nat[nblocks](_ => 0);
      remote := new nat[64 * nblocks](_ => 0);
      new;
      hide AllFit;
      EmptyFits(remainders[..], remote[..], codes[..], q, r);
    }

    /** The selectors after the one at i was advanced: if they no longer fit the code, all others of the
        block are reset, and if even that fails, all are. */
    ghost function Advanced(sels: seq<nat>, i: nat): (s: seq<nat>)
      requires |sels| == 64 && i < 64 && AreSelectors(sels)
      ensures |s| == 64 && AreSelectors(s)
    {
      var next := (sels[i] + 1) % MAX_SELECTOR;
      if SelEncodable(sels[i := next]) then sels[i := next]
      else if SelEncodable(Zeros(64)[i := next]) then Zeros(64)[i := next]
      else Zeros(64)
    }

    /** The selector at i moves on to the next of six, without exception: one selector among zeros is always
        encodable. The others stay if the code has room for all, and are reset otherwise. */
    lemma AdvancedIs(sels: seq<nat>, i: nat)
      requires |sels| == 64 && i < 64 && AreSelectors(sels)
      ensures var s, next := Advanced(sels, i), (sels[i] + 1) % 6;
              s[i] == next && forall j | 0 <= j < 64 && j != i :: s[j] == if SelEncodable(sels[i := next]) then sels[j] else 0
    {
      hide SelEncodable;
      OneSelectorEncodable(i, (sels[i] + 1) % 6);
    }

    /** adapt_loc (src/taf.cc:1822-1859) in normal mode */
    method AdaptLoc(loc: nat, sels: array<nat>)
      requires Valid() && loc < remainders.Length && sels.Length == 64
      requires sels != remainders && sels != codes && sels != remote
      requires sels[..] == Decoded(codes[loc / 64], 64)
      modifies remainders, codes, sels
      ensures Valid()
      ensures sels[..] == Decoded(codes[loc / 64], 64) == Advanced(old(sels[..]), loc % 64)
      ensures sels[loc % 64] == (old(sels[loc % 64]) + 1) % 6
      ensures remainders[loc] == CalcRem(q, r, remote[loc], (old(sels[loc % 64]) + 1) % 6)
      ensures forall b | 0 <= b < codes.Length && b != loc / 64 :: codes[b] == old(codes[b])
      ensures forall i | 0 <= i < remainders.Length && i / 64 != loc / 64 :: remainders[i] == old(remainders[i])
    {
      hide CalcRem, Decoded, SelEncodable, SelCode, Pow2, Advanced;
      var block := loc / 64;
      ghost var rems0, codes0 := remainders[..], codes[..];
      BlockSelectors(block);
      AdvancedIs(sels[..], loc % 64);
      var newSel, code := Recode(block, loc % 64, sels);
      remainders[loc] := CalcRem(q, r, remote[loc], newSel);
      codes[block] := code;
      SelRoundTrip(sels[..]);
      BlockRewritten(rems0, remainders[..], remote[..], codes0, q, r, block, sels[..], code);
      assert codes[..] == codes0[block := code];
    }

    /** The selector is advanced and the block's selectors are encoded; on overflow the block is reset
        first. All remainders but the one at hand then agree with their selectors. */
    method Recode(block: nat, at: nat, sels: array<nat>) returns (newSel: nat, code: nat)
      requires Shape() && sels.Length == 64 && at < 64 && block < codes.Length
      requires sels != remainders && sels != codes && sels != remote
      requires AreSelectors(sels[..]) && Fits(remainders[..], remote[..], sels[..], block, q, r)
      modifies remainders, sels
      ensures sels[..] == Advanced(old(sels[..]), at) && newSel == sels[at]
      ensures SelEncodable(sels[..]) && code == SelCode(sels[..])
      ensures forall i | 0 <= i < 64 && i != at :: remainders[64 * block + i] == CalcRem(q, r, remote[64 * block + i],
              sels[i])
      ensures forall i | 0 <= i < remainders.Length && !(64 * block <= i < 64 * block + 64) ::
              remainders[i] == old(remainders[i])
    {
      hide CalcRem, SelEncodable, SelCode, Pow2, Zeros;
      ghost var sels0 := sels[..];
      newSel := (sels[at] + 1) % MAX_SELECTOR;
      sels[at] := newSel;
      assert sels[..] == sels0[at := newSel];
      NothingReduced(sels[..]);
      var ret;
      ret, code := EncodeSel(sels);
      if ret == -1 {
        ResetBlock(block, sels);
        sels[at] := newSel;
        assert sels[..] == Zeros(64)[at := newSel];
        NothingReduced(sels[..]);
        ret, code := EncodeSel(sels);
        if ret == -1 {
          sels[at], newSel, code := 0, 0, 0;
          assert sels[..] == Zeros(64);
          ZerosEncodable();
        }
      }
    }

    /** The reset of a block after an overflow of its code. */
    method ResetBlock(block: nat, sels: array<nat>)
      requires r > 0 && q + r <= 64 && sels.Length == 64 && 64 * block + 64 <= remainders.Length == remote.Length
      requires sels != remainders && remainders != remote && sels != remote && sels != codes && remainders != codes
      modifies remainders, sels
      ensures sels[..] == Zeros(64) && Fits(remainders[..], remote[..], Zeros(64), block, q, r)
      ensures forall i | 0 <= i < remainders.Length && !(64 * block <= i < 64 * block + 64) ::
              remainders[i] == old(remainders[i])
    {
      hide CalcRem;
      var i := 0;
      while i < 64
        invariant i <= 64 && forall k | 0 <= k < i :: sels[k] == 0
        invariant forall k | 0 <= k < remainders.Length ::
                    remainders[k] == if 64 * block <= k < 64 * block
                        + i then CalcRem(q, r, remote[k], 0) else old(remainders[k])
      {
        sels[i] := 0;
        remainders[64 * block + i] := CalcRem(q, r, remote[64 * block + i], 0);
        i := i + 1;
      }
    }

    lemma BlockSelectors(block: nat)
      requires Valid() && block < codes.Length
      ensures r > 0 && q + r <= 64 && remainders.Length == remote.Length == 64 * codes.Length
      ensures AreSelectors(Decoded(codes[block], 64)) && Fits(remainders[..], remote[..], Decoded(codes[block], 64),
              block, q, r)
    {
      assert codes[..][block] == codes[block];
    }
  }
}
