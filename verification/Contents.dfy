/** What the filter's operations mean for the abstract contents. */
module Contents {
  import opened Numbers
  import opened Layout
  import opened Items
  import opened Hashes
  import opened Runs

  /** The value of an item's counter; an item without counter counts once. */
  function ItemCount(it: Item, r: nat): nat {
    if it.cnt == [] then 1 else Value(it.cnt, r)
  }

  lemma ItemCountPositive(it: Item, r: nat)
    requires ItemOk(it, r)
    ensures ItemCount(it, r) > 0
  {
    if it.cnt != [] {
      assert it.cnt[1..] == [] && Value(it.cnt[1..], r) == 0;
      assert Pow2(r) * Value(it.cnt[1..], r) == 0;
    }
  }

  lemma OneDigit(it: Item, r: nat)
    requires |it.cnt| == 1
    ensures ItemCount(it, r) == it.cnt[0]
  {
    assert it.cnt[1..] == [] && Value([], r) == 0;
    assert Pow2(r) * 0 == 0;
  }

  // ---- the address of an existing counter -------------------------------------------------------

  /** insert_and_extend (src/gqf.c:1870-1873) writes the new count behind as many slots as the *value*
      of the extension, not its length. */
  function CounterAddress(p: nat, it: Item, r: nat): nat {
    p + 1 + Value(it.ext, r)
  }

  /** If the value is below the length, the count replaces a chunk of the item's own fingerprint. */
  ghost function Strayed(it: Item, r: nat): Item
    requires |it.cnt| == 1 && Value(it.ext, r) < |it.ext|
  {
    it.(ext := it.ext[Value(it.ext, r) := it.cnt[0] + 1])
  }

  // ---- what items accept ------------------------------------------------------------------------

  /** The fingerprint stored in `it` accepts hash h. */
  ghost predicate Matches(it: Item, h: nat, qbits: nat, r: nat) {
    it.rem == Remainder(h, r) && Agrees(it.ext, High(h, qbits, r), r)
  }

  /** The first item from j on that accepts h, or the number of items. */
  ghost function FirstMatch(items: Run, h: nat, qbits: nat, r: nat, j: nat): (m: nat)
    requires j <= |items|
    ensures j <= m <= |items|
    ensures m < |items| ==> Matches(items[m], h, qbits, r)
    ensures forall i | j <= i < m :: !Matches(items[i], h, qbits, r)
    decreases |items| - j
  {
    if j == |items| || Matches(items[j], h, qbits, r) then j else FirstMatch(items, h, qbits, r, j + 1)
  }

  /** The number of the first j items that have remainder rem. */
  ghost function RankBefore(items: Run, rem: nat, j: nat): (k: nat)
    requires j <= |items|
    ensures k <= j
  {
    if j == 0 then 0 else RankBefore(items, rem, j - 1) + if items[j - 1].rem == rem then 1 else 0
  }

  lemma RankStep(items: Run, rem: nat, j: nat)
    requires j < |items|
    ensures RankBefore(items, rem, j + 1) == RankBefore(items, rem, j) + if items[j].rem == rem then 1 else 0
  {
  }

  /** The state of a query's scan before item m: no match so far, `rank` items with the remainder. */
  ghost predicate Scanning(items: Run, h: nat, qbits: nat, r: nat, m: nat, at: nat, rank: nat) {
    && m <= |items| && at == Offset(items, m)
    && rank == RankBefore(items, Remainder(h, r), m)
    && forall i | 0 <= i < m :: !Matches(items[i], h, qbits, r)
  }

  lemma ScanStarts(items: Run, h: nat, qbits: nat, r: nat)
    ensures Scanning(items, h, qbits, r, 0, 0, 0)
  {
  }

  lemma ScanStep(items: Run, h: nat, qbits: nat, r: nat, m: nat, at: nat, rank: nat)
    requires Scanning(items, h, qbits, r, m, at, rank)
    ensures m <= |items| && at == Offset(items, m)
    ensures m == |items| ==> FirstMatch(items, h, qbits, r, 0) == |items|
    ensures m < |items| && Matches(items[m], h, qbits, r) ==>
              FirstMatch(items, h, qbits, r, 0) == m && rank == RankBefore(items, Remainder(h, r), m)
    ensures m < |items| && !Matches(items[m], h, qbits, r) ==>
              Scanning(items, h, qbits, r, m + 1, at + items[m].Size(), rank
                  + if items[m].rem == Remainder(h, r) then 1 else 0)
  {
    if m < |items| {
      OffsetStep(items, m);
    }
  }

  /** What a query reports about a run: count, rank (in a byte) and position of the first match. */
  ghost predicate Answer(items: Run, h: nat, qbits: nat, r: nat, count: nat, rank: nat, at: nat) {
    var m := FirstMatch(items, h, qbits, r, 0);
    if m < |items| then
      count == ItemCount(items[m], r) > 0 && rank == Byte(RankBefore(items, Remainder(h, r), m))
          && at == Offset(items, m)
    else count == 0
  }

  /** The first item whose remainder is at least rem. */
  ghost function LowerBound(items: Run, rem: nat): (p: nat)
    ensures p <= |items|
    ensures forall i | 0 <= i < p :: items[i].rem < rem
    ensures p < |items| ==> items[p].rem >= rem
  {
    if items == [] || items[0].rem >= rem then 0 else 1 + LowerBound(items[1..], rem)
  }

  /** A new fingerprint goes in front of its minirun. */
  ghost function Inserted(items: Run, rem: nat): Run {
    InsertItem(items, LowerBound(items, rem), Item(rem, [], []))
  }

  lemma {:induction false} LowerBoundUnique(items: Run, rem: nat, p: nat)
    requires p <= |items| && (forall i | 0 <= i < p :: items[i].rem < rem) && (p < |items| ==> items[p].rem >= rem)
    ensures LowerBound(items, rem) == p
  {
    if p == 0 {
    } else {
      LowerBoundUnique(items[1..], rem, p - 1);
    }
  }

  lemma {:induction false} RankBelowLowerBound(items: Run, rem: nat, j: nat)
    requires j <= |items| && forall i | 0 <= i < j :: items[i].rem < rem
    ensures RankBefore(items, rem, j) == 0
  {
    if j == 0 {
    } else {
      RankBelowLowerBound(items, rem, j - 1);
    }
  }

  lemma {:induction false} RankAboveMinirun(items: Run, rem: nat, j: nat, k: nat)
    requires j <= k <= |items| && forall i | j <= i < k :: items[i].rem != rem
    ensures RankBefore(items, rem, k) == RankBefore(items, rem, j)
  {
    if j == k {
    } else {
      RankAboveMinirun(items, rem, j, k - 1);
    }
  }

  lemma InsertedIsOk(items: Run, rem: nat, r: nat)
    requires RunOk(items, r) && rem < Pow2(r)
    ensures RunOk(Inserted(items, rem), r)
  {
    var p := LowerBound(items, rem);
    var items' := Inserted(items, rem);
    forall i, j | 0 <= i < j < |items'|
      ensures items'[i].rem <= items'[j].rem
    {
      if j < p {
        assert items[i].rem <= items[j].rem;
      } else if i < p < j {
        assert items[i].rem <= items[j - 1].rem;
      } else if i == p {
        assert items[p].rem <= items[j - 1].rem;
      } else if i > p {
        assert items[i - 1].rem <= items[j - 1].rem;
      }
    }
  }

  // ---- adaptation -------------------------------------------------------------------------

  /** The chunks after the do-loop of adapt (src/gqf.c:2465-2513): chunks of x (the high bits of the
      stored hash) are appended until one differs from the chunk of y, or 64 bits are covered. */
  ghost function Extended(ext: seq<nat>, x: nat, y: nat, qbits: nat, r: nat): (e: seq<nat>)
    requires r > 0
    ensures |ext| < |e| && e[..|ext|] == ext
    decreases Max(0, HASH_BITS - r * |ext|)
  {
    var e := ext + [Chunk(x, r, |ext|)];
    assert r * |e| == r * |ext| + r;
    if Chunk(x, r, |ext|) == Chunk(y, r, |ext|) && r * |e| + qbits + r < HASH_BITS then
      Extended(e, x, y, qbits, r)
    else e
  }

  /** The item after an adaptation against the false positive g: its counter is given up. */
  ghost function Adapted(it: Item, h: nat, g: nat, qbits: nat, r: nat): Item
    requires r > 0
  {
    Item(it.rem, Extended(it.ext, High(h, qbits, r), High(g, qbits, r), qbits, r), [])
  }

  /** b is a with zero or more chunks appended. */
  ghost predicate Extends(b: Item, a: Item) {
    b.rem == a.rem && a.ext <= b.ext
  }

  lemma {:induction false} ExtendedAgrees(ext: seq<nat>, x: nat, y: nat, qbits: nat, r: nat)
    requires r > 0 && Agrees(ext, x, r)
    ensures Agrees(Extended(ext, x, y, qbits, r), x, r)
    decreases Max(0, HASH_BITS - r * |ext|)
  {
    var e := ext + [Chunk(x, r, |ext|)];
    assert r * |e| == r * |ext| + r;
    if Chunk(x, r, |ext|) == Chunk(y, r, |ext|) && r * |e| + qbits + r < HASH_BITS {
      ExtendedAgrees(e, x, y, qbits, r);
    }
  }

  /** The loop stops at the first difference, or with 64 bits covered. */
  lemma {:induction false} ExtendedStops(ext: seq<nat>, x: nat, y: nat, qbits: nat, r: nat)
    requires r > 0
    ensures var e := Extended(ext, x, y, qbits, r);
            e[|e| - 1] == Chunk(x, r, |e| - 1) &&
            (Chunk(x, r, |e| - 1) != Chunk(y, r, |e| - 1) || r * |e| + qbits + r >= 64)
    decreases Max(0, HASH_BITS - r * |ext|)
  {
    var e := ext + [Chunk(x, r, |ext|)];
    assert r * |e| == r * |ext| + r;
    if Chunk(x, r, |ext|) == Chunk(y, r, |ext|) && r * |e| + qbits + r < HASH_BITS {
      ExtendedStops(e, x, y, qbits, r);
    }
  }

  /** One turn of the loop of adapt. */
  lemma AdaptedStep(it: Item, h: nat, g: nat, qbits: nat, r: nat, extBits: nat)
    requires r > 0 && extBits == r * |it.ext|
    ensures var c, d := Chunk(High(h, qbits, r), r, |it.ext|), Chunk(High(g, qbits, r), r, |it.ext|);
            var it', goal := Item(it.rem, it.ext + [c], []), Adapted(it, h, g, qbits, r);
            && extBits + r == r * |it'.ext|
            && goal.cnt == [] && |it.ext| < |goal.ext| && Extends(it', it) && Extends(goal, it')
            && (if c == d && extBits + r + qbits + r < HASH_BITS then Adapted(it', h, g, qbits,
                r) == goal else it' == goal)
  {
    var c := Chunk(High(h, qbits, r), r, |it.ext|);
    assert r * |it.ext + [c]| == r * |it.ext| + r;
    var goal := Adapted(it, h, g, qbits, r);
    assert it.ext + [c] <= goal.ext;
  }

  /** The bits that len chunks cover. */
  function TailBits(r: nat, len: nat): nat { r * len }

  lemma TailBitsNext(r: nat, len: nat)
    ensures TailBits(r, len + 1) == TailBits(r, len) + r
  {
  }

  /** The loop invariant of adapt: `it` is between the original item and the goal, and the running
      hashes are shifted to its end. */
  ghost predicate Adapting(it0: Item, it: Item, hash: nat, other: nat, qbits: nat, r: nat,
                           extLen: nat, extBits: nat, countLen: nat, h: nat, o: nat)
    requires r > 0
  {
    && Extends(it, it0) && (it.cnt != [] ==> it == it0)
    && extLen == |it.ext| && countLen == |it.cnt| <= 1 && extBits == TailBits(r, extLen)
    && h == Shr(hash, extBits + qbits) && o == Shr(other, extBits + qbits)
    && Adapted(it, hash, other, qbits, r) == Adapted(it0, hash, other, qbits, r)
  }

  lemma AdaptingStarts(it: Item, hash: nat, other: nat, qbits: nat, r: nat)
    requires r > 0 && |it.cnt| <= 1
    ensures var bits := TailBits(r, |it.ext|);
            Adapting(it, it, hash, other, qbits, r, |it.ext|, bits, |it.cnt|, Shr(hash, bits + qbits),
                Shr(other, bits + qbits))
  {
  }

  lemma AdaptingStep(it0: Item, it: Item, hash: nat, other: nat, qbits: nat, r: nat,
                     extLen: nat, extBits: nat, countLen: nat, h: nat, o: nat)
    requires r > 0 && Adapting(it0, it, hash, other, qbits, r, extLen, extBits, countLen, h, o)
    ensures var h', o', goal := Shr(h, r), Shr(o, r), Adapted(it0, hash, other, qbits, r);
            var it' := Item(it.rem, it.ext + [Low(h', r)], []);
            && extBits == TailBits(r, extLen)
            && extLen == |it.ext| < |goal.ext| && countLen == |it.cnt| <= 1 && (it.cnt != [] ==> it == it0)
            && goal.cnt == [] && Extends(it, it0) && Extends(goal, it) && Extends(goal, it') && Extends(it', it0)
            && (if Low(h', r) == Low(o', r) && extBits + r + qbits + r < HASH_BITS
                then Adapting(it0, it', hash, other, qbits, r, extLen + 1, extBits + r, 0, h', o')
                else it' == goal)
  {
    NextChunk(hash, qbits, r, extLen, extBits);
    NextChunk(other, qbits, r, extLen, extBits);
    AdaptedStep(it, hash, other, qbits, r, extBits);
  }

  /** Adapting keeps the stored hash accepted. */
  lemma AdaptedAccepts(it: Item, h: nat, g: nat, qbits: nat, r: nat)
    requires r > 0 && Matches(it, h, qbits, r)
    ensures Matches(Adapted(it, h, g, qbits, r), h, qbits, r)
  {
    ExtendedAgrees(it.ext, High(h, qbits, r), High(g, qbits, r), qbits, r);
  }

  /** Adapting rejects the false positive it was called for. */
  lemma AdaptedRejects(it: Item, h: nat, g: nat, qbits: nat, r: nat)
    requires r > 0 && Matches(it, h, qbits, r) && h != g
    requires h < Pow2(64) && g < Pow2(64) && Quotient(h, qbits, r) == Quotient(g, qbits, r)
    ensures !Matches(Adapted(it, h, g, qbits, r), g, qbits, r)
  {
    var x, y := High(h, qbits, r), High(g, qbits, r);
    var e := Extended(it.ext, x, y, qbits, r);
    ExtendedAgrees(it.ext, x, y, qbits, r);
    ExtendedStops(it.ext, x, y, qbits, r);
    if it.rem == Remainder(g, r) && Agrees(e, y, r) {
      assert forall i | 0 <= i < |e| :: e[i] == Chunk(x, r, i) && e[i] == Chunk(y, r, i);
      SameFingerprintSameHash(h, g, qbits, r, |e|);
    }
  }

  /** A longer fingerprint accepts fewer hashes: no adaptation adds a false positive. */
  lemma LongerAcceptsLess(it: Item, it': Item, h: nat, qbits: nat, r: nat)
    requires Extends(it', it) && Matches(it', h, qbits, r)
    ensures Matches(it, h, qbits, r)
  {
    assert forall i | 0 <= i < |it.ext| :: it.ext[i] == it'.ext[i];
  }

  // ---- miniruns: the items of a run with one remainder ------------------------------------

  /** The k-th item with remainder rem. */
  ghost function MinirunItem(items: Run, rem: nat, k: nat): (j: nat)
    requires k < RankBefore(items, rem, |items|)
    ensures j < |items| && items[j].rem == rem && RankBefore(items, rem, j) == k
  {
    FindRank(items, rem, k, |items|)
  }

  ghost function FindRank(items: Run, rem: nat, k: nat, n: nat): (j: nat)
    requires n <= |items| && k < RankBefore(items, rem, n)
    ensures j < n && items[j].rem == rem && RankBefore(items, rem, j) == k
  {
    if items[n - 1].rem == rem && RankBefore(items, rem, n - 1) == k then n - 1 else FindRank(items, rem, k, n - 1)
  }

  lemma {:induction false} RankMonotone(items: Run, rem: nat, i: nat, j: nat)
    requires i <= j <= |items|
    ensures RankBefore(items, rem, i) <= RankBefore(items, rem, j)
    ensures i < j && items[i].rem == rem ==> RankBefore(items, rem, i) < RankBefore(items, rem, j)
    decreases j
  {
    if i == j {
    } else {
      RankMonotone(items, rem, i, j - 1);
    }
  }

  /** The rank identifies the item. */
  lemma MinirunItemUnique(items: Run, rem: nat, k: nat, j: nat)
    requires j < |items| && items[j].rem == rem && RankBefore(items, rem, j) == k
    ensures k < RankBefore(items, rem, |items|) && MinirunItem(items, rem, k) == j
  {
    RankMonotone(items, rem, j, |items|);
    var i := MinirunItem(items, rem, k);
    if i < j {
      RankMonotone(items, rem, i, j);
    } else if j < i {
      RankMonotone(items, rem, j, i);
    }
  }

  /** A search for the item of rank k, standing at item j. */
  ghost predicate Seeking(items: Run, rem: nat, k: nat, j: nat, at: nat, curr: nat) {
    && Sorted(items) && k < RankBefore(items, rem, |items|)
    && j <= |items| && at == Offset(items, j) && curr == RankBefore(items, rem, j) <= k
  }

  lemma SeekStarts(items: Run, rem: nat, k: nat)
    requires Sorted(items) && k < RankBefore(items, rem, |items|)
    ensures Seeking(items, rem, k, 0, 0, 0) && items != []
  {
  }

  lemma SeekStep(items: Run, rem: nat, k: nat, j: nat, at: nat, curr: nat)
    requires Seeking(items, rem, k, j, at, curr)
    ensures k < RankBefore(items, rem, |items|) && j < |items| && items[j].rem <= rem && at == Offset(items, j)
    ensures items[j].rem == rem && curr == k ==> MinirunItem(items, rem, k) == j
    ensures !(items[j].rem == rem && curr == k) ==>
              j + 1 < |items| &&
              Seeking(items, rem, k, j + 1, at + items[j].Size(), curr + if items[j].rem == rem then 1 else 0)
  {
    var t := MinirunItem(items, rem, k);
    if t < j {
      RankMonotone(items, rem, t, j);
    } else if items[j].rem == rem && RankBefore(items, rem, j) == k {
      MinirunItemUnique(items, rem, k, j);
    } else {
      assert items[j].rem <= items[t].rem;
      assert t != j;
      RankMonotone(items, rem, j + 1, t);
      OffsetStep(items, j);
    }
  }
}
