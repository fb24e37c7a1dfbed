/** The quotient filter of src/gqf.c. Metadata words, offsets and packed slots are the arrays the C
    code keeps in its blocks; `runs` is the abstract content they represent. */
module Filter {
  import opened Numbers
  import opened Words
  import opened Layout
  import opened RankSelect
  import opened Items
  import opened Hashes
  import opened Runs
  import opened Contents
  import opened Navigation
  import opened InsertRank
  import opened Edits
  import opened PackedSlots

  class QF {
    const qbits: nat
    const nslots: nat
    const xnslots: nat
    const n: nat

    const occupieds: array<bool>
    const runends: array<bool>
    const extensions: array<bool>
    const offsets: array<nat>
    const slots: PackedSlots

    var noccupied_slots: nat
    var nelts: nat
    var ndistinct_elts: nat
    ghost var runs: seq<Run>

    ghost predicate Shape()
      reads slots, slots.bits
    {
      && slots.Valid() && slots.n == n
      && n > 0 && n % 64 == 0 && nslots <= xnslots <= n && nslots == Pow2(qbits)
      && occupieds.Length == runends.Length == extensions.Length == n
      && offsets.Length * 64 == n
      && occupieds != runends && occupieds != extensions && occupieds != slots.bits
      && runends != extensions && runends != slots.bits && extensions != slots.bits
    }

    ghost function Repr(): set<object> {
      {this, occupieds, runends, extensions, offsets, slots, slots.bits}
    }

    ghost function Cells(): (c: seq<Cell>)
      requires Shape()
      reads runends, extensions, slots, slots.bits
      ensures |c| == n
    {
      CellsOf(runends[..], extensions[..], slots.vals)
    }

    /** The run-end bits: marked as run end and not as extension. */
    ghost function Ends(): (r: seq<bool>)
      requires Shape()
      reads runends, extensions, slots, slots.bits
      ensures |r| == n && r == RunEnds(Cells())
      ensures forall i {:trigger r[i]} | 0 <= i < n :: r[i] == (runends[i] && !extensions[i])
    {
      RunEnds(Cells())
    }

    ghost predicate Valid()
      reads this, occupieds, runends, extensions, offsets, slots, slots.bits
    {
      && Shape()
      && |runs| == n
      && Represents(runs, Cells(), occupieds[..], offsets[..], nslots, slots.bps, xnslots)
      && noccupied_slots == Total(runs)
    }

    /** qf_init: every block zeroed. The number of slots with overflow space is a parameter. */
    constructor (qbits: nat, bitsPerSlot: nat, xnslots: nat)
      requires 1 <= bitsPerSlot <= 56 && Pow2(qbits) <= xnslots
      ensures Valid() && fresh(Repr())
      ensures this.qbits == qbits && slots.bps == bitsPerSlot && this.xnslots == xnslots
      ensures n == (xnslots + 63) / 64 * 64
      ensures noccupied_slots == 0 && runs == seq(n, _ => [])
    {
      hide Represents, Pow2, Total, Encs;
      var nblocks := (xnslots + 63) / 64;
      this.qbits, this.nslots, this.xnslots, this.n := qbits, Pow2(qbits), xnslots, 64 * nblocks;
      occupieds := new bool[64 * nblocks](_ => false);
      runends := new bool[64 * nblocks](_ => false);
      extensions := new bool[64 * nblocks](_ => false);
      offsets := new nat[nblocks](_ => 0);
      slots := new PackedSlots(64 * nblocks, bitsPerSlot);
      noccupied_slots, nelts, ndistinct_elts := 0, 0, 0;
      runs := seq(64 * nblocks, _ => []);
      new;
      EmptyIsRepresented(runs, Cells(), occupieds[..], offsets[..], nslots, bitsPerSlot, xnslots);
    }

    function IsRunend(i: nat): bool
      requires i < runends.Length && i < extensions.Length
      reads runends, extensions
    {
      !extensions[i] && runends[i]
    }

    function IsExtension(i: nat): bool
      requires i < runends.Length && i < extensions.Length
      reads runends, extensions
    {
      extensions[i] && !runends[i]
    }

    function IsCounter(i: nat): bool
      requires i < runends.Length && i < extensions.Length
      reads runends, extensions
    {
      extensions[i] && runends[i]
    }

    function IsExtensionOrCounter(i: nat): bool
      requires i < extensions.Length
      reads extensions
    {
      extensions[i]
    }

    /** The run-end word of a block: runends & ~extensions. */
    static function RunendWord(run: array<bool>, ext: array<bool>, block: nat): (w: Word)
      requires 64 * block + 64 <= run.Length && run.Length == ext.Length
      reads run, ext
      ensures forall i | 0 <= i < 64 :: w[i] == (run[64 * block + i] && !ext[64 * block + i])
    {
      And(WordAt(run[..], 64 * block), Not(WordAt(ext[..], 64 * block)))
    }

    /** block_offset (src/gqf.c:584-601): the spill into the block, recomputed when the cached
        offset is saturated. */
    method BlockOffset(block: nat) returns (o: nat)
      requires Valid() && 64 * block < n
      ensures o == Spill(Encs(runs), block)
      decreases block, 0
    {
      if offsets[block] < MAX_OFFSET {
        return offsets[block];
      }
      assert Spill(Encs(runs), block) >= MAX_OFFSET;
      var e := this.RunEnd(64 * block - 1);
      o := e - 64 * block + 1;
    }

    /** bitrank of the block's occupieds up to and including q. */
    method OccupiedRank(q: nat) returns (rank: nat)
      requires Shape() && q < n
      ensures rank == Count(occupieds[..], 64 * (q / 64), q + 1)
    {
      var w := And(WordAt(occupieds[..], 64 * (q / 64)), BitMask(q % 64 + 1));
      rank := PopCount(w);
      CountMaskedLow(occupieds[..], q / 64, w, q % 64 + 1);
    }

    /** bitselectv and popcntv on the run-end word of one block. */
    static method SelectInBlock(run: array<bool>, ext: array<bool>, block: nat, ignore: nat, k: nat, ghost r: seq<bool>)
      returns (pos: nat, cnt: nat)
      requires run.Length == ext.Length == |r| && 64 * block + 64 <= |r| && ignore < 64
      requires forall i | 0 <= i < |r| :: r[i] == (run[i] && !ext[i])
      ensures pos <= 64
      ensures pos < 64 ==> r[64 * block + pos] && Count(r, 0, 64 * block + pos) == Count(r, 0, 64 * block + ignore) + k
      ensures pos == 64 ==> cnt <= k && Count(r, 0, 64 * block + 64) == Count(r, 0, 64 * block + ignore) + cnt
    {
      var w := And(RunendWord(run, ext, block), Not(BitMask(ignore)));
      pos := Select(w, k);
      cnt := PopCount(w);
      CountMaskedHigh(r, block, w, ignore);
      if pos < 64 {
        assert w[pos];
        CountSplit(r, 0, 64 * block + ignore, 64 * block + pos);
      } else {
        CountSplit(r, 0, 64 * block + ignore, 64 * block + 64);
      }
    }

    /** The select loop of run_end: the k-th run end at or behind bit `firstIgnore` of the block,
        searched word by word. */
    static method SelectRunend(run: array<bool>, ext: array<bool>, firstBlock: nat, firstIgnore: nat, rank: nat,
                               ghost r: seq<bool>, ghost limit: nat) returns (p: nat)
      requires run.Length == ext.Length == |r| && |r| % 64 == 0
      requires forall i | 0 <= i < |r| :: r[i] == (run[i] && !ext[i])
      requires 64 * firstBlock + firstIgnore < |r| && firstIgnore < 64 && limit < |r|
      requires Count(r, 0, 64 * firstBlock + firstIgnore) + rank < Count(r, 0, limit)
      ensures p < |r| && r[p]
      ensures Count(r, 0, p) == Count(r, 0, 64 * firstBlock + firstIgnore) + rank
    {
      ghost var target := Count(r, 0, 64 * firstBlock + firstIgnore) + rank;
      var block: nat, ignore: nat, k: nat := firstBlock, firstIgnore, rank;
      var pos, cnt := SelectInBlock(run, ext, block, ignore, k, r);
      while pos == 64
        invariant 64 * block + 64 <= |r| && ignore < 64 && pos <= 64
        invariant Count(r, 0, 64 * block + ignore) + k == target
        invariant pos < 64 ==> r[64 * block + pos] && Count(r, 0, 64 * block + pos) == target
        invariant pos == 64 ==> cnt <= k && Count(r, 0, 64 * block + 64) + k - cnt == target
        decreases |r| - 64 * block
      {
        if limit <= 64 * block + 64 {
          CountMonotone(r, 0, limit, 64 * block + 64);
        }
        k := k - cnt;
        block, ignore := block + 1, 0;
        pos, cnt := SelectInBlock(run, ext, block, ignore, k, r);
      }
      p := 64 * block + pos;
    }

    /** Skipping the extension and counter slots that follow a run end. */
    method SkipTail(base: nat, ghost limit: nat) returns (e: nat)
      requires Shape() && base < limit < n && !extensions[limit]
      requires forall i | base < i < limit :: extensions[i]
      ensures e == limit - 1
    {
      e := base;
      while IsExtensionOrCounter(e + 1)
        invariant base <= e < limit
        decreases limit - e
      {
        e := e + 1;
      }
    }

    /** run_end (src/gqf.c:603-644) */
    method RunEnd(q: nat) returns (e: nat)
      requires Valid() && q < n
      ensures e == Layout.RunEnd(Encs(runs), q)
      decreases q / 64, 1
    {
      hide Next, Count, WellFormed, OffsetsOk, RunsOk, Total, Encode;
      var b, o := q / 64, q % 64;
      var boff := BlockOffset(b);
      var rank := OccupiedRank(q);
      PlacedIsIndexed(runs, Cells(), occupieds[..], offsets[..]);
      RunEndByRank(Encs(runs), Cells(), occupieds[..], q, boff, rank);
      if rank == 0 {
        if boff <= o {
          return q;
        } else {
          return 64 * b + boff - 1;
        }
      }
      var block, ignore := b + boff / 64, boff % 64;
      e := RunEndBehind(q, block, ignore, rank - 1);
      if e < q {
        return q;
      }
    }

    /** The part of run_end behind the early exits. */
    method RunEndBehind(q: nat, block: nat, ignore: nat, rank: nat) returns (e: nat)
      requires Valid() && q < n && ignore < 64 && 64 * block + ignore < n
      requires Count(RunEnds(Cells()), 0, 64 * block + ignore) + rank + 1 == Count(occupieds[..], 0, q + 1)
      ensures e + 1 == Next(Encs(runs), q + 1)
    {
      hide Next, Count, WellFormed, OffsetsOk, RunsOk;
      ghost var cells, occ, limit := Cells(), occupieds[..], Next(Encs(runs), q + 1);
      PlacedIsIndexed(runs, cells, occ, offsets[..]);
      RankAtNext(Encs(runs), cells, occ, q + 1);
      e := SelectRunend(runends, extensions, block, ignore, rank, RunEnds(cells), limit);
      SelectFindsRunEnd(Encs(runs), cells, occ, q + 1, e);
      e := SkipTail(e, limit);
    }

    /** popcnt of the run ends of the block from its offset up to, but excluding, slot s. */
    method RunendsBetween(s: nat, boffset: nat) returns (cnt: nat)
      requires Shape() && s < n && boffset <= s % 64
      ensures cnt == Count(RunEnds(Cells()), 64 * (s / 64) + boffset, s)
    {
      hide Count;
      var w := Words.Shr(And(RunendWord(runends, extensions, s / 64), BitMask(s % 64)), boffset);
      cnt := PopCount(w);
      CountMaskedShifted(Ends(), s / 64, w, boffset, s % 64);
    }

    /** offset_lower_bound (src/gqf.c:646-669): a jump that never oversteps an unused slot, and is
        zero on a slot that is no extension exactly when that slot is unused. */
    method OffsetLowerBound(s: nat) returns (t: nat)
      requires Valid() && s < n
      ensures s + t <= Max(s, Next(Encs(runs), s + 1))
      ensures !extensions[s] ==> (t == 0 <==> !Used(Encs(runs), s))
    {
      ghost var encs, cells, occ := Encs(runs), Cells(), occupieds[..];
      PlacedIsIndexed(runs, cells, occ, offsets[..]);
      var boffset := offsets[s / 64];
      var occupied := OccupiedRank(s);
      if boffset <= s % 64 {
        var ended := RunendsBetween(s, boffset);
        OpenRuns(encs, cells, occ, s, boffset, occupied, ended);
        t := occupied - ended;
      } else {
        SpilledRunsAt(encs, cells, occ, s / 64, s, boffset);
        t := boffset - s % 64 + occupied;
      }
    }

    /** find_first_empty_slot (src/gqf.c:691-713): the least unused slot at or behind `start`. */
    method FindFirstEmptySlot(start: nat) returns (from: nat)
      requires Valid() && start < n
      ensures FirstEmpty(Encs(runs), start, from)
    {
      ghost var encs := Encs(runs);
      from := start;
      while true
        invariant start <= from < n
        invariant forall i | start <= i < from :: Used(encs, i)
        decreases n - from
      {
        from := SkipExtensions(from);
        var t := OffsetLowerBound(from);
        if t == 0 {
          break;
        }
        JumpIsUsed(encs, from, t);
        from := from + t;
      }
    }

    /** The inner loop of find_first_empty_slot. */
    method SkipExtensions(start: nat) returns (from: nat)
      requires Valid() && start < n
      ensures start <= from < n && !extensions[from]
      ensures forall i | start <= i < from :: Used(Encs(runs), i)
    {
      ghost var encs := Encs(runs);
      from := start;
      assert !Used(encs, n - 1) && Cells()[n - 1].IsBlank();
      while IsExtensionOrCounter(from)
        invariant start <= from < n
        invariant forall i | start <= i < from :: Used(encs, i)
        decreases n - from
      {
        MarkedIsUsed(encs, Cells(), from);
        from := from + 1;
      }
    }

    /** insert_one_slot (src/gqf.c:1015-1048): everything from `ins` up to the first empty slot moves
        up by one, the value is stored at `ins` as an unmarked slot, and the offset of every block
        that the shift pushed into grows by one unless it is saturated. */
    method InsertOneSlot(target: nat, ins: nat, value: nat) returns (ret: int, ghost e: nat)
      requires Valid() && target < n && ins < n && value < Pow2(slots.bps)
      requires ins > 0 || Used(Encs(runs), 0)
      requires Room(Encs(runs), ins, n)
      modifies runends, extensions, offsets, slots, slots.bits
      ensures Shape() && FirstEmpty(Encs(runs), ins, e)
      ensures ret == if e >= xnslots then -1 else 1
      ensures ret == -1 ==> Cells() == old(Cells()) && offsets[..] == old(offsets[..])
      ensures ret == 1 ==> Cells() == ShiftIn(old(Cells()), ins, e, Cell(false, false, value))
      ensures ret == 1 ==> offsets[..] == Bump(old(offsets[..]), target, e)
    {
      var empty := FindFirstEmptySlot(ins);
      e := empty;
      if empty >= xnslots {
        return -1, e;
      }
      MoveUp(ins, empty, value);
      BumpOffsets(target, empty);
      return 1, e;
    }

    /** shift_remainders, set_slot and shift_runends together. */
    method MoveUp(ins: nat, empty: nat, value: nat)
      requires Shape() && ins <= empty && empty + 1 < n && value < Pow2(slots.bps)
      modifies runends, extensions, slots, slots.bits
      ensures Shape()
      ensures Cells() == ShiftIn(old(Cells()), ins, empty, Cell(false, false, value))
    {
      ghost var run, ext, val := runends[..], extensions[..], slots.vals;
      slots.ShiftRemainders(ins, empty);
      slots.Set(ins, value);
      assert slots.vals == ShiftIn(val, ins, empty, value);
      ShiftFlags(runends, ins, empty);
      ShiftFlags(extensions, ins, empty);
      ShiftCells(run, ext, val, ins, empty, value);
    }

    /** shift_runends by one slot, on one of the two metadata bit vectors. */
    static method ShiftFlags(m: array<bool>, ins: nat, empty: nat)
      requires m.Length % 64 == 0 && ins <= empty && empty + 1 < m.Length
      modifies m
      ensures m[..] == ShiftIn(old(m[..]), ins, empty, false)
    {
      ShiftUp(m, ins, empty + 1, 1);
    }

    method BumpOffsets(target: nat, empty: nat)
      requires target < n && empty < n && offsets.Length * 64 == n
      modifies offsets
      ensures offsets[..] == Bump(old(offsets[..]), target, empty)
    {
      ghost var was := offsets[..];
      var i := target / 64 + 1;
      while i <= empty / 64
        invariant target / 64 < i
        invariant forall b | 0 <= b < offsets.Length ::
                    offsets[b] == if b < i then Bump(was, target, empty)[b] else was[b]
      {
        if offsets[i] < MAX_OFFSET {
          offsets[i] := offsets[i] + 1;
        }
        i := i + 1;
      }
    }

    /** The first slot of the run of q: one behind run_end(q - 1). */
    method RunStart(q: nat) returns (s: nat)
      requires Valid() && q < n
      ensures s == Start(Encs(runs), q)
    {
      if q == 0 {
        return 0;
      }
      var e := RunEnd(q - 1);
      s := e + 1;
    }

    /** Item `it` occupies the slots from p on. */
    ghost predicate Holds(p: nat, it: Item, last: bool)
      requires Shape()
      reads runends, extensions, slots, slots.bits
    {
      StoredAt(Cells(), p, it, last)
    }

    /** The k-th slot behind the base slot of an item. */
    lemma TailSlotAt(index: nat, it: Item, last: bool, k: nat)
      requires Shape() && Holds(index, it, last) && k <= |it.ext| + |it.cnt|
      ensures index + 1 + k < n
      ensures k < |it.ext| ==> IsExtension(index + 1 + k) && slots.vals[index + 1 + k] == it.ext[k]
      ensures |it.ext| <= k < |it.ext| + |it.cnt| ==>
                IsCounter(index + 1 + k) && slots.vals[index + 1 + k] == it.cnt[k - |it.ext|]
      ensures k == |it.ext| + |it.cnt| ==> !extensions[index + 1 + k]
    {
      TailCell(Cells(), index, it, last, k);
      assert Cells()[index + 1 + k] == Cell(runends[index + 1 + k], extensions[index + 1 + k],
          slots.vals[index + 1 + k]);
    }

    /** The extension loop of get_slot_info. */
    method GetExtension(index: nat, ghost it: Item, ghost last: bool) returns (ext: nat, len: nat)
      requires Shape() && Holds(index, it, last) && Digits(it.ext, slots.bps)
      ensures ext == Value(it.ext, slots.bps) && len == |it.ext|
    {
      assert Value([], slots.bps) == 0;
      hide Value, OrChunk, Pow2, Holds, StoredAt, Digits;
      ext, len := 0, 0;
      TailSlotAt(index, it, last, 0);
      while IsExtension(index + 1 + len)
        invariant len <= |it.ext| && ext == Value(it.ext[..len], slots.bps) && index + 1 + len < n
        invariant IsExtension(index + 1 + len) <==> len < |it.ext|
        decreases |it.ext| - len
      {
        TailSlotAt(index, it, last, len);
        TailSlotAt(index, it, last, len + 1);
        var v := slots.Get(index + 1 + len);
        OrDigit(it.ext, len, slots.bps);
        ext := OrChunk(ext, v, len, slots.bps);
        len := len + 1;
      }
      assert it.ext[..len] == it.ext;
    }

    /** The counter loop of get_slot_info, from slot `base` behind the extensions. */
    method GetCounter(base: nat, ghost index: nat, ghost it: Item, ghost last: bool) returns (count: nat, len: nat)
      requires Shape() && Holds(index, it, last) && Digits(it.cnt, slots.bps) && base == index + 1 + |it.ext|
      ensures count == ItemCount(it, slots.bps) && len == |it.cnt|
    {
      assert Value([], slots.bps) == 0;
      hide Value, OrChunk, Pow2, Holds, StoredAt, Digits;
      count, len := 0, 0;
      TailSlotAt(index, it, last, |it.ext|);
      if !IsCounter(base) {
        count := 1;
        return;
      }
      while IsCounter(base + len)
        invariant len <= |it.cnt| && count == Value(it.cnt[..len], slots.bps) && base + len < n && it.cnt != []
        invariant IsCounter(base + len) <==> len < |it.cnt|
        decreases |it.cnt| - len
      {
        TailSlotAt(index, it, last, |it.ext| + len);
        TailSlotAt(index, it, last, |it.ext| + len + 1);
        var v := slots.Get(base + len);
        OrDigit(it.cnt, len, slots.bps);
        count := OrChunk(count, v, len, slots.bps);
        len := len + 1;
      }
      assert it.cnt[..len] == it.cnt;
    }

    /** get_slot_info (src/gqf.c:2421-2449) */
    method GetSlotInfo(index: nat, ghost it: Item, ghost last: bool)
      returns (ext: nat, extLen: nat, count: nat, countLen: nat)
      requires Shape() && Holds(index, it, last) && ItemOk(it, slots.bps)
      ensures ext == Value(it.ext, slots.bps) && extLen == |it.ext|
      ensures count == ItemCount(it, slots.bps) && countLen == |it.cnt|
    {
      ext, extLen := GetExtension(index, it, last);
      count, countLen := GetCounter(index + 1 + extLen, index, it, last);
    }

    /** Step over an item whose length is not known. */
    method SkipItem(index: nat, ghost it: Item, ghost last: bool) returns (next: nat)
      requires Shape() && Holds(index, it, last)
      ensures next == index + it.Size()
    {
      hide Holds, StoredAt;
      next := index + 1;
      TailSlotAt(index, it, last, 0);
      while IsExtensionOrCounter(next)
        invariant index + 1 <= next <= index + it.Size() && next < n
        invariant extensions[next] <==> next < index + it.Size()
        decreases index + it.Size() - next
      {
        TailSlotAt(index, it, last, next - index);
        next := next + 1;
      }
    }

    /** The fingerprint comparison of the queries: the masked high bits of the hash against the
        stored extension. */
    method CompareItem(index: nat, hash: nat, ghost it: Item, ghost last: bool)
      returns (ok: bool, count: nat, size: nat)
      requires Shape() && Holds(index, it, last) && ItemOk(it, slots.bps) && it.rem == Remainder(hash, slots.bps)
      ensures ok <==> Matches(it, hash, qbits, slots.bps)
      ensures count == ItemCount(it, slots.bps) && size == it.Size()
    {
      var ext, extLen, c, countLen := GetSlotInfo(index, it, last);
      MaskedCompare(it.ext, High(hash, qbits, slots.bps), slots.bps);
      ok := Low(High(hash, qbits, slots.bps), slots.bps * extLen) == ext;
      count, size := c, 1 + extLen + countLen;
    }

    /** One step of the scan over a run. */
    method ProbeItem(index: nat, hash: nat, ghost it: Item, ghost last: bool)
      returns (ok: bool, same: bool, count: nat, size: nat, end: bool)
      requires Shape() && Holds(index, it, last) && ItemOk(it, slots.bps)
      ensures ok <==> Matches(it, hash, qbits, slots.bps)
      ensures same <==> it.rem == Remainder(hash, slots.bps)
      ensures ok ==> count == ItemCount(it, slots.bps)
      ensures size == it.Size() && end == last
    {
      assert Cells()[index] == Cell(runends[index], extensions[index], slots.vals[index]);
      var v := slots.Get(index);
      same, end := v == Remainder(hash, slots.bps), IsRunend(index);
      if same {
        ok, count, size := CompareItem(index, hash, it, last);
      } else {
        var next := SkipItem(index, it, last);
        ok, count, size := false, 0, next - index;
      }
    }

    /** One turn of the scan of a run by the queries: either the answer, or the next item. */
    method ScanTurn(hash: nat, start: nat, current: nat, rank: nat, ghost items: Run, ghost m: nat, ghost exact: nat)
      returns (done: bool, count: nat, rank': nat, next: nat, ghost exact': nat)
      requires Shape() && m < |items| && Readable(Cells(), items, start, slots.bps, xnslots) && start <= current
      requires Scanning(items, hash, qbits, slots.bps, m, current - start, exact) && rank == Byte(exact)
      ensures start <= next
      ensures done ==> Answer(items, hash, qbits, slots.bps, count, rank', next - start)
      ensures !done ==> count == 0 && m + 1 < |items| && next < xnslots && rank' == Byte(exact') &&
                        Scanning(items, hash, qbits, slots.bps, m + 1, next - start, exact')
    {
      hide StoredAt, Readable, Matches, ItemOk, Scanning, Byte, RankBefore;
      ScanStep(items, hash, qbits, slots.bps, m, current - start, exact);
      ReadItem(Cells(), items, start, slots.bps, xnslots, m);
      var ok, same, c, size, end := ProbeItem(current, hash, items[m], m + 1 == |items|);
      ItemCountPositive(items[m], slots.bps);
      if ok {
        return true, c, rank, current, exact;
      }
      ByteIncrement(exact);
      done, count, rank', next := end, 0, if same then Byte(rank + 1) else rank, current + size;
      exact' := if same then exact + 1 else exact;
      ScanStep(items, hash, qbits, slots.bps, m + 1, next - start, exact');
      if !end {
        ReadItem(Cells(), items, start, slots.bps, xnslots, m + 1);
      }
    }

    /** The scan of the run by the queries. */
    method ScanRun(hash: nat, start: nat, ghost items: Run) returns (count: nat, rank: nat, index: nat)
      requires Shape() && items != [] && Readable(Cells(), items, start, slots.bps, xnslots)
      ensures start <= index && Answer(items, hash, qbits, slots.bps, count, rank, index - start)
    {
      assert Byte(0) == 0;
      hide StoredAt, Readable, Offset, Answer, Scanning, Byte;
      ghost var m, exact: nat := 0, 0;
      count, rank, index := 0, 0, start;
      ScanStarts(items, hash, qbits, slots.bps);
      ReadItem(Cells(), items, start, slots.bps, xnslots, 0);
      ScanStep(items, hash, qbits, slots.bps, 0, 0, 0);
      var done := false;
      while !done && index < xnslots
        invariant start <= index && (done ==> Answer(items, hash, qbits, slots.bps, count, rank, index - start))
        invariant !done ==> index < xnslots && m < |items| && rank == Byte(exact)
        invariant !done ==> Scanning(items, hash, qbits, slots.bps, m, index - start, exact)
        decreases !done, |items| - m
      {
        done, count, rank, index, exact := ScanTurn(hash, start, index, rank, items, m, exact);
        m := m + 1;
      }
    }

    /** qf_get_count_using_ll_table_with_index (src/gqf.c:1635-1697): the first item of the run that
        accepts the hash, its count, its slot, and its rank among the items with that remainder (in
        a byte). */
    method GetCountWithIndex(hash: nat) returns (count: nat, rank: nat, index: nat)
      requires Valid()
      ensures var q, r := Quotient(hash, qbits, slots.bps), slots.bps;
              var items, m := runs[q], FirstMatch(runs[q], hash, qbits, r, 0);
              if m < |items| then
                && count == ItemCount(items[m], r) > 0
                && rank == Byte(RankBefore(items, Remainder(hash, r), m))
                && index == ItemPos(runs, q, m)
              else count == 0
    {
      var q := Quotient(hash, qbits, slots.bps);
      RunReadable(runs, Cells(), occupieds[..], offsets[..], q, nslots, slots.bps, xnslots);
      if !occupieds[q] {
        return 0, 0, 0;
      }
      var start := RunStart(q);
      count, rank, index := ScanRun(hash, start, runs[q]);
    }

    // ---- insertion ------------------------------------------------------------------------

    /** might_be_empty (src/gqf.c:676-681) */
    function MightBeEmpty(i: nat): bool
      requires i < n && n == occupieds.Length == runends.Length == extensions.Length
      reads occupieds, runends, extensions
    {
      !occupieds[i] && !runends[i] && !extensions[i]
    }

    /** METADATA_WORD(runends, i) |= bit */
    method MarkRunend(i: nat)
      requires Shape() && i < n
      modifies runends
      ensures Shape() && Cells() == old(Cells())[i := old(Cells())[i].(run := true)]
    {
      ghost var was := Cells();
      runends[i] := true;
      assert Cells() == was[i := was[i].(run := true)];
    }

    /** METADATA_WORD(runends, i) ^= bit, on a set bit */
    method ClearRunend(i: nat)
      requires Shape() && i < n && Cells()[i].run
      modifies runends
      ensures Shape() && Cells() == old(Cells())[i := old(Cells())[i].(run := false)]
    {
      ghost var was := Cells();
      runends[i] := !runends[i];
      assert Cells() == was[i := was[i].(run := false)];
    }

    /** METADATA_WORD(extensions, i) |= bit */
    method MarkExtension(i: nat)
      requires Shape() && i < n
      modifies extensions
      ensures Shape() && Cells() == old(Cells())[i := old(Cells())[i].(ext := true)]
    {
      ghost var was := Cells();
      extensions[i] := true;
      assert Cells() == was[i := was[i].(ext := true)];
    }

    /** set_slot */
    method SetSlot(i: nat, value: nat)
      requires Shape() && i < n && value < Pow2(slots.bps)
      modifies slots, slots.bits
      ensures Shape() && Cells() == old(Cells())[i := old(Cells())[i].(val := value)]
    {
      ghost var was := Cells();
      slots.Set(i, value);
      assert Cells() == was[i := was[i].(val := value)];
    }

    /** First branch of insert_using_ll_table: the home slot is unused. */
    method InsertIntoEmptySlot(q: nat, rem: nat)
      requires Valid() && q < nslots && rem < Pow2(slots.bps)
      requires !Used(Encs(runs), q) && q < xnslots && q + 1 < n
      modifies this, occupieds, runends, slots, slots.bits
      ensures Valid() && runs == old(runs)[q := Inserted(old(runs[q]), rem)]
      ensures noccupied_slots == old(noccupied_slots) + 1
      ensures nelts == old(nelts) + 1 && ndistinct_elts == old(ndistinct_elts) + 1
    {
      hide Represents, Next, Start, Encode, Total, Inserted, Used;
      ghost var cells := Cells();
      ghost var items := Inserted(runs[q], rem);
      HomeSlotState(runs, cells, occupieds[..], offsets[..], nslots, slots.bps, xnslots, q);
      UnusedHasNoRun(Encs(runs), q);
      assert Encs(runs)[q] == Encode(runs[q]);
      SetSlot(q, rem);
      MarkRunend(q);
      occupieds[q] := true;
      noccupied_slots, nelts, ndistinct_elts := noccupied_slots + 1, nelts + 1, ndistinct_elts + 1;
      assert Cells() == ShiftIn(cells, q, q, Cell(false, false, rem))[q := Cell(true, false, rem)];
      NewRunInserted(runs, cells, old(occupieds[..]), offsets[..], nslots, slots.bps, xnslots, q, rem, q);
      assert offsets[..] == Bump(offsets[..], q, q);
      runs := runs[q := items];
    }

    /** Second branch: the bucket is empty but its slot is taken. */
    method InsertNewRun(q: nat, start: nat, rem: nat)
      requires Valid() && q < nslots && rem < Pow2(slots.bps)
      requires Used(Encs(runs), q) && runs[q] == [] && start == Start(Encs(runs), q)
      requires Room(Encs(runs), q, xnslots)
      modifies this, occupieds, runends, extensions, offsets, slots, slots.bits
      ensures Valid() && runs == old(runs)[q := Inserted(old(runs[q]), rem)]
      ensures noccupied_slots == old(noccupied_slots) + 1
      ensures nelts == old(nelts) + 1 && ndistinct_elts == old(ndistinct_elts) + 1
    {
      hide Represents, Next, Start, Encode, Total, Inserted, Used;
      ghost var cells, occ, off := Cells(), occupieds[..], offsets[..];
      NewRunIndex(runs, cells, occ, off, nslots, slots.bps, xnslots, q);
      var ret, e := InsertOneSlot(q, start, rem);
      MarkRunend(start);
      occupieds[q] := true;
      noccupied_slots, nelts, ndistinct_elts := noccupied_slots + 1, nelts + 1, ndistinct_elts + 1;
      assert Cells() == ShiftIn(cells, start, e, Cell(false, false, rem))[start := Cell(true, false, rem)];
      NewRunInserted(runs, cells, occ, off, nslots, slots.bps, xnslots, q, rem, e);
      runs := runs[q := Inserted(runs[q], rem)];
    }

    /** One step of the scan for the insertion point. */
    method ReadBase(index: nat, ghost it: Item, ghost last: bool) returns (rem: nat, end: bool)
      requires Shape() && Holds(index, it, last)
      ensures rem == it.rem && end == last
    {
      assert Cells()[index] == Cell(runends[index], extensions[index], slots.vals[index]);
      rem := slots.Get(index);
      end := IsRunend(index);
    }

    /** The rank loop of insert_using_ll_table (src/gqf.c:1441-1447). The end of the slots ends it. */
    method CountMinirun(index: nat, rem: nat) returns (rank: nat)
      requires Shape() && index < n && slots.vals[index] == rem
      ensures rank == RankLoop(Cells(), index, rem)
    {
      var temp, tempRem := index, rem;
      rank := 0;
      while tempRem == rem
        invariant temp < n && tempRem == slots.vals[temp]
        invariant rank + RankLoop(Cells(), temp, rem) == RankLoop(Cells(), index, rem)
        decreases n - temp, tempRem == rem
      {
        assert Cells()[temp] == Cell(runends[temp], extensions[temp], slots.vals[temp]);
        rank := rank + 1;
        if IsRunend(temp) {
          return;
        }
        temp := ReachBase(temp);
        temp := temp + 1;
        if temp >= n {
          return;
        }
        tempRem := slots.Get(temp);
      }
    }

    /** Its inner loop. */
    method ReachBase(index: nat) returns (next: nat)
      requires Shape() && index < n
      ensures next == BaseFrom(Cells(), index)
    {
      next := index;
      while next < n && IsExtensionOrCounter(next)
        invariant index <= next <= n && BaseFrom(Cells(), next) == BaseFrom(Cells(), index)
      {
        assert Cells()[next] == Cell(runends[next], extensions[next], slots.vals[next]);
        next := next + 1;
      }
      assert next < n ==> Cells()[next] == Cell(runends[next], extensions[next], slots.vals[next]);
    }

    /** The scan of insert_using_ll_table (src/gqf.c:1433-1462): the slot in front of the first item
        whose remainder is not smaller, or behind the run. */
    method FindInsertIndex(start: nat, rem: nat, ghost items: Run)
      returns (current: nat, insertIndex: nat, wasRunend: bool, rank: nat)
      requires Shape() && items != [] && Readable(Cells(), items, start, slots.bps, xnslots) && Sorted(items)
      ensures wasRunend <==> LowerBound(items, rem) == |items|
      ensures insertIndex == start + Offset(items, LowerBound(items, rem))
      ensures wasRunend ==> current == start + Offset(items, |items| - 1)
      ensures rank == ReportedRank(Cells(), items, start, rem)
    {
      hide StoredAt, Readable, RankLoop;
      current, rank, wasRunend := start, 0, false;
      ghost var j := 0;
      while true
        invariant j < |items| && current == start + Offset(items, j) && rank == 0 && !wasRunend
        invariant forall i | 0 <= i < j :: items[i].rem < rem
        decreases |items| - j
      {
        ReadItem(Cells(), items, start, slots.bps, xnslots, j);
        var currentRemainder, end := ReadBase(current, items[j], j + 1 == |items|);
        if currentRemainder >= rem {
          LowerBoundUnique(items, rem, j);
          if currentRemainder == rem {
            rank := CountMinirun(current, rem);
          }
          insertIndex := current;
          return;
        }
        var next := SkipItem(current, items[j], j + 1 == |items|);
        if end {
          LowerBoundUnique(items, rem, |items|);
          wasRunend, insertIndex := true, next;
          return;
        }
        current, j := next, j + 1;
      }
    }

    /** Third branch of insert_using_ll_table: a further item of a non-empty bucket. */
    method InsertIntoRun(q: nat, start: nat, rem: nat) returns (rank: nat)
      requires Valid() && q < nslots && rem < Pow2(slots.bps)
      requires runs[q] != [] && start == Start(Encs(runs), q)
      requires Room(Encs(runs), q, xnslots)
      modifies this, runends, extensions, offsets, slots, slots.bits
      ensures Valid() && runs == old(runs)[q := Inserted(old(runs[q]), rem)]
      ensures noccupied_slots == old(noccupied_slots) + 1
      ensures rank == ReportedRank(old(Cells()), old(runs[q]), start, rem)
      ensures nelts == old(nelts) + 1 && ndistinct_elts == old(ndistinct_elts) + 1
    {
      hide Represents, Readable, Next, Start, Encode, Offset, LowerBound, Bump, FirstEmpty, Total, Inserted, Used,
           ReportedRank;
      ghost var cells, occ, off, items := Cells(), occupieds[..], offsets[..], runs[q];
      RunReadable(runs, cells, occ, off, q, nslots, slots.bps, xnslots);
      var current, insertIndex, wasRunend;
      current, insertIndex, wasRunend, rank := FindInsertIndex(start, rem, items);
      InsertIndexInRun(runs, cells, occ, off, nslots, slots.bps, xnslots, q, rem);
      var ret, e := InsertOneSlot(q, insertIndex, rem);
      if wasRunend {
        ItemInsertedBehind(runs, cells, occ, off, nslots, slots.bps, xnslots, q, rem, current, insertIndex, e);
        MarkRunend(insertIndex);
        assert Cells()[current] == cells[current];
        ClearRunend(current);
      } else {
        ItemInsertedInFront(runs, cells, occ, off, nslots, slots.bps, xnslots, q, rem, insertIndex, e);
      }
      noccupied_slots, nelts, ndistinct_elts := noccupied_slots + 1, nelts + 1, ndistinct_elts + 1;
      runs := runs[q := Inserted(items, rem)];
    }

    /** When the rank that an insert will report is the length of the minirun. */
    lemma InsertRankExact(hash: nat)
      requires Valid()
      ensures var q, rem := Quotient(hash, qbits, slots.bps), Remainder(hash, slots.bps);
              && q < n && Sorted(runs[q])
              && var s := Start(Encs(runs), q);
                 ReportedRank(Cells(), runs[q], s, rem) == RankBefore(runs[q], rem, |runs[q]|) <==>
                 LooksRight(runs[q], rem, Follows(Cells(), runs[q], s), 0)
    {
      hide Readable, ReportedRank, LooksRight, Follows, Start;
      var q := Quotient(hash, qbits, slots.bps);
      RunReadable(runs, Cells(), occupieds[..], offsets[..], q, nslots, slots.bps, xnslots);
      ReportedRankExact(Cells(), runs[q], Start(Encs(runs), q), slots.bps, xnslots, Remainder(hash, slots.bps));
    }

    /** insert_using_ll_table with count 1 (src/gqf.c:1359-1496): one unextended fingerprint is added
        at the front of its minirun, every other run is untouched, and the reported rank is what the
        rank loop counts. */
    method Insert(hash: nat) returns (existed: bool, rank: nat)
      requires Valid() && Room(Encs(runs), Quotient(hash, qbits, slots.bps), xnslots)
      modifies Repr()
      ensures Valid()
      ensures var q, rem := Quotient(hash, qbits, slots.bps), Remainder(hash, slots.bps);
              && runs == old(runs)[q := Inserted(old(runs[q]), rem)]
              && rank == ReportedRank(old(Cells()), old(runs[q]), old(Start(Encs(runs), q)), rem)
              && (existed <==> rank > 0)
      ensures noccupied_slots == old(noccupied_slots) + 1
      ensures nelts == old(nelts) + 1 && ndistinct_elts == old(ndistinct_elts) + 1
    {
      hide Represents, Inserted;
      var rem, q := Remainder(hash, slots.bps), Quotient(hash, qbits, slots.bps);
      ghost var items := runs[q];
      var runendIndex := RunEnd(q);
      HomeSlotState(runs, Cells(), occupieds[..], offsets[..], nslots, slots.bps, xnslots, q);
      if MightBeEmpty(q) && runendIndex == q {
        assert FirstEmpty(Encs(runs), q, q);
        InsertIntoEmptySlot(q, rem);
        rank := 0;
      } else {
        var start := RunStart(q);
        if !occupieds[q] {
          InsertNewRun(q, start, rem);
          rank := 0;
        } else {
          rank := InsertIntoRun(q, start, rem);
        }
      }
      existed := rank > 0;
    }

    // ---- adaptation and counting ----------------------------------------------------------

    /** One appended chunk of adapt: a slot is shifted in behind the item's extensions and marked as
        extension (src/gqf.c:2479-2500). */
    method AppendChunk(q: nat, ins: nat, v: nat, empty: nat, ghost j: nat)
      requires Valid() && q < nslots && j < |runs[q]| && runs[q][j].cnt == [] && v < Pow2(slots.bps)
      requires ins == TailPos(runs, q, j) && FirstEmpty(Encs(runs), ins, empty) && empty < xnslots && empty + 1 < n
      modifies Repr()
      ensures Valid() && noccupied_slots == old(noccupied_slots) + 1
      ensures runs == old(WithItem(runs, q, j, runs[q][j].(ext := runs[q][j].ext + [v])))
      ensures nelts == old(nelts) && ndistinct_elts == old(ndistinct_elts)
    {
      hide Represents, Encode, Next, Start, Offset, Used, Total, Bump;
      ItemExtended(runs, Cells(), occupieds[..], offsets[..], nslots, slots.bps, xnslots, q, j, v, ins, empty);
      MoveUp(ins, empty, v);
      BumpOffsets(q, empty);
      MarkExtension(ins);
      noccupied_slots := noccupied_slots + 1;
      runs := WithItem(runs, q, j, runs[q][j].(ext := runs[q][j].ext + [v]));
    }

    /** The counter slot of an item becomes its next extension slot (src/gqf.c:2501-2512). */
    method ReuseCounter(q: nat, p: nat, v: nat, ghost j: nat)
      requires Valid() && q < nslots && j < |runs[q]| && |runs[q][j].cnt| == 1 && v < Pow2(slots.bps)
      requires p == TailPos(runs, q, j)
      modifies Repr()
      ensures Valid() && noccupied_slots == old(noccupied_slots)
      ensures runs == old(WithItem(runs, q, j, Item(runs[q][j].rem, runs[q][j].ext + [v], [])))
      ensures nelts == old(nelts) && ndistinct_elts == old(ndistinct_elts)
    {
      hide Represents, Encode, Next, Start, Offset, Used, Total, Bump;
      ghost var cells := Cells();
      CounterReused(runs, cells, occupieds[..], offsets[..], nslots, slots.bps, xnslots, q, j, v, p);
      SetSlot(p, v);
      ClearRunend(p);
      assert Cells() == cells[p := Cell(false, true, v)];
      runs := WithItem(runs, q, j, Item(runs[q][j].rem, runs[q][j].ext + [v], []));
    }

    /** The write of one turn of the do-loop of adapt: append the chunk behind the extensions, or give up when the
        first empty slot is out of reach. */
    method AdaptStep(index: nat, q: nat, v: nat, slotsUsed: nat, countLen: nat, ghost j: nat) returns (full: bool)
      requires Valid() && q < nslots && j < |runs[q]| && index == ItemPos(runs, q, j) && v < Pow2(slots.bps)
      requires slotsUsed == 1 + |runs[q][j].ext| && countLen == |runs[q][j].cnt| <= 1
      requires countLen == 0 ==> EdgeFree(Encs(runs), TailPos(runs, q, j), xnslots)
      modifies Repr()
      ensures Valid()
      ensures full ==> runs == old(runs) && !Room(Encs(runs), TailPos(runs, q, j), xnslots)
      ensures !full ==> runs == old(WithItem(runs, q, j, Item(runs[q][j].rem, runs[q][j].ext + [v], [])))
      ensures nelts == old(nelts) && ndistinct_elts == old(ndistinct_elts)
    {
      hide Represents, Encode, Next, Start, Offset, Used, Total, Bump;
      TailSlot(runs, Cells(), occupieds[..], offsets[..], nslots, slots.bps, xnslots, q, j);
      var empty := FindFirstEmptySlot(index + slotsUsed);
      if empty >= xnslots {
        assert FirstEmpty(Encs(runs), TailPos(runs, q, j), empty);
        return true;
      }
      if countLen == 0 {
        AppendChunk(q, index + slotsUsed, v, empty, j);
      } else {
        ReuseCounter(q, index + slotsUsed, v, j);
      }
      return false;
    }

    /** One pass through the body of that loop, with its condition: `again` says whether it repeats. */
    method AdaptTurn(index: nat, q: nat, h: nat, o: nat, extLen: nat, extBits: nat, countLen: nat, ghost j: nat,
                     ghost runs0: seq<Run>, ghost it: Item, ghost hash: nat, ghost other: nat)
      returns (full: bool, again: bool, h': nat, o': nat, extBits': nat, ghost it': Item)
      requires Valid() && q < nslots && |runs0| == n && j < |runs0[q]| && runs == WithItem(runs0, q, j, it)
      requires index == ItemPos(runs, q, j)
      requires Adapting(runs0[q][j], it, hash, other, qbits, slots.bps, extLen, extBits, countLen, h, o)
      requires AdaptSafe(runs0, q, j, Adapted(runs0[q][j], hash, other, qbits, slots.bps), xnslots)
      modifies Repr()
      ensures Valid() && runs == WithItem(runs0, q, j, it') && index == ItemPos(runs, q, j)
      ensures var goal := Adapted(runs0[q][j], hash, other, qbits, slots.bps);
              && Extends(it', runs0[q][j]) && Extends(goal, it') && extLen < |goal.ext|
              && (it'.cnt != [] ==> it' == runs0[q][j])
              && (full ==> it' == it && !AdaptFits(runs0, q, j, goal, xnslots) && !Room(Encs(runs), TailPos(runs, q, j), xnslots))
              && (!full && !again ==> it' == goal)
              && (!full ==> extBits' == TailBits(slots.bps, |it'.ext|))
      ensures !full && again ==>
                Adapting(runs0[q][j], it', hash, other, qbits, slots.bps, extLen + 1, extBits', 0, h', o')
      ensures nelts == old(nelts) && ndistinct_elts == old(ndistinct_elts)
    {
      hide Represents, Encode, Next, Start, Offset, Used, Total, Bump, Fits, Room, EdgeFree, AdaptSafe, AdaptFits,
           Adapted, ItemPos, TailPos, WithItem, Adapting, Low, Hashes.Shr, Extends, TailBits;
      var r := slots.bps;
      AdaptingStep(runs0[q][j], it, hash, other, qbits, r, extLen, extBits, countLen, h, o);
      AdaptRooms(runs0, q, j, it, Adapted(runs0[q][j], hash, other, qbits, r), xnslots);
      h', o', extBits', it' := Hashes.Shr(h, r), Hashes.Shr(o, r), extBits, it;
      full := AdaptStep(index, q, Low(h', r), extLen + 1, countLen, j);
      again := false;
      if !full {
        it' := Item(it.rem, it.ext + [Low(h', r)], []);
        EditTwice(runs0, q, j, it, it');
        extBits' := extBits + r;
        TailBitsNext(r, extLen);
        again := Low(h', r) == Low(o', r) && extBits' + qbits + r < 64;
      }
    }

    /** adapt (src/gqf.c:2451-2516) on item j of quotient q: chunks of the stored hash are appended
        until one differs from the false positive or 64 bits are covered. If the search for an empty
        slot runs past the end it stops early, with a shorter extension. */
    method Adapt(index: nat, q: nat, hash: nat, other: nat, ghost j: nat) returns (ret: int, ghost it: Item)
      requires Valid() && q < nslots && j < |runs[q]| && index == ItemPos(runs, q, j)
      requires AdaptSafe(runs, q, j, Adapted(runs[q][j], hash, other, qbits, slots.bps), xnslots)
      modifies Repr()
      ensures Valid() && runs == WithItem(old(runs), q, j, it)
      ensures var it0 := old(runs[q][j]);
              var goal := Adapted(it0, hash, other, qbits, slots.bps);
              Extends(it, it0) && Extends(goal, it) && (it.cnt != [] ==> it == it0) && (ret != -1 ==> it == goal)
              && (ret != -1 ==> ret == qbits + slots.bps + TailBits(slots.bps, |it.ext|))
      ensures ret == -1 ==>
                !old(AdaptFits(runs, q, j, Adapted(runs[q][j], hash, other, qbits, slots.bps), xnslots)) &&
                !Room(Encs(runs), TailPos(runs, q, j), xnslots)
      ensures nelts == old(nelts) && ndistinct_elts == old(ndistinct_elts)
    {
      hide Represents, Encode, Next, Start, Offset, Used, Total, AdaptSafe, AdaptFits,
           Adapted, ItemPos, WithItem, Adapting, Hashes.Shr, Extends, Value, ItemCount, TailBits, Room, TailPos;
      var r := slots.bps;
      ghost var runs0 := runs;
      it := runs[q][j];
      var ext: nat, extLen: nat, count: nat, countLen: nat := ItemInfo(index, q, j);
      var extBits: nat := TailBits(r, extLen);
      var h, o := Hashes.Shr(hash, extBits + qbits), Hashes.Shr(other, extBits + qbits);
      EditNothing(runs0, q, j);
      AdaptingStarts(it, hash, other, qbits, r);
      ghost var goal := Adapted(it, hash, other, qbits, r);
      var full, again := false, true;
      while again && !full
        invariant Valid() && runs == WithItem(runs0, q, j, it) && index == ItemPos(runs, q, j)
        invariant again && !full ==> Adapting(runs0[q][j], it, hash, other, qbits, r, extLen, extBits, countLen, h, o)
        invariant full || !again ==> Extends(it, runs0[q][j]) && Extends(goal, it)
        invariant it.cnt != [] ==> it == runs0[q][j]
        invariant nelts == old(nelts) && ndistinct_elts == old(ndistinct_elts)
        invariant full ==> !AdaptFits(runs0, q, j, goal, xnslots) && !Room(Encs(runs), TailPos(runs, q, j), xnslots)
        invariant !full && !again ==> it == goal && extBits == TailBits(r, |it.ext|)
        decreases |goal.ext| - extLen
      {
        full, again, h, o, extBits, it :=
          AdaptTurn(index, q, h, o, extLen, extBits, countLen, j, runs0, it, hash, other);
        extLen, countLen := extLen + 1, 0;
      }
      ret := if full then -1 else extBits + qbits + r;
    }

    /** get_slot_info on item j of quotient q. */
    method ItemInfo(index: nat, q: nat, ghost j: nat) returns (ext: nat, extLen: nat, count: nat, countLen: nat)
      requires Valid() && q < nslots && j < |runs[q]| && index == ItemPos(runs, q, j)
      ensures ext == Value(runs[q][j].ext, slots.bps) && extLen == |runs[q][j].ext|
      ensures count == ItemCount(runs[q][j], slots.bps) > 0 && countLen == |runs[q][j].cnt| <= 1
      ensures index + 1 + extLen == TailPos(runs, q, j) < n
    {
      hide Represents, StoredAt;
      RunReadable(runs, Cells(), occupieds[..], offsets[..], q, nslots, slots.bps, xnslots);
      ReadItem(Cells(), runs[q], Start(Encs(runs), q), slots.bps, xnslots, j);
      TailSlot(runs, Cells(), occupieds[..], offsets[..], nslots, slots.bps, xnslots, q, j);
      ItemCountPositive(runs[q][j], slots.bps);
      ext, extLen, count, countLen := GetSlotInfo(index, runs[q][j], j + 1 == |runs[q]|);
    }

    /** The search of qf_adapt_using_ll_table for the item of the given rank among those with the
        remainder. It does not look for the end of the run below the remainder, and need not. */
    method FindRankedItem(start: nat, rem: nat, rank: nat, ghost items: Run) returns (found: bool, index: nat)
      requires Shape() && Readable(Cells(), items, start, slots.bps, xnslots) && Sorted(items)
      requires rank < RankBefore(items, rem, |items|)
      ensures found && index == start + Offset(items, MinirunItem(items, rem, rank))
    {
      hide Readable, StoredAt, Offset, Sorted, ItemOk, MinirunItem, Seeking, RankBefore;
      ghost var j: nat := 0;
      var curr: nat, stop := 0, false;
      found, index := false, start;
      SeekStarts(items, rem, rank);
      ReadItem(Cells(), items, start, slots.bps, xnslots, 0);
      while !stop && index < xnslots
        invariant stop ==> found && index == start + Offset(items, MinirunItem(items, rem, rank))
        invariant !stop ==> start <= index < xnslots && j < |items| && Seeking(items, rem, rank, j, index - start, curr)
        decreases !stop, |items| - j
      {
        SeekStep(items, rem, rank, j, index - start, curr);
        ReadItem(Cells(), items, start, slots.bps, xnslots, j);
        var last, size;
        stop, found, last, size := RankedTurn(index, rem, curr == rank, items[j], j + 1 == |items|);
        if !stop {
          curr, index, j := if last then curr + 1 else curr, index + size, j + 1;
          SeekStep(items, rem, rank, j, index - start, curr);
          ReadItem(Cells(), items, start, slots.bps, xnslots, j);
        }
      }
    }

    /** One turn of that search. */
    method RankedTurn(index: nat, rem: nat, due: bool, ghost it: Item, ghost last: bool)
      returns (stop: bool, found: bool, same: bool, size: nat)
      requires Shape() && Holds(index, it, last) && ItemOk(it, slots.bps)
      ensures same <==> it.rem == rem
      ensures found <==> same && due
      ensures stop <==> it.rem > rem || (same && (due || last))
      ensures size == it.Size()
    {
      hide StoredAt;
      var v, end := ReadBase(index, it, last);
      var next := SkipItem(index, it, last);
      stop, found, same, size := v > rem, false, v == rem, next - index;
      if v == rem {
        var ext, extLen, count, countLen := GetSlotInfo(index, it, last);
        found, stop, size := due, due || end, 1 + extLen + countLen;
      }
    }

    /** qf_adapt_using_ll_table (src/gqf.c:2543-2587) with qf_adapt: the item of the given rank in the
        minirun of the false positive is extended; nothing happens for an unused quotient or for equal
        hashes. */
    method AdaptUsingRank(orig: nat, fp: nat, rank: nat) returns (ret: int, ghost it: Item)
      requires Valid() && Quotient(orig, qbits, slots.bps) == Quotient(fp, qbits, slots.bps)
      requires var items, rem := runs[Quotient(fp, qbits, slots.bps)], Remainder(fp, slots.bps);
               items != [] ==>
                 rank < RankBefore(items, rem, |items|) &&
                 AdaptSafe(runs, Quotient(fp, qbits, slots.bps), MinirunItem(items, rem, rank),
                           Adapted(items[MinirunItem(items, rem, rank)], orig, fp, qbits, slots.bps), xnslots)
      modifies Repr()
      ensures Valid()
      ensures old(runs[Quotient(fp, qbits, slots.bps)]) == [] ==> ret == 0 && runs == old(runs)
      ensures var q, rem := Quotient(fp, qbits, slots.bps), Remainder(fp, slots.bps);
              old(runs[q]) != [] ==>
                && ret == 1
                && var j := MinirunItem(old(runs[q]), rem, rank);
                   var it0 := old(runs[q])[j];
                   var goal := Adapted(it0, orig, fp, qbits, slots.bps);
                   && runs == WithItem(old(runs), q, j, it)
                   && (orig == fp ==> it == it0)
                   && (orig != fp ==> Extends(it, it0) && Extends(goal, it))
                   && (it.cnt != [] ==> it == it0)
                   && (orig != fp && AdaptFits(old(runs), q, j, goal, xnslots) ==> it == goal)
      ensures nelts == old(nelts) && ndistinct_elts == old(ndistinct_elts)
    {
      var q, rem := Quotient(fp, qbits, slots.bps), Remainder(fp, slots.bps);
      ghost var items := runs[q];
      RunReadable(runs, Cells(), occupieds[..], offsets[..], q, nslots, slots.bps, xnslots);
      if !occupieds[q] {
        it := Item(0, [], []);
        return 0, it;
      }
      ghost var j := MinirunItem(items, rem, rank);
      var start := RunStart(q);
      hide StoredAt, Readable, Represents, RankBefore, MinirunItem, Adapted, AdaptSafe, AdaptFits, Extends, WithItem;
      var found, index := FindRankedItem(start, rem, rank, items);
      it := items[j];
      EditNothing(runs, q, j);
      if found && orig != fp {
        var length;
        length, it := Adapt(index, q, orig, fp, j);
      }
      ret := 1;
    }

    /** The first counter slot of an item: shifted in behind the extensions and marked as counter. */
    method AddCounter(q: nat, ins: nat, v: nat, ghost j: nat)
      requires Valid() && q < nslots && j < |runs[q]| && runs[q][j].cnt == [] && 2 <= v < Pow2(slots.bps)
      requires ins == TailPos(runs, q, j) && ins < n && Room(Encs(runs), ins, xnslots)
      modifies Repr()
      ensures Valid() && noccupied_slots == old(noccupied_slots) + 1
      ensures nelts == old(nelts) && ndistinct_elts == old(ndistinct_elts)
      ensures runs == old(WithItem(runs, q, j, runs[q][j].(cnt := [v])))
    {
      hide Represents, Encode, Next, Start, Offset, Used, Total, Bump, FirstEmpty;
      ghost var cells, occ, off := Cells(), occupieds[..], offsets[..];
      var ret, e := InsertOneSlot(q, ins, v);
      CounterAdded(runs, cells, occ, off, nslots, slots.bps, xnslots, q, j, v, ins, e);
      assert ret == 1;
      MarkExtension(ins);
      MarkRunend(ins);
      assert Cells() == ShiftIn(cells, ins, e, Cell(false, false, v))[ins := Cell(true, true, v)];
      noccupied_slots := noccupied_slots + 1;
      runs := WithItem(runs, q, j, runs[q][j].(cnt := [v]));
    }

    /** The counter branch of insert_and_extend (src/gqf.c:1864-1884) with count 1, on an item whose
        counter stays within one slot. An existing counter slot is addressed by the extension's value
        instead of its length. If they coincide, the item is counted; if the value is smaller, a chunk of
        the item is overwritten; if it is larger, a slot behind the item. */
    method IncrementCounter(hash: nat, index: nat, ghost j: nat)
      requires Valid() && j < |runs[Quotient(hash, qbits, slots.bps)]|
      requires index == ItemPos(runs, Quotient(hash, qbits, slots.bps), j)
      requires var it := runs[Quotient(hash, qbits, slots.bps)][j];
               && ItemCount(it, slots.bps) + 1 < Pow2(slots.bps)
               && (if it.cnt != [] then CounterAddress(index, it, slots.bps) < n
                   else Room(Encs(runs), TailPos(runs, Quotient(hash, qbits, slots.bps), j), xnslots))
      modifies Repr()
      ensures var q := Quotient(hash, qbits, slots.bps);
              var it := old(runs[q][j]);
              it.cnt == [] || Value(it.ext, slots.bps) == |it.ext| ==>
                && Valid() && runs == WithItem(old(runs), q, j, it.(cnt := [ItemCount(it, slots.bps) + 1]))
                && noccupied_slots == old(noccupied_slots) + if it.cnt == [] then 1 else 0
      ensures var q := Quotient(hash, qbits, slots.bps);
              var it := old(runs[q][j]);
              |it.cnt| == 1 && Value(it.ext, slots.bps) < |it.ext| ==>
                Valid() && runs == WithItem(old(runs), q, j, Strayed(it, slots.bps))
                    && noccupied_slots == old(noccupied_slots)
      ensures old(runs[Quotient(hash, qbits, slots.bps)][j].cnt) != [] ==>
                StrayedAt(CounterAddress(index, old(runs[Quotient(hash, qbits, slots.bps)][j]), slots.bps),
                          old(Cells()), old(occupieds[..]), old(offsets[..]),
                          ItemCount(old(runs[Quotient(hash, qbits, slots.bps)][j]), slots.bps) + 1)
      ensures nelts == old(nelts) + 1 && ndistinct_elts == old(ndistinct_elts)
    {
      hide Represents, Encode, Next, Start, Offset, Used, Total, Room, Value, WithItem, StrayedAt, Strayed, ItemPos,
          ItemCount;
      var q := Quotient(hash, qbits, slots.bps);
      var ext, extLen, counter, counterLen := ItemInfo(index, q, j);
      if counterLen > 0 {
        OneDigit(runs[q][j], slots.bps);
        OverwriteSlot(q, index, index + 1 + ext, counter + 1, j);
      } else {
        AddCounter(q, index + 1 + extLen, counter + 1, j);
      }
      nelts := nelts + 1;
    }

    /** Just the slot at `a` has changed, to v. */
    ghost predicate StrayedAt(a: nat, cells: seq<Cell>, occ: seq<bool>, off: seq<nat>, v: nat)
      reads occupieds, runends, extensions, offsets, slots, slots.bits
    {
      Shape() && a < |cells| && Cells() == cells[a := cells[a].(val := v)] && occupieds[..] == occ && offsets[..] == off
    }

    /** The write for an item with a counter. */
    method OverwriteSlot(q: nat, index: nat, p: nat, v: nat, ghost j: nat)
      requires Valid() && q < nslots && j < |runs[q]| && |runs[q][j].cnt| == 1 && 2 <= v == runs[q][j].cnt[0]
               + 1 < Pow2(slots.bps)
      requires index == ItemPos(runs, q, j) && p == CounterAddress(index, runs[q][j], slots.bps) < n
      modifies Repr()
      ensures var it, r := old(runs[q][j]), slots.bps;
              && (Value(it.ext, r) == |it.ext| ==> Valid() && runs == old(WithItem(runs, q, j,
                  runs[q][j].(cnt := [v]))))
              && (Value(it.ext, r) < |it.ext| ==> Valid() && runs == WithItem(old(runs), q, j, Strayed(it, r)))
              && StrayedAt(p, old(Cells()), old(occupieds[..]), old(offsets[..]), v)
      ensures noccupied_slots == old(noccupied_slots) && nelts == old(nelts) && ndistinct_elts == old(ndistinct_elts)
    {
      hide Represents, Encode, Next, Start, Offset, Used, Total, Value;
      ghost var cells, it := Cells(), runs[q][j];
      ghost var value := Value(it.ext, slots.bps);
      if value == |it.ext| {
        CounterSet(runs, cells, occupieds[..], offsets[..], nslots, slots.bps, xnslots, q, j, v, p);
        runs := WithItem(runs, q, j, it.(cnt := [v]));
      } else if value < |it.ext| {
        ChunkSet(runs, cells, occupieds[..], offsets[..], nslots, slots.bps, xnslots, q, j, value, v, p);
        runs := WithItem(runs, q, j, Strayed(it, slots.bps));
      }
      SetSlot(p, v);
      assert cells[p].IsCounter() ==> cells[p].(val := v) == Cell(true, true, v);
      assert cells[p].IsExtension() ==> cells[p].(val := v) == Cell(false, true, v);
    }
  }
}
