/** The reverse map of db/splinter_db.hpp over src/splinter_util.c: for every minirun the list of keys
    whose fingerprints are in it, kept by a log-structured store as messages that are merged lazily. */
module ReverseMap {
  import opened Numbers
  import opened Hashes

  type byte = x: nat | x < 256

  const MAX_KEY_SIZE: nat := 16
  const MAX_VAL_SIZE: nat := 16
  const WORD_SIZE: nat := 8

  // ---- bytes --------------------------------------------------------------------------------

  /** The n low bytes of v, least significant first. */
  function ToBytes(v: nat, n: nat): (b: seq<byte>)
    ensures |b| == n
  {
    if n == 0 then [] else [v % 256] + ToBytes(v / 256, n - 1)
  }

  function FromBytes(b: seq<byte>): nat {
    if b == [] then 0 else b[0] + 256 * FromBytes(b[1..])
  }

  lemma Pow2Byte(n: nat)
    ensures Pow2(8 + n) == 256 * Pow2(n)
  {
    assert Pow2(8) == 256;
    Pow2Add(8, n);
  }

  lemma {:induction false} BytesRoundTrip(v: nat, n: nat)
    requires v < Pow2(8 * n)
    ensures FromBytes(ToBytes(v, n)) == v
  {
    if n == 0 {
    } else {
      Pow2Byte(8 * (n - 1));
      BytesRoundTrip(v / 256, n - 1);
      assert ToBytes(v, n)[1..] == ToBytes(v / 256, n - 1);
    }
  }

  function Fill(n: nat, b: byte): (s: seq<byte>)
    ensures |s| == n && forall i | 0 <= i < n :: s[i] == b
  {
    seq(n, _ => b)
  }

  /** What pad_data leaves in a buffer of `size` bytes that held `was`. */
  function Padded(src: seq<byte>, was: seq<byte>, flagged: bool): (d: seq<byte>)
    ensures |d| == |was|
  {
    if |was| < |src| then was else src + Fill(|was| - |src|, if flagged then 255 else 0)
  }

  /** pad_data (src/splinter_util.c:41-46) */
  method PadData(dest: array<byte>, src: seq<byte>, flagged: bool)
    modifies dest
    ensures dest[..] == Padded(src, old(dest[..]), flagged)
  {
    if dest.Length < |src| {
      return;
    }
    var i := 0;
    while i < dest.Length
      invariant i <= dest.Length && forall k | 0 <= k < i :: dest[k] == if flagged then 255 else 0
    {
      dest[i] := if flagged then 255 else 0;
      i := i + 1;
    }
    i := 0;
    while i < |src|
      invariant i <= |src|
      invariant forall k | 0 <= k < dest.Length :: dest[k] == if k < i then src[k] else if flagged then 255 else 0
    {
      dest[i] := src[i];
      i := i + 1;
    }
  }

  /** A 64-bit word in a zero-padded 16-byte slice. */
  function Entry(v: nat): (e: seq<byte>)
    ensures |e| == 16 && e[..8] == ToBytes(v, 8)
  {
    Padded(ToBytes(v, WORD_SIZE), Fill(MAX_VAL_SIZE, 0), false)
  }

  lemma EntryInjective(v: nat, w: nat)
    requires v < Pow2(64) && w < Pow2(64) && Entry(v) == Entry(w)
    ensures v == w
  {
    BytesRoundTrip(v, 8);
    BytesRoundTrip(w, 8);
  }

  /** The bytes of a list of keys. */
  function Data(list: seq<nat>): (d: seq<byte>)
    ensures |d| == 16 * |list|
  {
    if list == [] then [] else Entry(list[0]) + Data(list[1..])
  }

  lemma {:induction false} DataAt(list: seq<nat>, k: nat)
    requires k < |list|
    ensures Data(list)[16 * k..16 * k + 16] == Entry(list[k])
  {
    if k == 0 {
    } else {
      DataAt(list[1..], k - 1);
      assert Data(list)[16 * k..16 * k + 16] == Data(list[1..])[16 * (k - 1)..16 * (k - 1) + 16];
    }
  }

  lemma FirstWord(d: seq<byte>, a: nat)
    requires a + 16 <= |d|
    ensures d[a..a + 16][..8] == d[a..a + 8]
  {
  }

  /** Reading the word at entry k of a list gives back the key. */
  lemma WordOfEntry(list: seq<nat>, k: nat)
    requires k < |list| && list[k] < Pow2(64)
    ensures FromBytes(Data(list)[16 * k..16 * k + 8]) == list[k]
  {
    DataAt(list, k);
    BytesRoundTrip(list[k], 8);
    FirstWord(Data(list), 16 * k);
  }

  // ---- messages and merging -----------------------------------------------------------------

  datatype Message = Message(isInsert: bool, data: seq<byte>)

  /** Two neighbouring messages of one key as one: an insert hides everything older; an update is put
      in front of the older data. */
  function Merge(newer: Message, older: Message): Message {
    if newer.isInsert then newer else Message(older.isInsert, newer.data + older.data)
  }

  /** All messages of a key, newest first, merged from the oldest on. */
  function Fold(log: seq<Message>): Message
    requires log != []
  {
    if |log| == 1 then log[0] else Merge(log[0], Fold(log[1..]))
  }

  lemma MergeAssociative(a: Message, b: Message, c: Message)
    ensures Merge(Merge(a, b), c) == Merge(a, Merge(b, c))
  {
    assert a.data + b.data + c.data == a.data + (b.data + c.data);
  }

  lemma {:induction false} FoldConcat(a: seq<Message>, b: seq<Message>)
    requires a != [] && b != []
    ensures Fold(a + b) == Merge(Fold(a), Fold(b))
  {
    if |a| == 1 {
      assert (a + b)[1..] == b;
    } else {
      assert (a + b)[1..] == a[1..] + b;
      FoldConcat(a[1..], b);
      MergeAssociative(a[0], Fold(a[1..]), Fold(b));
    }
  }

  lemma FoldReplace(a: seq<Message>, m: seq<Message>, m': seq<Message>, b: seq<Message>)
    requires m != [] && m' != [] && Fold(m) == Fold(m')
    ensures Fold(a + m + b) == Fold(a + m' + b)
  {
    if a == [] {
      assert a + m == m && a + m' == m';
    } else {
      FoldConcat(a, m);
      FoldConcat(a, m');
    }
    if b == [] {
      assert a + m + b == a + m && a + m' + b == a + m';
    } else {
      FoldConcat(a + m, b);
      FoldConcat(a + m', b);
    }
  }

  lemma MergedInPlace(a: seq<Message>, x: Message, y: Message, b: seq<Message>)
    ensures Fold(a + [Merge(x, y)] + b) == Fold(a + [x, y] + b)
  {
    assert [x, y][1..] == [y];
    FoldReplace(a, [x, y], [Merge(x, y)], b);
  }

  /** An order in which a store may merge the messages of a key. */
  datatype Grouping = One(m: Message) | Two(newer: Grouping, older: Grouping) {
    function Messages(): (log: seq<Message>)
      ensures log != []
    {
      match this
      case One(m) => [m]
      case Two(a, b) => a.Messages() + b.Messages()
    }

    function Result(): Message {
      match this
      case One(m) => m
      case Two(a, b) => Merge(a.Result(), b.Result())
    }
  }

  /** However the messages are grouped, the merged list is the same. */
  lemma {:induction false} GroupingIndependent(g: Grouping)
    ensures g.Result() == Fold(g.Messages())
  {
    match g
    case One(m) =>
    case Two(a, b) =>
      GroupingIndependent(a);
      GroupingIndependent(b);
      FoldConcat(a.Messages(), b.Messages());
  }

  /** The store's growing result of a merge. */
  class MergeAccumulator {
    var data: array<byte>

    constructor (initial: seq<byte>)
      ensures fresh(data) && data[..] == initial
    {
      data := new byte[|initial|](i requires 0 <= i < |initial| => initial[i]);
    }

    /** merge_accumulator_resize: the bytes that fit are kept. */
    method Resize(n: nat)
      requires n >= data.Length
      modifies this
      ensures fresh(data) && data.Length == n && data[..old(data.Length)] == old(data[..])
    {
      var was := data;
      data := new byte[n](i requires 0 <= i < n reads was => if i < was.Length then was[i] else 0);
    }

    /** merge_tuples (src/splinter_util.c:4-12): the old message goes behind the new one. */
    method MergeTuples(old_message: seq<byte>)
      modifies this
      ensures fresh(data) && data[..] == old(data[..]) + old_message
    {
      ghost var was := data[..];
      var length := data.Length;
      Resize(|old_message| + length);
      var i := 0;
      while i < |old_message|
        modifies data
        invariant i <= |old_message| && data.Length == |old_message| + length
        invariant data[..length + i] == was + old_message[..i]
      {
        data[length + i] := old_message[i];
        i := i + 1;
      }
    }
  }

  /** The key under which a minirun id is stored: the id in the high bits of a word, padded. */
  function Slice(id: nat, qr: nat): seq<byte>
    requires qr <= 64
  {
    Entry(id * Pow2(64 - qr))
  }

  lemma SliceInjective(id: nat, jd: nat, qr: nat)
    requires qr <= 64 && id < Pow2(qr) && jd < Pow2(qr) && Slice(id, qr) == Slice(jd, qr)
    ensures id == jd
  {
    hide Pow2, Entry;
    var p := Pow2(64 - qr);
    Pow2Add(qr, 64 - qr);
    MulStep(id, Pow2(qr), p);
    MulStep(jd, Pow2(qr), p);
    EntryInjective(id * p, jd * p);
    DivModUnique(id * p, p, id, 0);
    DivModUnique(id * p, p, jd, 0);
  }

  ghost function ListOf(lists: map<nat, seq<nat>>, id: nat): seq<nat> {
    if id in lists then lists[id] else []
  }

  /** The lists after a key was put: alone with rank 0, otherwise in front of the list. */
  ghost function Put(lists: map<nat, seq<nat>>, id: nat, rank: nat, key: nat): map<nat, seq<nat>> {
    lists[id := [key] + if rank > 0 then ListOf(lists, id) else []]
  }

  /** The messages stored for a minirun spell its list of keys. */
  ghost predicate Spells(log: seq<Message>, list: seq<nat>) {
    log != [] && list != [] && Fold(log).data == Data(list) && forall k | 0 <= k < |list| :: list[k] < Pow2(64)
  }

  ghost predicate StoreOk(logs: map<seq<byte>, seq<Message>>, lists: map<nat, seq<nat>>, qr: nat)
    requires qr <= 64
  {
    && (forall id {:trigger lists[id]} | id in lists :: id < Pow2(qr) && Slice(id, qr) in logs && Spells(logs[Slice(id, qr)], lists[id]))
    && (forall id: nat {:trigger id in lists} | id < Pow2(qr) && Slice(id, qr) in logs :: id in lists)
  }

  /** One message more for one minirun. */
  lemma PutKeepsStore(logs: map<seq<byte>, seq<Message>>, lists: map<nat, seq<nat>>, qr: nat, id: nat,
                      log: seq<Message>, list: seq<nat>)
    requires qr <= 64 && StoreOk(logs, lists, qr) && id < Pow2(qr) && Spells(log, list)
    ensures StoreOk(logs[Slice(id, qr) := log], lists[id := list], qr)
  {
    hide Slice, Spells, Pow2;
    forall jd: nat | jd < Pow2(qr) && jd != id
      ensures Slice(jd, qr) != Slice(id, qr)
    {
      if Slice(jd, qr) == Slice(id, qr) {
        SliceInjective(id, jd, qr);
      }
    }
  }

  /** What an inserted or updated key does to a list. */
  lemma PutSpells(isUpdate: bool, key: nat, log: seq<Message>, list: seq<nat>)
    requires key < Pow2(64) && (log == [] || Spells(log, list)) && (log == [] ==> list == [])
    ensures Spells([Message(!isUpdate, Entry(key))] + log, [key] + if isUpdate then list else [])
  {
    hide Pow2, Entry;
    var m := Message(!isUpdate, Entry(key));
    var list' := [key] + if isUpdate then list else [];
    assert ([m] + log)[1..] == log;
    assert list'[1..] == if isUpdate then list else [];
    assert Data(list') == Entry(key) + Data(list'[1..]);
    assert Data([]) == [];
  }

  // ---- the store ----------------------------------------------------------------------------

  class SplinterDB {
    const quotient_remainder_bits: nat
    var logs: map<seq<byte>, seq<Message>>
    /** The keys of every minirun that has any. */
    ghost var lists: map<nat, seq<nat>>

    ghost predicate Valid()
      reads this
    {
      1 <= quotient_remainder_bits <= 64 && StoreOk(logs, lists, quotient_remainder_bits)
    }

    /** The list of a minirun; empty if there is none. */
    ghost function List(id: nat): seq<nat>
      reads this
    {
      ListOf(lists, id)
    }

    constructor (qr: nat)
      requires 1 <= qr <= 64
      ensures Valid() && quotient_remainder_bits == qr && lists == map[]
    {
      quotient_remainder_bits, logs, lists := qr, map[], map[];
    }

    /** db_insert: an insert replaces what is stored, an update is merged with it. */
    method DbInsert(k: seq<byte>, v: nat, isUpdate: bool)
      modifies this
      ensures logs == old(logs)[k := [Message(!isUpdate, Entry(v))] + if k in old(logs) then old(logs)[k] else []]
      ensures lists == old(lists)
    {
      var padded := new byte[MAX_VAL_SIZE](_ => 0);
      PadData(padded, ToBytes(v, WORD_SIZE), false);
      assert padded[..] == Entry(v);
      logs := logs[k := [Message(!isUpdate, padded[..])] + if k in logs then logs[k] else []];
    }

    /** insertFingerprint (db/splinter_db.hpp:53-66): with rank 0 the minirun's list becomes just this
        key, otherwise the key is put in front of it. */
    method InsertFingerprint(fingerprint: nat, rank: nat, key: nat)
      requires Valid() && key < Pow2(64)
      modifies this
      ensures Valid()
      ensures lists == Put(old(lists), Low(fingerprint, quotient_remainder_bits), rank, key)
    {
      hide StoreOk, Spells, Slice;
      var id := Low(fingerprint, quotient_remainder_bits);
      var k := Slice(id, quotient_remainder_bits);
      ghost var log := if k in logs then logs[k] else [];
      Stored(id);
      PutSpells(rank > 0, key, log, List(id));
      PutKeepsStore(logs, lists, quotient_remainder_bits, id, [Message(rank == 0, Entry(key))] + log,
                    [key] + if rank > 0 then List(id) else []);
      DbInsert(k, key, rank > 0);
      lists := lists[id := [key] + if rank > 0 then List(id) else []];
    }

    lemma Stored(id: nat)
      requires Valid() && id < Pow2(quotient_remainder_bits)
      ensures var k := Slice(id, quotient_remainder_bits);
              (k in logs <==> id in lists) && (k in logs ==> Spells(logs[k], lists[id]))
    {
      if id in lists {
        assert Spells(logs[Slice(id, quotient_remainder_bits)], lists[id]);
      }
    }

    /** The lookup merges messages from the newest on, up to an insert. */
    method Lookup(k: seq<byte>) returns (found: bool, data: seq<byte>)
      requires k in logs ==> logs[k] != []
      ensures found <==> k in logs
      ensures found ==> data == Fold(logs[k]).data
    {
      if k !in logs {
        return false, [];
      }
      var log := logs[k];
      var acc := new MergeAccumulator(log[0].data);
      var i, done := 1, log[0].isInsert;
      assert log[..1] == [log[0]];
      while !done && i < |log|
        invariant 1 <= i <= |log| && fresh(acc) && fresh(acc.data) && done == Fold(log[..i]).isInsert
        invariant acc.data[..] == Fold(log[..i]).data
        decreases |log| - i
      {
        FoldConcat(log[..i], [log[i]]);
        assert log[..i] + [log[i]] == log[..i + 1];
        acc.MergeTuples(log[i].data);
        done := log[i].isInsert;
        i := i + 1;
      }
      if i < |log| {
        assert log[..i] + log[i..] == log;
        FoldConcat(log[..i], log[i..]);
      } else {
        assert log[..i] == log;
      }
      return true, acc.data[..];
    }

    /** getFingerprint (db/splinter_db.hpp:83-104): the key at the given rank of the minirun's list. */
    method GetFingerprint(fingerprint: nat, rank: nat) returns (ret: int, value: nat)
      requires Valid()
      requires var list := List(Low(fingerprint, quotient_remainder_bits)); list != [] ==> rank < |list|
      ensures var list := List(Low(fingerprint, quotient_remainder_bits));
              if list == [] then ret == -1 else ret == 0 && value == list[rank]
    {
      var id := Low(fingerprint, quotient_remainder_bits);
      Stored(id);
      var found, data := Lookup(Slice(id, quotient_remainder_bits));
      if !found {
        return -1, 0;
      }
      WordOfEntry(lists[id], rank);
      return 0, FromBytes(data[rank * MAX_KEY_SIZE..rank * MAX_KEY_SIZE + WORD_SIZE]);
    }

    /** The store may merge neighbouring messages of a key at any time; no list changes. */
    method Compact(k: seq<byte>, i: nat)
      requires Valid() && k in logs && i + 1 < |logs[k]|
      modifies this`logs
      ensures Valid() && logs.Keys == old(logs.Keys) && |logs[k]| == |old(logs[k])| - 1
    {
      var log := logs[k];
      MergedInPlace(log[..i], log[i], log[i + 1], log[i + 2..]);
      assert log == log[..i] + [log[i], log[i + 1]] + log[i + 2..];
      logs := logs[k := log[..i] + [Merge(log[i], log[i + 1])] + log[i + 2..]];
    }
  }
}
