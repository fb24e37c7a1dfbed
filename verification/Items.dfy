/** Items of a run and their encoding into cells: a base cell with the remainder, then the extension
    cells, then the counter cells; the last item's base cell carries the run-end mark. */
module Items {
  import opened Layout
  import opened RankSelect

  datatype Item = Item(rem: nat, ext: seq<nat>, cnt: seq<nat>) {
    function Size(): nat { 1 + |ext| + |cnt| }
  }

  function Tail(it: Item): (e: Enc)
    ensures |e| == |it.ext| + |it.cnt|
    ensures forall i | 0 <= i < |e| :: e[i].ext
    ensures forall i | 0 <= i < |it.ext| :: e[i] == Cell(false, true, it.ext[i])
    ensures forall i | |it.ext| <= i < |e| :: e[i] == Cell(true, true, it.cnt[i - |it.ext|])
  {
    seq(|it.ext|, i requires 0 <= i < |it.ext| => Cell(false, true, it.ext[i]))
    + seq(|it.cnt|, i requires 0 <= i < |it.cnt| => Cell(true, true, it.cnt[i]))
  }

  function EncodeItem(it: Item, last: bool): (e: Enc)
    ensures |e| == it.Size()
  {
    [Cell(last, false, it.rem)] + Tail(it)
  }

  function Encode(items: seq<Item>): (e: Enc)
    ensures items != [] <==> e != []
  {
    if items == [] then [] else EncodeItem(items[0], |items| == 1) + Encode(items[1..])
  }

  /** The encoding of items that are followed by further items. */
  function EncodePrefix(items: seq<Item>): (e: Enc) {
    if items == [] then [] else EncodeItem(items[0], false) + EncodePrefix(items[1..])
  }

  /** The position of item j in the encoding of its run. */
  function Offset(items: seq<Item>, j: nat): (o: nat)
    requires j <= |items|
  {
    if j == 0 then 0 else items[0].Size() + Offset(items[1..], j - 1)
  }

  lemma {:induction false} OffsetStep(items: seq<Item>, j: nat)
    requires j < |items|
    ensures Offset(items, j + 1) == Offset(items, j) + items[j].Size()
  {
    if j == 0 {
    } else {
      OffsetStep(items[1..], j - 1);
    }
  }

  lemma {:induction false} EncodePrefixLength(items: seq<Item>, j: nat)
    requires j <= |items|
    ensures |EncodePrefix(items[..j])| == Offset(items, j)
  {
    if j == 0 {
    } else {
      assert items[..j][1..] == items[1..][..j - 1];
      EncodePrefixLength(items[1..], j - 1);
    }
  }

  lemma {:induction false} EncodeAt(items: seq<Item>, j: nat)
    requires j <= |items| && (j == |items| ==> items == [])
    ensures Encode(items) == EncodePrefix(items[..j]) + Encode(items[j..])
  {
    if j == 0 {
      assert items[0..] == items;
    } else {
      var rest := items[1..];
      EncodeAt(rest, j - 1);
      assert items[..j][1..] == rest[..j - 1];
      assert items[j..] == rest[j - 1..];
      var h, p, t := EncodeItem(items[0], false), EncodePrefix(rest[..j - 1]), Encode(rest[j - 1..]);
      assert h + (p + t) == (h + p) + t;
    }
  }

  /** A run is: the items before j, item j, the items behind it. */
  lemma {:induction false} EncodeSplit(items: seq<Item>, j: nat)
    requires j < |items|
    ensures |EncodePrefix(items[..j])| == Offset(items, j)
    ensures Encode(items) == EncodePrefix(items[..j]) + EncodeItem(items[j], j + 1 == |items|) + Encode(items[j + 1..])
  {
    EncodePrefixLength(items, j);
    EncodeAt(items, j);
    assert items[j..][1..] == items[j + 1..];
  }

  lemma {:induction false} EncodeLength(items: seq<Item>)
    ensures |Encode(items)| == Offset(items, |items|)
  {
    if items == [] {
    } else {
      EncodeLength(items[1..]);
    }
  }

  /** What the cells of a run say about item j. */
  lemma {:induction false} ItemCells(items: seq<Item>, j: nat)
    requires j < |items|
    ensures var e, o, it := Encode(items), Offset(items, j), items[j];
            && o + it.Size() <= |e|
            && e[o] == Cell(j + 1 == |items|, false, it.rem)
            && (forall i | o + 1 <= i < o + 1 + |it.ext| :: e[i] == Cell(false, true, it.ext[i - o - 1]))
            && (forall i | o + 1 + |it.ext| <= i < o + it.Size() ::
                e[i] == Cell(true, true, it.cnt[i - o - 1 - |it.ext|]))
            && (j + 1 < |items| ==> o + it.Size() < |e| && !e[o + it.Size()].ext)
            && (j + 1 == |items| ==> o + it.Size() == |e|)
  {
    EncodeSplit(items, j);
  }

  lemma {:induction false} PrefixHasNoRunEnd(items: seq<Item>)
    ensures forall i | 0 <= i < |EncodePrefix(items)| :: !EncodePrefix(items)[i].IsRunEnd()
  {
    if items == [] {
    } else {
      PrefixHasNoRunEnd(items[1..]);
    }
  }

  lemma {:induction false} EncodeWellFormed(items: seq<Item>)
    ensures WellFormed(Encode(items))
  {
    if items == [] {
    } else {
      var j := |items| - 1;
      EncodeSplit(items, j);
      PrefixHasNoRunEnd(items[..j]);
      assert items[j + 1..] == [];
      assert EndsAt(Encode(items), Offset(items, j));
      ItemCells(items, 0);
    }
  }

  lemma InsertInMiddle<T>(a: seq<T>, b: seq<T>, c: seq<T>, k: nat, x: T)
    requires k <= |b|
    ensures InsertAt(a + b + c, |a| + k, x) == a + InsertAt(b, k, x) + c
  {
  }

  lemma UpdateInMiddle<T>(a: seq<T>, b: seq<T>, c: seq<T>, k: nat, x: T)
    requires k < |b|
    ensures (a + b + c)[|a| + k := x] == a + b[k := x] + c
  {
  }

  lemma UpdateInserted<T>(a: seq<T>, x: T, y: T)
    ensures InsertAt(a, |a|, x)[|a| := y] == a + [y]
  {
  }

  lemma SingleItemCells(rem: nat)
    ensures Encode([Item(rem, [], [])]) == [Cell(true, false, rem)]
  {
    assert Tail(Item(rem, [], [])) == [];
  }

  // ---- edits of a run, as edits of its cells ---------------------------------------------

  function InsertItem(items: seq<Item>, j: nat, it: Item): (r: seq<Item>)
    requires j <= |items|
    ensures |r| == |items| + 1
    ensures forall i | 0 <= i < |r| :: r[i] == if i < j then items[i] else if i == j then it else items[i - 1]
  {
    items[..j] + [it] + items[j..]
  }

  /** A new item in front of item j is one more base cell. */
  lemma {:induction false} InsertItemCells(items: seq<Item>, j: nat, rem: nat)
    requires j < |items|
    ensures Offset(items, j) <= |Encode(items)|
    ensures Encode(InsertItem(items, j, Item(rem, [], [])))
         == InsertAt(Encode(items), Offset(items, j), Cell(false, false, rem))
  {
    var it := Item(rem, [], []);
    var items' := InsertItem(items, j, it);
    var a, d := EncodePrefix(items[..j]), Encode(items[j..]);
    assert Encode(items) == a + d && |a| == Offset(items, j) by {
      EncodeAt(items, j);
      EncodePrefixLength(items, j);
    }
    assert Encode(items') == a + [Cell(false, false, rem)] + d by {
      EncodeSplit(items', j);
      assert items'[..j] == items[..j];
      assert items'[j + 1..] == items[j..];
      assert EncodeItem(it, false) == [Cell(false, false, rem)];
    }
    InsertInMiddle(a, [], d, 0, Cell(false, false, rem));
    assert a + [] + d == a + d;
    assert InsertAt([], 0, Cell(false, false, rem)) == [Cell(false, false, rem)];
  }

  /** A new item behind the last one takes over the run-end mark. */
  lemma {:induction false} AppendItemCells(items: seq<Item>, rem: nat)
    requires items != []
    ensures var e, o := Encode(items), Offset(items, |items| - 1);
            && o < |e|
            && Encode(InsertItem(items, |items|, Item(rem, [], [])))
               == InsertAt(e, |e|, Cell(false, false, rem))[|e| := Cell(true, false, rem)][o := e[o].(run := false)]
  {
    var j := |items| - 1;
    var items' := InsertItem(items, |items|, Item(rem, [], []));
    var c := Cell(true, false, rem);
    var a, b, b' := EncodePrefix(items[..j]), EncodeItem(items[j], true), EncodeItem(items[j], false);
    assert Encode(items) == a + b && |a| == Offset(items, j) by {
      EncodeSplit(items, j);
      assert items[j + 1..] == [];
    }
    assert Encode(items') == a + b' + [c] by {
      EncodeSplit(items', j);
      assert items'[..j] == items[..j];
      assert items'[j + 1..] == [Item(rem, [], [])];
      SingleItemCells(rem);
    }
    assert b' == b[0 := b[0].(run := false)];
    hide Encode, EncodePrefix, EncodeItem, Offset;
    UpdateInserted(a + b, Cell(false, false, rem), c);
    UpdateInMiddle(a, b, [c], 0, b[0].(run := false));
  }

  lemma {:induction false} FirstItemCells(rem: nat)
    ensures Encode(InsertItem([], 0, Item(rem, [], []))) == InsertAt([], 0,
            Cell(false, false, rem))[0 := Cell(true, false, rem)]
  {
    assert InsertItem([], 0, Item(rem, [], [])) == [Item(rem, [], [])];
    SingleItemCells(rem);
  }

  lemma {:induction false} ReplaceItemCells(items: seq<Item>, j: nat, it: Item)
    requires j < |items|
    ensures Encode(items[j := it])
         == EncodePrefix(items[..j]) + EncodeItem(it, j + 1 == |items|) + Encode(items[j + 1..])
  {
    EncodeSplit(items[j := it], j);
    assert items[j := it][..j] == items[..j];
    assert items[j := it][j + 1..] == items[j + 1..];
  }

  /** One more extension chunk on an item without counter is one more extension cell. */
  lemma {:induction false} ExtendCells(items: seq<Item>, j: nat, v: nat)
    requires j < |items| && items[j].cnt == []
    ensures var p := Offset(items, j) + 1 + |items[j].ext|;
            && p <= |Encode(items)|
            && Encode(items[j := items[j].(ext := items[j].ext + [v])])
               == InsertAt(Encode(items), p, Cell(false, false, v))[p := Cell(false, true, v)]
  {
    var it := items[j];
    var it' := it.(ext := it.ext + [v]);
    EncodeSplit(items, j);
    ReplaceItemCells(items, j, it');
    var last := j + 1 == |items|;
    var a, b, c := EncodePrefix(items[..j]), EncodeItem(it, last), Encode(items[j + 1..]);
    InsertInMiddle(a, b, c, 1 + |it.ext|, Cell(false, false, v));
    assert EncodeItem(it', last) == InsertAt(b, 1 + |it.ext|, Cell(false, false, v))[1
        + |it.ext| := Cell(false, true, v)];
    UpdateInMiddle(a, InsertAt(b, 1 + |it.ext|, Cell(false, false, v)), c, 1 + |it.ext|, Cell(false, true, v));
  }

  /** Turning the only counter cell into an extension cell. */
  lemma {:induction false} ReuseCounterCells(items: seq<Item>, j: nat, v: nat)
    requires j < |items| && |items[j].cnt| == 1
    ensures var p := Offset(items, j) + 1 + |items[j].ext|;
            && p < |Encode(items)|
            && Encode(items)[p].IsCounter()
            && Encode(items[j := Item(items[j].rem, items[j].ext + [v], [])])
               == Encode(items)[p := Cell(false, true, v)]
  {
    var it := items[j];
    var it' := Item(it.rem, it.ext + [v], []);
    EncodeSplit(items, j);
    ReplaceItemCells(items, j, it');
    var last := j + 1 == |items|;
    var a, b, c := EncodePrefix(items[..j]), EncodeItem(it, last), Encode(items[j + 1..]);
    assert EncodeItem(it', last) == b[1 + |it.ext| := Cell(false, true, v)];
    UpdateInMiddle(a, b, c, 1 + |it.ext|, Cell(false, true, v));
  }

  /** The first counter cell of an item that has none. */
  lemma {:induction false} AddCounterCells(items: seq<Item>, j: nat, v: nat)
    requires j < |items| && items[j].cnt == []
    ensures var p := Offset(items, j) + 1 + |items[j].ext|;
            && p <= |Encode(items)|
            && Encode(items[j := items[j].(cnt := [v])])
               == InsertAt(Encode(items), p, Cell(false, false, v))[p := Cell(true, true, v)]
  {
    var it := items[j];
    var it' := it.(cnt := [v]);
    EncodeSplit(items, j);
    ReplaceItemCells(items, j, it');
    var last := j + 1 == |items|;
    var a, b, c := EncodePrefix(items[..j]), EncodeItem(it, last), Encode(items[j + 1..]);
    InsertInMiddle(a, b, c, 1 + |it.ext|, Cell(false, false, v));
    assert EncodeItem(it', last) == InsertAt(b, 1 + |it.ext|, Cell(false, false, v))[1
        + |it.ext| := Cell(true, true, v)];
    UpdateInMiddle(a, InsertAt(b, 1 + |it.ext|, Cell(false, false, v)), c, 1 + |it.ext|, Cell(true, true, v));
  }

  /** Rewriting the value of the only counter cell. */
  lemma {:induction false} SetCounterCells(items: seq<Item>, j: nat, v: nat)
    requires j < |items| && |items[j].cnt| == 1
    ensures var p := Offset(items, j) + 1 + |items[j].ext|;
            && p < |Encode(items)|
            && Encode(items[j := items[j].(cnt := [v])]) == Encode(items)[p := Cell(true, true, v)]
  {
    var it := items[j];
    EncodeSplit(items, j);
    ReplaceItemCells(items, j, it.(cnt := [v]));
    var last := j + 1 == |items|;
    var a, b, c := EncodePrefix(items[..j]), EncodeItem(it, last), Encode(items[j + 1..]);
    assert EncodeItem(it.(cnt := [v]), last) == b[1 + |it.ext| := Cell(true, true, v)];
    UpdateInMiddle(a, b, c, 1 + |it.ext|, Cell(true, true, v));
  }

  lemma {:induction false} SetChunkCells(items: seq<Item>, j: nat, k: nat, v: nat)
    requires j < |items| && k < |items[j].ext|
    ensures var p := Offset(items, j) + 1 + k;
            && p < |Encode(items)|
            && Encode(items[j := items[j].(ext := items[j].ext[k := v])]) == Encode(items)[p := Cell(false, true, v)]
  {
    var it := items[j];
    var it' := it.(ext := it.ext[k := v]);
    EncodeSplit(items, j);
    ReplaceItemCells(items, j, it');
    var last := j + 1 == |items|;
    var a, b, c := EncodePrefix(items[..j]), EncodeItem(it, last), Encode(items[j + 1..]);
    TailWithChunk(it, k, v);
    assert EncodeItem(it', last) == b[1 + k := Cell(false, true, v)];
    UpdateInMiddle(a, b, c, 1 + k, Cell(false, true, v));
  }

  lemma TailWithChunk(it: Item, k: nat, v: nat)
    requires k < |it.ext|
    ensures Tail(it.(ext := it.ext[k := v])) == Tail(it)[k := Cell(false, true, v)]
  {
  }
}
