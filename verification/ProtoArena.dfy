/**
 The marshaler's index-linked arena (`Marshaler` and `MessageMarshaler` in
 crates/esl-common/src/easyproto.rs): one buffer, one array of fields linked by index, and one
 array of messages that know their first and last field. It represents a table of messages.
 */
module ProtoArena {
  import opened Bytes
  import opened WireFormat
  import opened ProtoReader
  import opened ProtoTable

  const NONE: int := -1

  /** Either a range of the buffer or a nested message; the message size is kept beside the fields. */
  datatype WireField = WireField(dataStart: nat, dataEnd: nat, next: int, child: int)

  datatype MessageState = MessageState(tag: nat, first: int, last: int)

  datatype Arena = Arena(buf: bytes, fs: seq<WireField>, mms: seq<MessageState>) {
    /** Links point to later fields only, and so do the nested messages. */
    ghost predicate LinkedAt(k: nat)
      requires k < |fs|
    {
      && fs[k].dataStart <= fs[k].dataEnd <= |buf| && (fs[k].child == NONE ==> fs[k].dataStart < fs[k].dataEnd)
      && (fs[k].next == NONE || k < fs[k].next < |fs|)
      && (fs[k].child == NONE || (0 <= fs[k].child < |mms| && LaterFirst(k, mms[fs[k].child].first)))
    }

    predicate LaterFirst(k: nat, first: int) {
      first == NONE || k < first < |fs|
    }

    ghost predicate Linked() {
      forall k :: 0 <= k < |fs| ==> LinkedAt(k)
    }

    /** The stream of the one field at `k`. */
    ghost function FieldAtoms(k: nat): seq<Atom>
      requires Linked() && k < |fs|
    {
      assert LinkedAt(k);
      if fs[k].child == NONE then ByteAtoms(buf[fs[k].dataStart..fs[k].dataEnd])
      else [Sub(mms[fs[k].child].tag, fs[k].child)]
    }

    /** The stream of the fields linked from `k` on. */
    ghost function ChainAtoms(k: nat): seq<Atom>
      requires Linked() && k < |fs|
      decreases |fs| - k
    {
      assert LinkedAt(k);
      FieldAtoms(k) + if fs[k].next == NONE then [] else ChainAtoms(fs[k].next)
    }

    /** The last field linked from `k` on. */
    ghost function ChainEnd(k: nat): (e: nat)
      requires Linked() && k < |fs|
      ensures k <= e < |fs| && fs[e].next == NONE
      decreases |fs| - k
    {
      assert LinkedAt(k);
      if fs[k].next == NONE then k else ChainEnd(fs[k].next)
    }

    ghost function MessageAtoms(i: nat): seq<Atom>
      requires Linked() && i < |mms| && (mms[i].first == NONE || 0 <= mms[i].first < |fs|)
    {
      if mms[i].first == NONE then [] else ChainAtoms(mms[i].first)
    }

    /** Message `i` knows the ends of its chain, and its chain spells its row. */
    ghost predicate Row(i: nat, items: seq<Item>)
      requires Linked() && i < |mms|
    {
      && (mms[i].first == NONE <==> mms[i].last == NONE)
      && (mms[i].first == NONE || (0 <= mms[i].first < |fs| && ChainEnd(mms[i].first) == mms[i].last))
      && MessageAtoms(i) == AtomsOf(items)
    }

    ghost predicate OwnEnds() {
      forall i, j :: 0 <= i < j < |mms| && mms[i].last != NONE ==> mms[i].last != mms[j].last
    }

    ghost predicate Represents(t: Table) {
      && Linked() && OwnEnds() && WellNested(t) && |t| == |mms|
      && forall i :: 0 <= i < |mms| ==> Row(i, t[i])
    }
  }

  // ----- appending to the end of one chain

  /** `b` is `a` with more behind field `e`, the end of a chain: every other field of `a` is as it was. */
  ghost predicate ExtendsAt(a: Arena, b: Arena, e: int) {
    && a.Linked() && b.Linked() && |a.fs| <= |b.fs| && |a.mms| <= |b.mms|
    && (e == NONE || (0 <= e < |a.fs| && a.fs[e].next == NONE))
    && (forall k :: 0 <= k < |a.fs| && k != e ==> b.fs[k] == a.fs[k])
    && (forall k :: 0 <= k < |a.fs| && k != e ==> b.FieldAtoms(k) == a.FieldAtoms(k))
  }

  /** Chains that end elsewhere are as they were. */
  lemma {:induction false} OtherChain(a: Arena, b: Arena, e: int, k: nat)
    requires ExtendsAt(a, b, e) && k < |a.fs| && a.ChainEnd(k) != e
    ensures b.ChainAtoms(k) == a.ChainAtoms(k) && b.ChainEnd(k) == a.ChainEnd(k)
    decreases |a.fs| - k
  {
    assert a.LinkedAt(k);
    assert k != e;
    if a.fs[k].next != NONE {
      OtherChain(a, b, e, a.fs[k].next);
    }
  }

  /** A chain that ends at `e` has grown by what is now there. */
  lemma {:induction false} ExtendedChain(a: Arena, b: Arena, e: nat, k: nat, extra: seq<Atom>)
    requires ExtendsAt(a, b, e) && k < |a.fs| && a.ChainEnd(k) == e
    requires b.ChainAtoms(e) == a.FieldAtoms(e) + extra
    ensures b.ChainAtoms(k) == a.ChainAtoms(k) + extra && b.ChainEnd(k) == b.ChainEnd(e)
    decreases |a.fs| - k
  {
    assert a.LinkedAt(k);
    if k == e {
      assert a.FieldAtoms(e) + [] == a.FieldAtoms(e);
    } else {
      ExtendedChain(a, b, e, a.fs[k].next, extra);
      assert a.FieldAtoms(k) + (a.ChainAtoms(a.fs[k].next) + extra) == a.ChainAtoms(k) + extra;
    }
  }

  /** The other messages are as they were. */
  lemma OtherRow(a: Arena, b: Arena, t: Table, i: nat, j: nat)
    requires a.Represents(t) && i < |a.mms| && j < |a.mms| && i != j
    requires ExtendsAt(a, b, a.mms[i].last) && b.mms[j] == a.mms[j]
    ensures b.Row(j, t[j])
  {
    assert a.Row(j, t[j]);
    if a.mms[j].first != NONE {
      assert a.mms[j].last != a.mms[i].last;
      OtherChain(a, b, a.mms[i].last, a.mms[j].first);
    }
  }

  // ----- the operations

  /** The field count a new field gets as its index. */
  function Link(a: Arena, i: nat, f: WireField): Arena
    requires i < |a.mms| && (a.mms[i].last == NONE || 0 <= a.mms[i].last < |a.fs|)
  {
    var n := |a.fs|;
    var last := a.mms[i].last;
    if last == NONE then
      a.(fs := a.fs + [f], mms := a.mms[i := a.mms[i].(first := n, last := n)])
    else
      a.(fs := a.fs[last := a.fs[last].(next := n)] + [f], mms := a.mms[i := a.mms[i].(last := n)])
  }

  /** The data is in the buffer already; a last field that ends where it starts just grows. */
  function AppendField(a: Arena, i: nat, start: nat, end: nat): Arena
    requires i < |a.mms| && (a.mms[i].last == NONE || 0 <= a.mms[i].last < |a.fs|)
  {
    var last := a.mms[i].last;
    if last != NONE && a.fs[last].child == NONE && a.fs[last].dataEnd == start then
      a.(fs := a.fs[last := a.fs[last].(dataEnd := end)])
    else
      Link(a, i, WireField(start, end, NONE, NONE))
  }

  /** The nested message is a new one; its index is in the new field. */
  function AppendMessage(a: Arena, i: nat, tag: nat): Arena
    requires i < |a.mms| && (a.mms[i].last == NONE || 0 <= a.mms[i].last < |a.fs|)
  {
    Link(a.(mms := a.mms + [MessageState(tag, NONE, NONE)]), i, WireField(0, 0, NONE, |a.mms|))
  }

  /** A field that can stand at the end of the fields: it links nowhere. */
  ghost predicate Loose(a: Arena, f: WireField) {
    && f.next == NONE && f.dataStart <= f.dataEnd <= |a.buf| && (f.child == NONE ==> f.dataStart < f.dataEnd)
    && (f.child == NONE || (0 <= f.child < |a.mms| && a.mms[f.child].first == NONE))
  }

  lemma LinkKeepsLinks(a: Arena, i: nat, f: WireField)
    requires a.Linked() && i < |a.mms| && Loose(a, f) && f.child != i
    requires a.mms[i].last == NONE || (0 <= a.mms[i].last < |a.fs| && a.fs[a.mms[i].last].next == NONE)
    ensures Link(a, i, f).Linked()
  {
    var b := Link(a, i, f);
    forall k | 0 <= k < |b.fs|
      ensures b.LinkedAt(k)
    {
      if k < |a.fs| {
        assert a.LinkedAt(k);
      }
    }
  }

  lemma LinkExtends(a: Arena, i: nat, f: WireField)
    requires a.Linked() && i < |a.mms| && Loose(a, f) && f.child != i
    requires a.mms[i].last == NONE || (0 <= a.mms[i].last < |a.fs| && a.fs[a.mms[i].last].next == NONE)
    ensures ExtendsAt(a, Link(a, i, f), a.mms[i].last)
  {
    LinkKeepsLinks(a, i, f);
    var b := Link(a, i, f);
    forall k | 0 <= k < |a.fs| && k != a.mms[i].last
      ensures b.fs[k] == a.fs[k] && b.FieldAtoms(k) == a.FieldAtoms(k)
    {
      assert a.LinkedAt(k);
    }
  }

  /** Message `i` has the new field at its end. */
  lemma LinkedRow(a: Arena, i: nat, f: WireField, items: seq<Item>)
    requires a.Linked() && i < |a.mms| && a.Row(i, items) && Loose(a, f) && f.child != i
    ensures var b := Link(a, i, f);
            && ExtendsAt(a, b, a.mms[i].last)
            && b.mms[i].first != NONE && 0 <= b.mms[i].first < |b.fs|
            && b.mms[i].last == |a.fs| == b.ChainEnd(b.mms[i].first)
            && b.MessageAtoms(i) == AtomsOf(items) + b.FieldAtoms(|a.fs|)
  {
    var b, n, last := Link(a, i, f), |a.fs|, a.mms[i].last;
    LinkExtends(a, i, f);
    assert b.ChainAtoms(n) == b.FieldAtoms(n) + [];
    if last == NONE {
      assert AtomsOf(items) == [];
      assert [] + b.FieldAtoms(n) == b.FieldAtoms(n);
    } else {
      LinkedLast(a, i, f);
      ExtendedChain(a, b, last, a.mms[i].first, b.FieldAtoms(n));
    }
  }

  lemma LinkedLast(a: Arena, i: nat, f: WireField)
    requires a.Linked() && i < |a.mms| && Loose(a, f) && f.child != i
    requires 0 <= a.mms[i].last < |a.fs| && a.fs[a.mms[i].last].next == NONE
    ensures var b, last := Link(a, i, f), a.mms[i].last;
            && b.Linked() && b.ChainAtoms(last) == a.FieldAtoms(last) + b.FieldAtoms(|a.fs|)
            && b.ChainEnd(last) == |a.fs|
  {
    var b, last := Link(a, i, f), a.mms[i].last;
    LinkKeepsLinks(a, i, f);
    assert a.LinkedAt(last);
    assert b.FieldAtoms(last) == a.FieldAtoms(last);
    assert b.ChainAtoms(|a.fs|) == b.FieldAtoms(|a.fs|) + [];
  }

  /** If only message `i` has changed and it spells its new row, the arena represents the new table. */
  lemma RowReplaced(a: Arena, b: Arena, t: Table, i: nat, items: seq<Item>)
    requires a.Represents(t) && i < |t| && ExtendsAt(a, b, a.mms[i].last) && |b.mms| == |a.mms|
    requires forall j :: 0 <= j < |a.mms| && j != i ==> b.mms[j] == a.mms[j]
    requires b.mms[i].last == a.mms[i].last || b.mms[i].last >= |a.fs|
    requires b.Row(i, items) && NestedWithin(items, i, |t|)
    ensures b.Represents(t[i := items])
  {
    forall j | 0 <= j < |b.mms|
      ensures b.Row(j, t[i := items][j]) && (j != i && b.mms[j].last != NONE ==> b.mms[j].last != b.mms[i].last)
    {
      if j != i {
        OtherRow(a, b, t, i, j);
      }
    }
  }

  /** More bytes in the buffer change nothing by themselves. */
  lemma BufferGrown(a: Arena, t: Table, data: bytes)
    requires a.Represents(t)
    ensures a.(buf := a.buf + data).Represents(t)
  {
    var b := a.(buf := a.buf + data);
    forall k | 0 <= k < |a.fs|
      ensures b.LinkedAt(k)
    {
      assert a.LinkedAt(k);
    }
    forall k | 0 <= k < |a.fs|
      ensures b.FieldAtoms(k) == a.FieldAtoms(k)
    {
      assert a.LinkedAt(k);
      var f := a.fs[k];
      assert b.buf[f.dataStart..f.dataEnd] == a.buf[f.dataStart..f.dataEnd];
    }
    forall j | 0 <= j < |a.mms|
      ensures b.Row(j, t[j])
    {
      assert a.Row(j, t[j]);
      if a.mms[j].first != NONE {
        OtherChain(a, b, NONE, a.mms[j].first);
      }
    }
  }

  lemma GrownExtends(a: Arena, e: nat)
    requires a.Linked() && e < |a.fs| && a.fs[e].next == NONE && a.fs[e].child == NONE
    ensures ExtendsAt(a, a.(fs := a.fs[e := a.fs[e].(dataEnd := |a.buf|)]), e)
  {
    var b := a.(fs := a.fs[e := a.fs[e].(dataEnd := |a.buf|)]);
    forall k | 0 <= k < |a.fs|
      ensures b.LinkedAt(k)
    {
      assert a.LinkedAt(k);
    }
    forall k | 0 <= k < |a.fs| && k != e
      ensures b.FieldAtoms(k) == a.FieldAtoms(k)
    {
      assert a.LinkedAt(k);
    }
  }

  lemma ByteAtomsConcat(x: bytes, y: bytes)
    ensures ByteAtoms(x + y) == ByteAtoms(x) + ByteAtoms(y)
  {
  }

  lemma GrownField(a: Arena, e: nat, data: bytes)
    requires a.Linked() && e < |a.fs| && a.fs[e].child == NONE
    requires |data| <= |a.buf| && a.buf[|a.buf| - |data|..] == data && a.fs[e].dataEnd == |a.buf| - |data|
    requires a.(fs := a.fs[e := a.fs[e].(dataEnd := |a.buf|)]).Linked()
    ensures a.(fs := a.fs[e := a.fs[e].(dataEnd := |a.buf|)]).FieldAtoms(e) == a.FieldAtoms(e) + ByteAtoms(data)
  {
    assert a.LinkedAt(e);
    var start, end := a.fs[e].dataStart, a.fs[e].dataEnd;
    assert a.buf[start..|a.buf|] == a.buf[start..end] + data;
    ByteAtomsConcat(a.buf[start..end], data);
  }

  /** Growing the last field in place spells the same as appending a field. */
  lemma GrownRow(a: Arena, i: nat, items: seq<Item>, data: bytes)
    requires a.Linked() && i < |a.mms| && a.Row(i, items) && a.mms[i].last != NONE
    requires a.fs[a.mms[i].last].child == NONE
    requires |data| <= |a.buf| && a.buf[|a.buf| - |data|..] == data
    requires a.fs[a.mms[i].last].dataEnd == |a.buf| - |data|
    ensures var last := a.mms[i].last;
            var b := a.(fs := a.fs[last := a.fs[last].(dataEnd := |a.buf|)]);
            && ExtendsAt(a, b, last)
            && b.ChainEnd(b.mms[i].first) == last
            && b.MessageAtoms(i) == AtomsOf(items) + ByteAtoms(data)
  {
    var last := a.mms[i].last;
    var b := a.(fs := a.fs[last := a.fs[last].(dataEnd := |a.buf|)]);
    assert a.LinkedAt(last);
    GrownExtends(a, last);
    GrownField(a, last, data);
    assert b.ChainAtoms(last) == b.FieldAtoms(last) + [];
    ExtendedChain(a, b, last, a.mms[i].first, ByteAtoms(data));
  }

  lemma AppendByGrowing(a: Arena, t: Table, i: nat, item: Item)
    requires a.Represents(t) && i < |t| && item.Scalar?
    requires var data := EncodeField(item.num, item.value);
             && |data| <= |a.buf| && a.buf[|a.buf| - |data|..] == data
             && 0 <= a.mms[i].last < |a.fs| && a.fs[a.mms[i].last].child == NONE
             && a.fs[a.mms[i].last].dataEnd == |a.buf| - |data|
    ensures var last := a.mms[i].last;
            a.(fs := a.fs[last := a.fs[last].(dataEnd := |a.buf|)]).Represents(t[i := t[i] + [item]])
  {
    var last := a.mms[i].last;
    var b := a.(fs := a.fs[last := a.fs[last].(dataEnd := |a.buf|)]);
    assert a.Row(i, t[i]);
    GrownRow(a, i, t[i], EncodeField(item.num, item.value));
    AtomsOfAppend(t[i], item);
    RowReplaced(a, b, t, i, t[i] + [item]);
  }

  lemma RowOf(a: Arena, t: Table, i: nat)
    requires a.Represents(t) && i < |t|
    ensures a.Linked() && i < |a.mms| && a.Row(i, t[i]) && NestedWithin(t[i], i, |t|)
    ensures a.mms[i].last == NONE || 0 <= a.mms[i].last < |a.fs|
  {
    assert a.Row(i, t[i]);
  }

  lemma NestedItem(items: seq<Item>, item: Item, i: nat, rows: nat)
    requires NestedWithin(items, i, rows) && (item.Nested? ==> i < item.child < rows)
    ensures NestedWithin(items + [item], i, rows)
  {
  }

  /** The stream of the new field. */
  ghost function NewAtoms(a: Arena, f: WireField): seq<Atom>
    requires Loose(a, f)
  {
    if f.child == NONE then ByteAtoms(a.buf[f.dataStart..f.dataEnd]) else [Sub(a.mms[f.child].tag, f.child)]
  }

  lemma NewFieldAtoms(a: Arena, i: nat, f: WireField)
    requires i < |a.mms| && (a.mms[i].last == NONE || 0 <= a.mms[i].last < |a.fs|)
    requires Loose(a, f) && f.child != i && Link(a, i, f).Linked()
    ensures Link(a, i, f).FieldAtoms(|a.fs|) == NewAtoms(a, f)
  {
  }

  lemma LinkedItemRow(a: Arena, i: nat, f: WireField, items: seq<Item>, item: Item)
    requires a.Linked() && i < |a.mms| && a.Row(i, items) && Loose(a, f) && f.child != i
    requires ItemAtoms(item) == NewAtoms(a, f)
    ensures var b := Link(a, i, f); b.Linked() && b.Row(i, items + [item])
  {
    LinkedRow(a, i, f, items);
    NewFieldAtoms(a, i, f);
    AtomsOfAppend(items, item);
  }

  lemma LinkLeavesMessages(a: Arena, i: nat, f: WireField)
    requires i < |a.mms| && (a.mms[i].last == NONE || 0 <= a.mms[i].last < |a.fs|)
    ensures var b := Link(a, i, f);
            && |b.mms| == |a.mms| && b.mms[i].last == |a.fs|
            && forall j :: 0 <= j < |a.mms| && j != i ==> b.mms[j] == a.mms[j]
  {
  }

  /** A new field that spells an item appends that item to the message it is linked to. */
  lemma LinkItem(a: Arena, t: Table, i: nat, f: WireField, item: Item)
    requires a.Represents(t) && i < |t| && Loose(a, f) && f.child != i
    requires item.Nested? ==> i < item.child < |t|
    requires ItemAtoms(item) == NewAtoms(a, f)
    ensures a.mms[i].last == NONE || 0 <= a.mms[i].last < |a.fs|
    ensures Link(a, i, f).Represents(t[i := t[i] + [item]])
  {
    RowOf(a, t, i);
    LinkedRow(a, i, f, t[i]);
    LinkedItemRow(a, i, f, t[i], item);
    LinkLeavesMessages(a, i, f);
    NestedItem(t[i], item, i, |t|);
    RowReplaced(a, Link(a, i, f), t, i, t[i] + [item]);
  }

  lemma AppendByLinking(a: Arena, t: Table, i: nat, item: Item, start: nat, data: bytes)
    requires a.Represents(t) && i < |t| && item.Scalar? && data == EncodeField(item.num, item.value)
    requires start + |data| == |a.buf| && a.buf[start..] == data
    ensures a.mms[i].last == NONE || 0 <= a.mms[i].last < |a.fs|
    ensures Link(a, i, WireField(start, |a.buf|, NONE, NONE)).Represents(t[i := t[i] + [item]])
  {
    LinkItem(a, t, i, WireField(start, |a.buf|, NONE, NONE), item);
  }

  /** Data that is in the buffer already becomes a field, whether or not the last field just grows. */
  lemma AppendFieldMeans(a: Arena, t: Table, i: nat, item: Item)
    requires a.Represents(t) && i < |t| && item.Scalar?
    requires var data := EncodeField(item.num, item.value); |data| <= |a.buf| && a.buf[|a.buf| - |data|..] == data
    ensures a.mms[i].last == NONE || 0 <= a.mms[i].last < |a.fs|
    ensures var start := |a.buf| - |EncodeField(item.num, item.value)|;
            AppendField(a, i, start, |a.buf|).Represents(t[i := t[i] + [item]])
  {
    var data, last := EncodeField(item.num, item.value), a.mms[i].last;
    var start := |a.buf| - |data|;
    RowOf(a, t, i);
    if last != NONE && a.fs[last].child == NONE && a.fs[last].dataEnd == start {
      AppendByGrowing(a, t, i, item);
    } else {
      AppendByLinking(a, t, i, item, start, data);
    }
  }

  /** Writing a scalar field behind the buffer and appending it appends it to its message. */
  lemma AppendBytesMeans(a: Arena, t: Table, i: nat, item: Item, buf: bytes)
    requires a.Represents(t) && i < |t| && item.Scalar? && buf == a.buf + EncodeField(item.num, item.value)
    ensures a.mms[i].last == NONE || 0 <= a.mms[i].last < |a.fs|
    ensures AppendField(a.(buf := buf), i, |a.buf|, |buf|).Represents(t[i := t[i] + [item]])
  {
    var data := EncodeField(item.num, item.value);
    BufferGrown(a, t, data);
    assert buf[|a.buf|..] == data;
    AppendFieldMeans(a.(buf := buf), t, i, item);
  }

  lemma MessageAdded(a: Arena, t: Table, tag: nat)
    requires a.Represents(t)
    ensures a.(mms := a.mms + [MessageState(tag, NONE, NONE)]).Represents(t + [[]])
  {
    var b := a.(mms := a.mms + [MessageState(tag, NONE, NONE)]);
    forall k | 0 <= k < |a.fs|
      ensures b.LinkedAt(k)
    {
      assert a.LinkedAt(k);
    }
    forall k | 0 <= k < |a.fs|
      ensures b.FieldAtoms(k) == a.FieldAtoms(k)
    {
      assert a.LinkedAt(k);
    }
    forall j | 0 <= j < |b.mms|
      ensures b.Row(j, (t + [[]])[j])
    {
      if j < |a.mms| {
        assert a.Row(j, t[j]);
        if a.mms[j].first != NONE {
          OtherChain(a, b, NONE, a.mms[j].first);
        }
      }
    }
    forall i | 0 <= i < |t|
      ensures NestedWithin(t[i], i, |t| + 1)
    {
      assert NestedWithin(t[i], i, |t|);
    }
  }

  /** Appending a message appends it to its parent and adds an empty row for it. */
  lemma AppendMessageMeans(a: Arena, t: Table, i: nat, num: nat)
    requires a.Represents(t) && i < |t|
    ensures a.mms[i].last == NONE || 0 <= a.mms[i].last < |a.fs|
    ensures AppendMessage(a, i, MakeTag(num, LEN)).Represents((t + [[]])[i := t[i] + [Nested(num, |t|)]])
  {
    assert a.Row(i, t[i]);
    MessageAdded(a, t, MakeTag(num, LEN));
    var a1 := a.(mms := a.mms + [MessageState(MakeTag(num, LEN), NONE, NONE)]);
    LinkItem(a1, t + [[]], i, WireField(0, 0, NONE, |t|), Nested(num, |t|));
  }

  // ----- marshalling

  /** The bytes of the message that starts with field `first`, `NONE` being the empty message. */
  ghost function BodyBytes(a: Arena, first: int): bytes
    requires a.Linked() && (first == NONE || 0 <= first < |a.fs|)
    decreases if first == NONE then 0 else |a.fs| - first, 2
  {
    if first == NONE then [] else ChainBytes(a, first)
  }

  /** The bytes of the fields linked from `k` on. */
  ghost function ChainBytes(a: Arena, k: nat): bytes
    requires a.Linked() && k < |a.fs|
    decreases |a.fs| - k, 1
  {
    assert a.LinkedAt(k);
    FieldBytes(a, k) + BodyBytes(a, a.fs[k].next)
  }

  /** The bytes of one field, a nested message with its tag and length. */
  ghost function FieldBytes(a: Arena, k: nat): bytes
    requires a.Linked() && k < |a.fs|
    decreases |a.fs| - k, 0
  {
    assert a.LinkedAt(k);
    var f := a.fs[k];
    if f.child == NONE then a.buf[f.dataStart..f.dataEnd]
    else Delimited(a.mms[f.child].tag, BodyBytes(a, a.mms[f.child].first))
  }

  lemma FieldSubsWithin(a: Arena, k: nat)
    requires a.Linked() && k < |a.fs|
    ensures SubsWithin(a.FieldAtoms(k), |a.mms|)
  {
    assert a.LinkedAt(k);
  }

  lemma {:induction false} FieldEncodes(a: Arena, t: Table, k: nat)
    requires a.Represents(t) && k < |a.fs|
    ensures SubsWithin(a.FieldAtoms(k), |t|) && FieldBytes(a, k) == EncodeAtoms(t, a.FieldAtoms(k))
    decreases |a.fs| - k, 0
  {
    assert a.LinkedAt(k);
    FieldSubsWithin(a, k);
    var f := a.fs[k];
    if f.child == NONE {
      EncodeByteAtoms(t, a.buf[f.dataStart..f.dataEnd]);
    } else {
      assert a.Row(f.child, t[f.child]);
      EncodeMessageAtoms(t, f.child);
      if a.mms[f.child].first != NONE {
        ChainEncodes(a, t, a.mms[f.child].first);
      }
      EncodeOneAtom(t, Sub(a.mms[f.child].tag, f.child));
    }
  }

  /** What the links spell is the recursive encoding of the table. */
  lemma {:induction false} ChainEncodes(a: Arena, t: Table, k: nat)
    requires a.Represents(t) && k < |a.fs|
    ensures SubsWithin(a.ChainAtoms(k), |t|) && ChainBytes(a, k) == EncodeAtoms(t, a.ChainAtoms(k))
    decreases |a.fs| - k, 1
  {
    assert a.LinkedAt(k);
    FieldEncodes(a, t, k);
    if a.fs[k].next == NONE {
      EncodeAtomsConcat(t, a.FieldAtoms(k), []);
    } else {
      ChainEncodes(a, t, a.fs[k].next);
      EncodeAtomsConcat(t, a.FieldAtoms(k), a.ChainAtoms(a.fs[k].next));
    }
  }

  /** Message `i` of the arena is marshalled to the recursive encoding of row `i`. */
  lemma BodyEncodes(a: Arena, t: Table, i: nat)
    requires a.Represents(t) && i < |t|
    ensures a.mms[i].first == NONE || 0 <= a.mms[i].first < |a.fs|
    ensures BodyBytes(a, a.mms[i].first) == EncodeMessage(t, i)
    ensures a.mms[i].first == NONE <==> t[i] == []
  {
    assert a.Row(i, t[i]);
    EncodeMessageAtoms(t, i);
    if a.mms[i].first != NONE {
      ChainEncodes(a, t, a.mms[i].first);
      assert a.LinkedAt(a.mms[i].first);
      assert |a.FieldAtoms(a.mms[i].first)| > 0;
    }
    AtomsOfEmpty(t[i]);
  }
}
