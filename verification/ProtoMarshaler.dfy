/** The protobuf marshaler as the object the source makes it (crates/esl-common/src/easyproto.rs). */
module ProtoMarshaler {
  import opened Bytes
  import opened WireFormat
  import opened ProtoReader
  import opened ProtoTable
  import opened ProtoArena

  /** The fields that marshalling from `k` on visits. */
  ghost function Reach(a: Arena, k: nat): (r: set<nat>)
    requires a.Linked() && k < |a.fs|
    ensures k in r && forall j :: j in r ==> j < |a.fs|
    decreases |a.fs| - k, 1
  {
    assert a.LinkedAt(k);
    FieldReach(a, k) + ReachFrom(a, k, a.fs[k].next)
  }

  /** Field `k` and those of the message nested in it. */
  ghost function FieldReach(a: Arena, k: nat): (r: set<nat>)
    requires a.Linked() && k < |a.fs|
    ensures k in r && forall j :: j in r ==> j < |a.fs|
    decreases |a.fs| - k, 0
  {
    assert a.LinkedAt(k);
    var f := a.fs[k];
    {k} + if f.child == NONE then {} else ReachFrom(a, k, a.mms[f.child].first)
  }

  ghost function ReachFrom(a: Arena, k: nat, first: int): (r: set<nat>)
    requires a.Linked() && k < |a.fs| && (first == NONE || k < first < |a.fs|)
    ensures forall j :: j in r ==> j < |a.fs|
    decreases |a.fs| - (k + 1), 2
  {
    if first == NONE then {} else Reach(a, first)
  }

  /** The recorded size of a nested message is the number of bytes it is marshalled to. */
  ghost predicate SizeRight(a: Arena, sizes: seq<nat>, j: nat)
    requires a.Linked() && |sizes| == |a.fs| && j < |a.fs|
  {
    assert a.LinkedAt(j);
    a.fs[j].child == NONE || sizes[j] == |BodyBytes(a, a.mms[a.fs[j].child].first)|
  }

  ghost predicate SizesRight(a: Arena, sizes: seq<nat>, among: set<nat>)
    requires a.Linked() && |sizes| == |a.fs|
  {
    forall j :: j in among && j < |a.fs| ==> SizeRight(a, sizes, j)
  }

  /** No size that was right has become wrong. */
  ghost predicate NoneSpoiled(a: Arena, before: seq<nat>, after: seq<nat>)
    requires a.Linked() && |before| == |a.fs|
  {
    |after| == |before| && forall j :: 0 <= j < |a.fs| && SizeRight(a, before, j) ==> SizeRight(a, after, j)
  }

  class Marshaler {
    var buf: bytes
    var fs: seq<WireField>
    var mms: seq<MessageState>
    /** The message sizes of the fields. */
    var sizes: seq<nat>
    /** The messages appended so far. */
    ghost var table: Table

    function Snapshot(): Arena
      reads this
    {
      Arena(buf, fs, mms)
    }

    ghost predicate Valid()
      reads this
    {
      Snapshot().Represents(table) && |sizes| == |fs|
    }

    constructor ()
      ensures Valid() && table == []
    {
      buf, fs, mms, sizes, table := [], [], [], [], [];
    }

    /** The root message, created on first use. */
    method RootMessage() returns (root: nat)
      requires Valid()
      modifies this
      ensures Valid() && root == 0 && table == (if old(table) == [] then [[]] else old(table))
    {
      if mms == [] {
        MessageAdded(Snapshot(), table, 0);
        mms := mms + [MessageState(0, NONE, NONE)];
        table := table + [[]];
      }
      root := 0;
    }

    method NewField(i: nat, f: WireField) returns (n: nat)
      requires i < |mms| && (mms[i].last == NONE || 0 <= mms[i].last < |fs|) && |sizes| == |fs|
      modifies this`fs, this`mms, this`sizes
      ensures Snapshot() == Link(old(Snapshot()), i, f) && |sizes| == |fs| && n == old(|fs|)
    {
      n := |fs|;
      fs, sizes := fs + [f], sizes + [0];
      var last := mms[i].last;
      if last >= 0 {
        fs := fs[last := fs[last].(next := n)];
        assert fs == old(fs)[last := old(fs)[last].(next := n)] + [f];
      } else {
        mms := mms[i := mms[i].(first := n)];
      }
      mms := mms[i := mms[i].(last := n)];
    }

    method AppendField(i: nat, start: nat, end: nat)
      requires i < |mms| && (mms[i].last == NONE || 0 <= mms[i].last < |fs|) && |sizes| == |fs|
      modifies this`fs, this`mms, this`sizes
      ensures Snapshot() == ProtoArena.AppendField(old(Snapshot()), i, start, end) && |sizes| == |fs|
    {
      var last := mms[i].last;
      if last >= 0 && fs[last].child == NONE && fs[last].dataEnd == start {
        fs := fs[last := fs[last].(dataEnd := end)];
        return;
      }
      var _ := NewField(i, WireField(start, end, NONE, NONE));
    }

    method WriteTag(tag: nat)
      modifies this`buf
      ensures buf == old(buf) + Varint(tag)
    {
      if tag < 0x80 {
        buf := buf + [tag as byte];
      } else {
        buf := MarshalVarUint64(buf, tag);
      }
    }

    method WriteTagAndLength(tag: nat, len: nat)
      modifies this`buf
      ensures buf == old(buf) + Varint(tag) + Varint(len)
    {
      if tag < 0x80 && len < 0x80 {
        buf := buf + [tag as byte, len as byte];
      } else {
        buf := MarshalVarUint64(buf, tag);
        buf := MarshalVarUint64(buf, len);
      }
    }

    /** The bytes just written to the end of the buffer become the last field of message `i`. */
    method AppendWritten(i: nat, start: nat, ghost item: Item, ghost before: bytes)
      requires item.Scalar? && buf == before + EncodeField(item.num, item.value) && start == |before|
      requires Arena(before, fs, mms).Represents(table) && i < |mms| && |sizes| == |fs|
      modifies this
      ensures Valid() && table == old(table)[i := old(table)[i] + [item]]
    {
      AppendBytesMeans(Arena(before, fs, mms), table, i, item, buf);
      AppendField(i, start, |buf|);
      table := table[i := table[i] + [item]];
    }

    method AppendUint64(i: nat, num: nat, n: nat)
      requires Valid() && i < |mms|
      modifies this
      ensures Valid() && table == old(table)[i := old(table)[i] + [Scalar(num, IntValue(n))]]
    {
      ghost var before := buf;
      var start := |buf|;
      WriteTag(MakeTag(num, VARINT));
      buf := MarshalVarUint64(buf, n);
      Associates(before, Varint(MakeTag(num, VARINT)), Varint(n));
      AppendWritten(i, start, Scalar(num, IntValue(n)), before);
    }

    method AppendFixed64(i: nat, num: nat, n: nat)
      requires Valid() && i < |mms|
      modifies this
      ensures Valid() && table == old(table)[i := old(table)[i] + [Scalar(num, Fixed64(n))]]
    {
      ghost var before := buf;
      var start := |buf|;
      WriteTag(MakeTag(num, I64));
      buf := buf + LittleEndian(n, 8);
      Associates(before, Varint(MakeTag(num, I64)), LittleEndian(n, 8));
      AppendWritten(i, start, Scalar(num, Fixed64(n)), before);
    }

    method AppendFixed32(i: nat, num: nat, n: nat)
      requires Valid() && i < |mms|
      modifies this
      ensures Valid() && table == old(table)[i := old(table)[i] + [Scalar(num, Fixed32(n))]]
    {
      ghost var before := buf;
      var start := |buf|;
      WriteTag(MakeTag(num, I32));
      buf := buf + LittleEndian(n, 4);
      Associates(before, Varint(MakeTag(num, I32)), LittleEndian(n, 4));
      AppendWritten(i, start, Scalar(num, Fixed32(n)), before);
    }

    method AppendBytes(i: nat, num: nat, d: bytes)
      requires Valid() && i < |mms|
      modifies this
      ensures Valid() && table == old(table)[i := old(table)[i] + [Scalar(num, Data(d))]]
    {
      ghost var before := buf;
      var start := |buf|;
      WriteTagAndLength(MakeTag(num, LEN), |d|);
      buf := buf + d;
      DelimitedWritten(before, num, d);
      AppendWritten(i, start, Scalar(num, Data(d)), before);
    }

    /** Appends a nested message to message `i` and returns its index. */
    method AppendMessage(i: nat, num: nat) returns (child: nat)
      requires Valid() && i < |mms|
      modifies this
      ensures Valid() && child == old(|table|)
      ensures table == (old(table) + [[]])[i := old(table)[i] + [Nested(num, child)]]
    {
      AppendMessageMeans(Snapshot(), table, i, num);
      child := |mms|;
      mms := mms + [MessageState(MakeTag(num, LEN), NONE, NONE)];
      var _ := NewField(i, WireField(0, 0, NONE, child));
      table := (table + [[]])[i := table[i] + [Nested(num, child)]];
    }

    // ----- marshalling

    /** First pass: the number of bytes from field `k` on, recording the size of each nested message. */
    method InitMessageSize(k: nat) returns (n: nat)
      requires Valid() && k < |fs|
      modifies this`sizes
      ensures Valid() && n == |ChainBytes(Snapshot(), k)|
      ensures SizesRight(Snapshot(), sizes, Reach(Snapshot(), k))
      ensures NoneSpoiled(Snapshot(), old(sizes), sizes)
      decreases |fs| - k, 1
    {
      ghost var a := Snapshot();
      n := 0;
      var cur := k;
      while true
        invariant Valid() && k <= cur < |fs| && Snapshot() == a
        invariant n + |ChainBytes(a, cur)| == |ChainBytes(a, k)|
        invariant Reach(a, cur) <= Reach(a, k)
        invariant SizesRight(a, sizes, Reach(a, k) - Reach(a, cur))
        invariant NoneSpoiled(a, old(sizes), sizes)
        decreases |fs| - cur
      {
        assert a.LinkedAt(cur);
        var size := FieldSize(cur);
        n := n + size;
        if fs[cur].next < 0 {
          return;
        }
        cur := fs[cur].next;
      }
    }

    method FieldSize(k: nat) returns (n: nat)
      requires Valid() && k < |fs|
      modifies this`sizes
      ensures Valid() && n == |FieldBytes(Snapshot(), k)|
      ensures SizesRight(Snapshot(), sizes, FieldReach(Snapshot(), k))
      ensures NoneSpoiled(Snapshot(), old(sizes), sizes)
      decreases |fs| - k, 0
    {
      ghost var a := Snapshot();
      assert a.LinkedAt(k);
      var f := fs[k];
      if f.child < 0 {
        return f.dataEnd - f.dataStart;
      }
      var tag, first := mms[f.child].tag, mms[f.child].first;
      var size := 0;
      if first >= 0 {
        size := InitMessageSize(first);
      }
      n := LengthOf(tag) + LengthOf(size) + size;
      sizes := sizes[k := size];
    }

    /** Second pass: appends the bytes from field `k` on, taking the recorded sizes as length prefixes. */
    method MarshalField(k: nat, dst: bytes) returns (r: bytes)
      requires Valid() && k < |fs| && SizesRight(Snapshot(), sizes, Reach(Snapshot(), k))
      ensures r == dst + ChainBytes(Snapshot(), k)
      decreases |fs| - k, 1
    {
      ghost var a := Snapshot();
      r := dst;
      var cur := k;
      while true
        invariant k <= cur < |fs| && Reach(a, cur) <= Reach(a, k)
        invariant r + ChainBytes(a, cur) == dst + ChainBytes(a, k)
        decreases |fs| - cur
      {
        assert a.LinkedAt(cur);
        Associates(r, FieldBytes(a, cur), BodyBytes(a, fs[cur].next));
        r := MarshalOne(cur, r);
        if fs[cur].next < 0 {
          return;
        }
        cur := fs[cur].next;
      }
    }

    method MarshalOne(k: nat, dst: bytes) returns (r: bytes)
      requires Valid() && k < |fs| && SizesRight(Snapshot(), sizes, FieldReach(Snapshot(), k))
      ensures r == dst + FieldBytes(Snapshot(), k)
      decreases |fs| - k, 0
    {
      ghost var a := Snapshot();
      assert a.LinkedAt(k);
      var f := fs[k];
      if f.child < 0 {
        return dst + buf[f.dataStart..f.dataEnd];
      }
      var tag, first, size := mms[f.child].tag, mms[f.child].first, sizes[k];
      assert SizeRight(a, sizes, k);
      if tag < 0x80 && size < 0x80 {
        r := dst + [tag as byte, size as byte];
      } else {
        r := MarshalVarUint64(dst, tag);
        r := MarshalVarUint64(r, size);
      }
      assert r == dst + (Varint(tag) + Varint(size));
      if first >= 0 {
        assert Reach(a, first) <= FieldReach(a, k);
        Associates(dst, Varint(tag) + Varint(size), BodyBytes(a, first));
        r := MarshalField(first, r);
      }
    }

    /** Appends the recursive encoding of the messages appended so far. */
    method Marshal(dst: bytes) returns (r: bytes)
      requires Valid()
      modifies this`sizes
      ensures Valid() && r == dst + (if table == [] then [] else EncodeMessage(table, 0))
    {
      if mms == [] {
        return dst;
      }
      BodyEncodes(Snapshot(), table, 0);
      var first := mms[0].first;
      if first < 0 {
        return dst;
      }
      var _ := InitMessageSize(first);
      r := MarshalField(first, dst);
    }

    /**
     Appends the encoding with its length in front, except that for a root message without fields
     nothing at all is appended, not even its length of zero.
     */
    method MarshalWithLen(dst: bytes) returns (r: bytes)
      requires Valid()
      modifies this`sizes
      ensures Valid()
      ensures var message := if table == [] then [] else EncodeMessage(table, 0);
              && (r == dst + (Varint(|message|) + message) <==> !(table != [] && table[0] == []))
              && (table != [] && table[0] == [] ==> r == dst)
    {
      if mms == [] {
        return dst + [0];
      }
      BodyEncodes(Snapshot(), table, 0);
      var first := mms[0].first;
      if first < 0 {
        assert |dst + (Varint(0) + [])| > |dst|;
        return dst;
      }
      var size := InitMessageSize(first);
      r := MarshalVarUint64(dst, size);
      Associates(dst, Varint(size), EncodeMessage(table, 0));
      r := MarshalField(first, r);
    }
  }

  function LengthOf(n: nat): (len: nat)
    ensures len == |Varint(n)|
  {
    VaruintLenIsLength(n);
    if n < 0x80 then 1 else VaruintLen(n)
  }

  lemma DelimitedWritten(before: bytes, num: nat, d: bytes)
    ensures before + Varint(MakeTag(num, LEN)) + Varint(|d|) + d == before + EncodeField(num, Data(d))
  {
    var tag, len := Varint(MakeTag(num, LEN)), Varint(|d|);
    DelimitedIsField(num, d);
    Associates(before + tag, len, d);
    Associates(before, tag, len + d);
    Associates(tag, len, d);
  }
}
