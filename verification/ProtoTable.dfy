/**
 The messages a marshaler is asked to build, as a table, and their protobuf encoding by plain
 recursion: the reference for the marshaler of crates/esl-common/src/easyproto.rs.

 Row `i` of the table holds the fields appended to message `i`, in order. A nested message is
 a row of its own, always after the row of the message that holds it.
 */
module ProtoTable {
  import opened Bytes
  import opened WireFormat
  import opened ProtoReader

  datatype Item = Scalar(num: nat, value: Value) | Nested(num: nat, child: nat)

  type Table = seq<seq<Item>>

  ghost predicate NestedWithin(items: seq<Item>, i: nat, rows: nat) {
    forall j :: 0 <= j < |items| && items[j].Nested? ==> i < items[j].child < rows
  }

  ghost predicate WellNested(t: Table) {
    forall i :: 0 <= i < |t| ==> NestedWithin(t[i], i, |t|)
  }

  ghost function EncodeMessage(t: Table, i: nat): bytes
    requires WellNested(t) && i < |t|
    decreases |t| - i, 1, 0
  {
    EncodeItems(t, i, t[i])
  }

  ghost function EncodeItems(t: Table, i: nat, items: seq<Item>): bytes
    requires WellNested(t) && i < |t| && NestedWithin(items, i, |t|)
    decreases |t| - i, 0, |items|
  {
    if items == [] then [] else
    var item := items[0];
    var value := if item.Nested? then Data(EncodeMessage(t, item.child)) else item.value;
    EncodeField(item.num, value) + EncodeItems(t, i, items[1..])
  }

  /** What a reader sees of an item: a nested message as the bytes of its encoding. */
  ghost function ValueOf(t: Table, item: Item): Value
    requires WellNested(t) && (item.Nested? ==> item.child < |t|)
  {
    if item.Nested? then Data(EncodeMessage(t, item.child)) else item.value
  }

  // ----- the same encoding, seen as a stream in which only nested messages stand out

  datatype Atom = Byte(b: byte) | Sub(tag: nat, child: nat)

  function ByteAtoms(data: bytes): (s: seq<Atom>)
    ensures |s| == |data| && forall i :: 0 <= i < |s| ==> s[i] == Byte(data[i])
  {
    seq(|data|, i requires 0 <= i < |data| => Byte(data[i]))
  }

  function ItemAtoms(item: Item): seq<Atom> {
    match item
    case Scalar(num, value) => ByteAtoms(EncodeField(num, value))
    case Nested(num, child) => [Sub(MakeTag(num, LEN), child)]
  }

  function AtomsOf(items: seq<Item>): seq<Atom> {
    if items == [] then [] else ItemAtoms(items[0]) + AtomsOf(items[1..])
  }

  lemma {:induction false} AtomsOfAppend(items: seq<Item>, item: Item)
    ensures AtomsOf(items + [item]) == AtomsOf(items) + ItemAtoms(item)
  {
    if items == [] {
      assert items + [item] == [item];
      assert AtomsOf([item]) == ItemAtoms(item) + [];
    } else {
      assert (items + [item])[1..] == items[1..] + [item];
      AtomsOfAppend(items[1..], item);
    }
  }

  /** Every item shows. */
  lemma AtomsOfEmpty(items: seq<Item>)
    ensures AtomsOf(items) == [] <==> items == []
  {
    if items != [] {
      assert |ItemAtoms(items[0])| > 0;
    }
  }

  ghost predicate SubsWithin(atoms: seq<Atom>, rows: nat) {
    forall j :: 0 <= j < |atoms| && atoms[j].Sub? ==> atoms[j].child < rows
  }

  function Delimited(tag: nat, body: bytes): bytes {
    Varint(tag) + Varint(|body|) + body
  }

  ghost function EncodeAtom(t: Table, atom: Atom): bytes
    requires WellNested(t) && (atom.Sub? ==> atom.child < |t|)
  {
    match atom
    case Byte(b) => [b]
    case Sub(tag, child) => Delimited(tag, EncodeMessage(t, child))
  }

  ghost function EncodeAtoms(t: Table, atoms: seq<Atom>): bytes
    requires WellNested(t) && SubsWithin(atoms, |t|)
  {
    if atoms == [] then [] else EncodeAtom(t, atoms[0]) + EncodeAtoms(t, atoms[1..])
  }

  lemma {:induction false} EncodeAtomsConcat(t: Table, a: seq<Atom>, b: seq<Atom>)
    requires WellNested(t) && SubsWithin(a, |t|) && SubsWithin(b, |t|)
    ensures EncodeAtoms(t, a + b) == EncodeAtoms(t, a) + EncodeAtoms(t, b)
  {
    if a == [] {
      assert a + b == b;
    } else {
      assert (a + b)[1..] == a[1..] + b;
      EncodeAtomsConcat(t, a[1..], b);
    }
  }

  lemma {:induction false} EncodeByteAtoms(t: Table, data: bytes)
    requires WellNested(t)
    ensures EncodeAtoms(t, ByteAtoms(data)) == data
  {
    if data != [] {
      assert ByteAtoms(data)[1..] == ByteAtoms(data[1..]);
      EncodeByteAtoms(t, data[1..]);
      assert data == [data[0]] + data[1..];
    }
  }

  lemma DelimitedIsField(num: nat, body: bytes)
    ensures Delimited(MakeTag(num, LEN), body) == EncodeField(num, Data(body))
  {
    var tag, len := Varint(MakeTag(num, LEN)), Varint(|body|);
    assert tag + len + body == tag + (len + body);
  }

  lemma EncodeOneAtom(t: Table, atom: Atom)
    requires WellNested(t) && (atom.Sub? ==> atom.child < |t|)
    ensures EncodeAtoms(t, [atom]) == EncodeAtom(t, atom)
  {
    assert EncodeAtom(t, atom) + [] == EncodeAtom(t, atom);
  }

  lemma EncodeItemAtoms(t: Table, item: Item)
    requires WellNested(t) && (item.Nested? ==> item.child < |t|)
    ensures EncodeAtoms(t, ItemAtoms(item)) == EncodeField(item.num, ValueOf(t, item))
  {
    match item
    case Scalar(num, value) =>
      EncodeByteAtoms(t, EncodeField(num, value));
    case Nested(num, child) =>
      EncodeOneAtom(t, Sub(MakeTag(num, LEN), child));
      DelimitedIsField(num, EncodeMessage(t, child));
  }

  /** Only nested messages matter for where one item ends and the next begins. */
  lemma {:induction false} EncodeAtomsOf(t: Table, i: nat, items: seq<Item>)
    requires WellNested(t) && i < |t| && NestedWithin(items, i, |t|)
    ensures SubsWithin(AtomsOf(items), |t|)
    ensures EncodeAtoms(t, AtomsOf(items)) == EncodeItems(t, i, items)
    decreases |items|
  {
    if items != [] {
      EncodeItemAtoms(t, items[0]);
      EncodeAtomsOf(t, i, items[1..]);
      EncodeAtomsConcat(t, ItemAtoms(items[0]), AtomsOf(items[1..]));
    }
  }

  /** A message's encoding is that of its stream. */
  lemma EncodeMessageAtoms(t: Table, i: nat)
    requires WellNested(t) && i < |t|
    ensures SubsWithin(AtomsOf(t[i]), |t|)
    ensures EncodeMessage(t, i) == EncodeAtoms(t, AtomsOf(t[i]))
  {
    EncodeAtomsOf(t, i, t[i]);
  }

  // ----- round trip of a message

  /** The fields that a well-formed message consists of, in order. */
  function ParseMessage(src: bytes): (r: Option<seq<(nat, Value)>>)
    decreases |src|
  {
    if src == [] then Some([]) else
    match ParseField(src)
    case None => None
    case Some(p) =>
      match ParseMessage(p.tail)
      case None => None
      case Some(rest) => Some([(p.num, p.value)] + rest)
  }

  ghost function Fields(t: Table, items: seq<Item>): seq<(nat, Value)>
    requires WellNested(t) && forall j :: 0 <= j < |items| && items[j].Nested? ==> items[j].child < |t|
  {
    if items == [] then [] else
    [(items[0].num, ValueOf(t, items[0]))] + Fields(t, items[1..])
  }

  ghost predicate AllEncodable(t: Table, items: seq<Item>)
    requires WellNested(t) && forall j :: 0 <= j < |items| && items[j].Nested? ==> items[j].child < |t|
  {
    var fields := Fields(t, items);
    forall j :: 0 <= j < |fields| ==> Encodable(fields[j].0, fields[j].1)
  }

  /** Reading a marshalled message field by field gives the appended fields, in order. */
  lemma {:induction false} MessageReadsBack(t: Table, i: nat, items: seq<Item>)
    requires WellNested(t) && i < |t| && NestedWithin(items, i, |t|) && AllEncodable(t, items)
    ensures ParseMessage(EncodeItems(t, i, items)) == Some(Fields(t, items))
    decreases |items|
  {
    if items != [] {
      var fields, rest := Fields(t, items), Fields(t, items[1..]);
      assert fields == [fields[0]] + rest && fields[1..] == rest;
      assert Encodable(fields[0].0, fields[0].1);
      forall j | 0 <= j < |rest|
        ensures Encodable(rest[j].0, rest[j].1)
      {
        assert rest[j] == fields[j + 1];
      }
      MessageReadsBack(t, i, items[1..]);
      FieldReadsBack(fields[0].0, fields[0].1, EncodeItems(t, i, items[1..]));
    }
  }

  /** Every message of a table reads back, and a nested one is among the fields of its parent. */
  lemma RowReadsBack(t: Table, i: nat)
    requires WellNested(t) && i < |t| && AllEncodable(t, t[i])
    ensures ParseMessage(EncodeMessage(t, i)) == Some(Fields(t, t[i]))
  {
    MessageReadsBack(t, i, t[i]);
  }

  // ----- looking for a field

  /** The fields up to the first malformed one, and whether there is one. */
  function Readable(src: bytes): (r: (seq<(nat, Value)>, bool))
    decreases |src|
  {
    if src == [] then ([], true) else
    match ParseField(src)
    case None => ([], false)
    case Some(p) => var (rest, whole) := Readable(p.tail); ([(p.num, p.value)] + rest, whole)
  }

  lemma {:induction false} ReadableIsParsed(src: bytes)
    ensures ParseMessage(src) == if Readable(src).1 then Some(Readable(src).0) else None
    decreases |src|
  {
    if src != [] && ParseField(src).Some? {
      ReadableIsParsed(ParseField(src).value.tail);
    }
  }

  ghost predicate Holds(fields: seq<(nat, Value)>, num: nat) {
    exists j :: 0 <= j < |fields| && fields[j].0 == num
  }

  ghost predicate FirstAt(fields: seq<(nat, Value)>, num: nat, i: nat) {
    i < |fields| && fields[i].0 == num && forall j :: 0 <= j < i ==> fields[j].0 != num
  }

  lemma HoldsLater(field: (nat, Value), rest: seq<(nat, Value)>, num: nat)
    requires field.0 != num
    ensures Holds([field] + rest, num) <==> Holds(rest, num)
  {
    var fields := [field] + rest;
    if j :| 0 <= j < |rest| && rest[j].0 == num {
      assert fields[j + 1].0 == num;
    }
  }

  lemma FirstLater(field: (nat, Value), rest: seq<(nat, Value)>, num: nat, i: nat)
    requires field.0 != num && FirstAt(rest, num, i)
    ensures FirstAt([field] + rest, num, i + 1)
  {
  }

  /**
   A field is found exactly if one with the number comes before any malformed field, and it is the
   first of them. Otherwise the answer is that there is none, exactly if the message is well formed.
   */
  lemma {:induction false} FindMeans(src: bytes, num: nat) returns (i: nat)
    ensures var (fields, whole) := Readable(src);
            && (Find(src, num) == Some(true) <==> Holds(fields, num))
            && (Find(src, num) == Some(true) ==> FirstAt(fields, num, i) && FoundValue(src, num) == fields[i].1)
            && (Find(src, num) != Some(true) ==> Find(src, num) == if whole then Some(false) else None)
    decreases |src|
  {
    i := 0;
    if src != [] && ParseField(src).Some? {
      var p := ParseField(src).value;
      var rest := Readable(p.tail).0;
      if p.num == num {
        assert ([(p.num, p.value)] + rest)[0].0 == num;
      } else {
        var k := FindMeans(p.tail, num);
        HoldsLater((p.num, p.value), rest, num);
        if Find(p.tail, num) == Some(true) {
          FirstLater((p.num, p.value), rest, num, k);
        }
        i := k + 1;
      }
    }
  }
}
