/**
 Reading a whole tree of nested messages, as the decoders of crates/esl-insert/src/otel.rs do with
 `FieldContext` of crates/esl-common/src/easyproto.rs: field by field, and again for the data of
 every field that holds a message. Which fields do is known to the decoder, not to the bytes.
 */
module ProtoTree {
  import opened Bytes
  import opened WireFormat
  import opened ProtoReader
  import opened ProtoTable
  import opened ProtoMarshaler

  datatype Node = Leaf(num: nat, value: Value) | Branch(num: nat, fields: seq<Node>)

  /** Does the field hold a message? It is named by the field numbers from the root message on. */
  type Schema = seq<nat> -> bool

  lemma DataIsShorter(src: bytes)
    ensures var r := ParseField(src); r.Some? && r.value.value.Data? ==> |r.value.value.data| < |src|
  {
  }

  function ParseTree(schema: Schema, path: seq<nat>, src: bytes): Option<seq<Node>>
    decreases |src|
  {
    if src == [] then Some([]) else
    DataIsShorter(src);
    match ParseField(src)
    case None => None
    case Some(p) =>
      var at := path + [p.num];
      if !schema(at) then Before(Leaf(p.num, p.value), ParseTree(schema, path, p.tail))
      else if !p.value.Data? then None
      else
        match ParseTree(schema, at, p.value.data)
        case None => None
        case Some(fields) => Before(Branch(p.num, fields), ParseTree(schema, path, p.tail))
  }

  function Before(node: Node, rest: Option<seq<Node>>): Option<seq<Node>> {
    if rest.None? then None else Some([node] + rest.value)
  }

  function Behind(nodes: seq<Node>, rest: Option<seq<Node>>): Option<seq<Node>> {
    if rest.None? then None else Some(nodes + rest.value)
  }

  lemma BehindNothing(rest: Option<seq<Node>>)
    ensures Behind([], rest) == rest
  {
    if rest.Some? {
      assert [] + rest.value == rest.value;
    }
  }

  lemma BehindOne(nodes: seq<Node>, node: Node, rest: Option<seq<Node>>)
    ensures Behind(nodes, Before(node, rest)) == Behind(nodes + [node], rest)
  {
    if rest.Some? {
      assert nodes + ([node] + rest.value) == nodes + [node] + rest.value;
    }
  }

  /** The value that the context holds. */
  function ValueIn(fc: FieldContext): Value
    reads fc
  {
    if fc.wireType == LEN then Data(fc.data)
    else if fc.wireType == VARINT then IntValue(fc.intValue)
    else if fc.wireType == I64 then Fixed64(fc.intValue)
    else Fixed32(fc.intValue)
  }

  /** One turn of a decoder's loop: the field, with what is nested in it, and the bytes behind it. */
  method DecodeField(schema: Schema, path: seq<nat>, src: bytes) returns (r: Option<(Node, bytes)>)
    requires src != []
    ensures r.Some? ==> |r.value.1| < |src|
    ensures ParseTree(schema, path, src)
            == if r.None? then None else Before(r.value.0, ParseTree(schema, path, r.value.1))
    decreases |src|, 0
  {
    var fc := new FieldContext();
    var tail := fc.NextField(src);
    if tail.None? {
      return None;
    }
    DataIsShorter(src);
    assert ParseField(src).value.value == ValueIn(fc);
    if !schema(path + [fc.fieldNum]) {
      return Some((Leaf(fc.fieldNum, ValueIn(fc)), tail.value));
    }
    if fc.wireType != LEN {
      return None;
    }
    var num := fc.fieldNum;
    var fields := Decode(schema, path + [num], fc.data);
    if fields.None? {
      return None;
    }
    r := Some((Branch(num, fields.value), tail.value));
  }

  /** Decodes a message with all that is nested in it; fails exactly if some message is malformed. */
  method Decode(schema: Schema, path: seq<nat>, src: bytes) returns (r: Option<seq<Node>>)
    ensures r == ParseTree(schema, path, src)
    decreases |src|, 1
  {
    var nodes, rest := [], src;
    BehindNothing(ParseTree(schema, path, src));
    while rest != []
      invariant |rest| <= |src|
      invariant ParseTree(schema, path, src) == Behind(nodes, ParseTree(schema, path, rest))
      decreases |rest|
    {
      var field := DecodeField(schema, path, rest);
      if field.None? {
        return None;
      }
      BehindOne(nodes, field.value.0, ParseTree(schema, path, field.value.1));
      nodes, rest := nodes + [field.value.0], field.value.1;
    }
    assert nodes + [] == nodes;
    r := Some(nodes);
  }

  // ----- what was appended comes back

  ghost function TreeOf(t: Table, i: nat): seq<Node>
    requires WellNested(t) && i < |t|
    decreases |t| - i, 1, 0
  {
    NodesOf(t, i, t[i])
  }

  ghost function NodesOf(t: Table, i: nat, items: seq<Item>): seq<Node>
    requires WellNested(t) && i < |t| && NestedWithin(items, i, |t|)
    decreases |t| - i, 0, |items|
  {
    if items == [] then [] else
    var item := items[0];
    var node := if item.Nested? then Branch(item.num, TreeOf(t, item.child)) else Leaf(item.num, item.value);
    [node] + NodesOf(t, i, items[1..])
  }

  /** Messages are nested exactly in the fields that the decoder takes for messages. */
  ghost predicate Conforms(schema: Schema, path: seq<nat>, t: Table, i: nat, items: seq<Item>)
    requires WellNested(t) && i < |t| && NestedWithin(items, i, |t|)
    decreases |t| - i, |items|
  {
    items == [] ||
    var item := items[0];
    && schema(path + [item.num]) == item.Nested?
    && (item.Nested? ==> Conforms(schema, path + [item.num], t, item.child, t[item.child]))
    && Conforms(schema, path, t, i, items[1..])
  }

  ghost predicate RowsEncodable(t: Table)
    requires WellNested(t)
  {
    forall i :: 0 <= i < |t| ==> RowEncodable(t, i)
  }

  ghost predicate RowEncodable(t: Table, i: nat)
    requires WellNested(t) && i < |t|
  {
    assert NestedWithin(t[i], i, |t|);
    AllEncodable(t, t[i])
  }

  lemma FirstEncodable(t: Table, i: nat, items: seq<Item>)
    requires WellNested(t) && i < |t| && NestedWithin(items, i, |t|) && items != [] && AllEncodable(t, items)
    ensures Encodable(items[0].num, ValueOf(t, items[0])) && AllEncodable(t, items[1..])
  {
    var fields, rest := Fields(t, items), Fields(t, items[1..]);
    assert fields[0] == (items[0].num, ValueOf(t, items[0])) && fields[1..] == rest;
    forall j | 0 <= j < |rest|
      ensures Encodable(rest[j].0, rest[j].1)
    {
      assert rest[j] == fields[j + 1];
    }
  }

  /** Decoding an encoded message gives its fields and, at any depth, those of the messages in it. */
  lemma {:induction false} TreeReadsBack(schema: Schema, path: seq<nat>, t: Table, i: nat, items: seq<Item>)
    requires WellNested(t) && RowsEncodable(t) && i < |t| && NestedWithin(items, i, |t|)
    requires AllEncodable(t, items) && Conforms(schema, path, t, i, items)
    ensures ParseTree(schema, path, EncodeItems(t, i, items)) == Some(NodesOf(t, i, items))
    decreases |t| - i, |items|
  {
    if items != [] {
      var item, rest := items[0], items[1..];
      FirstEncodable(t, i, items);
      TreeReadsBack(schema, path, t, i, rest);
      FieldReadsBack(item.num, ValueOf(t, item), EncodeItems(t, i, rest));
      if item.Nested? {
        assert RowEncodable(t, item.child);
        TreeReadsBack(schema, path + [item.num], t, item.child, t[item.child]);
      }
    }
  }

  /** Whatever messages have been appended, marshalling and decoding gives them back, nested as they were. */
  method MarshalAndDecode(m: Marshaler, schema: Schema) returns (r: Option<seq<Node>>)
    requires m.Valid() && m.table != [] && RowsEncodable(m.table)
    requires Conforms(schema, [], m.table, 0, m.table[0])
    modifies m`sizes
    ensures m.Valid() && r == Some(TreeOf(m.table, 0))
  {
    var data := m.Marshal([]);
    assert RowEncodable(m.table, 0);
    TreeReadsBack(schema, [], m.table, 0, m.table[0]);
    assert data == EncodeMessage(m.table, 0);
    r := Decode(schema, [], data);
  }
}
