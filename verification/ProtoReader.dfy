/** Reading protobuf fields one by one (`FieldContext` in crates/esl-common/src/easyproto.rs). */
module ProtoReader {
  import opened Bytes
  import opened WireFormat

  /** A field's value by wire type. */
  datatype Value = IntValue(n: nat) | Fixed64(n: nat) | Data(data: bytes) | Fixed32(n: nat) {
    function Wire(): nat {
      match this
      case IntValue(_) => VARINT
      case Fixed64(_) => I64
      case Data(_) => LEN
      case Fixed32(_) => I32
    }
  }

  datatype Parsed = Parsed(num: nat, value: Value, tail: bytes)

  /** The tag of the first field and how many bytes it takes. */
  function ParseTag(src: bytes): (r: Option<(nat, nat)>)
    ensures r.Some? ==> 0 < r.value.1 <= |src|
  {
    if src == [] then None
    else if src[0] < 0x80 then Some((src[0] as nat, 1))
    else
      var (tag, n) := UvarintFrom(src, 0);
      if n <= 0 || tag / 8 >= U32_LIMIT then None else Some((tag, n))
  }

  function ParseValue(num: nat, wire: nat, src: bytes): (r: Option<Parsed>)
    ensures r.Some? ==> |r.value.tail| <= |src|
  {
    if wire == LEN then
      var (len, n) := UvarintFrom(src, 0);
      if n <= 0 || |src| - n < len then None
      else Some(Parsed(num, Data(src[n..n + len]), src[n + len..]))
    else if wire == VARINT then
      var (v, n) := UvarintFrom(src, 0);
      if n <= 0 then None else Some(Parsed(num, IntValue(v), src[n..]))
    else if wire == I64 then
      if |src| < 8 then None else Some(Parsed(num, Fixed64(FromLittleEndian(src[..8])), src[8..]))
    else if wire == I32 then
      if |src| < 4 then None else Some(Parsed(num, Fixed32(FromLittleEndian(src[..4])), src[4..]))
    else None
  }

  /** The first field of `src`, read without shortcuts. */
  function ParseField(src: bytes): (r: Option<Parsed>)
    ensures r.Some? ==> |r.value.tail| < |src|
  {
    match ParseTag(src)
    case None => None
    case Some((tag, n)) => ParseValue(tag / 8, tag % 8, src[n..])
  }

  /** Does `src` start with a one-byte tag of wire type LEN and a one-byte length? */
  predicate FastCase(src: bytes) {
    |src| >= 2 && src[0] < 0x80 && src[1] < 0x80 && src[0] % 8 == LEN as byte
  }

  function FastField(src: bytes): Option<Parsed>
    requires FastCase(src)
  {
    var len := src[1] as nat;
    if |src| - 2 < len then None
    else Some(Parsed(src[0] as nat / 8, Data(src[2..2 + len]), src[2 + len..]))
  }

  lemma OneByteVarint(src: bytes)
    requires src != [] && src[0] < 0x80
    ensures UvarintFrom(src, 0) == (src[0] as nat, 1)
  {
  }

  /** The shortcut succeeds exactly when the general path does, with the same field and the same rest. */
  lemma FastPathAgrees(src: bytes)
    requires FastCase(src)
    ensures FastField(src) == ParseField(src)
  {
    var rest := src[1..];
    OneByteVarint(rest);
    var len := src[1] as nat;
    if |src| - 2 >= len {
      assert rest[1..1 + len] == src[2..2 + len];
      assert rest[1 + len..] == src[2 + len..];
    }
  }

  class FieldContext {
    var fieldNum: nat
    var wireType: nat
    var data: bytes
    var intValue: nat

    constructor ()
      ensures fieldNum == 0 && wireType == 0 && data == [] && intValue == 0
    {
      fieldNum, wireType, data, intValue := 0, 0, [], 0;
    }

    /** The context holds this field. */
    predicate Holds(num: nat, value: Value)
      reads this
    {
      && fieldNum == num && wireType == value.Wire()
      && match value
         case Data(d) => data == d
         case IntValue(n) => intValue == n
         case Fixed64(n) => intValue == n
         case Fixed32(n) => intValue == n
    }

    method NextField(src: bytes) returns (tail: Option<bytes>)
      modifies this
      ensures var r := ParseField(src);
              && (tail.Some? <==> r.Some?)
              && (tail.Some? ==> tail.value == r.value.tail && Holds(r.value.num, r.value.value))
    {
      if |src| >= 2 && src[0] < 0x80 && src[1] < 0x80 && src[0] % 8 == LEN as byte {
        FastPathAgrees(src);
        var len := src[1] as nat;
        if |src| - 2 < len {
          return None;
        }
        fieldNum, wireType, data := src[0] as nat / 8, LEN, src[2..2 + len];
        return Some(src[2 + len..]);
      }
      if src == [] {
        return None;
      }
      var tag, rest := 0, [];
      if src[0] < 0x80 {
        tag, rest := src[0] as nat, src[1..];
      } else {
        var t, n := Uvarint(src);
        if n <= 0 {
          return None;
        }
        tag, rest := t, src[n..];
        if tag / 8 >= U32_LIMIT {
          return None;
        }
      }
      tail := ReadValue(tag, rest);
    }

    method ReadValue(tag: nat, src: bytes) returns (tail: Option<bytes>)
      modifies this
      ensures var r := ParseValue(tag / 8, tag % 8, src);
              && (tail.Some? <==> r.Some?)
              && (tail.Some? ==> tail.value == r.value.tail && Holds(r.value.num, r.value.value))
    {
      var wt := tag % 8;
      fieldNum, wireType := tag / 8, wt;
      if wt == LEN {
        var len, n := Uvarint(src);
        if n <= 0 || |src| - n < len {
          return None;
        }
        data := src[n..n + len];
        return Some(src[n + len..]);
      }
      if wt == VARINT {
        var v, n := Uvarint(src);
        if n <= 0 {
          return None;
        }
        intValue := v;
        return Some(src[n..]);
      }
      if wt == I64 {
        if |src| < 8 {
          return None;
        }
        intValue := FromLittleEndian(src[..8]);
        return Some(src[8..]);
      }
      if wt == I32 {
        if |src| < 4 {
          return None;
        }
        intValue := FromLittleEndian(src[..4]);
        return Some(src[4..]);
      }
      tail := None;
    }

    /** Looks for the first field with the given number; fails if a field before it cannot be read. */
    method FieldByNum(src: bytes, num: nat) returns (r: Option<bool>)
      modifies this
      ensures r == Find(src, num)
      ensures r == Some(true) ==> Holds(num, FoundValue(src, num))
    {
      var rest := src;
      while rest != []
        invariant Find(src, num) == Find(rest, num)
        invariant Find(src, num) == Some(true) ==> FoundValue(src, num) == FoundValue(rest, num)
        decreases |rest|
      {
        var tail := NextField(rest);
        if tail.None? {
          return None;
        }
        if fieldNum == num {
          return Some(true);
        }
        rest := tail.value;
      }
      r := Some(false);
    }
  }

  /** Whether a field with this number comes before any malformed field, or `None` if one is malformed first. */
  function Find(src: bytes, num: nat): Option<bool>
    decreases |src|
  {
    if src == [] then Some(false) else
    match ParseField(src)
    case None => None
    case Some(p) => if p.num == num then Some(true) else Find(p.tail, num)
  }

  function FoundValue(src: bytes, num: nat): Value
    requires Find(src, num) == Some(true)
    decreases |src|
  {
    var p := ParseField(src).value;
    if p.num == num then p.value else FoundValue(p.tail, num)
  }

  // ----- round trip of one field

  /** The values a field can be given: integers in range, strings no longer than a 64-bit length. */
  ghost predicate Encodable(num: nat, value: Value) {
    && num < U32_LIMIT
    && match value
       case IntValue(n) => n < U64_LIMIT
       case Fixed64(n) => n < U64_LIMIT
       case Data(d) => |d| < U64_LIMIT
       case Fixed32(n) => n < U32_LIMIT
  }

  function EncodeValue(value: Value): bytes {
    match value
    case IntValue(n) => Varint(n)
    case Fixed64(n) => LittleEndian(n, 8)
    case Data(d) => Varint(|d|) + d
    case Fixed32(n) => LittleEndian(n, 4)
  }

  function EncodeField(num: nat, value: Value): bytes {
    Varint(MakeTag(num, value.Wire())) + EncodeValue(value)
  }

  lemma TagReadsBack(tag: nat, tail: bytes)
    requires tag / 8 < U32_LIMIT
    ensures ParseTag(Varint(tag) + tail) == Some((tag, |Varint(tag)|))
  {
    if tag >= 0x80 {
      UvarintReadsBack(tag, tail);
    }
  }

  lemma DataSlices(head: bytes, d: bytes, tail: bytes, src: bytes)
    requires src == head + d + tail
    ensures src == head + (d + tail) && src[|head|..|head| + |d|] == d && src[|head| + |d|..] == tail
  {
  }

  lemma VarintBits(num: nat, rest: bytes, v: nat, n: int)
    requires (v, n) == UvarintFrom(rest, 0)
    ensures ParseValue(num, 0, rest) == if n <= 0 then None else Some(Parsed(num, IntValue(v), rest[n..]))
    ensures ParseValue(num, 2, rest)
            == if n <= 0 || |rest| < n + v then None else Some(Parsed(num, Data(rest[n..n + v]), rest[n + v..]))
  {
  }

  lemma DataReadsBack(num: nat, d: bytes, tail: bytes)
    requires |d| < U64_LIMIT
    ensures ParseValue(num, LEN, Varint(|d|) + d + tail) == Some(Parsed(num, Data(d), tail))
  {
    var head, src := Varint(|d|), Varint(|d|) + d + tail;
    UvarintReadsBack(|d|, d + tail);
    assert head + (d + tail) == src;
    DataSlices(head, d, tail, src);
    VarintBits(num, src, |d|, |head|);
  }

  lemma IntReadsBack(num: nat, n: nat, tail: bytes)
    requires n < U64_LIMIT
    ensures ParseValue(num, VARINT, Varint(n) + tail) == Some(Parsed(num, IntValue(n), tail))
  {
    UvarintReadsBack(n, tail);
  }

  lemma FixedReadsBack(n: nat, k: nat, tail: bytes)
    requires n < Power256(k)
    ensures var src := LittleEndian(n, k) + tail; FromLittleEndian(src[..k]) == n && src[k..] == tail
  {
    LittleEndianRoundTrip(n, k);
    assert (LittleEndian(n, k) + tail)[..k] == LittleEndian(n, k);
  }

  lemma ValueReadsBack(num: nat, value: Value, tail: bytes)
    requires Encodable(num, value)
    ensures ParseValue(num, value.Wire(), EncodeValue(value) + tail) == Some(Parsed(num, value, tail))
  {
    match value
    case IntValue(n) => IntReadsBack(num, n, tail);
    case Fixed64(n) => Power256At8(); FixedReadsBack(n, 8, tail);
    case Fixed32(n) => Power256At8(); FixedReadsBack(n, 4, tail);
    case Data(d) => DataReadsBack(num, d, tail);
  }

  lemma ParseAfter(src: bytes, tag: nat, n: nat, num: nat, wire: nat, rest: bytes)
    requires ParseTag(src) == Some((tag, n)) && num == tag / 8 && wire == tag % 8 && rest == src[n..]
    ensures ParseField(src) == ParseValue(num, wire, rest)
  {
  }

  lemma AfterTag(tag: nat, num: nat, wire: nat, rest: bytes)
    requires tag == num * 8 + wire && num < U32_LIMIT && wire < 8
    ensures ParseField(Varint(tag) + rest) == ParseValue(num, wire, rest)
  {
    var head, src := Varint(tag), Varint(tag) + rest;
    TagReadsBack(tag, rest);
    assert src[|head|..] == rest;
    ParseAfter(src, tag, |head|, num, wire, rest);
  }

  /** Reading a field that was just encoded gives it back and leaves what follows. */
  lemma FieldReadsBack(num: nat, value: Value, tail: bytes)
    requires Encodable(num, value)
    ensures ParseField(EncodeField(num, value) + tail) == Some(Parsed(num, value, tail))
  {
    var head, body := Varint(MakeTag(num, value.Wire())), EncodeValue(value);
    assert head + body + tail == head + (body + tail);
    AfterTag(MakeTag(num, value.Wire()), num, value.Wire(), body + tail);
    ValueReadsBack(num, value, tail);
  }

  // ----- the bytes, by the numbers of the protobuf encoding

  /** The tag is eight times the field number and 0, 1, 2 or 5 by the kind of value. */
  lemma FieldOnTheWire(num: nat, value: Value)
    ensures EncodeField(num, value)
            == match value
               case IntValue(n) => Varint(8 * num) + Varint(n)
               case Fixed64(n) => Varint(8 * num + 1) + LittleEndian(n, 8)
               case Data(d) => Varint(8 * num + 2) + (Varint(|d|) + d)
               case Fixed32(n) => Varint(8 * num + 5) + LittleEndian(n, 4)
  {
  }

  /** Field numbers below 16 take one byte with the kind of value. */
  lemma FirstByte(num: nat, value: Value)
    requires num < 16
    ensures EncodeField(num, value) != []
    ensures EncodeField(num, value)[0] as nat
            == 8 * num + match value case IntValue(_) => 0 case Fixed64(_) => 1 case Data(_) => 2 case Fixed32(_) => 5
  {
    FieldOnTheWire(num, value);
  }

  /** What a reader makes of a field by the low bits of its tag. */
  lemma TagDecides(tag: nat, rest: bytes)
    requires tag / 8 < 0x1_0000_0000
    ensures var r, num, (v, n) := ParseField(Varint(tag) + rest), tag / 8, UvarintFrom(rest, 0);
            && (tag % 8 == 0 ==> r == if n <= 0 then None else Some(Parsed(num, IntValue(v), rest[n..])))
            && (tag % 8 == 1 ==>
                  r == if |rest| < 8 then None else Some(Parsed(num, Fixed64(FromLittleEndian(rest[..8])), rest[8..])))
            && (tag % 8 == 2 ==>
                  r == if n <= 0 || |rest| < n + v then None
                       else Some(Parsed(num, Data(rest[n..n + v]), rest[n + v..])))
            && (tag % 8 == 5 ==>
                  r == if |rest| < 4 then None else Some(Parsed(num, Fixed32(FromLittleEndian(rest[..4])), rest[4..])))
            && (tag % 8 in {3, 4, 6, 7} ==> r == None)
  {
    var (v, n) := UvarintFrom(rest, 0);
    AfterTag(tag, tag / 8, tag % 8, rest);
    VarintBits(tag / 8, rest, v, n);
    FixedBits(tag / 8, tag % 8, rest);
  }

  lemma FixedBits(num: nat, bits: nat, rest: bytes)
    requires bits < 8
    ensures var r := ParseValue(num, bits, rest);
            && (bits == 1 ==>
                  r == if |rest| < 8 then None else Some(Parsed(num, Fixed64(FromLittleEndian(rest[..8])), rest[8..])))
            && (bits == 5 ==>
                  r == if |rest| < 4 then None else Some(Parsed(num, Fixed32(FromLittleEndian(rest[..4])), rest[4..])))
            && (bits in {3, 4, 6, 7} ==> r == None)
  {
  }

  /** A field number of more than 32 bits is refused. */
  lemma TagTooLarge(tag: nat, rest: bytes)
    requires 0x1_0000_0000 <= tag / 8 && tag < 0x1_0000_0000_0000_0000
    ensures ParseField(Varint(tag) + rest) == None
  {
    UvarintReadsBack(tag, rest);
    VarintAt(tag, 0);
    assert (Varint(tag) + rest)[0] == Varint(tag)[0];
  }
}
