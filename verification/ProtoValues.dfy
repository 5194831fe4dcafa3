/**
 How typed values become the numbers of varint fields and come back (crates/esl-common/src/easyproto.rs).
 Shifting a signed number right by all but one bit gives all ones or all zeros, and so does the
 exclusive or with it flip all bits or none.
 */
module ProtoValues {
  import opened Bytes
  import opened Integers
  import opened ProtoReader
  import opened WireFormat

  function EncodeZigZag64(v: int): nat {
    Unsigned64(Flipped(Wrap64(v * 2), v < 0))
  }

  function DecodeZigZag64(u: nat): int {
    Flipped(Wrap64(u / 2), u % 2 == 1)
  }

  function EncodeZigZag32(v: int): nat {
    Unsigned32(Flipped(Wrap32(v * 2), v < 0))
  }

  function DecodeZigZag32(u: nat): int {
    Flipped(Wrap32(u / 2), u % 2 == 1)
  }

  /** Numbers near zero, of either sign, become small: none is lost to the shift. */
  lemma ZigZag64Means(v: int)
    requires Int64(v)
    ensures EncodeZigZag64(v) == if v >= 0 then 2 * v else -2 * v - 1
  {
    if v >= 0x4000_0000_0000_0000 {
      assert Wrap64(v * 2) == v * 2 - 0x1_0000_0000_0000_0000;
    } else if v < -0x4000_0000_0000_0000 {
      assert Wrap64(v * 2) == v * 2 + 0x1_0000_0000_0000_0000;
    }
  }

  lemma ZigZag32Means(v: int)
    requires Int32(v)
    ensures EncodeZigZag32(v) == if v >= 0 then 2 * v else -2 * v - 1
  {
    if v >= 0x4000_0000 {
      assert Wrap32(v * 2) == v * 2 - 0x1_0000_0000;
    } else if v < -0x4000_0000 {
      assert Wrap32(v * 2) == v * 2 + 0x1_0000_0000;
    }
  }

  lemma UnZigZag64Means(k: nat)
    requires k < 0x8000_0000_0000_0000
    ensures DecodeZigZag64(2 * k) == k && DecodeZigZag64(2 * k + 1) == -1 - k
  {
    assert 2 * k / 2 == k && (2 * k + 1) / 2 == k;
  }

  lemma UnZigZag32Means(k: nat)
    requires k < 0x8000_0000
    ensures DecodeZigZag32(2 * k) == k && DecodeZigZag32(2 * k + 1) == -1 - k
  {
    assert 2 * k / 2 == k && (2 * k + 1) / 2 == k;
  }

  /** Decoding and encoding are inverse to each other on all 64-bit numbers. */
  lemma ZigZag64Inverts(v: int, u: nat)
    requires Int64(v) && u < U64_LIMIT
    ensures EncodeZigZag64(v) < U64_LIMIT && DecodeZigZag64(EncodeZigZag64(v)) == v
    ensures Int64(DecodeZigZag64(u)) && EncodeZigZag64(DecodeZigZag64(u)) == u
  {
    ZigZag64Means(v);
    UnZigZag64Means(if v >= 0 then v else -v - 1);
    UnZigZag64Means(u / 2);
    ZigZag64Means(DecodeZigZag64(u));
  }

  /** And on all 32-bit numbers. */
  lemma ZigZag32Inverts(v: int, u: nat)
    requires Int32(v) && u < U32_LIMIT
    ensures EncodeZigZag32(v) < U32_LIMIT && DecodeZigZag32(EncodeZigZag32(v)) == v
    ensures Int32(DecodeZigZag32(u)) && EncodeZigZag32(DecodeZigZag32(u)) == u
  {
    ZigZag32Means(v);
    UnZigZag32Means(if v >= 0 then v else -v - 1);
    UnZigZag32Means(u / 2);
    ZigZag32Means(DecodeZigZag32(u));
  }

  // ----- what a reader makes of a varint

  function ToUint32(n: nat): Option<nat> {
    if n >= U32_LIMIT then None else Some(n)
  }

  function ToInt32(n: nat): Option<int> {
    match ToUint32(n) case None => None case Some(u) => Some(Wrap32(u))
  }

  function ToSint32(n: nat): Option<int> {
    match ToUint32(n) case None => None case Some(u) => Some(DecodeZigZag32(u))
  }

  function ToBool(n: nat): Option<bool> {
    if n == 0 then Some(false) else if n == 1 then Some(true) else None
  }

  /** What is read of a field whose number came from an appended value. */
  lemma VarintReadsBack(num: nat, n: nat, tail: bytes)
    requires num < U32_LIMIT && n < U64_LIMIT
    ensures ParseField(EncodeField(num, IntValue(n)) + tail) == Some(Parsed(num, IntValue(n), tail))
  {
    FieldReadsBack(num, IntValue(n), tail);
  }

  /** Signed numbers that are appended are read back as what they were, behind any field number. */
  lemma Sint64ReadsBack(num: nat, v: int, tail: bytes)
    requires num < U32_LIMIT && Int64(v)
    ensures var r := ParseField(EncodeField(num, IntValue(EncodeZigZag64(v))) + tail);
            r.Some? && r.value.value.IntValue? && DecodeZigZag64(r.value.value.n) == v && r.value.tail == tail
  {
    ZigZag64Inverts(v, 0);
    VarintReadsBack(num, EncodeZigZag64(v), tail);
  }

  lemma Sint32ReadsBack(num: nat, v: int, tail: bytes)
    requires num < U32_LIMIT && Int32(v)
    ensures var r := ParseField(EncodeField(num, IntValue(EncodeZigZag32(v))) + tail);
            r.Some? && r.value.value.IntValue? && ToSint32(r.value.value.n) == Some(v) && r.value.tail == tail
  {
    ZigZag32Inverts(v, 0);
    VarintReadsBack(num, EncodeZigZag32(v), tail);
  }

  lemma Int32ReadsBack(num: nat, v: int, tail: bytes)
    requires num < U32_LIMIT && Int32(v)
    ensures var r := ParseField(EncodeField(num, IntValue(Unsigned32(v))) + tail);
            r.Some? && r.value.value.IntValue? && ToInt32(r.value.value.n) == Some(v) && r.value.tail == tail
  {
    var n := Unsigned32(v);
    assert ToInt32(n) == Some(v);
    VarintReadsBack(num, n, tail);
  }

  lemma BoolReadsBack(num: nat, b: bool, tail: bytes)
    requires num < U32_LIMIT
    ensures var r := ParseField(EncodeField(num, IntValue(if b then 1 else 0)) + tail);
            r.Some? && r.value.value.IntValue? && ToBool(r.value.value.n) == Some(b) && r.value.tail == tail
  {
    VarintReadsBack(num, if b then 1 else 0, tail);
  }

  /** A varint is accepted as a signed 32-bit number exactly if there is one that is appended as it. */
  lemma Sint32AcceptedExactly(n: nat)
    ensures ToSint32(n).Some? <==> exists v :: Int32(v) && EncodeZigZag32(v) == n
  {
    if n < U32_LIMIT {
      ZigZag32Inverts(0, n);
    } else {
      forall v | Int32(v)
        ensures EncodeZigZag32(v) != n
      {
        ZigZag32Inverts(v, 0);
      }
    }
  }

  /** Varints are refused where they do not fit: 32-bit numbers beyond 32 bits, truth values beyond 1. */
  lemma NarrowExactly(n: nat)
    ensures ToUint32(n) == if n <= 0xffff_ffff then Some(n) else None
    ensures ToInt32(n)
            == if n < 0x8000_0000 then Some(n) else if n <= 0xffff_ffff then Some(n - 0x1_0000_0000) else None
    ensures ToBool(n) == if n == 0 then Some(false) else if n == 1 then Some(true) else None
  {
  }
}
