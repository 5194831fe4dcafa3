/**
 The protobuf wire format of crates/esl-common/src/easyproto.rs: variable-length integers and
 the two-byte fast paths around them. Shifts and masks of the source are written as arithmetic.
 */
module WireFormat {
  import opened Bytes

  const VARINT: nat := 0
  const I64: nat := 1
  const LEN: nat := 2
  const I32: nat := 5

  const U32_LIMIT: nat := 0x1_0000_0000

  /** Seven bits a byte, low-order first; the high bit says that more follow. */
  function Varint(n: nat): (b: bytes)
    ensures |b| > 0
  {
    if n < 0x80 then [n as byte] else [(0x80 + n % 0x80) as byte] + Varint(n / 0x80)
  }

  method MarshalVarUint64(dst: bytes, n: nat) returns (r: bytes)
    ensures r == dst + Varint(n)
  {
    if n < 0x80 {
      return dst + [n as byte];
    }
    r := dst;
    var u := n;
    while u > 0x7f
      invariant r + Varint(u) == dst + Varint(n)
      decreases u
    {
      assert r + ([(0x80 + u % 0x80) as byte] + Varint(u / 0x80)) == r + [(0x80 + u % 0x80) as byte] + Varint(u / 0x80);
      r := r + [(0x80 + u % 0x80) as byte];
      u := u / 0x80;
    }
    r := r + [u as byte];
  }

  /** The number of bits of `n` without leading zeros. */
  function BitLength(n: nat): nat {
    if n == 0 then 0 else 1 + BitLength(n / 2)
  }

  function VaruintLen(n: nat): nat {
    (BitLength(n) + 6) / 7
  }

  /** The computed length is right for every integer but zero, for which it is zero. */
  lemma {:induction false} VaruintLenIsLength(n: nat)
    ensures VaruintLen(n) == if n == 0 then 0 else |Varint(n)|
  {
    if n >= 0x80 {
      VaruintLenIsLength(n / 0x80);
      BitLengthBy7(n);
    } else {
      BitLengthSmall(n);
    }
  }

  lemma BitLengthSmall(n: nat)
    requires n < 0x80
    ensures n > 0 ==> 1 <= BitLength(n) <= 7
  {
    var a := n / 2; var b := a / 2; var c := b / 2; var d := c / 2; var e := d / 2; var f := e / 2;
    assert BitLength(f) <= 1;
    assert BitLength(d) <= 3;
    assert BitLength(b) <= 5;
  }

  lemma BitLengthBy7(n: nat)
    requires n >= 0x80
    ensures BitLength(n) == 7 + BitLength(n / 0x80)
  {
    var a := n / 2; var b := a / 2; var c := b / 2; var d := c / 2; var e := d / 2; var f := e / 2;
    assert BitLength(n) == 1 + BitLength(a);
    assert BitLength(a) == 1 + BitLength(b);
    assert BitLength(b) == 1 + BitLength(c);
    assert BitLength(c) == 1 + BitLength(d);
    assert BitLength(d) == 1 + BitLength(e);
    assert BitLength(e) == 1 + BitLength(f);
    assert f / 2 == n / 0x80;
    assert BitLength(f) == 1 + BitLength(f / 2);
  }

  /**
   The integer that starts at `buf[i]`, `i` bytes into its encoding, and the total number of bytes
   read; that is 0 if `buf` ends too early and negative if the integer has more than 64 bits.
   */
  function UvarintFrom(buf: bytes, i: nat): (r: (nat, int))
    requires i <= |buf| && i <= 10
    ensures r.1 > 0 ==> i < r.1 <= |buf| && r.1 <= 10
    decreases |buf| - i
  {
    if i == |buf| then (0, 0)
    else if i == 10 then (0, -11)
    else if buf[i] < 0x80 then
      if i == 9 && buf[i] > 1 then (0, -10) else (buf[i] as nat, i + 1)
    else
      var (v, n) := UvarintFrom(buf, i + 1);
      if n <= 0 then (0, n) else (buf[i] as nat - 0x80 + 0x80 * v, n)
  }

  function Times(a: nat, b: nat): nat {
    a * b
  }

  /** `x` is what the first `i` bytes contribute, the next one counts `scale` times. */
  ghost predicate Accumulated(buf: bytes, i: nat, x: nat, scale: nat) {
    && i <= |buf| && i <= 10
    && var r := UvarintFrom(buf, i);
    UvarintFrom(buf, 0) == if r.1 <= 0 then (0, r.1) else (x + Times(scale, r.0), r.1)
  }

  lemma AccumulateOne(buf: bytes, i: nat, x: nat, scale: nat)
    requires Accumulated(buf, i, x, scale) && i < |buf| && i < 10 && buf[i] >= 0x80
    ensures Accumulated(buf, i + 1, x + Times(scale, buf[i] as nat - 0x80), 0x80 * scale)
  {
    Scaled(x, scale, buf[i] as nat - 0x80, UvarintFrom(buf, i + 1).0);
  }

  lemma Scaled(x: nat, scale: nat, low: nat, v: nat)
    ensures x + Times(scale, low + 0x80 * v) == (x + Times(scale, low)) + Times(0x80 * scale, v)
  {
  }

  method Uvarint(buf: bytes) returns (x: nat, n: int)
    ensures (x, n) == UvarintFrom(buf, 0)
  {
    x := 0;
    var scale: nat := 1;
    var i: nat := 0;
    while i < |buf|
      invariant Accumulated(buf, i, x, scale)
    {
      if i == 10 {
        return 0, -11;
      }
      if buf[i] < 0x80 {
        if i == 9 && buf[i] > 1 {
          return 0, -10;
        }
        return x + Times(scale, buf[i] as nat), i + 1;
      }
      AccumulateOne(buf, i, x, scale);
      x := x + Times(scale, buf[i] as nat - 0x80);
      scale := 0x80 * scale;
      i := i + 1;
    }
    return 0, 0;
  }

  /** The integers that still fit after `i` bytes. */
  function Remaining(i: nat): nat
    requires i <= 9
    decreases 9 - i
  {
    if i == 9 then 2 else 0x80 * Remaining(i + 1)
  }

  lemma RemainingAtStart()
    ensures Remaining(0) == U64_LIMIT
  {
    assert Remaining(8) == 0x100;
    assert Remaining(6) == 0x80 * 0x80 * 0x100;
    assert Remaining(4) == 0x80 * 0x80 * 0x80 * 0x80 * 0x100;
    assert Remaining(2) == 0x80 * 0x80 * 0x80 * 0x80 * 0x80 * 0x80 * 0x100;
  }

  lemma SuffixStep(buf: bytes, i: nat, first: byte, rest: bytes)
    requires i <= |buf| && buf[i..] == [first] + rest
    ensures i < |buf| && buf[i] == first && buf[i + 1..] == rest
  {
    assert buf[i..][0] == first && buf[i..][1..] == rest;
  }

  /** Decoding inverts encoding, whatever comes before and after. */
  lemma {:induction false} UvarintFromReadsBack(buf: bytes, i: nat, n: nat, tail: bytes)
    requires i <= 9 && n < Remaining(i) && i <= |buf| && buf[i..] == Varint(n) + tail
    ensures UvarintFrom(buf, i) == (n, i + |Varint(n)|)
    decreases n
  {
    if n < 0x80 {
      SuffixStep(buf, i, n as byte, tail);
    } else {
      var first, more := (0x80 + n % 0x80) as byte, Varint(n / 0x80);
      assert Varint(n) + tail == [first] + (more + tail);
      SuffixStep(buf, i, first, more + tail);
      UvarintFromReadsBack(buf, i + 1, n / 0x80, tail);
      UvarintStep(buf, i, n, i + 1 + |more|);
    }
  }

  lemma UvarintStep(buf: bytes, i: nat, n: nat, end: nat)
    requires i < |buf| && i < 10 && buf[i] as nat == 0x80 + n % 0x80 && end > 0
    requires UvarintFrom(buf, i + 1) == (n / 0x80, end)
    ensures UvarintFrom(buf, i) == (n, end)
  {
  }

  lemma UvarintReadsBack(n: nat, tail: bytes)
    requires n < U64_LIMIT
    ensures UvarintFrom(Varint(n) + tail, 0) == (n, |Varint(n)|)
  {
    RemainingAtStart();
    UvarintFromReadsBack(Varint(n) + tail, 0, n, tail);
  }

  function MakeTag(num: nat, wire: nat): nat {
    num * 8 + wire
  }

  // ----- what the bytes mean

  function Power128(k: nat): (p: nat)
    ensures p > 0
  {
    if k == 0 then 1 else 128 * Power128(k - 1)
  }

  /**
   Byte `i` holds the group of seven bits that is worth 128 to the power of `i`; all but the last have
   the high bit.
   */
  lemma {:induction false} VarintAt(n: nat, i: nat)
    requires i < |Varint(n)|
    ensures Varint(n)[i] as nat == n / Power128(i) % 128 + if i < |Varint(n)| - 1 then 128 else 0
    ensures n < Power128(|Varint(n)|)
    decreases n
  {
    if n < 0x80 {
      assert Power128(0) == 1 && Power128(1) == 128;
    } else {
      VarintAt(n / 0x80, if i == 0 then 0 else i - 1);
      var p := Power128(|Varint(n / 0x80)|);
      assert n < 128 * p;
      if i > 0 {
        DivideTwice(n, 128, Power128(i - 1));
      } else {
        assert Power128(0) == 1;
      }
    }
  }

  /** The position of the first byte without the high bit, or the length. */
  function Terminator(buf: bytes): (k: nat)
    ensures k <= |buf| && (forall i :: 0 <= i < k ==> buf[i] >= 128) && (k < |buf| ==> buf[k] < 128)
  {
    if buf == [] || buf[0] < 128 then 0 else 1 + Terminator(buf[1..])
  }

  lemma {:induction false} TerminatorFrom(buf: bytes, i: nat)
    requires i <= |buf| && forall j :: 0 <= j < i ==> buf[j] >= 128
    ensures Terminator(buf) == i + Terminator(buf[i..])
    decreases i
  {
    if i == 0 {
      assert buf[0..] == buf;
    } else {
      TerminatorFrom(buf[1..], i - 1);
      assert buf[1..][i - 1..] == buf[i..];
    }
  }

  /** A number ends at the first byte without the high bit; it is missing, too long or too large exactly so. */
  lemma {:induction false} UvarintEnds(buf: bytes, i: nat)
    requires i <= |buf| && i <= 10
    ensures var n, k := UvarintFrom(buf, i).1, i + Terminator(buf[i..]);
            && (n > 0 <==> k < |buf| && k < 10 && (k == 9 ==> buf[9] <= 1))
            && (n > 0 ==> n == k + 1)
            && (n == 0 <==> k == |buf| && k <= 10)
    decreases |buf| - i
  {
    if i < |buf| {
      assert buf[i..][0] == buf[i] && buf[i..][1..] == buf[i + 1..];
      if i < 10 && buf[i] >= 0x80 {
        UvarintEnds(buf, i + 1);
      }
    }
  }

  /** The groups of seven bits of `k` bytes, the first counting once, each further one 128 times as much. */
  function Groups(buf: bytes, i: nat, k: nat): (terms: seq<nat>)
    requires i + k <= |buf|
    ensures |terms| == k && forall j :: 0 <= j < k ==> terms[j] == buf[i + j] as nat % 128 * Power128(j)
  {
    seq(k, j requires 0 <= j < k => buf[i + j] as nat % 128 * Power128(j))
  }

  lemma GroupsStep(buf: bytes, i: nat, k: nat)
    requires k > 0 && i + k <= |buf|
    ensures SumOf(Groups(buf, i, k)) == buf[i] as nat % 128 + 128 * SumOf(Groups(buf, i + 1, k - 1))
  {
    var terms, rest := Groups(buf, i, k), Groups(buf, i + 1, k - 1);
    forall j | 0 <= j < |rest|
      ensures terms[1..][j] == 128 * rest[j]
    {
      Scaled128(buf[i + 1 + j] as nat % 128, Power128(j));
    }
    SumScaled(128, rest, terms[1..]);
    assert Power128(0) == 1;
  }

  /** Its value is the sum of its groups. */
  lemma {:induction false} UvarintIs(buf: bytes, i: nat, k: nat)
    requires i <= |buf| && i <= 10 && k > 0 && UvarintFrom(buf, i).1 == i + k
    ensures UvarintFrom(buf, i).0 == SumOf(Groups(buf, i, k))
    decreases k
  {
    GroupsStep(buf, i, k);
    if buf[i] < 0x80 {
      assert Groups(buf, i + 1, 0) == [];
    } else {
      UvarintIs(buf, i + 1, k - 1);
    }
  }

  lemma Scaled128(a: nat, p: nat)
    ensures a * (128 * p) == 128 * (a * p)
  {
  }
}
