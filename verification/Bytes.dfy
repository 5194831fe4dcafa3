/** Bytes, byte strings and the fixed-width integer encodings shared by the models. */
module Bytes {

  newtype byte = x: int | 0 <= x < 256

  type bytes = seq<byte>

  const U64_LIMIT: nat := 0x1_0000_0000_0000_0000

  datatype Option<+T> = None | Some(value: T)

  lemma Associates<T>(a: seq<T>, b: seq<T>, c: seq<T>)
    ensures a + b + c == a + (b + c)
  {
  }

  /** The concatenation of the pieces. */
  function Flatten(pieces: seq<bytes>): bytes {
    if pieces == [] then [] else Flatten(pieces[..|pieces| - 1]) + pieces[|pieces| - 1]
  }

  lemma {:induction false} FlattenFirst(pieces: seq<bytes>)
    requires pieces != []
    ensures Flatten(pieces) == pieces[0] + Flatten(pieces[1..])
  {
    var n := |pieces| - 1;
    if n > 0 {
      FlattenFirst(pieces[..n]);
      assert pieces[..n][1..] == pieces[1..][..n - 1];
    } else {
      assert pieces[..n] == [] && pieces[1..] == [];
    }
  }

  lemma FlattenAppend(pieces: seq<bytes>, last: bytes)
    ensures Flatten(pieces + [last]) == Flatten(pieces) + last
  {
    assert (pieces + [last])[..|pieces|] == pieces;
  }

  function Power256(k: nat): (p: nat)
    ensures p > 0
  {
    if k == 0 then 1 else 256 * Power256(k - 1)
  }

  /** The `k` low-order bytes of `n`, most significant first. */
  function BigEndian(n: nat, k: nat): (b: bytes)
    ensures |b| == k
  {
    if k == 0 then [] else BigEndian(n / 256, k - 1) + [(n % 256) as byte]
  }

  function FromBigEndian(b: bytes): nat {
    if b == [] then 0 else FromBigEndian(b[..|b| - 1]) * 256 + b[|b| - 1] as nat
  }

  lemma Apart(d: nat, a: nat, x: nat, b: nat, y: nat)
    requires a < b && x == a * d && y == b * d
    ensures x + d <= y
  {
    var k := b - a - 1;
    assert y == x + d + k * d;
  }

  lemma QuotientIs(n: nat, d: nat, q: nat, x: nat, r: nat)
    requires r < d && x == q * d && n == x + r
    ensures n / d == q
  {
    var a, y, s := Divided(n, d);
    if a < q {
      Apart(d, a, y, q, x);
    } else if q < a {
      Apart(d, q, x, a, y);
    }
  }

  lemma Divided(a: nat, p: nat) returns (q: nat, x: nat, r: nat)
    requires p > 0
    ensures q == a / p && x == q * p && a == x + r && r < p
  {
    q, r := a / p, a % p;
    x := q * p;
  }

  lemma ProductOf(c: nat, q: nat, p: nat, x: nat)
    requires x == q * p
    ensures c * x == q * (c * p)
  {
  }

  lemma DivideTwice(n: nat, c: nat, p: nat)
    requires (c == 128 || c == 256) && p > 0
    ensures c * p > 0 && n / (c * p) == n / c / p
  {
    var q, x, r := Divided(n / c, p);
    ProductOf(c, q, p, x);
    if c == 128 {
      QuotientIs(n, 128 * p, q, 128 * x, 128 * r + n % 128);
    } else {
      QuotientIs(n, 256 * p, q, 256 * x, 256 * r + n % 256);
    }
  }

  /** The most significant byte comes first: byte `i` is worth 256 to the power of how many follow it. */
  lemma {:induction false} BigEndianAt(n: nat, k: nat, i: nat)
    requires i < k
    ensures BigEndian(n, k)[i] as nat == n / Power256(k - 1 - i) % 256
    decreases k
  {
    if i < k - 1 {
      BigEndianAt(n / 256, k - 1, i);
      DivideTwice(n, 256, Power256(k - 2 - i));
    } else {
      assert Power256(0) == 1;
    }
  }

  function SumOf(terms: seq<nat>): nat {
    if terms == [] then 0 else terms[0] + SumOf(terms[1..])
  }

  lemma {:induction false} SumScaled(c: nat, terms: seq<nat>, scaled: seq<nat>)
    requires |scaled| == |terms| && forall i :: 0 <= i < |terms| ==> scaled[i] == c * terms[i]
    ensures SumOf(scaled) == c * SumOf(terms)
  {
    if terms != [] {
      SumScaled(c, terms[1..], scaled[1..]);
      assert c * (terms[0] + SumOf(terms[1..])) == c * terms[0] + c * SumOf(terms[1..]);
    }
  }

  lemma {:induction false} FromBigEndianFirst(b: bytes)
    requires b != []
    ensures FromBigEndian(b) == b[0] as nat * Power256(|b| - 1) + FromBigEndian(b[1..])
  {
    var m := |b| - 1;
    if m == 0 {
      assert b[..0] == [] && b[1..] == [];
    } else {
      FromBigEndianFirst(b[..m]);
      assert b[..m][1..] == b[1..][..m - 1] && b[1..][m - 1] == b[m];
      ScaledUp(b[0] as nat, Power256(m - 1), FromBigEndian(b[1..][..m - 1]));
    }
  }

  lemma ScaledUp(a: nat, p: nat, rest: nat)
    ensures (a * p + rest) * 256 == a * (256 * p) + rest * 256
  {
  }

  /** A big-endian number is the sum of its bytes, each times the power of 256 of how many follow it. */
  lemma {:induction false} FromBigEndianIs(b: bytes, terms: seq<nat>)
    requires |terms| == |b|
    requires forall i :: 0 <= i < |b| ==> terms[i] == b[i] as nat * Power256(|b| - 1 - i)
    ensures FromBigEndian(b) == SumOf(terms)
  {
    if b != [] {
      FromBigEndianFirst(b);
      FromBigEndianIs(b[1..], terms[1..]);
    }
  }

  lemma {:induction false} BigEndianRoundTrip(n: nat, k: nat)
    requires n < Power256(k)
    ensures FromBigEndian(BigEndian(n, k)) == n
  {
    if k > 0 {
      BigEndianRoundTrip(n / 256, k - 1);
      assert BigEndian(n, k)[..k - 1] == BigEndian(n / 256, k - 1);
    }
  }

  /** The `k` low-order bytes of `n`, least significant first. */
  function LittleEndian(n: nat, k: nat): (b: bytes)
    ensures |b| == k
  {
    if k == 0 then [] else [(n % 256) as byte] + LittleEndian(n / 256, k - 1)
  }

  function FromLittleEndian(b: bytes): nat {
    if b == [] then 0 else b[0] as nat + 256 * FromLittleEndian(b[1..])
  }

  lemma {:induction false} LittleEndianRoundTrip(n: nat, k: nat)
    requires n < Power256(k)
    ensures FromLittleEndian(LittleEndian(n, k)) == n
  {
    if k > 0 {
      LittleEndianRoundTrip(n / 256, k - 1);
    }
  }

  /** The least significant byte comes first: byte `i` is worth 256 to the power of how many come before it. */
  lemma {:induction false} LittleEndianAt(n: nat, k: nat, i: nat)
    requires i < k
    ensures LittleEndian(n, k)[i] as nat == n / Power256(i) % 256
    decreases k
  {
    if i > 0 {
      LittleEndianAt(n / 256, k - 1, i - 1);
      DivideTwice(n, 256, Power256(i - 1));
    } else {
      assert Power256(0) == 1;
    }
  }

  /** A little-endian number is the sum of its bytes, each times the power of 256 of how many come before it. */
  lemma {:induction false} FromLittleEndianIs(b: bytes, terms: seq<nat>)
    requires |terms| == |b|
    requires forall i :: 0 <= i < |b| ==> terms[i] == b[i] as nat * Power256(i)
    ensures FromLittleEndian(b) == SumOf(terms)
  {
    if b != [] {
      var rest := seq(|b| - 1, i requires 0 <= i < |b| - 1 => b[i + 1] as nat * Power256(i));
      FromLittleEndianIs(b[1..], rest);
      forall i | 0 <= i < |rest|
        ensures terms[1..][i] == 256 * rest[i]
      {
        ScaledUp(b[i + 1] as nat, Power256(i), 0);
      }
      SumScaled(256, rest, terms[1..]);
      assert Power256(0) == 1;
    }
  }

  lemma Power256At8()
    ensures Power256(0) == 1 && Power256(1) == 256
    ensures Power256(4) == 0x1_0000_0000 && Power256(8) == U64_LIMIT == 0x1_0000_0000_0000_0000
  {
    assert Power256(2) == 65536;
    assert Power256(4) == 65536 * 65536;
    assert Power256(6) == 65536 * 65536 * 65536;
  }
}
