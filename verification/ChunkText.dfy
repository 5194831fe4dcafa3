/**
 What the text functions behind a chunk's size line mean, by the characters they are about: UTF-8
 (RFC 3629), white space of Unicode and hexadecimal digits. The source has them from the Rust
 standard library (crates/esl-agent/src/kubernetescollector.rs).
 */
module ChunkText {
  import opened Bytes
  import opened ChunkSize

  // ----- hexadecimal digits

  const LOWER := "0123456789abcdef"
  const UPPER := "0123456789ABCDEF"

  /** A digit as it is written in either case. */
  predicate WritesDigit(b: byte, d: nat) {
    d < 16 && (b as int == LOWER[d] as int || b as int == UPPER[d] as int)
  }

  /** A byte is a digit exactly if it stands for one, and its value is the place in the alphabet. */
  lemma HexDigitExactly(b: byte)
    ensures forall d: nat :: WritesDigit(b, d) ==> HexDigit(b) == Some(d)
    ensures HexDigit(b).Some? ==> WritesDigit(b, HexDigit(b).value)
  {
    forall d: nat | WritesDigit(b, d)
      ensures HexDigit(b) == Some(d)
    {
      AlphabetAt(d);
    }
    if HexDigit(b).Some? {
      AlphabetAt(HexDigit(b).value);
    }
  }

  lemma AlphabetAt(d: nat)
    requires d < 16
    ensures LOWER[d] as int == if d < 10 then 48 + d else 87 + d
    ensures UPPER[d] as int == if d < 10 then 48 + d else 55 + d
  {
  }

  /** These are the digits of `n`, most significant first, perhaps behind zeros. */
  ghost predicate Writes(digits: bytes, n: nat)
    decreases |digits|
  {
    if digits == [] then n == 0 else
    WritesDigit(digits[|digits| - 1], n % 16) && Writes(digits[..|digits| - 1], n / 16)
  }

  lemma WritesLast(digits: bytes, front: bytes, b: byte, x: nat, n: nat)
    requires digits == front + [b] && HexDigit(b).Some? && n == x * 16 + HexDigit(b).value
    ensures Writes(front, x) ==> Writes(digits, n)
  {
    assert digits[..|front|] == front && digits[|front|] == b;
    HexDigitExactly(b);
    LastDigit(x, HexDigit(b).value);
  }

  lemma LastDigit(x: nat, d: nat)
    requires d < 16
    ensures (x * 16 + d) % 16 == d && (x * 16 + d) / 16 == x
  {
  }

  lemma HexOfLast(digits: bytes, front: bytes, b: byte)
    requires digits == front + [b] && AllHex(digits)
    ensures AllHex(front) && HexDigit(b).Some? && HexValue(digits) == HexValue(front) * 16 + HexDigit(b).value
  {
    assert digits[..|front|] == front && digits[|front|] == b;
  }

  /** Every string of digits is written for what it means. */
  lemma {:induction false} HexIsWritten(digits: bytes)
    requires AllHex(digits)
    ensures Writes(digits, HexValue(digits))
    decreases |digits|
  {
    if digits != [] {
      var m := |digits| - 1;
      var front, b := digits[..m], digits[m];
      HexIsWritten(front);
      assert digits == front + [b];
      HexOfLast(digits, front, b);
      WritesLast(digits, front, b, HexValue(front), HexValue(digits));
    }
  }

  /** It means the number that is written so, in either case and mixed. */
  lemma {:induction false} HexReadsBack(digits: bytes, n: nat)
    requires Writes(digits, n)
    ensures AllHex(digits) && HexValue(digits) == n
    decreases |digits|
  {
    if digits != [] {
      var m := |digits| - 1;
      HexDigitExactly(digits[m]);
      HexReadsBack(digits[..m], n / 16);
      AllHexLast(digits, m);
    }
  }

  lemma AllHexLast(digits: bytes, m: nat)
    requires |digits| == m + 1 && AllHex(digits[..m]) && HexDigit(digits[m]).Some?
    ensures AllHex(digits)
  {
    forall i | 0 <= i < |digits|
      ensures HexDigit(digits[i]).Some?
    {
      assert i < m ==> digits[i] == digits[..m][i];
    }
  }

  // ----- characters

  /** The characters of Unicode without surrogates. */
  predicate Scalar(c: nat) {
    c < 0xD800 || 0xE000 <= c < 0x11_0000
  }

  /** The low bits in groups of six, behind a byte that tells how many bytes there are. */
  function EncodeChar(c: nat): (b: bytes)
    requires Scalar(c)
    ensures 1 <= |b| <= 4
  {
    if c < 0x80 then [c as byte]
    else if c < 0x800 then [(0xC0 + c / 0x40) as byte, (0x80 + c % 0x40) as byte]
    else if c < 0x1_0000 then
      [(0xE0 + c / 0x1000) as byte, (0x80 + c / 0x40 % 0x40) as byte, (0x80 + c % 0x40) as byte]
    else
      [(0xF0 + c / 0x4_0000) as byte, (0x80 + c / 0x1000 % 0x40) as byte, (0x80 + c / 0x40 % 0x40) as byte,
       (0x80 + c % 0x40) as byte]
  }

  ghost predicate AllScalar(text: seq<nat>) {
    forall i :: 0 <= i < |text| ==> Scalar(text[i])
  }

  ghost function EncodeText(text: seq<nat>): bytes
    requires AllScalar(text)
  {
    if text == [] then [] else EncodeChar(text[0]) + EncodeText(text[1..])
  }

  lemma EncodedIsUtf8(c: nat, rest: bytes)
    requires Scalar(c)
    ensures Utf8(EncodeChar(c) + rest) <==> Utf8(rest)
  {
    var b, s := EncodeChar(c), EncodeChar(c) + rest;
    assert s[|b|..] == rest;
    StartsWith(s, b);
    EncodedBytes(c, b);
  }

  /** The first bytes of `s` are `b`. */
  lemma StartsWith(s: bytes, b: bytes)
    requires b <= s && 1 <= |b| <= 4
    ensures s[0] == b[0] && (|b| > 1 ==> s[1] == b[1]) && (|b| > 2 ==> s[2] == b[2]) && (|b| > 3 ==> s[3] == b[3])
  {
  }

  lemma EncodedBytes(c: nat, b: bytes)
    requires Scalar(c) && b == EncodeChar(c)
    ensures |b| == 1 ==> b[0] < 0x80
    ensures |b| == 2 ==> 0xC2 <= b[0] < 0xE0 && Continuation(b[1])
    ensures |b| == 3 ==> && 0xE0 <= b[0] < 0xF0 && Continuation(b[1]) && Continuation(b[2])
                         && (b[0] == 0xE0 ==> b[1] >= 0xA0) && (b[0] == 0xED ==> b[1] < 0xA0)
    ensures |b| == 4 ==> && 0xF0 <= b[0] < 0xF5 && Continuation(b[1]) && Continuation(b[2]) && Continuation(b[3])
                         && (b[0] == 0xF0 ==> b[1] >= 0x90) && (b[0] == 0xF4 ==> b[1] < 0x90)
  {
  }

  lemma {:induction false} TextIsUtf8(text: seq<nat>)
    requires AllScalar(text)
    ensures Utf8(EncodeText(text))
  {
    if text != [] {
      TextIsUtf8(text[1..]);
      EncodedIsUtf8(text[0], EncodeText(text[1..]));
    }
  }

  lemma TwoBytes(a: byte, b: byte) returns (c: nat)
    requires 0xC2 <= a < 0xE0 && Continuation(b)
    ensures Scalar(c) && EncodeChar(c) == [a, b]
  {
    c := (a as nat - 0xC0) * 0x40 + (b as nat - 0x80);
    assert c / 0x40 == a as nat - 0xC0 && c % 0x40 == b as nat - 0x80;
  }

  lemma ThreeBytes(a: byte, b: byte, d: byte) returns (c: nat)
    requires 0xE0 <= a < 0xF0 && Continuation(b) && Continuation(d)
    requires (a == 0xE0 ==> b >= 0xA0) && (a == 0xED ==> b < 0xA0)
    ensures Scalar(c) && EncodeChar(c) == [a, b, d]
  {
    var x, y, z := a as nat - 0xE0, b as nat - 0x80, d as nat - 0x80;
    c := x * 0x1000 + y * 0x40 + z;
    assert c / 0x40 == x * 0x40 + y && c % 0x40 == z;
    assert c / 0x1000 == x && (x * 0x40 + y) % 0x40 == y;
  }

  lemma FourBytes(a: byte, b: byte, d: byte, e: byte) returns (c: nat)
    requires 0xF0 <= a < 0xF5 && Continuation(b) && Continuation(d) && Continuation(e)
    requires (a == 0xF0 ==> b >= 0x90) && (a == 0xF4 ==> b < 0x90)
    ensures Scalar(c) && EncodeChar(c) == [a, b, d, e]
  {
    var w, x, y, z := a as nat - 0xF0, b as nat - 0x80, d as nat - 0x80, e as nat - 0x80;
    c := w * 0x4_0000 + x * 0x1000 + y * 0x40 + z;
    assert c / 0x40 == w * 0x1000 + x * 0x40 + y && c % 0x40 == z;
    assert c / 0x1000 == w * 0x40 + x && (w * 0x1000 + x * 0x40 + y) % 0x40 == y;
    assert c / 0x4_0000 == w && (w * 0x40 + x) % 0x40 == x;
  }

  lemma FirstChar(s: bytes) returns (c: nat, first: bytes, rest: bytes)
    requires Utf8(s) && s != []
    ensures Scalar(c) && first == EncodeChar(c) && first != [] && s == first + rest && Utf8(rest)
  {
    if s[0] < 0x80 {
      c, first, rest := s[0] as nat, [s[0]], s[1..];
    } else if s[0] < 0xE0 {
      c := TwoBytes(s[0], s[1]);
      first, rest := [s[0], s[1]], s[2..];
    } else if s[0] < 0xF0 {
      c := ThreeBytes(s[0], s[1], s[2]);
      first, rest := [s[0], s[1], s[2]], s[3..];
    } else {
      c := FourBytes(s[0], s[1], s[2], s[3]);
      first, rest := [s[0], s[1], s[2], s[3]], s[4..];
    }
  }

  lemma EncodeTextFirst(c: nat, first: bytes, text: seq<nat>)
    requires Scalar(c) && first == EncodeChar(c) && AllScalar(text)
    ensures AllScalar([c] + text) && EncodeText([c] + text) == first + EncodeText(text)
  {
    assert ([c] + text)[1..] == text;
  }

  lemma {:induction false} Characters(s: bytes) returns (text: seq<nat>)
    requires Utf8(s)
    ensures AllScalar(text) && EncodeText(text) == s
    decreases |s|
  {
    text := [];
    if s != [] {
      var c, first, rest := FirstChar(s);
      text := Characters(rest);
      EncodeTextFirst(c, first, text);
      text := [c] + text;
    }
  }

  /** Bytes are valid UTF-8 exactly if they are the encoding of some characters. */
  lemma Utf8Exactly(s: bytes)
    ensures Utf8(s) <==> exists text :: AllScalar(text) && EncodeText(text) == s
  {
    if Utf8(s) {
      var text := Characters(s);
    }
    if text :| AllScalar(text) && EncodeText(text) == s {
      TextIsUtf8(text);
    }
  }

  // ----- white space

  /** The characters with the property White_Space. */
  predicate WhiteSpace(c: nat) {
    || 0x9 <= c <= 0xD || c == 0x20 || c == 0x85 || c == 0xA0 || c == 0x1680
    || 0x2000 <= c <= 0x200A || c == 0x2028 || c == 0x2029 || c == 0x202F || c == 0x205F || c == 0x3000
  }

  lemma WhiteIsEncoded(c: nat)
    requires WhiteSpace(c)
    ensures White(EncodeChar(c))
  {
    if c >= 0x2000 && c < 0x3000 {
      var low := c % 0x40;
      assert c / 0x1000 == 2 && c / 0x40 % 0x40 == if c == 0x205F then 1 else 0;
      assert low == if c == 0x205F then 0x1F else c - 0x2000;
    }
  }

  /** Bytes are one white-space character exactly if they are the encoding of one. */
  lemma WhiteExactly(s: bytes)
    ensures White(s) <==> exists c :: WhiteSpace(c) && EncodeChar(c) == s
  {
    if White(s) {
      var c: nat := if |s| == 1 then s[0] as nat
                    else if |s| == 2 then s[1] as nat
                    else if s[0] == 0xE1 then 0x1680
                    else if s[0] == 0xE3 then 0x3000
                    else if s[1] == 0x81 then 0x205F
                    else 0x2000 + (s[2] as nat - 0x80);
      assert WhiteSpace(c) && EncodeChar(c) == s;
    }
    if c :| WhiteSpace(c) && EncodeChar(c) == s {
      WhiteIsEncoded(c);
    }
  }

  ghost predicate AllWhite(text: seq<nat>) {
    forall i :: 0 <= i < |text| ==> WhiteSpace(text[i])
  }

  lemma TrimOneStart(c: nat, rest: bytes)
    requires WhiteSpace(c)
    ensures TrimStart(EncodeChar(c) + rest) == TrimStart(rest)
  {
    var b, s := EncodeChar(c), EncodeChar(c) + rest;
    WhiteIsEncoded(c);
    assert s[..|b|] == b && s[|b|..] == rest;
    assert |b| > 1 ==> s[..1] == [b[0]];
    assert |b| > 2 ==> s[..2] == [b[0], b[1]];
    assert WhiteHead(s) == |b|;
  }

  lemma TrimOneEnd(front: bytes, c: nat)
    requires WhiteSpace(c)
    ensures TrimEnd(front + EncodeChar(c)) == TrimEnd(front)
  {
    var b, s := EncodeChar(c), front + EncodeChar(c);
    var n := |s|;
    WhiteIsEncoded(c);
    assert s[n - |b|..] == b && s[..n - |b|] == front;
    assert |b| > 1 ==> s[n - 1..] == [b[|b| - 1]];
    assert |b| > 2 ==> s[n - 2..] == [b[|b| - 2], b[|b| - 1]];
    assert WhiteTail(s) == |b|;
  }

  lemma {:induction false} TrimAllStart(white: seq<nat>, rest: bytes)
    requires AllWhite(white) && AllScalar(white)
    ensures TrimStart(EncodeText(white) + rest) == TrimStart(rest)
  {
    if white == [] {
      assert EncodeText(white) + rest == rest;
    } else {
      var first, more := EncodeChar(white[0]), EncodeText(white[1..]);
      assert first + more + rest == first + (more + rest);
      TrimOneStart(white[0], more + rest);
      TrimAllStart(white[1..], rest);
    }
  }

  lemma {:induction false} EncodeTextLast(text: seq<nat>, c: nat)
    requires AllScalar(text) && Scalar(c)
    ensures AllScalar(text + [c]) && EncodeText(text + [c]) == EncodeText(text) + EncodeChar(c)
  {
    if text == [] {
      assert text + [c] == [c] && EncodeText([c]) == EncodeChar(c) + [];
    } else {
      var first, more := EncodeChar(text[0]), text[1..];
      EncodeTextLast(more, c);
      assert text + [c] == [text[0]] + (more + [c]);
      EncodeTextFirst(text[0], first, more + [c]);
      Associates(first, EncodeText(more), EncodeChar(c));
    }
  }

  lemma {:induction false} TrimAllEnd(front: bytes, white: seq<nat>)
    requires AllWhite(white) && AllScalar(white)
    ensures TrimEnd(front + EncodeText(white)) == TrimEnd(front)
    decreases |white|
  {
    if white == [] {
      assert front + EncodeText(white) == front;
    } else {
      var m := |white| - 1;
      assert white == white[..m] + [white[m]];
      EncodeTextLast(white[..m], white[m]);
      var more, last := EncodeText(white[..m]), EncodeChar(white[m]);
      assert front + (more + last) == front + more + last;
      TrimOneEnd(front + more, white[m]);
      TrimAllEnd(front, white[..m]);
    }
  }

  /** Text that starts and ends in a byte that is no part of white space. */
  ghost predicate Solid(s: bytes) {
    s != [] && s[0] < 0x80 && !AsciiWhite(s[0]) && s[|s| - 1] < 0x80 && !AsciiWhite(s[|s| - 1])
  }

  /** Trimming takes away the white space on both sides, whatever its characters are, and nothing else. */
  lemma TrimExactly(front: seq<nat>, s: bytes, back: seq<nat>)
    requires AllWhite(front) && AllScalar(front) && AllWhite(back) && AllScalar(back) && Solid(s)
    ensures Trim(EncodeText(front) + (s + EncodeText(back))) == s
  {
    TrimAllStart(front, s + EncodeText(back));
    PlainHead(s + EncodeText(back));
    TrimAllEnd(s, back);
    PlainEnd(s);
  }

  // ----- what the source reads as a size

  /** Digits, perhaps behind a plus sign, of a number below 2 to the power of 64. */
  ghost predicate IsNumber(s: bytes, n: nat) {
    && n < 0x1_0000_0000_0000_0000
    && exists digits :: digits != [] && Writes(digits, n) && (s == digits || s == [43] + digits)
  }

  lemma NumberIsRead(s: bytes, digits: bytes, n: nat)
    requires n < 0x1_0000_0000_0000_0000 && digits != [] && Writes(digits, n) && (s == digits || s == [43] + digits)
    ensures ParseHex(s) == Some(n)
  {
    HexReadsBack(digits, n);
    HexIsPlain(digits[0]);
    assert ([43] + digits)[1..] == digits;
  }

  /** A number is read exactly so. */
  lemma ParseHexExactly(s: bytes, n: nat)
    ensures ParseHex(s) == Some(n) <==> IsNumber(s, n)
  {
    if ParseHex(s) == Some(n) {
      var digits := if |s| > 1 && s[0] == PLUS then s[1..] else s;
      HexIsWritten(digits);
      assert s == digits || s == [43] + digits;
    }
    if IsNumber(s, n) {
      var digits :| digits != [] && Writes(digits, n) && (s == digits || s == [43] + digits);
      NumberIsRead(s, digits, n);
    }
  }

  /**
   The source reads more lines than the standard allows: white space of any kind is taken away on
   both sides of the number, which may have a plus sign.
   */
  lemma LenientSize(front: seq<nat>, digits: bytes, plus: bool, back: seq<nat>, extensions: bytes, n: nat)
    requires AllWhite(front) && AllScalar(front) && AllWhite(back) && AllScalar(back)
    requires digits != [] && Writes(digits, n) && n < 0x1_0000_0000_0000_0000
    requires extensions == [] || (extensions[0] == 59 && Utf8(extensions))
    ensures var number := if plus then [43] + digits else digits;
            ParseSize(EncodeText(front) + (number + EncodeText(back)) + extensions) == Some(n)
  {
    var number := if plus then [43] + digits else digits;
    var text := EncodeText(front) + (number + EncodeText(back));
    HexReadsBack(digits, n);
    HexIsPlain(digits[0]);
    HexIsPlain(digits[|digits| - 1]);
    assert number[|number| - 1] == digits[|digits| - 1];
    TrimExactly(front, number, back);
    NumberIsRead(number, digits, n);
    LenientText(front, number, back, extensions);
    BeforeSemicolonIs(text, extensions);
  }

  lemma WhiteHasNoSemicolon(c: nat)
    requires WhiteSpace(c)
    ensures 59 !in EncodeChar(c)
  {
    WhiteIsEncoded(c);
  }

  lemma {:induction false} NoSemicolon(white: seq<nat>)
    requires AllWhite(white) && AllScalar(white)
    ensures 59 !in EncodeText(white)
  {
    if white != [] {
      WhiteHasNoSemicolon(white[0]);
      NoSemicolon(white[1..]);
    }
  }

  lemma {:induction false} TextThenUtf8(text: seq<nat>, s: bytes)
    requires AllScalar(text)
    ensures Utf8(EncodeText(text) + s) <==> Utf8(s)
  {
    if text == [] {
      assert EncodeText(text) + s == s;
    } else {
      var first, more := EncodeChar(text[0]), EncodeText(text[1..]);
      Associates(first, more, s);
      EncodedIsUtf8(text[0], more + s);
      TextThenUtf8(text[1..], s);
    }
  }

  lemma LenientText(front: seq<nat>, number: bytes, back: seq<nat>, extensions: bytes)
    requires AllWhite(front) && AllScalar(front) && AllWhite(back) && AllScalar(back)
    requires forall i :: 0 <= i < |number| ==> number[i] < 0x80 && number[i] != 59
    requires extensions == [] || Utf8(extensions)
    ensures var text := EncodeText(front) + (number + EncodeText(back));
            Utf8(text + extensions) && forall i :: 0 <= i < |text| ==> text[i] != 59
  {
    var a, b := EncodeText(front), EncodeText(back);
    NoSemicolon(front);
    NoSemicolon(back);
    NoneInThree(a, number, b);
    FourParts(a, number, b, extensions);
    TextThenUtf8(back, extensions);
    AsciiThenUtf8(number, b + extensions);
    TextThenUtf8(front, number + (b + extensions));
  }

  lemma NoneInThree(a: bytes, b: bytes, c: bytes)
    requires 59 !in a && (forall i :: 0 <= i < |b| ==> b[i] != 59) && 59 !in c
    ensures forall i :: 0 <= i < |a + (b + c)| ==> (a + (b + c))[i] != 59
  {
  }

  lemma FourParts(a: bytes, b: bytes, c: bytes, d: bytes)
    ensures a + (b + c) + d == a + (b + (c + d))
  {
  }
}
