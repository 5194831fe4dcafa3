/**
 Reading the size line of a chunk as the source does with the Rust standard library:
 `str::from_utf8`, `split(';')`, `trim` and `usize::from_str_radix(_, 16)` on a 64-bit platform
 (crates/esl-agent/src/kubernetescollector.rs).
 */
module ChunkSize {
  import opened Bytes

  const SEMICOLON: byte := 59
  const SPACE: byte := 32
  const PLUS: byte := 43
  const CR: byte := 13
  const LF: byte := 10

  predicate Continuation(b: byte) {
    0x80 <= b < 0xC0
  }

  /** Well-formed UTF-8, without overlong forms and surrogates. */
  predicate Utf8(s: bytes)
    decreases |s|
  {
    if s == [] then true
    else if s[0] < 0x80 then Utf8(s[1..])
    else if 0xC2 <= s[0] < 0xE0 then |s| >= 2 && Continuation(s[1]) && Utf8(s[2..])
    else if 0xE0 <= s[0] < 0xF0 then
      && |s| >= 3 && Continuation(s[1]) && Continuation(s[2])
      && (s[0] == 0xE0 ==> s[1] >= 0xA0) && (s[0] == 0xED ==> s[1] < 0xA0)
      && Utf8(s[3..])
    else if 0xF0 <= s[0] < 0xF5 then
      && |s| >= 4 && Continuation(s[1]) && Continuation(s[2]) && Continuation(s[3])
      && (s[0] == 0xF0 ==> s[1] >= 0x90) && (s[0] == 0xF4 ==> s[1] < 0x90)
      && Utf8(s[4..])
    else false
  }

  lemma {:induction false} AsciiThenUtf8(a: bytes, s: bytes)
    requires forall i :: 0 <= i < |a| ==> a[i] < 0x80
    ensures Utf8(a + s) <==> Utf8(s)
  {
    if a == [] {
      assert a + s == s;
    } else {
      assert (a + s)[1..] == a[1..] + s;
      AsciiThenUtf8(a[1..], s);
    }
  }

  function BeforeSemicolon(s: bytes): bytes {
    if s == [] || s[0] == SEMICOLON then [] else [s[0]] + BeforeSemicolon(s[1..])
  }

  lemma {:induction false} BeforeSemicolonIs(a: bytes, s: bytes)
    requires forall i :: 0 <= i < |a| ==> a[i] != SEMICOLON
    requires s == [] || s[0] == SEMICOLON
    ensures BeforeSemicolon(a + s) == a
  {
    if a == [] {
      assert a + s == s;
    } else {
      assert (a + s)[1..] == a[1..] + s;
      BeforeSemicolonIs(a[1..], s);
    }
  }

  predicate AsciiWhite(b: byte) {
    9 <= b <= 13 || b == SPACE
  }

  /** Is this the encoding of one white-space character, in the sense of Unicode? */
  predicate White(s: bytes) {
    || (|s| == 1 && AsciiWhite(s[0]))
    || (|s| == 2 && s[0] == 0xC2 && (s[1] == 0x85 || s[1] == 0xA0))
    || (|s| == 3 && s[0] == 0xE1 && s[1] == 0x9A && s[2] == 0x80)
    || (|s| == 3 && s[0] == 0xE2 && s[1] == 0x80
        && (0x80 <= s[2] <= 0x8A || s[2] == 0xA8 || s[2] == 0xA9 || s[2] == 0xAF))
    || (|s| == 3 && s[0] == 0xE2 && s[1] == 0x81 && s[2] == 0x9F)
    || (|s| == 3 && s[0] == 0xE3 && s[1] == 0x80 && s[2] == 0x80)
  }

  /** The length of the white-space character at the start, if there is one. */
  function WhiteHead(s: bytes): (k: nat)
    ensures k <= |s|
  {
    if |s| >= 1 && White(s[..1]) then 1
    else if |s| >= 2 && White(s[..2]) then 2
    else if |s| >= 3 && White(s[..3]) then 3
    else 0
  }

  function WhiteTail(s: bytes): (k: nat)
    ensures k <= |s|
  {
    var n := |s|;
    if n >= 1 && White(s[n - 1..]) then 1
    else if n >= 2 && White(s[n - 2..]) then 2
    else if n >= 3 && White(s[n - 3..]) then 3
    else 0
  }

  function TrimStart(s: bytes): bytes
    decreases |s|
  {
    var k := WhiteHead(s);
    if k == 0 then s else TrimStart(s[k..])
  }

  function TrimEnd(s: bytes): bytes
    decreases |s|
  {
    var k := WhiteTail(s);
    if k == 0 then s else TrimEnd(s[..|s| - k])
  }

  function Trim(s: bytes): bytes {
    TrimEnd(TrimStart(s))
  }

  /** The value of a hexadecimal digit of either case. */
  function HexDigit(b: byte): Option<nat> {
    if 48 <= b <= 57 then Some(b as nat - 48)
    else if 65 <= b <= 70 then Some(b as nat - 55)
    else if 97 <= b <= 102 then Some(b as nat - 87)
    else None
  }

  predicate AllHex(s: bytes) {
    forall i :: 0 <= i < |s| ==> HexDigit(s[i]).Some?
  }

  /** What a string of hexadecimal digits means. */
  function HexValue(s: bytes): nat
    requires AllHex(s)
  {
    if s == [] then 0 else HexValue(s[..|s| - 1]) * 16 + HexDigit(s[|s| - 1]).value
  }

  /** Fails on anything but digits and on overflow; a leading plus sign is allowed. */
  function ParseHex(s: bytes): Option<nat> {
    var digits := if |s| > 1 && s[0] == PLUS then s[1..] else s;
    if digits != [] && AllHex(digits) && HexValue(digits) < U64_LIMIT then Some(HexValue(digits)) else None
  }

  /** The size a chunk line gives, or `None` if the source rejects the line. */
  function ParseSize(line: bytes): Option<nat> {
    if Utf8(line) then ParseHex(Trim(BeforeSemicolon(line))) else None
  }

  // ----- lines that section 7.1 of RFC 9112 allows

  /** Spaces and tabs. */
  predicate Blank(s: bytes) {
    forall i :: 0 <= i < |s| ==> s[i] == 32 || s[i] == 9
  }

  lemma HexIsPlain(b: byte)
    requires HexDigit(b).Some?
    ensures b < 0x80 && b != SEMICOLON && b != PLUS && !AsciiWhite(b) && b != CR && b != LF
  {
  }

  /** White space of more than one byte has no ASCII in it, neither at its start nor at its end. */
  lemma WhiteHasNoAscii(s: bytes)
    requires White(s) && |s| > 1
    ensures s[0] >= 0x80 && s[|s| - 1] >= 0x80
  {
  }

  lemma PlainSlice(t: bytes, b: byte)
    requires t != [] && (t[0] == b || t[|t| - 1] == b) && b < 0x80 && !AsciiWhite(b)
    ensures !White(t)
  {
    if White(t) && |t| > 1 {
      WhiteHasNoAscii(t);
    }
  }

  /** A byte that is no white space stays at the end, and at the start. */
  lemma PlainEnd(s: bytes)
    requires s != [] && s[|s| - 1] < 0x80 && !AsciiWhite(s[|s| - 1])
    ensures WhiteTail(s) == 0
  {
    var n, b := |s|, s[|s| - 1];
    PlainSlice(s[n - 1..], b);
    if n >= 2 {
      PlainSlice(s[n - 2..], b);
    }
    if n >= 3 {
      PlainSlice(s[n - 3..], b);
    }
  }

  lemma PlainHead(s: bytes)
    requires s != [] && s[0] < 0x80 && !AsciiWhite(s[0])
    ensures WhiteHead(s) == 0
  {
    var n, b := |s|, s[0];
    PlainSlice(s[..1], b);
    if n >= 2 {
      PlainSlice(s[..2], b);
    }
    if n >= 3 {
      PlainSlice(s[..3], b);
    }
  }

  lemma BlankEnd(s: bytes, front: bytes, b: byte)
    requires s == front + [b] && (b == 32 || b == 9)
    ensures TrimEnd(s) == TrimEnd(front)
  {
    assert s[|s| - 1..] == [b] && s[..|s| - 1] == front;
    assert WhiteTail(s) == 1;
  }

  lemma {:induction false} TrimEndBlank(digits: bytes, blank: bytes)
    requires digits != [] && AllHex(digits) && Blank(blank)
    ensures TrimEnd(digits + blank) == digits
    decreases |blank|
  {
    if blank == [] {
      assert digits + blank == digits;
      HexIsPlain(digits[|digits| - 1]);
      PlainEnd(digits);
    } else {
      var m := |blank| - 1;
      assert digits + blank == digits + blank[..m] + [blank[m]];
      BlankEnd(digits + blank, digits + blank[..m], blank[m]);
      TrimEndBlank(digits, blank[..m]);
    }
  }

  lemma TrimHex(digits: bytes, blank: bytes)
    requires digits != [] && AllHex(digits) && Blank(blank)
    ensures Trim(digits + blank) == digits
  {
    var s := digits + blank;
    HexIsPlain(s[0]);
    PlainHead(s);
    TrimEndBlank(digits, blank);
  }

  /** A size line of the standard: hexadecimal digits, and perhaps blanks and extensions. */
  datatype SizeLine = SizeLine(digits: bytes, blank: bytes, extensions: bytes) {
    /** Extensions start with a semicolon and hold no line break; whatever else the standard allows is allowed here. */
    predicate WellFormed() {
      && digits != [] && AllHex(digits) && Blank(blank)
      && (extensions == [] || extensions[0] == 59)
      && (forall i :: 0 <= i < |extensions| ==> extensions[i] != 13 && extensions[i] != 10)
    }

    function Text(): bytes {
      digits + blank + extensions
    }

    function Value(): nat
      requires WellFormed()
    {
      HexValue(digits)
    }
  }

  /** The line gives its size exactly if the extensions are valid UTF-8 and the size fits 64 bits. */
  lemma SizeLineMeans(l: SizeLine)
    requires l.WellFormed()
    ensures ParseSize(l.Text()) == if Utf8(l.extensions) && l.Value() < U64_LIMIT then Some(l.Value()) else None
  {
    var a := l.digits + l.blank;
    PlainStart(l);
    AsciiThenUtf8(a, l.extensions);
    BeforeSemicolonIs(a, l.extensions);
    TrimHex(l.digits, l.blank);
    HexIsPlain(l.digits[0]);
  }

  lemma PlainStart(l: SizeLine)
    requires l.WellFormed()
    ensures var a := l.digits + l.blank;
            forall i :: 0 <= i < |a| ==> a[i] < 0x80 && a[i] != SEMICOLON && a[i] != CR && a[i] != LF
  {
    var a := l.digits + l.blank;
    forall i | 0 <= i < |a|
      ensures a[i] < 0x80 && a[i] != SEMICOLON && a[i] != CR && a[i] != LF
    {
      if i < |l.digits| {
        HexIsPlain(l.digits[i]);
      }
    }
  }
}
