/**
 Log lines in the format of the Container Runtime Interface (`parse_cri_line` in
 crates/esl-agent/src/kubernetescollector.rs).
 */
module CriLine {
  import opened Bytes

  datatype Stream = Stdout | Stderr

  datatype CriLine = CriLine(timestamp: int, stream: Stream, partial: bool, content: bytes)

  const SPACE: byte := 0x20
  const PARTIAL_FLAG: byte := 'P' as byte
  const STDOUT: bytes := ['s' as byte, 't' as byte, 'd' as byte, 'o' as byte, 'u' as byte, 't' as byte]

  /** Reads an RFC 3339 timestamp; nothing unless the bytes are UTF-8 text of that form. */
  type TimeParser = bytes -> Option<int>

  function FirstSpace(b: bytes): (n: Option<nat>)
    ensures n.Some? ==> n.value < |b| && b[n.value] == SPACE && SPACE !in b[..n.value]
    ensures n.None? ==> SPACE !in b
  {
    if b == [] then None
    else if b[0] == SPACE then Some(0)
    else
      match FirstSpace(b[1..])
      case None => None
      case Some(n) =>
        assert b[..n + 1] == [b[0]] + b[1..][..n];
        Some(n + 1)
  }

  /** Splits off the part before the first space. */
  function Cut(b: bytes): (r: Option<(bytes, bytes)>)
    ensures r.Some? ==> b == r.value.0 + [SPACE] + r.value.1 && SPACE !in r.value.0
    ensures r.None? ==> SPACE !in b
  {
    match FirstSpace(b)
    case None => None
    case Some(n) => Some((b[..n], b[n + 1..]))
  }

  function ParseCriLine(time: TimeParser, b: bytes): Option<CriLine> {
    match Cut(b)
    case None => None
    case Some((stamp, afterStamp)) =>
      match time(stamp)
      case None => None
      case Some(timestamp) =>
        match Cut(afterStamp)
        case None => None
        case Some((name, afterName)) =>
          match Cut(afterName)
          case None => None
          case Some((flag, content)) =>
            if |flag| != 1 then None
            else Some(CriLine(timestamp, if name == STDOUT then Stdout else Stderr, flag[0] == PARTIAL_FLAG, content))
  }

  /** The line made of these four fields, with a space between them. */
  ghost predicate Written(b: bytes, stamp: bytes, name: bytes, flag: byte, content: bytes) {
    && 32 !in stamp && 32 !in name && flag != 32
    && b == stamp + [32] + (name + [32] + ([flag] + [32] + content))
  }

  /** The bytes of a text in ASCII. */
  function Ascii(text: string): (b: bytes)
    requires forall i :: 0 <= i < |text| ==> text[i] as int < 128
    ensures |b| == |text| && forall i :: 0 <= i < |text| ==> b[i] as int == text[i] as int
  {
    seq(|text|, i requires 0 <= i < |text| => text[i] as int as byte)
  }

  lemma CutWritten(head: bytes, rest: bytes)
    requires SPACE !in head
    ensures Cut(head + [SPACE] + rest) == Some((head, rest))
  {
    var b := head + [SPACE] + rest;
    assert b[|head|] == SPACE;
    assert b[..|head|] == head && b[|head| + 1..] == rest;
  }

  /** What a line was made of is read back: the flag `P` is a partial line, any name but `stdout` the error stream. */
  lemma WrittenReadsBack(time: TimeParser, b: bytes, stamp: bytes, name: bytes, flag: byte, content: bytes)
    requires Written(b, stamp, name, flag, content) && time(stamp).Some?
    ensures ParseCriLine(time, b) == Some(CriLine(time(stamp).value, if name == Ascii("stdout") then Stdout else Stderr,
                                                  flag as int == 'P' as int, content))
  {
    assert Ascii("stdout") == STDOUT;
    CutWritten([flag], content);
    CutWritten(name, [flag] + [SPACE] + content);
    CutWritten(stamp, name + [SPACE] + ([flag] + [SPACE] + content));
  }

  /** Only lines made of four fields with a readable timestamp are accepted. */
  lemma AcceptedIsWritten(time: TimeParser, b: bytes)
    requires ParseCriLine(time, b).Some?
    ensures exists stamp, name, flag ::
              && Written(b, stamp, name, flag, ParseCriLine(time, b).value.content)
              && time(stamp) == Some(ParseCriLine(time, b).value.timestamp)
    ensures |ParseCriLine(time, b).value.content| < |b|
  {
    var stamp, afterStamp := Cut(b).value.0, Cut(b).value.1;
    var name, afterName := Cut(afterStamp).value.0, Cut(afterStamp).value.1;
    var flag, content := Cut(afterName).value.0, Cut(afterName).value.1;
    assert flag == [flag[0]];
    assert flag[0] in flag;
    assert Written(b, stamp, name, flag[0], content);
  }
}
