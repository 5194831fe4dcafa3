/**
 What tailing a log file line by line comes to (`LogFile` in crates/esl-agent/src/tail.rs):
 the offsets, the fingerprint of the file and the position committed so far.

 The hash that fingerprints are made of is a parameter.
 */
module TailModel {
  import opened Bytes
  import opened LineFraming

  const MAX_LOG_LINE_SIZE: nat := 2 * 1024 * 1024
  const READ_BUFFER_SIZE: nat := 256 * 1024
  const MAX_FINGERPRINT_DATA_LEN: nat := 64

  type Hash = bytes -> nat

  /** The hash of at most the first 64 bytes; zero is reserved for no fingerprint. */
  function CalcFingerprint(hash: Hash, data: bytes): (fp: nat)
    ensures fp != 0
  {
    var h := hash(if |data| > MAX_FINGERPRINT_DATA_LEN then data[..MAX_FINGERPRINT_DATA_LEN] else data);
    if h == 0 then 1 else h
  }

  datatype Core = Core(offset: nat, fingerprint: nat, commitOffset: nat, commitFingerprint: nat)

  /** A complete line has been passed; the first one of the file gives the fingerprint. */
  function Pass(hash: Hash, c: Core, line: bytes): Core {
    c.(fingerprint := if c.offset == 0 then CalcFingerprint(hash, line) else c.fingerprint,
       offset := c.offset + |line| + 1)
  }

  function Commit(c: Core): Core {
    c.(commitOffset := c.offset, commitFingerprint := c.fingerprint)
  }

  /** The lines that are not too long to be passed to the processor. */
  function Short(lines: seq<bytes>): (r: seq<bytes>)
    ensures |r| <= |lines|
  {
    if lines == [] then [] else
    var m := |lines| - 1;
    Short(lines[..m]) + if |lines[m]| <= MAX_LOG_LINE_SIZE then [lines[m]] else []
  }

  lemma {:induction false} ShortConcat(a: seq<bytes>, b: seq<bytes>)
    ensures Short(a + b) == Short(a) + Short(b)
    decreases |b|
  {
    if b == [] {
      assert a + b == a;
    } else {
      var m := |b| - 1;
      assert (a + b)[..|a| + m] == a + b[..m];
      ShortConcat(a, b[..m]);
    }
  }

  lemma {:induction false} ShortPrefix(front: seq<bytes>, lines: seq<bytes>)
    requires front <= lines
    ensures Short(front) <= Short(lines)
    decreases |lines|
  {
    if |front| == |lines| {
      assert front == lines;
    } else {
      ShortPrefix(front, lines[..|lines| - 1]);
    }
  }

  /** The state after these lines; `answers` says of each short one whether it is to be committed. */
  function Fold(hash: Hash, c: Core, lines: seq<bytes>, answers: seq<bool>): Core
    requires |answers| == |Short(lines)|
  {
    if lines == [] then c else
    var m := |lines| - 1;
    if |lines[m]| > MAX_LOG_LINE_SIZE then
      Pass(hash, Fold(hash, c, lines[..m], answers), lines[m])
    else
      var k := |answers| - 1;
      var d := Pass(hash, Fold(hash, c, lines[..m], answers[..k]), lines[m]);
      if answers[k] then Commit(d) else d
  }

  lemma FoldOneMore(hash: Hash, c: Core, lines: seq<bytes>, answers: seq<bool>, line: bytes, ok: bool)
    requires |answers| == |Short(lines)| && |line| <= MAX_LOG_LINE_SIZE
    ensures Short(lines + [line]) == Short(lines) + [line]
    ensures Fold(hash, c, lines + [line], answers + [ok])
            == var d := Pass(hash, Fold(hash, c, lines, answers), line); if ok then Commit(d) else d
  {
    assert (lines + [line])[..|lines|] == lines;
    assert (answers + [ok])[..|answers|] == answers;
  }

  lemma FoldOneTooLong(hash: Hash, c: Core, lines: seq<bytes>, answers: seq<bool>, line: bytes)
    requires |answers| == |Short(lines)| && |line| > MAX_LOG_LINE_SIZE
    ensures Short(lines + [line]) == Short(lines)
    ensures Fold(hash, c, lines + [line], answers) == Pass(hash, Fold(hash, c, lines, answers), line)
  {
    assert (lines + [line])[..|lines|] == lines;
  }

  /** How many lines there are up to and with the last one to be committed. */
  function Committed(lines: seq<bytes>, answers: seq<bool>): (k: nat)
    requires |answers| == |Short(lines)|
    ensures k <= |lines|
  {
    if lines == [] then 0 else
    var m := |lines| - 1;
    if |lines[m]| > MAX_LOG_LINE_SIZE then Committed(lines[..m], answers)
    else if answers[|answers| - 1] then |lines|
    else Committed(lines[..m], answers[..|answers| - 1])
  }

  /** The offset has moved over every line, too long or not. */
  lemma {:induction false} FoldOffset(hash: Hash, c: Core, lines: seq<bytes>, answers: seq<bool>)
    requires |answers| == |Short(lines)|
    ensures Fold(hash, c, lines, answers).offset == c.offset + Length(lines)
  {
    if lines != [] {
      var m := |lines| - 1;
      if |lines[m]| > MAX_LOG_LINE_SIZE {
        FoldOffset(hash, c, lines[..m], answers);
      } else {
        FoldOffset(hash, c, lines[..m], answers[..|answers| - 1]);
      }
    }
  }

  /** The fingerprint is that of the file's first line, also when that line is too long. */
  lemma {:induction false} FoldFingerprint(hash: Hash, c: Core, lines: seq<bytes>, answers: seq<bool>)
    requires |answers| == |Short(lines)|
    ensures Fold(hash, c, lines, answers).fingerprint
            == if c.offset == 0 && lines != [] then CalcFingerprint(hash, lines[0]) else c.fingerprint
  {
    if lines != [] {
      var m := |lines| - 1;
      var before := if |lines[m]| > MAX_LOG_LINE_SIZE then answers else answers[..|answers| - 1];
      FoldFingerprint(hash, c, lines[..m], before);
      FoldOffset(hash, c, lines[..m], before);
    }
  }

  /** The committed position is just after the last line to be committed, with the fingerprint of the first line. */
  lemma {:induction false} FoldCommit(hash: Hash, c: Core, lines: seq<bytes>, answers: seq<bool>)
    requires |answers| == |Short(lines)|
    ensures var k := Committed(lines, answers);
            var d := Fold(hash, c, lines, answers);
            && d.commitOffset == (if k == 0 then c.commitOffset else c.offset + Length(lines[..k]))
            && d.commitFingerprint == (if k == 0 then c.commitFingerprint
                                       else if c.offset == 0 then CalcFingerprint(hash, lines[0]) else c.fingerprint)
  {
    if lines != [] {
      var m := |lines| - 1;
      var before := if |lines[m]| > MAX_LOG_LINE_SIZE then answers else answers[..|answers| - 1];
      FoldCommit(hash, c, lines[..m], before);
      var k := Committed(lines[..m], before);
      assert lines[..m][..k] == lines[..k];
      if |lines[m]| <= MAX_LOG_LINE_SIZE && answers[|answers| - 1] {
        FoldOffset(hash, c, lines, answers);
        FoldFingerprint(hash, c, lines, answers);
        assert lines[..|lines|] == lines;
      }
    }
  }

  /** A fingerprint needs no more of a long line than its first bytes. */
  lemma FingerprintOfPrefix(hash: Hash, prefix: bytes, line: bytes)
    requires prefix <= line && (|prefix| >= MAX_FINGERPRINT_DATA_LEN || prefix == line)
    ensures CalcFingerprint(hash, prefix) == CalcFingerprint(hash, line)
  {
    if |prefix| >= MAX_FINGERPRINT_DATA_LEN {
      assert prefix[..MAX_FINGERPRINT_DATA_LEN] == line[..MAX_FINGERPRINT_DATA_LEN];
      assert |line| == MAX_FINGERPRINT_DATA_LEN ==> line[..MAX_FINGERPRINT_DATA_LEN] == line;
      assert |prefix| == MAX_FINGERPRINT_DATA_LEN ==> prefix[..MAX_FINGERPRINT_DATA_LEN] == prefix;
    }
  }

  /** What is kept of an unfinished line: all of it, or enough for the fingerprint if it is too long. */
  ghost predicate TailHolds(tail: bytes, tailSize: nat, rest: bytes) {
    && tailSize == |rest|
    && if |rest| <= MAX_LOG_LINE_SIZE then tail == rest
       else tail <= rest && |tail| >= MAX_FINGERPRINT_DATA_LEN
  }

  /** The whole state of a tailed file, and what its processor has been given and has answered. */
  datatype Tailed = Tailed(core: Core, tail: bytes, tailSize: nat, given: seq<bytes>, answers: seq<bool>)

  /**
   The state is what the bytes consumed so far make of the state at the start, whatever pieces
   they came in: every complete line that is not too long was given to the processor, in order.
   */
  ghost predicate Follows(hash: Hash, origin: Core, consumed: bytes, s: Tailed) {
    var (lines, rest) := Split(consumed);
    && s.given == Short(lines) && |s.answers| == |s.given|
    && s.core == Fold(hash, origin, lines, s.answers)
    && TailHolds(s.tail, s.tailSize, rest)
  }

  /** Offset and unfinished line account for every byte consumed. */
  lemma OffsetsAddUp(hash: Hash, origin: Core, consumed: bytes, s: Tailed)
    requires Follows(hash, origin, consumed, s)
    ensures s.core.offset + s.tailSize == origin.offset + |consumed|
  {
    SplitLength(consumed);
    FoldOffset(hash, origin, Split(consumed).0, s.answers);
  }

  /** A line for the processor, between lines. */
  function Given(hash: Hash, s: Tailed, line: bytes, ok: bool): Tailed {
    var d := Pass(hash, s.core, line);
    s.(core := if ok then Commit(d) else d, given := s.given + [line], answers := s.answers + [ok])
  }

  lemma LineGiven(hash: Hash, origin: Core, consumed: bytes, s: Tailed, line: bytes, ok: bool)
    requires Follows(hash, origin, consumed, s) && s.tailSize == 0
    requires NoNewline(line) && |line| <= MAX_LOG_LINE_SIZE
    ensures Follows(hash, origin, consumed + (line + [NEWLINE]), Given(hash, s, line, ok))
  {
    SplitCompleted(consumed, line);
    assert [] + line == line;
    FoldOneMore(hash, origin, Split(consumed).0, s.answers, line, ok);
  }

  /** The unfinished line taken out again, to be given once it is complete. */
  lemma TailTaken(hash: Hash, origin: Core, consumed: bytes, s: Tailed)
    requires Follows(hash, origin, consumed, s)
    ensures s.tailSize <= |consumed|
    ensures Follows(hash, origin, consumed[..|consumed| - s.tailSize], s.(tail := [], tailSize := 0))
    ensures NoNewline(consumed[|consumed| - s.tailSize..])
    ensures s.tailSize <= MAX_LOG_LINE_SIZE ==> s.tail == consumed[|consumed| - s.tailSize..]
  {
    SplitWithoutRest(consumed);
    RestHasNoNewline(consumed);
  }

  /** A line that is too long is passed by, with the fingerprint of what was kept of it. */
  lemma LinePassed(hash: Hash, origin: Core, consumed: bytes, s: Tailed, more: bytes)
    requires Follows(hash, origin, consumed, s) && s.tailSize > 0 && s.tailSize + |more| > MAX_LOG_LINE_SIZE
    requires NoNewline(more) && |more| <= READ_BUFFER_SIZE
    ensures var core := s.core.(
              fingerprint := if s.core.offset == 0 then CalcFingerprint(hash, s.tail) else s.core.fingerprint,
              offset := s.core.offset + s.tailSize + |more| + 1);
            Follows(hash, origin, consumed + (more + [NEWLINE]), s.(core := core, tail := [], tailSize := 0))
  {
    var (lines, rest) := Split(consumed);
    SplitCompleted(consumed, more);
    FoldOneTooLong(hash, origin, lines, s.answers, rest + more);
    FingerprintOfPrefix(hash, s.tail, rest + more);
  }

  /** The line is still unfinished; once it is too long, no more of it is kept. */
  lemma TailGrown(hash: Hash, origin: Core, consumed: bytes, s: Tailed, more: bytes)
    requires Follows(hash, origin, consumed, s) && NoNewline(more) && |more| <= READ_BUFFER_SIZE
    ensures var size := s.tailSize + |more|;
            Follows(hash, origin, consumed + more,
                    s.(tail := if size <= MAX_LOG_LINE_SIZE then s.tail + more else s.tail, tailSize := size))
  {
    SplitGrown(consumed, more);
  }

  // ----- which lines are given and committed

  /** Lines of up to 2 MiB are given, and only those, in order. */
  lemma ShortFirst(lines: seq<bytes>)
    requires lines != []
    ensures Short(lines) == (if |lines[0]| <= 2_097_152 then [lines[0]] else []) + Short(lines[1..])
    ensures Short([]) == []
  {
    assert lines == [lines[0]] + lines[1..];
    ShortConcat([lines[0]], lines[1..]);
    assert [lines[0]][..0] == [] && [] + [lines[0]] == [lines[0]];
  }

  /** The commit is behind the last line that was given and agreed to: none behind it was. */
  lemma {:induction false} CommittedMeans(lines: seq<bytes>, answers: seq<bool>)
    requires |answers| == |Short(lines)|
    ensures var k := Committed(lines, answers);
            var given := |Short(lines[..k])|;
            && given <= |answers| && (forall i :: given <= i < |answers| ==> !answers[i])
            && (k > 0 ==> given > 0 && answers[given - 1] && |lines[k - 1]| <= 2_097_152)
  {
    if lines == [] {
      assert lines[..0] == [];
    } else {
      var m, n, k := |lines| - 1, |answers| - 1, Committed(lines, answers);
      if |lines[m]| > MAX_LOG_LINE_SIZE {
        CommittedMeans(lines[..m], answers);
        FrontOfFront(lines, m, k);
      } else if answers[n] {
        assert lines[..k] == lines;
      } else {
        CommittedMeans(lines[..m], answers[..n]);
        FrontOfFront(lines, m, k);
      }
    }
  }

  lemma FrontOfFront<T>(s: seq<T>, m: nat, k: nat)
    requires k <= m <= |s|
    ensures s[..m][..k] == s[..k]
  {
  }

  /** A fingerprint is the hash of at most 64 bytes, and never 0. */
  lemma FingerprintIs(hash: Hash, data: bytes)
    ensures var head := if |data| <= 64 then data else data[..64];
            CalcFingerprint(hash, data) == if hash(head) == 0 then 1 else hash(head)
  {
  }
}
