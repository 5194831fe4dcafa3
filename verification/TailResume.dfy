/**
 Tailing a file over any number of restarts (`open_log_file`, `try_resume_from_checkpoint`,
 `get_file_fingerprint`, `set_offset` and the loop of `process` in crates/esl-agent/src/tail.rs), on
 one file that is only appended to. Whether a file is found by path and inode is an input here.
 */
module TailResume {
  import opened Bytes
  import opened LineFraming
  import opened TailModel
  import opened Tail

  datatype Checkpoint = Checkpoint(offset: nat, fingerprint: nat)

  /** What a fingerprint looks at. */
  function Head(file: bytes): bytes {
    if |file| > MAX_FINGERPRINT_DATA_LEN then file[..MAX_FINGERPRINT_DATA_LEN] else file
  }

  /** The fingerprint of a file; zero if its first line is neither complete nor long enough. */
  function FileFingerprint(hash: Hash, file: bytes): nat {
    var head := Head(file);
    if !NoNewline(head) then CalcFingerprint(hash, head[..FirstNewline(head)])
    else if |head| < MAX_FINGERPRINT_DATA_LEN then 0
    else CalcFingerprint(hash, head)
  }

  /** Reads the head of the file in as many pieces as it takes. */
  method GetFileFingerprint(hash: Hash, file: bytes) returns (fp: nat)
    ensures fp == FileFingerprint(hash, file)
  {
    var buf: bytes := [];
    while |buf| < MAX_FINGERPRINT_DATA_LEN && |buf| < |file|
      invariant |buf| <= MAX_FINGERPRINT_DATA_LEN && |buf| <= |file| && buf == file[..|buf|]
      decreases MAX_FINGERPRINT_DATA_LEN - |buf|
    {
      var m: nat :| 0 < m <= MAX_FINGERPRINT_DATA_LEN - |buf| && m <= |file| - |buf|;
      buf := buf + file[|buf|..|buf| + m];
    }
    assert buf == Head(file);
    var nl := Position(buf);
    if nl.None? {
      if |buf| < MAX_FINGERPRINT_DATA_LEN {
        return 0;
      }
      return CalcFingerprint(hash, buf);
    }
    fp := CalcFingerprint(hash, buf[..nl.value]);
  }

  /** A file with a complete first line has the fingerprint of that line. */
  lemma FingerprintOfFirstLine(hash: Hash, file: bytes)
    requires !NoNewline(file)
    ensures FileFingerprint(hash, file) == CalcFingerprint(hash, file[..FirstNewline(file)])
  {
    var n := FirstNewline(file);
    if n < MAX_FINGERPRINT_DATA_LEN {
      var head := Head(file);
      assert head[..n] == file[..n];
      FirstNewlineIs(head, n);
    } else {
      var head := file[..MAX_FINGERPRINT_DATA_LEN];
      assert head == file[..n][..MAX_FINGERPRINT_DATA_LEN];
      FingerprintOfPrefix(hash, head, file[..n]);
    }
  }

  /** Once a file has a fingerprint, appending to it never changes that. */
  lemma FingerprintIsStable(hash: Hash, file: bytes, grown: bytes)
    requires file <= grown && FileFingerprint(hash, file) != 0
    ensures FileFingerprint(hash, grown) == FileFingerprint(hash, file)
  {
    var head := Head(file);
    if !NoNewline(head) {
      var n := FirstNewline(head);
      FirstNewlineIs(file, n);
      assert grown[..n] == file[..n] == head[..n];
      FirstNewlineIs(grown, n);
      FingerprintOfFirstLine(hash, grown);
      FingerprintOfFirstLine(hash, file);
    } else {
      assert Head(grown) == head;
    }
  }

  /** A checkpoint that belongs to the file: it is at a line boundary and its fingerprint, if any, is the file's. */
  ghost predicate Belongs(hash: Hash, file: bytes, cp: Checkpoint) {
    && cp.offset <= |file| && (cp.offset > 0 ==> file[cp.offset - 1] == NEWLINE)
    && Fingerprinted(hash, file, cp)
  }

  ghost predicate Fingerprinted(hash: Hash, file: bytes, cp: Checkpoint) {
    && (cp.offset > 0 ==> cp.fingerprint != 0)
    && (cp.fingerprint != 0 ==> cp.fingerprint == FileFingerprint(hash, file))
  }

  lemma BelongsOnceGrown(hash: Hash, file: bytes, grown: bytes, cp: Checkpoint)
    requires Belongs(hash, file, cp) && file <= grown
    ensures Belongs(hash, grown, cp)
  {
    if cp.fingerprint != 0 {
      FingerprintIsStable(hash, file, grown);
    }
  }

  const BEGINNING := Core(0, 0, 0, 0)

  /** The checkpoint is taken for one of the file. */
  predicate Accepted(hash: Hash, file: bytes, cp: Checkpoint) {
    var fp := FileFingerprint(hash, file);
    fp != 0 && (cp.fingerprint == 0 || cp.fingerprint == fp)
  }

  /** Where reading starts: at the checkpoint, or at the beginning if the checkpoint is not accepted. */
  function Resume(hash: Hash, file: bytes, cp: Checkpoint): Core {
    if Accepted(hash, file, cp) then
      var fp := FileFingerprint(hash, file);
      Core(cp.offset, fp, cp.offset, fp)
    else
      BEGINNING
  }

  /** Reading starts at the stored checkpoint, if there is one, the file is found for it and it is accepted. */
  predicate Resumed(hash: Hash, file: bytes, stored: Option<Checkpoint>, found: bool) {
    stored.Some? && found && Accepted(hash, file, stored.value)
  }

  function Opened(hash: Hash, file: bytes, stored: Option<Checkpoint>, found: bool): Core {
    if stored.Some? && found then Resume(hash, file, stored.value) else BEGINNING
  }

  /**
   Opens the file where its checkpoint says, or at the beginning: without a checkpoint, if no file
   is found for it or if it is not accepted. Then the database does not keep it either.
   */
  method OpenLogFile(hash: Hash, file: bytes, stored: Option<Checkpoint>, found: bool, processor: Processor)
    returns (lf: LogFile, kept: Option<Checkpoint>)
    requires processor.given == [] && processor.answers == []
    ensures fresh(lf) && lf.hash == hash && lf.processor == processor
    ensures kept == if Resumed(hash, file, stored, found) then stored else None
    ensures lf.Snapshot().core == Opened(hash, file, stored, found)
    ensures Follows(hash, Opened(hash, file, stored, found), [], lf.Snapshot())
  {
    kept := None;
    if stored.None? {
      lf := new LogFile.At(hash, processor, 0, 0, 0);
      return;
    }
    var cp := stored.value;
    var fp := GetFileFingerprint(hash, file);
    if !found || fp == 0 || (cp.fingerprint != 0 && cp.fingerprint != fp) {
      lf := new LogFile.At(hash, processor, 0, 0, 0);
    } else {
      lf := new LogFile.At(hash, processor, cp.offset, fp, fp);
      kept := stored;
    }
  }

  /** The offset of the stored checkpoint. */
  function Start(stored: Option<Checkpoint>): nat {
    if stored.None? then 0 else stored.value.offset
  }

  /** What is stored belongs to the file. */
  ghost predicate Fits(hash: Hash, file: bytes, stored: Option<Checkpoint>) {
    stored.Some? ==> Belongs(hash, file, stored.value)
  }

  /** A checkpoint is made with the file's inode and its fingerprint, or with neither; only then no file is found. */
  predicate MayBeFound(stored: Option<Checkpoint>, found: bool) {
    stored.Some? && stored.value.fingerprint != 0 ==> found
  }

  /** A state to read on from: all lines before it are committed, and it is a checkpoint of the file. */
  ghost predicate Started(hash: Hash, file: bytes, origin: Core) {
    && origin.commitOffset == origin.offset && origin.commitFingerprint == origin.fingerprint
    && Belongs(hash, file, Checkpoint(origin.offset, origin.fingerprint))
  }

  lemma NewlineInside(data: bytes, i: nat)
    requires i < |data| && data[i] == NEWLINE
    ensures !NoNewline(data)
  {
  }

  /** A checkpoint of the file is always resumed from. */
  lemma ResumesAtCheckpoint(hash: Hash, file: bytes, cp: Checkpoint)
    requires Belongs(hash, file, cp)
    ensures Resume(hash, file, cp).offset == cp.offset && Started(hash, file, Resume(hash, file, cp))
  {
    if cp.offset > 0 {
      NewlineInside(file, cp.offset - 1);
      FingerprintOfFirstLine(hash, file);
    }
  }

  /** Whether or not there is a checkpoint, the file is opened where all that was committed ends. */
  lemma OpensAtCheckpoint(hash: Hash, file: bytes, stored: Option<Checkpoint>, found: bool)
    requires Fits(hash, file, stored) && MayBeFound(stored, found)
    ensures var c := Opened(hash, file, stored, found); c.offset == Start(stored) && Started(hash, file, c)
  {
    if stored.Some? && found {
      ResumesAtCheckpoint(hash, file, stored.value);
    }
  }

  /** The file may grow while it is open; it has the same start then. */
  lemma StartedOnceGrown(hash: Hash, file: bytes, grown: bytes, origin: Core)
    requires Started(hash, file, origin) && file <= grown
    ensures Started(hash, grown, origin)
  {
    BelongsOnceGrown(hash, file, grown, Checkpoint(origin.offset, origin.fingerprint));
  }

  /** The checkpoint that a tailed file leaves. */
  function CheckpointOf(s: Tailed): Checkpoint {
    Checkpoint(s.core.commitOffset, s.core.commitFingerprint)
  }

  /** The lines that one session committed. */
  ghost function CommittedLines(consumed: bytes, s: Tailed): seq<bytes>
    requires |s.answers| == |Short(Split(consumed).0)|
  {
    Split(consumed).0[..Committed(Split(consumed).0, s.answers)]
  }

  /**
   One session, from where the file was opened to wherever reading got: it leaves a checkpoint of
   the file, just after the last line it committed.
   */
  lemma SessionMeans(hash: Hash, file: bytes, origin: Core, end: nat, s: Tailed)
    requires Started(hash, file, origin) && origin.offset <= end <= |file|
    requires Follows(hash, origin, file[origin.offset..end], s)
    ensures var committed := CommittedLines(file[origin.offset..end], s);
            && CheckpointOf(s).offset == origin.offset + Length(committed) <= end
            && AreLines(committed, file[origin.offset..CheckpointOf(s).offset])
            && Belongs(hash, file, CheckpointOf(s))
  {
    var consumed := file[origin.offset..end];
    var lines := Split(consumed).0;
    var committed := lines[..Committed(lines, s.answers)];
    CheckpointMeans(hash, file, origin, end, consumed, lines, s, committed);
    CommittedAt(hash, file, origin.offset, end, consumed, committed, CheckpointOf(s));
  }

  /** The checkpoint after these lines. */
  lemma CheckpointMeans(hash: Hash, file: bytes, origin: Core, end: nat, consumed: bytes, lines: seq<bytes>,
                        s: Tailed, committed: seq<bytes>)
    requires Started(hash, file, origin) && origin.offset <= end <= |file| && |s.answers| == |Short(lines)|
    requires consumed == file[origin.offset..end] && lines == Split(consumed).0
    requires s.core == Fold(hash, origin, lines, s.answers)
    requires committed == lines[..Committed(lines, s.answers)]
    ensures CheckpointOf(s).offset == origin.offset + Length(committed)
    ensures Fingerprinted(hash, file, CheckpointOf(s))
  {
    FoldCommit(hash, origin, lines, s.answers);
    if committed != [] && origin.offset == 0 {
      FirstLineFingerprint(hash, file, end, consumed);
    }
  }

  /** The first lines from `from` on are the file's lines up to `to`, and end in a newline. */
  lemma LinesTaken(file: bytes, from: nat, end: nat, data: bytes, lines: seq<bytes>, to: nat)
    requires from <= end <= |file| && data == file[from..end]
    requires lines <= Split(data).0 && to == from + Length(lines)
    ensures to <= end && AreLines(lines, file[from..to]) && (to > from ==> file[to - 1] == NEWLINE)
  {
    var front := FrontOfLines(data, lines);
    PrefixInFile(file, from, end, data, front, to);
    if front != [] {
      CompleteEndsInNewline(front);
    }
  }

  lemma CommittedAt(hash: Hash, file: bytes, from: nat, end: nat, data: bytes, committed: seq<bytes>,
                    next: Checkpoint)
    requires from <= end <= |file| && (from > 0 ==> file[from - 1] == NEWLINE)
    requires data == file[from..end] && committed <= Split(data).0
    requires next.offset == from + Length(committed) && Fingerprinted(hash, file, next)
    ensures next.offset <= end && AreLines(committed, file[from..next.offset]) && Belongs(hash, file, next)
  {
    LinesTaken(file, from, end, data, committed, next.offset);
  }

  lemma PrefixInFile(file: bytes, from: nat, end: nat, data: bytes, front: bytes, to: nat)
    requires from <= end <= |file| && data == file[from..end] && front <= data && to == from + |front|
    ensures to <= end && file[from..to] == front
    ensures front != [] ==> file[to - 1] == front[|front| - 1]
  {
  }

  /** The first line read from the beginning of a file gives the file's fingerprint. */
  lemma FirstLineFingerprint(hash: Hash, file: bytes, end: nat, consumed: bytes)
    requires end <= |file| && consumed == file[0..end] && Split(consumed).0 != []
    ensures CalcFingerprint(hash, Split(consumed).0[0]) == FileFingerprint(hash, file)
  {
    var n := FirstNewline(consumed);
    assert file[..n] == consumed[..n];
    FirstNewlineIs(file, n);
    FingerprintOfFirstLine(hash, file);
  }

  // ----- any number of restarts

  /**
   A session: the file when it was opened and when it was last read, whether a file was found for
   the checkpoint, how far it was read, and what came of it.
   */
  datatype Session = Session(first: bytes, file: bytes, found: bool, end: nat, state: Tailed)

  ghost predicate IsSession(hash: Hash, stored: Option<Checkpoint>, before: bytes, s: Session) {
    && before <= s.first <= s.file && MayBeFound(stored, s.found) && Start(stored) <= s.end <= |s.file|
    && Follows(hash, Opened(hash, s.first, stored, s.found), s.file[Start(stored)..s.end], s.state)
  }

  /** What is stored after a session: its checkpoint, if it has read anything. */
  function StoredAfter(hash: Hash, stored: Option<Checkpoint>, s: Session): Option<Checkpoint> {
    if s.end > Start(stored) then Some(CheckpointOf(s.state))
    else if Resumed(hash, s.first, stored, s.found) then stored
    else None
  }

  /** The file after it has grown `i` times. */
  function FileAt(first: bytes, grown: seq<bytes>, i: nat): bytes
    requires i <= |grown|
  {
    if i == 0 then first else grown[i - 1]
  }

  ghost predicate Growing(first: bytes, grown: seq<bytes>) {
    forall i {:trigger FileAt(first, grown, i)} :: 0 <= i < |grown| ==> FileAt(first, grown, i) <= grown[i]
  }

  lemma SameSlice(file: bytes, grown: bytes, start: nat, end: nat)
    requires file <= grown && start <= end <= |file|
    ensures grown[start..end] == file[start..end]
  {
  }

  /** Reads on in the file, which may have grown, and stores the checkpoint if there was anything to read. */
  method ReadOn(lf: LogFile, file: bytes, grown: bytes, start: nat, end: nat, stopAt: Option<nat>,
                stored: Option<Checkpoint>, ghost origin: Core, ghost before: bytes)
    returns (next: nat, kept: Option<Checkpoint>, ghost consumed: bytes)
    requires file <= grown && start <= end <= |file|
    requires before == file[start..end] && Follows(lf.hash, origin, before, lf.Snapshot())
    modifies lf, lf.processor
    ensures end <= next <= |grown|
    ensures consumed == grown[start..next] && Follows(lf.hash, origin, consumed, lf.Snapshot())
    ensures kept == if next > end then Some(Checkpoint(lf.commitOffset, lf.commitFingerprint)) else stored
    ensures next == end ==> unchanged(lf) && (next == |grown| || stopAt == Some(0))
  {
    SameSlice(file, grown, start, end);
    var anyRead;
    ghost var full, short;
    next, anyRead, consumed, full, short := lf.ReadLines(grown, end, stopAt, origin, start, before);
    kept := if anyRead then Some(Checkpoint(lf.commitOffset, lf.commitFingerprint)) else stored;
  }

  /** Each of the first `k` reads is stopped at once or has nothing to read. */
  ghost predicate NothingRead(grown: seq<bytes>, start: nat, stops: seq<Option<nat>>, k: nat)
    requires k <= |grown| == |stops|
  {
    forall i :: 0 <= i < k ==> |grown[i]| <= start || stops[i] == Some(0)
  }

  lemma NothingReadOn(grown: seq<bytes>, start: nat, stops: seq<Option<nat>>, i: nat)
    requires i < |grown| == |stops|
    ensures NothingRead(grown, start, stops, i + 1)
            <==> NothingRead(grown, start, stops, i) && (|grown[i]| <= start || stops[i] == Some(0))
  {
  }

  lemma GrownOnce(first: bytes, grown: seq<bytes>, i: nat, file: bytes)
    requires Growing(first, grown) && i < |grown| && file == FileAt(first, grown, i) && first <= file
    ensures file <= grown[i] && first <= grown[i]
  {
  }

  /** Reads on as often as the file has grown. */
  method KeepReading(lf: LogFile, first: bytes, grown: seq<bytes>, start: nat, stops: seq<Option<nat>>,
                     stored: Option<Checkpoint>, ghost origin: Core)
    returns (end: nat, kept: Option<Checkpoint>, file: bytes, ghost consumed: bytes)
    requires start <= |first| && Growing(first, grown) && |stops| == |grown|
    requires Follows(lf.hash, origin, [], lf.Snapshot())
    modifies lf, lf.processor
    ensures file == FileAt(first, grown, |grown|) && first <= file
    ensures start <= end <= |file| && consumed == file[start..end]
    ensures Follows(lf.hash, origin, consumed, lf.Snapshot())
    ensures kept == if end > start then Some(Checkpoint(lf.commitOffset, lf.commitFingerprint)) else stored
    ensures end == start ==> NothingRead(grown, start, stops, |grown|)
  {
    end, kept, file, consumed := start, stored, first, [];
    assert file[start..start] == [];
    for i := 0 to |grown|
      invariant file == FileAt(first, grown, i) && first <= file
      invariant start <= end <= |file| && consumed == file[start..end]
      invariant Follows(lf.hash, origin, consumed, lf.Snapshot())
      invariant kept == if end > start then Some(Checkpoint(lf.commitOffset, lf.commitFingerprint)) else stored
      invariant end == start ==> NothingRead(grown, start, stops, i)
    {
      NothingReadOn(grown, start, stops, i);
      GrownOnce(first, grown, i, file);
      end, kept, consumed := ReadOn(lf, file, grown[i], start, end, stops[i], kept, origin, consumed);
      file := grown[i];
    }
  }

  /** A whole session on a file that grows meanwhile: what it stores is a checkpoint of the file. */
  method RunSession(hash: Hash, first: bytes, grown: seq<bytes>, stops: seq<Option<nat>>, stored: Option<Checkpoint>,
                    found: bool)
    returns (s: Session, kept: Option<Checkpoint>)
    requires Fits(hash, first, stored) && MayBeFound(stored, found) && Growing(first, grown) && |stops| == |grown|
    ensures s.first == first && s.found == found && s.file == FileAt(first, grown, |grown|)
    ensures IsSession(hash, stored, first, s)
    ensures kept == StoredAfter(hash, stored, s) && Fits(hash, s.file, kept)
    ensures s.end == Start(stored) ==> NothingRead(grown, s.end, stops, |grown|)
  {
    var processor := new Processor();
    var lf;
    lf, kept := OpenLogFile(hash, first, stored, found, processor);
    OpensAtCheckpoint(hash, first, stored, found);
    var end, file;
    ghost var consumed;
    ghost var origin := Opened(hash, first, stored, found);
    end, kept, file, consumed := KeepReading(lf, first, grown, lf.offset, stops, kept, origin);
    s := Session(first, file, found, end, lf.Snapshot());
    SessionStores(hash, stored, first, s);
  }

  /** One after the other, each from what the one before has stored. */
  ghost predicate Runs(hash: Hash, stored: Option<Checkpoint>, before: bytes, sessions: seq<Session>)
    decreases |sessions|
  {
    sessions == [] ||
    var s := sessions[0];
    && IsSession(hash, stored, before, s)
    && Runs(hash, StoredAfter(hash, stored, s), s.file, sessions[1..])
  }

  ghost function LastStored(hash: Hash, stored: Option<Checkpoint>, sessions: seq<Session>): Option<Checkpoint>
    decreases |sessions|
  {
    if sessions == [] then stored else LastStored(hash, StoredAfter(hash, stored, sessions[0]), sessions[1..])
  }

  ghost function LastFile(before: bytes, sessions: seq<Session>): bytes
    decreases |sessions|
  {
    if sessions == [] then before else LastFile(sessions[0].file, sessions[1..])
  }

  ghost function CommittedIn(hash: Hash, stored: Option<Checkpoint>, before: bytes, s: Session): seq<bytes>
    requires IsSession(hash, stored, before, s)
  {
    CommittedLines(s.file[Start(stored)..s.end], s.state)
  }

  /** The lines committed in all the sessions, one after the other. */
  ghost function AllCommitted(hash: Hash, stored: Option<Checkpoint>, before: bytes, sessions: seq<Session>)
    : seq<bytes>
    requires Runs(hash, stored, before, sessions)
    decreases |sessions|
  {
    if sessions == [] then [] else
    var s := sessions[0];
    CommittedIn(hash, stored, before, s)
    + AllCommitted(hash, StoredAfter(hash, stored, s), s.file, sessions[1..])
  }

  /** What the processors of the sessions were given up to their last commit, one after the other. */
  ghost function AllGiven(hash: Hash, stored: Option<Checkpoint>, before: bytes, sessions: seq<Session>)
    : seq<bytes>
    requires Runs(hash, stored, before, sessions)
    decreases |sessions|
  {
    if sessions == [] then [] else
    var s := sessions[0];
    var n := |Short(CommittedIn(hash, stored, before, s))|;
    s.state.given[..if n <= |s.state.given| then n else |s.state.given|]
    + AllGiven(hash, StoredAfter(hash, stored, s), s.file, sessions[1..])
  }

  lemma {:induction false} CommittedWereGiven(hash: Hash, stored: Option<Checkpoint>, before: bytes,
                                              sessions: seq<Session>)
    requires Runs(hash, stored, before, sessions)
    ensures Short(AllCommitted(hash, stored, before, sessions)) == AllGiven(hash, stored, before, sessions)
    decreases |sessions|
  {
    if sessions != [] {
      var s := sessions[0];
      var next := StoredAfter(hash, stored, s);
      CommittedWereGiven(hash, next, s.file, sessions[1..]);
      GivenThen(CommittedIn(hash, stored, before, s), Split(s.file[Start(stored)..s.end]).0, s.state.given,
                AllCommitted(hash, next, s.file, sessions[1..]));
    }
  }

  lemma GivenThen(committed: seq<bytes>, lines: seq<bytes>, given: seq<bytes>, later: seq<bytes>)
    requires committed <= lines && given == Short(lines)
    ensures |Short(committed)| <= |given|
    ensures Short(committed + later) == given[..|Short(committed)|] + Short(later)
  {
    ShortPrefix(committed, lines);
    ShortConcat(committed, later);
  }

  /** What is stored belongs to the file, and these are the lines before it. */
  ghost predicate Upto(hash: Hash, file: bytes, stored: Option<Checkpoint>, lines: seq<bytes>) {
    Fits(hash, file, stored) && AreLines(lines, file[..Start(stored)])
  }

  lemma {:induction false} CommittedUpto(hash: Hash, stored: Option<Checkpoint>, before: bytes, lines: seq<bytes>,
                                         sessions: seq<Session>)
    requires Upto(hash, before, stored, lines) && Runs(hash, stored, before, sessions)
    ensures before <= LastFile(before, sessions)
    ensures Upto(hash, LastFile(before, sessions), LastStored(hash, stored, sessions),
                 lines + AllCommitted(hash, stored, before, sessions))
    decreases |sessions|
  {
    if sessions == [] {
      assert lines + [] == lines;
    } else {
      var s, later := sessions[0], sessions[1..];
      var next, committed := StoredAfter(hash, stored, s), CommittedIn(hash, stored, before, s);
      OneSession(hash, stored, before, lines, s);
      CommittedUpto(hash, next, s.file, lines + committed, later);
      Associates(lines, committed, AllCommitted(hash, next, s.file, later));
    }
  }

  /**
   Over any number of restarts, with or without a checkpoint at first, whatever the processor
   commits and however the file grows meanwhile, the lines committed are exactly the lines of the
   file up to the last checkpoint: none is lost and none is committed twice. Those of them that
   are not too long are exactly what the processors were given up to their commits, in order.
   */
  lemma NothingIsLost(hash: Hash, stored: Option<Checkpoint>, before: bytes, lines: seq<bytes>, sessions: seq<Session>)
    requires Upto(hash, before, stored, lines) && Runs(hash, stored, before, sessions)
    ensures before <= LastFile(before, sessions)
    ensures Upto(hash, LastFile(before, sessions), LastStored(hash, stored, sessions),
                 lines + AllCommitted(hash, stored, before, sessions))
    ensures Short(AllCommitted(hash, stored, before, sessions)) == AllGiven(hash, stored, before, sessions)
  {
    CommittedUpto(hash, stored, before, lines, sessions);
    CommittedWereGiven(hash, stored, before, sessions);
  }

  /** From a file that was never read: all that is ever committed is the first lines of the file. */
  lemma NothingIsLostFromTheStart(hash: Hash, before: bytes, sessions: seq<Session>)
    requires Runs(hash, None, before, sessions)
    ensures var last, file := LastStored(hash, None, sessions), LastFile(before, sessions);
            Fits(hash, file, last) && AreLines(AllCommitted(hash, None, before, sessions), file[..Start(last)])
  {
    assert Upto(hash, before, None, []);
    NothingIsLost(hash, None, before, [], sessions);
    var committed := AllCommitted(hash, None, before, sessions);
    assert [] + committed == committed;
  }

  /** What a session stores is a checkpoint of the file, just after the last line it committed. */
  lemma SessionStores(hash: Hash, stored: Option<Checkpoint>, before: bytes, s: Session)
    requires Fits(hash, before, stored) && IsSession(hash, stored, before, s)
    ensures var next, committed := StoredAfter(hash, stored, s), CommittedIn(hash, stored, before, s);
            && Fits(hash, s.file, next) && Start(stored) <= Start(next) <= |s.file|
            && AreLines(committed, s.file[Start(stored)..Start(next)])
  {
    GrownFits(hash, before, s.first, stored);
    GrownFits(hash, before, s.file, stored);
    var origin := Opened(hash, s.first, stored, s.found);
    OpensAtCheckpoint(hash, s.first, stored, s.found);
    StartedOnceGrown(hash, s.first, s.file, origin);
    SessionMeans(hash, s.file, origin, s.end, s.state);
  }

  lemma GrownFits(hash: Hash, file: bytes, grown: bytes, stored: Option<Checkpoint>)
    requires Fits(hash, file, stored) && file <= grown
    ensures Fits(hash, grown, stored)
  {
    if stored.Some? {
      BelongsOnceGrown(hash, file, grown, stored.value);
    }
  }

  lemma OneSession(hash: Hash, stored: Option<Checkpoint>, before: bytes, lines: seq<bytes>, s: Session)
    requires Upto(hash, before, stored, lines) && IsSession(hash, stored, before, s)
    ensures Upto(hash, s.file, StoredAfter(hash, stored, s), lines + CommittedIn(hash, stored, before, s))
  {
    SessionStores(hash, stored, before, s);
    CommittedSoFar(before, s.file, Start(stored), Start(StoredAfter(hash, stored, s)), lines,
                   CommittedIn(hash, stored, before, s));
  }

  lemma CommittedSoFar(before: bytes, file: bytes, from: nat, to: nat, lines: seq<bytes>, committed: seq<bytes>)
    requires before <= file && from <= |before| && from <= to <= |file|
    requires AreLines(lines, before[..from]) && AreLines(committed, file[from..to])
    ensures AreLines(lines + committed, file[..to])
  {
    assert file[..to] == before[..from] + file[from..to];
    assert [] + file[from..to] == file[from..to];
    SplitAppend(before[..from], file[from..to]);
  }

  // ----- telling files apart

  /** What is looked at: the first line, or what there is of it, up to 64 bytes. */
  function Key(file: bytes): bytes {
    var line := if NoNewline(file) then file else file[..FirstNewline(file)];
    if |line| <= 64 then line else line[..64]
  }

  /** A file has a fingerprint exactly if its first line is complete or has 64 bytes; it is that of its key. */
  lemma FingerprintOfKey(hash: Hash, file: bytes)
    ensures FileFingerprint(hash, file) == 0 <==> NoNewline(file) && |file| < 64
    ensures FileFingerprint(hash, file) != 0 ==> FileFingerprint(hash, file) == CalcFingerprint(hash, Key(file))
  {
    if NoNewline(file) {
      assert NoNewline(Head(file));
    } else {
      FingerprintOfFirstLine(hash, file);
      FingerprintOfPrefix(hash, Key(file), file[..FirstNewline(file)]);
    }
  }

  /** A hash that tells short strings apart and is never 0. */
  ghost predicate Tells(hash: Hash) {
    && (forall x, y :: |x| <= 64 && |y| <= 64 && hash(x) == hash(y) ==> x == y)
    && (forall x :: |x| <= 64 ==> hash(x) != 0)
  }

  /** With such a hash, files with the same fingerprint start with the same line, as far as 64 bytes go. */
  lemma FingerprintTells(hash: Hash, a: bytes, b: bytes)
    requires Tells(hash) && FileFingerprint(hash, a) != 0 && FileFingerprint(hash, b) != 0
    ensures FileFingerprint(hash, a) == FileFingerprint(hash, b) <==> Key(a) == Key(b)
  {
    FingerprintOfKey(hash, a);
    FingerprintOfKey(hash, b);
    FingerprintIs(hash, Key(a));
    FingerprintIs(hash, Key(b));
  }

  /** The checkpoint of another file is not resumed from, nor kept: reading starts at the beginning. */
  lemma OtherFileIsRejected(hash: Hash, a: bytes, b: bytes, cp: Checkpoint, found: bool)
    requires Belongs(hash, a, cp) && cp.fingerprint != 0 && FileFingerprint(hash, a) != FileFingerprint(hash, b)
    ensures Opened(hash, b, Some(cp), found) == Core(0, 0, 0, 0) && !Resumed(hash, b, Some(cp), found)
  {
  }

  /** A checkpoint is resumed from exactly if the file has its fingerprint, or any if it has none itself. */
  lemma ResumedExactly(hash: Hash, file: bytes, cp: Checkpoint)
    ensures Resumed(hash, file, Some(cp), true)
            <==> FileFingerprint(hash, file) != 0 && cp.fingerprint in {0, FileFingerprint(hash, file)}
    ensures Resumed(hash, file, Some(cp), true) ==>
              Opened(hash, file, Some(cp), true)
              == Core(cp.offset, FileFingerprint(hash, file), cp.offset, FileFingerprint(hash, file))
    ensures !Resumed(hash, file, Some(cp), true) ==> Opened(hash, file, Some(cp), true) == Core(0, 0, 0, 0)
    ensures !Resumed(hash, file, None, true) && Opened(hash, file, None, true) == Core(0, 0, 0, 0)
    ensures !Resumed(hash, file, Some(cp), false) && Opened(hash, file, Some(cp), false) == Core(0, 0, 0, 0)
  {
  }
}
