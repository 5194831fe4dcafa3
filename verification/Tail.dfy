/** Tailing a log file as the source's object does it (`LogFile` in crates/esl-agent/src/tail.rs). */
module Tail {
  import opened Bytes
  import opened LineFraming
  import opened TailModel

  /** Takes the lines and answers for each whether it is to be committed; the answer may be anything. */
  class Processor {
    var given: seq<bytes>
    var answers: seq<bool>

    constructor ()
      ensures given == [] && answers == []
    {
      given, answers := [], [];
    }

    method TryAddLine(line: bytes) returns (ok: bool)
      modifies this
      ensures given == old(given) + [line] && answers == old(answers) + [ok]
    {
      ok := *;
      given, answers := given + [line], answers + [ok];
    }
  }

  datatype TailCompletion = Incomplete | Done(rest: bytes, line: Option<bytes>)

  /** The check for a stop, of which there have been `checks` before; it comes to one from `stopAt` on. */
  predicate Stops(stopAt: Option<nat>, checks: nat) {
    stopAt.Some? && stopAt.value <= checks
  }

  class LogFile {
    const hash: Hash
    const processor: Processor
    var offset: nat
    var fingerprint: nat
    var commitOffset: nat
    var commitFingerprint: nat
    var tail: bytes
    var tailSize: nat

    function Snapshot(): Tailed
      reads this, processor
    {
      Tailed(Core(offset, fingerprint, commitOffset, commitFingerprint), tail, tailSize,
             processor.given, processor.answers)
    }

    constructor At(hash: Hash, processor: Processor, offset: nat, fingerprint: nat, commitFingerprint: nat)
      requires processor.given == [] && processor.answers == []
      ensures this.hash == hash && this.processor == processor
      ensures Snapshot().core == Core(offset, fingerprint, offset, commitFingerprint)
      ensures Follows(hash, Snapshot().core, [], Snapshot())
    {
      this.hash, this.processor := hash, processor;
      this.offset, this.fingerprint := offset, fingerprint;
      this.commitOffset, this.commitFingerprint := offset, commitFingerprint;
      tail, tailSize := [], 0;
    }

    method AddLine(line: bytes) returns (ok: bool)
      modifies this, processor
      ensures Snapshot() == Given(hash, old(Snapshot()), line, ok)
    {
      if offset == 0 {
        fingerprint := CalcFingerprint(hash, line);
      }
      offset := offset + |line| + 1;
      ok := processor.TryAddLine(line);
      if ok {
        commitFingerprint, commitOffset := fingerprint, offset;
      }
    }

    method SetTail(rest: bytes)
      requires tailSize == 0
      modifies this`tail, this`tailSize
      ensures Snapshot() == old(Snapshot()).(tail := rest, tailSize := |rest|)
    {
      tail, tailSize := rest, |rest|;
    }

    /** Completes the line left over from the previous read, unless there is none or it is still unfinished. */
    method TryCompleteTail(data: bytes, ghost origin: Core, ghost consumed: bytes)
      returns (r: TailCompletion, ghost done: bytes)
      requires Follows(hash, origin, consumed, Snapshot()) && 0 < |data| <= READ_BUFFER_SIZE
      modifies this
      ensures r.Incomplete? ==> Follows(hash, origin, consumed + data, Snapshot())
      ensures r.Done? ==> && tailSize == 0 && Follows(hash, origin, done, Snapshot())
                          && |r.rest| <= |data|
                          && (r.line.None? ==> done + r.rest == consumed + data)
                          && (r.line.Some? ==> && 0 < |r.line.value| <= MAX_LOG_LINE_SIZE && NoNewline(r.line.value)
                                               && done + (r.line.value + [NEWLINE]) + r.rest == consumed + data)
    {
      done := consumed;
      if tailSize == 0 {
        return Done(data, None), consumed;
      }
      ghost var s := Snapshot();
      var n := Position(data);
      if n.None? {
        TailGrown(hash, origin, consumed, s, data);
        tailSize := tailSize + |data|;
        if tailSize <= MAX_LOG_LINE_SIZE {
          tail := tail + data;
        }
        return Incomplete, consumed;
      }
      r, done := CompleteLine(data, n.value, origin, consumed);
    }

    method CompleteLine(data: bytes, n: nat, ghost origin: Core, ghost consumed: bytes)
      returns (r: TailCompletion, ghost done: bytes)
      requires Follows(hash, origin, consumed, Snapshot()) && tailSize > 0 && |data| <= READ_BUFFER_SIZE
      requires n < |data| && data[n] == NEWLINE && NoNewline(data[..n])
      modifies this
      ensures r.Done? && tailSize == 0 && Follows(hash, origin, done, Snapshot()) && r.rest == data[n + 1..]
      ensures r.line.None? ==> done + r.rest == consumed + data
      ensures r.line.Some? ==> && 0 < |r.line.value| <= MAX_LOG_LINE_SIZE && NoNewline(r.line.value)
                               && done + (r.line.value + [NEWLINE]) + r.rest == consumed + data
    {
      var tailEnd, rest := data[..n], data[n + 1..];
      if tailSize + |tailEnd| > MAX_LOG_LINE_SIZE {
        PassLine(tailEnd, origin, consumed);
        LineCut(consumed, data, n);
        return Done(rest, None), consumed + (tailEnd + [NEWLINE]);
      }
      var line;
      line, done := TakeTail(data, n, origin, consumed);
      r := Done(rest, Some(line));
    }

    /** Passes the unfinished line, which is too long with this end, without giving it. */
    method PassLine(tailEnd: bytes, ghost origin: Core, ghost consumed: bytes)
      requires Follows(hash, origin, consumed, Snapshot()) && tailSize > 0 && |tailEnd| <= READ_BUFFER_SIZE
      requires NoNewline(tailEnd) && tailSize + |tailEnd| > MAX_LOG_LINE_SIZE
      modifies this
      ensures tailSize == 0 && Follows(hash, origin, consumed + (tailEnd + [NEWLINE]), Snapshot())
    {
      LinePassed(hash, origin, consumed, Snapshot(), tailEnd);
      if offset == 0 {
        fingerprint := CalcFingerprint(hash, tail);
      }
      offset := offset + tailSize + |tailEnd| + 1;
      tail, tailSize := [], 0;
    }

    /** The unfinished line with its end; `done` is what came before it. */
    method TakeTail(data: bytes, n: nat, ghost origin: Core, ghost consumed: bytes)
      returns (line: bytes, ghost done: bytes)
      requires Follows(hash, origin, consumed, Snapshot()) && tailSize > 0
      requires n < |data| && data[n] == NEWLINE && NoNewline(data[..n]) && tailSize + n <= MAX_LOG_LINE_SIZE
      modifies this
      ensures NoNewline(line) && 0 < |line| <= MAX_LOG_LINE_SIZE
      ensures done + (line + [NEWLINE]) + data[n + 1..] == consumed + data
      ensures tailSize == 0 && Follows(hash, origin, done, Snapshot())
    {
      TailTaken(hash, origin, consumed, Snapshot());
      done := consumed[..|consumed| - tailSize];
      line := tail + data[..n];
      NoNewlineJoined(tail, data[..n]);
      TailJoined(consumed, tailSize, tail, data, n);
      tail, tailSize := [], 0;
    }

    /** One read's worth of data: the result is that of the whole stream so far. */
    method ProcessLines(data: bytes, ghost origin: Core, ghost consumed: bytes)
      requires Follows(hash, origin, consumed, Snapshot()) && |data| <= READ_BUFFER_SIZE
      modifies this, processor
      ensures Follows(hash, origin, consumed + data, Snapshot())
    {
      if data == [] {
        assert consumed + data == consumed;
        return;
      }
      var r;
      ghost var done;
      r, done := TryCompleteTail(data, origin, consumed);
      if r.Incomplete? {
        return;
      }
      if r.line.Some? && r.line.value != [] {
        done := GiveLine(r.line.value, origin, done);
      }
      CompleteLines(r.rest, origin, done);
    }

    /** One read of any size up to the buffer's. */
    method ReadPiece(disk: bytes, end: nat, ghost origin: Core, ghost start: nat, ghost consumed: bytes)
      returns (n: nat, ghost next: bytes)
      requires start <= end < |disk| && consumed == disk[start..end] && Follows(hash, origin, consumed, Snapshot())
      modifies this, processor
      ensures 0 < n <= READ_BUFFER_SIZE && end + n <= |disk|
      ensures next == disk[start..end + n] && Follows(hash, origin, next, Snapshot())
    {
      n :| 0 < n <= READ_BUFFER_SIZE && n <= |disk| - end;
      SliceGrown(disk, start, end, n);
      next := consumed + disk[end..end + n];
      ProcessLines(disk[end..end + n], origin, consumed);
    }

    /**
     Reads what the file has to offer from `pos` on: pieces that fill the buffer of 256 KiB, until
     it is told to stop or the file ends, or a piece comes short. That are `full` pieces and `short` bytes.
     */
    method ReadLines(disk: bytes, pos: nat, stopAt: Option<nat>, ghost origin: Core, ghost start: nat,
                     ghost before: bytes)
      returns (end: nat, anyRead: bool, ghost consumed: bytes, ghost full: nat, ghost short: nat)
      requires start <= pos <= |disk| && before == disk[start..pos] && Follows(hash, origin, before, Snapshot())
      modifies this, processor
      ensures pos <= end <= |disk| && (anyRead <==> end > pos)
      ensures consumed == disk[start..end] && Follows(hash, origin, consumed, Snapshot())
      ensures !anyRead ==> unchanged(this)
      ensures end == pos + 262_144 * full + short && short < 262_144
      ensures end == |disk| || short > 0 || Stops(stopAt, full)
    {
      end, anyRead, full, short := pos, false, 0, 0;
      var checks := 0;
      consumed := before;
      while !Stops(stopAt, checks) && end < |disk|
        invariant pos <= end <= |disk| && consumed == disk[start..end]
        invariant Follows(hash, origin, consumed, Snapshot())
        invariant checks == full && end == pos + 262_144 * full
        invariant anyRead == (full > 0) && (full == 0 ==> unchanged(this))
        decreases |disk| - end
      {
        var n;
        n, consumed := ReadPiece(disk, end, origin, start, consumed);
        end, anyRead, checks := end + n, true, checks + 1;
        if n < READ_BUFFER_SIZE {
          short := n;
          return;
        }
        full := full + 1;
      }
    }

    /** Gives the processor every line that ends in `data` and keeps what follows the last of them. */
    method CompleteLines(data: bytes, ghost origin: Core, ghost consumed: bytes)
      requires Follows(hash, origin, consumed, Snapshot()) && tailSize == 0 && |data| <= READ_BUFFER_SIZE
      modifies this, processor
      ensures Follows(hash, origin, consumed + data, Snapshot())
    {
      var rest := data;
      ghost var done := consumed;
      var n := Position(rest);
      while n.Some?
        invariant Follows(hash, origin, done, Snapshot()) && tailSize == 0
        invariant done + rest == consumed + data && |rest| <= |data|
        invariant n.None? <==> NoNewline(rest)
        invariant n.Some? ==> n.value == FirstNewline(rest)
        decreases |rest|
      {
        ghost var before := done;
        done := GiveLine(rest[..n.value], origin, done);
        LineCut(before, rest, n.value);
        rest := rest[n.value + 1..];
        n := Position(rest);
      }
      TailGrown(hash, origin, done, Snapshot(), rest);
      SetTail(rest);
    }

    method GiveLine(line: bytes, ghost origin: Core, ghost consumed: bytes) returns (ghost done: bytes)
      requires Follows(hash, origin, consumed, Snapshot()) && tailSize == 0
      requires NoNewline(line) && |line| <= MAX_LOG_LINE_SIZE
      modifies this, processor
      ensures done == consumed + (line + [NEWLINE])
      ensures Follows(hash, origin, done, Snapshot()) && tailSize == 0
    {
      ghost var s := Snapshot();
      var ok := AddLine(line);
      LineGiven(hash, origin, consumed, s, line, ok);
      done := consumed + (line + [NEWLINE]);
    }
  }

  lemma LineCut(done: bytes, rest: bytes, n: nat)
    requires n < |rest| && rest[n] == NEWLINE
    ensures done + (rest[..n] + [NEWLINE]) + rest[n + 1..] == done + rest
  {
    assert rest == rest[..n] + [NEWLINE] + rest[n + 1..];
  }

  lemma SliceGrown(disk: bytes, start: nat, end: nat, n: nat)
    requires start <= end <= end + n <= |disk|
    ensures disk[start..end + n] == disk[start..end] + disk[end..end + n]
  {
  }

  lemma TailJoined(consumed: bytes, tailSize: nat, tail: bytes, data: bytes, n: nat)
    requires tailSize <= |consumed| && tail == consumed[|consumed| - tailSize..]
    requires n < |data| && data[n] == NEWLINE
    ensures consumed[..|consumed| - tailSize] + (tail + data[..n] + [NEWLINE]) + data[n + 1..] == consumed + data
  {
    LineCut(consumed, data, n);
    assert consumed[..|consumed| - tailSize] + tail == consumed;
  }
}
