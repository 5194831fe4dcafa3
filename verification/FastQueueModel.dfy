/**
 The queue that prefers memory to disk (`FastQueue` in crates/esl-agent/src/persistentqueue.rs),
 as a machine whose steps are the sections its mutex makes atomic.

 `sleeping` counts the readers that wait on the condition variable and have not been notified,
 `notified` those that have been woken, perhaps for no reason, and have not yet got the mutex back.
 A step that writes to or reads from the file queue is told how many of the oldest blocks that
 queue loses on the way: none, if it has no size limit and its files are intact.
 */
module FastQueueModel {
  import opened Bytes

  const GRACE_SECONDS: nat := 5

  datatype State = State(
    file: seq<bytes>, mem: seq<bytes>, capacity: nat, memBytes: nat,
    lastRead: nat, stopDeadline: nat, disabled: bool,
    sleeping: nat, notified: nat)
  {
    /** What has been written and not yet read, oldest first. */
    function Contents(): seq<bytes> {
      file + mem
    }

    ghost predicate Inv() {
      && (file == [] || mem == [])
      && |mem| <= capacity
      && memBytes == Size(mem)
      && NoLostWakeup()
    }

    /** A reader sleeps on only if there is nothing to do that an awake reader will not see to. */
    predicate NoLostWakeup() {
      sleeping > 0 ==> file == [] && stopDeadline == 0 && |mem| <= notified
    }

    predicate WriteBlocked() {
      disabled && (|mem| == capacity || file != [])
    }
  }

  function Size(blocks: seq<bytes>): nat {
    if blocks == [] then 0 else |blocks[0]| + Size(blocks[1..])
  }

  lemma {:induction false} SizeAppend(blocks: seq<bytes>, b: bytes)
    ensures Size(blocks + [b]) == Size(blocks) + |b|
  {
    if blocks == [] {
      assert blocks + [b] == [b];
    } else {
      assert (blocks + [b])[1..] == blocks[1..] + [b];
      SizeAppend(blocks[1..], b);
    }
  }

  function Without<T>(s: seq<T>, lost: nat): seq<T> {
    if lost <= |s| then s[lost..] else []
  }

  // ----- the steps

  function NotifyOne(s: State): State {
    if s.sleeping > 0 then s.(sleeping := s.sleeping - 1, notified := s.notified + 1) else s
  }

  function NotifyAll(s: State): State {
    s.(sleeping := 0, notified := s.notified + s.sleeping)
  }

  /** Moves the blocks in memory to the file queue. */
  function FlushToFile(s: State, now: nat, lost: nat): State {
    NotifyAll(if s.mem == [] then s
              else s.(file := Without(s.file + s.mem, lost), mem := [], memBytes := 0, lastRead := now))
  }

  function FlushIfNeeded(s: State, now: nat, lost: nat): State {
    if s.mem == [] || s.disabled || now < s.lastRead + GRACE_SECONDS then s else FlushToFile(s, now, lost)
  }

  function WriteToFile(s: State, block: bytes, lost: nat): State {
    s.(file := Without(s.file + [block], lost))
  }

  /** `lost` and `lostOnWrite` are the blocks that the file queue loses in a flush and in the write. */
  function TryWrite(s: State, block: bytes, ignoreDisabled: bool, now: nat, lost: nat, lostOnWrite: nat)
    : (bool, State)
  {
    WriteAfterFlush(FlushIfNeeded(s, now, lost), block, !s.disabled || ignoreDisabled, now, lost, lostOnWrite)
  }

  function WriteAfterFlush(s: State, block: bytes, allowed: bool, now: nat, lost: nat, lostOnWrite: nat)
    : (bool, State)
  {
    if s.file != [] then
      if allowed then (true, WriteToFile(s, block, lostOnWrite)) else (false, s)
    else if |s.mem| == s.capacity then
      if allowed then (true, WriteToFile(FlushToFile(s, now, lost), block, lostOnWrite)) else (false, s)
    else
      (true, NotifyOne(s.(mem := s.mem + [block], memBytes := s.memBytes + |block|)))
  }

  datatype ReadResult = Got(block: bytes) | Stopped | Waits

  /** The oldest block in memory. */
  function TakeInMemory(s: State, now: nat): (r: (bytes, State))
    requires s.mem != [] && s.memBytes == Size(s.mem)
  {
    (s.mem[0], s.(mem := s.mem[1..], memBytes := s.memBytes - |s.mem[0]|, lastRead := now))
  }

  /** A reader from the moment it has the mutex until it returns or waits. */
  function Read(s: State, now: nat, lost: nat): (r: (ReadResult, State))
    requires s.memBytes == Size(s.mem)
  {
    var file := Without(s.file, lost);
    if s.stopDeadline > 0 && now > s.stopDeadline then (Stopped, s)
    else if s.mem != [] then var (block, t) := TakeInMemory(s, now); (Got(block), t)
    else if file != [] then (Got(file[0]), s.(file := file[1..]))
    else if s.stopDeadline > 0 then (Stopped, s.(file := []))
    else (Waits, s.(file := [], sleeping := s.sleeping + 1))
  }

  function Unblock(s: State, now: nat): State {
    NotifyAll(s.(stopDeadline := now + GRACE_SECONDS))
  }

  datatype Event =
    | Write(block: bytes, ignoreDisabled: bool, now: nat, lost: nat, lostOnWrite: nat)
    | ReadStart(now: nat, lost: nat)
    | ReadResume(now: nat, lost: nat)
    | ReadInMemory(now: nat)
    | UnblockAll(now: nat)
    | SpuriousWake

  predicate Enabled(s: State, e: Event) {
    match e
    case ReadResume(_, _) => s.notified > 0
    case SpuriousWake => s.sleeping > 0
    case _ => true
  }

  /** The block read, if any, and the state after the step. */
  function Step(s: State, e: Event): (r: (Option<bytes>, State))
    requires Enabled(s, e) && s.memBytes == Size(s.mem)
  {
    match e
    case Write(block, ignore, now, lost, lostOnWrite) =>
      (None, TryWrite(s, block, ignore, now, lost, lostOnWrite).1)
    case ReadStart(now, lost) => ReadStep(s, now, lost)
    case ReadResume(now, lost) => ReadStep(s.(notified := s.notified - 1), now, lost)
    case ReadInMemory(now) =>
      if s.mem == [] then (None, s) else var (block, t) := TakeInMemory(s, now); (Some(block), t)
    case UnblockAll(now) => (None, Unblock(s, now))
    case SpuriousWake => (None, s.(sleeping := s.sleeping - 1, notified := s.notified + 1))
  }

  function ReadStep(s: State, now: nat, lost: nat): (Option<bytes>, State)
    requires s.memBytes == Size(s.mem)
  {
    var (r, t) := Read(s, now, lost);
    (if r.Got? then Some(r.block) else None, t)
  }

  // ----- a flush, block by block

  function FlushOne(s: State, now: nat, lost: nat): State
    requires s.mem != [] && s.memBytes == Size(s.mem)
  {
    s.(file := Without(s.file + [s.mem[0]], lost), mem := s.mem[1..],
       memBytes := s.memBytes - |s.mem[0]|, lastRead := now)
  }

  /** Blocks of `mem` have gone to `file`, in order, which has lost `lost` blocks since. */
  ghost predicate Moved(file: seq<bytes>, mem: seq<bytes>, lost: nat, file1: seq<bytes>, mem1: seq<bytes>) {
    var k := |mem| - |mem1|;
    && 0 <= k && mem1 == mem[k..] && (k == 0 ==> lost == 0)
    && lost <= |file| + k && file1 == (file + mem[..k])[lost..]
  }

  /** A flush of `s` that has got to `cur`, having lost `lost` blocks. */
  ghost predicate Flushing(s: State, now: nat, lost: nat, cur: State) {
    && Moved(s.file, s.mem, lost, cur.file, cur.mem)
    && cur.memBytes == Size(cur.mem) && cur.lastRead == (if |cur.mem| == |s.mem| then s.lastRead else now)
    && cur.capacity == s.capacity && cur.stopDeadline == s.stopDeadline && cur.disabled == s.disabled
    && cur.sleeping == s.sleeping && cur.notified == s.notified
  }

  lemma FlushingStart(s: State, now: nat)
    requires s.memBytes == Size(s.mem)
    ensures Flushing(s, now, 0, s)
  {
    assert s.file + s.mem[..0] == s.file;
  }

  lemma Appended(file: seq<bytes>, mem: seq<bytes>, k: nat, lost: nat)
    requires k < |mem| && lost <= |file| + k
    ensures (file + mem[..k])[lost..] + [mem[k]] == (file + mem[..k + 1])[lost..]
  {
    assert file + mem[..k + 1] == file + mem[..k] + [mem[k]];
  }

  /** Losses in several writes add up to one. */
  lemma MovedOne(file: seq<bytes>, mem: seq<bytes>, lost: nat, file1: seq<bytes>, mem1: seq<bytes>, more: nat)
    returns (all: nat)
    requires Moved(file, mem, lost, file1, mem1) && mem1 != []
    ensures Moved(file, mem, all, Without(file1 + [mem1[0]], more), mem1[1..])
    ensures lost == 0 && more == 0 ==> all == 0
  {
    var k := |mem| - |mem1|;
    Appended(file, mem, k, lost);
    var after := file + mem[..k + 1];
    all := if lost + more <= |after| then lost + more else |after|;
    assert Without(after[lost..], more) == after[all..];
  }

  lemma FlushingStep(s: State, now: nat, lost: nat, cur: State, more: nat) returns (all: nat)
    requires Flushing(s, now, lost, cur) && cur.mem != []
    ensures Flushing(s, now, all, FlushOne(cur, now, more))
    ensures lost == 0 && more == 0 ==> all == 0
  {
    all := MovedOne(s.file, s.mem, lost, cur.file, cur.mem, more);
  }

  lemma FlushingEnd(s: State, now: nat, lost: nat, cur: State)
    requires s.memBytes == Size(s.mem) && Flushing(s, now, lost, cur) && cur.mem == []
    ensures NotifyAll(cur) == FlushToFile(s, now, lost)
  {
    assert s.mem[..|s.mem|] == s.mem;
    assert s.file + [] == s.file;
  }

  /** At most one of the two flushes of a write moves anything, so one loss describes both. */
  lemma OneLoss(s: State, now: nat, first: nat, second: nat) returns (lost: nat)
    ensures FlushIfNeeded(s, now, lost) == FlushIfNeeded(s, now, first)
    ensures var s1 := FlushIfNeeded(s, now, first); FlushToFile(s1, now, lost) == FlushToFile(s1, now, second)
    ensures first == 0 && second == 0 ==> lost == 0
  {
    lost := if FlushIfNeeded(s, now, first).mem == [] then first else second;
  }

  lemma SameLoss(s: State, block: bytes, ignoreDisabled: bool, now: nat, first: nat, second: nat,
                 lost: nat, lostOnWrite: nat)
    requires FlushIfNeeded(s, now, lost) == FlushIfNeeded(s, now, first)
    requires var s1 := FlushIfNeeded(s, now, first); FlushToFile(s1, now, lost) == FlushToFile(s1, now, second)
    ensures TryWrite(s, block, ignoreDisabled, now, lost, lostOnWrite)
            == WriteAfterFlush(FlushIfNeeded(s, now, first), block, !s.disabled || ignoreDisabled, now,
                               second, lostOnWrite)
  {
  }

  // ----- every step keeps the invariant

  lemma FlushToFileKeeps(s: State, now: nat, lost: nat)
    requires s.Inv()
    ensures FlushToFile(s, now, lost).Inv() && FlushToFile(s, now, lost).sleeping == 0
    ensures FlushToFile(s, now, lost).mem == []
    ensures lost == 0 ==> FlushToFile(s, now, lost).Contents() == s.Contents()
  {
    assert s.file + [] == s.file;
    assert s.file + s.mem + [] == s.file + s.mem;
  }

  lemma FlushDone(s: State, now: nat, lost: nat, cur: State)
    requires s.Inv() && Flushing(s, now, lost, cur) && cur.mem == []
    ensures NotifyAll(cur) == FlushToFile(s, now, lost) && NotifyAll(cur).Inv()
  {
    FlushingEnd(s, now, lost, cur);
    FlushToFileKeeps(s, now, lost);
  }

  /** After a flush everything is in the file half, but for the oldest blocks that it lost. */
  lemma FlushedContents(s: State, now: nat, lost: nat) returns (all: nat)
    requires s.Inv()
    ensures FlushToFile(s, now, lost).file == Without(s.Contents(), all)
    ensures lost == 0 ==> all == 0
  {
    all := if s.mem == [] then 0 else lost;
    assert s.file + [] == s.file;
  }

  lemma FlushIfNeededKeeps(s: State, now: nat, lost: nat)
    requires s.Inv()
    ensures FlushIfNeeded(s, now, lost).Inv()
    ensures lost == 0 ==> FlushIfNeeded(s, now, lost).Contents() == s.Contents()
  {
    FlushToFileKeeps(s, now, lost);
  }

  lemma TryWriteKeeps(s: State, block: bytes, ignoreDisabled: bool, now: nat, lost: nat, lostOnWrite: nat)
    requires s.Inv()
    ensures TryWrite(s, block, ignoreDisabled, now, lost, lostOnWrite).1.Inv()
  {
    FlushIfNeededKeeps(s, now, lost);
    var s1 := FlushIfNeeded(s, now, lost);
    if s1.file == [] {
      if |s1.mem| == s1.capacity {
        FlushToFileKeeps(s1, now, lost);
      } else {
        SizeAppend(s1.mem, block);
      }
    }
  }

  lemma ReadKeeps(s: State, now: nat, lost: nat)
    requires s.Inv()
    ensures Read(s, now, lost).1.Inv()
  {
  }

  /** A reader that has been notified and now has the mutex is one of those the memory blocks are due to. */
  lemma ReadResumeKeeps(s: State, now: nat, lost: nat)
    requires s.Inv() && s.notified > 0
    ensures Read(s.(notified := s.notified - 1), now, lost).1.Inv()
  {
  }

  lemma StepKeeps(s: State, e: Event)
    requires s.Inv() && Enabled(s, e)
    ensures Step(s, e).1.Inv()
  {
    match e
    case Write(block, ignore, now, lost, lostOnWrite) => TryWriteKeeps(s, block, ignore, now, lost, lostOnWrite);
    case ReadStart(now, lost) => ReadKeeps(s, now, lost);
    case ReadResume(now, lost) => ReadResumeKeeps(s, now, lost);
    case ReadInMemory(now) =>
    case UnblockAll(now) =>
    case SpuriousWake =>
  }

  // ----- runs

  /** A run of enabled steps. */
  ghost predicate Runs(s: State, events: seq<Event>, t: State)
    requires s.Inv()
    decreases |events|
  {
    if events == [] then s == t
    else Enabled(s, events[0]) && (StepKeeps(s, events[0]); Runs(Step(s, events[0]).1, events[1..], t))
  }

  /** In every state that a run reaches no wakeup has been lost and at most one half is non-empty. */
  lemma {:induction false} RunKeeps(s: State, events: seq<Event>, t: State)
    requires s.Inv() && Runs(s, events, t)
    ensures t.Inv()
    ensures t.Contents() != [] && t.sleeping > 0 ==> t.notified > 0
    decreases |events|
  {
    if events != [] {
      StepKeeps(s, events[0]);
      RunKeeps(Step(s, events[0]).1, events[1..], t);
    }
  }

  // ----- one FIFO queue

  /** With persistence disabled nothing is flushed before the test, so losses make no difference to it. */
  lemma WriteAccepted(s: State, block: bytes, ignoreDisabled: bool, now: nat, lost: nat, lostOnWrite: nat)
    requires s.Inv()
    ensures TryWrite(s, block, ignoreDisabled, now, lost, lostOnWrite).0 <==> ignoreDisabled || !s.WriteBlocked()
  {
    assert s.disabled ==> FlushIfNeeded(s, now, lost) == s;
  }

  /**
   A write is refused exactly if the queue says that writing is blocked, whatever the file queue
   loses. If it loses nothing, the write appends its block to the whole queue.
   */
  lemma WriteAppends(s: State, block: bytes, ignoreDisabled: bool, now: nat, lost: nat, lostOnWrite: nat)
    requires s.Inv()
    ensures var (ok, t) := TryWrite(s, block, ignoreDisabled, now, lost, lostOnWrite);
            && (ok <==> ignoreDisabled || !s.WriteBlocked())
            && (lost == 0 && lostOnWrite == 0 ==> t.Contents() == s.Contents() + (if ok then [block] else []))
  {
    WriteAccepted(s, block, ignoreDisabled, now, lost, lostOnWrite);
    var k := WriteLosesOldest(s, block, ignoreDisabled, now, lost, lostOnWrite);
  }

  lemma WithoutThenAppend<T>(s: seq<T>, first: nat, more: seq<T>, second: nat) returns (all: nat)
    ensures Without(Without(s, first) + more, second) == Without(s + more, all)
    ensures first == 0 && second == 0 ==> all == 0
  {
    var n := if first <= |s| then first else |s|;
    all := n + second;
    assert Without(s, first) + more == (s + more)[n..];
  }

  lemma FlushIfNeededLoses(s: State, now: nat, lost: nat) returns (k: nat)
    requires s.Inv()
    ensures FlushIfNeeded(s, now, lost).Contents() == Without(s.Contents(), k)
    ensures lost == 0 ==> k == 0
  {
    var t := FlushIfNeeded(s, now, lost);
    if t == s {
      k := 0;
    } else {
      k := FlushedContents(s, now, lost);
      assert t.Contents() == t.file;
    }
  }

  /** Whatever a disk limit drops, it is the oldest blocks. */
  lemma WriteLosesOldest(s: State, block: bytes, ignoreDisabled: bool, now: nat, lost: nat, lostOnWrite: nat)
    returns (k: nat)
    requires s.Inv()
    ensures var (ok, t) := TryWrite(s, block, ignoreDisabled, now, lost, lostOnWrite);
            t.Contents() == Without(s.Contents() + (if ok then [block] else []), k)
    ensures lost == 0 && lostOnWrite == 0 ==> k == 0
  {
    var s1, allowed := FlushIfNeeded(s, now, lost), !s.disabled || ignoreDisabled;
    FlushIfNeededKeeps(s, now, lost);
    var first := FlushIfNeededLoses(s, now, lost);
    var second := WriteLosesFrom(s1, block, allowed, now, lost, lostOnWrite);
    var (ok, _) := WriteAfterFlush(s1, block, allowed, now, lost, lostOnWrite);
    k := WithoutThenAppend(s.Contents(), first, if ok then [block] else [], second);
  }

  lemma WriteLosesFrom(s: State, block: bytes, allowed: bool, now: nat, lost: nat, lostOnWrite: nat) returns (k: nat)
    requires s.Inv()
    ensures var (ok, t) := WriteAfterFlush(s, block, allowed, now, lost, lostOnWrite);
            t.Contents() == Without(s.Contents() + (if ok then [block] else []), k)
    ensures lost == 0 && lostOnWrite == 0 ==> k == 0
  {
    var (ok, t) := WriteAfterFlush(s, block, allowed, now, lost, lostOnWrite);
    if !ok {
      k := 0;
      assert s.Contents() + [] == s.Contents();
    } else if s.file != [] {
      k := lostOnWrite;
      assert s.Contents() == s.file && t.Contents() == t.file;
    } else if |s.mem| == s.capacity {
      var flushed := FlushedContents(s, now, lost);
      k := WithoutThenAppend(s.Contents(), flushed, [block], lostOnWrite);
      assert t.Contents() == t.file;
    } else {
      k := 0;
    }
  }

  /**
   A read takes the oldest block exactly if there is one and the deadline is not over. Otherwise it
   changes no contents: it stops if a stop was asked for, and waits if not.
   */
  lemma ReadTakesOldest(s: State, now: nat)
    requires (s.file == [] || s.mem == []) && s.memBytes == Size(s.mem)
    ensures var (r, t) := Read(s, now, 0);
            && (r.Got? <==> s.Contents() != [] && !(0 < s.stopDeadline < now))
            && (r.Got? ==> s.Contents() == [r.block] + t.Contents())
            && (!r.Got? ==> t.Contents() == s.Contents())
            && (r.Waits? <==> s.Contents() == [] && s.stopDeadline == 0)
            && (r.Stopped? <==> s.stopDeadline > 0 && (s.Contents() == [] || now > s.stopDeadline))
            && (r.Stopped? ==> t == s)
            && t.stopDeadline == s.stopDeadline
  {
    var (r, t) := Read(s, now, 0);
    if r.Got? {
      if s.mem != [] {
        assert s.file == [] && s.mem == [s.mem[0]] + s.mem[1..];
      } else {
        assert s.file == [s.file[0]] + s.file[1..];
      }
    }
  }

  predicate Lossless(e: Event) {
    match e
    case Write(_, _, _, lost, lostOnWrite) => lost == 0 && lostOnWrite == 0
    case ReadStart(_, lost) => lost == 0
    case ReadResume(_, lost) => lost == 0
    case _ => true
  }

  /** The block that a step accepts, if any. */
  function Accepts(s: State, e: Event): seq<bytes> {
    match e
    case Write(block, ignore, now, lost, lostOnWrite) =>
      if TryWrite(s, block, ignore, now, lost, lostOnWrite).0 then [block] else []
    case _ => []
  }

  function Emits(s: State, e: Event): seq<bytes>
    requires Enabled(s, e) && s.memBytes == Size(s.mem)
  {
    match Step(s, e).0 case None => [] case Some(block) => [block]
  }

  lemma StepIsFifo(s: State, e: Event)
    requires s.Inv() && Enabled(s, e) && Lossless(e)
    ensures s.Contents() + Accepts(s, e) == Emits(s, e) + Step(s, e).1.Contents()
  {
    match e
    case Write(block, ignore, now, _, _) => WriteIsFifo(s, block, ignore, now);
    case ReadStart(now, _) => ReadIsFifo(s, e);
    case ReadResume(now, _) => ReadIsFifo(s, e);
    case ReadInMemory(now) =>
      if s.mem != [] {
        assert s.file == [] && s.mem == [s.mem[0]] + s.mem[1..];
      }
    case UnblockAll(now) => NothingMoves(s.Contents());
    case SpuriousWake => NothingMoves(s.Contents());
  }

  lemma NothingMoves(blocks: seq<bytes>)
    ensures blocks + [] == [] + blocks
  {
  }

  lemma WriteIsFifo(s: State, block: bytes, ignore: bool, now: nat)
    requires s.Inv()
    ensures var e := Write(block, ignore, now, 0, 0);
            s.Contents() + Accepts(s, e) == Emits(s, e) + Step(s, e).1.Contents()
  {
    WriteAppends(s, block, ignore, now, 0, 0);
    var (ok, t) := TryWrite(s, block, ignore, now, 0, 0);
    assert [] + t.Contents() == t.Contents();
  }

  lemma ReadIsFifo(s: State, e: Event)
    requires s.Inv() && Enabled(s, e) && Lossless(e) && (e.ReadStart? || e.ReadResume?)
    ensures s.Contents() + Accepts(s, e) == Emits(s, e) + Step(s, e).1.Contents()
  {
    assert s.Contents() + [] == s.Contents();
    if e.ReadStart? {
      ReadTakesOldest(s, e.now);
      assert [] + s.Contents() == s.Contents();
    } else {
      ReadTakesOldestResumed(s, e.now);
    }
  }

  lemma ReadTakesOldestResumed(s: State, now: nat)
    requires s.Inv() && s.notified > 0
    ensures var (r, t) := Read(s.(notified := s.notified - 1), now, 0);
            s.Contents() == (if r.Got? then [r.block] else []) + t.Contents()
  {
    var u := s.(notified := s.notified - 1);
    ReadTakesOldest(u, now);
    var (r, t) := Read(u, now, 0);
    assert [] + t.Contents() == t.Contents();
  }

  ghost function Accepted(s: State, events: seq<Event>, t: State): seq<bytes>
    requires s.Inv() && Runs(s, events, t)
    decreases |events|
  {
    if events == [] then [] else
    StepKeeps(s, events[0]);
    Accepts(s, events[0]) + Accepted(Step(s, events[0]).1, events[1..], t)
  }

  ghost function Emitted(s: State, events: seq<Event>, t: State): seq<bytes>
    requires s.Inv() && Runs(s, events, t)
    decreases |events|
  {
    if events == [] then [] else
    StepKeeps(s, events[0]);
    Emits(s, events[0]) + Emitted(Step(s, events[0]).1, events[1..], t)
  }

  /** Over every interleaving, what was there and was accepted comes out once and in order, or is still there. */
  lemma {:induction false} RunIsFifo(s: State, events: seq<Event>, t: State)
    requires s.Inv() && Runs(s, events, t)
    requires forall i :: 0 <= i < |events| ==> Lossless(events[i])
    ensures s.Contents() + Accepted(s, events, t) == Emitted(s, events, t) + t.Contents()
    decreases |events|
  {
    if events == [] {
      assert s.Contents() + [] == [] + s.Contents();
    } else {
      StepKeeps(s, events[0]);
      StepIsFifo(s, events[0]);
      var u := Step(s, events[0]).1;
      RunIsFifo(u, events[1..], t);
      Interchange(s.Contents(), Accepts(s, events[0]), Emits(s, events[0]), u.Contents(),
                  Accepted(u, events[1..], t), Emitted(u, events[1..], t), t.Contents());
    }
  }

  lemma Interchange<T>(a: seq<T>, p: seq<T>, q: seq<T>, b: seq<T>, r: seq<T>, s: seq<T>, c: seq<T>)
    requires a + p == q + b && b + r == s + c
    ensures a + (p + r) == q + s + c
  {
    assert a + (p + r) == a + p + r;
    assert q + b + r == q + (b + r);
    assert q + (s + c) == q + s + c;
  }

  // ----- when blocks move, and when readers stop

  /** Only a read from memory puts off the next flush. */
  lemma ReadFromMemory(s: State, now: nat)
    requires s.Inv()
    ensures var (r, t) := Read(s, now, 0);
            && (r.Got? && s.mem != [] ==> t.mem == s.mem[1..] && t.file == s.file && t.lastRead == now)
            && (r.Got? && s.mem == [] ==> t.file == s.file[1..] && t.mem == [] && t.lastRead == s.lastRead)
            && (!r.Got? ==> t.file == s.file && t.mem == s.mem && t.lastRead == s.lastRead)
  {
  }

  /**
   Where a write puts its block and what it does to the others. With persistence enabled, blocks
   that nobody has read from memory for 5 seconds go to the file queue, and so do all if memory is
   full; until then blocks stay in memory unless older ones are in the file queue.
   */
  lemma WriteGoes(s: State, block: bytes, ignoreDisabled: bool, now: nat)
    requires s.Inv()
    ensures var (ok, t) := TryWrite(s, block, ignoreDisabled, now, 0, 0);
            var stale := s.mem != [] && !s.disabled && now >= s.lastRead + 5;
            var full := s.file != [] || |s.mem| == s.capacity;
            && (stale || (full && (ignoreDisabled || !s.disabled)) ==>
                  && ok && t.mem == [] && t.file == s.file + s.mem + [block]
                  && t.lastRead == if s.mem == [] then s.lastRead else now)
            && (!stale && full && s.disabled && !ignoreDisabled ==> !ok && t == s)
            && (!stale && !full ==>
                  ok && t.file == [] && t.mem == s.mem + [block] && t.lastRead == s.lastRead)
  {
    assert s.file + [] == s.file;
    var s1 := FlushIfNeeded(s, now, 0);
    if s1.file == [] && |s1.mem| == s1.capacity {
      assert s1.file + s1.mem == s1.mem;
    }
  }

  ghost predicate NoUnblock(events: seq<Event>) {
    forall i :: 0 <= i < |events| ==> !events[i].UnblockAll?
  }

  lemma {:induction false} DeadlineStays(s: State, events: seq<Event>, t: State)
    requires s.Inv() && Runs(s, events, t) && NoUnblock(events)
    ensures t.stopDeadline == s.stopDeadline && t.Inv()
    decreases |events|
  {
    if events != [] {
      StepKeeps(s, events[0]);
      assert !events[0].UnblockAll?;
      forall i | 0 <= i < |events[1..]|
        ensures !events[1..][i].UnblockAll?
      {
        assert events[1..][i] == events[i + 1];
      }
      DeadlineStays(Step(s, events[0]).1, events[1..], t);
    }
  }

  /**
   Once readers have been unblocked, whatever happens, every read more than 5 seconds later stops and
   takes nothing.
   */
  lemma ReadersStop(s: State, unblocked: nat, events: seq<Event>, t: State, resumed: bool, now: nat, lost: nat)
    requires s.Inv() && Runs(Unblock(s, unblocked), events, t) && NoUnblock(events)
    requires now > unblocked + 5 && (resumed ==> t.notified > 0)
    ensures t.Inv()
    ensures var u := if resumed then t.(notified := t.notified - 1) else t; Read(u, now, lost) == (Stopped, u)
  {
    StepKeeps(s, UnblockAll(unblocked));
    DeadlineStays(Unblock(s, unblocked), events, t);
  }
}
