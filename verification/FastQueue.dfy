/** The memory queue in front of the persistent queue, as the object the source makes it. */
module FastQueue {
  import opened Bytes
  import opened QueueRuns
  import opened PersistentQueue
  import Layouts = QueueLayout
  import Files = QueueModel
  import Machine = FastQueueModel

  /** A write leaves a suffix of the blocks and the new one; a refused block goes with all the others. */
  lemma LostInWrite(s: Files.State, block: bytes, accepted: bool, t: Files.State) returns (lost: nat)
    requires s.Sane() && s.Contents().Some? && t.Sane() && t.Contents().Some?
    requires Files.WriteMeans(s, block, accepted, t)
    ensures Blocks(t.Contents().value) == Machine.Without(Blocks(s.Contents().value) + [block], lost)
    ensures s.maxPending == 0 ==> lost == 0
  {
    var file, kept := Blocks(s.Contents().value), Files.Kept(s, block);
    lost := if accepted then |file| - |kept| else |file| + 1;
  }

  lemma FoundBehind(s: Files.State, block: bytes, t: Files.State)
    requires s.Sane() && 1 <= |block| <= s.maxBlock && Files.BlockWritten(s, block, t)
    ensures forall path, local ::
              Files.Continues(s.View(), t.View(), path, local, Layouts.Entry(block, t.writerOffset))
  {
    forall path, local
      ensures Files.Continues(s.View(), t.View(), path, local, Layouts.Entry(block, t.writerOffset))
    {
      Files.AppendedFrom(s, block, t, path, local);
    }
  }

  class FastQueue {
    const disabled: bool
    const capacity: nat
    const pq: Queue
    var ch: seq<bytes>
    var pendingInmemoryBytes: nat
    var lastInmemoryBlockReadTime: nat
    var stopDeadline: nat
    /** The readers waiting on the condition variable, not yet notified and notified. */
    var sleeping: nat
    var notified: nat

    /** The blocks the file queue holds, if it is intact. */
    ghost function File(): seq<bytes>
      requires pq.Valid() && pq.Snapshot().Contents().Some?
      reads pq
    {
      Blocks(pq.Snapshot().Contents().value)
    }

    ghost function View(): Machine.State
      requires pq.Valid() && pq.Snapshot().Contents().Some?
      reads this, pq
    {
      Machine.State(File(), ch, capacity, pendingInmemoryBytes,
                    lastInmemoryBlockReadTime, stopDeadline, disabled, sleeping, notified)
    }

    /** The file queue is intact and can take the blocks in memory. */
    ghost predicate Sound()
      reads this, pq
    {
      && pq.Valid() && pq.Snapshot().Contents().Some?
      && pendingInmemoryBytes == Machine.Size(ch)
      && forall i :: 0 <= i < |ch| ==> 1 <= |ch[i]| <= pq.maxBlock
    }

    ghost predicate Valid()
      reads this, pq
    {
      Sound() && View().Inv()
    }

    constructor (pq: Queue, capacity: nat, disabled: bool, now: nat)
      requires pq.Valid() && pq.Snapshot().Contents().Some?
      ensures Valid() && this.pq == pq && ch == [] && stopDeadline == 0 && sleeping == 0
      ensures View().Contents() == Blocks(pq.Snapshot().Contents().value)
    {
      this.pq, this.capacity, this.disabled := pq, capacity, disabled;
      ch, pendingInmemoryBytes, lastInmemoryBlockReadTime, stopDeadline := [], 0, now, 0;
      sleeping, notified := 0, 0;
      new;
      assert View().Contents() == View().file;
    }

    method NotifyAll()
      requires pq.Valid() && pq.Snapshot().Contents().Some?
      modifies this`sleeping, this`notified
      ensures View() == Machine.NotifyAll(old(View()))
    {
      sleeping, notified := 0, notified + sleeping;
    }

    /** Where in its chunk the file queue's writer is once it has written the blocks from `local` on. */
    function LocalAfter(blocks: seq<bytes>, local: nat): nat {
      Files.LocalAfterAll(pq.chunkSize, pq.maxBlock, pq.maxPending, local, blocks)
    }

    /** Writes to the file queue, which may have to drop its oldest blocks. */
    method WriteToFile(block: bytes, due: bool) returns (ghost lost: nat)
      requires pq.Valid() && pq.Snapshot().Contents().Some? && 1 <= |block| <= pq.maxBlock
      modifies pq
      ensures pq.Valid() && pq.Snapshot().Contents().Some?
      ensures File() == Machine.Without(old(File()) + [block], lost)
      ensures pq.maxPending == 0 ==> lost == 0
      ensures pq.writerLocal
              == Files.LocalAfter(pq.chunkSize, pq.maxBlock, pq.maxPending, old(pq.writerLocal), block)
    {
      ghost var s := pq.Snapshot();
      var outcome := pq.MustWriteBlock(block, due);
      lost := LostInWrite(s, block, outcome == Files.Accepted, pq.Snapshot());
    }

    method FlushOne(now: nat, due: bool) returns (ghost lost: nat)
      requires Sound() && ch != []
      modifies this, pq
      ensures Sound() && View() == Machine.FlushOne(old(View()), now, lost)
      ensures pq.maxPending == 0 ==> lost == 0
      ensures LocalAfter(ch, pq.writerLocal) == LocalAfter(old(ch), old(pq.writerLocal))
    {
      var block := ch[0];
      ghost var file := File();
      ch := ch[1..];
      assert File() == file;
      lost := WriteToFile(block, due);
      pendingInmemoryBytes := pendingInmemoryBytes - |block|;
      lastInmemoryBlockReadTime := now;
    }

    method FlushLoop(now: nat, due: bool) returns (ghost lost: nat)
      requires Sound()
      modifies this, pq
      ensures Sound() && ch == [] && Machine.Flushing(old(View()), now, lost, View())
      ensures pq.maxPending == 0 ==> lost == 0
      ensures pq.writerLocal == LocalAfter(old(ch), old(pq.writerLocal))
    {
      ghost var s := View();
      lost := 0;
      Machine.FlushingStart(s, now);
      while ch != []
        invariant Sound() && Machine.Flushing(s, now, lost, View())
        invariant pq.maxPending == 0 ==> lost == 0
        invariant LocalAfter(ch, pq.writerLocal) == LocalAfter(old(ch), old(pq.writerLocal))
        decreases |ch|
      {
        ghost var cur := View();
        ghost var more := FlushOne(now, due);
        lost := Machine.FlushingStep(s, now, lost, cur, more);
      }
    }

    /** Moves all the blocks in memory to the file queue, in order, and wakes all the readers. */
    method FlushInmemoryBlocksToFile(now: nat, due: bool) returns (ghost lost: nat)
      requires Valid()
      modifies this, pq
      ensures Valid() && View() == Machine.FlushToFile(old(View()), now, lost)
      ensures pq.maxPending == 0 ==> lost == 0
      ensures pq.writerLocal == LocalAfter(old(ch), old(pq.writerLocal))
    {
      ghost var s := View();
      lost := FlushLoop(now, due);
      Machine.FlushDone(s, now, lost, View());
      NotifyAll();
    }

    method FlushIfNeeded(now: nat, due: bool) returns (ghost lost: nat)
      requires Valid()
      modifies this, pq
      ensures Valid() && View() == Machine.FlushIfNeeded(old(View()), now, lost)
      ensures pq.maxPending == 0 ==> lost == 0
    {
      lost := 0;
      if ch == [] || disabled {
        return;
      }
      if now < lastInmemoryBlockReadTime + Machine.GRACE_SECONDS {
        return;
      }
      lost := FlushInmemoryBlocksToFile(now, due);
    }

    /** Is anything pending in the file queue? The source asks for its pending bytes. */
    method FilePending() returns (pending: bool)
      requires Sound()
      ensures pending <==> File() != []
    {
      Files.EmptyMeansNothingPending(pq.Snapshot());
      pending := pq.writerOffset - pq.readerOffset > 0;
    }

    /** Tells whether `TryWriteBlock` would refuse a block. */
    method IsWriteBlocked() returns (blocked: bool)
      requires Valid()
      ensures blocked <==> View().WriteBlocked()
    {
      if !disabled {
        return false;
      }
      var pending := FilePending();
      blocked := |ch| == capacity || pending;
    }

    method PushInmemory(block: bytes)
      requires Valid() && 1 <= |block| <= pq.maxBlock && |ch| < capacity && File() == []
      modifies this
      ensures Sound()
      ensures View() == Machine.NotifyOne(old(View()).(mem := old(ch) + [block],
                                                      memBytes := old(pendingInmemoryBytes) + |block|))
    {
      Machine.SizeAppend(ch, block);
      ch := ch + [block];
      pendingInmemoryBytes := pendingInmemoryBytes + |block|;
      if sleeping > 0 {
        sleeping, notified := sleeping - 1, notified + 1;
      }
    }

    /** Writes to the file queue while a flush has just emptied the memory queue. */
    method WriteBehindFlush(block: bytes, due: bool) returns (ghost lost: nat)
      requires Valid() && 1 <= |block| <= pq.maxBlock && ch == []
      modifies pq
      ensures Sound() && View() == Machine.WriteToFile(old(View()), block, lost)
      ensures pq.maxPending == 0 ==> lost == 0
    {
      lost := WriteToFile(block, due);
    }

    /** With the memory queue full, its blocks and the new one go to the file queue. */
    method WriteWhenFull(block: bytes, now: nat, due: bool) returns (ghost lost: nat, ghost lostOnWrite: nat)
      requires Valid() && 1 <= |block| <= pq.maxBlock
      modifies this, pq
      ensures Sound()
      ensures View() == Machine.WriteToFile(Machine.FlushToFile(old(View()), now, lost), block, lostOnWrite)
      ensures pq.maxPending == 0 ==> lost == lostOnWrite == 0
    {
      lost := FlushInmemoryBlocksToFile(now, due);
      lostOnWrite := WriteBehindFlush(block, due);
    }

    /** The panics of the source for blocks in both halves are unreachable: `Valid` excludes that. */
    method WriteAfterFlush(block: bytes, allowed: bool, now: nat, due: bool)
      returns (ok: bool, ghost lost: nat, ghost lostOnWrite: nat)
      requires Valid() && 1 <= |block| <= pq.maxBlock
      modifies this, pq
      ensures Sound()
      ensures (ok, View()) == Machine.WriteAfterFlush(old(View()), block, allowed, now, lost, lostOnWrite)
      ensures pq.maxPending == 0 ==> lost == lostOnWrite == 0
    {
      lost, lostOnWrite := 0, 0;
      var pending := FilePending();
      if !allowed && (pending || |ch| == capacity) {
        return false, 0, 0;
      }
      if pending {
        lostOnWrite := WriteBehindFlush(block, due);
      } else if |ch| == capacity {
        lost, lostOnWrite := WriteWhenFull(block, now, due);
      } else {
        PushInmemory(block);
      }
      ok := true;
    }

    method TryWriteBlockInternal(block: bytes, ignoreDisabled: bool, now: nat, due: bool)
      returns (ok: bool, ghost lost: nat, ghost lostOnWrite: nat)
      requires Valid() && 1 <= |block| <= pq.maxBlock
      modifies this, pq
      ensures Valid()
      ensures (ok, View()) == Machine.TryWrite(old(View()), block, ignoreDisabled, now, lost, lostOnWrite)
      ensures pq.maxPending == 0 ==> lost == lostOnWrite == 0
    {
      ghost var s := View();
      ghost var first := FlushIfNeeded(now, due);
      ghost var second;
      ok, second, lostOnWrite := WriteAfterFlush(block, !disabled || ignoreDisabled, now, due);
      lost := Machine.OneLoss(s, now, first, second);
      Machine.SameLoss(s, block, ignoreDisabled, now, first, second, lost, lostOnWrite);
      Machine.TryWriteKeeps(s, block, ignoreDisabled, now, lost, lostOnWrite);
    }

    /**
     The block is refused exactly if writes are blocked. It is the new last one if it is taken, and
     only the oldest blocks can go to a disk limit.
     */
    method TryWriteBlock(block: bytes, now: nat, due: bool) returns (ok: bool, ghost dropped: nat)
      requires Valid() && 1 <= |block| <= pq.maxBlock
      modifies this, pq
      ensures Valid()
      ensures View().Contents() == Machine.Without(old(View().Contents()) + (if ok then [block] else []), dropped)
      ensures pq.maxPending == 0 ==> dropped == 0
      ensures ok <==> !old(View().WriteBlocked())
    {
      ghost var s := View();
      ghost var lost, lostOnWrite;
      ok, lost, lostOnWrite := TryWriteBlockInternal(block, false, now, due);
      Machine.WriteAppends(s, block, false, now, lost, lostOnWrite);
      dropped := Machine.WriteLosesOldest(s, block, false, now, lost, lostOnWrite);
    }

    method ReadInMemory(now: nat) returns (block: bytes)
      requires Sound() && ch != []
      modifies this
      ensures Sound() && (block, View()) == Machine.TakeInMemory(old(View()), now)
    {
      block := ch[0];
      ch := ch[1..];
      pendingInmemoryBytes := pendingInmemoryBytes - |block|;
      lastInmemoryBlockReadTime := now;
    }

    method ReadFile() returns (block: bytes)
      requires Sound() && File() != []
      modifies pq
      ensures Sound() && block == old(File())[0] && File() == old(File())[1..]
    {
      var got;
      ghost var file := File();
      got, block := ReadOne(pq, file);
    }

    method WaitForBlock()
      requires Sound()
      modifies this, pq
      ensures Sound() && View() == old(View()).(sleeping := old(sleeping) + 1)
    {
      pq.ResetIfEmpty();
      sleeping := sleeping + 1;
    }

    method ReadSection(now: nat) returns (r: Machine.ReadResult)
      requires Sound()
      modifies this, pq
      ensures Sound() && (r, View()) == Machine.Read(old(View()), now, 0)
    {
      assert Machine.Without(File(), 0) == File();
      if stopDeadline > 0 && now > stopDeadline {
        return Machine.Stopped;
      }
      if ch != [] {
        var block := ReadInMemory(now);
        return Machine.Got(block);
      }
      var pending := FilePending();
      if pending {
        var block := ReadFile();
        return Machine.Got(block);
      }
      if stopDeadline > 0 {
        return Machine.Stopped;
      }
      WaitForBlock();
      r := Machine.Waits;
    }

    /** One reader, from the moment it has the mutex until it returns or waits for a notification. */
    method MustReadBlock(resumed: bool, now: nat) returns (r: Machine.ReadResult)
      requires Valid() && (resumed ==> notified > 0)
      modifies this, pq
      ensures Valid()
      ensures (r, View())
              == Machine.Read(if resumed then old(View()).(notified := old(notified) - 1) else old(View()), now, 0)
    {
      ghost var s := View();
      if resumed {
        notified := notified - 1;
        Machine.ReadResumeKeeps(s, now, 0);
      } else {
        Machine.ReadKeeps(s, now, 0);
      }
      r := ReadSection(now);
    }

    /** The file queue has pending bytes that do not decode; then nothing is in memory and no reader sleeps. */
    ghost predicate Damaged()
      reads this, pq
    {
      && pq.Valid() && pq.Snapshot().Contents().None?
      && ch == [] && pendingInmemoryBytes == 0 && sleeping == 0
    }

    lemma IntactOrDamaged()
      requires pq.Valid() && ch == [] && pendingInmemoryBytes == 0 && sleeping == 0
      ensures if pq.Snapshot().Contents().Some? then Valid() && View().Contents() == File() else Damaged()
    {
    }

    /** A read of the damaged file queue: a block, an empty queue that is intact again, or a panic. */
    method ReadDamagedFile() returns (outcome: Files.ReadOutcome, block: bytes)
      requires Damaged()
      modifies pq
      ensures outcome.Fatal? <==> old(pq.Snapshot().Stuck())
      ensures !outcome.Fatal? ==> Files.ReadMeans(old(pq.Snapshot()), outcome, block, pq.Snapshot())
      ensures outcome.Block? ==> 1 <= |block| <= pq.maxBlock && (Valid() || Damaged())
      ensures outcome.Empty? ==> Valid() && View().Contents() == []
    {
      Files.DamagedIsPending(pq.Snapshot());
      var result;
      outcome, result, block := pq.ReadBlockNonblocking([]);
      if !outcome.Fatal? {
        IntactOrDamaged();
      }
    }

    /** A block is written to the damaged file queue, behind whatever can still be read of it from anywhere. */
    ghost predicate WrittenToDamaged(was: Files.State, block: bytes)
      requires was.View().Sized()
      reads pq
    {
      var now := pq.Snapshot();
      && Files.BlockWritten(was, block, now)
      && forall path, local ::
           Files.Continues(was.View(), now.View(), path, local, Layouts.Entry(block, pq.writerOffset))
    }

    /**
     A write while the file queue is damaged: the branches of `TryWriteBlockInternal` that are taken
     then. It goes to the file queue unless that is not allowed. `None` is a panic, which only
     dropping blocks for a disk limit can come to.
     */
    method TryWriteDamaged(block: bytes, ignoreDisabled: bool, due: bool) returns (r: Option<bool>)
      requires Damaged() && 1 <= |block| <= pq.maxBlock
      modifies pq
      ensures r == Some(false) <==> disabled && !ignoreDisabled
      ensures r == Some(false) ==> unchanged(pq)
      ensures r.Some? ==> Valid() || Damaged()
      ensures pq.maxPending == 0 && r != Some(false) ==>
                r == Some(true) && WrittenToDamaged(old(pq.Snapshot()), block)
    {
      ghost var s := pq.Snapshot();
      Files.DamagedIsPending(s);
      if disabled && !ignoreDisabled {
        return Some(false);
      }
      var outcome := pq.MustWriteBlock(block, due);
      if outcome == Files.Panicked {
        return None;
      }
      if pq.maxPending == 0 {
        FoundBehind(s, block, pq.Snapshot());
      }
      r := Some(true);
    }

    /** The stop deadline is over. */
    predicate Overdue(now: nat)
      reads this
    {
      stopDeadline > 0 && now > stopDeadline
    }

    /**
     What a reader of a damaged file queue `was` gets before the deadline: a block, as the file
     queue reads it, or the queue is empty and intact again.
     */
    ghost predicate Recovered(was: Files.State, r: Machine.ReadResult)
      requires was.View().Sized()
      reads this, pq
    {
      match r
      case Got(block) => Files.ReadMeans(was, Files.Block, block, pq.Snapshot()) && (Valid() || Damaged())
      case Stopped => Valid() && View().Contents() == [] && stopDeadline > 0
      case Waits => Valid() && View().Contents() == [] && stopDeadline == 0 && sleeping == 1
    }

    method ReadDamagedSection() returns (r: Option<Machine.ReadResult>)
      requires Damaged()
      modifies this, pq
      ensures r.None? <==> old(pq.Snapshot().Stuck())
      ensures r.Some? ==> Recovered(old(pq.Snapshot()), r.value)
    {
      var outcome, block := ReadDamagedFile();
      if outcome.Fatal? {
        return None;
      }
      if outcome.Block? {
        return Some(Machine.Got(block));
      }
      if stopDeadline > 0 {
        return Some(Machine.Stopped);
      }
      ghost var s := View();
      WaitForBlock();
      assert View().Contents() == s.Contents();
      r := Some(Machine.Waits);
    }

    /**
     A reader while the file queue is damaged: the branches of `MustReadBlock` that are taken then.
     It skips what cannot be read and goes on with whatever is left; `None` is a panic.
     */
    method MustReadDamaged(resumed: bool, now: nat) returns (r: Option<Machine.ReadResult>)
      requires Damaged() && (resumed ==> notified > 0)
      modifies this, pq
      ensures r.None? <==> !old(Overdue(now)) && old(pq.Snapshot().Stuck())
      ensures old(Overdue(now)) ==> r == Some(Machine.Stopped) && Damaged()
      ensures !old(Overdue(now)) && r.Some? ==> Recovered(old(pq.Snapshot()), r.value)
    {
      if resumed {
        notified := notified - 1;
      }
      if Overdue(now) {
        return Some(Machine.Stopped);
      }
      r := ReadDamagedSection();
    }

    /** Asks the readers to stop once the queue is empty, and after a grace period anyway. */
    method UnblockAllReaders(now: nat)
      requires Valid()
      modifies this
      ensures Valid() && View() == Machine.Unblock(old(View()), now)
    {
      stopDeadline := now + Machine.GRACE_SECONDS;
      NotifyAll();
    }

    /** What is on disk is what both halves held, but for the oldest blocks that a disk limit drops. */
    method MustClose(now: nat, due: bool)
      returns (files: map<nat, bytes>, ghost closed: Files.State, ghost lost: nat)
      requires Valid()
      modifies this, pq
      ensures ch == []
      ensures closed.Sane() && Files.SameSizes(old(pq.Snapshot()), closed) && closed.Contents().Some?
      ensures Blocks(closed.Contents().value) == Machine.Without(old(View().Contents()), lost)
      ensures pq.maxPending == 0 ==> lost == 0
      ensures files == closed.View().chunks && pq.metainfo == Files.Metainfo(closed.readerOffset, closed.writerOffset)
      ensures closed.writerLocal == LocalAfter(old(ch), old(pq.writerLocal))
    {
      UnblockAllReaders(now);
      ghost var s := View();
      lost := FlushInmemoryBlocksToFile(now, due);
      lost := Machine.FlushedContents(s, now, lost);
      closed := pq.Snapshot();
      files := pq.Close();
    }
  }
}
