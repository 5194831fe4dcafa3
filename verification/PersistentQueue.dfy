/** The persistent queue as the object the source makes it (`Queue` in crates/esl-agent/src/persistentqueue.rs). */
module PersistentQueue {
  import opened Bytes
  import opened QueueLayout
  import opened QueueModel
  import FileStream

  class Queue {
    const chunkSize: nat
    const maxBlock: nat
    const maxPending: nat
    const bufferSize: nat

    /** The chunk files other than the one being written. */
    var chunks: map<nat, bytes>
    var metainfo: Metainfo

    var reader: FileStream.Reader
    var readerPath: nat
    var readerOffset: nat
    var readerLocal: nat

    var writer: FileStream.Writer
    var writerPath: nat
    var writerOffset: nat
    var writerLocal: nat
    var writerFlushed: nat

    function Snapshot(): State
      reads this
    {
      State(chunkSize, maxBlock, maxPending, chunks, writer.disk, writer.buf,
            readerPath, readerOffset, readerLocal,
            writerPath, writerOffset, writerLocal, writerFlushed)
    }

    /** The buffering devices agree with the state. */
    ghost predicate Devices()
      reads this
    {
      && |writer.buf| < bufferSize
      && reader.Valid(Snapshot().OnDisk(readerPath))
      && reader.Position() == readerLocal
    }

    /** The invariant of every operation, whatever bytes the chunk files hold. */
    ghost predicate Valid()
      reads this
    {
      Snapshot().Sane() && Devices()
    }

    /** A queue in the given state, whose chunk being written is wholly on disk. */
    constructor At(s: State, bufferSize: nat)
      requires s.Sane() && s.buf == [] && 0 < bufferSize
      ensures Valid() && Snapshot() == s && this.bufferSize == bufferSize
      ensures metainfo == Metainfo(s.readerOffset, s.writerOffset)
    {
      chunkSize, maxBlock, maxPending, this.bufferSize := s.chunkSize, s.maxBlock, s.maxPending, bufferSize;
      chunks := s.chunks;
      metainfo := Metainfo(s.readerOffset, s.writerOffset);
      reader := FileStream.Reader(s.readerLocal, [], 0);
      readerPath, readerOffset, readerLocal := s.readerPath, s.readerOffset, s.readerLocal;
      writer := FileStream.Writer(s.disk, []);
      writerPath, writerOffset := s.writerPath, s.writerOffset;
      writerLocal, writerFlushed := s.writerLocal, s.writerFlushed;
    }

    // ----- reading

    /** Flushes the writer if the read would go beyond what has been flushed. */
    method FlushBefore(n: nat)
      requires Valid()
      modifies this`writer, this`writerFlushed
      ensures Snapshot() == FlushFor(old(Snapshot()), n) && Devices()
    {
      ghost var s := Snapshot();
      if readerOffset + n > writerFlushed {
        FlushMeans(s);
        FileStream.ValidOnceGrown(reader, s.OnDisk(readerPath), Flush(s).OnDisk(readerPath));
        writer := FileStream.FlushBuf(writer);
        writerFlushed := writerOffset;
      }
    }

    method ReadFlushed(n: nat) returns (ok: bool, data: bytes)
      requires Devices() && bufferSize > 0
      modifies this`reader, this`readerLocal, this`readerOffset
      ensures (ok, data, Snapshot()) == ReadOnDisk(old(Snapshot()), n)
      ensures ok ==> Devices()
    {
      ok, data, reader := FileStream.ReadExact(bufferSize, reader, Snapshot().OnDisk(readerPath), n);
      if !ok {
        return false, [];
      }
      readerLocal := readerLocal + n;
      readerOffset := readerOffset + n;
      if readerOffset > writerOffset {
        return false, [];
      }
    }

    method ReadFullSlice(n: nat) returns (ok: bool, data: bytes)
      requires Valid()
      modifies this
      ensures (ok, data, Snapshot()) == ReadBytes(old(Snapshot()), n)
      ensures ok ==> Devices()
      ensures |writer.buf| < bufferSize
    {
      FlushBefore(n);
      ok, data := ReadFlushed(n);
    }

    /** Reads `n` bytes within the chunk; fails exactly if the chunk's bytes end first. */
    method ReadFull(n: nat) returns (ok: bool, data: bytes)
      requires Valid() && readerLocal + n <= chunkSize
      modifies this
      ensures ReadInChunk(old(Snapshot()), n, ok, data, Snapshot())
      ensures ok ==> Valid()
      ensures |writer.buf| < bufferSize
    {
      ReadInChunkMeans(Snapshot(), n);
      ok, data := ReadFullSlice(n);
    }

    /** One attempt at the block at the reading position: it succeeds exactly if there is one. */
    method TryBlock() returns (ok: bool, block: bytes)
      requires Valid() && !Snapshot().Padding(readerLocal)
      modifies this
      ensures TriedBlock(old(Snapshot()), ok, block, Snapshot())
      ensures ok ==> Valid()
      ensures |writer.buf| < bufferSize
    {
      ghost var s := Snapshot();
      var header;
      ok, header := ReadFull(HEADER);
      ghost var t := Snapshot();
      if !ok {
        NoHeader(s, t);
        return false, [];
      }
      var n := FromBigEndian(header);
      if n == 0 || n > maxBlock {
        BadHeader(s, header, t);
        return false, [];
      }
      ok, block := ReadFull(n);
      BlockTried(s, header, t, ok, block, Snapshot());
    }

    method FlushMetainfo()
      modifies this`metainfo
      ensures metainfo == Metainfo(readerOffset, writerOffset)
    {
      metainfo := Metainfo(readerOffset, writerOffset);
    }

    /** Fails, which the callers turn into a panic, if the next chunk is beyond the writer or missing. */
    method NextChunkForRead() returns (ok: bool)
      requires 0 < chunkSize && |writer.buf| < bufferSize
      modifies this`chunks, this`metainfo, this`reader, this`readerPath, this`readerOffset, this`readerLocal
      ensures ok <==> NextToRead(old(Snapshot())).Some?
      ensures ok ==> Snapshot() == NextToRead(old(Snapshot())).value && Devices()
    {
      chunks := chunks - {readerPath};
      var n := readerOffset % chunkSize;
      if n > 0 {
        readerOffset := readerOffset + chunkSize - n;
      }
      if readerOffset > writerOffset || !(readerOffset == writerPath || readerOffset in chunks) {
        return false;
      }
      OpenForRead();
      ok := true;
    }

    /** Starts reading the chunk at the reader's offset. */
    method OpenForRead()
      requires |writer.buf| < bufferSize
      modifies this`metainfo, this`reader, this`readerPath, this`readerLocal
      ensures Snapshot() == old(Snapshot()).(readerPath := readerOffset, readerLocal := 0) && Devices()
    {
      readerLocal := 0;
      readerPath := readerOffset;
      reader := FileStream.Reader(0, [], 0);
      metainfo := Metainfo(readerOffset, writerOffset);
      FileStream.FreshIsValid(Snapshot().OnDisk(readerPath));
    }

    /** Removes the only chunk and starts again at offset zero. */
    method ResetFiles()
      requires 0 < bufferSize && readerPath == writerPath
      modifies this
      ensures Snapshot() == Reset(old(Snapshot())) && Devices()
    {
      ResetWriter();
      readerOffset, readerLocal := 0, 0;
      readerPath := writerPath;
      reader := FileStream.Reader(0, [], 0);
      metainfo := Metainfo(readerOffset, writerOffset);
    }

    method ResetWriter()
      requires 0 < bufferSize
      modifies this`chunks, this`writer, this`writerPath, this`writerOffset, this`writerLocal, this`writerFlushed
      ensures Snapshot() == WriterReset(old(Snapshot())) && |writer.buf| < bufferSize
    {
      chunks := chunks - {readerPath};
      writerOffset, writerLocal, writerFlushed := 0, 0, 0;
      writerPath := writerOffset;
      chunks := chunks - {writerPath};
      writer := FileStream.Writer([], []);
    }

    method SkipBroken() returns (outcome: ReadOutcome)
      requires Broken(Snapshot()) && |writer.buf| < bufferSize
      modifies this
      ensures SkippedTo(old(Snapshot()), outcome, Snapshot()) && Valid()
    {
      ghost var s := Snapshot();
      readerOffset := readerOffset + chunkSize - readerOffset % chunkSize;
      SkipBrokenMeans(s, Snapshot());
      if readerOffset >= writerOffset {
        ResetFiles();
        return Empty;
      }
      var ok := NextChunkForRead();
      outcome := if ok then Block else Fatal;
    }

    /** One turn of the reading loop: a block, the end of the queue, or a broken chunk is behind. */
    method ReadTurn(ghost s: State) returns (done: bool, outcome: ReadOutcome, block: bytes)
      requires Valid() && s.View().Sized() && Skipping(s, Snapshot())
      modifies this
      ensures Valid() && outcome != Fatal
      ensures done ==> ReadMeans(s, outcome, block, Snapshot())
      ensures !done ==> && Skipping(s, Snapshot())
                        && writerOffset == old(writerOffset) && old(readerOffset) < readerOffset
    {
      ghost var cur := Snapshot();
      done, block := TryBlock();
      if done {
        BlockFound(s, cur, block, Snapshot());
        return true, Block, block;
      }
      ghost var broken := Snapshot();
      outcome := SkipBroken();
      ChunkSkipped(s, cur, broken, outcome, Snapshot());
      done, block := outcome == Empty, [];
    }

    method ReadLoop() returns (outcome: ReadOutcome, block: bytes)
      requires Valid() && !Snapshot().Padding(readerLocal) && readerOffset < writerOffset
      modifies this
      ensures Valid() && outcome != Fatal
      ensures ReadMeans(old(Snapshot()), outcome, block, Snapshot())
    {
      ghost var s := Snapshot();
      while true
        invariant Valid() && Skipping(s, Snapshot())
        decreases writerOffset - readerOffset
      {
        var done;
        done, outcome, block := ReadTurn(s);
        if done {
          return;
        }
      }
    }

    method LeavePadding() returns (ok: bool)
      requires Valid() && readerOffset < writerOffset
      modifies this
      ensures ok <==> !old(Snapshot().Stuck())
      ensures ok ==> LeftPadding(old(Snapshot()), Snapshot()) && Valid()
    {
      ok := true;
      if readerLocal + maxBlock + HEADER > chunkSize {
        LeavingPadding(Snapshot());
        ok := NextChunkForRead();
      }
    }

    /**
     Reads the oldest block of a non-empty queue, skipping broken chunks. The bytes already in
     `dst` stay in front. It panics exactly if the reader is stuck, which no intact queue is.
     */
    method ReadBlock(dst: bytes) returns (outcome: ReadOutcome, result: bytes, block: bytes)
      requires Valid() && readerOffset < writerOffset
      modifies this
      ensures outcome.Fatal? <==> old(Snapshot().Stuck())
      ensures result == dst + block
      ensures !outcome.Fatal? ==> Valid() && ReadMeans(old(Snapshot()), outcome, block, Snapshot())
      ensures old(Snapshot().Contents()).Some? ==> outcome == Block
    {
      ghost var s := Snapshot();
      var ok := LeavePadding();
      if !ok {
        return Fatal, dst, [];
      }
      ghost var s1 := Snapshot();
      outcome, block := ReadLoop();
      PaddingSkipped(s, s1, outcome, block, Snapshot());
      result := dst + block;
    }

    /** Appends the oldest block to `dst`, or returns false if the queue is empty. */
    method ReadBlockNonblocking(dst: bytes) returns (outcome: ReadOutcome, result: bytes, block: bytes)
      requires Valid()
      modifies this
      ensures outcome.Fatal? <==> old(readerOffset < writerOffset && Snapshot().Stuck())
      ensures result == dst + block
      ensures old(readerOffset == writerOffset) ==> outcome == Empty && block == [] && Snapshot() == old(Snapshot())
      ensures old(readerOffset < writerOffset) && !outcome.Fatal? ==>
                ReadMeans(old(Snapshot()), outcome, block, Snapshot())
      ensures !outcome.Fatal? ==> Valid()
    {
      if readerOffset == writerOffset {
        return Empty, dst, [];
      }
      outcome, result, block := ReadBlock(dst);
    }

    // ----- writing

    method Write(p: bytes)
      requires |writer.buf| < bufferSize
      modifies this`writer, this`writerLocal, this`writerOffset
      ensures Wrote(old(Snapshot()), p, Snapshot()) && |writer.buf| < bufferSize
    {
      writer := FileStream.WriteBuffered(bufferSize, writer, p);
      writerLocal := writerLocal + |p|;
      writerOffset := writerOffset + |p|;
    }

    method NextChunkForWrite()
      requires 0 < chunkSize && 0 < bufferSize
      modifies this`chunks, this`metainfo, this`writer, this`writerPath, this`writerOffset,
               this`writerLocal, this`writerFlushed
      ensures Snapshot() == Rollover(old(Snapshot())) && |writer.buf| < bufferSize
    {
      writer := FileStream.FlushBuf(writer);
      chunks := chunks[writerPath := writer.disk];
      var n := writerOffset % chunkSize;
      if n > 0 {
        writerOffset := writerOffset + chunkSize - n;
      }
      writerFlushed := writerOffset;
      writerLocal := 0;
      writerPath := writerOffset;
      chunks := chunks - {writerPath};
      writer := FileStream.Writer([], []);
      metainfo := Metainfo(readerOffset, writerOffset);
    }

    method AppendBlock(block: bytes)
      requires Valid() && |block| <= maxBlock
      modifies this`chunks, this`metainfo, this`writer, this`writerPath, this`writerOffset,
               this`writerLocal, this`writerFlushed
      ensures Valid() && BlockWritten(old(Snapshot()), block, Snapshot())
    {
      ghost var s := Snapshot();
      if writerLocal + maxBlock + HEADER > chunkSize {
        NextChunkForWrite();
      }
      WriteFrame(block);
      BlockAppended(s, block, Snapshot());
      FileStream.ValidOnceGrown(reader, s.OnDisk(readerPath), Snapshot().OnDisk(readerPath));
    }

    /** `due` is whether the clock has moved to another second since metainfo was last flushed. */
    method WriteBlock(block: bytes, due: bool)
      requires Valid() && |block| <= maxBlock
      modifies this
      ensures Valid() && BlockWritten(old(Snapshot()), block, Snapshot())
      ensures due ==> writer.buf == [] && metainfo == Metainfo(readerOffset, writerOffset)
    {
      ghost var s := Snapshot();
      AppendBlock(block);
      if due {
        FlushAfter(s, block);
      }
    }

    method FlushAfter(ghost s: State, ghost block: bytes)
      requires Valid() && s.Sane() && BlockWritten(s, block, Snapshot())
      modifies this`writer, this`metainfo
      ensures Valid() && BlockWritten(s, block, Snapshot())
      ensures writer.buf == [] && metainfo == Metainfo(readerOffset, writerOffset)
    {
      ghost var t := Snapshot();
      FlushWriter();
      WrittenThenFlushed(s, block, t, Snapshot());
      metainfo := Metainfo(readerOffset, writerOffset);
    }

    method WriteFrame(block: bytes)
      requires |writer.buf| < bufferSize
      modifies this`writer, this`writerLocal, this`writerOffset
      ensures Wrote(old(Snapshot()), Frame(block), Snapshot()) && |writer.buf| < bufferSize
    {
      ghost var s := Snapshot();
      Write(BigEndian(|block|, HEADER));
      ghost var t := Snapshot();
      Write(block);
      WroteTwice(s, BigEndian(|block|, HEADER), t, block, Snapshot());
    }

    /** Moves the buffered bytes to the file; `writerFlushed` is only brought up to date by reads. */
    method FlushWriter()
      requires Valid()
      modifies this`writer
      ensures Valid() && SameQueue(old(Snapshot()), Snapshot()) && writer.buf == []
    {
      ghost var s := Snapshot();
      FlushedMeans(s);
      writer := FileStream.FlushBuf(writer);
      FileStream.ValidOnceGrown(reader, s.OnDisk(readerPath), Snapshot().OnDisk(readerPath));
    }

    /** Drops the oldest blocks until the pending bytes fit into `room`. */
    method Drain(room: nat) returns (fatal: bool)
      requires Valid()
      modifies this
      ensures !fatal ==> Valid() && DrainedFor(old(Snapshot()), room, Snapshot())
      ensures old(Snapshot().Contents()).Some? ==> !fatal
    {
      ghost var s := Snapshot();
      while writerOffset - readerOffset > room
        invariant Valid() && DrainedTo(s, room, Snapshot())
        decreases writerOffset - readerOffset
      {
        ghost var cur := Snapshot();
        var outcome, _, block := ReadBlock([]);
        if outcome == Fatal {
          return true;
        }
        OneDrained(s, room, cur, outcome, block, Snapshot());
        if outcome == Empty {
          return false;
        }
      }
      fatal := false;
    }

    method MakeRoom(block: bytes) returns (fatal: bool)
      requires Valid()
      modifies this
      ensures !fatal ==> Valid() && MadeRoom(old(Snapshot()), block, Snapshot())
      ensures maxPending == 0 || old(Snapshot().Contents()).Some? ==> !fatal
    {
      fatal := false;
      if maxPending > 0 {
        var size := |block| + HEADER;
        var room := if size < maxPending then maxPending - size else 0;
        fatal := Drain(room);
      }
    }

    /** Writes a block, first dropping the oldest ones if there is a limit and it would be exceeded. */
    method MustWriteBlock(block: bytes, due: bool) returns (outcome: WriteOutcome)
      requires Valid() && |block| <= maxBlock
      modifies this
      ensures outcome != Panicked ==> Valid() && SameSizes(old(Snapshot()), Snapshot())
      ensures old(Snapshot().Contents()).Some? ==>
                && outcome != Panicked && WriteMeans(old(Snapshot()), block, outcome == Accepted, Snapshot())
                && writerLocal == LocalAfter(chunkSize, maxBlock, maxPending, old(writerLocal), block)
      ensures maxPending == 0 ==> outcome == Accepted && BlockWritten(old(Snapshot()), block, Snapshot())
    {
      ghost var s := Snapshot();
      var fatal := MakeRoom(block);
      if fatal {
        return Panicked;
      }
      outcome := WriteInRoom(block, due, s);
    }

    /** The write itself; `s` is the queue before room was made. */
    method WriteInRoom(block: bytes, due: bool, ghost s: State) returns (outcome: WriteOutcome)
      requires Valid() && |block| <= maxBlock && s.Sane() && SameSizes(s, Snapshot()) && MadeRoom(s, block, Snapshot())
      modifies this
      ensures Valid() && SameSizes(s, Snapshot()) && outcome != Panicked
      ensures s.Contents().Some? ==>
                && WriteMeans(s, block, outcome == Accepted, Snapshot())
                && writerLocal == LocalAfter(chunkSize, maxBlock, maxPending, s.writerLocal, block)
      ensures maxPending == 0 ==> outcome == Accepted && BlockWritten(s, block, Snapshot())
    {
      ghost var drained := Snapshot();
      if maxPending > 0 && |block| + HEADER > maxPending {
        RejectedWriteMeans(s, block, drained);
        outcome := Rejected;
      } else {
        WriteBlock(block, due);
        AcceptedWriteMeans(s, block, drained, Snapshot());
        outcome := Accepted;
      }
      if s.Contents().Some? {
        WriterMoved(s, block, drained, outcome == Accepted, Snapshot());
      }
    }

    /** Starts again at offset zero once an empty queue has grown past the threshold. */
    method ResetIfEmpty()
      requires Valid()
      modifies this
      ensures Valid() && SameSizes(old(Snapshot()), Snapshot())
      ensures Snapshot().Contents() == old(Snapshot().Contents())
      ensures readerOffset - writerOffset == old(readerOffset - writerOffset)
      ensures if old(readerOffset == writerOffset >= 16_777_216) then readerOffset == writerOffset == 0
              else Snapshot() == old(Snapshot())
    {
      if readerOffset != writerOffset {
        return;
      }
      if readerOffset < RESET_THRESHOLD {
        return;
      }
      EmptyIsAtWriter(Snapshot());
      ResetIsEmpty(Snapshot());
      ResetFiles();
    }

    /** Closes the queue: all of it is on disk, with both offsets recorded. */
    method Close() returns (files: map<nat, bytes>)
      requires Valid()
      modifies this
      ensures files == old(Snapshot().View().chunks)
      ensures metainfo == Metainfo(old(readerOffset), old(writerOffset))
    {
      writer := FileStream.FlushBuf(writer);
      chunks := chunks[writerPath := writer.disk];
      FlushMetainfo();
      files := chunks;
    }
  }
}
