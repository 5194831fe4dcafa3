/**
 The state of the persistent queue as a value and the effect of each of its operations
 (`Queue` in crates/esl-agent/src/persistentqueue.rs), with what they keep and mean.

 File locks, fsync and directory syncs have no effect here. A chunk file is known by its offset.
 A panic of the source is the outcome `Fatal`.
 */
module QueueModel {
  import opened Bytes
  import opened QueueLayout

  const RESET_THRESHOLD: nat := 16 * 1024 * 1024

  datatype Metainfo = Metainfo(readerOffset: nat, writerOffset: nat)

  datatype ReadOutcome = Block | Empty | Fatal

  datatype WriteOutcome = Accepted | Rejected | Panicked

  /**
   `chunks` are the chunk files other than the one being written, `disk` and `buf` the bytes
   of that one which reached its file and which are still buffered.
   */
  datatype State = State(
    chunkSize: nat, maxBlock: nat, maxPending: nat,
    chunks: map<nat, bytes>, disk: bytes, buf: bytes,
    readerPath: nat, readerOffset: nat, readerLocal: nat,
    writerPath: nat, writerOffset: nat, writerLocal: nat, writerFlushed: nat)
  {
    ghost function View(): Layout {
      Layout(chunkSize, maxBlock, chunks[writerPath := disk + buf], writerPath, writerLocal)
    }

    /** The queued blocks, oldest first, or `None` if some chunk is corrupted. */
    ghost function Contents(): Option<seq<Entry>>
      requires View().Sized()
    {
      Decode(View(), readerPath, readerLocal)
    }

    /** The bytes of a chunk that reached its file. */
    function OnDisk(path: nat): bytes {
      if path == writerPath then disk else if path in chunks then chunks[path] else []
    }

    predicate Padding(local: nat) {
      NoRoom(chunkSize, maxBlock, local)
    }

    function Pending(): int {
      writerOffset - readerOffset
    }

    ghost predicate WriterSane() {
      && View().Sized() && maxBlock < U64_LIMIT
      && writerOffset == writerPath + writerLocal
      && |disk| + |buf| == writerLocal <= chunkSize
      && writerFlushed <= writerPath + |disk|
    }

    ghost predicate ReaderPlaced()
      requires chunkSize > 0
    {
      && Aligned(chunkSize, readerPath)
      && Contiguous(chunks, chunkSize, readerPath, writerPath)
      && Within(chunks, chunkSize, readerPath, writerPath)
      && readerOffset == readerPath + readerLocal
      && readerLocal <= chunkSize
      && (writerLocal == 0 ==> readerPath == writerPath)
    }

    /** The invariant of every operation, whatever bytes the chunk files hold. */
    ghost predicate Sane() {
      && WriterSane() && ReaderPlaced()
      && readerOffset <= writerOffset
      && readerLocal <= |OnDisk(readerPath)|
    }

    /** A reader that corruption has put into the padding of the writer's chunk. */
    predicate Stuck() {
      readerPath == writerPath && Padding(readerLocal)
    }
  }

  // ----- reading

  function Flush(s: State): State {
    s.(disk := s.disk + s.buf, buf := [], writerFlushed := s.writerOffset)
  }

  function FlushFor(s: State, n: nat): State {
    if s.readerOffset + n > s.writerFlushed then Flush(s) else s
  }

  /** Reads `n` bytes at the reading position; the writer's buffer is flushed first if needed. */
  function ReadBytes(s: State, n: nat): (bool, bytes, State) {
    ReadOnDisk(FlushFor(s, n), n)
  }

  function ReadOnDisk(s: State, n: nat): (bool, bytes, State) {
    var file := s.OnDisk(s.readerPath);
    if s.readerLocal + n > |file| then
      (false, [], s)
    else
      var t := s.(readerLocal := s.readerLocal + n, readerOffset := s.readerOffset + n);
      if t.readerOffset > t.writerOffset then (false, [], t)
      else (true, file[s.readerLocal..s.readerLocal + n], t)
  }

  function RoundUp(chunkSize: nat, offset: nat): nat
    requires chunkSize > 0
  {
    var n := offset % chunkSize;
    if n > 0 then offset + chunkSize - n else offset
  }

  /** Drops the chunk being read and opens the next one; fails if it is beyond the writer or missing. */
  function NextToRead(s: State): Option<State>
    requires s.chunkSize > 0
  {
    var offset := RoundUp(s.chunkSize, s.readerOffset);
    var s1 := s.(chunks := s.chunks - {s.readerPath}, readerOffset := offset);
    if offset > s.writerOffset || !(offset == s.writerPath || offset in s1.chunks) then None
    else Some(s1.(readerLocal := 0, readerPath := offset))
  }

  /** Both ends go back to offset zero, in a new empty chunk. */
  function Reset(s: State): State {
    WriterReset(s).(readerPath := 0, readerOffset := 0, readerLocal := 0)
  }

  function WriterReset(s: State): State {
    s.(chunks := s.chunks - {s.readerPath} - {0}, disk := [], buf := [],
       writerPath := 0, writerOffset := 0, writerLocal := 0, writerFlushed := 0)
  }

  // ----- what the reading steps mean

  /** What is left of the invariant when a read fails: the reader is about to leave its chunk. */
  ghost predicate Broken(s: State) {
    && s.WriterSane() && s.ReaderPlaced()
    && (s.readerOffset <= s.writerOffset ==> s.readerLocal < s.chunkSize)
  }

  lemma FlushForMeans(s: State, n: nat)
    requires s.Sane()
    ensures var t := FlushFor(s, n);
            && t.Sane() && t.View() == s.View()
            && s.readerPath in s.View().chunks
            && t.OnDisk(s.readerPath) <= s.View().chunks[s.readerPath]
            && (s.readerLocal + n <= |t.OnDisk(s.readerPath)|
                <==> s.readerLocal + n <= |s.View().chunks[s.readerPath]|)
  {
    var t := FlushFor(s, n);
    assert t.disk + t.buf == s.disk + s.buf;
    assert t.View() == s.View();
  }

  lemma FlushMeans(s: State)
    requires s.Sane()
    ensures Flush(s).Sane() && Flush(s).View() == s.View() && s.OnDisk(s.readerPath) <= Flush(s).OnDisk(s.readerPath)
  {
    assert FlushFor(s, s.writerFlushed + 1) == Flush(s);
    FlushForMeans(s, s.writerFlushed + 1);
  }

  lemma ReaderMoved(s: State, n: nat)
    requires s.Sane() && s.readerLocal + n <= s.chunkSize
    ensures var t := s.(readerLocal := s.readerLocal + n, readerOffset := s.readerOffset + n);
            && t.WriterSane() && t.ReaderPlaced() && t.View() == s.View()
            && (t.readerOffset <= t.writerOffset && t.readerLocal <= |s.OnDisk(s.readerPath)| ==> t.Sane())
  {
  }

  /** A read of `n` bytes of the chunk `file`: it fails exactly if they end or the writer's offset comes first. */
  ghost predicate ReadFrom(s: State, n: nat, file: bytes, ok: bool, data: bytes, t: State) {
    && t.View() == s.View() && t.readerPath == s.readerPath
    && (ok <==> s.readerLocal + n <= |file| && s.readerOffset + n <= s.writerOffset)
    && (ok ==> t.Sane() && t.readerLocal == s.readerLocal + n && data == file[s.readerLocal..s.readerLocal + n])
    && (!ok ==> t.WriterSane() && t.ReaderPlaced())
    && (!ok && t.readerOffset <= t.writerOffset ==> t.readerLocal == s.readerLocal)
  }

  lemma ReadOnDiskMeans(s: State, n: nat, file: bytes)
    requires s.Sane() && s.readerLocal + n <= s.chunkSize
    requires s.OnDisk(s.readerPath) <= file
    requires s.readerLocal + n <= |s.OnDisk(s.readerPath)| <==> s.readerLocal + n <= |file|
    ensures var (ok, data, t) := ReadOnDisk(s, n); ReadFrom(s, n, file, ok, data, t)
  {
    ReaderMoved(s, n);
    if s.readerLocal + n <= |file| {
      PrefixSlice(s.OnDisk(s.readerPath), file, s.readerLocal, s.readerLocal + n);
    }
  }

  lemma ReadBytesMeans(s: State, n: nat)
    requires s.Sane() && s.readerLocal + n <= s.chunkSize
    ensures s.readerPath in s.View().chunks
    ensures var (ok, data, t) := ReadBytes(s, n); ReadFrom(s, n, s.View().chunks[s.readerPath], ok, data, t)
  {
    FlushForMeans(s, n);
    var f, file := FlushFor(s, n), s.View().chunks[s.readerPath];
    ReadOnDiskMeans(f, n, file);
    var (ok, data, t) := ReadOnDisk(f, n);
    FlushChangesNoRead(s, n, f, file, ok, data, t);
  }

  lemma FlushChangesNoRead(s: State, n: nat, f: State, file: bytes, ok: bool, data: bytes, t: State)
    requires f.View() == s.View() && f.readerPath == s.readerPath && f.readerLocal == s.readerLocal
    requires f.readerOffset == s.readerOffset && f.writerOffset == s.writerOffset
    requires ReadFrom(f, n, file, ok, data, t)
    ensures ReadFrom(s, n, file, ok, data, t)
  {
  }

  lemma PrefixSlice(a: bytes, b: bytes, i: nat, j: nat)
    requires a <= b && i <= j <= |a|
    ensures a[i..j] == b[i..j]
  {
  }

  /** The chunk being read ends at or before the writer. */
  lemma ChunkEndsInQueue(s: State)
    requires s.WriterSane() && s.ReaderPlaced()
    ensures s.readerPath <= s.writerPath && s.readerPath in s.View().chunks
    ensures s.readerPath < s.writerPath ==> s.readerPath + s.chunkSize <= s.writerPath
  {
    ContiguousAligned(s.chunks, s.chunkSize, s.readerPath, s.writerPath);
    if s.readerPath < s.writerPath {
      ContiguousAligned(s.chunks, s.chunkSize, s.readerPath + s.chunkSize, s.writerPath);
    }
  }

  /** Reading within a chunk fails only because the chunk's bytes end. */
  ghost predicate ReadInChunk(s: State, n: nat, ok: bool, data: bytes, t: State)
    requires s.Sane()
  {
    && s.readerPath <= s.writerPath && s.readerPath in s.View().chunks
    && t.View() == s.View() && t.readerPath == s.readerPath
    && t.writerOffset == s.writerOffset && t.maxPending == s.maxPending
    && var file := s.View().chunks[s.readerPath];
    && (ok <==> s.readerLocal + n <= |file|)
    && (ok ==> t.Sane() && t.readerLocal == s.readerLocal + n
               && data == file[s.readerLocal..s.readerLocal + n])
    && (!ok && s.readerLocal < s.chunkSize ==> Broken(t))
  }

  lemma ReadInChunkMeans(s: State, n: nat)
    requires s.Sane() && s.readerLocal + n <= s.chunkSize
    ensures var (ok, data, t) := ReadBytes(s, n); ReadInChunk(s, n, ok, data, t)
  {
    ChunkEndsInQueue(s);
    ReadBytesMeans(s, n);
  }

  /** The length at the reading position, read as the header, is that of the block there. */
  lemma HeaderMeans(s: State, header: bytes, t: State)
    requires s.Sane() && !s.Padding(s.readerLocal) && ReadInChunk(s, HEADER, true, header, t)
    ensures var n, file := FromBigEndian(header), s.View().chunks[s.readerPath];
            BlockAt(s.View(), s.readerPath, s.readerLocal)
            == if n == 0 || n > s.maxBlock || t.readerLocal + n > |file| then None
               else Some(file[t.readerLocal..t.readerLocal + n])
  {
  }

  /** An attempt succeeds exactly on a well-formed block, and then returns it. */
  ghost predicate TriedBlock(s: State, ok: bool, block: bytes, t: State) {
    var there := BlockAt(s.View(), s.readerPath, s.readerLocal);
    && t.View() == s.View() && t.readerPath == s.readerPath
    && t.writerOffset == s.writerOffset && t.maxPending == s.maxPending
    && (ok <==> there.Some?)
    && (ok ==> t.Sane() && block == there.value && t.readerLocal == s.readerLocal + HEADER + |block|)
    && (!ok ==> Broken(t))
  }

  lemma NoHeader(s: State, t: State)
    requires s.Sane() && !s.Padding(s.readerLocal) && ReadInChunk(s, HEADER, false, [], t)
    ensures TriedBlock(s, false, [], t)
  {
  }

  lemma BadHeader(s: State, header: bytes, t: State)
    requires s.Sane() && !s.Padding(s.readerLocal) && ReadInChunk(s, HEADER, true, header, t)
    requires FromBigEndian(header) == 0 || FromBigEndian(header) > s.maxBlock
    ensures TriedBlock(s, false, [], t)
  {
    HeaderMeans(s, header, t);
  }

  lemma BlockTried(s: State, header: bytes, t: State, ok: bool, block: bytes, u: State)
    requires s.Sane() && !s.Padding(s.readerLocal) && ReadInChunk(s, HEADER, true, header, t)
    requires 1 <= FromBigEndian(header) <= s.maxBlock && ReadInChunk(t, FromBigEndian(header), ok, block, u)
    ensures TriedBlock(s, ok, block, u)
  {
    HeaderMeans(s, header, t);
  }

  ghost predicate SameSizes(s: State, t: State) {
    t.chunkSize == s.chunkSize && t.maxBlock == s.maxBlock && t.maxPending == s.maxPending
  }

  /** The writer is where it was. */
  ghost predicate SameWriter(s: State, t: State) {
    t.writerOffset == s.writerOffset && t.writerPath == s.writerPath && t.writerLocal == s.writerLocal
  }

  /** The reader leaves its chunk for the next one; there is one exactly if the writer is not in it. */
  lemma NextChunkMeans(s: State)
    requires s.WriterSane() && Aligned(s.chunkSize, s.readerPath)
    requires Contiguous(s.chunks, s.chunkSize, s.readerPath, s.writerPath)
    requires Within(s.chunks, s.chunkSize, s.readerPath, s.writerPath)
    requires s.writerLocal == 0 ==> s.readerPath == s.writerPath
    requires s.readerPath < s.readerOffset <= s.readerPath + s.chunkSize
    ensures var r := NextToRead(s);
            && (r.Some? <==> s.readerPath < s.writerPath)
            && (r.Some? ==>
                  && r.value.Sane() && SameSizes(s, r.value)
                  && r.value.readerPath == s.readerPath + s.chunkSize && r.value.readerLocal == 0
                  && SameWriter(s, r.value) && r.value.readerOffset < s.writerOffset
                  && r.value.Contents() == Decode(s.View(), s.readerPath + s.chunkSize, 0))
  {
    RoundedUp(s.chunkSize, s.readerPath, s.readerOffset - s.readerPath);
    if s.readerPath < s.writerPath {
      NextChunkOpened(s, s.readerPath + s.chunkSize);
    }
  }

  lemma NextChunkOpened(s: State, next: nat)
    requires s.WriterSane() && Aligned(s.chunkSize, s.readerPath)
    requires Contiguous(s.chunks, s.chunkSize, s.readerPath, s.writerPath)
    requires Within(s.chunks, s.chunkSize, s.readerPath, s.writerPath)
    requires s.writerLocal > 0 && s.readerPath < s.writerPath && next == s.readerPath + s.chunkSize
    ensures next == s.writerPath || next in s.chunks
    ensures var t := s.(chunks := s.chunks - {s.readerPath},
                        readerOffset := next, readerLocal := 0, readerPath := next);
            t.Sane() && next < s.writerOffset && t.Contents() == Decode(s.View(), next, 0)
  {
    ContiguousAligned(s.chunks, s.chunkSize, next, s.writerPath);
    NextChunkContents(s, next);
    WithinAfterRemoval(s.chunks, s.chunkSize, s.readerPath, s.writerPath);
  }

  lemma RoundedUp(c: nat, path: nat, local: nat)
    requires c > 0 && Aligned(c, path) && 0 < local <= c
    ensures RoundUp(c, path + local) == path + c
  {
    LocalOffset(c, path, local);
  }

  lemma NextChunkContents(s: State, next: nat)
    requires s.WriterSane() && s.readerPath < next
    requires Contiguous(s.chunks, s.chunkSize, next, s.writerPath)
    ensures var t := s.(chunks := s.chunks - {s.readerPath},
                        readerOffset := next, readerLocal := 0, readerPath := next);
            && Contiguous(t.chunks, s.chunkSize, next, s.writerPath)
            && t.Contents() == Decode(s.View(), next, 0)
  {
    var t := s.(chunks := s.chunks - {s.readerPath}, readerOffset := next, readerLocal := 0, readerPath := next);
    ContiguousFrame(s.chunks, t.chunks, s.chunkSize, next, s.writerPath);
    SameChunks(s.View(), t.View(), next);
    DecodeFrame(s.View(), t.View(), next, 0);
  }

  /** Skipping empties the queue exactly if the writer is in the broken chunk; it never panics. */
  ghost predicate SkippedTo(s: State, outcome: ReadOutcome, t: State)
    requires s.View().Sized()
  {
    && SameSizes(s, t) && t.Sane()
    && (s.readerPath == s.writerPath ==>
          outcome == Empty && t.chunks == map[] && t.readerOffset == t.writerOffset == 0 && t.Contents() == Some([]))
    && (s.readerPath != s.writerPath ==>
          && outcome == Block
          && t.readerPath == s.readerPath + s.chunkSize && t.readerLocal == 0
          && t.readerOffset < t.writerOffset && SameWriter(s, t)
          && t.Contents() == Decode(s.View(), s.readerPath + s.chunkSize, 0))
  }

  /** The start of the next chunk, as the source computes it. */
  lemma SkipOffset(c: nat, path: nat, local: nat)
    requires c > 0 && Aligned(c, path) && local <= c
    ensures var x := path + local; x + c - x % c == if local < c then path + c else path + c + c
  {
    LocalOffset(c, path, local);
  }

  lemma SkippedToEmpty(s: State, offset: nat)
    requires Broken(s) && s.readerPath == s.writerPath
    ensures SkippedTo(s, Empty, Reset(s.(readerOffset := offset)))
  {
    ResetIsEmpty(s.(readerOffset := offset));
  }

  lemma SkippedToNext(s: State)
    requires Broken(s) && s.readerPath < s.writerPath && s.readerPath + s.chunkSize < s.writerOffset
    ensures var s1 := s.(readerOffset := s.readerPath + s.chunkSize);
            NextToRead(s1).Some? && SkippedTo(s, Block, NextToRead(s1).value)
  {
    NextChunkMeans(s.(readerOffset := s.readerPath + s.chunkSize));
  }

  lemma SkipEnds(s: State, s1: State)
    requires Broken(s)
    requires s1 == s.(readerOffset := s.readerOffset + s.chunkSize - s.readerOffset % s.chunkSize)
    ensures s1.readerOffset >= s.writerOffset <==> s.readerPath == s.writerPath
    ensures s.readerPath != s.writerPath ==> s1 == s.(readerOffset := s.readerPath + s.chunkSize)
  {
    ChunkEndsInQueue(s);
    SkipOffset(s.chunkSize, s.readerPath, s.readerLocal);
  }

  lemma SkipBrokenMeans(s: State, s1: State)
    requires Broken(s)
    requires s1 == s.(readerOffset := s.readerOffset + s.chunkSize - s.readerOffset % s.chunkSize)
    ensures s1.readerOffset >= s.writerOffset <==> s.readerPath == s.writerPath
    ensures s1.readerOffset >= s.writerOffset ==> SkippedTo(s, Empty, Reset(s1))
    ensures s1.readerOffset < s.writerOffset ==>
              NextToRead(s1).Some? && SkippedTo(s, Block, NextToRead(s1).value)
  {
    SkipEnds(s, s1);
    if s.readerPath == s.writerPath {
      SkippedToEmpty(s, s1.readerOffset);
    } else {
      SkippedToNext(s);
    }
  }

  lemma ResetIsEmpty(s: State)
    requires s.WriterSane() && s.readerPath == s.writerPath
    requires Within(s.chunks, s.chunkSize, s.readerPath, s.writerPath)
    ensures var t := Reset(s);
            t.Sane() && t.Contents() == Some([]) && t.chunks == map[] && t.readerOffset == t.writerOffset == 0
  {
  }

  // ----- main results about reading

  /** What a read of a non-empty queue does, whatever bytes its chunk files hold. */
  ghost predicate ReadsSafely(s: State, outcome: ReadOutcome, block: bytes, t: State) {
    && SameSizes(s, t)
    && (outcome.Block? ==> && t.Sane() && 1 <= |block| <= s.maxBlock
                           && s.readerOffset < t.readerOffset && SameWriter(s, t))
    && (outcome.Empty? ==> && t.Sane() && block == [] && t.chunks == map[]
                           && t.readerOffset == t.writerOffset == 0 && t.Contents() == Some([]))
  }

  /** The oldest of `entries` is returned and the others stay. */
  ghost predicate ReadsOldest(entries: seq<Entry>, outcome: ReadOutcome, block: bytes, t: State)
    requires t.View().Sized()
  {
    && outcome.Block? && entries != [] && t.Contents() == Some(entries[1..])
    && entries[0] == Entry(block, t.readerOffset)
  }

  /** The blocks of the chunks after the one being read. */
  ghost function LaterBlocks(s: State): Option<seq<Entry>>
    requires s.View().Sized()
  {
    Decode(s.View(), s.readerPath + s.chunkSize, 0)
  }

  /**
   What a read does: it is safe, it returns the oldest block of an intact queue, and of a queue
   that is broken in the chunk being read it loses no block of a later intact chunk.
   */
  ghost predicate ReadMeans(s: State, outcome: ReadOutcome, block: bytes, t: State)
    requires s.View().Sized()
  {
    && ReadsSafely(s, outcome, block, t)
    && (s.Contents().Some? ==> ReadsOldest(s.Contents().value, outcome, block, t))
    && (s.readerPath < s.writerPath && LaterBlocks(s).Some? && (outcome.Block? ==> s.readerPath < t.readerPath)
        ==> ReadsOldest(LaterBlocks(s).value, outcome, block, t))
  }

  /** Where a read that started at `s` can be after skipping broken chunks. */
  ghost predicate Skipping(s: State, cur: State)
    requires s.View().Sized()
  {
    && cur.Sane() && !cur.Padding(cur.readerLocal) && cur.readerOffset < cur.writerOffset
    && SameSizes(s, cur) && SameWriter(s, cur) && s.readerOffset <= cur.readerOffset
    && (cur == s || (&& s.Contents().None? && s.readerPath < cur.readerPath
                     && (LaterBlocks(s).Some? ==> cur.Contents() == LaterBlocks(s))))
  }

  lemma BlockFound(s: State, cur: State, block: bytes, t: State)
    requires s.View().Sized() && Skipping(s, cur) && TriedBlock(cur, true, block, t)
    ensures ReadMeans(s, Block, block, t)
  {
    assert t.Contents() == Decode(cur.View(), cur.readerPath, cur.readerLocal + HEADER + |block|);
    if cur.Contents().Some? {
      assert cur.Contents().value[1..] == t.Contents().value;
    }
  }

  lemma NoBlockNoContents(cur: State)
    requires cur.Sane() && !cur.Padding(cur.readerLocal) && cur.readerOffset < cur.writerOffset
    requires BlockAt(cur.View(), cur.readerPath, cur.readerLocal).None?
    ensures cur.Contents() == None
  {
  }

  lemma ChunkSkipped(s: State, cur: State, broken: State, outcome: ReadOutcome, t: State)
    requires s.View().Sized() && Skipping(s, cur) && TriedBlock(cur, false, [], broken)
    requires SkippedTo(broken, outcome, t)
    ensures cur.Contents() == None
    ensures outcome == Empty ==> ReadMeans(s, Empty, [], t)
    ensures outcome == Block ==> Skipping(s, t) && cur.readerOffset < t.readerOffset
    ensures outcome != Fatal
  {
    NoBlockNoContents(cur);
    if outcome == Empty {
      SkippedAll(s, cur, broken, t);
    } else {
      SkippedOne(s, cur, broken, t);
    }
  }

  lemma SkippedOne(s: State, cur: State, broken: State, t: State)
    requires s.View().Sized() && Skipping(s, cur) && TriedBlock(cur, false, [], broken)
    requires SkippedTo(broken, Block, t) && cur.Contents() == None
    ensures Skipping(s, t) && cur.readerOffset < t.readerOffset
  {
    ChunkEndsInQueue(cur);
  }

  lemma SkippedAll(s: State, cur: State, broken: State, t: State)
    requires s.View().Sized() && Skipping(s, cur) && TriedBlock(cur, false, [], broken)
    requires SkippedTo(broken, Empty, t) && cur.Contents() == None
    ensures ReadMeans(s, Empty, [], t)
  {
    ChunkEndsInQueue(cur);
  }

  /** A reader in the padding of a chunk has moved to the start of the next; any other stays. */
  ghost predicate LeftPadding(s: State, t: State)
    requires s.View().Sized()
  {
    && t.Sane() && !t.Padding(t.readerLocal) && t.readerOffset < t.writerOffset
    && if s.Padding(s.readerLocal) then
         && s.readerPath < s.writerPath && SameSizes(s, t) && SameWriter(s, t)
         && t.readerPath == s.readerPath + s.chunkSize && t.readerLocal == 0
         && t.Contents() == LaterBlocks(s)
       else t == s
  }

  lemma LeavingPadding(s: State)
    requires s.Sane() && s.readerOffset < s.writerOffset && s.Padding(s.readerLocal)
    ensures NextToRead(s).Some? <==> !s.Stuck()
    ensures !s.Stuck() ==> LeftPadding(s, NextToRead(s).value)
  {
    NextChunkMeans(s);
    ChunkEndsInQueue(s);
  }

  lemma ContentsInPadding(s: State)
    requires s.View().Sized() && s.Padding(s.readerLocal) && s.readerPath < s.writerPath
    ensures s.Contents() == LaterBlocks(s)
  {
    DecodePadding(s.View(), s.readerPath, s.readerLocal);
  }

  lemma SafelyFromLater(s: State, s1: State, outcome: ReadOutcome, block: bytes, t: State)
    requires SameSizes(s, s1) && s.readerOffset <= s1.readerOffset && SameWriter(s, s1)
    requires ReadsSafely(s1, outcome, block, t)
    ensures ReadsSafely(s, outcome, block, t)
  {
  }

  /** Rolling over from the padding of a chunk is not a step the outside can tell. */
  lemma PaddingSkipped(s: State, s1: State, outcome: ReadOutcome, block: bytes, t: State)
    requires s.Sane() && s.readerOffset < s.writerOffset && LeftPadding(s, s1) && ReadMeans(s1, outcome, block, t)
    ensures ReadMeans(s, outcome, block, t)
  {
    if s.Padding(s.readerLocal) {
      ContentsInPadding(s);
      SafelyFromLater(s, s1, outcome, block, t);
    }
  }

  // ----- writing

  /** Finishes the chunk being written and creates the next one. */
  function Rollover(s: State): State
    requires s.chunkSize > 0
  {
    var next := RoundUp(s.chunkSize, s.writerOffset);
    s.(chunks := s.chunks[s.writerPath := s.disk + s.buf] - {next}, disk := [], buf := [],
       writerPath := next, writerOffset := next, writerLocal := 0, writerFlushed := next)
  }

  /** `t` is `s` with `p` appended to the chunk being written, some of it perhaps still buffered. */
  ghost predicate Wrote(s: State, p: bytes, t: State) {
    && t == s.(disk := t.disk, buf := t.buf, writerLocal := s.writerLocal + |p|, writerOffset := s.writerOffset + |p|)
    && s.disk <= t.disk && t.disk + t.buf == s.disk + s.buf + p
  }

  lemma WroteTwice(s: State, p: bytes, t: State, q: bytes, u: State)
    requires Wrote(s, p, t) && Wrote(t, q, u)
    ensures Wrote(s, p + q, u)
  {
  }

  /** The write of a block is the layout's append, and what the reader has seen stays as it was. */
  ghost predicate BlockWritten(s: State, block: bytes, t: State)
    requires s.View().Sized()
  {
    && t.Sane() && SameSizes(s, t) && t.View() == Append(s.View(), block)
    && t.readerPath == s.readerPath && t.readerOffset == s.readerOffset && t.readerLocal == s.readerLocal
    && s.OnDisk(s.readerPath) <= t.OnDisk(s.readerPath)
    && t.writerOffset <= s.writerOffset + s.maxBlock + HEADER + |Frame(block)| - 1
    && (s.Contents().Some? ==>
          t.Contents() == if block == [] then None else Some(s.Contents().value + [Entry(block, t.writerOffset)]))
  }

  lemma WrittenInChunk(s: State, block: bytes, t: State)
    requires s.Sane() && |block| <= s.maxBlock && !s.Padding(s.writerLocal)
    requires Wrote(s, Frame(block), t)
    ensures BlockWritten(s, block, t)
  {
    assert t.View() == Append(s.View(), block);
    AppendedContents(s, block, t);
  }

  lemma RolloverMeans(s: State)
    requires s.Sane() && s.Padding(s.writerLocal)
    ensures var t := Rollover(s);
            && t.writerPath == t.writerOffset == s.writerPath + s.chunkSize
            && t.writerOffset < s.writerOffset + s.maxBlock + HEADER
            && t.View() == s.View().(chunks := s.View().chunks[t.writerPath := []],
                                     writerPath := t.writerPath, writerLocal := 0)
            && s.OnDisk(s.readerPath) <= t.OnDisk(s.readerPath)
            && Contiguous(t.chunks, s.chunkSize, s.readerPath, t.writerPath)
            && Within(t.chunks, s.chunkSize, s.readerPath, t.writerPath)
  {
    var next, finished := s.writerPath + s.chunkSize, s.chunks[s.writerPath := s.disk + s.buf];
    RolledOver(s, next, finished);
    RolledView(s, next, finished, Rollover(s));
    ContiguousFrame(s.chunks, finished, s.chunkSize, s.readerPath, s.writerPath);
    ContiguousExtend(finished, s.chunkSize, s.readerPath, s.writerPath);
  }

  lemma RolledView(s: State, next: nat, finished: map<nat, bytes>, t: State)
    requires s.writerPath < next && finished == s.chunks[s.writerPath := s.disk + s.buf]
    requires t == s.(chunks := finished, disk := [], buf := [],
                     writerPath := next, writerOffset := next, writerLocal := 0, writerFlushed := next)
    requires s.readerPath < next
    ensures t.View() == s.View().(chunks := s.View().chunks[next := []], writerPath := next, writerLocal := 0)
    ensures s.OnDisk(s.readerPath) <= t.OnDisk(s.readerPath)
  {
    assert [] + [] == t.disk + t.buf;
  }

  /** The next chunk is a new one. */
  lemma RolledOver(s: State, next: nat, finished: map<nat, bytes>)
    requires s.Sane() && s.Padding(s.writerLocal)
    requires next == s.writerPath + s.chunkSize && finished == s.chunks[s.writerPath := s.disk + s.buf]
    ensures Rollover(s) == s.(chunks := finished, disk := [], buf := [],
                              writerPath := next, writerOffset := next, writerLocal := 0, writerFlushed := next)
    ensures Within(finished, s.chunkSize, s.readerPath, next)
  {
    ContiguousAligned(s.chunks, s.chunkSize, s.readerPath, s.writerPath);
    RoundedUp(s.chunkSize, s.writerPath, s.writerLocal);
    assert finished - {next} == finished;
  }

  /** What the reader finds after the layout's append. */
  /** What decodes from this position on still does, and `last` follows it. */
  ghost predicate Continues(v: Layout, w: Layout, path: nat, local: nat, last: Entry)
    requires v.Sized() && w.Sized()
  {
    Decode(v, path, local).Some? ==> Decode(w, path, local) == Some(Decode(v, path, local).value + [last])
  }

  /** However damaged chunks are, a block is found behind all that can be decoded from any position on. */
  lemma AppendedFrom(s: State, block: bytes, t: State, path: nat, local: nat)
    requires s.Sane() && |block| <= s.maxBlock && t.WriterSane() && t.View() == Append(s.View(), block)
    ensures block != [] ==> Continues(s.View(), t.View(), path, local, Entry(block, t.writerOffset))
    ensures block == [] && Decode(s.View(), path, local).Some? ==> Decode(t.View(), path, local) == None
  {
    if Decode(s.View(), path, local).Some? {
      assert Append(s.View(), block).End() == t.writerOffset;
      DecodeAppend(s.View(), path, local, block);
    }
  }

  lemma AppendedContents(s: State, block: bytes, t: State)
    requires s.Sane() && |block| <= s.maxBlock && t.Sane() && t.View() == Append(s.View(), block)
    requires t.readerPath == s.readerPath && t.readerLocal == s.readerLocal
    ensures s.Contents().Some? ==>
              t.Contents() == if block == [] then None else Some(s.Contents().value + [Entry(block, t.writerOffset)])
  {
    AppendedFrom(s, block, t, s.readerPath, s.readerLocal);
  }

  lemma SaneInNextChunk(s: State, block: bytes, t: State)
    requires s.Sane() && |block| <= s.maxBlock && s.Padding(s.writerLocal)
    requires Wrote(Rollover(s), Frame(block), t)
    ensures t.Sane() && t.View() == Append(s.View(), block) && s.OnDisk(s.readerPath) <= t.OnDisk(s.readerPath)
    ensures t.writerOffset <= s.writerOffset + s.maxBlock + HEADER + |Frame(block)| - 1
  {
    RolloverMeans(s);
    assert t.disk + t.buf == Frame(block);
    assert t.View() == Append(s.View(), block);
  }

  lemma WrittenInNextChunk(s: State, block: bytes, t: State)
    requires s.Sane() && |block| <= s.maxBlock && s.Padding(s.writerLocal)
    requires Wrote(Rollover(s), Frame(block), t)
    ensures BlockWritten(s, block, t)
  {
    SaneInNextChunk(s, block, t);
    AppendedContents(s, block, t);
  }

  /** The same queue, though more of it may have reached the disk. */
  ghost predicate SameQueue(s: State, t: State) {
    && t == s.(disk := t.disk, buf := t.buf)
    && t.View() == s.View() && s.disk <= t.disk
  }

  lemma FlushedMeans(s: State)
    requires s.Sane()
    ensures var t := s.(disk := s.disk + s.buf, buf := []);
            t.Sane() && SameQueue(s, t) && s.OnDisk(s.readerPath) <= t.OnDisk(s.readerPath)
  {
    var t := s.(disk := s.disk + s.buf, buf := []);
    assert t.disk + t.buf == s.disk + s.buf;
  }

  lemma BlockAppended(s: State, block: bytes, t: State)
    requires s.Sane() && |block| <= s.maxBlock
    requires Wrote(if s.Padding(s.writerLocal) then Rollover(s) else s, Frame(block), t)
    ensures BlockWritten(s, block, t)
  {
    if s.Padding(s.writerLocal) {
      WrittenInNextChunk(s, block, t);
    } else {
      WrittenInChunk(s, block, t);
    }
  }

  lemma WrittenThenFlushed(s: State, block: bytes, t: State, u: State)
    requires s.Sane() && BlockWritten(s, block, t) && SameQueue(t, u) && u.Sane()
    ensures BlockWritten(s, block, u)
  {
  }

  // ----- the size limit

  /** How many of the oldest entries go before the pending bytes fit into `room`. */
  ghost function ToDrop(entries: seq<Entry>, reader: nat, writer: nat, room: nat): (k: nat)
    ensures k <= |entries|
  {
    if writer - reader <= room || entries == [] then 0
    else 1 + ToDrop(entries[1..], entries[0].end, writer, room)
  }

  /** The pending bytes once the first `k` entries are gone. */
  ghost function PendingAfter(entries: seq<Entry>, reader: nat, writer: nat, k: nat): int
    requires k <= |entries|
  {
    writer - if k == 0 then reader else entries[k - 1].end
  }

  /** No entry is dropped that need not be. */
  lemma {:induction false} ToDropIsLeast(entries: seq<Entry>, reader: nat, writer: nat, room: nat)
    ensures var k := ToDrop(entries, reader, writer, room);
            && (forall j :: 0 <= j < k ==> PendingAfter(entries, reader, writer, j) > room)
            && (k < |entries| ==> PendingAfter(entries, reader, writer, k) <= room)
  {
    if !(writer - reader <= room || entries == []) {
      ToDropIsLeast(entries[1..], entries[0].end, writer, room);
      var k := ToDrop(entries[1..], entries[0].end, writer, room);
      forall j | 0 <= j < k + 1
        ensures PendingAfter(entries, reader, writer, j) > room
      {
        if j > 0 {
          assert PendingAfter(entries, reader, writer, j) == PendingAfter(entries[1..], entries[0].end, writer, j - 1);
        }
      }
      if k < |entries[1..]| {
        assert PendingAfter(entries, reader, writer, k + 1) == PendingAfter(entries[1..], entries[0].end, writer, k);
      }
    }
  }

  /** What a limited queue leaves for the entries already there. */
  function Room(s: State, block: bytes): nat {
    var size := |block| + HEADER;
    if size < s.maxPending then s.maxPending - size else 0
  }

  /** The entries that an intact queue keeps when `block` is to be written. */
  ghost function Kept(s: State, block: bytes): seq<Entry>
    requires s.View().Sized() && s.Contents().Some?
  {
    var entries := s.Contents().value;
    if s.maxPending == 0 then entries
    else entries[ToDrop(entries, s.readerOffset, s.writerOffset, Room(s, block))..]
  }

  lemma EmptyMeansNothingPending(s: State)
    requires s.Sane() && s.Contents().Some?
    ensures s.Contents().value == [] <==> s.readerOffset == s.writerOffset
    ensures s.readerOffset + Cost(s.Contents().value) <= s.writerOffset
  {
    ChunkEndsInQueue(s);
    PendingCoversBlocks(s.View(), s.readerPath, s.readerLocal);
  }

  /**
   A write under a limit: only the oldest entries go, and the limit holds, padding apart.
   An empty block is accepted but corrupts the queue, because its length reads as corruption.
   */
  ghost predicate WriteMeans(s: State, block: bytes, accepted: bool, t: State)
    requires s.View().Sized() && s.Contents().Some?
  {
    && SameSizes(s, t) && t.Sane()
    && (accepted <==> s.maxPending == 0 || |block| + HEADER <= s.maxPending)
    && (t.Contents() == None <==> accepted && block == [])
    && (t.Contents().Some? ==>
          && t.Contents().value == Kept(s, block) + (if accepted then [Entry(block, t.writerOffset)] else [])
          && (!accepted ==> t.Contents().value == [])
          && (s.maxPending > 0 ==>
                && Cost(t.Contents().value) <= s.maxPending
                && t.Pending() < s.maxPending + s.maxBlock + HEADER))
  }

  ghost predicate MadeRoom(s: State, block: bytes, t: State)
    requires s.View().Sized()
  {
    if s.maxPending == 0 then t == s
    else DrainedFor(s, Room(s, block), t)
  }

  /** Draining for `room` is over. */
  ghost predicate DrainedFor(s: State, room: nat, t: State)
    requires s.View().Sized()
  {
    DrainedTo(s, room, t) && t.Pending() <= room
  }

  lemma AcceptedWriteMeans(s: State, block: bytes, drained: State, t: State)
    requires s.Sane() && |block| <= s.maxBlock
    requires drained.Sane() && MadeRoom(s, block, drained) && BlockWritten(drained, block, t)
    requires s.maxPending == 0 || |block| + HEADER <= s.maxPending
    ensures SameSizes(s, t)
    ensures s.Contents().Some? ==> WriteMeans(s, block, true, t)
  {
    if s.Contents().Some? {
      assert drained.Contents().value == Kept(s, block);
      EmptyMeansNothingPending(drained);
      CostAppend(Kept(s, block), Entry(block, t.writerOffset));
    }
  }

  lemma RejectedWriteMeans(s: State, block: bytes, t: State)
    requires s.Sane() && 0 < s.maxPending < |block| + HEADER
    requires t.Sane() && MadeRoom(s, block, t)
    ensures SameSizes(s, t)
    ensures s.Contents().Some? ==> WriteMeans(s, block, false, t)
  {
    if s.Contents().Some? {
      EmptyMeansNothingPending(t);
      assert Kept(s, block) + [] == Kept(s, block);
    }
  }

  /** Where in its chunk the writer is after a write: a block that alone is over the limit is not written. */
  function LocalAfter(chunkSize: nat, maxBlock: nat, maxPending: nat, local: nat, block: bytes): nat {
    var size := |block| + HEADER;
    if 0 < maxPending < size then local
    else if NoRoom(chunkSize, maxBlock, local) then size
    else local + size
  }

  function LocalAfterAll(chunkSize: nat, maxBlock: nat, maxPending: nat, local: nat, blocks: seq<bytes>): nat
    decreases |blocks|
  {
    if blocks == [] then local
    else LocalAfterAll(chunkSize, maxBlock, maxPending,
                       LocalAfter(chunkSize, maxBlock, maxPending, local, blocks[0]), blocks[1..])
  }

  /** Making room does not move the writer of an intact queue. */
  lemma WriterMoved(s: State, block: bytes, drained: State, accepted: bool, t: State)
    requires s.Sane() && s.Contents().Some? && drained.Sane() && MadeRoom(s, block, drained)
    requires accepted <==> s.maxPending == 0 || |block| + HEADER <= s.maxPending
    requires if accepted then BlockWritten(drained, block, t) else t == drained
    ensures t.writerLocal == LocalAfter(s.chunkSize, s.maxBlock, s.maxPending, s.writerLocal, block)
  {
  }

  /** A queue that does not decode has pending bytes. */
  lemma DamagedIsPending(s: State)
    requires s.Sane() && s.Contents().None?
    ensures s.readerOffset < s.writerOffset
  {
    if s.readerOffset == s.writerOffset {
      EmptyIsAtWriter(s);
    }
  }

  /** A reader at the writer's offset is in the writer's chunk, and the queue is empty. */
  lemma EmptyIsAtWriter(s: State)
    requires s.Sane() && s.readerOffset == s.writerOffset
    ensures s.readerPath == s.writerPath && s.Contents() == Some([])
  {
    ChunkEndsInQueue(s);
  }

  /** Where draining for `room` has got to: some of the entries that have to go are gone. */
  ghost predicate DrainedTo(s: State, room: nat, cur: State)
    requires s.View().Sized()
  {
    && SameSizes(s, cur)
    && (s.Contents().Some? ==>
          && SameWriter(s, cur) && cur.Contents().Some?
          && var entries, rest := s.Contents().value, cur.Contents().value;
          && |rest| <= |entries| && rest == entries[|entries| - |rest|..]
          && ToDrop(entries, s.readerOffset, s.writerOffset, room)
             == |entries| - |rest| + ToDrop(rest, cur.readerOffset, s.writerOffset, room))
  }

  lemma OneDrained(s: State, room: nat, cur: State, outcome: ReadOutcome, block: bytes, t: State)
    requires s.View().Sized() && DrainedTo(s, room, cur) && cur.Sane() && cur.Pending() > room
    requires ReadMeans(cur, outcome, block, t) && (cur.Contents().Some? ==> outcome == Block)
    ensures DrainedTo(s, room, t)
    ensures outcome == Block ==> t.Pending() < cur.Pending()
    ensures outcome == Empty ==> t.Pending() == 0
  {
    if s.Contents().Some? {
      var entries, rest := s.Contents().value, cur.Contents().value;
      assert rest[1..] == entries[|entries| - |rest| + 1..];
    }
  }
}
