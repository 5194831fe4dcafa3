/**
 Opening the persistent queue from its directory (`must_open_internal` and `try_opening_queue`
 in crates/esl-agent/src/persistentqueue.rs), and what closing and opening again keeps.

 The directory is a map from chunk offset to bytes. Files with other names are skipped by the
 source and are not part of the map. The parsing of metainfo is not part of this model.
 */
module QueueOpen {
  import opened Bytes
  import opened QueueLayout
  import opened QueueModel
  import opened PersistentQueue

  /** The offset of the chunk that holds queue offset `x`. */
  function ChunkOf(chunkSize: nat, x: nat): nat
    requires chunkSize > 0
  {
    x - x % chunkSize
  }

  lemma {:induction false} ChunkOfIsAligned(c: nat, x: nat)
    requires c > 0
    ensures Aligned(c, ChunkOf(c, x))
  {
    if c <= x {
      ChunkOfIsAligned(c, x - c);
      ModShift(c, x - c);
    }
  }

  lemma OnlyChunkOf(c: nat, x: nat, k: nat)
    requires c > 0 && k % c == 0 && k <= x < k + c
    ensures k == ChunkOf(c, x)
  {
    AlignedMeansMultiple(c, k);
    LocalOffset(c, k, x - k);
  }

  /** Is the chunk that `x` falls into there, and does it reach up to `x`? */
  predicate Reaches(chunkSize: nat, files: map<nat, bytes>, x: nat)
    requires chunkSize > 0
  {
    ChunkOf(chunkSize, x) in files && x % chunkSize <= |files[ChunkOf(chunkSize, x)]|
  }

  /** The chunk at `k` is the one queue offset `x` falls into, and reaches up to it. */
  predicate EndsIn(chunkSize: nat, files: map<nat, bytes>, x: nat, k: nat)
    requires chunkSize > 0
  {
    k in files && k % chunkSize == 0 && k <= x < k + chunkSize && x % chunkSize <= |files[k]|
  }

  lemma EndsInMeans(c: nat, files: map<nat, bytes>, x: nat, k: nat)
    requires c > 0
    ensures EndsIn(c, files, x, k) <==> k == ChunkOf(c, x) && Reaches(c, files, x)
  {
    ChunkOfIsAligned(c, x);
    AlignedMeansMultiple(c, ChunkOf(c, x));
    if EndsIn(c, files, x, k) {
      OnlyChunkOf(c, x, k);
    }
  }

  /** What becomes of one chunk file on opening. */
  predicate Keeps(chunkSize: nat, files: map<nat, bytes>, mi: Metainfo, k: nat)
    requires chunkSize > 0
  {
    && k in files && k % chunkSize == 0 && mi.readerOffset < k + chunkSize && k <= mi.writerOffset
    && (k <= mi.readerOffset ==> EndsIn(chunkSize, files, mi.readerOffset, k))
    && (mi.writerOffset < k + chunkSize ==> EndsIn(chunkSize, files, mi.writerOffset, k))
  }

  /** The files other than the rejected ones among `seen`. */
  ghost predicate KeptSoFar(chunkSize: nat, files: map<nat, bytes>, mi: Metainfo, seen: set<nat>, kept: map<nat, bytes>)
    requires chunkSize > 0
  {
    && (forall k :: k in kept ==> k in files && kept[k] == files[k])
    && (forall k :: k in files ==> (k in kept <==> (k in seen ==> Keeps(chunkSize, files, mi, k))))
  }

  lemma KeptStep(c: nat, files: map<nat, bytes>, mi: Metainfo, seen: set<nat>, kept: map<nat, bytes>, k: nat)
    requires c > 0 && k in files && k !in seen && KeptSoFar(c, files, mi, seen, kept)
    ensures KeptSoFar(c, files, mi, seen + {k}, if Keeps(c, files, mi, k) then kept else kept - {k})
  {
  }

  /** One of the chunks seen is the one that `x` falls into. */
  ghost predicate Found(c: nat, files: map<nat, bytes>, x: nat, seen: set<nat>)
    requires c > 0
  {
    exists k :: k in seen && EndsIn(c, files, x, k)
  }

  lemma FoundStep(c: nat, files: map<nat, bytes>, x: nat, seen: set<nat>, k: nat)
    requires c > 0
    ensures Found(c, files, x, seen + {k}) <==> Found(c, files, x, seen) || EndsIn(c, files, x, k)
  {
    assert k in seen + {k};
    if Found(c, files, x, seen) {
      var j :| j in seen && EndsIn(c, files, x, j);
      assert j in seen + {k};
    }
  }

  lemma FoundMeans(c: nat, files: map<nat, bytes>, x: nat)
    requires c > 0
    ensures Found(c, files, x, files.Keys) <==> Reaches(c, files, x)
  {
    EndsInMeans(c, files, x, ChunkOf(c, x));
    if Found(c, files, x, files.Keys) {
      var k :| k in files.Keys && EndsIn(c, files, x, k);
      EndsInMeans(c, files, x, k);
    }
  }

  /** If the reader's and the writer's offsets fall into one chunk that reaches the latter, it reaches the former. */
  lemma ReachesEarlier(c: nat, files: map<nat, bytes>, x: nat, y: nat, k: nat)
    requires c > 0 && k <= x <= y && EndsIn(c, files, y, k)
    ensures EndsIn(c, files, x, k)
  {
    AlignedMeansMultiple(c, k);
    LocalOffset(c, k, x - k);
    LocalOffset(c, k, y - k);
  }

  /**
   Finds the chunks of the reader and of the writer and removes the chunk files that cannot
   belong to the queue. The outcome does not depend on the order of the listing.
   */
  method LocateChunks(chunkSize: nat, files: map<nat, bytes>, mi: Metainfo, listing: seq<nat>)
    returns (kept: map<nat, bytes>, reader: bool, writer: bool)
    requires chunkSize > 0 && mi.readerOffset <= mi.writerOffset
    requires IsListing(listing, files)
    ensures KeptSoFar(chunkSize, files, mi, files.Keys, kept)
    ensures reader <==> Reaches(chunkSize, files, mi.readerOffset)
    ensures writer <==> Reaches(chunkSize, files, mi.writerOffset)
  {
    kept, reader, writer := files, false, false;
    ghost var seen: set<nat> := {};
    for i := 0 to |listing|
      invariant seen == Listed(listing[..i])
      invariant Located(chunkSize, files, mi, seen, kept, reader, writer)
    {
      var offset := listing[i];
      NextListed(listing, i);
      var ok, isReader, isWriter := ClassifyChunk(chunkSize, files, mi, offset);
      LocatedStep(chunkSize, files, mi, seen, kept, reader, writer, offset);
      if !ok {
        kept := kept - {offset};
      }
      reader, writer := reader || isReader, writer || isWriter;
      seen := seen + {offset};
    }
    assert listing[..|listing|] == listing;
    assert seen == files.Keys;
    FoundMeans(chunkSize, files, mi.readerOffset);
    FoundMeans(chunkSize, files, mi.writerOffset);
  }

  /** What is known once the chunks in `seen` have been looked at. */
  ghost predicate Located(c: nat, files: map<nat, bytes>, mi: Metainfo, seen: set<nat>,
                          kept: map<nat, bytes>, reader: bool, writer: bool)
    requires c > 0
  {
    && KeptSoFar(c, files, mi, seen, kept)
    && (reader <==> Found(c, files, mi.readerOffset, seen))
    && (writer <==> Found(c, files, mi.writerOffset, seen))
  }

  lemma LocatedStep(c: nat, files: map<nat, bytes>, mi: Metainfo, seen: set<nat>,
                    kept: map<nat, bytes>, reader: bool, writer: bool, k: nat)
    requires c > 0 && k in files && k !in seen && Located(c, files, mi, seen, kept, reader, writer)
    ensures Located(c, files, mi, seen + {k}, if Keeps(c, files, mi, k) then kept else kept - {k},
                    reader || EndsIn(c, files, mi.readerOffset, k), writer || EndsIn(c, files, mi.writerOffset, k))
  {
    KeptStep(c, files, mi, seen, kept, k);
    FoundStep(c, files, mi.readerOffset, seen, k);
    FoundStep(c, files, mi.writerOffset, seen, k);
  }

  /** A directory listing names every file once, in any order. */
  ghost function Listed(listing: seq<nat>): set<nat> {
    set k | k in listing
  }

  lemma NextListed(listing: seq<nat>, i: nat)
    requires i < |listing| && forall j, k :: 0 <= j < k < |listing| ==> listing[j] != listing[k]
    ensures listing[i] !in Listed(listing[..i]) && Listed(listing[..i + 1]) == Listed(listing[..i]) + {listing[i]}
  {
    assert listing[..i + 1] == listing[..i] + [listing[i]];
  }

  ghost predicate IsListing(listing: seq<nat>, files: map<nat, bytes>) {
    && (forall k :: k in listing <==> k in files)
    && (forall i, j :: 0 <= i < j < |listing| ==> listing[i] != listing[j])
  }

  method ClassifyChunk(chunkSize: nat, files: map<nat, bytes>, mi: Metainfo, offset: nat)
    returns (keep: bool, reader: bool, writer: bool)
    requires chunkSize > 0 && mi.readerOffset <= mi.writerOffset && offset in files
    ensures keep <==> Keeps(chunkSize, files, mi, offset)
    ensures reader <==> EndsIn(chunkSize, files, mi.readerOffset, offset)
    ensures writer <==> EndsIn(chunkSize, files, mi.writerOffset, offset)
  {
    keep, reader, writer := false, false, false;
    if EndsIn(chunkSize, files, mi.writerOffset, offset) && offset <= mi.readerOffset {
      ReachesEarlier(chunkSize, files, mi.readerOffset, mi.writerOffset, offset);
    }
    if offset % chunkSize != 0 {
      return;
    }
    if mi.readerOffset >= offset + chunkSize {
      return;
    }
    if mi.writerOffset < offset {
      return;
    }
    if mi.readerOffset >= offset && mi.readerOffset < offset + chunkSize {
      if |files[offset]| < mi.readerOffset % chunkSize {
        return;
      }
      reader := true;
    }
    if mi.writerOffset >= offset && mi.writerOffset < offset + chunkSize {
      if |files[offset]| < mi.writerOffset % chunkSize {
        return;
      }
      writer := true;
    }
    keep := true;
  }

  // ----- closing and opening again

  function Recorded(s: State): Metainfo {
    Metainfo(s.readerOffset, s.writerOffset)
  }

  /** The state of a queue whose reader and writer chunks have been found. */
  function Opened(chunkSize: nat, maxBlock: nat, maxPending: nat, kept: map<nat, bytes>, mi: Metainfo): State
    requires chunkSize > 0 && ChunkOf(chunkSize, mi.writerOffset) in kept
  {
    var wp := ChunkOf(chunkSize, mi.writerOffset);
    State(chunkSize, maxBlock, maxPending, kept - {wp}, kept[wp], [],
          ChunkOf(chunkSize, mi.readerOffset), mi.readerOffset, mi.readerOffset % chunkSize,
          wp, mi.writerOffset, mi.writerOffset % chunkSize, mi.writerOffset)
  }

  /** The state that opening restores: a reader at the very end of its chunk has moved to the next. */
  ghost function Restored(s: State): State
    requires s.Sane() && s.writerLocal < s.chunkSize
  {
    if s.readerLocal < s.chunkSize then
      Flush(s)
    else
      ReaderChunkFound(s);
      NextChunkMeans(s);
      Flush(NextToRead(s).value)
  }

  /** The writer's chunk is found again unless the last write filled it exactly. */
  lemma WriterChunkFound(s: State)
    requires s.Sane()
    ensures Reaches(s.chunkSize, s.View().chunks, s.writerOffset) <==> s.writerLocal < s.chunkSize
    ensures s.writerLocal < s.chunkSize ==>
              ChunkOf(s.chunkSize, s.writerOffset) == s.writerPath && s.writerOffset % s.chunkSize == s.writerLocal
    ensures s.writerLocal == s.chunkSize ==> ChunkOf(s.chunkSize, s.writerOffset) !in s.View().chunks
  {
    ContiguousAligned(s.chunks, s.chunkSize, s.readerPath, s.writerPath);
    LocalOffset(s.chunkSize, s.writerPath, s.writerLocal);
  }

  /** The reader's chunk is then found too; it is the next one if the reader is at the very end of its chunk. */
  lemma ReaderChunkFound(s: State)
    requires s.Sane() && s.writerLocal < s.chunkSize
    ensures Reaches(s.chunkSize, s.View().chunks, s.readerOffset)
    ensures if s.readerLocal == s.chunkSize then
              && s.readerPath < s.writerPath
              && ChunkOf(s.chunkSize, s.readerOffset) == s.readerPath + s.chunkSize
              && s.readerOffset % s.chunkSize == 0
            else
              && ChunkOf(s.chunkSize, s.readerOffset) == s.readerPath
              && s.readerOffset % s.chunkSize == s.readerLocal
  {
    ChunkEndsInQueue(s);
    LocalOffset(s.chunkSize, s.readerPath, s.readerLocal);
    if s.readerLocal == s.chunkSize {
      NextIsThere(s);
    } else {
      FlushedMeans(s);
    }
  }

  lemma NextIsThere(s: State)
    requires s.Sane() && s.readerPath < s.writerPath
    ensures s.readerPath + s.chunkSize in s.View().chunks
  {
    assert Contiguous(s.chunks, s.chunkSize, s.readerPath + s.chunkSize, s.writerPath);
  }

  /** Only a chunk that has been read to its very end is removed on opening. */
  lemma KeptMeans(s: State, k: nat)
    requires s.Sane() && s.writerLocal < s.chunkSize && k in s.View().chunks
    ensures Keeps(s.chunkSize, s.View().chunks, Recorded(s), k)
            <==> !(s.readerLocal == s.chunkSize && k == s.readerPath)
  {
    WriterChunkFound(s);
    ReaderChunkFound(s);
    ContiguousAligned(s.chunks, s.chunkSize, s.readerPath, s.writerPath);
    AlignedMeansMultiple(s.chunkSize, k);
    EndsInMeans(s.chunkSize, s.View().chunks, s.readerOffset, k);
    EndsInMeans(s.chunkSize, s.View().chunks, s.writerOffset, k);
    if s.readerPath < k {
      AlignedApart(s.chunkSize, s.readerPath, k);
    }
    if k < s.writerPath {
      AlignedApart(s.chunkSize, k, s.writerPath);
    }
  }

  /** Opening finds the state that was closed. */
  lemma OpenedIsRestored(s: State, kept: map<nat, bytes>)
    requires s.Sane() && s.writerLocal < s.chunkSize
    requires KeptSoFar(s.chunkSize, s.View().chunks, Recorded(s), s.View().chunks.Keys, kept)
    ensures s.writerPath in kept && ChunkOf(s.chunkSize, s.writerOffset) == s.writerPath
    ensures Opened(s.chunkSize, s.maxBlock, s.maxPending, kept, Recorded(s)) == Restored(s)
  {
    WriterChunkFound(s);
    ReaderChunkFound(s);
    KeptChunks(s, kept);
    if s.readerLocal == s.chunkSize {
      NextChunkMeans(s);
    }
  }

  /** Beside the writer's chunk, all chunks are kept but one that the reader has finished. */
  lemma KeptChunks(s: State, kept: map<nat, bytes>)
    requires s.Sane() && s.writerLocal < s.chunkSize
    requires KeptSoFar(s.chunkSize, s.View().chunks, Recorded(s), s.View().chunks.Keys, kept)
    ensures s.writerPath in kept && kept[s.writerPath] == s.disk + s.buf
    ensures kept - {s.writerPath} == if s.readerLocal == s.chunkSize then s.chunks - {s.readerPath} else s.chunks
  {
    ReaderChunkFound(s);
    forall k | k in s.View().chunks
      ensures k in kept <==> !(s.readerLocal == s.chunkSize && k == s.readerPath)
    {
      KeptMeans(s, k);
    }
    assert s.disk + s.buf == s.View().chunks[s.writerPath];
    if s.readerLocal == s.chunkSize {
      assert kept - {s.writerPath} == s.chunks - {s.readerPath};
    } else {
      assert kept - {s.writerPath} == s.chunks;
    }
  }

  /** Restoring keeps the contents, intact or not, and both offsets. */
  lemma RestoredMeans(s: State)
    requires s.Sane() && s.writerLocal < s.chunkSize
    ensures var t := Restored(s);
            && t.Sane() && t.buf == [] && SameSizes(s, t) && t.Contents() == s.Contents()
            && t.readerOffset == s.readerOffset && t.writerOffset == s.writerOffset
  {
    if s.readerLocal == s.chunkSize {
      ReaderChunkFound(s);
      NextChunkMeans(s);
      FlushMeans(NextToRead(s).value);
    } else {
      FlushMeans(s);
    }
  }

  /** The state of a queue created in an empty directory. */
  function Created(chunkSize: nat, maxBlock: nat, maxPending: nat): State {
    State(chunkSize, maxBlock, maxPending, map[], [], [], 0, 0, 0, 0, 0, 0, 0)
  }

  lemma CreatedMeans(chunkSize: nat, maxBlock: nat, maxPending: nat)
    requires 1 <= maxBlock < U64_LIMIT && maxBlock + HEADER <= chunkSize
    ensures var s := Created(chunkSize, maxBlock, maxPending); s.Sane() && s.Contents() == Some([])
  {
  }

  /**
   Opens the queue whose closed state is `s`. Both chunks are looked for; if one is not found,
   the directory is cleaned up and an empty queue is created.
   */
  method MustOpen(chunkSize: nat, maxBlock: nat, maxPending: nat, bufferSize: nat,
                  files: map<nat, bytes>, mi: Metainfo, listing: seq<nat>, ghost s: State) returns (q: Queue)
    requires 1 <= maxBlock < U64_LIMIT && maxBlock + HEADER <= chunkSize && 0 < bufferSize
    requires s.Sane() && s.chunkSize == chunkSize && s.maxBlock == maxBlock && s.maxPending == maxPending
    requires files == s.View().chunks && mi == Recorded(s) && IsListing(listing, files)
    ensures fresh(q) && q.Valid() && q.bufferSize == bufferSize
    ensures q.Snapshot() == if s.writerLocal < chunkSize then Restored(s) else Created(chunkSize, maxBlock, maxPending)
  {
    var kept, reader, writer := LocateChunks(chunkSize, files, mi, listing);
    WriterChunkFound(s);
    if reader && writer {
      ReaderChunkFound(s);
      OpenedIsRestored(s, kept);
      RestoredMeans(s);
      q := new Queue.At(Opened(chunkSize, maxBlock, maxPending, kept, mi), bufferSize);
    } else {
      if s.writerLocal < chunkSize {
        ReaderChunkFound(s);
      }
      CreatedMeans(chunkSize, maxBlock, maxPending);
      q := new Queue.At(Created(chunkSize, maxBlock, maxPending), bufferSize);
    }
  }

  /**
   Closing and opening again keeps the contents exactly if the last write did not fill its chunk
   or there is nothing to lose.
   */
  method Reopen(q: Queue, listing: seq<nat>) returns (p: Queue)
    requires q.Valid() && IsListing(listing, q.Snapshot().View().chunks)
    modifies q
    ensures fresh(p) && p.Valid()
    ensures p.Snapshot().Contents() == old(q.Snapshot().Contents())
            <==> old(q.writerLocal < q.chunkSize || q.Snapshot().Contents() == Some([]))
    ensures old(q.writerLocal < q.chunkSize) ==>
              p.readerOffset == old(q.readerOffset) && p.writerOffset == old(q.writerOffset)
    ensures old(q.writerLocal == q.chunkSize) ==>
              p.Snapshot().Contents() == Some([]) && p.readerOffset == p.writerOffset == 0
  {
    ghost var s := q.Snapshot();
    var files := q.Close();
    p := MustOpen(q.chunkSize, q.maxBlock, q.maxPending, q.bufferSize, files, q.metainfo, listing, s);
    if s.writerLocal < s.chunkSize {
      RestoredMeans(s);
    } else {
      CreatedMeans(s.chunkSize, s.maxBlock, s.maxPending);
    }
  }

  /** A chunk that holds just one block of the greatest size, as `Created` then a write leave it. */
  function Filled(block: bytes): State {
    Created(|block| + HEADER, |block|, 0).(
      disk := Frame(block), writerLocal := |block| + HEADER, writerOffset := |block| + HEADER)
  }

  /** Its block is queued, but opening does not find the chunk to write to and the block is lost. */
  lemma FilledChunkIsLost(block: bytes)
    requires 1 <= |block| < U64_LIMIT
    ensures var s := Filled(block);
            && BlockWritten(Created(s.chunkSize, s.maxBlock, 0), block, s)
            && s.Sane() && s.Contents() == Some([Entry(block, |block| + HEADER)])
            && !Reaches(s.chunkSize, s.View().chunks, s.writerOffset)
  {
    var t := Filled(block);
    CreatedMeans(t.chunkSize, t.maxBlock, 0);
    WrittenInChunk(Created(t.chunkSize, t.maxBlock, 0), block, t);
    var e := Entry(block, |block| + HEADER);
    assert [] + [e] == [e];
    WriterChunkFound(t);
  }
}
