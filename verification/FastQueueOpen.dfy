/**
 Closing the fast queue and opening it again (`must_close` and `must_open_fast_queue` in
 crates/esl-agent/src/persistentqueue.rs).
 */
module FastQueueOpen {
  import opened Bytes
  import opened QueueOpen
  import opened QueueRuns
  import FQ = FastQueue
  import Files = QueueModel
  import Machine = FastQueueModel

  /** Lists a directory, in any order. */
  method List(files: map<nat, bytes>) returns (listing: seq<nat>)
    ensures IsListing(listing, files)
  {
    listing := [];
    var left := files.Keys;
    while left != {}
      invariant left <= files.Keys
      invariant forall k :: k in listing <==> k in files.Keys - left
      invariant forall i, j :: 0 <= i < j < |listing| ==> listing[i] != listing[j]
      decreases |left|
    {
      var k :| k in left;
      listing := listing + [k];
      left := left - {k};
    }
  }

  /** The closed queue comes back, unless the writer had filled its chunk; then the queue is empty. */
  lemma ReopenedContents(s: Files.State, t: Files.State)
    requires s.Sane() && s.Contents().Some?
    requires t == if s.writerLocal < s.chunkSize then Restored(s) else Created(s.chunkSize, s.maxBlock, s.maxPending)
    ensures t.Sane() && t.Contents().Some?
    ensures Blocks(t.Contents().value) == Blocks(s.Contents().value)
            <==> s.writerLocal < s.chunkSize || Blocks(s.Contents().value) == []
    ensures s.writerLocal >= s.chunkSize ==> Blocks(t.Contents().value) == []
  {
    if s.writerLocal < s.chunkSize {
      RestoredMeans(s);
    } else {
      CreatedMeans(s.chunkSize, s.maxBlock, s.maxPending);
    }
  }

  /**
   Closes the queue and opens it again. Its contents, but for the oldest blocks that a disk limit
   drops in the flush, are kept exactly if the writer will not have filled its chunk once it has
   written the blocks in memory, or if there are none. Otherwise the queue is empty.
   */
  method Reopen(fq: FQ.FastQueue, now: nat, due: bool)
    returns (again: FQ.FastQueue, ghost lost: nat)
    requires fq.Valid()
    modifies fq, fq.pq
    ensures again.Valid() && again.ch == []
    ensures fq.pq.maxPending == 0 ==> lost == 0
    ensures var flushed := Machine.Without(old(fq.View().Contents()), lost);
            var filled := fq.LocalAfter(old(fq.ch), old(fq.pq.writerLocal)) >= fq.pq.chunkSize;
            && (again.View().Contents() == flushed <==> !filled || flushed == [])
            && (filled ==> again.View().Contents() == [])
    ensures fq.pq.maxPending == 0 ==>
              (again.View().Contents() == old(fq.View().Contents())
               <==> old(fq.LocalAfter(fq.ch, fq.pq.writerLocal)) < fq.pq.chunkSize || old(fq.View().Contents()) == [])
  {
    var files;
    ghost var closed;
    files, closed, lost := fq.MustClose(now, due);
    var listing := List(files);
    var pq := MustOpen(fq.pq.chunkSize, fq.pq.maxBlock, fq.pq.maxPending, fq.pq.bufferSize,
                       files, fq.pq.metainfo, listing, closed);
    ReopenedContents(closed, pq.Snapshot());
    again := new FQ.FastQueue(pq, fq.capacity, fq.disabled, now);
  }
}
