/** Whole runs of the persistent queue against a plain FIFO queue of blocks. */
module QueueRuns {
  import opened Bytes
  import opened QueueLayout
  import opened QueueModel
  import opened PersistentQueue

  datatype Op = WriteOp(block: bytes, due: bool) | ReadOp | ResetOp

  /** A run of a plain queue: the blocks read, and the blocks left. */
  function Fifo(queue: seq<bytes>, ops: seq<Op>): (r: (seq<bytes>, seq<bytes>))
    decreases |ops|
  {
    if ops == [] then ([], queue) else
    match ops[0]
    case WriteOp(block, _) => Fifo(queue + [block], ops[1..])
    case ResetOp => Fifo(queue, ops[1..])
    case ReadOp =>
      if queue == [] then Fifo(queue, ops[1..])
      else var r := Fifo(queue[1..], ops[1..]); ([queue[0]] + r.0, r.1)
  }

  function Written(ops: seq<Op>): seq<bytes> {
    if ops == [] then []
    else (match ops[0] case WriteOp(block, _) => [block] case _ => []) + Written(ops[1..])
  }

  /** Everything written comes out once, in order, or is still there. */
  lemma {:induction false} FifoConserves(queue: seq<bytes>, ops: seq<Op>)
    ensures var (out, left) := Fifo(queue, ops); queue + Written(ops) == out + left
    decreases |ops|
  {
    if ops != [] {
      match ops[0]
      case WriteOp(block, _) =>
        FifoConserves(queue + [block], ops[1..]);
        assert queue + [block] + Written(ops[1..]) == queue + Written(ops);
      case ResetOp =>
        FifoConserves(queue, ops[1..]);
        assert [] + Written(ops[1..]) == Written(ops[1..]);
      case ReadOp =>
        assert [] + Written(ops[1..]) == Written(ops[1..]);
        if queue == [] {
          FifoConserves(queue, ops[1..]);
        } else {
          FifoConserves(queue[1..], ops[1..]);
          var r := Fifo(queue[1..], ops[1..]);
          assert queue + Written(ops[1..]) == [queue[0]] + (queue[1..] + Written(ops[1..]));
          assert [queue[0]] + r.0 + r.1 == [queue[0]] + (r.0 + r.1);
        }
    }
  }

  ghost function Blocks(entries: seq<Entry>): (b: seq<bytes>)
    ensures |b| == |entries| && forall i :: 0 <= i < |b| ==> b[i] == entries[i].data
  {
    seq(|entries|, i requires 0 <= i < |entries| => entries[i].data)
  }

  /** An intact queue holding exactly these blocks. */
  ghost predicate Holds(q: Queue, blocks: seq<bytes>)
    reads q
  {
    q.Valid() && q.Snapshot().Contents().Some? && blocks == Blocks(q.Snapshot().Contents().value)
  }

  /**
   With no size limit, every interleaving of writes, reads and resets behaves as a plain queue,
   across any number of chunks.
   */
  method Run(q: Queue, ops: seq<Op>, ghost blocks: seq<bytes>) returns (out: seq<bytes>, ghost left: seq<bytes>)
    requires Holds(q, blocks) && q.maxPending == 0
    requires forall i :: 0 <= i < |ops| && ops[i].WriteOp? ==> 1 <= |ops[i].block| <= q.maxBlock
    modifies q
    ensures (out, left) == Fifo(blocks, ops) && Holds(q, left)
    decreases |ops|
  {
    if ops == [] {
      return [], blocks;
    }
    match ops[0] {
      case WriteOp(block, due) =>
        WriteOne(q, block, due, blocks);
        out, left := Run(q, ops[1..], blocks + [block]);
      case ResetOp =>
        q.ResetIfEmpty();
        out, left := Run(q, ops[1..], blocks);
      case ReadOp =>
        var got, first := ReadOne(q, blocks);
        if got {
          out, left := Run(q, ops[1..], blocks[1..]);
          out := [first] + out;
        } else {
          out, left := Run(q, ops[1..], blocks);
        }
    }
  }

  method WriteOne(q: Queue, block: bytes, due: bool, ghost blocks: seq<bytes>)
    requires Holds(q, blocks) && q.maxPending == 0 && 1 <= |block| <= q.maxBlock
    modifies q
    ensures Holds(q, blocks + [block])
  {
    var outcome := q.MustWriteBlock(block, due);
  }

  method ReadOne(q: Queue, ghost blocks: seq<bytes>) returns (got: bool, block: bytes)
    requires Holds(q, blocks)
    modifies q
    ensures got <==> blocks != []
    ensures if got then block == blocks[0] && Holds(q, blocks[1..]) else Holds(q, blocks)
  {
    EmptyMeansNothingPending(q.Snapshot());
    var outcome, result, b := q.ReadBlockNonblocking([]);
    got, block := outcome == Block, b;
  }

  /**
   Corruption can get the reader stuck. In this chunk the writer wrote two blocks of 8 bytes;
   the header of the second has been overwritten to say 1. Reading both puts the reader into the
   padding of the writer's chunk, before the writer, where the next read panics.
   */
  lemma CorruptionCanGetStuck(disk: bytes)
    requires |disk| == 32
    requires FromBigEndian(disk[0..8]) == 8 && FromBigEndian(disk[16..24]) == 1
    ensures var s := State(32, 8, 0, map[], disk, [], 0, 0, 0, 0, 32, 32, 32);
            var first := s.(readerOffset := 16, readerLocal := 16);
            var t := s.(readerOffset := 25, readerLocal := 25);
            && s.Sane() && t.Sane() && t.readerOffset < t.writerOffset && t.Stuck()
            && TriedBlock(s, true, disk[8..16], first)
            && TriedBlock(first, true, disk[24..25], t)
  {
    var s := State(32, 8, 0, map[], disk, [], 0, 0, 0, 0, 32, 32, 32);
    assert disk + [] == disk;
    assert s.View().chunks[0] == disk;
  }
}
