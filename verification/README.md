# Verified model of the eslogs agent

This project models the parts of eslogs that move log data without losing it, and proves what
they promise. It follows the Rust sources of the `esl-agent` and `esl-common` crates.

- **Disk queue** (`Bytes`, `FileStream`, `QueueLayout`, `QueueModel`, `PersistentQueue`, `QueueOpen`,
  `QueueRuns`): the byte-offset queue over chunk files. `QueueLayout.Decode` says independently of
  the code what chunk files contain; the class `Queue` is proved to read and write that.
- **Fast queue** (`FastQueueModel`, `FastQueue`, `FastQueueOpen`): memory blocks in front of the disk
  queue, with readers that sleep and are woken. The model is a state machine over atomic steps; the
  class refines it on top of the disk queue's class.
- **Protobuf codec** (`WireFormat`, `ProtoReader`, `ProtoValues`, `ProtoTable`, `ProtoArena`,
  `ProtoMarshaler`, `ProtoTree`): the reader, and the marshaler with its index-linked arena, against a
  recursive encoder of message trees; signed and narrow numbers; decoding whole trees.
- **Tailing** (`LineFraming`, `TailModel`, `Tail`, `TailResume`): cutting a file into lines over read
  boundaries, checkpoints and resuming.
- **Kubernetes collector** (`ChunkSize`, `ChunkText`, `ChunkedDecoder`, `CriLine`, `CriJoiner`,
  `CivilDates`, `Klog`): chunked transfer decoding, joining split log messages, civil dates and the year of klog
  lines.
- **Decimal blocks** (`Integers`, `Decimal`): bringing two blocks of mantissas to one exponent in place.
- **Remote write** (`RateLimiter`, `RemoteWriteModel`, `RemoteWrite`, `RemoteWriteQueue`): the
  throughput bound, and where every row is at every moment until the agent has stopped.

Code that updates fields is modelled by classes and methods, and each is proved against functions
and predicates on values; the laws are proved of those. Threads are atomic steps of a state
machine, or methods that let others run exactly where the source gives up a lock.

## Where the source falls short

Each of these is a law that a reader would expect, an input for which the code does not meet it,
and the exact condition under which it does.

- Closing and opening a queue keeps its contents unless the last write filled its chunk exactly and
  the queue is not empty (`QueueOpen.Reopen`, `QueueOpen.FilledChunkIsLost`, `FastQueueOpen.Reopen`).
- A read recovers from any corruption unless a damaged length has led the reader into the padding
  of the writer's chunk; then it panics (`Queue.ReadBlock`, `FastQueue.MustReadDamaged`,
  `QueueRuns.CorruptionCanGetStuck`).
- An empty block is accepted and makes the queue unreadable from there on (`QueueLayout.DecodeAppend`).
- `marshal_with_len` is documented to write a length-delimited message, and writes nothing if the
  root message exists without fields (`Marshaler.MarshalWithLen`). The model follows the code.
- A chunk size line is rejected if its extensions are not UTF-8, although section 7.1.1 of RFC 9112
  allows such bytes in quoted values (`ChunkedDecoder.BodyDecodes`, `ChunkedDecoder.OpaqueExtensionIsRejected`).
- A chunk size line is accepted with white space of any kind around the number and with a plus sign, which
  the standard does not allow (`ChunkText.ParseHexExactly`, `ChunkText.LenientSize`).
- A split log message that starts with a fragment over the limit is emitted without its start. The
  tailer hands over no line of that length (`CriJoiner.JoinedMeans`, `CriJoiner.LargeFragmentIsForgotten`).
- A klog line of January 1 that is read on the last day of the year before gets the year that is
  ending (`Klog.ChosenIsLatest`, `Klog.NextYearIsFirstDay`, `Klog.NewYearIsPutBack`).
- Exponents that differ by more than 32767 wrap around in 16 bits, and values out of reach change
  (`Decimal.HigherBlock`, `Decimal.FarExponentsLoseValues`). In builds with overflow checks the same
  subtraction panics.

## Model

| member | source | states |
|---|---|---|
| `Bytes.BigEndianRoundTrip` | crates/esl-common/src/encoding.rs:547-556 | An unsigned number that fits `k` bytes is read back from its big-endian bytes; block lengths are stored so. |
| `Bytes.BigEndianAt` | crates/esl-common/src/encoding.rs:547-556 | The most significant byte comes first: byte `i` of `k` is the number divided by 256 to the power of `k - 1 - i`, modulo 256. |
| `Bytes.FromBigEndianIs` | crates/esl-common/src/encoding.rs:547-556 | Big-endian bytes are read as the sum of the bytes, each times the power of 256 of how many follow it. |
| `Bytes.LittleEndianAt` | crates/esl-common/src/easyproto.rs:1069-1083 | In a fixed field the least significant byte comes first: byte `i` is the number divided by 256 to the power of `i`, modulo 256. |
| `Bytes.FromLittleEndianIs` | crates/esl-common/src/easyproto.rs:180-194 | Fixed fields are read as the sum of the bytes, each times the power of 256 of how many come before it. |
| `FileStream.FlushBuf` | crates/esl-common/src/filestream.rs:406-418 | The file ends with what was buffered and the buffer is empty. |
| `FileStream.WriteBuffered` | crates/esl-common/src/filestream.rs:434-455 | File and buffer together grow by exactly the bytes written, the file only grows, and the buffer never stays full. |
| `FileStream.ReadBuffered` | crates/esl-common/src/filestream.rs:228-256 | Returns bytes of the file from the reader's position on and moves the position behind them; it returns none exactly at the end of the file. |
| `FileStream.ReadExact` | crates/esl-agent/src/persistentqueue.rs:433-437 | Reads `n` bytes from the position exactly if the file has that many, however the reads below it are cut. |
| `FileStream.ValidOnceGrown` | crates/esl-common/src/filestream.rs:228-256 | A reader's buffer stays true to the file when the file grows. |
| `QueueLayout.DecodeAppend` | crates/esl-agent/src/persistentqueue.rs:243-271 | Appending a non-empty block adds exactly that block at the end of what the chunk files decode to; appending an empty one makes them undecodable. |
| `QueueLayout.DecodeExtend` | crates/esl-agent/src/persistentqueue.rs:324-383 | When the files only grow behind the writer, everything readable stays readable and what is new follows it. |
| `QueueLayout.DecodeFrame` | crates/esl-agent/src/persistentqueue.rs:396-413 | What is decoded from a chunk on depends on no earlier chunk, so removing read chunks changes nothing. |
| `QueueLayout.PendingCoversBlocks` | crates/esl-agent/src/persistentqueue.rs:146-155 | The distance between reader and writer covers the lengths and headers of all queued blocks and is zero exactly if there is none. |
| `QueueLayout.LocalOffset` | crates/esl-agent/src/persistentqueue.rs:273-291 | An offset modulo the chunk size is the offset within the chunk, and zero at a chunk's end. |
| `QueueLayout.FrameOnDisk` | crates/esl-agent/src/persistentqueue.rs:249-271 | On disk a block is eight bytes of its length, most significant first, and its bytes. |
| `QueueLayout.NoRoomExactly` | crates/esl-agent/src/persistentqueue.rs:244-247 | The writer changes chunks exactly if some block of at most the maximal size would not fit with its header. |
| `QueueLayout.BlockOnDisk` | crates/esl-agent/src/persistentqueue.rs:337-376 | A block is found at a position exactly if eight big-endian bytes there are its length, that is from 1 to the maximal size, and its bytes follow. |
| `QueueModel.FlushForMeans` | crates/esl-agent/src/persistentqueue.rs:433-445 | Flushing the writer before a read changes neither offsets nor contents and puts every byte the read asks for on disk. |
| `QueueModel.ReadBytesMeans` | crates/esl-agent/src/persistentqueue.rs:433-445 | A read gives the chunk's bytes at the reading position and fails exactly if they end or the writer's offset comes first. |
| `QueueModel.NextChunkMeans` | crates/esl-agent/src/persistentqueue.rs:396-413 | Going to the next chunk succeeds exactly if the writer is beyond the current one; nothing of the later chunks is lost. |
| `QueueModel.SkipBrokenMeans` | crates/esl-agent/src/persistentqueue.rs:385-394 | Skipping a broken chunk either empties the queue, in which case reader and writer are in the same file, or goes on to the next chunk, which exists. |
| `QueueModel.ResetIsEmpty` | crates/esl-agent/src/persistentqueue.rs:113-143 | A reset queue is well formed and empty, with both offsets zero and no other chunk. |
| `QueueModel.BlockFound` | crates/esl-agent/src/persistentqueue.rs:344-381 | A block that is found is the oldest of an intact queue, and of a broken one no block of a later chunk is lost. |
| `QueueModel.ChunkSkipped` | crates/esl-agent/src/persistentqueue.rs:337-376 | A block is taken for corrupt only in a queue that is corrupt, and each skip moves the reader on. |
| `QueueModel.LeavingPadding` | crates/esl-agent/src/persistentqueue.rs:324-328 | The reader leaves the padding of a chunk for the chunk the writer went to, unless it is stuck in the writer's own chunk. |
| `QueueModel.PaddingSkipped` | crates/esl-agent/src/persistentqueue.rs:324-383 | Skipping padding does not change what a read returns: padding is never read as a block. |
| `QueueModel.RolloverMeans` | crates/esl-agent/src/persistentqueue.rs:273-291 | The writer goes on at the next multiple of the chunk size, less than a block and its header further, and the chunk it leaves is on disk. |
| `QueueModel.BlockAppended` | crates/esl-agent/src/persistentqueue.rs:243-271 | Writing a block, with a change of chunk where there is no room, appends it to the queue. |
| `QueueModel.ToDropIsLeast` | crates/esl-agent/src/persistentqueue.rs:204-225 | The number of blocks dropped for a limit is the least that leaves enough room. |
| `QueueModel.EmptyMeansNothingPending` | crates/esl-agent/src/persistentqueue.rs:146-155 | The queue is empty exactly if the offsets are equal. |
| `QueueModel.AcceptedWriteMeans` | crates/esl-agent/src/persistentqueue.rs:189-234 | After an accepted write the queue is the shortest suffix that had to stay and the new block; blocks with headers are within the limit and the offsets apart by less than the limit, a block and a header. |
| `QueueModel.RejectedWriteMeans` | crates/esl-agent/src/persistentqueue.rs:189-234 | A block that alone is over the limit is rejected and leaves the queue empty. |
| `QueueModel.WriterMoved` | crates/esl-agent/src/persistentqueue.rs:189-291 | Where in its chunk the writer of an intact queue is after a write depends only on where it was and on the sizes, whatever is dropped for a limit. |
| `QueueModel.AppendedFrom` | crates/esl-agent/src/persistentqueue.rs:236-271 | However damaged chunks are, a written block is found behind all that can be decoded from any position on; an empty one makes it undecodable. |
| `QueueModel.OneDrained` | crates/esl-agent/src/persistentqueue.rs:214-225 | Each block dropped to make room is the oldest, and dropping ends. |
| `PersistentQueue.Queue.ReadFullSlice` | crates/esl-agent/src/persistentqueue.rs:433-445 | Reads through the buffered reader what the specification reads from flushed files. |
| `PersistentQueue.Queue.TryBlock` | crates/esl-agent/src/persistentqueue.rs:337-381 | Succeeds exactly if a block of 1 to the maximal size is at the reading position, and returns it. |
| `PersistentQueue.Queue.NextChunkForRead` | crates/esl-agent/src/persistentqueue.rs:396-413 | Removes the read chunk and continues at the next multiple of the chunk size; fails if that is beyond the writer or missing. |
| `PersistentQueue.Queue.ResetFiles` | crates/esl-agent/src/persistentqueue.rs:113-143 | Removes the only chunk and starts again at offset zero; reader and writer are in the same file. |
| `PersistentQueue.Queue.SkipBroken` | crates/esl-agent/src/persistentqueue.rs:385-394 | Skips the rest of a chunk and keeps the queue well formed, whatever the chunk holds. |
| `PersistentQueue.Queue.ReadLoop` | crates/esl-agent/src/persistentqueue.rs:330-382 | Terminates on arbitrary bytes and never panics; returns a block or an empty queue. |
| `PersistentQueue.Queue.ReadBlock` | crates/esl-agent/src/persistentqueue.rs:324-383 | Returns the oldest block of an intact queue behind the bytes already in `dst`; panics exactly if a corrupt queue has left the reader in the padding of the writer's chunk. |
| `PersistentQueue.Queue.ReadBlockNonblocking` | crates/esl-agent/src/persistentqueue.rs:296-315 | As reading a block, and leaves an empty queue as it is. |
| `PersistentQueue.Queue.Write` | crates/esl-agent/src/persistentqueue.rs:415-427 | Appends the bytes to the writer's chunk and moves both of its offsets. |
| `PersistentQueue.Queue.NextChunkForWrite` | crates/esl-agent/src/persistentqueue.rs:273-291 | Closes the writer's chunk and continues in a new one at the next multiple of the chunk size. |
| `PersistentQueue.Queue.WriteBlock` | crates/esl-agent/src/persistentqueue.rs:236-271 | Appends the block to the queue; once a second it also flushes all that is buffered and records the offsets. |
| `PersistentQueue.Queue.Drain` | crates/esl-agent/src/persistentqueue.rs:204-225 | Drops the fewest oldest blocks that leave the given room; an intact queue never panics. |
| `PersistentQueue.Queue.MustWriteBlock` | crates/esl-agent/src/persistentqueue.rs:189-234 | Refines the specification of a write under a limit; on an intact queue it never panics and moves the writer as its sizes say. Without a limit it appends the block to any queue, damaged or not. |
| `PersistentQueue.Queue.ResetIfEmpty` | crates/esl-agent/src/persistentqueue.rs:101-111 | An empty queue that has come to 16 MiB starts again at offset zero, any other is left as it is; contents and pending bytes stay. |
| `PersistentQueue.Queue.Close` | crates/esl-agent/src/persistentqueue.rs:160-176 | Everything written is in the chunk files and the offsets are recorded. |
| `QueueRuns.FifoConserves` | crates/esl-agent/src/persistentqueue.rs:236-455 | Of a plain FIFO: what was queued and written is what was read and is left, in order. |
| `QueueRuns.Run` | crates/esl-agent/src/persistentqueue.rs:236-455 | Any interleaving of writes of 1 to the maximal size, reads and resets returns exactly what a plain FIFO returns, over any number of chunks. |
| `QueueRuns.CorruptionCanGetStuck` | crates/esl-agent/src/persistentqueue.rs:324-328 | For every chunk file with a certain damaged length two reads succeed and lead the reader into the padding of the writer's chunk, where the next read panics. |
| `QueueOpen.LocateChunks` | crates/esl-agent/src/persistentqueue.rs:645-772 | Finds the chunks of reader and writer, and removes exactly the chunks outside of them, in whatever order the directory is listed. |
| `QueueOpen.ClassifyChunk` | crates/esl-agent/src/persistentqueue.rs:672-758 | Tells for each chunk whether it is kept and whether it is the reader's or the writer's. |
| `QueueOpen.WriterChunkFound` | crates/esl-agent/src/persistentqueue.rs:726-786 | The writer's chunk is found exactly if the last write did not fill it; otherwise the recorded offset is in a chunk that does not exist. |
| `QueueOpen.ReaderChunkFound` | crates/esl-agent/src/persistentqueue.rs:690-712 | The reader's chunk is found, and it is the next one if the reader had finished its chunk. |
| `QueueOpen.KeptMeans` | crates/esl-agent/src/persistentqueue.rs:672-689 | Opening removes no chunk but a finished one of the reader. |
| `QueueOpen.RestoredMeans` | crates/esl-agent/src/persistentqueue.rs:585-796 | The opened queue has the contents and offsets of the closed one. |
| `QueueOpen.MustOpen` | crates/esl-agent/src/persistentqueue.rs:505-548 | Opens the files of a closed queue as that queue, or as an empty one if the writer's chunk is not found. |
| `QueueOpen.Reopen` | crates/esl-agent/src/persistentqueue.rs:160-176 | Closing and opening keeps the contents exactly if the writer had not filled its chunk or the queue was empty; the offsets are kept in the first case. |
| `QueueOpen.FilledChunkIsLost` | crates/esl-agent/src/persistentqueue.rs:726-786 | For every block a queue of which one write fills the chunk, so that opening does not find the writer's chunk. |
| `FastQueueModel.TryWriteKeeps` | crates/esl-agent/src/persistentqueue.rs:1219-1259 | A write keeps one half empty, the memory half within its capacity, the byte count right and no sleeping reader forgotten. |
| `FastQueueModel.ReadKeeps` | crates/esl-agent/src/persistentqueue.rs:1265-1289 | A read keeps the same invariant. |
| `FastQueueModel.FlushToFileKeeps` | crates/esl-agent/src/persistentqueue.rs:1177-1187 | Flushing moves memory blocks to the file half in order, wakes all readers and changes no contents. |
| `FastQueueModel.StepKeeps` | crates/esl-agent/src/persistentqueue.rs:1141-1289 | Every step of a reader, writer, flusher or stopper keeps the invariant. |
| `FastQueueModel.RunKeeps` | crates/esl-agent/src/persistentqueue.rs:1141-1289 | Over every interleaving: a reader sleeps only if the file half is empty, stop was not asked for and every memory block has an awakened reader; with a block queued and readers asleep, one has been notified. |
| `FastQueueModel.WriteAppends` | crates/esl-agent/src/persistentqueue.rs:1219-1259 | A write is refused exactly if persistence is disabled, writes are blocked and the caller does not insist, whatever a disk limit drops; without losses an accepted block is the new last one. |
| `FastQueueModel.WriteLosesOldest` | crates/esl-agent/src/persistentqueue.rs:1219-1259 | Whatever a disk limit drops in a flush and in the write, the contents are a suffix of the old ones and the block. |
| `FastQueueModel.ReadTakesOldest` | crates/esl-agent/src/persistentqueue.rs:1265-1289 | A read takes the oldest block exactly if there is one and the deadline of a stop is not over; it waits exactly on an empty queue without a stop, and gives up exactly after a stop with an empty queue or with the deadline over. Contents change only in the first case. |
| `FastQueueModel.ReadFromMemory` | crates/esl-agent/src/persistentqueue.rs:1265-1289 | A read takes from memory if a block is there, and only that counts as a read for the next flush; otherwise it takes from the file half. |
| `FastQueueModel.WriteGoes` | crates/esl-agent/src/persistentqueue.rs:1219-1259 | A write goes to memory while that has room and the file half is empty; blocks not read from memory for 5 seconds, and those of a full memory, go to the file half before it. |
| `FastQueueModel.DeadlineStays` | crates/esl-agent/src/persistentqueue.rs:1141-1148 | No step but unblocking readers changes the deadline, over every interleaving. |
| `FastQueueModel.ReadersStop` | crates/esl-agent/src/persistentqueue.rs:1141-1148 | After readers were unblocked, over every interleaving, each read more than 5 seconds later stops and takes nothing, of a reader that comes or that was woken. |
| `FastQueueModel.StepIsFifo` | crates/esl-agent/src/persistentqueue.rs:1132-1322 | Every step accepts at the end and emits at the front of one queue. |
| `FastQueueModel.RunIsFifo` | crates/esl-agent/src/persistentqueue.rs:1132-1322 | Over every interleaving, what was queued and accepted is what was emitted and is left, in order. |
| `FastQueue.FastQueue.FlushInmemoryBlocksToFile` | crates/esl-agent/src/persistentqueue.rs:1177-1187 | Refines the flush on the file queue above, losing blocks only to a disk limit. |
| `FastQueue.FastQueue.IsWriteBlocked` | crates/esl-agent/src/persistentqueue.rs:1132-1138 | True exactly in the states in which `try_write_block` refuses a block. |
| `FastQueue.FastQueue.TryWriteBlockInternal` | crates/esl-agent/src/persistentqueue.rs:1219-1259 | Refines the write to an intact queue; its two panics for blocks in both halves are unreachable. |
| `FastQueue.FastQueue.TryWriteDamaged` | crates/esl-agent/src/persistentqueue.rs:1219-1259 | Of a damaged queue: a block is refused exactly if persistence is disabled and the caller does not insist, and otherwise goes to the files behind all that can be read of them from anywhere. Only a disk limit can make it panic. |
| `FastQueue.FastQueue.TryWriteBlock` | crates/esl-agent/src/persistentqueue.rs:1215-1217 | The block is refused exactly if `is_write_blocked` says so. The contents are the old ones and the block, if it is taken, but for oldest blocks that a disk limit drops; without a limit none is. |
| `FastQueue.FastQueue.MustReadBlock` | crates/esl-agent/src/persistentqueue.rs:1265-1289 | Refines the read of an intact queue, of a reader that comes or that was woken: it gets the oldest block, waits or stops exactly as `FastQueueModel.ReadTakesOldest` and `FastQueueModel.ReadersStop` say. |
| `FastQueue.FastQueue.MustReadDamaged` | crates/esl-agent/src/persistentqueue.rs:1265-1289 | Of a damaged queue: panics exactly if the deadline is not over and the file queue is stuck, gives what the file queue recovers, loses no block of a later intact chunk, and stops or waits only with a queue that is empty and intact again. |
| `FastQueue.FastQueue.UnblockAllReaders` | crates/esl-agent/src/persistentqueue.rs:1141-1148 | Refines the stop, which wakes every reader. |
| `FastQueue.FastQueue.MustClose` | crates/esl-agent/src/persistentqueue.rs:1153-1165 | The files and the recorded offsets are those of a queue that holds the blocks of both halves in order, but for oldest blocks that a disk limit drops; where its writer is follows from where it was and from the blocks in memory. |
| `FastQueueOpen.Reopen` | crates/esl-agent/src/persistentqueue.rs:1079-1165 | Closing and opening keeps the contents, but for oldest blocks that a disk limit drops, exactly if the blocks in memory, written from where the writer is, will not fill its chunk, or there are none; otherwise the queue comes back empty. |
| `WireFormat.MarshalVarUint64` | crates/esl-common/src/easyproto.rs:1193-1205 | Appends the base-128 encoding, least significant group first. |
| `WireFormat.VarintAt` | crates/esl-common/src/easyproto.rs:1193-1205 | Byte `i` is the number divided by 128 to the power of `i`, modulo 128, with 128 added in all bytes but the last; the bytes hold all of the number. |
| `WireFormat.VaruintLenIsLength` | crates/esl-common/src/easyproto.rs:1219-1224 | The computed length is that of the encoding for every number but zero, for which it is zero. |
| `WireFormat.Uvarint` | crates/esl-common/src/easyproto.rs:743-763 | Refines the reference decoder on arbitrary bytes, including overflow and missing bytes. |
| `WireFormat.UvarintEnds` | crates/esl-common/src/easyproto.rs:743-763 | On arbitrary bytes a number ends at the first byte below 128; it is missing exactly if there is none in what has come, up to ten bytes, and refused exactly if it has more than ten bytes or the tenth is over 1. |
| `WireFormat.UvarintIs` | crates/esl-common/src/easyproto.rs:743-763 | Its value is the sum of its groups of seven bits, the first worth 1 and each next one 128 times as much. |
| `WireFormat.UvarintReadsBack` | crates/esl-common/src/easyproto.rs:743-763 | Decodes every encoded 64-bit number before any tail and consumes exactly its bytes. |
| `ProtoReader.FastPathAgrees` | crates/esl-common/src/easyproto.rs:99-118 | On every input for which the two-byte fast path is taken it gives what the general path gives: the same field and tail, or the same failure. |
| `ProtoReader.FieldContext.NextField` | crates/esl-common/src/easyproto.rs:99-196 | Succeeds exactly if the reference parser does, with the same number, wire type, value and tail; `ProtoReader.TagDecides` says by the numbers of the encoding what that parser does. |
| `ProtoReader.TagDecides` | crates/esl-common/src/easyproto.rs:99-196 | After any tag up to 32 bits of field number, the low three bits decide: 0 is a varint, 1 eight bytes, 2 a length and as many bytes, 5 four bytes, and 3, 4, 6 and 7 are refused; each is refused exactly if its bytes are missing. |
| `ProtoReader.TagTooLarge` | crates/esl-common/src/easyproto.rs:133-146 | A field number of more than 32 bits is refused. |
| `ProtoTable.ReadableIsParsed` | crates/esl-common/src/easyproto.rs:99-196 | A message is read whole exactly if no field of it is malformed, and its fields are those before any malformed one. |
| `ProtoTable.FindMeans` | crates/esl-common/src/easyproto.rs:78-92 | The field found is the first with the number among those before any malformed field; without one the answer is that there is none exactly if the message is well formed, and an error otherwise. |
| `ProtoReader.FieldContext.FieldByNum` | crates/esl-common/src/easyproto.rs:78-92 | Finds the first field with the number, or tells that there is none or that the message is malformed. |
| `ProtoReader.FieldReadsBack` | crates/esl-common/src/easyproto.rs:99-196 | Every field that can be encoded is read back before any tail. |
| `ProtoReader.FieldOnTheWire` | crates/esl-common/src/easyproto.rs:1036-1154 | A field is the varint of eight times its number and 0, 1, 2 or 5 by the kind of value, and then a varint, eight bytes, a length and bytes, or four bytes, little-endian. |
| `ProtoReader.FirstByte` | crates/esl-common/src/easyproto.rs:1036-1154 | The tag of a field number below 16 is one byte with that value. |
| `ProtoValues.ZigZag64Means` | crates/esl-common/src/easyproto.rs:1207-1213 | The shifts and masks of the 64-bit encoding give `2v` for `v >= 0` and `-2v - 1` otherwise. |
| `ProtoValues.ZigZag32Means` | crates/esl-common/src/easyproto.rs:1207-1213 | So do those of the 32-bit encoding. |
| `ProtoValues.ZigZag64Inverts` | crates/esl-common/src/easyproto.rs:700-702 | Zig-zag decoding and encoding are inverse in both directions on all 64-bit numbers. |
| `ProtoValues.ZigZag32Inverts` | crates/esl-common/src/easyproto.rs:704-706 | And on all 32-bit numbers. |
| `ProtoValues.Sint64ReadsBack` | crates/esl-common/src/easyproto.rs:1058-1062 | A signed number that was appended is read back as it was. |
| `ProtoValues.Sint32ReadsBack` | crates/esl-common/src/easyproto.rs:1052-1056 | So is a signed 32-bit number, which the reader's range check lets through. |
| `ProtoValues.Int32ReadsBack` | crates/esl-common/src/easyproto.rs:1021-1023 | So is a 32-bit number appended by its bits, negative ones included. |
| `ProtoValues.BoolReadsBack` | crates/esl-common/src/easyproto.rs:1064-1066 | So is a truth value. |
| `ProtoValues.Sint32AcceptedExactly` | crates/esl-common/src/easyproto.rs:711-720 | A varint is accepted as a signed 32-bit number exactly if some such number is appended as it. |
| `ProtoValues.NarrowExactly` | crates/esl-common/src/easyproto.rs:711-740 | 32-bit numbers are refused exactly beyond 32 bits, the upper half of which is negative numbers in two's complement, and truth values exactly beyond 1. |
| `ProtoTable.MessageReadsBack` | crates/esl-common/src/easyproto.rs:99-196 | Reading an encoded message field by field gives the fields in order. |
| `ProtoTable.RowReadsBack` | crates/esl-common/src/easyproto.rs:912-923 | Every message of a tree of messages reads back, with the encodings of nested messages as fields. |
| `ProtoTable.EncodeMessageAtoms` | crates/esl-common/src/easyproto.rs:1165-1178 | Joining neighbouring fields does not change the encoding. |
| `ProtoTree.Decode` | crates/esl-insert/src/otel.rs:199-220 | Decoding field by field and again in every field that holds a message refines the recursive parser of trees, failures included. |
| `ProtoTree.TreeReadsBack` | crates/esl-insert/src/otel.rs:199-220 | Every encoded tree of messages, to any depth, is parsed into exactly that tree by a decoder that knows which fields hold messages. |
| `ProtoArena.AppendBytesMeans` | crates/esl-common/src/easyproto.rs:1165-1191 | Appending bytes to a message of the arena, by growing its last field or linking a new one, appends one field to that message and leaves all others as they are. |
| `ProtoArena.AppendMessageMeans` | crates/esl-common/src/easyproto.rs:1126-1138 | Appending a nested message adds an empty message and one field that refers to it. |
| `ProtoArena.ChainEncodes` | crates/esl-common/src/easyproto.rs:988-1016 | The linked fields from any one on encode as the recursive encoder encodes their parts; links lead only to later fields. |
| `ProtoArena.BodyEncodes` | crates/esl-common/src/easyproto.rs:988-1016 | The fields linked from a message encode that message. |
| `ProtoMarshaler.Marshaler.RootMessage` | crates/esl-common/src/easyproto.rs:925-940 | The root message is message 0, created empty on first use; nothing else changes. |
| `ProtoMarshaler.Marshaler.AppendUint64` | crates/esl-common/src/easyproto.rs:1036-1050 | Appends the varint field to the chosen message of the tree and nothing else. |
| `ProtoMarshaler.Marshaler.AppendFixed64` | crates/esl-common/src/easyproto.rs:1069-1083 | Appends the 64-bit field to the chosen message and nothing else; `ProtoReader.FieldOnTheWire` says which bytes that field is. |
| `ProtoMarshaler.Marshaler.AppendFixed32` | crates/esl-common/src/easyproto.rs:1140-1154 | Appends the 32-bit field to the chosen message and nothing else. |
| `ProtoMarshaler.Marshaler.AppendBytes` | crates/esl-common/src/easyproto.rs:1104-1124 | Appends the bytes field to the chosen message and nothing else. |
| `ProtoMarshaler.Marshaler.AppendMessage` | crates/esl-common/src/easyproto.rs:1126-1138 | Appends an empty nested message to the chosen message and nothing else. |
| `ProtoMarshaler.Marshaler.InitMessageSize` | crates/esl-common/src/easyproto.rs:952-986 | Terminates; the size is the length of what is marshalled later, and so is every length stored on the way for every reachable message. |
| `ProtoMarshaler.Marshaler.MarshalField` | crates/esl-common/src/easyproto.rs:988-1016 | With the stored lengths right it writes the encoding of the linked fields behind `dst`. |
| `ProtoMarshaler.Marshaler.Marshal` | crates/esl-common/src/easyproto.rs:912-923 | Writes the recursive encoding of the root message for every sequence of appends. |
| `ProtoTree.MarshalAndDecode` | crates/esl-common/src/easyproto.rs:912-923 | For every sequence of appends, what is marshalled is decoded field by field into the messages that were appended, nested as they were. |
| `ProtoMarshaler.Marshaler.MarshalWithLen` | crates/esl-common/src/easyproto.rs:888-906 | Writes length and encoding exactly unless the root message exists without fields, and then writes nothing. |
| `LineFraming.SplitAppend` | crates/esl-agent/src/tail.rs:237-271 | Splitting into lines can be resumed at any byte. |
| `LineFraming.SplitExactly` | crates/esl-agent/src/tail.rs:237-271 | The lines and the rest are the only ones without newlines that, joined by newlines, are the data. |
| `LineFraming.SplitLength` | crates/esl-agent/src/tail.rs:392-413 | Lines with their newlines and the rest account for every byte. |
| `TailModel.FoldOffset` | crates/esl-agent/src/tail.rs:392-413 | The offset is the length of all lines passed, too long ones included. |
| `TailModel.FoldFingerprint` | crates/esl-agent/src/tail.rs:392-413 | The fingerprint is that of the file's first line, too long or not. |
| `TailModel.FoldCommit` | crates/esl-agent/src/tail.rs:345-358 | The commit offset is behind the last line whose commit was agreed to, and its fingerprint is the file's. |
| `TailModel.ShortFirst` | crates/esl-agent/src/tail.rs:237-325 | Lines of up to 2 MiB are given to the processor and no others, in order. |
| `TailModel.CommittedMeans` | crates/esl-agent/src/tail.rs:345-358 | The last committed line was given and agreed to, and no line given after it was. |
| `TailModel.FingerprintIs` | crates/esl-agent/src/tail.rs:449-461 | A fingerprint is the hash of the first 64 bytes, or of all if there are fewer, and 1 where that is 0. |
| `TailModel.OffsetsAddUp` | crates/esl-agent/src/tail.rs:273-343 | Offset and unfinished line account for every byte consumed. |
| `TailModel.LineGiven` | crates/esl-agent/src/tail.rs:345-358 | Giving a line is what the complete line makes of the state. |
| `TailModel.LinePassed` | crates/esl-agent/src/tail.rs:294-314 | A line over the limit is passed whole and not given, and its fingerprint is right from the part that was kept. |
| `TailModel.TailGrown` | crates/esl-agent/src/tail.rs:282-289 | An unfinished line is kept whole up to the limit and counted beyond it. |
| `Tail.LogFile.AddLine` | crates/esl-agent/src/tail.rs:345-358 | Offset, fingerprint and commit follow the processor's answer. |
| `Tail.LogFile.TryCompleteTail` | crates/esl-agent/src/tail.rs:273-325 | Completes the unfinished line with the first line of the data, passes one that is too long, or keeps collecting. |
| `Tail.LogFile.ProcessLines` | crates/esl-agent/src/tail.rs:237-271 | Whatever pieces the bytes come in, the processor sees exactly the complete lines of at most 2 MiB, in order. |
| `Tail.LogFile.ReadLines` | crates/esl-agent/src/tail.rs:183-235 | Reads on from the position and keeps the same; it ends exactly after a piece that does not fill the 256 KiB buffer, at the end of the file or when told to stop, reports progress exactly if there was any, and changes nothing without. |
| `TailResume.GetFileFingerprint` | crates/esl-agent/src/tail.rs:1260-1286 | The fingerprint of the first line, or of its first bytes if it is long, and zero while neither is complete. |
| `TailResume.FingerprintOfFirstLine` | crates/esl-agent/src/tail.rs:1260-1286 | A file's fingerprint is the one computed while its first line was tailed. |
| `TailResume.FingerprintIsStable` | crates/esl-agent/src/tail.rs:1260-1286 | A fingerprint does not change when the file grows. |
| `TailResume.FingerprintOfKey` | crates/esl-agent/src/tail.rs:1260-1286 | A file has a fingerprint exactly if its first line is complete or 64 bytes have come, and it is that of the first line up to 64 bytes. |
| `TailResume.FingerprintTells` | crates/esl-agent/src/tail.rs:1260-1286 | With a hash that tells such keys apart, two files have the same fingerprint exactly if their first lines agree up to 64 bytes. |
| `TailResume.ResumesAtCheckpoint` | crates/esl-agent/src/tail.rs:1192-1256 | A checkpoint of the file is always resumed from: at its offset, with the file's fingerprint and nothing uncommitted before it. |
| `TailResume.ResumedExactly` | crates/esl-agent/src/tail.rs:1192-1256 | A checkpoint is resumed from exactly if a file is found for it, the file has a fingerprint, and that of the checkpoint is the same or missing; then at its offset with the file's fingerprint, and at the beginning with nothing kept otherwise. |
| `TailResume.OtherFileIsRejected` | crates/esl-agent/src/tail.rs:1192-1256 | A checkpoint of one file is never resumed from on a file with another fingerprint: reading starts at the beginning. |
| `TailResume.OpenLogFile` | crates/esl-agent/src/tail.rs:1177-1190 | Starts at the stored checkpoint exactly if there is one, a file is found for it and its fingerprint is accepted, and at the beginning otherwise; then the checkpoint is forgotten. `TailResume.ResumedExactly` and `TailResume.OtherFileIsRejected` say which are accepted. |
| `TailResume.OpensAtCheckpoint` | crates/esl-agent/src/tail.rs:1177-1256 | With or without a stored checkpoint the file is opened where all that was committed ends. |
| `TailResume.RunSession` | crates/esl-agent/src/tail.rs:1304-1325 | A run over a file that grows as often as it is read, with or without a checkpoint, each read stopped or not: what it stores is a checkpoint of the file; nothing is stored unless something was read, and nothing is read only if every read had nothing to read or was stopped at once. |
| `TailResume.SessionMeans` | crates/esl-agent/src/tail.rs:434-441 | From wherever the file was opened, also without a fingerprint, the checkpoint is behind the last committed line, which is a line boundary, and belongs to the file. |
| `TailResume.CommittedWereGiven` | crates/esl-agent/src/tail.rs:345-358 | Over all runs, the committed lines within the limit are exactly what the processors were given up to their commits, in order. |
| `TailResume.NothingIsLost` | crates/esl-agent/src/tail.rs:1177-1256 | Over every sequence of runs, with or without a checkpoint at first, on a file that grows between and during them, whatever is committed: the lines committed by all runs together are exactly the file's lines up to the last checkpoint, each once and in order, and those within the limit are exactly what the processors were given up to their commits. |
| `TailResume.NothingIsLostFromTheStart` | crates/esl-agent/src/tail.rs:1177-1256 | From a file that was never read, all that is ever committed is the first lines of the file. |
| `ChunkSize.SizeLineMeans` | crates/esl-agent/src/kubernetescollector.rs:1164-1168 | Every size line of section 7.1 of RFC 9112, with its blanks and extensions, is read as its hexadecimal number exactly if the extensions are UTF-8 and the number fits 64 bits; `ChunkText.HexReadsBack` says what number that is. |
| `ChunkText.HexDigitExactly` | crates/esl-agent/src/kubernetescollector.rs:1164-1168 | A byte is a digit exactly if it stands in `0123456789abcdef` or `0123456789ABCDEF`, and its value is the place there. |
| `ChunkText.HexReadsBack` | crates/esl-agent/src/kubernetescollector.rs:1164-1168 | Digits that write a number, in either case and mixed, with any leading zeros, are read as that number. |
| `ChunkText.HexIsWritten` | crates/esl-agent/src/kubernetescollector.rs:1164-1168 | Every string of digits writes the number it is read as. |
| `ChunkText.Utf8Exactly` | crates/esl-agent/src/kubernetescollector.rs:1164-1165 | Bytes are accepted as text exactly if they are the UTF-8 encoding of some characters. |
| `ChunkText.WhiteExactly` | crates/esl-agent/src/kubernetescollector.rs:1166-1167 | Bytes are taken for white space exactly if they encode a character with the Unicode property of white space. |
| `ChunkText.TrimExactly` | crates/esl-agent/src/kubernetescollector.rs:1166-1167 | Trimming takes away the white-space characters on both sides and nothing else. |
| `ChunkText.ParseHexExactly` | crates/esl-agent/src/kubernetescollector.rs:1167-1168 | A number is read exactly from digits that write it, with or without one plus sign, if it fits 64 bits. |
| `ChunkText.LenientSize` | crates/esl-agent/src/kubernetescollector.rs:1164-1168 | Beyond the standard, any white space around the number and a plus sign before it are accepted. |
| `ChunkedDecoder.FeedTwice` | crates/esl-agent/src/kubernetescollector.rs:1143-1199 | Feeding `a` and then `b` is feeding `a + b`; a failure stays where it was. |
| `ChunkedDecoder.FeedInPieces` | crates/esl-agent/src/kubernetescollector.rs:1143-1199 | Any pieces give the state and the failure that their concatenation gives. |
| `ChunkedDecoder.BodyDecodes` | crates/esl-agent/src/kubernetescollector.rs:1143-1199 | A chunked body of section 7.1 of RFC 9112, with any extensions and any leading zeros, decodes exactly if every size line is readable: then to the data of its chunks, leaving alone what follows. Otherwise it fails at the first unreadable line with the data before it. |
| `ChunkedDecoder.BodyDecodesInPieces` | crates/esl-agent/src/kubernetescollector.rs:1143-1199 | So it does in any pieces. |
| `ChunkedDecoder.OpaqueExtensionIsRejected` | crates/esl-agent/src/kubernetescollector.rs:1164-1165 | For every byte beyond ASCII a body that section 7.1.1 of RFC 9112 allows, with that byte in a quoted extension, which is rejected. |
| `ChunkedDecoder.PlainTwice` | crates/esl-agent/src/kubernetescollector.rs:1143-1199 | Without chunking, feeding in two pieces is feeding both at once. |
| `ChunkedDecoder.PlainExactly` | crates/esl-agent/src/kubernetescollector.rs:1143-1199 | With an announced length the body is what comes up to that length. |
| `ChunkedDecoder.PodWatchStream.FeedBytes` | crates/esl-agent/src/kubernetescollector.rs:1143-1199 | Refines the state machine, and without chunking takes no more than the announced length. |
| `CriLine.WrittenReadsBack` | crates/esl-agent/src/kubernetescollector.rs:2876-2918 | Timestamp, stream, flag and content of a line are read back; the flag `P` is a partial line, and every stream but `stdout` is the error stream. |
| `CriLine.AcceptedIsWritten` | crates/esl-agent/src/kubernetescollector.rs:2876-2918 | Only lines of four fields with a readable timestamp and a flag of one byte are accepted. |
| `CriJoiner.StreamsAreIndependent` | crates/esl-agent/src/kubernetescollector.rs:2319-2367 | What a stream's messages are depends only on that stream's lines and on the invalid lines. |
| `CriJoiner.BufferIsBounded` | crates/esl-agent/src/kubernetescollector.rs:2320-2335 | The buffer never exceeds the limit, whatever the lines are. |
| `CriJoiner.JoinedMeans` | crates/esl-agent/src/kubernetescollector.rs:2306-2367 | A message is emitted whole, or not at all if it is too large or empty, exactly unless its first non-empty fragment alone is over the limit and its last is not empty. |
| `CriJoiner.LargeFragmentIsForgotten` | crates/esl-agent/src/kubernetescollector.rs:2306-2316 | After a fragment over the limit the end of the message is emitted as if it were the message. |
| `CriJoiner.EmittedMeans` | crates/esl-agent/src/kubernetescollector.rs:2200-2276 | Over all sequences of lines, the rows of a stream are exactly its messages unless one starts with a fragment over the limit, and then there are more rows. |
| `CriJoiner.StreamsAreJoined` | crates/esl-agent/src/kubernetescollector.rs:2200-2276 | With log lines within the limit the rows of each stream are the messages of that stream alone, whole and in order, under every interleaving. |
| `CriJoiner.PendingSince` | crates/esl-agent/src/kubernetescollector.rs:2319-2367 | Pending are the contents of the stream's lines since the last one that ended its message, whatever lines come in between. |
| `CriJoiner.WholeMessage` | crates/esl-agent/src/kubernetescollector.rs:2306-2367 | Partial lines of a stream and the one that completes them give one message of all their contents joined, with the time of the last; none exactly if that is empty or over 2 MiB. |
| `CriJoiner.EventExactly` | crates/esl-agent/src/kubernetescollector.rs:2200-2276 | An empty line is ignored; one that starts with a brace is Docker's, a row if readable and ignored if not; the others are CRI lines. |
| `CriJoiner.RowsInOrder` | crates/esl-agent/src/kubernetescollector.rs:2200-2276 | Rows of both streams and Docker's rows stand in the order of the lines they come from, and each readable line of Docker's has one. |
| `CriJoiner.LogFileProcessor.JoinPartialLinesSlow` | crates/esl-agent/src/kubernetescollector.rs:2319-2367 | Collects a fragment, or completes the message, or skips it if it is too large; the other stream is not touched. |
| `CriJoiner.LogFileProcessor.JoinPartialLines` | crates/esl-agent/src/kubernetescollector.rs:2306-2316 | With its fast path it emits what the specification says and is not ready exactly for partial lines. |
| `CriJoiner.LogFileProcessor.TryAddLine` | crates/esl-agent/src/kubernetescollector.rs:2200-2276 | Keeps rows and buffers those of all lines so far; commits every line but a partial one. |
| `CivilDates.CivilFromDaysInverts` | crates/esl-agent/src/kubernetescollector.rs:3118-3141 | Every valid date comes back from its day number. |
| `CivilDates.DaysFromCivilInverts` | crates/esl-agent/src/kubernetescollector.rs:3118-3141 | Every integer is the day number of a valid date. |
| `CivilDates.DaysFollowCalendar` | crates/esl-agent/src/kubernetescollector.rs:3096-3126 | The next date of the calendar has the next day number. |
| `CivilDates.EpochIsDayZero` | crates/esl-agent/src/kubernetescollector.rs:3118-3126 | Days are counted from 1970-01-01. |
| `CivilDates.CopiesAgree` | crates/esl-agent/src/remotewrite.rs:1332-1339 | The second copy of the conversion agrees with the first for all months there are. |
| `Klog.LeapDayNormalizes` | crates/esl-agent/src/kubernetescollector.rs:3115-3126 | A leap day of a year without one is the first of March. |
| `Klog.NanosReadBack` | crates/esl-agent/src/kubernetescollector.rs:2629-2633 | The day and every part of the time of day can be told from the nanoseconds of a line. |
| `Klog.NanosTick` | crates/esl-agent/src/kubernetescollector.rs:2629-2633 | The time that a clock shows a microsecond later, with every carry up to the next day, is 1000 nanoseconds later, and day 0 begins at 0. |
| `Klog.ChosenIsNearNow` | crates/esl-agent/src/kubernetescollector.rs:2528-2535 | The timestamp chosen for a line is less than 366 days old and at most a day ahead. |
| `Klog.ChosenIsLatest` | crates/esl-agent/src/kubernetescollector.rs:2528-2535 | No year puts the line later without putting it more than a day ahead, exactly unless the next year would do. |
| `Klog.NextYearIsFirstDay` | crates/esl-agent/src/kubernetescollector.rs:2528-2535 | The next year would do only for a line of January 1. |
| `Klog.NewYearIsPutBack` | crates/esl-agent/src/kubernetescollector.rs:2528-2535 | For every year a line of its first moment, read an hour early, gets the year before. |
| `Klog.NanosFit` | crates/esl-agent/src/kubernetescollector.rs:2629-2633 | The times of the years 1678 to 2261 fit 64 bits. |
| `Decimal.FitsExactly` | crates/esl-common/src/decimal.rs:278-332 | The greatest exponent of a number is the greatest power of ten that does not overflow 64 bits. |
| `Decimal.HigherBlock` | crates/esl-common/src/decimal.rs:12-76 | Ordinary values of the block with the higher exponent keep their number exactly if each is within reach of the 16-bit difference, as all are if the difference fits 16 bits; none becomes a special value then, and special values stay. |
| `Decimal.LowerBlock` | crates/esl-common/src/decimal.rs:12-76 | Ordinary values of the other block are truncated toward zero at the shared exponent and stay ordinary, and special values stay. |
| `Decimal.ExponentIsLeast` | crates/esl-common/src/decimal.rs:12-76 | With a non-zero ordinary value a lower shared exponent would overflow one. |
| `Decimal.SpecialExactly` | crates/esl-common/src/decimal.rs:411-425 | Exactly the two greatest and the least 64-bit number are special values. |
| `Decimal.ZerosGoDown` | crates/esl-common/src/decimal.rs:12-76 | A block of zeros and special values comes to the lower exponent if that is up to 1024 away, and 1024 down otherwise. |
| `Decimal.FarExponentsLoseValues` | crates/esl-common/src/decimal.rs:34-42 | For all exponents at least 32786 apart, blocks whose values change: the difference wraps around. |
| `Decimal.CalibrateScale` | crates/esl-common/src/decimal.rs:12-76 | The two arrays and the result are those of the specification; equal exponents and empty blocks leave them as they are. |
| `Decimal.MultiplyAll` | crates/esl-common/src/decimal.rs:44-55 | Scales every ordinary value up in place. |
| `Decimal.DivideAll` | crates/esl-common/src/decimal.rs:56-75 | Scales every ordinary value down in place, to zero beyond 18 digits. |
| `RateLimiter.RefillKeeps` | crates/esl-agent/src/remotewrite.rs:1416-1417 | A refill that waits for the deadline keeps all refills a second apart and the budget equal to what was added less what was charged. |
| `RateLimiter.ChargeKeeps` | crates/esl-agent/src/remotewrite.rs:1419-1419 | A charge on a positive budget overdraws it by less than the charge. |
| `RateLimiter.RunKeeps` | crates/esl-agent/src/remotewrite.rs:1390-1420 | Every sequence of ticks, refills and charges, by any number of callers, keeps that. |
| `RateLimiter.ThroughputIsBounded` | crates/esl-agent/src/remotewrite.rs:1390-1420 | In every state reached from the initial one by any steps of any number of callers, the total charged T seconds after the first refill is at most limit * (floor(T) + 1) + the largest charge - 1. |
| `RateLimiter.BoundIsReached` | crates/esl-agent/src/remotewrite.rs:1390-1420 | For every limit, largest charge and number of seconds there are steps after which the bound is reached. |
| `RateLimiter.Limiter.TakeTurn` | crates/esl-agent/src/remotewrite.rs:1397-1415 | A turn of the loop comes to the refill at once if it is due, and only when the deadline is over, also after a wakeup in which others changed it; it returns at once after a stop. The state is always one that the steps reach. |
| `RateLimiter.Limiter.WaitForBudget` | crates/esl-agent/src/remotewrite.rs:1397-1418 | Whatever others do meanwhile, all changes are steps; it goes on only with a positive budget, at once if there is one or a due refill gives one, and returns early only after a stop. |
| `RateLimiter.Limiter.Register` | crates/esl-agent/src/remotewrite.rs:1390-1420 | All changes to the limiter, by this caller or by others while it waits, are steps, so the bound holds; the count is charged once and only on a positive budget, at once if there is one or a due refill gives one. Without a limit nothing happens. |
| `RemoteWriteModel.StepCounts` | crates/esl-agent/src/remotewrite.rs:938-1064 | No step but acceptance changes how often a row occurs in all places together. |
| `RemoteWriteModel.StepKeeps` | crates/esl-agent/src/remotewrite.rs:938-958 | Queued blocks are not empty, and stopped logs and workers that have returned hold nothing. |
| `RemoteWriteModel.StepIsFifo` | crates/esl-agent/src/remotewrite.rs:938-958 | Workers take the oldest block, and everything else, a returned block included, adds blocks at the end. |
| `RemoteWriteModel.RunConserves` | crates/esl-agent/src/remotewrite.rs:938-1064 | Over every interleaving of logs, flushes, workers and stopping, every accepted row is in exactly one of the pending data, the queue, a worker's hand, the acknowledged and the rejected blocks. |
| `RemoteWriteModel.StoppedLosesNothing` | crates/esl-agent/src/remotewrite.rs:662-670 | Once all logs and workers have stopped, no row is pending or in a hand: each is queued, acknowledged or rejected. |
| `RemoteWriteModel.StoppingIsOrdered` | crates/esl-agent/src/remotewrite.rs:662-670 | In every run, no worker leaves for want of blocks before readers were unblocked, the client is stopped only after that, and no block stays unsent before the client is stopped. |
| `RemoteWriteModel.RowsAreCollected` | crates/esl-agent/src/remotewrite.rs:1480-1496 | Rows are collected up to the size limit and become one block as soon as they are over it. |
| `RemoteWrite.PendingLogs.Push` | crates/esl-agent/src/remotewrite.rs:1559-1573 | Exactly what is pending becomes one block, an empty one is never written, all data stays in order, and it is what the agent's step does to the log and the queue. |
| `RemoteWrite.PendingLogs.AddLogRow` | crates/esl-agent/src/remotewrite.rs:1480-1496 | Blocks written and pending data together grow by exactly the row; rows become a block together exactly when they are over the limit, so pending data never is, as in the agent's step. |
| `RemoteWrite.SendBlockHttp` | crates/esl-agent/src/remotewrite.rs:992-1064 | The first attempt that succeeds, is refused with 400 or 404, or is followed by a stop decides; a block stays unsent only after a stop. |
| `RemoteWrite.AnswersMean` | crates/esl-agent/src/remotewrite.rs:992-1064 | A status of 200 to 299 delivers the block, 400 and 404 reject it, and after any other answer or none it is sent again unless a stop has come. |
| `RemoteWrite.AnsweredOnce` | crates/esl-agent/src/remotewrite.rs:992-1064 | Attempts lead to one verdict at most. |
| `RemoteWrite.Worker.SendBlock` | crates/esl-agent/src/remotewrite.rs:992-1064 | All that happens is a run of the agent in which this worker's only verdict is that of the attempts; there is none exactly while they go on or the client is not stopped. The block in hand becomes the last acknowledged, rejected or queued one. |
| `RemoteWrite.Worker.RunWorker` | crates/esl-agent/src/remotewrite.rs:938-958 | Whatever others do in between, all that happens is a run of the agent, so no row is lost. In each turn the worker takes the oldest block if it gets one and its attempts decide about it; it returns exactly after an unsent block or, without a block, after a stop, and only with an empty hand. |
| `RemoteWrite.MustStop` | crates/esl-agent/src/remotewrite.rs:662-670 | From every reachable state, and whatever logs and workers do between its steps, stopping is a run of the agent in which it stops the logs in order, unblocks the readers and stops the client, and after which nothing is pending or in a hand. |
| `RemoteWriteQueue.PushIsWrite` | crates/esl-agent/src/remotewrite.rs:1498-1507 | Pushing a log's rows is a write to the fast queue that appends their block; it is never refused, so the fatal error is unreachable. |
| `RemoteWriteQueue.ReturnIsWrite` | crates/esl-agent/src/remotewrite.rs:950-957 | Returning an unsent block is a write to the fast queue that always succeeds. |
| `RemoteWriteQueue.ReadIsTake` | crates/esl-agent/src/remotewrite.rs:938-948 | What a worker reads from the fast queue, as it comes or once it is woken, is the block of the oldest batch; it waits only on an empty queue and gets nothing only after a stop. |
| `RemoteWriteQueue.MoveMeans` | crates/esl-agent/src/remotewrite.rs:938-958 | Every move of a log, a worker or the stopping on agent and fast queue together keeps them in agreement, no write is refused, and the agent's part is one of its own steps. |
| `RemoteWriteQueue.RunTogether` | crates/esl-agent/src/remotewrite.rs:662-958 | Over every run of both, the fast queue holds exactly the blocks of the queued batches, and the agent's part is a run of the agent. |
| `RemoteWriteQueue.NoRowIsLost` | crates/esl-agent/src/remotewrite.rs:662-958 | From the start, over every run of logs, workers, stopping and the fast queue, every accepted row is in exactly one place, queued rows are in the fast queue's blocks in order, and no worker sleeps on a block for which nobody was woken. |
| `RemoteWriteQueue.StoppedKeepsRest` | crates/esl-agent/src/remotewrite.rs:662-670 | Once all have stopped, every row was acknowledged, rejected or is in the fast queue's blocks. |

## Left out

- QueueOpen.MustOpen: opens only what a clean close left; files longer or shorter than the recorded offsets, as after a crash, are not modelled, because the metainfo can be older than the data then.
- QueueOpen.LocateChunks: file names are chunk offsets; parsing hexadecimal names and removing unknown files is not modelled.
- FastQueue.FastQueue.MustReadBlock: is about an intact file queue; `FastQueue.FastQueue.MustReadDamaged` is about a damaged one.
- FastQueue.FastQueue.TryWriteBlockInternal: is about an intact file queue; `FastQueue.FastQueue.TryWriteDamaged` is about a damaged one.
- FastQueue.FastQueue.TryWriteDamaged: with a disk limit it says only that the queue stays well formed, because what is dropped depends on the damage.
- FastQueue.FastQueue.MustClose: readers are not running any more, as the agent joins its workers first, and the file queue is intact.
- FastQueueOpen.Reopen: how many blocks a disk limit drops is that of the disk queue's own writes; here only that they are the oldest.
- RateLimiter.Limiter.WaitForBudget: a call that never gets budget is seen for as many turns as the caller names, since nothing makes it return.
- RateLimiter.Limiter.Register: as for `RateLimiter.Limiter.WaitForBudget`.
- RemoteWrite.SendBlockHttp: the attempts are given as a sequence; the delays between them are not modelled.
- RemoteWrite.PendingLogs.AddLogRow: marshalled rows are not empty; how rows are marshalled and compressed is not modelled.
- RemoteWriteModel.RunConserves: the queue is the FIFO that the fast queue is without a disk limit, as `RemoteWriteQueue.RunTogether` shows, and rows are not added after their logs were stopped.
- Klog.ChosenIsNearNow: integers are unbounded, which is the same as 64 bits for the years 1679 to 2261.
- CriJoiner.LogFileProcessor.TryAddLine: parsing of timestamps and of Docker's JSON lines is a parameter, and a message counts as emitted when it is handed to the row parser.
- PersistentQueue.Queue.ReadBlock: recording the offsets once a second after reads is not modelled, because only an unclean shutdown could tell.
- Unclean shutdown of the queue, file locks, syncing and reading or writing the metainfo as JSON.
- Rotation, renaming, truncation and symbolic links of tailed files, and the checkpoint database on disk: a killed agent, whose stored checkpoint is that of the last sync, is not modelled.
- A commit of one stream's line moving the checkpoint past another stream's unfinished message.
- The hash of fingerprints, which is a parameter.
- 64-bit overflow of queue offsets and message sizes.
- Float and string variants of protobuf fields, which convert the ones modelled.
- Parsing of klog fields other than the time, JSON, YAML, base64, glob patterns, HTTP, TLS, proxies, authentication, metrics and the conversion between floats and decimals.
- The storage engine and query language of the other crates.
