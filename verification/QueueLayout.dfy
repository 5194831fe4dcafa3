/**
 What a directory of chunk files means: the reference decoder for the on-disk layout of the
 persistent queue (crates/esl-agent/src/persistentqueue.rs), and how appending a block, removing
 a consumed chunk and skipping a broken one act on the decoded blocks.

 A chunk file is named by the queue offset of its first byte, a multiple of the chunk size.
 A block is an 8-byte big-endian length followed by its bytes. A block starts in a chunk only
 if a block of the greatest size would still fit; otherwise the rest of the chunk is padding.
 */
module QueueLayout {
  import opened Bytes

  const HEADER: nat := 8

  /** `chunks` maps a chunk's offset to its bytes, with the writer's unflushed bytes included. */
  datatype Layout = Layout(chunkSize: nat, maxBlock: nat, chunks: map<nat, bytes>,
                           writerPath: nat, writerLocal: nat)
  {
    ghost predicate Sized() {
      1 <= maxBlock && maxBlock + HEADER <= chunkSize
    }

    ghost predicate Valid() {
      Sized() && writerPath in chunks && |chunks[writerPath]| == writerLocal
    }

    ghost function End(): nat {
      writerPath + writerLocal
    }

    predicate Padding(local: nat) {
      NoRoom(chunkSize, maxBlock, local)
    }
  }

  /** A greatest block and its header do not fit behind `local`: what is there is padding. */
  predicate NoRoom(chunkSize: nat, maxBlock: nat, local: nat) {
    local + maxBlock + HEADER > chunkSize
  }

  function Frame(block: bytes): (f: bytes)
    ensures |f| == HEADER + |block|
  {
    BigEndian(|block|, HEADER) + block
  }

  function Joined<T>(first: seq<T>, second: Option<seq<T>>): Option<seq<T>> {
    match second
    case None => None
    case Some(s) => Some(first + s)
  }

  /** A queued block and the reading offset once it has been read. */
  datatype Entry = Entry(data: bytes, end: nat)

  /** The entries from the given reading position to the end of the queue, or `None` if corrupted. */
  ghost function Decode(v: Layout, path: nat, local: nat): Option<seq<Entry>>
    requires v.Sized()
    decreases if path <= v.writerPath then v.writerPath - path + 1 else 0,
              if local <= v.chunkSize then v.chunkSize - local else 0
  {
    if path == v.writerPath && local == v.writerLocal then
      Some([])
    else if v.Padding(local) then
      if path < v.writerPath then Decode(v, path + v.chunkSize, 0) else None
    else
      match BlockAt(v, path, local)
      case None => None
      case Some(block) =>
        var next := local + HEADER + |block|;
        Joined([Entry(block, path + next)], Decode(v, path, next))
  }

  /** The block whose header is at `local` in the chunk at `path`, if there is a well-formed one. */
  ghost function BlockAt(v: Layout, path: nat, local: nat): (r: Option<bytes>)
    ensures r.Some? ==> 1 <= |r.value| <= v.maxBlock
  {
    if path > v.writerPath || path !in v.chunks then None else
    var data := v.chunks[path];
    if local + HEADER > |data| then None else
    var n := FromBigEndian(data[local..local + HEADER]);
    if n == 0 || n > v.maxBlock || local + HEADER + n > |data| then None
    else Some(data[local + HEADER..local + HEADER + n])
  }

  /** The disk space a sequence of entries takes, padding not included. */
  ghost function Cost(entries: seq<Entry>): nat {
    if entries == [] then 0 else |entries[0].data| + HEADER + Cost(entries[1..])
  }

  lemma {:induction false} CostAppend(entries: seq<Entry>, e: Entry)
    ensures Cost(entries + [e]) == Cost(entries) + |e.data| + HEADER
  {
    if entries == [] {
      assert entries + [e] == [e];
    } else {
      assert (entries + [e])[1..] == entries[1..] + [e];
      CostAppend(entries[1..], e);
    }
  }

  /** The writer's step: roll over if a greatest block would not fit, then append the frame. */
  function Append(v: Layout, block: bytes): (r: Layout)
    requires v.writerPath in v.chunks
  {
    if v.Padding(v.writerLocal) then
      var next := v.writerPath + v.chunkSize;
      v.(chunks := v.chunks[next := Frame(block)], writerPath := next, writerLocal := |Frame(block)|)
    else
      v.(chunks := v.chunks[v.writerPath := v.chunks[v.writerPath] + Frame(block)],
         writerLocal := v.writerLocal + |Frame(block)|)
  }

  lemma HeaderReadsBack(n: nat, prefix: bytes, suffix: bytes)
    requires n < U64_LIMIT
    ensures var data := prefix + (BigEndian(n, HEADER) + suffix);
            FromBigEndian(data[|prefix|..|prefix| + HEADER]) == n
  {
    Power256At8();
    BigEndianRoundTrip(n, HEADER);
    var data := prefix + (BigEndian(n, HEADER) + suffix);
    assert data[|prefix|..|prefix| + HEADER] == BigEndian(n, HEADER);
  }

  lemma FrameReadsBack(v: Layout, path: nat, prefix: bytes, block: bytes)
    requires 1 <= |block| <= v.maxBlock < U64_LIMIT
    requires path <= v.writerPath && path in v.chunks && v.chunks[path] == prefix + Frame(block)
    ensures BlockAt(v, path, |prefix|) == Some(block)
  {
    HeaderReadsBack(|block|, prefix, block);
    assert v.chunks[path][|prefix| + HEADER..|prefix| + HEADER + |block|] == block;
  }

  /** What the reader finds where the writer was, once a block is appended. */
  lemma DecodeAtOldEnd(v: Layout, b: bytes)
    requires v.Valid() && |b| <= v.maxBlock < U64_LIMIT
    ensures Decode(Append(v, b), v.writerPath, v.writerLocal)
            == if b == [] then None else Some([Entry(b, Append(v, b).End())])
  {
    var v' := Append(v, b);
    if v.Padding(v.writerLocal) {
      assert [] + Frame(b) == Frame(b);
      DecodeLastFrame(v', [], b);
      DecodePadding(v', v.writerPath, v.writerLocal);
    } else {
      DecodeLastFrame(v', v.chunks[v.writerPath], b);
    }
  }

  /** The frame at the writer's end is the last block, or unreadable if it is empty. */
  lemma DecodeLastFrame(v: Layout, prefix: bytes, b: bytes)
    requires v.Sized() && |b| <= v.maxBlock < U64_LIMIT && !v.Padding(|prefix|)
    requires v.writerPath in v.chunks && v.chunks[v.writerPath] == prefix + Frame(b)
    requires v.writerLocal == |prefix| + HEADER + |b|
    ensures Decode(v, v.writerPath, |prefix|) == if b == [] then None else Some([Entry(b, v.End())])
  {
    if b == [] {
      HeaderReadsBack(0, prefix, b);
      assert BlockAt(v, v.writerPath, |prefix|) == None;
    } else {
      FrameReadsBack(v, v.writerPath, prefix, b);
      assert Decode(v, v.writerPath, v.writerLocal) == Some([]);
      var e := Entry(b, v.End());
      assert [e] + [] == [e];
    }
  }

  /** Later writes keep every block of `v`, and its writer has moved on in `w`. */
  ghost predicate Extends(v: Layout, w: Layout) {
    && v.chunkSize == w.chunkSize && v.maxBlock == w.maxBlock
    && (v.writerPath < w.writerPath || (v.writerPath == w.writerPath && v.writerLocal < w.writerLocal))
    && KeepsBlocks(v, w)
  }

  ghost predicate KeepsBlocks(v: Layout, w: Layout) {
    forall path, local :: KeepsBlock(v, w, path, local)
  }

  ghost predicate KeepsBlock(v: Layout, w: Layout, path: nat, local: nat) {
    BlockAt(v, path, local).Some? ==> BlockAt(w, path, local) == BlockAt(v, path, local)
  }

  /** The chunks of `v` are the same or have grown in `w`. */
  ghost predicate KeepsChunks(v: Layout, w: Layout) {
    && v.writerPath <= w.writerPath && v.maxBlock == w.maxBlock
    && forall p :: p in v.chunks && p <= v.writerPath ==> p in w.chunks && v.chunks[p] <= w.chunks[p]
  }

  /** A block that is there stays there when its chunk grows. */
  lemma BlockStays(v: Layout, w: Layout, path: nat, local: nat)
    requires KeepsChunks(v, w)
    ensures KeepsBlock(v, w, path, local)
  {
    if BlockAt(v, path, local).Some? {
      var data, data' := v.chunks[path], w.chunks[path];
      assert data'[local..local + HEADER] == data[local..local + HEADER];
      var n := |BlockAt(v, path, local).value|;
      assert data'[local + HEADER..local + HEADER + n] == data[local + HEADER..local + HEADER + n];
    }
  }

  lemma BlocksStay(v: Layout, w: Layout)
    requires KeepsChunks(v, w)
    ensures KeepsBlocks(v, w)
  {
    forall path, local
      ensures KeepsBlock(v, w, path, local)
    {
      BlockStays(v, w, path, local);
    }
  }

  lemma {:induction false} DecodeExtend(v: Layout, w: Layout, path: nat, local: nat)
    requires v.Sized() && v.writerLocal <= v.chunkSize && Extends(v, w)
    requires Decode(v, path, local).Some?
    ensures Decode(w, path, local)
            == Joined(Decode(v, path, local).value, Decode(w, v.writerPath, v.writerLocal))
    decreases if path <= v.writerPath then v.writerPath - path + 1 else 0,
              if local <= v.chunkSize then v.chunkSize - local else 0
  {
    var tail := Decode(w, v.writerPath, v.writerLocal);
    if path == v.writerPath && local == v.writerLocal {
      assert tail.Some? ==> [] + tail.value == tail.value;
    } else if v.Padding(local) {
      DecodeExtend(v, w, path + v.chunkSize, 0);
      DecodeExtendPadding(v, w, path, local, tail);
    } else {
      NotBeyondEnd(v, path, local);
      var block, next := BlockThenRest(v, path, local);
      DecodeExtend(v, w, path, next);
      assert KeepsBlock(v, w, path, local);
      DecodeExtendBlock(v, w, path, local, block, next, tail);
    }
  }

  /** A readable position that is neither the end nor padding has a block, and what is behind it is readable. */
  lemma BlockThenRest(v: Layout, path: nat, local: nat) returns (block: bytes, next: nat)
    requires v.Sized() && Decode(v, path, local).Some?
    requires !v.Padding(local) && !(path == v.writerPath && local == v.writerLocal)
    ensures BlockAt(v, path, local) == Some(block) && next == local + HEADER + |block|
    ensures local < next <= v.chunkSize && Decode(v, path, next).Some?
  {
    block := BlockAt(v, path, local).value;
    next := local + HEADER + |block|;
  }

  /** Padding leads to the next chunk. */
  lemma DecodePadding(v: Layout, path: nat, local: nat)
    requires v.Sized() && v.Padding(local) && path < v.writerPath
    ensures Decode(v, path, local) == Decode(v, path + v.chunkSize, 0)
  {
  }

  lemma DecodeExtendPadding(v: Layout, w: Layout, path: nat, local: nat, tail: Option<seq<Entry>>)
    requires v.Sized() && w.Sized() && v.Padding(local) && w.Padding(local) && v.chunkSize == w.chunkSize
    requires path < v.writerPath <= w.writerPath && Decode(v, path, local).Some?
    requires Decode(v, path + v.chunkSize, 0).Some?
    requires Decode(w, path + v.chunkSize, 0) == Joined(Decode(v, path + v.chunkSize, 0).value, tail)
    ensures Decode(w, path, local) == Joined(Decode(v, path, local).value, tail)
  {
    DecodePadding(v, path, local);
    DecodePadding(w, path, local);
  }

  /** A block is followed by what is behind it. */
  lemma DecodeBlock(v: Layout, path: nat, local: nat, block: bytes, next: nat)
    requires v.Sized() && !v.Padding(local) && !(path == v.writerPath && local == v.writerLocal)
    requires BlockAt(v, path, local) == Some(block) && next == local + HEADER + |block|
    ensures Decode(v, path, local) == Joined([Entry(block, path + next)], Decode(v, path, next))
  {
  }

  lemma DecodeExtendBlock(v: Layout, w: Layout, path: nat, local: nat, block: bytes, next: nat,
                          tail: Option<seq<Entry>>)
    requires v.Sized() && w.Sized() && !v.Padding(local) && !w.Padding(local)
    requires !(path == v.writerPath && local == v.writerLocal)
    requires !(path == w.writerPath && local == w.writerLocal)
    requires BlockAt(v, path, local) == Some(block) == BlockAt(w, path, local) && next == local + HEADER + |block|
    requires Decode(v, path, next).Some? && Decode(w, path, next) == Joined(Decode(v, path, next).value, tail)
    ensures Decode(v, path, local).Some?
    ensures Decode(w, path, local) == Joined(Decode(v, path, local).value, tail)
  {
    DecodeBlock(v, path, local, block, next);
    DecodeBlock(w, path, local, block, next);
    JoinedStep([Entry(block, path + next)], Decode(v, path, local), Decode(v, path, next),
               Decode(w, path, local), Decode(w, path, next), tail);
  }

  lemma JoinedStep<T>(a: seq<T>, dv: Option<seq<T>>, rv: Option<seq<T>>,
                      dw: Option<seq<T>>, rw: Option<seq<T>>, tail: Option<seq<T>>)
    requires dv == Joined(a, rv) && dw == Joined(a, rw) && rv.Some? && rw == Joined(rv.value, tail)
    ensures dv.Some? && dw == Joined(dv.value, tail)
  {
    JoinedAssociates(a, rv.value, tail);
  }

  lemma JoinedAssociates<T>(a: seq<T>, b: seq<T>, c: Option<seq<T>>)
    ensures Joined(a, Joined(b, c)) == Joined(a + b, c)
  {
    if c.Some? {
      assert a + (b + c.value) == a + b + c.value;
    }
  }

  /** A position that decodes lies at or before the writer. */
  lemma {:induction false} NotBeyondEnd(v: Layout, path: nat, local: nat)
    requires v.Sized() && Decode(v, path, local).Some?
    ensures path < v.writerPath || (path == v.writerPath && local <= v.writerLocal)
    decreases if local <= v.chunkSize then v.chunkSize - local else 0
  {
    if path == v.writerPath && local != v.writerLocal {
      var block := BlockAt(v, path, local).value;
      NotBeyondEnd(v, path, local + HEADER + |block|);
    }
  }

  /** Appending a non-empty block appends it to the decoded entries; an empty one corrupts the queue. */
  lemma DecodeAppend(v: Layout, path: nat, local: nat, b: bytes)
    requires v.Valid() && |b| <= v.maxBlock < U64_LIMIT && v.writerLocal <= v.chunkSize
    requires Decode(v, path, local).Some?
    ensures Decode(Append(v, b), path, local)
            == if b == [] then None else Some(Decode(v, path, local).value + [Entry(b, Append(v, b).End())])
  {
    DecodeAtOldEnd(v, b);
    BlocksStay(v, Append(v, b));
    DecodeExtend(v, Append(v, b), path, local);
  }

  /** The same queue but for chunks before `path`. */
  ghost predicate SameFrom(v: Layout, w: Layout, path: nat) {
    && v.chunkSize == w.chunkSize && v.maxBlock == w.maxBlock
    && v.writerPath == w.writerPath && v.writerLocal == w.writerLocal
    && forall p, local :: SameBlock(v, w, path, p, local)
  }

  ghost predicate SameBlock(v: Layout, w: Layout, path: nat, p: nat, local: nat) {
    path <= p ==> BlockAt(v, p, local) == BlockAt(w, p, local)
  }

  /** Chunks from `path` on being the same is enough. */
  lemma SameChunks(v: Layout, w: Layout, path: nat)
    requires v.chunkSize == w.chunkSize && v.maxBlock == w.maxBlock
    requires v.writerPath == w.writerPath && v.writerLocal == w.writerLocal
    requires forall p :: path <= p ==>
                           (p in v.chunks <==> p in w.chunks) && (p in v.chunks ==> v.chunks[p] == w.chunks[p])
    ensures SameFrom(v, w, path)
  {
    forall p, local
      ensures SameBlock(v, w, path, p, local)
    {
    }
  }

  /** Decoding looks only at the chunks from the reading position on. */
  lemma {:induction false} DecodeFrame(v: Layout, w: Layout, path: nat, local: nat)
    requires v.Sized() && SameFrom(v, w, path)
    ensures Decode(v, path, local) == Decode(w, path, local)
    decreases if path <= v.writerPath then v.writerPath - path + 1 else 0,
              if local <= v.chunkSize then v.chunkSize - local else 0
  {
    if v.Padding(local) && path < v.writerPath {
      SameFromLater(v, w, path, path + v.chunkSize);
      DecodeFrame(v, w, path + v.chunkSize, 0);
      DecodePadding(v, path, local);
      DecodePadding(w, path, local);
    } else {
      assert SameBlock(v, w, path, path, local);
      if !v.Padding(local) && BlockAt(v, path, local).Some? && !(path == v.writerPath && local == v.writerLocal) {
        var block := BlockAt(v, path, local).value;
        var next := local + HEADER + |block|;
        DecodeFrame(v, w, path, next);
        DecodeBlock(v, path, local, block, next);
        DecodeBlock(w, path, local, block, next);
      } else {
        DecodeNoBlock(v, path, local);
        DecodeNoBlock(w, path, local);
      }
    }
  }

  lemma DecodeNoBlock(v: Layout, path: nat, local: nat)
    requires v.Sized() && !(v.Padding(local) && path < v.writerPath)
    requires v.Padding(local) || BlockAt(v, path, local).None? || (path == v.writerPath && local == v.writerLocal)
    ensures Decode(v, path, local) == if path == v.writerPath && local == v.writerLocal then Some([]) else None
  {
  }

  lemma SameFromLater(v: Layout, w: Layout, path: nat, later: nat)
    requires SameFrom(v, w, path) && path <= later
    ensures SameFrom(v, w, later)
  {
    forall p, local
      ensures SameBlock(v, w, later, p, local)
    {
      assert SameBlock(v, w, path, p, local);
    }
  }

  /** The pending bytes cover the queued blocks, and are zero exactly when there are none. */
  lemma {:induction false} PendingCoversBlocks(v: Layout, path: nat, local: nat)
    requires v.Valid() && local <= v.chunkSize && v.writerLocal <= v.chunkSize
    requires v.writerLocal == 0 ==> path == v.writerPath
    requires Decode(v, path, local).Some?
    ensures var entries := Decode(v, path, local).value;
            path <= v.writerPath &&
            path + local + Cost(entries) <= v.End() &&
            (entries == [] <==> path == v.writerPath && local == v.writerLocal)
    decreases if path <= v.writerPath then v.writerPath - path + 1 else 0,
              if local <= v.chunkSize then v.chunkSize - local else 0
  {
    if path == v.writerPath && local == v.writerLocal {
    } else if v.Padding(local) {
      PendingCoversBlocks(v, path + v.chunkSize, 0);
    } else {
      var block := BlockAt(v, path, local).value;
      PendingCoversBlocks(v, path, local + HEADER + |block|);
    }
  }

  // ----- chunk offsets

  /** `k` is a multiple of the chunk size. */
  ghost predicate Aligned(chunkSize: nat, k: nat)
    requires chunkSize > 0
  {
    k == 0 || (chunkSize <= k && Aligned(chunkSize, k - chunkSize))
  }

  lemma {:induction false} AlignedMeansMultiple(c: nat, k: nat)
    requires c > 0
    ensures Aligned(c, k) <==> k % c == 0
  {
    if c <= k {
      AlignedMeansMultiple(c, k - c);
      ModShift(c, k - c);
    }
  }

  lemma ModShift(c: nat, x: nat)
    requires c > 0
    ensures (x + c) % c == x % c
  {
    var d := (x + c) / c - x / c - 1;
    assert d * c == x % c - (x + c) % c;
    assert d >= 1 ==> d * c >= c;
    assert d <= -1 ==> d * c + c <= 0;
  }

  lemma SmallMod(c: nat, x: nat)
    requires x < c
    ensures x % c == x
  {
  }

  /** The position in a chunk that the source computes with the remainder operator. */
  lemma {:induction false} LocalOffset(c: nat, path: nat, local: nat)
    requires c > 0 && Aligned(c, path) && local <= c
    ensures (path + local) % c == if local == c then 0 else local
  {
    if path == 0 {
      if local == c {
        ModShift(c, 0);
      } else {
        SmallMod(c, local);
      }
    } else {
      LocalOffset(c, path - c, local);
      ModShift(c, path - c + local);
    }
  }

  /** Every chunk from `path` up to the one before `end` is there, and they lead to `end`. */
  ghost predicate Contiguous(chunks: map<nat, bytes>, chunkSize: nat, path: nat, end: nat)
    requires chunkSize > 0
    decreases if path <= end then end - path + 1 else 0
  {
    path == end || (path < end && path in chunks && Contiguous(chunks, chunkSize, path + chunkSize, end))
  }

  lemma {:induction false} ContiguousFrame(a: map<nat, bytes>, b: map<nat, bytes>, c: nat, path: nat, end: nat)
    requires c > 0 && Contiguous(a, c, path, end)
    requires forall k :: path <= k < end && k in a ==> k in b
    ensures Contiguous(b, c, path, end)
    decreases if path <= end then end - path + 1 else 0
  {
    if path != end {
      ContiguousFrame(a, b, c, path + c, end);
    }
  }

  lemma {:induction false} ContiguousExtend(a: map<nat, bytes>, c: nat, path: nat, end: nat)
    requires c > 0 && Contiguous(a, c, path, end) && end in a
    ensures Contiguous(a, c, path, end + c)
    decreases if path <= end then end - path + 1 else 0
  {
    if path != end {
      ContiguousExtend(a, c, path + c, end);
    }
  }

  lemma {:induction false} ContiguousAligned(a: map<nat, bytes>, c: nat, path: nat, end: nat)
    requires c > 0 && Contiguous(a, c, path, end) && Aligned(c, path)
    ensures path <= end && Aligned(c, end)
    decreases if path <= end then end - path + 1 else 0
  {
    if path != end {
      ContiguousAligned(a, c, path + c, end);
    }
  }

  /** Distinct chunk offsets are at least a chunk apart. */
  lemma {:induction false} AlignedApart(c: nat, a: nat, b: nat)
    requires c > 0 && Aligned(c, a) && Aligned(c, b) && a < b
    ensures a + c <= b
  {
    if a > 0 {
      AlignedApart(c, a - c, b - c);
    }
  }

  /** The chunk files are named by chunk offsets from `path` up to the one before `end`. */
  ghost predicate Within(chunks: map<nat, bytes>, chunkSize: nat, path: nat, end: nat)
    requires chunkSize > 0
  {
    forall k :: k in chunks ==> path <= k < end && Aligned(chunkSize, k)
  }

  lemma WithinAfterRemoval(chunks: map<nat, bytes>, c: nat, path: nat, end: nat)
    requires c > 0 && Aligned(c, path) && Within(chunks, c, path, end)
    ensures Within(chunks - {path}, c, path + c, end)
  {
    forall k | k in chunks - {path}
      ensures path + c <= k
    {
      AlignedApart(c, path, k);
    }
  }

  // ----- the format on disk

  /** A block is stored as eight bytes of its length, most significant first, and its bytes. */
  lemma FrameOnDisk(block: bytes, i: nat)
    requires i < 8
    ensures |Frame(block)| == 8 + |block| && Frame(block)[8..] == block
    ensures Frame(block)[i] as nat == |block| / Power256(7 - i) % 256
  {
    BigEndianAt(|block|, 8, i);
  }

  /** There is no room exactly if some block that may be written does not fit. */
  lemma NoRoomExactly(chunkSize: nat, maxBlock: nat, local: nat)
    ensures NoRoom(chunkSize, maxBlock, local)
            <==> exists block :: |block| <= maxBlock && local + |Frame(block)| > chunkSize
  {
    if NoRoom(chunkSize, maxBlock, local) {
      var greatest: bytes := seq(maxBlock, _ => 0);
      assert |greatest| <= maxBlock && local + |Frame(greatest)| > chunkSize;
    }
  }

  /** A block is found at a position exactly if its length is there, in bounds, and as many bytes follow. */
  lemma BlockOnDisk(v: Layout, path: nat, local: nat, block: bytes)
    ensures BlockAt(v, path, local) == Some(block)
            <==> && path in v.chunks && path <= v.writerPath && 1 <= |block| <= v.maxBlock
                 && local + 8 + |block| <= |v.chunks[path]|
                 && FromBigEndian(v.chunks[path][local..local + 8]) == |block|
                 && v.chunks[path][local + 8..local + 8 + |block|] == block
  {
  }
}
