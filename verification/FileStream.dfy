/**
 The buffered file device under the persistent queue (crates/esl-common/src/filestream.rs).

 The queue owns its reader and writer, so both are values that an operation replaces.
 A `Writer` carries the on-disk bytes of the file it appends to. A `Reader` is given the
 on-disk bytes on every call, because a writer may have appended to them in between.
 */
module FileStream {
  import opened Bytes

  datatype Writer = Writer(disk: bytes, buf: bytes) {
    /** Every byte written so far, flushed or not. */
    ghost function Written(): bytes {
      disk + buf
    }
  }

  method FlushBuf(w: Writer) returns (r: Writer)
    ensures r == Writer(w.disk + w.buf, [])
  {
    r := w;
    if w.buf != [] {
      r := Writer(w.disk + w.buf, []);
    }
    assert w.buf == [] ==> w.disk + w.buf == w.disk;
  }

  /** Small writes are buffered; a write of a whole buffer or more bypasses an empty buffer. */
  method WriteBuffered(capacity: nat, w: Writer, p: bytes) returns (r: Writer)
    requires |w.buf| < capacity
    ensures |r.buf| < capacity
    ensures r.Written() == w.Written() + p
    ensures w.disk <= r.disk
  {
    r := w;
    var rest := p;
    while rest != []
      invariant |r.buf| < capacity
      invariant r.Written() + rest == w.Written() + p
      invariant w.disk <= r.disk
      decreases |rest|
    {
      if r.buf == [] && |rest| >= capacity {
        r := r.(disk := r.disk + rest);
        rest := [];
      } else {
        var n := if capacity - |r.buf| < |rest| then capacity - |r.buf| else |rest|;
        assert r.disk + (r.buf + rest[..n]) + rest[n..] == r.disk + r.buf + rest;
        r := r.(buf := r.buf + rest[..n]);
        rest := rest[n..];
        if |r.buf| == capacity {
          r := FlushBuf(r);
        }
      }
    }
  }

  /** `buf[pos..]` has been read from the file ahead of its use. */
  datatype Reader = Reader(cursor: nat, buf: bytes, pos: nat) {
    /** The buffered bytes are the file's bytes just before the OS cursor. */
    ghost predicate Valid(disk: bytes) {
      && pos <= |buf|
      && |buf| - pos <= cursor <= |disk|
      && buf[pos..] == disk[Position()..cursor]
    }

    /** The offset of the next byte this reader returns. */
    ghost function Position(): int {
      cursor - (|buf| - pos)
    }
  }

  lemma FreshIsValid(disk: bytes)
    ensures Reader(0, [], 0).Valid(disk) && Reader(0, [], 0).Position() == 0
  {
  }

  /** Appending to the file never invalidates what has been buffered. */
  lemma ValidOnceGrown(r: Reader, disk: bytes, grown: bytes)
    requires r.Valid(disk) && disk <= grown
    ensures r.Valid(grown)
  {
    assert disk[r.Position()..r.cursor] == grown[r.Position()..r.cursor];
  }

  /** An OS read may return fewer bytes than asked for, but none only at the end of the file. */
  method OsRead(disk: bytes, cursor: nat, want: nat) returns (p: bytes)
    requires want > 0 && cursor <= |disk|
    ensures |p| <= want && cursor + |p| <= |disk| && p == disk[cursor..cursor + |p|]
    ensures p == [] <==> cursor == |disk|
  {
    if cursor == |disk| {
      return [];
    }
    var got: nat :| 0 < got <= |disk| - cursor && got <= want;
    p := disk[cursor..cursor + got];
  }

  /** At most one OS read; a large read bypasses an empty buffer. */
  method ReadBuffered(size: nat, r: Reader, disk: bytes, n: nat) returns (p: bytes, t: Reader)
    requires r.Valid(disk) && n > 0 && size > 0
    ensures t.Valid(disk) && t.Position() == r.Position() + |p|
    ensures |p| <= n && r.Position() + |p| <= |disk|
    ensures p == disk[r.Position()..r.Position() + |p|]
    ensures p == [] <==> r.Position() == |disk|
  {
    t := r;
    if t.pos == |t.buf| {
      if n >= size {
        p := OsRead(disk, t.cursor, n);
        return p, t.(cursor := t.cursor + |p|);
      }
      var more := OsRead(disk, t.cursor, size);
      t := Reader(t.cursor + |more|, more, 0);
      if more == [] {
        return [], t;
      }
    }
    p, t := Take(t, disk, n);
  }

  method Take(r: Reader, ghost disk: bytes, n: nat) returns (p: bytes, t: Reader)
    requires r.Valid(disk) && n > 0 && r.pos < |r.buf|
    ensures t.Valid(disk) && t.Position() == r.Position() + |p|
    ensures 0 < |p| <= n && r.Position() + |p| <= |disk|
    ensures p == disk[r.Position()..r.Position() + |p|]
  {
    var k := if |r.buf| - r.pos < n then |r.buf| - r.pos else n;
    p := r.buf[r.pos..r.pos + k];
    t := r.(pos := r.pos + k);
    TakenSlices(r, disk, k);
  }

  lemma TakenSlices(r: Reader, disk: bytes, k: nat)
    requires r.Valid(disk) && r.pos + k <= |r.buf|
    ensures var at := r.Position();
            && at + k <= |disk| && r.buf[r.pos..r.pos + k] == disk[at..at + k]
            && r.buf[r.pos + k..] == disk[at + k..r.cursor]
  {
    var ahead := r.buf[r.pos..];
    assert r.buf[r.pos..r.pos + k] == ahead[..k];
    assert r.buf[r.pos + k..] == ahead[k..];
  }

  /** Fills `n` bytes or fails; it fails exactly when the file ends first. */
  method ReadExact(size: nat, r: Reader, disk: bytes, n: nat) returns (ok: bool, p: bytes, t: Reader)
    requires r.Valid(disk) && size > 0
    ensures t.Valid(disk)
    ensures ok <==> r.Position() + n <= |disk|
    ensures ok ==> p == disk[r.Position()..r.Position() + n]
    ensures ok ==> t.Position() == r.Position() + n
  {
    p, t := [], r;
    while |p| < n
      invariant t.Valid(disk)
      invariant |p| <= n
      invariant t.Position() == r.Position() + |p| <= |disk|
      invariant p == disk[r.Position()..r.Position() + |p|]
      decreases n - |p|
    {
      var more;
      more, t := ReadBuffered(size, t, disk, n - |p|);
      if more == [] {
        return false, p, t;
      }
      p := p + more;
    }
    ok := true;
  }
}
