/**
 The transfer framing of a watch response (`PodWatchStream::feed` in
 crates/esl-agent/src/kubernetescollector.rs): bytes from the socket go in, body bytes come out.
 */
module ChunkedDecoder {
  import opened Bytes
  import opened ChunkSize

  const CRLF: bytes := [CR, LF]

  datatype Phase = Size | Data(n: nat) | DataEnd | Done

  datatype Stream = Stream(phase: Phase, raw: bytes, decoded: bytes) {
    ghost predicate Valid() {
      phase.Data? ==> phase.n > 0
    }

    function With(more: bytes): Stream {
      this.(raw := raw + more)
    }
  }

  /** The first CRLF in `s`. */
  function FindCrlf(s: bytes): (r: Option<nat>)
    ensures r.Some? ==> r.value + 2 <= |s| && s[r.value] == CR && s[r.value + 1] == LF
  {
    if |s| < 2 then None
    else if s[0] == CR && s[1] == LF then Some(0)
    else match FindCrlf(s[1..]) case None => None case Some(n) => Some(n + 1)
  }

  /** More bytes do not move the first CRLF. */
  lemma {:induction false} CrlfStays(s: bytes, more: bytes)
    requires FindCrlf(s).Some?
    ensures FindCrlf(s + more) == FindCrlf(s)
  {
    if !(s[0] == CR && s[1] == LF) {
      CrlfStays(s[1..], more);
      assert (s + more)[1..] == s[1..] + more;
    }
  }

  datatype Next = Halt | Fail | Go(stream: Stream)

  /** One turn of the source's loop; each that goes on uses up some raw bytes. */
  function Step(s: Stream): (r: Next)
    requires s.Valid()
    ensures r.Go? ==> r.stream.Valid() && |r.stream.raw| < |s.raw|
  {
    match s.phase
    case Done => Halt
    case DataEnd => if |s.raw| < 2 then Halt else Go(s.(raw := s.raw[2..], phase := Size))
    case Data(n) =>
      if s.raw == [] then Halt
      else if n <= |s.raw| then Go(Stream(DataEnd, s.raw[n..], s.decoded + s.raw[..n]))
      else Go(Stream(Data(n - |s.raw|), [], s.decoded + s.raw))
    case Size =>
      match FindCrlf(s.raw)
      case None => Halt
      case Some(pos) =>
        match ParseSize(s.raw[..pos])
        case None => Fail
        case Some(size) =>
          Go(s.(raw := s.raw[pos + 2..], phase := if size == 0 then Done else Data(size)))
  }

  /** Decodes as much as there is; fails on a size line that cannot be read. */
  function Run(s: Stream): (r: (bool, Stream))
    requires s.Valid()
    ensures r.1.Valid()
    decreases |s.raw|
  {
    match Step(s)
    case Halt => (true, s)
    case Fail => (false, s)
    case Go(t) => Run(t)
  }

  function Feed(s: Stream, buf: bytes): (bool, Stream)
    requires s.Valid()
  {
    Run(s.With(buf))
  }

  // ----- it does not matter how the bytes are split

  lemma SliceOfAppended(s: bytes, more: bytes, n: nat)
    requires n <= |s|
    ensures (s + more)[..n] == s[..n] && (s + more)[n..] == s[n..] + more
  {
  }

  /** A step does not see the bytes that come later, unless it is short of chunk data. */
  lemma StepStays(s: Stream, more: bytes)
    requires s.Valid() && Step(s) != Halt && !(s.phase.Data? && s.phase.n > |s.raw|)
    ensures Step(s.With(more)) == (match Step(s) case Go(t) => Go(t.With(more)) case _ => Fail)
  {
    match s.phase
    case DataEnd => SliceOfAppended(s.raw, more, 2);
    case Data(n) => SliceOfAppended(s.raw, more, n);
    case Size =>
      CrlfStays(s.raw, more);
      var pos := FindCrlf(s.raw).value;
      SliceOfAppended(s.raw, more, pos);
      SliceOfAppended(s.raw, more, pos + 2);
    case Done =>
  }

  lemma SameStep(s: Stream, t: Stream)
    requires s.Valid() && t.Valid() && Step(s).Go? && Step(s) == Step(t)
    ensures Run(s) == Run(t)
  {
  }

  lemma DataInTwo(decoded: bytes, raw: bytes, more: bytes, m: nat)
    requires m <= |more|
    ensures var n := |raw| + m;
            (raw + more)[n..] == more[m..] && decoded + (raw + more)[..n] == decoded + raw + more[..m]
  {
    assert (raw + more)[..|raw| + m] == raw + more[..m];
    Associates(decoded, raw, more[..m]);
  }

  lemma ShortDataStep(s: Stream, more: bytes)
    requires s.Valid() && s.phase.Data? && 0 < |s.raw| < s.phase.n && more != []
    ensures Step(s.With(more)) == Step(Step(s).stream.With(more))
  {
    var m := s.phase.n - |s.raw|;
    assert [] + more == more;
    if m <= |more| {
      DataInTwo(s.decoded, s.raw, more, m);
    } else {
      Associates(s.decoded, s.raw, more);
    }
  }

  /** Chunk data that comes in two pieces ends up as if it had come in one. */
  lemma ShortData(s: Stream, more: bytes)
    requires s.Valid() && s.phase.Data? && 0 < |s.raw| < s.phase.n
    ensures Run(s.With(more)) == Run(Step(s).stream.With(more))
  {
    if more == [] {
      assert s.raw + more == s.raw && [] + more == [];
    } else {
      ShortDataStep(s, more);
      SameStep(s.With(more), Step(s).stream.With(more));
    }
  }

  lemma {:induction false} RunAppend(s: Stream, more: bytes)
    requires s.Valid()
    ensures var (ok, t) := Run(s);
            if ok then Run(s.With(more)) == Run(t.With(more)) else Run(s.With(more)) == (false, t.With(more))
    decreases |s.raw|
  {
    if Step(s).Go? {
      var u := Step(s).stream;
      RunAppend(u, more);
      if s.phase.Data? && s.phase.n > |s.raw| {
        ShortData(s, more);
      } else {
        StepStays(s, more);
      }
    } else if Step(s).Fail? {
      StepStays(s, more);
    }
  }

  /** Feeding two pieces is feeding their concatenation, if the first succeeds; if not, both fail alike. */
  lemma FeedTwice(s: Stream, a: bytes, b: bytes)
    requires s.Valid()
    ensures var (ok, t) := Feed(s, a);
            if ok then Feed(t, b) == Feed(s, a + b) else Feed(s, a + b) == (false, t.With(b))
  {
    RunAppend(s.With(a), b);
    assert s.raw + a + b == s.raw + (a + b);
  }

  /** Feeds piece after piece, stopping at the first failure. */
  function FeedAll(s: Stream, pieces: seq<bytes>): (r: (bool, Stream))
    requires s.Valid()
    ensures r.1.Valid()
    decreases |pieces|
  {
    if pieces == [] then (true, s) else
    var (ok, t) := Feed(s, pieces[0]);
    if ok then FeedAll(t, pieces[1..]) else (false, t)
  }

  /** A stream that a run has left has nothing more to do by itself. */
  lemma {:induction false} RunHalts(s: Stream)
    requires s.Valid()
    ensures Run(s).0 ==> Step(Run(s).1) == Halt
    decreases |s.raw|
  {
    if Step(s).Go? {
      RunHalts(Step(s).stream);
    }
  }

  /** Any pieces at all amount to their concatenation. */
  lemma {:induction false} FeedInPieces(s: Stream, pieces: seq<bytes>)
    requires s.Valid() && Step(s) == Halt
    ensures FeedAll(s, pieces).0 == Feed(s, Flatten(pieces)).0
    ensures FeedAll(s, pieces).0 ==> FeedAll(s, pieces) == Feed(s, Flatten(pieces))
    decreases |pieces|
  {
    if pieces == [] {
      assert s.raw + [] == s.raw;
    } else {
      FlattenFirst(pieces);
      FeedTwice(s, pieces[0], Flatten(pieces[1..]));
      RunHalts(s.With(pieces[0]));
      var (ok, t) := Feed(s, pieces[0]);
      if ok {
        FeedInPieces(t, pieces[1..]);
      }
    }
  }

  // ----- bodies that section 7.1 of RFC 9112 allows

  /** A chunk: its size line without the CRLF, and its data. */
  datatype Chunk = Chunk(line: SizeLine, data: bytes)

  predicate NoCrlf(line: bytes) {
    forall i :: 0 <= i < |line| - 1 ==> !(line[i] == CR && line[i + 1] == LF)
  }

  /** The size is that of the data, which is not empty. */
  predicate GoodChunk(c: Chunk) {
    c.line.WellFormed() && c.data != [] && c.line.Value() == |c.data|
  }

  predicate GoodLast(last: SizeLine) {
    last.WellFormed() && last.Value() == 0
  }

  /** The source can read the line: its extensions are UTF-8 and its size fits 64 bits. */
  predicate Readable(l: SizeLine) {
    l.WellFormed() && Utf8(l.extensions) && l.Value() < U64_LIMIT
  }

  function Body(chunks: seq<Chunk>, last: SizeLine, trailer: bytes): bytes {
    if chunks == [] then last.Text() + ([13, 10] + trailer)
    else chunks[0].line.Text() + ([13, 10] + (chunks[0].data + ([13, 10] + Body(chunks[1..], last, trailer))))
  }

  function AllData(chunks: seq<Chunk>): bytes {
    if chunks == [] then [] else chunks[0].data + AllData(chunks[1..])
  }

  lemma {:induction false} CrlfAfterLine(line: bytes, rest: bytes)
    requires NoCrlf(line)
    ensures FindCrlf(line + (CRLF + rest)) == Some(|line|)
  {
    var s := line + (CRLF + rest);
    if line == [] {
      assert s[0] == CR && s[1] == LF;
    } else {
      assert s[1..] == line[1..] + (CRLF + rest);
      assert !(s[0] == CR && s[1] == LF);
      CrlfAfterLine(line[1..], rest);
    }
  }

  lemma LineAndRest(line: bytes, rest: bytes, raw: bytes)
    requires raw == line + (CRLF + rest)
    ensures |line| + 2 <= |raw| && raw[..|line|] == line && raw[|line| + 2..] == rest
  {
  }

  lemma SizeLineStep(raw: bytes, pos: nat, size: nat, rest: bytes, decoded: bytes)
    requires FindCrlf(raw) == Some(pos) && ParseSize(raw[..pos]) == Some(size) && raw[pos + 2..] == rest
    ensures Step(Stream(Size, raw, decoded)) == Go(Stream(if size == 0 then Done else Data(size), rest, decoded))
  {
  }

  lemma SizeLineRead(line: bytes, rest: bytes, decoded: bytes)
    requires NoCrlf(line) && ParseSize(line).Some?
    ensures var size := ParseSize(line).value;
            Run(Stream(Size, line + (CRLF + rest), decoded))
            == Run(Stream(if size == 0 then Done else Data(size), rest, decoded))
  {
    var raw := line + (CRLF + rest);
    CrlfAfterLine(line, rest);
    LineAndRest(line, rest, raw);
    SizeLineStep(raw, |line|, ParseSize(line).value, rest, decoded);
  }

  lemma DataRead(data: bytes, rest: bytes, decoded: bytes)
    requires data != []
    ensures Run(Stream(Data(|data|), data + (CRLF + rest), decoded)) == Run(Stream(Size, rest, decoded + data))
  {
    var raw := data + (CRLF + rest);
    assert raw[..|data|] == data && raw[|data|..] == CRLF + rest;
    assert (CRLF + rest)[2..] == rest;
    var s := Stream(DataEnd, CRLF + rest, decoded + data);
    assert Step(s) == Go(Stream(Size, rest, decoded + data));
  }

  lemma UnreadableLine(line: bytes, rest: bytes, decoded: bytes)
    requires NoCrlf(line) && ParseSize(line).None?
    ensures var s := Stream(Size, line + (CRLF + rest), decoded); Run(s) == (false, s)
  {
    var raw := line + (CRLF + rest);
    CrlfAfterLine(line, rest);
    assert raw[..|line|] == line;
  }

  lemma LineHasNoCrlf(l: SizeLine)
    requires l.WellFormed()
    ensures NoCrlf(l.Text())
  {
    PlainStart(l);
    var a := l.digits + l.blank;
    forall i | 0 <= i < |l.Text()| - 1
      ensures l.Text()[i] != CR
    {
      assert l.Text()[i] == if i < |a| then a[i] else l.extensions[i - |a|];
    }
  }

  lemma ChunkRead(c: Chunk, rest: bytes, decoded: bytes)
    requires GoodChunk(c)
    ensures var s := Stream(Size, c.line.Text() + (CRLF + (c.data + (CRLF + rest))), decoded);
            Run(s) == if Readable(c.line) then Run(Stream(Size, rest, decoded + c.data)) else (false, s)
  {
    SizeLineMeans(c.line);
    LineHasNoCrlf(c.line);
    if Readable(c.line) {
      SizeLineRead(c.line.Text(), c.data + (CRLF + rest), decoded);
      DataRead(c.data, rest, decoded);
    } else {
      UnreadableLine(c.line.Text(), c.data + (CRLF + rest), decoded);
    }
  }

  lemma LastRead(last: SizeLine, trailer: bytes, decoded: bytes)
    requires GoodLast(last)
    ensures var s := Stream(Size, last.Text() + (CRLF + trailer), decoded);
            Run(s) == if Readable(last) then (true, Stream(Done, trailer, decoded)) else (false, s)
  {
    SizeLineMeans(last);
    LineHasNoCrlf(last);
    if Readable(last) {
      SizeLineRead(last.Text(), trailer, decoded);
    } else {
      UnreadableLine(last.Text(), trailer, decoded);
    }
  }

  predicate AllReadable(chunks: seq<Chunk>, last: SizeLine) {
    (forall i :: 0 <= i < |chunks| ==> Readable(chunks[i].line)) && Readable(last)
  }

  /** The chunks before the first one that the source cannot read. */
  function ReadableChunks(chunks: seq<Chunk>): (k: nat)
    ensures k <= |chunks| && (forall i :: 0 <= i < k ==> Readable(chunks[i].line))
    ensures k < |chunks| ==> !Readable(chunks[k].line)
  {
    if chunks == [] || !Readable(chunks[0].line) then 0 else 1 + ReadableChunks(chunks[1..])
  }

  /**
   What decoding a body should come to: all data if every size line is readable, and otherwise an
   error at the first line that is not, with the data of the chunks before it.
   */
  function Outcome(chunks: seq<Chunk>, last: SizeLine, trailer: bytes, decoded: bytes): (bool, Stream) {
    var k := ReadableChunks(chunks);
    if AllReadable(chunks, last) then (true, Stream(Done, trailer, decoded + AllData(chunks)))
    else (false, Stream(Size, Body(chunks[k..], last, trailer), decoded + AllData(chunks[..k])))
  }

  lemma ReadableFirst(chunks: seq<Chunk>, last: SizeLine)
    requires chunks != [] && Readable(chunks[0].line)
    ensures AllReadable(chunks, last) <==> AllReadable(chunks[1..], last)
  {
    if AllReadable(chunks[1..], last) {
      forall i | 0 <= i < |chunks|
        ensures Readable(chunks[i].line)
      {
        assert i > 0 ==> chunks[i] == chunks[1..][i - 1];
      }
    }
  }

  lemma BodyOfLater(chunks: seq<Chunk>, k: nat, decoded: bytes)
    requires chunks != [] && k < |chunks|
    ensures chunks[1..][k..] == chunks[k + 1..]
    ensures decoded + chunks[0].data + AllData(chunks[1..][..k]) == decoded + AllData(chunks[..k + 1])
    ensures decoded + chunks[0].data + AllData(chunks[1..]) == decoded + AllData(chunks)
  {
    assert chunks[..k + 1][1..] == chunks[1..][..k];
    Associates(decoded, chunks[0].data, AllData(chunks[1..][..k]));
    Associates(decoded, chunks[0].data, AllData(chunks[1..]));
  }

  lemma OutcomeOfLater(chunks: seq<Chunk>, last: SizeLine, trailer: bytes, decoded: bytes)
    requires chunks != [] && Readable(chunks[0].line)
    ensures Outcome(chunks, last, trailer, decoded) == Outcome(chunks[1..], last, trailer, decoded + chunks[0].data)
  {
    ReadableFirst(chunks, last);
    BodyOfLater(chunks, ReadableChunks(chunks[1..]), decoded);
  }

  lemma OutcomeAtOnce(chunks: seq<Chunk>, last: SizeLine, trailer: bytes, decoded: bytes)
    requires if chunks == [] then !Readable(last) else !Readable(chunks[0].line)
    ensures Outcome(chunks, last, trailer, decoded) == (false, Stream(Size, Body(chunks, last, trailer), decoded))
  {
    assert chunks[0..] == chunks && chunks[..0] == [] && decoded + [] == decoded;
  }

  /** A body of the standard decodes exactly if every size line is readable. */
  lemma {:induction false} BodyDecodes(chunks: seq<Chunk>, last: SizeLine, trailer: bytes, decoded: bytes)
    requires (forall i :: 0 <= i < |chunks| ==> GoodChunk(chunks[i])) && GoodLast(last)
    ensures Run(Stream(Size, Body(chunks, last, trailer), decoded)) == Outcome(chunks, last, trailer, decoded)
    decreases |chunks|
  {
    if chunks == [] {
      LastRead(last, trailer, decoded);
      if Readable(last) {
        assert decoded + AllData(chunks) == decoded;
      } else {
        OutcomeAtOnce(chunks, last, trailer, decoded);
      }
    } else {
      ChunkRead(chunks[0], Body(chunks[1..], last, trailer), decoded);
      if Readable(chunks[0].line) {
        BodyDecodes(chunks[1..], last, trailer, decoded + chunks[0].data);
        OutcomeOfLater(chunks, last, trailer, decoded);
      } else {
        OutcomeAtOnce(chunks, last, trailer, decoded);
      }
    }
  }

  /** And so it does in whatever pieces it arrives. */
  lemma BodyDecodesInPieces(chunks: seq<Chunk>, last: SizeLine, trailer: bytes, pieces: seq<bytes>)
    requires (forall i :: 0 <= i < |chunks| ==> GoodChunk(chunks[i])) && GoodLast(last)
    requires Flatten(pieces) == Body(chunks, last, trailer)
    ensures var (ok, t) := FeedAll(Stream(Size, [], []), pieces);
            && (ok <==> AllReadable(chunks, last))
            && (ok ==> t == Stream(Done, trailer, AllData(chunks)))
  {
    var s := Stream(Size, [], []);
    FeedInPieces(s, pieces);
    BodyDecodes(chunks, last, trailer, []);
    assert [] + Flatten(pieces) == Flatten(pieces);
    assert [] + AllData(chunks) == AllData(chunks);
  }

  // ----- the stream as the object the source makes it

  class PodWatchStream {
    const chunked: bool
    /** The body bytes still to come, if the response says so. */
    var contentRemaining: Option<nat>
    var phase: Phase
    var raw: bytes
    var decoded: bytes

    function Snapshot(): Stream
      reads this
    {
      Stream(phase, raw, decoded)
    }

    constructor (chunked: bool, contentLength: Option<nat>)
      ensures Snapshot() == Stream(Size, [], []) && this.chunked == chunked && contentRemaining == contentLength
    {
      this.chunked, contentRemaining := chunked, contentLength;
      phase, raw, decoded := Size, [], [];
    }

    method FeedBytes(buf: bytes) returns (ok: bool)
      requires Snapshot().Valid()
      modifies this
      ensures Snapshot().Valid()
      ensures chunked ==> (ok, Snapshot()) == Feed(old(Snapshot()), buf) && contentRemaining == old(contentRemaining)
      ensures !chunked ==> && ok && phase == old(phase) && raw == old(raw)
                           && PlainFed(old(contentRemaining), buf, contentRemaining, old(decoded), decoded)
    {
      if !chunked {
        var take := |buf|;
        if contentRemaining.Some? {
          if contentRemaining.value < take {
            take := contentRemaining.value;
          }
          contentRemaining := Some(contentRemaining.value - take);
        }
        decoded := decoded + buf[..take];
        return true;
      }
      raw := raw + buf;
      while true
        invariant Snapshot().Valid()
        invariant Run(Snapshot()) == Feed(old(Snapshot()), buf)
        invariant contentRemaining == old(contentRemaining)
        decreases |raw|
      {
        var turn := Turn();
        if turn != On {
          return turn == Rest;
        }
      }
    }

    /** One turn of the loop. */
    method Turn() returns (turn: TurnResult)
      requires Snapshot().Valid()
      modifies this`phase, this`raw, this`decoded
      ensures Snapshot().Valid()
      ensures match Step(old(Snapshot()))
              case Halt => turn == Rest && Snapshot() == old(Snapshot())
              case Fail => turn == Error && Snapshot() == old(Snapshot())
              case Go(t) => turn == On && Snapshot() == t
    {
      turn := On;
      match phase {
        case Size =>
          var pos := FindCrlf(raw);
          if pos.None? {
            return Rest;
          }
          var size := ParseSize(raw[..pos.value]);
          if size.None? {
            return Error;
          }
          raw := raw[pos.value + 2..];
          phase := if size.value == 0 then Done else Data(size.value);
        case Data(n) =>
          if raw == [] {
            return Rest;
          }
          var take := if n < |raw| then n else |raw|;
          assert raw[..|raw|] == raw;
          decoded := decoded + raw[..take];
          raw := raw[take..];
          phase := if take == n then DataEnd else Data(n - take);
        case DataEnd =>
          if |raw| < 2 {
            return Rest;
          }
          raw := raw[2..];
          phase := Size;
        case Done =>
          return Rest;
      }
    }
  }

  datatype TurnResult = On | Rest | Error

  /** Without chunks the body is what comes, up to the announced length. */
  ghost predicate PlainFed(before: Option<nat>, buf: bytes, after: Option<nat>, body: bytes, grown: bytes) {
    match before
    case None => after == None && grown == body + buf
    case Some(n) =>
      if |buf| <= n then after == Some(n - |buf|) && grown == body + buf
      else after == Some(0) && grown == body + buf[..n]
  }


  /** Feeding in two pieces is feeding both at once. */
  lemma PlainTwice(before: Option<nat>, a: bytes, b: bytes, mid: Option<nat>, after: Option<nat>,
                   body: bytes, some: bytes, grown: bytes)
    requires PlainFed(before, a, mid, body, some) && PlainFed(mid, b, after, some, grown)
    ensures PlainFed(before, a + b, after, body, grown)
  {
    Associates(body, a, b);
    if before.Some? && before.value < |a + b| {
      var n := before.value;
      if |a| <= n {
        assert (a + b)[..n] == a + b[..n - |a|];
        Associates(body, a, b[..n - |a|]);
      } else {
        assert (a + b)[..n] == a[..n];
        assert b[..0] == [] && some + [] == some && some + b[..0] == some;
      }
    }
  }

  /** With an announced length the body grows by the bytes that come, and never beyond that length. */
  lemma PlainExactly(n: nat, buf: bytes, after: Option<nat>, grown: bytes)
    requires PlainFed(Some(n), buf, after, [], grown)
    ensures grown <= buf && |grown| == (if n <= |buf| then n else |buf|) && after == Some(n - |grown|)
  {
    assert [] + buf == buf;
  }
  lemma OpaqueLine(b: byte, line: SizeLine)
    requires b >= 0x80 && line == SizeLine([49], [], [SEMICOLON, 110, 61, 34, b, 34])
    ensures line.WellFormed() && line.Value() == 1 && !Readable(line)
  {
    AsciiThenUtf8([SEMICOLON, 110, 61, 34], [b, 34]);
    assert [SEMICOLON, 110, 61, 34] + [b, 34] == line.extensions;
    assert line.digits[..0] == [];
  }

  /**
   The standard allows any byte from 0x80 on in a quoted extension value, but the source rejects
   a line that is not UTF-8: here `1;n="` followed by such a byte and a closing quote.
   */
  lemma OpaqueExtensionIsRejected(b: byte, x: byte, trailer: bytes)
    requires b >= 0x80
    ensures var c := Chunk(SizeLine([49], [], [SEMICOLON, 110, 61, 34, b, 34]), [x]);
            var last := SizeLine([48], [], []);
            GoodChunk(c) && GoodLast(last) && !Run(Stream(Size, Body([c], last, trailer), [])).0
  {
    var c, last := Chunk(SizeLine([49], [], [SEMICOLON, 110, 61, 34, b, 34]), [x]), SizeLine([48], [], []);
    OpaqueLine(b, c.line);
    assert last.digits[..0] == [] && last.Value() == 0;
    BodyDecodes([c], last, trailer, []);
    assert !Readable([c][0].line);
  }
}
