/**
 Joining log messages that the container runtime split into several lines (`LogFileProcessor` in
 crates/esl-agent/src/kubernetescollector.rs).
 */
module CriJoiner {
  import opened Bytes
  import opened CriLine
  import TailModel

  /** The limit of the joined message is the one of a line. */
  const MAX_LOG_LINE_SIZE := TailModel.MAX_LOG_LINE_SIZE
  const BRACE: byte := '{' as byte

  type JsonParser = bytes -> Option<(int, bytes)>

  /** What a line of the log file is. */
  datatype Event = Fragment(line: CriLine) | Json(timestamp: int, content: bytes) | Invalid | Ignored

  datatype Origin = FromStream(stream: Stream) | FromJson

  /** A message handed to the storage. */
  datatype Row = Row(origin: Origin, timestamp: int, message: bytes)

  function EventOf(time: TimeParser, json: JsonParser, b: bytes): Event {
    if b == [] then Ignored
    else if b[0] == BRACE then
      (match json(b) case None => Ignored case Some((timestamp, content)) => Json(timestamp, content))
    else
      match ParseCriLine(time, b) case None => Invalid case Some(line) => Fragment(line)
  }

  // ----- what is to be emitted

  /** The message made of these fragments, unless it is too large or empty. */
  function Message(fragments: seq<bytes>): Option<bytes> {
    var m := Flatten(fragments);
    if 0 < |m| <= MAX_LOG_LINE_SIZE then Some(m) else None
  }

  /** The fragments of a stream since its last complete message and since the last invalid line. */
  function Pending(events: seq<Event>, s: Stream): seq<bytes> {
    if events == [] then [] else
    var before, e := events[..|events| - 1], events[|events| - 1];
    match e
    case Invalid => []
    case Fragment(line) =>
      if line.stream != s then Pending(before, s)
      else if line.partial then Pending(before, s) + [line.content] else []
    case _ => Pending(before, s)
  }

  /** The messages of a stream. */
  function Messages(events: seq<Event>, s: Stream): seq<Row> {
    if events == [] then [] else
    var before, e := events[..|events| - 1], events[|events| - 1];
    if e.Fragment? && e.line.stream == s && !e.line.partial then
      Messages(before, s) + RowOf(e.line, Message(Pending(before, s) + [e.line.content]))
    else Messages(before, s)
  }

  function RowOf(line: CriLine, message: Option<bytes>): seq<Row> {
    if message.None? then [] else [Row(FromStream(line.stream), line.timestamp, message.value)]
  }

  /** The lines of one stream and the invalid lines. */
  function Only(events: seq<Event>, s: Stream): seq<Event> {
    if events == [] then [] else
    var before, e := events[..|events| - 1], events[|events| - 1];
    Only(before, s) + (if e.Invalid? || (e.Fragment? && e.line.stream == s) then [e] else [])
  }

  /** The other stream takes no part in the messages of a stream. */
  lemma {:induction false} StreamsAreIndependent(events: seq<Event>, s: Stream)
    ensures Pending(Only(events, s), s) == Pending(events, s)
    ensures Messages(Only(events, s), s) == Messages(events, s)
  {
    if events != [] {
      var before, e := events[..|events| - 1], events[|events| - 1];
      StreamsAreIndependent(before, s);
      if e.Invalid? || (e.Fragment? && e.line.stream == s) {
        assert Only(events, s)[..|Only(events, s)| - 1] == Only(before, s);
      } else {
        assert Only(events, s) == Only(before, s);
      }
    }
  }

  // ----- what is buffered

  datatype Partial = Partial(content: Option<bytes>, size: nat)

  const EMPTY := Partial(None, 0)

  /** A fragment is kept if the message with it is not too large. */
  function Kept(fragments: seq<bytes>): (kept: bytes)
    ensures |kept| <= |Flatten(fragments)| && |kept| <= MAX_LOG_LINE_SIZE
    ensures |Flatten(fragments)| <= MAX_LOG_LINE_SIZE ==> kept == Flatten(fragments)
  {
    if fragments == [] then [] else
    var before, last := fragments[..|fragments| - 1], fragments[|fragments| - 1];
    Kept(before) + (if |Flatten(fragments)| <= MAX_LOG_LINE_SIZE then last else [])
  }

  ghost predicate Holds(p: Partial, fragments: seq<bytes>) {
    && p.size == |Flatten(fragments)|
    && p.content == if fragments == [] then None else Some(Kept(fragments))
  }

  /** Memory is bounded by the limit whatever the lines are. */
  lemma BufferIsBounded(p: Partial, fragments: seq<bytes>)
    requires Holds(p, fragments)
    ensures p.content.Some? ==> |p.content.value| <= MAX_LOG_LINE_SIZE
  {
    assert |Kept(fragments)| <= MAX_LOG_LINE_SIZE;
  }

  /** The first fragment that is not empty is longer than the limit. */
  predicate StartsTooLarge(fragments: seq<bytes>) {
    if fragments == [] then false
    else if fragments[0] == [] then StartsTooLarge(fragments[1..])
    else |fragments[0]| > MAX_LOG_LINE_SIZE
  }

  lemma {:induction false} StartsTooLargeAppend(fragments: seq<bytes>, last: bytes)
    ensures StartsTooLarge(fragments + [last])
            <==> StartsTooLarge(fragments) || (Flatten(fragments) == [] && |last| > MAX_LOG_LINE_SIZE)
  {
    var all := fragments + [last];
    if fragments == [] {
      assert all[1..] == [];
    } else {
      FlattenFirst(fragments);
      assert all[1..] == fragments[1..] + [last];
      StartsTooLargeAppend(fragments[1..], last);
    }
  }

  lemma {:induction false} StartsTooLargeMeans(fragments: seq<bytes>)
    ensures StartsTooLarge(fragments) <==> Kept(fragments) == [] && Flatten(fragments) != []
    ensures StartsTooLarge(fragments) ==> |Flatten(fragments)| > MAX_LOG_LINE_SIZE
  {
    if fragments != [] {
      var before, last := fragments[..|fragments| - 1], fragments[|fragments| - 1];
      assert fragments == before + [last];
      StartsTooLargeMeans(before);
      StartsTooLargeAppend(before, last);
    }
  }

  /** What the source emits once the final fragment has come. */
  function Joined(fragments: seq<bytes>, last: bytes): Option<bytes> {
    if Kept(fragments) == [] then (if last == [] then None else Some(last))
    else Message(fragments + [last])
  }

  /**
   A message is emitted whole or not at all, unless it starts with a fragment that alone is too
   large: then the final fragment is emitted as if it were the message.
   */
  lemma JoinedMeans(fragments: seq<bytes>, last: bytes)
    ensures Joined(fragments, last) == Message(fragments + [last])
            <==> last == [] || !StartsTooLarge(fragments + [last])
  {
    StartsTooLargeMeans(fragments);
    StartsTooLargeAppend(fragments, last);
    FlattenAppend(fragments, last);
    assert [] + last == last;
  }

  /** Whatever the first fragment beyond the limit is, the end of its message is emitted alone. */
  lemma LargeFragmentIsForgotten(large: bytes, last: bytes)
    requires |large| > MAX_LOG_LINE_SIZE && last != []
    ensures Joined([large], last) == Some(last) && Message([large] + [last]) == None
  {
    FlattenAppend([], large);
    assert [] + [large] == [large];
    FlattenAppend([large], last);
  }

  // ----- whole runs

  /** What the source hands to the storage, in order. */
  function Emitted(events: seq<Event>): seq<Row> {
    if events == [] then [] else
    var before, e := events[..|events| - 1], events[|events| - 1];
    Emitted(before) + NewRows(before, e)
  }

  /** What comes out with a line. */
  function NewRows(before: seq<Event>, e: Event): seq<Row> {
    match e
    case Fragment(line) =>
      if line.partial then [] else RowOf(line, Joined(Pending(before, line.stream), line.content))
    case Json(timestamp, content) => [Row(FromJson, timestamp, content)]
    case _ => []
  }

  function OfStream(rows: seq<Row>, s: Stream): seq<Row> {
    if rows == [] then [] else
    var before, r := rows[..|rows| - 1], rows[|rows| - 1];
    OfStream(before, s) + (if r.origin == FromStream(s) then [r] else [])
  }

  lemma OfStreamAppend(rows: seq<Row>, r: Row, s: Stream)
    ensures OfStream(rows + [r], s) == OfStream(rows, s) + if r.origin == FromStream(s) then [r] else []
  {
    assert (rows + [r])[..|rows|] == rows;
  }

  /** Some message of the stream starts with a fragment larger than the limit and ends in a non-empty one. */
  predicate SomeStartsTooLarge(events: seq<Event>, s: Stream) {
    if events == [] then false else
    var before, e := events[..|events| - 1], events[|events| - 1];
    || SomeStartsTooLarge(before, s)
    || (&& e.Fragment? && e.line.stream == s && !e.line.partial && e.line.content != []
        && StartsTooLarge(Pending(before, s) + [e.line.content]))
  }

  /** Of each stream exactly its messages are emitted, unless one of them starts too large. */
  lemma {:induction false} EmittedMeans(events: seq<Event>, s: Stream)
    ensures OfStream(Emitted(events), s) == Messages(events, s) <==> !SomeStartsTooLarge(events, s)
    ensures SomeStartsTooLarge(events, s) ==> |OfStream(Emitted(events), s)| > |Messages(events, s)|
  {
    if events != [] {
      var before, e := events[..|events| - 1], events[|events| - 1];
      EmittedMeans(before, s);
      match e {
        case Fragment(line) =>
          if line.partial {
            assert Emitted(events) == Emitted(before);
          } else {
            MessageEmitted(before, line, s);
          }
        case Json(timestamp, content) =>
          OfStreamAppend(Emitted(before), Row(FromJson, timestamp, content), s);
        case _ =>
          assert Emitted(events) == Emitted(before);
      }
    }
  }

  lemma MessageEmitted(before: seq<Event>, line: CriLine, s: Stream)
    requires !line.partial
    ensures var fragments := Pending(before, line.stream);
            var rows := RowOf(line, Joined(fragments, line.content));
            && (line.stream != s ==> OfStream(Emitted(before) + rows, s) == OfStream(Emitted(before), s))
            && (line.stream == s ==>
                  var due := RowOf(line, Message(fragments + [line.content]));
                  && OfStream(Emitted(before) + rows, s) == OfStream(Emitted(before), s) + rows
                  && (rows == due <==> line.content == [] || !StartsTooLarge(fragments + [line.content]))
                  && (rows == due || (|rows| == 1 && due == [])))
  {
    var fragments := Pending(before, line.stream);
    var joined := Joined(fragments, line.content);
    JoinedMeans(fragments, line.content);
    StartsTooLargeMeans(fragments + [line.content]);
    if joined.Some? {
      OfStreamAppend(Emitted(before), Row(FromStream(line.stream), line.timestamp, joined.value), s);
    } else {
      assert Emitted(before) + RowOf(line, joined) == Emitted(before);
    }
  }

  /** Lines within the limit never start too large. */
  lemma {:induction false} ShortLinesFit(events: seq<Event>, s: Stream)
    requires forall e :: e in events && e.Fragment? ==> |e.line.content| <= MAX_LOG_LINE_SIZE
    ensures !SomeStartsTooLarge(events, s) && !StartsTooLarge(Pending(events, s))
  {
    if events != [] {
      var before, e := events[..|events| - 1], events[|events| - 1];
      assert e in events && forall x :: x in before ==> x in events;
      ShortLinesFit(before, s);
      if e.Fragment? {
        StartsTooLargeAppend(Pending(before, s), e.line.content);
      }
    }
  }

  function EventsOf(time: TimeParser, json: JsonParser, lines: seq<bytes>): (events: seq<Event>)
    ensures |events| == |lines|
    ensures forall i :: 0 <= i < |lines| ==> events[i] == EventOf(time, json, lines[i])
  {
    if lines == [] then []
    else EventsOf(time, json, lines[..|lines| - 1]) + [EventOf(time, json, lines[|lines| - 1])]
  }

  /** With log lines within the limit each stream's rows are the messages of that stream alone. */
  lemma StreamsAreJoined(time: TimeParser, json: JsonParser, lines: seq<bytes>, s: Stream)
    requires forall b :: b in lines ==> |b| <= MAX_LOG_LINE_SIZE
    ensures var events := EventsOf(time, json, lines);
            OfStream(Emitted(events), s) == Messages(Only(events, s), s)
  {
    var events := EventsOf(time, json, lines);
    forall e | e in events && e.Fragment?
      ensures |e.line.content| <= MAX_LOG_LINE_SIZE
    {
      var i :| 0 <= i < |events| && events[i] == e;
      assert lines[i] in lines;
      AcceptedIsWritten(time, lines[i]);
    }
    ShortLinesFit(events, s);
    EmittedMeans(events, s);
    StreamsAreIndependent(events, s);
  }

  // ----- what the definitions above come to

  /** A line is one of Docker's if it starts with a brace; empty lines and unreadable ones of Docker's are ignored. */
  lemma EventExactly(time: TimeParser, json: JsonParser, b: bytes)
    ensures var e := EventOf(time, json, b);
            && (b == [] || (b[0] as int == '{' as int && json(b).None?) <==> e == Ignored)
            && (b != [] && b[0] as int == '{' as int && json(b).Some? <==> e.Json?)
            && (e.Json? ==> e == Json(json(b).value.0, json(b).value.1))
            && (e.Fragment? ==> ParseCriLine(time, b) == Some(e.line))
  {
  }

  /** The contents of the lines of a stream, in order. */
  function Contents(events: seq<Event>, s: Stream): seq<bytes> {
    if events == [] then [] else
    (if events[0].Fragment? && events[0].line.stream == s then [events[0].line.content] else [])
    + Contents(events[1..], s)
  }

  /** The event is an invalid line, or completes a message of the stream. */
  predicate Ends(e: Event, s: Stream) {
    e.Invalid? || (e.Fragment? && e.line.stream == s && !e.line.partial)
  }

  ghost predicate NoneEnds(events: seq<Event>, s: Stream) {
    forall i :: 0 <= i < |events| ==> !Ends(events[i], s)
  }

  lemma {:induction false} ContentsLast(events: seq<Event>, e: Event, s: Stream)
    ensures Contents(events + [e], s)
            == Contents(events, s) + if e.Fragment? && e.line.stream == s then [e.line.content] else []
  {
    if events == [] {
      assert events + [e] == [e] && [e][1..] == [];
    } else {
      assert (events + [e])[1..] == events[1..] + [e];
      ContentsLast(events[1..], e, s);
    }
  }

  /** Pending are the contents of the stream's lines since the last one that ended its message. */
  lemma {:induction false} PendingSince(before: seq<Event>, since: seq<Event>, s: Stream)
    requires (before == [] || Ends(before[|before| - 1], s)) && NoneEnds(since, s)
    ensures Pending(before + since, s) == Contents(since, s)
    decreases |since|
  {
    if since == [] {
      assert before + since == before;
    } else {
      var m := |since| - 1;
      var all, last := before + since, since[m];
      assert all[..|all| - 1] == before + since[..m] && all[|all| - 1] == last;
      PendingSince(before, since[..m], s);
      assert since == since[..m] + [last];
      ContentsLast(since[..m], last, s);
      assert !Ends(last, s);
    }
  }

  /**
   Partial lines of a stream and the line that completes them give one message: all their contents
   joined, with the time of the last line, whatever lines of others come in between. A message over
   2 MiB or without content gives none.
   */
  lemma WholeMessage(before: seq<Event>, since: seq<Event>, line: CriLine)
    requires (before == [] || Ends(before[|before| - 1], line.stream)) && NoneEnds(since, line.stream) && !line.partial
    ensures var message := Flatten(Contents(since, line.stream) + [line.content]);
            Messages(before + since + [Fragment(line)], line.stream)
            == Messages(before, line.stream)
               + if 1 <= |message| <= 2_097_152 then [Row(FromStream(line.stream), line.timestamp, message)] else []
  {
    var s, all := line.stream, before + since;
    var events := all + [Fragment(line)];
    assert events[..|events| - 1] == all;
    PendingSince(before, since, s);
    NoMessageMeanwhile(before, since, s);
  }

  lemma {:induction false} NoMessageMeanwhile(before: seq<Event>, since: seq<Event>, s: Stream)
    requires NoneEnds(since, s)
    ensures Messages(before + since, s) == Messages(before, s)
    decreases |since|
  {
    if since == [] {
      assert before + since == before;
    } else {
      var m := |since| - 1;
      var all := before + since;
      assert all[..|all| - 1] == before + since[..m] && all[|all| - 1] == since[m];
      NoMessageMeanwhile(before, since[..m], s);
      assert !Ends(since[m], s);
    }
  }

  /** The row is of the line: Docker's message as it is, or a message that the line of a stream completes. */
  predicate MadeBy(row: Row, e: Event) {
    match e
    case Json(timestamp, content) => row == Row(FromJson, timestamp, content)
    case Fragment(line) => !line.partial && row.origin == FromStream(line.stream) && row.timestamp == line.timestamp
    case _ => false
  }

  ghost predicate InOrder(rows: seq<Row>, events: seq<Event>, at: seq<nat>) {
    && |at| == |rows|
    && (forall i :: 0 <= i < |at| ==> at[i] < |events| && MadeBy(rows[i], events[at[i]]))
    && (forall i, j :: 0 <= i < j < |at| ==> at[i] < at[j])
  }

  lemma MoreRows(rows: seq<Row>, events: seq<Event>, at: seq<nat>, e: Event, more: seq<Row>) returns (all: seq<nat>)
    requires InOrder(rows, events, at) && |more| <= 1 && (more != [] ==> MadeBy(more[0], e))
    ensures InOrder(rows + more, events + [e], all) && at <= all && (more != [] ==> |events| in all)
  {
    if more == [] {
      assert rows + more == rows;
      all := at;
    } else {
      assert rows + more == rows + [more[0]];
      all := at + [|events|];
      assert all[|at|] == |events|;
    }
  }

  lemma NewRowsAre(before: seq<Event>, e: Event)
    ensures |NewRows(before, e)| <= 1 && (NewRows(before, e) != [] ==> MadeBy(NewRows(before, e)[0], e))
    ensures e.Json? ==> NewRows(before, e) != []
  {
  }

  /** All rows stand in the order of the lines they are of, and every message of Docker's has one. */
  lemma {:induction false} RowsInOrder(events: seq<Event>) returns (at: seq<nat>)
    ensures InOrder(Emitted(events), events, at)
    ensures forall k :: 0 <= k < |events| && events[k].Json? ==> k in at
  {
    at := [];
    if events != [] {
      var m := |events| - 1;
      var before, e := events[..m], events[m];
      var earlier := RowsInOrder(before);
      NewRowsAre(before, e);
      at := MoreRows(Emitted(before), before, earlier, e, NewRows(before, e));
      assert events == before + [e];
      JsonHasRow(events, m, earlier, at);
    }
  }

  lemma JsonHasRow(events: seq<Event>, m: nat, earlier: seq<nat>, at: seq<nat>)
    requires |events| == m + 1 && earlier <= at && (events[m].Json? ==> m in at)
    requires forall k :: 0 <= k < m && events[..m][k].Json? ==> k in earlier
    ensures forall k :: 0 <= k < |events| && events[k].Json? ==> k in at
  {
    forall k | 0 <= k < |events| && events[k].Json?
      ensures k in at
    {
      if k < m {
        assert events[..m][k] == events[k];
        assert k in earlier;
      }
    }
  }

  // ----- the processor

  datatype JoinResult = NotReady | Skip | FastPath(timestamp: int) | Complete(timestamp: int, content: bytes)

  class LogFileProcessor {
    const time: TimeParser
    const json: JsonParser
    var stdout: Partial
    var stderr: Partial
    var rows: seq<Row>

    function State(s: Stream): Partial
      reads this
    {
      if s.Stdout? then stdout else stderr
    }

    /** The state after these lines. */
    ghost predicate Follows(events: seq<Event>)
      reads this
    {
      && Holds(stdout, Pending(events, Stdout))
      && Holds(stderr, Pending(events, Stderr))
      && rows == Emitted(events)
    }

    constructor (time: TimeParser, json: JsonParser)
      ensures this.time == time && this.json == json && Follows([])
    {
      this.time, this.json := time, json;
      stdout, stderr, rows := EMPTY, EMPTY, [];
    }

    method SetState(s: Stream, p: Partial)
      modifies this`stdout, this`stderr
      ensures State(s) == p && forall t :: t != s ==> State(t) == old(State(t))
    {
      if s.Stdout? {
        stdout := p;
      } else {
        stderr := p;
      }
    }

    method JoinPartialLines(line: CriLine, ghost fragments: seq<bytes>) returns (r: JoinResult)
      requires Holds(State(line.stream), fragments)
      modifies this`stdout, this`stderr
      ensures forall t :: t != line.stream ==> State(t) == old(State(t))
      ensures Holds(State(line.stream), if line.partial then fragments + [line.content] else [])
      ensures r.NotReady? <==> line.partial
      ensures !line.partial ==> Emits(r, line) == Joined(fragments, line.content)
      ensures (r.FastPath? || r.Complete?) ==> r.timestamp == line.timestamp
    {
      var state := State(line.stream);
      StartsTooLargeMeans(fragments);
      if !line.partial && (state.content.None? || state.content.value == []) {
        SetState(line.stream, EMPTY);
        return FastPath(line.timestamp);
      }
      r := JoinPartialLinesSlow(line, fragments);
    }

    method JoinPartialLinesSlow(line: CriLine, ghost fragments: seq<bytes>) returns (r: JoinResult)
      requires Holds(State(line.stream), fragments)
      modifies this`stdout, this`stderr
      ensures forall t :: t != line.stream ==> State(t) == old(State(t))
      ensures Holds(State(line.stream), if line.partial then fragments + [line.content] else [])
      ensures r == if line.partial then NotReady
                   else if |Flatten(fragments + [line.content])| > MAX_LOG_LINE_SIZE then Skip
                   else Complete(line.timestamp, Flatten(fragments + [line.content]))
    {
      var state := State(line.stream);
      FlattenAppend(fragments, line.content);
      var size := state.size + |line.content|;
      var content := if state.content.None? then [] else state.content.value;
      if line.partial {
        assert (fragments + [line.content])[..|fragments|] == fragments;
        if size <= MAX_LOG_LINE_SIZE {
          content := content + line.content;
        } else {
          assert content + [] == content;
        }
        SetState(line.stream, Partial(Some(content), size));
        return NotReady;
      }
      SetState(line.stream, EMPTY);
      if size > MAX_LOG_LINE_SIZE {
        return Skip;
      }
      return Complete(line.timestamp, content + line.content);
    }

    method AddFragment(line: CriLine, ghost events: seq<Event>) returns (ok: bool)
      requires Follows(events)
      modifies this
      ensures Follows(events + [Fragment(line)]) && (ok <==> !line.partial)
    {
      assert (events + [Fragment(line)])[..|events|] == events;
      var r := JoinPartialLines(line, Pending(events, line.stream));
      assert State(Stdout) == stdout && State(Stderr) == stderr;
      var message := Emits(r, line);
      if message.Some? {
        rows := rows + [Row(FromStream(line.stream), r.timestamp, message.value)];
      }
      ok := r != NotReady;
    }

    method AddJson(timestamp: int, content: bytes, ghost events: seq<Event>)
      requires Follows(events)
      modifies this
      ensures Follows(events + [Json(timestamp, content)])
    {
      assert (events + [Json(timestamp, content)])[..|events|] == events;
      rows := rows + [Row(FromJson, timestamp, content)];
    }

    /** Every line but a fragment that is to be continued is to be committed. */
    method TryAddLine(b: bytes, ghost events: seq<Event>) returns (ok: bool)
      requires Follows(events)
      modifies this
      ensures var e := EventOf(time, json, b);
              Follows(events + [e]) && (ok <==> !(e.Fragment? && e.line.partial))
    {
      ghost var e := EventOf(time, json, b);
      if e.Invalid? || e.Ignored? {
        assert (events + [e])[..|events|] == events;
      }
      if b == [] {
        return true;
      }
      if b[0] == BRACE {
        match json(b) {
          case None =>
          case Some((timestamp, content)) => AddJson(timestamp, content, events);
        }
        return true;
      }
      match ParseCriLine(time, b) {
        case None =>
          stdout, stderr := EMPTY, EMPTY;
          return true;
        case Some(line) =>
          ok := AddFragment(line, events);
      }
    }
  }

  /** The message that is handed on, if there is one. */
  function Emits(r: JoinResult, line: CriLine): (m: Option<bytes>)
    ensures m.Some? ==> r.FastPath? || r.Complete?
  {
    match r
    case FastPath(_) => if line.content == [] then None else Some(line.content)
    case Complete(_, content) => if content == [] then None else Some(content)
    case _ => None
  }
}
