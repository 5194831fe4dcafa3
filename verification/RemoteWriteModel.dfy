/**
 Where the log rows are on their way to the remote storage: `PendingLogs`, the queue, the workers
 of `Client` and the remote storage itself (crates/esl-agent/src/remotewrite.rs). The queue is the
 FIFO that `FastQueue` refines; a block stands for the rows that are compressed into it.
 */
module RemoteWriteModel {
  import opened Bytes

  type Row = bytes
  type Batch = seq<Row>

  /**
   `flushed` tells which of the pending logs have been stopped and `exited` which workers have
   returned; an empty hand is an empty batch.
   */
  datatype State = State(
    accepted: seq<Row>,
    pending: seq<Batch>, queue: seq<Batch>, hands: seq<Batch>, acked: seq<Batch>, rejected: seq<Batch>,
    flushed: seq<bool>, unblocked: bool, stopped: bool, exited: seq<bool>)

  /** How often a row occurs. */
  function Occurrences(b: Batch, row: Row): nat {
    if b == [] then 0
    else Occurrences(b[..|b| - 1], row) + if b[|b| - 1] == row then 1 else 0
  }

  function Count(batches: seq<Batch>, row: Row): nat {
    if batches == [] then 0
    else Count(batches[..|batches| - 1], row) + Occurrences(batches[|batches| - 1], row)
  }

  /** How often a row occurs in all places together. */
  function Total(s: State, row: Row): nat {
    Count(s.pending, row) + Count(s.queue, row) + Count(s.hands, row) + Count(s.acked, row) + Count(s.rejected, row)
  }

  /** Every accepted row is in exactly one place. */
  ghost predicate Conserved(s: State) {
    forall row :: Total(s, row) == Occurrences(s.accepted, row)
  }

  /** Batches that are queued are not empty, and what has stopped holds nothing. */
  predicate Inv(s: State) {
    && |s.flushed| == |s.pending| && |s.exited| == |s.hands|
    && (forall i :: 0 <= i < |s.queue| ==> s.queue[i] != [])
    && (forall p :: 0 <= p < |s.pending| && s.flushed[p] ==> s.pending[p] == [])
    && (forall w :: 0 <= w < |s.hands| && s.exited[w] ==> s.hands[w] == [])
  }

  // ----- rows of batches

  lemma OccurrencesAppend(b: Batch, last: Row, row: Row)
    ensures Occurrences(b + [last], row) == Occurrences(b, row) + if last == row then 1 else 0
  {
    assert (b + [last])[..|b|] == b;
  }

  lemma CountAppend(batches: seq<Batch>, b: Batch, row: Row)
    ensures Count(batches + [b], row) == Count(batches, row) + Occurrences(b, row)
  {
    assert (batches + [b])[..|batches|] == batches;
  }

  lemma {:induction false} CountFirst(batches: seq<Batch>, row: Row)
    requires batches != []
    ensures Count(batches, row) == Occurrences(batches[0], row) + Count(batches[1..], row)
  {
    var n := |batches| - 1;
    if n == 0 {
      assert batches[..n] == [] && batches[1..] == [];
    } else {
      CountFirst(batches[..n], row);
      assert batches[..n][1..] == batches[1..][..n - 1];
    }
  }

  lemma {:induction false} CountUpdate(batches: seq<Batch>, i: nat, b: Batch, row: Row)
    requires i < |batches|
    ensures Count(batches[i := b], row) == Count(batches, row) - Occurrences(batches[i], row) + Occurrences(b, row)
  {
    var n := |batches| - 1;
    if i == n {
      assert batches[i := b][..n] == batches[..n];
    } else {
      CountUpdate(batches[..n], i, b, row);
      assert batches[i := b][..n] == batches[..n][i := b];
    }
  }

  // ----- the steps

  /** Pushes what is pending, if anything is. */
  function Push(s: State, p: nat): State
    requires p < |s.pending|
  {
    if s.pending[p] == [] then s
    else s.(pending := s.pending[p := []], queue := s.queue + [s.pending[p]])
  }

  function Accept(s: State, p: nat, row: Row): State
    requires p < |s.pending|
  {
    s.(accepted := s.accepted + [row], pending := s.pending[p := s.pending[p] + [row]])
  }

  datatype Verdict = Acked | Rejected | Unsent

  datatype Event =
    | AddLogRow(p: nat, row: Row, maxSize: nat)
    | Flush(p: nat)
    | StopPending(p: nat)
    | UnblockReaders
    | StopClient
    | ReadBlock(w: nat)
    | ReadNothing(w: nat)
    | Finish(w: nat, verdict: Verdict)

  /**
   Rows come only while the logs are not stopped. Readers are unblocked once all logs are, and
   the client is stopped after that. A read fails only when readers are unblocked and a block
   stays unsent only when the client is stopped.
   */
  predicate Enabled(s: State, e: Event)
    requires |s.flushed| == |s.pending| && |s.exited| == |s.hands|
  {
    match e
    case AddLogRow(p, _, _) => p < |s.pending| && !s.flushed[p]
    case Flush(p) => p < |s.pending| && !s.flushed[p]
    case StopPending(p) => p < |s.pending|
    case UnblockReaders => forall p :: 0 <= p < |s.flushed| ==> s.flushed[p]
    case StopClient => s.unblocked
    case ReadBlock(w) => w < |s.hands| && !s.exited[w] && s.hands[w] == [] && s.queue != []
    case ReadNothing(w) => w < |s.hands| && s.hands[w] == [] && s.unblocked
    case Finish(w, verdict) => w < |s.hands| && s.hands[w] != [] && (verdict.Unsent? ==> s.stopped)
  }

  function Step(s: State, e: Event): State
    requires |s.flushed| == |s.pending| && |s.exited| == |s.hands| && Enabled(s, e)
  {
    match e
    case AddLogRow(p, row, maxSize) =>
      var t := Accept(s, p, row);
      if |Flatten(t.pending[p])| > maxSize then Push(t, p) else t
    case Flush(p) => Push(s, p)
    case StopPending(p) => Push(s, p).(flushed := s.flushed[p := true])
    case UnblockReaders => s.(unblocked := true)
    case StopClient => s.(stopped := true)
    case ReadBlock(w) => s.(hands := s.hands[w := s.queue[0]], queue := s.queue[1..])
    case ReadNothing(w) => s.(exited := s.exited[w := true])
    case Finish(w, verdict) =>
      var t := s.(hands := s.hands[w := []]);
      if verdict.Acked? then t.(acked := s.acked + [s.hands[w]])
      else if verdict.Rejected? then t.(rejected := s.rejected + [s.hands[w]])
      else t.(queue := s.queue + [s.hands[w]], exited := s.exited[w := true])
  }

  /** Rows are collected until their data is over the limit, and then become a block at once. */
  lemma RowsAreCollected(s: State, p: nat, row: Row, maxSize: nat)
    requires Inv(s) && Enabled(s, AddLogRow(p, row, maxSize))
    ensures var t, rows := Step(s, AddLogRow(p, row, maxSize)), s.pending[p] + [row];
            && |Flatten(t.pending[p])| <= maxSize
            && (|Flatten(rows)| > maxSize ==> t.queue == s.queue + [rows] && t.pending[p] == [])
            && (|Flatten(rows)| <= maxSize ==> t.queue == s.queue && t.pending[p] == rows)
            && (forall q :: 0 <= q < |s.pending| && q != p ==> t.pending[q] == s.pending[q])
  {
  }

  // ----- conservation

  /** Nothing but acceptance changes the number of rows. */
  lemma PushConserves(s: State, p: nat, row: Row)
    requires p < |s.pending|
    ensures Total(Push(s, p), row) == Total(s, row)
  {
    if s.pending[p] != [] {
      CountUpdate(s.pending, p, [], row);
      CountAppend(s.queue, s.pending[p], row);
    }
  }

  lemma AcceptCounts(s: State, p: nat, r: Row, row: Row)
    requires p < |s.pending|
    ensures var t := Accept(s, p, r);
            Total(t, row) - Occurrences(t.accepted, row) == Total(s, row) - Occurrences(s.accepted, row)
  {
    CountUpdate(s.pending, p, s.pending[p] + [r], row);
    OccurrencesAppend(s.pending[p], r, row);
    OccurrencesAppend(s.accepted, r, row);
  }

  lemma ReadConserves(s: State, w: nat, row: Row)
    requires w < |s.hands| && s.hands[w] == [] && s.queue != []
    ensures Total(s.(hands := s.hands[w := s.queue[0]], queue := s.queue[1..]), row) == Total(s, row)
  {
    CountFirst(s.queue, row);
    CountUpdate(s.hands, w, s.queue[0], row);
  }

  lemma FinishConserves(s: State, w: nat, verdict: Verdict, row: Row)
    requires Inv(s) && Enabled(s, Finish(w, verdict))
    ensures Total(Step(s, Finish(w, verdict)), row) == Total(s, row)
  {
    CountUpdate(s.hands, w, [], row);
    CountAppend(s.acked, s.hands[w], row);
    CountAppend(s.rejected, s.hands[w], row);
    CountAppend(s.queue, s.hands[w], row);
  }

  lemma AddCounts(s: State, e: Event, row: Row)
    requires Inv(s) && Enabled(s, e) && e.AddLogRow?
    ensures var t := Step(s, e);
            Total(t, row) - Occurrences(t.accepted, row) == Total(s, row) - Occurrences(s.accepted, row)
  {
    AcceptCounts(s, e.p, e.row, row);
    PushConserves(Accept(s, e.p, e.row), e.p, row);
  }

  lemma StepCounts(s: State, e: Event, row: Row)
    requires Inv(s) && Enabled(s, e)
    ensures var t := Step(s, e);
            Total(t, row) - Occurrences(t.accepted, row) == Total(s, row) - Occurrences(s.accepted, row)
  {
    match e {
      case AddLogRow(_, _, _) => AddCounts(s, e, row);
      case Flush(p) => PushConserves(s, p, row);
      case StopPending(p) => PushConserves(s, p, row);
      case ReadBlock(w) => ReadConserves(s, w, row);
      case Finish(w, verdict) => FinishConserves(s, w, verdict, row);
      case _ =>
    }
  }

  lemma PushKeeps(s: State, p: nat)
    requires Inv(s) && p < |s.pending|
    ensures Inv(Push(s, p)) && Push(s, p).pending[p] == []
  {
  }

  lemma AcceptKeeps(s: State, p: nat, row: Row)
    requires Inv(s) && p < |s.pending| && !s.flushed[p]
    ensures Inv(Accept(s, p, row))
  {
  }

  lemma ReaderKeeps(s: State, e: Event)
    requires Inv(s) && Enabled(s, e) && (e.ReadBlock? || e.ReadNothing?)
    ensures Inv(Step(s, e))
  {
  }

  lemma FinishKeeps(s: State, w: nat, verdict: Verdict)
    requires Inv(s) && Enabled(s, Finish(w, verdict))
    ensures Inv(Step(s, Finish(w, verdict)))
  {
  }

  lemma StepKeeps(s: State, e: Event)
    requires Inv(s) && Enabled(s, e)
    ensures Inv(Step(s, e))
  {
    match e {
      case AddLogRow(p, row, _) =>
        AcceptKeeps(s, p, row);
        PushKeeps(Accept(s, p, row), p);
      case Flush(p) => PushKeeps(s, p);
      case StopPending(p) => PushKeeps(s, p);
      case UnblockReaders =>
      case StopClient =>
      case Finish(w, verdict) => FinishKeeps(s, w, verdict);
      case _ => ReaderKeeps(s, e);
    }
  }

  /** Reading takes the oldest block, and everything else adds blocks at the end of the queue. */
  lemma StepIsFifo(s: State, e: Event)
    requires Inv(s) && Enabled(s, e)
    ensures var t := Step(s, e);
            if e.ReadBlock? then s.queue == [t.hands[e.w]] + t.queue else s.queue <= t.queue
  {
  }

  lemma StepConserves(s: State, e: Event)
    requires Inv(s) && Enabled(s, e) && Conserved(s)
    ensures Conserved(Step(s, e))
  {
    forall row
      ensures Total(Step(s, e), row) == Occurrences(Step(s, e).accepted, row)
    {
      StepCounts(s, e, row);
    }
  }

  function Start(logs: nat, workers: nat): State {
    State([], seq(logs, _ => []), [], seq(workers, _ => []), [], [], seq(logs, _ => false), false, false,
          seq(workers, _ => false))
  }

  lemma {:induction false} NoRows(batches: seq<Batch>, row: Row)
    requires forall i :: 0 <= i < |batches| ==> batches[i] == []
    ensures Count(batches, row) == 0
  {
    if batches != [] {
      NoRows(batches[..|batches| - 1], row);
    }
  }

  lemma StartHolds(logs: nat, workers: nat)
    ensures Inv(Start(logs, workers)) && Conserved(Start(logs, workers))
  {
    var s := Start(logs, workers);
    forall row
      ensures Total(s, row) == Occurrences(s.accepted, row)
    {
      NoRows(s.pending, row);
      NoRows(s.hands, row);
    }
  }

  /** The steps of a run, each possible where it is taken. */
  ghost predicate IsRun(s: State, events: seq<Event>, t: State)
    decreases |events|
  {
    if events == [] then t == s
    else Inv(s) && Enabled(s, events[0]) && IsRun(Step(s, events[0]), events[1..], t)
  }

  lemma {:induction false} RunOn(s: State, first: seq<Event>, t: State, second: seq<Event>, u: State)
    requires IsRun(s, first, t) && IsRun(t, second, u)
    ensures IsRun(s, first + second, u)
    decreases |first|
  {
    if first == [] {
      assert first + second == second;
    } else {
      var all, mid := first + second, Step(s, first[0]);
      assert all[0] == first[0] && all[1..] == first[1..] + second;
      RunOn(mid, first[1..], t, second, u);
      assert IsRun(mid, all[1..], u);
    }
  }

  lemma OneStep(s: State, e: Event)
    requires Inv(s) && Enabled(s, e)
    ensures IsRun(s, [e], Step(s, e))
  {
    var events := [e];
    assert events[1..] == [];
    assert IsRun(Step(s, e), events[1..], Step(s, e));
  }

  lemma RunThen(s: State, events: seq<Event>, t: State, e: Event)
    requires IsRun(s, events, t) && Inv(t) && Enabled(t, e)
    ensures IsRun(s, events + [e], Step(t, e))
  {
    OneStep(t, e);
    RunOn(s, events, t, [e], Step(t, e));
  }

  /** At all times every accepted row is in exactly one place. */
  lemma {:induction false} RunConserves(s: State, events: seq<Event>, t: State)
    requires Inv(s) && Conserved(s) && IsRun(s, events, t)
    ensures Inv(t) && Conserved(t)
    decreases |events|
  {
    if events != [] {
      StepKeeps(s, events[0]);
      StepConserves(s, events[0]);
      RunConserves(Step(s, events[0]), events[1..], t);
    }
  }

  /** All logs and all workers have stopped, which is what stopping waits for. */
  predicate AllStopped(s: State) {
    && (forall p :: 0 <= p < |s.flushed| ==> s.flushed[p])
    && (forall w :: 0 <= w < |s.exited| ==> s.exited[w])
  }

  /** After stopping every accepted row has been answered for or is in the queue. */
  lemma StoppedLosesNothing(logs: nat, workers: nat, events: seq<Event>, t: State, row: Row)
    requires IsRun(Start(logs, workers), events, t) && AllStopped(t)
    ensures forall p :: 0 <= p < |t.pending| ==> t.pending[p] == []
    ensures forall w :: 0 <= w < |t.hands| ==> t.hands[w] == []
    ensures Occurrences(t.accepted, row) == Count(t.queue, row) + Count(t.acked, row) + Count(t.rejected, row)
  {
    StartHolds(logs, workers);
    RunConserves(Start(logs, workers), events, t);
    NoRows(t.pending, row);
    NoRows(t.hands, row);
    assert Total(t, row) == Occurrences(t.accepted, row);
  }

  // ----- the order of stopping

  lemma {:induction false} StopsHappened(s: State, events: seq<Event>, t: State)
    requires IsRun(s, events, t)
    ensures t.unblocked && !s.unblocked ==> UnblockReaders in events
    ensures t.stopped && !s.stopped ==> StopClient in events
    decreases |events|
  {
    if events != [] {
      StopsHappened(Step(s, events[0]), events[1..], t);
      assert events == [events[0]] + events[1..];
    }
  }

  lemma {:induction false} RunUpTo(s: State, events: seq<Event>, t: State, i: nat) returns (mid: State)
    requires IsRun(s, events, t) && i < |events|
    ensures IsRun(s, events[..i], mid) && Inv(mid) && Enabled(mid, events[i])
    decreases |events|
  {
    if i == 0 {
      mid := s;
      assert events[..0] == [];
    } else {
      mid := RunUpTo(Step(s, events[0]), events[1..], t, i - 1);
      assert events[..i][0] == events[0] && events[..i][1..] == events[1..][..i - 1];
      assert events[1..][i - 1] == events[i];
    }
  }

  /**
   In every run from the start: no worker leaves for want of blocks before readers are unblocked,
   no block stays unsent before the client is stopped, and the client is stopped only after that.
   */
  lemma StoppingIsOrdered(logs: nat, workers: nat, events: seq<Event>, t: State, i: nat)
    requires IsRun(Start(logs, workers), events, t) && i < |events|
    ensures events[i].ReadNothing? || events[i].StopClient? ==> UnblockReaders in events[..i]
    ensures events[i].Finish? && events[i].verdict.Unsent? ==> StopClient in events[..i]
  {
    var mid := RunUpTo(Start(logs, workers), events, t, i);
    StopsHappened(Start(logs, workers), events[..i], mid);
  }
}
