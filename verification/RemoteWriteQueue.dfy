/**
 The queue between logs and workers is the fast queue: the steps of the agent on its queue of
 batches are writes to and reads from the fast queue's blocks.
 */
module RemoteWriteQueue {
  import opened Bytes
  import opened RemoteWriteModel
  import opened RemoteWrite
  import FQ = FastQueueModel

  /** The fast queue, which keeps its blocks on disk if need be, holds the blocks of the queued batches. */
  ghost predicate Backs(f: FQ.State, s: State) {
    f.Inv() && !f.disabled && f.Contents() == Payloads(s.queue)
  }

  lemma PayloadsAppend(batches: seq<Batch>, b: Batch)
    ensures Payloads(batches + [b]) == Payloads(batches) + [Flatten(b)]
  {
  }

  /** A write that loses nothing always succeeds and appends the batch. */
  lemma WriteAppendsBatch(f: FQ.State, s: State, b: Batch, ignoreDisabled: bool, now: nat)
    requires Backs(f, s)
    ensures var (ok, g) := FQ.TryWrite(f, Flatten(b), ignoreDisabled, now, 0, 0);
            ok && Backs(g, s.(queue := s.queue + [b]))
  {
    FQ.WriteAppends(f, Flatten(b), ignoreDisabled, now, 0, 0);
    FQ.TryWriteKeeps(f, Flatten(b), ignoreDisabled, now, 0, 0);
    PayloadsAppend(s.queue, b);
  }

  /** Pushing a log's rows is a write to the fast queue, which is never refused. */
  lemma PushIsWrite(f: FQ.State, s: State, p: nat, ignoreDisabled: bool, now: nat)
    requires Backs(f, s) && p < |s.pending| && s.pending[p] != []
    ensures var (ok, g) := FQ.TryWrite(f, Flatten(s.pending[p]), ignoreDisabled, now, 0, 0);
            ok && Backs(g, Push(s, p))
  {
    WriteAppendsBatch(f, s, s.pending[p], ignoreDisabled, now);
  }

  /** A worker's block that stays unsent is written back. */
  lemma ReturnIsWrite(f: FQ.State, s: State, w: nat, now: nat)
    requires Backs(f, s) && Inv(s) && Enabled(s, Finish(w, Unsent))
    ensures var (ok, g) := FQ.TryWrite(f, Flatten(s.hands[w]), true, now, 0, 0);
            ok && Backs(g, Step(s, Finish(w, Unsent)))
  {
    WriteAppendsBatch(f, s, s.hands[w], true, now);
  }

  /** The fast queue as a reader finds it that comes, or that was notified and goes on. */
  function ForReader(f: FQ.State, resumed: bool): FQ.State
    requires resumed ==> f.notified > 0
  {
    if resumed then f.(notified := f.notified - 1) else f
  }

  /**
   What a worker reads is the block of the oldest batch. It gets nothing only after a stop, and
   waits only on an empty queue.
   */
  lemma ReadIsTake(f: FQ.State, s: State, w: nat, resumed: bool, now: nat)
    requires Backs(f, s) && Inv(s) && w < |s.hands| && !s.exited[w] && s.hands[w] == []
    requires resumed ==> f.notified > 0
    ensures var (r, g) := FQ.Read(ForReader(f, resumed), now, 0);
            && (r.Got? ==> && s.queue != [] && r.block == Flatten(s.queue[0])
                           && Backs(g, Step(s, ReadBlock(w))))
            && (!r.Got? ==> Backs(g, s))
            && (r.Waits? ==> s.queue == [])
            && (r.Stopped? ==> f.stopDeadline > 0)
            && g.stopDeadline == f.stopDeadline
  {
    var f0 := ForReader(f, resumed);
    FQ.ReadTakesOldest(f0, now);
    ReaderLeaves(f, resumed, now);
    var (r, g) := FQ.Read(f0, now, 0);
    if r.Got? {
      OldestTaken(s, r.block, g);
    }
  }

  lemma ReaderLeaves(f: FQ.State, resumed: bool, now: nat)
    requires f.Inv() && (resumed ==> f.notified > 0)
    ensures var (_, g) := FQ.Read(ForReader(f, resumed), now, 0);
            g.Inv() && g.disabled == f.disabled && g.stopDeadline == f.stopDeadline
  {
    if resumed {
      FQ.ReadResumeKeeps(f, now, 0);
    } else {
      FQ.ReadKeeps(f, now, 0);
    }
  }

  lemma OldestTaken(s: State, block: bytes, g: FQ.State)
    requires Payloads(s.queue) == [block] + g.Contents()
    ensures s.queue != [] && block == Flatten(s.queue[0]) && g.Contents() == Payloads(s.queue[1..])
  {
    assert Payloads(s.queue)[0] == block && Payloads(s.queue)[1..] == g.Contents();
    assert Payloads(s.queue)[1..] == Payloads(s.queue[1..]);
  }

  // ----- the agent and the fast queue together

  datatype Joint = Joint(agent: State, fast: FQ.State)

  /** What anyone does to both at once, under the fast queue's mutex. */
  datatype Move =
    | Logs(e: Event, now: nat)
    | Unblock(now: nat)
    | StopsClient
    | Reads(w: nat, resumed: bool, now: nat)
    | Settles(w: nat, verdict: Verdict, now: nat)
    | SpuriousWake

  /** Nobody asks for anything but what the sources ask for; whether a read gets a block is up to the fast queue. */
  predicate Possible(j: Joint, m: Move)
    requires Inv(j.agent)
  {
    match m
    case Logs(e, _) => IsLogStep(e) && Enabled(j.agent, e) && (e.AddLogRow? ==> e.row != [])
    case Unblock(_) => Enabled(j.agent, UnblockReaders)
    case StopsClient => Enabled(j.agent, StopClient)
    case Reads(w, resumed, _) =>
      && w < |j.agent.hands| && !j.agent.exited[w] && j.agent.hands[w] == []
      && (resumed ==> j.fast.notified > 0)
    case Settles(w, verdict, _) => Enabled(j.agent, Finish(w, verdict))
    case SpuriousWake => j.fast.sleeping > 0
  }

  /** The data that a step of a log writes, if any, as the source decides it on the pending bytes. */
  function DataOf(s: State, e: Event): Option<bytes>
    requires Inv(s) && IsLogStep(e) && Enabled(s, e)
  {
    var pending := Flatten(s.pending[e.p]);
    match e
    case AddLogRow(_, row, maxSize) => if |pending + row| > maxSize then Some(pending + row) else None
    case _ => if pending == [] then None else Some(pending)
  }

  /** The write, and whether it is accepted; logs that stop insist on it. */
  function WriteOf(f: FQ.State, s: State, e: Event, now: nat): (bool, FQ.State)
    requires Inv(s) && IsLogStep(e) && Enabled(s, e)
  {
    match DataOf(s, e)
    case None => (true, f)
    case Some(data) => FQ.TryWrite(f, data, e.StopPending?, now, 0, 0)
  }

  function ReturnOf(f: FQ.State, s: State, w: nat, verdict: Verdict, now: nat): (bool, FQ.State)
    requires w < |s.hands|
  {
    if verdict.Unsent? then FQ.TryWrite(f, Flatten(s.hands[w]), true, now, 0, 0) else (true, f)
  }

  /** What a worker does with the outcome of its read. */
  function AfterRead(s: State, w: nat, r: FQ.ReadResult): State
    requires Inv(s) && w < |s.hands| && !s.exited[w] && s.hands[w] == []
  {
    match r
    case Got(_) => if s.queue == [] then s else Step(s, ReadBlock(w))
    case Stopped => s.(exited := s.exited[w := true])
    case Waits => s
  }

  function After(j: Joint, m: Move): Joint
    requires Inv(j.agent) && j.fast.memBytes == FQ.Size(j.fast.mem) && Possible(j, m)
  {
    match m
    case Logs(e, now) => Joint(Step(j.agent, e), WriteOf(j.fast, j.agent, e, now).1)
    case Unblock(now) => Joint(Step(j.agent, UnblockReaders), FQ.Unblock(j.fast, now))
    case StopsClient => Joint(Step(j.agent, StopClient), j.fast)
    case Reads(w, resumed, now) =>
      var (r, g) := FQ.Read(ForReader(j.fast, resumed), now, 0);
      Joint(AfterRead(j.agent, w, r), g)
    case Settles(w, verdict, now) =>
      Joint(Step(j.agent, Finish(w, verdict)), ReturnOf(j.fast, j.agent, w, verdict, now).1)
    case SpuriousWake =>
      Joint(j.agent, j.fast.(sleeping := j.fast.sleeping - 1, notified := j.fast.notified + 1))
  }

  /** Marshalled rows are not empty. */
  ghost predicate RowsHaveData(s: State) {
    forall p :: 0 <= p < |s.pending| ==> HasData(s.pending[p])
  }

  ghost predicate HasData(b: Batch) {
    forall i :: 0 <= i < |b| ==> b[i] != []
  }

  ghost predicate Together(j: Joint) {
    && Inv(j.agent) && Backs(j.fast, j.agent) && RowsHaveData(j.agent)
    && (j.fast.stopDeadline > 0 ==> j.agent.unblocked)
  }

  lemma WriteKeepsDeadline(f: FQ.State, block: bytes, ignoreDisabled: bool, now: nat)
    ensures FQ.TryWrite(f, block, ignoreDisabled, now, 0, 0).1.stopDeadline == f.stopDeadline
  {
  }

  /** What the source decides on bytes is what the agent's step decides on rows. */
  lemma DataIsBatch(s: State, e: Event)
    requires Inv(s) && IsLogStep(e) && Enabled(s, e) && RowsHaveData(s) && (e.AddLogRow? ==> e.row != [])
    ensures RowsHaveData(Step(s, e))
    ensures match DataOf(s, e)
            case None => Step(s, e).queue == s.queue
            case Some(data) => exists b :: data == Flatten(b) && Step(s, e).queue == s.queue + [b]
  {
    var b := s.pending[e.p];
    assert HasData(b);
    NoDataNoRows(b);
    if e.AddLogRow? {
      FlattenAppend(b, e.row);
      var t := Accept(s, e.p, e.row);
      assert t.pending[e.p] == b + [e.row];
      assert HasData(b + [e.row]);
    } else {
      assert HasData([]);
    }
  }

  lemma LogsMove(j: Joint, e: Event, now: nat)
    requires Together(j) && Possible(j, Logs(e, now))
    ensures WriteOf(j.fast, j.agent, e, now).0
    ensures Together(Joint(Step(j.agent, e), WriteOf(j.fast, j.agent, e, now).1))
  {
    var s, t := j.agent, Step(j.agent, e);
    DataIsBatch(s, e);
    StepKeeps(s, e);
    LogStepKeeps(s, e);
    match DataOf(s, e)
    case None =>
    case Some(data) =>
      var b :| data == Flatten(b) && t.queue == s.queue + [b];
      WriteAppendsBatch(j.fast, s, b, e.StopPending?, now);
      WriteKeepsDeadline(j.fast, data, e.StopPending?, now);
  }

  lemma SettlesMove(j: Joint, w: nat, verdict: Verdict, now: nat)
    requires Together(j) && Possible(j, Settles(w, verdict, now))
    ensures ReturnOf(j.fast, j.agent, w, verdict, now).0
    ensures Together(Joint(Step(j.agent, Finish(w, verdict)), ReturnOf(j.fast, j.agent, w, verdict, now).1))
  {
    var e := Finish(w, verdict);
    StepKeeps(j.agent, e);
    OtherStepKeeps(j.agent, e);
    if verdict.Unsent? {
      ReturnIsWrite(j.fast, j.agent, w, now);
      WriteKeepsDeadline(j.fast, Flatten(j.agent.hands[w]), true, now);
    }
  }

  /** A worker gets the oldest batch, or leaves only after a stop: both are steps of the agent. */
  lemma ReadsMove(j: Joint, w: nat, resumed: bool, now: nat) returns (run: seq<Event>)
    requires Together(j) && Possible(j, Reads(w, resumed, now))
    ensures var (r, g) := FQ.Read(ForReader(j.fast, resumed), now, 0);
            var s := AfterRead(j.agent, w, r);
            && Together(Joint(s, g)) && IsRun(j.agent, run, s)
            && (r.Got? ==> r.block == Flatten(s.hands[w]))
  {
    ReadIsTake(j.fast, j.agent, w, resumed, now);
    var (r, g) := FQ.Read(ForReader(j.fast, resumed), now, 0);
    run := ReadEnds(j, w, r, g);
  }

  lemma ReadEnds(j: Joint, w: nat, r: FQ.ReadResult, g: FQ.State) returns (run: seq<Event>)
    requires Together(j) && w < |j.agent.hands| && !j.agent.exited[w] && j.agent.hands[w] == []
    requires r.Got? ==> && j.agent.queue != [] && r.block == Flatten(j.agent.queue[0])
                        && Backs(g, Step(j.agent, ReadBlock(w)))
    requires !r.Got? ==> Backs(g, j.agent)
    requires r.Stopped? ==> j.fast.stopDeadline > 0
    requires g.stopDeadline == j.fast.stopDeadline
    ensures var s := AfterRead(j.agent, w, r);
            && Together(Joint(s, g)) && IsRun(j.agent, run, s)
            && (r.Got? ==> r.block == Flatten(s.hands[w]))
  {
    if r.Waits? {
      run := [];
    } else {
      var e := if r.Got? then ReadBlock(w) else ReadNothing(w);
      StepKeeps(j.agent, e);
      OtherStepKeeps(j.agent, e);
      OneStep(j.agent, e);
      run := [e];
    }
  }

  /** Every move keeps both together, no write is refused, and the agent takes its own steps. */
  lemma MoveMeans(j: Joint, m: Move) returns (run: seq<Event>)
    requires Together(j) && Possible(j, m)
    ensures Together(After(j, m)) && IsRun(j.agent, run, After(j, m).agent)
    ensures m.Logs? ==> WriteOf(j.fast, j.agent, m.e, m.now).0
    ensures m.Settles? ==> ReturnOf(j.fast, j.agent, m.w, m.verdict, m.now).0
  {
    match m
    case Logs(e, now) =>
      LogsMove(j, e, now);
      OneStep(j.agent, e);
      run := [e];
    case Settles(w, verdict, now) =>
      SettlesMove(j, w, verdict, now);
      OneStep(j.agent, Finish(w, verdict));
      run := [Finish(w, verdict)];
    case Reads(w, resumed, now) =>
      run := ReadsMove(j, w, resumed, now);
    case Unblock(now) =>
      OneStep(j.agent, UnblockReaders);
      run := [UnblockReaders];
    case StopsClient =>
      OneStep(j.agent, StopClient);
      run := [StopClient];
    case SpuriousWake =>
      run := [];
  }

  /** Moves of anyone, each possible where it is made. */
  ghost predicate MovesTo(j: Joint, moves: seq<Move>, k: Joint)
    decreases |moves|
  {
    if moves == [] then k == j
    else
      && Inv(j.agent) && j.fast.memBytes == FQ.Size(j.fast.mem) && Possible(j, moves[0])
      && MovesTo(After(j, moves[0]), moves[1..], k)
  }

  /** Over every run of both, the fast queue holds the queued batches, and the agent's part is a run of its own. */
  lemma {:induction false} RunTogether(j: Joint, moves: seq<Move>, k: Joint) returns (run: seq<Event>)
    requires Together(j) && MovesTo(j, moves, k)
    ensures Together(k) && IsRun(j.agent, run, k.agent)
    decreases |moves|
  {
    if moves == [] {
      run := [];
    } else {
      var next := After(j, moves[0]);
      var first := MoveMeans(j, moves[0]);
      var rest := RunTogether(next, moves[1..], k);
      RunOn(j.agent, first, next.agent, rest, k.agent);
      run := first + rest;
    }
  }

  function Begin(logs: nat, workers: nat, capacity: nat, now: nat): Joint {
    Joint(Start(logs, workers), FQ.State([], [], capacity, 0, now, 0, false, 0, 0))
  }

  /**
   From the start, over every run of logs, workers, stopping and the fast queue: every accepted row
   is in exactly one place, the fast queue holds the blocks of the queued ones in order, and no
   worker sleeps on a block that nobody was woken for.
   */
  lemma NoRowIsLost(logs: nat, workers: nat, capacity: nat, now: nat, moves: seq<Move>, k: Joint)
    requires MovesTo(Begin(logs, workers, capacity, now), moves, k)
    ensures Conserved(k.agent) && k.fast.Contents() == Payloads(k.agent.queue)
    ensures k.fast.sleeping > 0 && k.agent.queue != [] ==> k.fast.notified > 0
  {
    var j := Begin(logs, workers, capacity, now);
    StartHolds(logs, workers);
    assert Together(j);
    var run := RunTogether(j, moves, k);
    RunConserves(j.agent, run, k.agent);
  }

  /** Once all have stopped, the rows that were not answered for are in the fast queue's blocks. */
  lemma StoppedKeepsRest(logs: nat, workers: nat, capacity: nat, now: nat, moves: seq<Move>, k: Joint, row: Row)
    requires MovesTo(Begin(logs, workers, capacity, now), moves, k) && AllStopped(k.agent)
    ensures k.fast.Contents() == Payloads(k.agent.queue)
    ensures Occurrences(k.agent.accepted, row)
            == Count(k.agent.queue, row) + Count(k.agent.acked, row) + Count(k.agent.rejected, row)
  {
    var j := Begin(logs, workers, capacity, now);
    StartHolds(logs, workers);
    assert Together(j);
    var run := RunTogether(j, moves, k);
    StoppedLosesNothing(logs, workers, run, k.agent, row);
  }
}
