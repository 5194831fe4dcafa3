/**
 `PendingLogs`, `send_block_http` and `run_worker` in crates/esl-agent/src/remotewrite.rs.
 Compression is the identity here: a block is the data that is compressed into it.
 */
module RemoteWrite {
  import opened Bytes
  import opened RemoteWriteModel

  // ----- collecting rows

  /** Marshalled rows are not empty, so a batch without data is one without rows. */
  lemma {:induction false} NoDataNoRows(b: Batch)
    requires forall i :: 0 <= i < |b| ==> b[i] != []
    ensures Flatten(b) == [] <==> b == []
  {
    if b != [] {
      assert b[|b| - 1] != [];
    }
  }

  lemma WrittenOnce(written: seq<bytes>, data: bytes)
    ensures Flatten(written + [data]) + [] == Flatten(written) + data
  {
    FlattenAppend(written, data);
  }

  class PendingLogs {
    const maxUnpackedBlockSize: nat
    var pendingData: bytes
    var pendingLogRowsCount: nat
    /** The blocks that went to the queue. */
    var written: seq<bytes>

    ghost predicate Holds(b: Batch)
      reads this
    {
      && pendingData == Flatten(b) && pendingLogRowsCount == |b|
      && forall i :: 0 <= i < |b| ==> b[i] != []
    }

    /** All data that came in, in order. */
    ghost function Data(): bytes
      reads this
    {
      Flatten(written) + pendingData
    }

    constructor (maxUnpackedBlockSize: nat)
      ensures this.maxUnpackedBlockSize == maxUnpackedBlockSize && Holds([]) && written == []
    {
      this.maxUnpackedBlockSize := maxUnpackedBlockSize;
      pendingData, pendingLogRowsCount, written := [], 0, [];
    }

    /**
     Passes on what is pending as one block; an empty one is never written. It is what `Push`
     does to log `p` in any state `s` of the agent in which these rows are pending there.
     */
    method Push(ghost s: State, ghost p: nat)
      requires p < |s.pending| && Holds(s.pending[p])
      modifies this
      ensures Data() == old(Data())
      ensures var t := RemoteWriteModel.Push(s, p);
              Holds(t.pending[p]) && written == old(written) + Payloads(t.queue[|s.queue|..])
      ensures pendingData == [] && written == old(written) + if old(pendingData) == [] then [] else [old(pendingData)]
    {
      ghost var b := s.pending[p];
      NoDataNoRows(b);
      PushedPayloads(s, p);
      if pendingData == [] {
        assert written + [] == written;
        return;
      }
      WrittenOnce(written, pendingData);
      written := written + [pendingData];
      pendingData, pendingLogRowsCount := [], 0;
    }

    /** The rows become a block together once their size is over the limit, as in the agent's step. */
    method AddLogRow(row: Row, ghost s: State, ghost p: nat)
      requires Inv(s) && Enabled(s, RemoteWriteModel.AddLogRow(p, row, maxUnpackedBlockSize))
      requires Holds(s.pending[p]) && row != []
      modifies this
      ensures Data() == old(Data()) + row
      ensures var t := Step(s, RemoteWriteModel.AddLogRow(p, row, maxUnpackedBlockSize));
              Holds(t.pending[p]) && written == old(written) + Payloads(t.queue[|s.queue|..])
      ensures |pendingData| <= maxUnpackedBlockSize
      ensures var data := old(pendingData) + row;
              if |data| > maxUnpackedBlockSize then written == old(written) + [data] && pendingData == []
              else written == old(written) && pendingData == data
    {
      ghost var b := s.pending[p];
      FlattenAppend(b, row);
      Associates(Flatten(written), pendingData, row);
      pendingData := pendingData + row;
      pendingLogRowsCount := pendingLogRowsCount + 1;
      ghost var t := Accept(s, p, row);
      assert t.pending[p] == b + [row];
      assert Holds(t.pending[p]);
      if |pendingData| > maxUnpackedBlockSize {
        Push(t, p);
      } else {
        assert written + [] == written;
      }
    }
  }

  /** The blocks of batches. */
  function Payloads(batches: seq<Batch>): (blocks: seq<bytes>)
    ensures |blocks| == |batches| && forall i :: 0 <= i < |blocks| ==> blocks[i] == Flatten(batches[i])
  {
    if batches == [] then [] else [Flatten(batches[0])] + Payloads(batches[1..])
  }

  lemma PushedPayloads(s: State, p: nat)
    requires p < |s.pending|
    ensures var t := RemoteWriteModel.Push(s, p);
            Payloads(t.queue[|s.queue|..]) == if s.pending[p] == [] then [] else [Flatten(s.pending[p])]
  {
    var t := RemoteWriteModel.Push(s, p);
    if s.pending[p] != [] {
      assert t.queue[|s.queue|..] == [s.pending[p]];
    }
  }

  // ----- sending

  /** The answer to a request: a transport error or a status code. */
  datatype Response = Failed | Status(code: nat)

  /** A request, and whether the client is stopped during the wait before the next one. */
  datatype Attempt = Attempt(response: Response, stopped: bool)

  predicate Succeeds(r: Response) {
    r.Status? && r.code / 100 == 2
  }

  predicate Refuses(r: Response) {
    r.Status? && (r.code == 400 || r.code == 404)
  }

  /** The attempt is followed by another one. */
  predicate Retried(a: Attempt) {
    !Succeeds(a.response) && !Refuses(a.response) && !a.stopped
  }

  /** Attempt `i` is the first that is not followed by another one. */
  predicate Last(attempts: seq<Attempt>, i: int) {
    0 <= i < |attempts| && !Retried(attempts[i]) && forall j :: 0 <= j < i ==> Retried(attempts[j])
  }

  /** What the last attempt says about the block. */
  predicate Decides(a: Attempt, verdict: Verdict) {
    match verdict
    case Acked => Succeeds(a.response)
    case Rejected => Refuses(a.response)
    case Unsent => !Succeeds(a.response) && !Refuses(a.response) && a.stopped
  }

  /** These attempts lead to this verdict. */
  ghost predicate Answered(attempts: seq<Attempt>, verdict: Verdict) {
    exists i :: Last(attempts, i) && Decides(attempts[i], verdict)
  }

  /** A block is delivered by a status of 200 to 299, refused by 400 and 404, and sent again after any other answer. */
  lemma AnswersMean(a: Attempt, verdict: Verdict)
    ensures Decides(a, Acked) <==> a.response.Status? && 200 <= a.response.code <= 299
    ensures Decides(a, Rejected) <==> a.response.Status? && a.response.code in {400, 404}
    ensures Retried(a) <==> !a.stopped && !Decides(a, Acked) && !Decides(a, Rejected)
    ensures Decides(a, Unsent) <==> a.stopped && !Decides(a, Acked) && !Decides(a, Rejected)
  {
  }

  /** The verdict is that of the last attempt, and there is none while all have been retried. */
  method SendBlockHttp(attempts: seq<Attempt>) returns (verdict: Option<Verdict>)
    ensures verdict.None? <==> forall j :: 0 <= j < |attempts| ==> Retried(attempts[j])
    ensures verdict.Some? ==> Answered(attempts, verdict.value)
  {
    var i := 0;
    while i < |attempts|
      invariant i <= |attempts|
      invariant forall j :: 0 <= j < i ==> Retried(attempts[j])
    {
      var response, stopped := attempts[i].response, attempts[i].stopped;
      if response.Failed? {
        if stopped {
          assert Last(attempts, i);
          return Some(Unsent);
        }
      } else if response.code / 100 == 2 {
        assert Last(attempts, i);
        return Some(Acked);
      } else if response.code == 400 || response.code == 404 {
        assert Last(attempts, i);
        return Some(Rejected);
      } else if stopped {
        assert Last(attempts, i);
        return Some(Unsent);
      }
      i := i + 1;
    }
    return None;
  }

  // ----- workers

  ghost predicate Sound(s: State) {
    Inv(s) && Conserved(s)
  }

  lemma StepIsSound(s: State, e: Event)
    requires Sound(s) && Enabled(s, e)
    ensures Sound(Step(s, e))
  {
    StepKeeps(s, e);
    StepConserves(s, e);
  }

  /** The step is one of worker `w`. */
  predicate StepOf(e: Event, w: nat) {
    (e.ReadBlock? || e.ReadNothing? || e.Finish?) && e.w == w
  }

  /** What the steps of others leave alone for worker `w`. */
  predicate Untouched(s: State, t: State, w: nat) {
    && |t.hands| == |s.hands| && |t.exited| == |s.exited| && w < |s.hands| && w < |s.exited|
    && t.hands[w] == s.hands[w] && t.exited[w] == s.exited[w]
    && (s.stopped ==> t.stopped) && (s.unblocked ==> t.unblocked)
  }

  predicate IsLogStep(e: Event) {
    e.AddLogRow? || e.Flush? || e.StopPending?
  }

  /** The steps of logs are not about workers. */
  lemma LogStepKeeps(s: State, e: Event)
    requires Inv(s) && Enabled(s, e) && IsLogStep(e)
    ensures var t := Step(s, e);
            && t.hands == s.hands && t.exited == s.exited && t.unblocked == s.unblocked && t.stopped == s.stopped
            && |t.pending| == |s.pending| && (t.flushed == s.flushed || e.StopPending?) && s.accepted <= t.accepted
  {
  }

  /** The steps of workers and of the agent are not about logs. */
  lemma OtherStepKeeps(s: State, e: Event)
    requires Inv(s) && Enabled(s, e) && !IsLogStep(e)
    ensures var t := Step(s, e);
            && t.pending == s.pending && t.flushed == s.flushed && t.accepted == s.accepted
            && |t.hands| == |s.hands| && |t.exited| == |s.exited|
            && (s.unblocked ==> t.unblocked) && (s.stopped ==> t.stopped)
  {
  }

  lemma OthersLeaveAlone(s: State, e: Event, w: nat)
    requires Inv(s) && Enabled(s, e) && !StepOf(e, w) && w < |s.hands|
    ensures Untouched(s, Step(s, e), w)
  {
    if IsLogStep(e) {
      LogStepKeeps(s, e);
    } else {
      OtherStepKeeps(s, e);
    }
  }

  /** The verdicts of worker `w` about the blocks in its hand, in order. */
  function Verdicts(events: seq<Event>, w: nat): seq<Verdict> {
    if events == [] then [] else
    var m := |events| - 1;
    Verdicts(events[..m], w) + if events[m].Finish? && events[m].w == w then [events[m].verdict] else []
  }

  lemma VerdictsThen(events: seq<Event>, e: Event, w: nat)
    ensures Verdicts(events + [e], w)
            == Verdicts(events, w) + if e.Finish? && e.w == w then [e.verdict] else []
  {
    assert (events + [e])[..|events|] == events;
  }

  /**
   A turn of a worker: what others do before it, whether it gets a block from a queue that is not
   empty, what others do meanwhile and the attempts to send the block.
   */
  datatype Turn = Turn(before: seq<Event>, gets: bool, meanwhile: seq<Event>, attempts: seq<Attempt>)

  /** What becomes of the block in hand. */
  ghost predicate Settled(block: Batch, w: nat, verdict: Verdict, t: State) {
    && w < |t.hands| && w < |t.exited| && t.hands[w] == []
    && var place := match verdict case Acked => t.acked case Rejected => t.rejected case Unsent => t.queue;
    && place != [] && place[|place| - 1] == block
  }

  lemma FinishMeans(s: State, w: nat, verdict: Verdict)
    requires Inv(s) && Enabled(s, Finish(w, verdict))
    ensures var t := Step(s, Finish(w, verdict));
            && Settled(s.hands[w], w, verdict, t)
            && (t.exited[w] <==> s.exited[w] || verdict.Unsent?)
  {
  }

  /** How a turn of a worker ends; `Sending` is one whose attempts have not come to an end. */
  datatype Next = On | Sending | Return

  ghost predicate NoneOf(events: seq<Event>, w: nat) {
    forall i :: 0 <= i < |events| ==> !StepOf(events[i], w)
  }

  lemma NoneThen(events: seq<Event>, e: Event, w: nat)
    requires !StepOf(e, w)
    ensures NoneOf(events, w) ==> NoneOf(events + [e], w)
  {
  }

  /** What happened in a turn: the steps of others until the worker's turn came, and the steps from there on. */
  datatype Segment = Segment(before: seq<Event>, mid: State, own: seq<Event>)

  /**
   The worker takes the oldest block if it gets one. Then its attempts decide, unless they have
   not come to an end or the client is not stopped yet. Without a block it leaves after a stop.
   */
  ghost predicate TookTurn(s: State, turn: Turn, w: nat, g: Segment, t: State, next: Next) {
    && IsRun(s, g.before, g.mid) && NoneOf(g.before, w) && IsRun(g.mid, g.own, t)
    && if g.mid.queue != [] && turn.gets then
         && g.own != [] && g.own[0] == ReadBlock(w)
         && SentAs(turn.attempts, Verdicts(g.own, w), next)
       else if g.mid.unblocked then g.own == [ReadNothing(w)] && next.Return?
       else g.own == [] && next.On?
  }

  ghost predicate SentAs(attempts: seq<Attempt>, verdicts: seq<Verdict>, next: Next) {
    match next
    case On => |verdicts| == 1 && Answered(attempts, verdicts[0]) && !verdicts[0].Unsent?
    case Return => verdicts == [Unsent] && Answered(attempts, Unsent)
    case Sending => verdicts == [] && forall v :: Answered(attempts, v) ==> v.Unsent?
  }

  /** The worker took these turns, one after the other; all but the last went on. */
  ghost predicate TookTurns(states: seq<State>, turns: seq<Turn>, w: nat, segments: seq<Segment>, next: Next) {
    && |states| == |segments| + 1 && |segments| <= |turns|
    && (forall i :: 0 <= i < |segments| ==>
          TookTurn(states[i], turns[i], w, segments[i], states[i + 1], if i < |segments| - 1 then On else next))
    && (segments == [] ==> next.On?)
  }

  lemma TookAnother(states: seq<State>, turns: seq<Turn>, w: nat, segments: seq<Segment>, g: Segment, t: State,
                    next: Next)
    requires TookTurns(states, turns, w, segments, On) && |segments| < |turns|
    requires TookTurn(states[|segments|], turns[|segments|], w, g, t, next)
    ensures TookTurns(states + [t], turns, w, segments + [g], next)
  {
  }

  /** Attempts lead to one verdict at most. */
  lemma AnsweredOnce(attempts: seq<Attempt>, v: Verdict, u: Verdict)
    requires Answered(attempts, v) && Answered(attempts, u)
    ensures v == u
  {
    var i :| Last(attempts, i) && Decides(attempts[i], v);
    var j :| Last(attempts, j) && Decides(attempts[j], u);
    assert i == j;
  }

  lemma OnlyUnsent(attempts: seq<Attempt>)
    requires Answered(attempts, Unsent)
    ensures forall v :: Answered(attempts, v) ==> v == Unsent
  {
    forall v | Answered(attempts, v)
      ensures v == Unsent
    {
      AnsweredOnce(attempts, v, Unsent);
    }
  }

  lemma RunOfTurn(s: State, run: seq<Event>, t: State, turn: Turn, w: nat, g: Segment, u: State, next: Next)
    returns (all: seq<Event>)
    requires IsRun(s, run, t) && TookTurn(t, turn, w, g, u, next)
    ensures IsRun(s, all, u)
  {
    RunOn(s, run, t, g.before, g.mid);
    RunOn(s, run + g.before, g.mid, g.own, u);
    all := run + g.before + g.own;
  }

  /** The agent, as worker `w` sees it: everything that others do happens between its own steps. */
  class Worker {
    const w: nat
    var agent: State

    ghost predicate Valid()
      reads this
    {
      Sound(agent) && w < |agent.hands|
    }

    constructor (w: nat, agent: State)
      requires Sound(agent) && w < |agent.hands|
      ensures Valid() && this.w == w && this.agent == agent
    {
      this.w, this.agent := w, agent;
    }

    /** Takes a step; `s` and `events` are a run that led here. */
    method Take(e: Event, ghost s: State, ghost events: seq<Event>) returns (ghost run: seq<Event>)
      requires Valid() && Enabled(agent, e) && IsRun(s, events, agent)
      modifies this
      ensures Valid() && agent == Step(old(agent), e)
      ensures run == events + [e] && IsRun(s, run, agent)
      ensures Verdicts(run, w) == Verdicts(events, w) + if e.Finish? && e.w == w then [e.verdict] else []
    {
      StepIsSound(agent, e);
      RunThen(s, events, agent, e);
      VerdictsThen(events, e, w);
      agent := Step(agent, e);
      run := events + [e];
    }

    method Other(e: Event, ghost s: State, ghost events: seq<Event>) returns (ghost run: seq<Event>)
      requires Valid() && IsRun(s, events, agent)
      modifies this
      ensures Valid() && Untouched(old(agent), agent, w)
      ensures events <= run && IsRun(s, run, agent) && Verdicts(run, w) == Verdicts(events, w)
      ensures NoneOf(events, w) ==> NoneOf(run, w)
    {
      run := events;
      if Enabled(agent, e) && !StepOf(e, w) {
        OthersLeaveAlone(agent, e, w);
        NoneThen(events, e, w);
        run := Take(e, s, events);
      }
    }

    /** Any number of steps of others. */
    method Others(script: seq<Event>, ghost s: State, ghost events: seq<Event>) returns (ghost run: seq<Event>)
      requires Valid() && IsRun(s, events, agent)
      modifies this
      ensures Valid() && Untouched(old(agent), agent, w)
      ensures events <= run && IsRun(s, run, agent) && Verdicts(run, w) == Verdicts(events, w)
      ensures NoneOf(events, w) ==> NoneOf(run, w)
    {
      run := events;
      for k := 0 to |script|
        invariant Valid() && Untouched(old(agent), agent, w)
        invariant events <= run && IsRun(s, run, agent) && Verdicts(run, w) == Verdicts(events, w)
        invariant NoneOf(events, w) ==> NoneOf(run, w)
      {
        run := Other(script[k], s, run);
      }
    }

    /** Sends the block in hand; an unsent one goes back to the queue. The attempts decide. */
    method SendBlock(turn: Turn, ghost s: State, ghost events: seq<Event>)
      returns (verdict: Option<Verdict>, ghost run: seq<Event>)
      requires Valid() && agent.hands[w] != [] && !agent.exited[w] && IsRun(s, events, agent)
      modifies this
      ensures Valid()
      ensures events <= run && IsRun(s, run, agent)
      ensures Verdicts(run, w) == Verdicts(events, w) + if verdict.Some? then [verdict.value] else []
      ensures verdict.Some? ==> Answered(turn.attempts, verdict.value)
      ensures verdict.None? ==> && agent.hands[w] == old(agent.hands[w]) && !agent.exited[w]
                                && forall v :: Answered(turn.attempts, v) ==> v.Unsent? && !agent.stopped
      ensures verdict.Some? ==> && Settled(old(agent.hands[w]), w, verdict.value, agent)
                                && (agent.exited[w] <==> verdict.value.Unsent?)
    {
      run := Others(turn.meanwhile, s, events);
      verdict := SendBlockHttp(turn.attempts);
      if verdict == Some(Unsent) && !agent.stopped {
        OnlyUnsent(turn.attempts);
        verdict := None;
      }
      if verdict.Some? {
        FinishMeans(agent, w, verdict.value);
        run := Take(Finish(w, verdict.value), s, run);
      }
    }

    /** Takes the oldest block and sends it. */
    method TakeBlock(turn: Turn) returns (next: Next, ghost own: seq<Event>)
      requires Valid() && agent.hands[w] == [] && !agent.exited[w] && agent.queue != []
      modifies this
      ensures Valid()
      ensures IsRun(old(agent), own, agent) && own != [] && own[0] == ReadBlock(w)
      ensures SentAs(turn.attempts, Verdicts(own, w), next)
      ensures agent.exited[w] <==> next.Return?
      ensures next.Sending? <==> agent.hands[w] != []
      ensures next.Sending? ==> agent.hands[w] == old(agent.queue[0])
    {
      ghost var s := agent;
      own := Take(ReadBlock(w), s, []);
      var verdict;
      verdict, own := SendBlock(turn, s, own);
      next := if verdict.None? then Sending else if verdict.value.Unsent? then Return else On;
    }

    /** One turn of the loop. */
    method TakeTurn(turn: Turn) returns (next: Next, ghost g: Segment)
      requires Valid() && agent.hands[w] == [] && !agent.exited[w]
      modifies this
      ensures Valid() && TookTurn(old(agent), turn, w, g, agent, next)
      ensures agent.exited[w] <==> next.Return?
      ensures next.Sending? <==> agent.hands[w] != []
    {
      ghost var before := Others(turn.before, agent, []);
      g := Segment(before, agent, []);
      if agent.queue != [] && turn.gets {
        ghost var own;
        next, own := TakeBlock(turn);
        g := g.(own := own);
      } else if agent.unblocked {
        ghost var own := Take(ReadNothing(w), agent, []);
        g := g.(own := own);
        next := Return;
      } else {
        next := On;
      }
    }

    /**
     A worker returns only with an empty hand. All that happens meanwhile is a run of the agent, so
     no row is lost. The worker takes a turn after the other until it returns or is still sending.
     */
    method RunWorker(turns: seq<Turn>)
      returns (next: Next, ghost run: seq<Event>, ghost states: seq<State>, ghost segments: seq<Segment>)
      requires Valid() && agent.hands[w] == [] && !agent.exited[w]
      modifies this
      ensures Valid() && IsRun(old(agent), run, agent)
      ensures TookTurns(states, turns, w, segments, next) && (next.On? ==> |segments| == |turns|)
      ensures states[0] == old(agent) && states[|segments|] == agent
      ensures agent.exited[w] <==> next.Return?
      ensures next.Sending? <==> agent.hands[w] != []
    {
      ghost var s := agent;
      run, states, segments, next := [], [agent], [], On;
      for k := 0 to |turns|
        invariant Valid() && agent.hands[w] == [] && !agent.exited[w] && next == On
        invariant IsRun(s, run, agent) && TookTurns(states, turns, w, segments, On)
        invariant |segments| == k && states[0] == s && states[k] == agent
      {
        ghost var t := agent;
        ghost var g;
        next, g := TakeTurn(turns[k]);
        TookAnother(states, turns, w, segments, g, agent, next);
        run := RunOfTurn(s, run, t, turns[k], w, g, agent, next);
        states, segments := states + [agent], segments + [g];
        if !next.On? {
          return;
        }
      }
    }
  }

  // ----- stopping

  /** What steps of anyone keep: the numbers of logs and workers, and who has stopped. */
  predicate Later(s: State, t: State) {
    && |t.pending| == |s.pending| && |t.hands| == |s.hands| && |t.flushed| == |s.flushed| && |t.exited| == |s.exited|
    && (forall p :: 0 <= p < |s.flushed| && s.flushed[p] ==> t.flushed[p])
    && (forall w :: 0 <= w < |s.exited| && s.exited[w] ==> t.exited[w])
    && (s.unblocked ==> t.unblocked) && (s.stopped ==> t.stopped) && s.accepted <= t.accepted
  }

  lemma StepIsLater(s: State, e: Event)
    requires Inv(s) && Enabled(s, e)
    ensures Later(s, Step(s, e))
  {
    if IsLogStep(e) {
      LogStepKeeps(s, e);
    } else {
      OtherStepKeeps(s, e);
    }
  }

  lemma LaterOn(s: State, t: State, u: State)
    requires Later(s, t) && Later(t, u)
    ensures Later(s, u)
  {
  }

  /** The steps that only stopping takes. */
  predicate StopsAgent(e: Event) {
    e.StopPending? || e.UnblockReaders? || e.StopClient?
  }

  /** What stopping itself did in a run, in order. */
  function Stops(events: seq<Event>): seq<Event> {
    if events == [] then [] else
    var m := |events| - 1;
    Stops(events[..m]) + if StopsAgent(events[m]) then [events[m]] else []
  }

  /** The run `events` led from `s` to `t`, and `stops` is what stopping did in it. */
  ghost predicate Stopping(s: State, events: seq<Event>, t: State, stops: seq<Event>) {
    Sound(t) && IsRun(s, events, t) && Stops(events) == stops && Later(s, t)
  }

  lemma NothingYet(s: State)
    requires Sound(s)
    ensures Stopping(s, [], s, [])
  {
  }

  /** Takes a step. */
  method Do(e: Event, ghost s: State, ghost events: seq<Event>, t: State, ghost stops: seq<Event>)
    returns (u: State, ghost run: seq<Event>)
    requires Stopping(s, events, t, stops) && Enabled(t, e)
    ensures u == Step(t, e) && Later(t, u)
    ensures Stopping(s, run, u, stops + if StopsAgent(e) then [e] else [])
  {
    StepIsSound(t, e);
    StepIsLater(t, e);
    LaterOn(s, t, Step(t, e));
    RunThen(s, events, t, e);
    run := events + [e];
    assert run[..|events|] == events;
    u := Step(t, e);
  }

  /** Any number of steps of any logs and workers. */
  method Others(ghost s: State, ghost events: seq<Event>, t: State, ghost stops: seq<Event>)
    returns (u: State, ghost run: seq<Event>)
    requires Stopping(s, events, t, stops)
    ensures Stopping(s, run, u, stops) && Later(t, u)
  {
    var script: seq<Event> := *;
    u, run := t, events;
    for i := 0 to |script|
      invariant Stopping(s, run, u, stops) && Later(t, u)
    {
      if Enabled(u, script[i]) && !StopsAgent(script[i]) {
        ghost var v := u;
        u, run := Do(script[i], s, run, u, stops);
        assert stops + [] == stops;
        LaterOn(t, v, u);
      }
    }
  }

  /** The logs before `p` have stopped. */
  predicate FlushedTo(s: State, p: nat) {
    p <= |s.flushed| && forall i :: 0 <= i < p ==> s.flushed[i]
  }

  predicate ExitedTo(s: State, w: nat) {
    w <= |s.exited| && forall i :: 0 <= i < w ==> s.exited[i]
  }

  /** Stops the first logs, in order. */
  function StopsOfLogs(n: nat): seq<Event> {
    if n == 0 then [] else StopsOfLogs(n - 1) + [StopPending(n - 1)]
  }

  lemma FlushedOn(s: State, t: State, p: nat)
    requires Later(s, t) && FlushedTo(s, p)
    ensures FlushedTo(t, p)
  {
  }

  /** Others go on until the log stops. */
  method StopLog(p: nat, ghost s: State, ghost events: seq<Event>, t: State, ghost stops: seq<Event>)
    returns (u: State, ghost run: seq<Event>)
    requires Stopping(s, events, t, stops) && p < |t.pending| && FlushedTo(t, p)
    ensures Stopping(s, run, u, stops + [StopPending(p)]) && Later(t, u) && FlushedTo(u, p + 1)
  {
    u, run := Others(s, events, t, stops);
    ghost var v := u;
    FlushedOn(t, v, p);
    u, run := Do(StopPending(p), s, run, u, stops);
    FlushedOn(v, u, p);
    LaterOn(t, v, u);
  }

  method StopLogs(s: State) returns (t: State, ghost run: seq<Event>)
    requires Sound(s)
    ensures Stopping(s, run, t, StopsOfLogs(|s.pending|)) && FlushedTo(t, |t.pending|)
  {
    NothingYet(s);
    t, run := s, [];
    for p := 0 to |s.pending|
      invariant Stopping(s, run, t, StopsOfLogs(p)) && FlushedTo(t, p)
    {
      t, run := StopLog(p, s, run, t, StopsOfLogs(p));
    }
  }

  lemma ExitedOn(s: State, t: State, w: nat)
    requires Later(s, t) && ExitedTo(s, w) && w < |t.exited| && t.exited[w]
    ensures ExitedTo(t, w + 1)
  {
  }

  /** Worker `w` settles the block in its hand, if it has one, and leaves. */
  method JoinWorker(w: nat, verdict: Verdict, ghost s: State, ghost events: seq<Event>, t: State,
                    ghost stops: seq<Event>)
    returns (u: State, ghost run: seq<Event>)
    requires Stopping(s, events, t, stops) && t.unblocked && t.stopped && w < |t.hands|
    ensures Stopping(s, run, u, stops) && Later(t, u) && u.exited[w]
  {
    u, run := Others(s, events, t, stops);
    assert stops + [] == stops;
    if u.hands[w] != [] {
      ghost var v := u;
      u, run := Do(Finish(w, verdict), s, run, u, stops);
      LaterOn(t, v, u);
    }
    if !u.exited[w] {
      ghost var v := u;
      u, run := Do(ReadNothing(w), s, run, u, stops);
      LaterOn(t, v, u);
    }
  }

  method JoinWorkers(verdicts: seq<Verdict>, ghost s: State, ghost events: seq<Event>, t: State,
                     ghost stops: seq<Event>)
    returns (u: State, ghost run: seq<Event>)
    requires Stopping(s, events, t, stops) && t.unblocked && t.stopped && |verdicts| == |t.hands|
    ensures Stopping(s, run, u, stops) && ExitedTo(u, |u.hands|)
    ensures Later(t, u)
  {
    u, run := t, events;
    for w := 0 to |t.hands|
      invariant Stopping(s, run, u, stops) && Later(t, u) && ExitedTo(u, w)
    {
      ghost var v := u;
      u, run := JoinWorker(w, verdicts[w], s, run, u, stops);
      LaterOn(t, v, u);
      ExitedOn(v, u, w);
    }
  }

  /**
   Stops the logs, in order, then unblocks the readers and stops the client. Whatever logs and
   workers do in between and whatever becomes of the blocks in hand, all of it is a run of the
   agent, at the end of which every row is in the queue or answered for.
   */
  method MustStop(s: State, verdicts: seq<Verdict>) returns (t: State, ghost run: seq<Event>)
    requires Sound(s) && |verdicts| == |s.hands|
    ensures Sound(t) && Later(s, t) && AllStopped(t)
    ensures IsRun(s, run, t) && Stops(run) == StopsOfLogs(|s.pending|) + [UnblockReaders] + [StopClient]
    ensures forall p :: 0 <= p < |t.pending| ==> t.pending[p] == []
    ensures forall w :: 0 <= w < |t.hands| ==> t.hands[w] == []
  {
    t, run := StopLogs(s);
    ghost var stops := StopsOfLogs(|s.pending|);
    t, run := Do(UnblockReaders, s, run, t, stops);
    stops := stops + [UnblockReaders];
    t, run := Others(s, run, t, stops);
    t, run := Do(StopClient, s, run, t, stops);
    stops := stops + [StopClient];
    t, run := JoinWorkers(verdicts, s, run, t, stops);
    AllSettled(t);
  }

  lemma AllSettled(t: State)
    requires Inv(t) && FlushedTo(t, |t.pending|) && ExitedTo(t, |t.hands|)
    ensures AllStopped(t)
    ensures forall p :: 0 <= p < |t.pending| ==> t.pending[p] == []
    ensures forall w :: 0 <= w < |t.hands| ==> t.hands[w] == []
  {
  }
}
