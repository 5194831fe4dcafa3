/**
 The limiter of bytes sent per second (`RateLimiter` in crates/esl-agent/src/remotewrite.rs).
 Any number of threads call `Register`. A thread holds the lock except while it waits, so that
 whatever others do happens in `Wait`. Times are nanoseconds of a monotonic clock.
 */
module RateLimiter {
  import opened Bytes

  const SECOND: nat := 1_000_000_000

  /** The budget, the time of the next refill, the time of every refill and every charge so far, and the clock. */
  datatype State = State(budget: int, deadline: Option<int>, refills: seq<int>, charges: seq<nat>, clock: int)

  function Sum(counts: seq<nat>): nat {
    if counts == [] then 0 else Sum(counts[..|counts| - 1]) + counts[|counts| - 1]
  }

  function Max(counts: seq<nat>): (m: nat)
    ensures forall i :: 0 <= i < |counts| ==> counts[i] <= m
    ensures counts != [] ==> m in counts
  {
    if counts == [] then 0
    else
      var m, last := Max(counts[..|counts| - 1]), counts[|counts| - 1];
      if last > m || |counts| == 1 then last else m
  }

  function Times(n: nat, limit: int): int {
    if n == 0 then 0 else Times(n - 1, limit) + limit
  }

  const INITIAL := State(0, None, [], [], 0)

  // ----- the steps that threads take under the lock

  /** The clock is read, a refill is added, or a count is charged. */
  datatype Event = Tick(now: int) | Refill | Charge(count: nat)

  /** The clock never goes back, a refill waits for the deadline, and a charge needs a budget. */
  predicate Enabled(limit: int, s: State, e: Event) {
    match e
    case Tick(now) => s.clock <= now
    case Refill => limit > 0 && (s.deadline.Some? ==> s.deadline.value <= s.clock)
    case Charge(_) => s.budget > 0
  }

  function Step(limit: int, s: State, e: Event): State {
    match e
    case Tick(now) => s.(clock := now)
    case Refill => s.(budget := s.budget + limit, deadline := Some(s.clock + SECOND), refills := s.refills + [s.clock])
    case Charge(count) => s.(budget := s.budget - count, charges := s.charges + [count])
  }

  ghost predicate IsRun(limit: int, s: State, events: seq<Event>, t: State)
    decreases |events|
  {
    if events == [] then t == s
    else Enabled(limit, s, events[0]) && IsRun(limit, Step(limit, s, events[0]), events[1..], t)
  }

  /** Some steps of any threads lead from `s` to `t`. */
  ghost predicate Reaches(limit: int, s: State, t: State) {
    exists events :: IsRun(limit, s, events, t)
  }

  lemma {:induction false} RunOn(limit: int, s: State, first: seq<Event>, t: State, second: seq<Event>, u: State)
    requires IsRun(limit, s, first, t) && IsRun(limit, t, second, u)
    ensures IsRun(limit, s, first + second, u)
    decreases |first|
  {
    if first == [] {
      assert first + second == second;
    } else {
      assert (first + second)[1..] == first[1..] + second;
      RunOn(limit, Step(limit, s, first[0]), first[1..], t, second, u);
    }
  }

  lemma ReachesOn(limit: int, s: State, t: State, u: State)
    requires Reaches(limit, s, t) && Reaches(limit, t, u)
    ensures Reaches(limit, s, u)
  {
    var first :| IsRun(limit, s, first, t);
    var second :| IsRun(limit, t, second, u);
    RunOn(limit, s, first, t, second, u);
  }

  lemma OneStep(limit: int, s: State, e: Event)
    requires Enabled(limit, s, e)
    ensures IsRun(limit, s, [e], Step(limit, s, e)) && Reaches(limit, s, Step(limit, s, e))
  {
    var events := [e];
    assert events[1..] == [];
    assert IsRun(limit, Step(limit, s, e), events[1..], Step(limit, s, e));
    assert IsRun(limit, s, events, Step(limit, s, e));
  }

  lemma NoStep(limit: int, s: State)
    ensures Reaches(limit, s, s)
  {
    assert IsRun(limit, s, [], s);
  }

  // ----- what every step keeps

  /** Consecutive refills are a second apart at least. */
  predicate Spaced(refills: seq<int>) {
    forall i :: 0 < i < |refills| ==> refills[i - 1] + SECOND <= refills[i]
  }

  /** The budget is what was added less what was charged, and is overdrawn by less than one charge. */
  predicate Inv(limit: int, s: State) {
    && s.budget == Times(|s.refills|, limit) - Sum(s.charges)
    && Spaced(s.refills)
    && s.deadline == (if s.refills == [] then None else Some(s.refills[|s.refills| - 1] + SECOND))
    && (s.refills == [] ==> s.charges == [])
    && (s.refills != [] ==> s.refills[|s.refills| - 1] <= s.clock)
    && (if s.charges == [] then s.budget >= 0 else s.budget + Max(s.charges) > 0)
  }

  lemma RefillKeeps(limit: int, s: State)
    requires Inv(limit, s) && Enabled(limit, s, Refill)
    ensures Inv(limit, Step(limit, s, Refill))
  {
  }

  lemma ChargeKeeps(limit: int, s: State, count: nat)
    requires Inv(limit, s) && s.budget > 0
    ensures Inv(limit, Step(limit, s, Charge(count)))
  {
    var charges := s.charges + [count];
    assert charges[..|s.charges|] == s.charges;
    assert charges[|s.charges|] <= Max(charges);
  }

  lemma {:induction false} RunKeeps(limit: int, s: State, events: seq<Event>, t: State)
    requires Inv(limit, s) && IsRun(limit, s, events, t)
    ensures Inv(limit, t)
    decreases |events|
  {
    if events != [] {
      match events[0] {
        case Tick(_) =>
        case Refill => RefillKeeps(limit, s);
        case Charge(count) => ChargeKeeps(limit, s, count);
      }
      RunKeeps(limit, Step(limit, s, events[0]), events[1..], t);
    }
  }

  // ----- the bound

  lemma {:induction false} RefillsTakeTime(refills: seq<int>)
    requires refills != [] && Spaced(refills)
    ensures refills[|refills| - 1] - refills[0] >= (|refills| - 1) * SECOND
  {
    if |refills| > 1 {
      RefillsTakeTime(refills[..|refills| - 1]);
    }
  }

  lemma {:induction false} TimesMonotone(n: nat, m: nat, limit: int)
    requires n <= m && limit >= 0
    ensures Times(n, limit) <= Times(m, limit)
  {
    if n < m {
      TimesMonotone(n, m - 1, limit);
    }
  }

  lemma {:induction false} TimesIsProduct(n: nat, limit: int)
    ensures Times(n, limit) == limit * n
  {
    if n > 0 {
      TimesIsProduct(n - 1, limit);
    }
  }

  lemma BoundFromInv(limit: int, s: State)
    requires limit > 0 && Inv(limit, s) && s.charges != []
    ensures s.refills != []
    ensures Sum(s.charges) <= limit * ((s.clock - s.refills[0]) / SECOND + 1) + Max(s.charges) - 1
  {
    var elapsed := s.clock - s.refills[0];
    RefillsTakeTime(s.refills);
    assert elapsed >= (|s.refills| - 1) * SECOND;
    var seconds := elapsed / SECOND + 1;
    assert |s.refills| <= seconds;
    TimesMonotone(|s.refills|, seconds, limit);
    TimesIsProduct(seconds, limit);
  }

  /**
   Whatever steps any number of threads take, what has been charged some time after the first
   refill is bounded by the limit for every second begun and one overdraft.
   */
  lemma ThroughputIsBounded(limit: int, s: State)
    requires limit > 0 && Reaches(limit, INITIAL, s) && s.charges != []
    ensures s.refills != []
    ensures Sum(s.charges) <= limit * ((s.clock - s.refills[0]) / 1_000_000_000 + 1) + Max(s.charges) - 1
  {
    var events :| IsRun(limit, INITIAL, events, s);
    RunKeeps(limit, INITIAL, events, s);
    BoundFromInv(limit, s);
  }

  // ----- the bound is reached

  lemma SumAppend(counts: seq<nat>, count: nat)
    ensures Sum(counts + [count]) == Sum(counts) + count
  {
    assert (counts + [count])[..|counts|] == counts;
  }

  predicate Ones(counts: seq<nat>) {
    forall i :: 0 <= i < |counts| ==> counts[i] == 1
  }

  /** Charges of one can use up the budget. */
  lemma {:induction false} Spend(limit: int, s: State, n: nat) returns (t: State)
    requires n <= s.budget && Ones(s.charges)
    ensures Reaches(limit, s, t) && Ones(t.charges) && Sum(t.charges) == Sum(s.charges) + n
    ensures t == s.(budget := s.budget - n, charges := t.charges)
    decreases n
  {
    if n == 0 {
      NoStep(limit, s);
      return s;
    }
    var u := Step(limit, s, Charge(1));
    OneStep(limit, s, Charge(1));
    SumAppend(s.charges, 1);
    t := Spend(limit, u, n - 1);
    ReachesOn(limit, s, u, t);
  }

  /** The limit is used up and the next refill is due. */
  predicate Exhausted(limit: int, seconds: nat, s: State) {
    && s.budget == 0 && Ones(s.charges) && Sum(s.charges) == Times(seconds, limit)
    && s.clock == seconds * SECOND && (s.deadline.Some? ==> s.deadline.value <= s.clock)
    && (if seconds == 0 then s.refills == [] else s.refills != [] && s.refills[0] == 0)
  }

  lemma {:induction false} Exhaust(limit: nat, seconds: nat) returns (s: State)
    requires limit > 0
    ensures Reaches(limit, INITIAL, s) && Exhausted(limit, seconds, s)
  {
    if seconds == 0 {
      NoStep(limit, INITIAL);
      return INITIAL;
    }
    var before := Exhaust(limit, seconds - 1);
    s := NextSecond(limit, seconds - 1, before);
    ReachesOn(limit, INITIAL, before, s);
  }

  lemma NextSecond(limit: nat, seconds: nat, s: State) returns (t: State)
    requires limit > 0 && Exhausted(limit, seconds, s)
    ensures Reaches(limit, s, t) && Exhausted(limit, seconds + 1, t)
  {
    var full := Step(limit, s, Refill);
    OneStep(limit, s, Refill);
    var spent := Spend(limit, full, limit);
    ReachesOn(limit, s, full, spent);
    t := Step(limit, spent, Tick((seconds + 1) * SECOND));
    OneStep(limit, spent, Tick((seconds + 1) * SECOND));
    ReachesOn(limit, s, spent, t);
  }

  lemma MaxOfLast(counts: seq<nat>, most: nat)
    requires Ones(counts) && most > 0
    ensures Max(counts + [most]) == most
  {
    var all := counts + [most];
    assert all[|counts|] == most;
  }

  /** For every limit, largest charge and time there are steps after which the bound is reached. */
  lemma BoundIsReached(limit: nat, most: nat, seconds: nat) returns (s: State)
    requires limit > 0 && most > 0
    ensures Reaches(limit, INITIAL, s) && s.refills != [] && s.clock - s.refills[0] == seconds * 1_000_000_000
    ensures s.charges != [] && Max(s.charges) == most
    ensures Sum(s.charges) == limit * (seconds + 1) + most - 1
  {
    var before := Exhaust(limit, seconds);
    var full := Step(limit, before, Refill);
    OneStep(limit, before, Refill);
    ReachesOn(limit, INITIAL, before, full);
    var spent := Spend(limit, full, limit - 1);
    ReachesOn(limit, INITIAL, full, spent);
    s := Step(limit, spent, Charge(most));
    OneStep(limit, spent, Charge(most));
    ReachesOn(limit, INITIAL, spent, s);
    SumAppend(spent.charges, most);
    MaxOfLast(spent.charges, most);
    TimesIsProduct(seconds, limit);
    assert limit * (seconds + 1) == limit * seconds + limit;
  }

  // ----- the threads

  datatype Outcome = Counted | Ignored | Waiting
  datatype Turn = Add | Again | Return

  class Limiter {
    const limit: int
    var stopped: bool
    var state: State

    constructor (limit: int)
      ensures this.limit == limit && !stopped && state == INITIAL
    {
      this.limit, stopped, state := limit, false, INITIAL;
    }

    /** Reads the clock, which never goes back. */
    method Now() returns (now: int)
      modifies this`state
      ensures now >= old(state).clock && state == old(state).(clock := now) && Reaches(limit, old(state), state)
    {
      now := *;
      if now < state.clock {
        now := state.clock;
      }
      OneStep(limit, state, Tick(now));
      state := state.(clock := now);
    }

    /** Gives up the lock until the thread wakes up, for whatever reason; meanwhile other threads take steps. */
    method Wait()
      modifies this
      ensures Reaches(limit, old(state), state) && (old(stopped) ==> stopped)
    {
      var events: seq<Event> := *;
      NoStep(limit, state);
      for i := 0 to |events|
        invariant Reaches(limit, old(state), state) && stopped == old(stopped)
      {
        if Enabled(limit, state, events[i]) {
          OneStep(limit, state, events[i]);
          ReachesOn(limit, old(state), state, Step(limit, state, events[i]));
          state := Step(limit, state, events[i]);
        }
      }
      var stop: bool := *;
      stopped := stopped || stop;
    }

    method WaitUntilDeadline() returns (turn: Turn)
      modifies this
      ensures Reaches(limit, old(state), state) && (old(stopped) ==> stopped)
      ensures turn.Return? ==> stopped
      ensures turn.Add? && state.deadline.Some? ==> state.deadline.value <= state.clock
      ensures turn.Again? ==> state.deadline.Some? && state.deadline.value > state.clock
    {
      Wait();
      ghost var woken := state;
      if stopped {
        return Return;
      }
      var later := Now();
      ReachesOn(limit, old(state), woken, state);
      if state.deadline.Some? && state.deadline.value > later {
        return Again;
      }
      return Add;
    }

    /** There has been no refill yet, or its second is over. */
    predicate Due()
      reads this
    {
      state.deadline.Some? ==> state.deadline.value <= state.clock
    }

    /** One turn of the loop up to the refill, which comes at once if it is due, and only once the deadline is over. */
    method TakeTurn() returns (turn: Turn)
      modifies this
      ensures Reaches(limit, old(state), state) && (old(stopped) ==> stopped)
      ensures turn.Return? ==> stopped
      ensures turn.Add? && state.deadline.Some? ==> state.deadline.value <= state.clock
      ensures turn.Again? ==> state.deadline.Some? && state.deadline.value > state.clock
      ensures old(stopped) ==> turn.Return? && state == old(state)
      ensures !old(stopped) && old(Due()) ==> turn.Add? && state.budget == old(state.budget)
    {
      NoStep(limit, state);
      if stopped {
        return Return;
      }
      if state.deadline.None? {
        return Add;
      }
      var now := Now();
      ghost var read := state;
      if state.deadline.value <= now {
        return Add;
      }
      turn := WaitUntilDeadline();
      ReachesOn(limit, old(state), read, state);
    }

    method AddBudget()
      requires limit > 0 && (state.deadline.Some? ==> state.deadline.value <= state.clock)
      modifies this`state
      ensures Reaches(limit, old(state), state) && state.budget == old(state).budget + limit
    {
      var now := Now();
      OneStep(limit, state, Refill);
      ReachesOn(limit, old(state), state, Step(limit, state, Refill));
      state := State(state.budget + limit, Some(now + SECOND), state.refills + [now], state.charges, now);
    }

    /** A turn with its refill. */
    method Advance() returns (go: bool)
      requires limit > 0
      modifies this
      ensures Reaches(limit, old(state), state)
      ensures !go ==> stopped
      ensures !old(stopped) && old(Due()) ==> go && state.budget == old(state.budget) + limit
    {
      var turn := TakeTurn();
      if turn.Add? {
        ghost var due := state;
        AddBudget();
        ReachesOn(limit, old(state), due, state);
      }
      go := !turn.Return?;
    }

    /** Waits until there is budget, for at most so many turns. */
    method WaitForBudget(turns: nat) returns (outcome: Outcome)
      requires limit > 0
      modifies this
      ensures Reaches(limit, old(state), state)
      ensures outcome.Ignored? ==> stopped
      ensures outcome.Counted? ==> state.budget > 0
      ensures outcome.Waiting? ==> state.budget <= 0
      ensures old(state.budget) > 0 ==> outcome.Counted? && state == old(state)
      ensures turns > 0 && !old(stopped) && old(Due()) && old(state.budget) + limit > 0 ==> outcome.Counted?
    {
      var left := turns;
      NoStep(limit, state);
      while state.budget <= 0
        invariant Reaches(limit, old(state), state)
        invariant 0 <= left <= turns && (left == turns ==> state == old(state) && stopped == old(stopped))
        invariant old(state.budget) > 0 ==> left == turns
        invariant left < turns && !old(stopped) && old(Due()) && old(state.budget) + limit > 0 ==>
                    old(state.budget) > 0 || state.budget > 0
        decreases left
      {
        if left == 0 {
          return Waiting;
        }
        left := left - 1;
        ghost var start := state;
        var go := Advance();
        ReachesOn(limit, old(state), start, state);
        if !go {
          return Ignored;
        }
      }
      return Counted;
    }

    /**
     Counts the bytes once there is budget. `before` is the state in which they were counted.
     Every change to the state, by this thread or by others while it waits, is one of the steps.
     */
    method Register(count: nat, turns: nat) returns (outcome: Outcome, ghost before: State)
      modifies this
      ensures limit <= 0 ==> outcome == Ignored && state == old(state)
      ensures Reaches(limit, old(state), state)
      ensures limit > 0 && outcome.Ignored? ==> stopped
      ensures outcome.Waiting? ==> state.budget <= 0
      ensures outcome.Counted? ==>
                && Reaches(limit, old(state), before) && before.budget > 0
                && state == Step(limit, before, Charge(count))
      ensures limit > 0 && old(state.budget) > 0 ==> outcome.Counted? && before == old(state)
      ensures limit > 0 && turns > 0 && !old(stopped) && old(Due()) && old(state.budget) + limit > 0
              ==> outcome.Counted?
    {
      before := state;
      NoStep(limit, state);
      if limit <= 0 {
        return Ignored, before;
      }
      outcome := WaitForBudget(turns);
      if outcome.Counted? {
        before := state;
        OneStep(limit, state, Charge(count));
        ReachesOn(limit, old(state), state, Step(limit, state, Charge(count)));
        state := state.(budget := state.budget - count, charges := state.charges + [count]);
      }
    }
  }
}
