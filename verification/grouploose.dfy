/** The tolerant engine, GroupLoose: it remembers only the index of the last
    triggered action and the instant it was triggered, moves on by exactly one
    index once that action's own duration has passed, stops after len*iterations
    triggers when repetition is bounded, and never fails. */
module LooseEngine {
  import opened Actions

  /** The fields of a GroupLoose that Begins and polls update. lastIdx counts
      triggers over all iterations; the action it stands for is lastIdx % len. */
  datatype LooseState = LooseState(start: int, lastActionStart: int, lastIdx: int)

  /** What NewGroupLoose guarantees of the parts that never change afterwards:
      zero durations are allowed here. */
  predicate ValidTable<T>(actions: seq<Action<T>>, iterations: int)
  {
    |actions| > 0 && NonNegative(actions) && (iterations == -1 || iterations > 0)
  }

  /** Whether trigger number k (counting from 0 over all iterations) is allowed. */
  predicate Enabled<T>(actions: seq<Action<T>>, iterations: int, k: int)
  {
    iterations == -1 || k < |actions| * iterations
  }

  /** lastIdx is -1 (nothing triggered since Begins) or the number of an allowed
      trigger. */
  predicate ValidState<T>(actions: seq<Action<T>>, iterations: int, s: LooseState)
  {
    s.lastIdx >= -1 && (s.lastIdx >= 0 ==> Enabled(actions, iterations, s.lastIdx))
  }

  /** The state Begins(start) leaves behind, whatever came before. */
  function Begin(start: int): LooseState
  {
    LooseState(start, 0, -1)
  }

  /** Every accepted configuration allows at least one trigger. */
  lemma FirstEnabled<T>(actions: seq<Action<T>>, iterations: int)
    requires ValidTable(actions, iterations)
    ensures Enabled(actions, iterations, 0)
  {
    if iterations != -1 {
      MulAtLeast(iterations, |actions|);
    }
  }

  /** The duration of the action a state is on (the last triggered one). */
  function Current<T>(actions: seq<Action<T>>, s: LooseState): int
    requires |actions| > 0 && s.lastIdx >= 0
  {
    actions[s.lastIdx % |actions|].duration
  }

  /** ScheduleNext. */
  function Poll<T>(actions: seq<Action<T>>, iterations: int, s: LooseState, now: int)
    : (r: (LooseState, Reply<T>))
    requires ValidTable(actions, iterations) && ValidState(actions, iterations, s)
    ensures ValidState(actions, iterations, r.0) && r.0.start == s.start
  {
    if s.start == 0 then (s, Reply(None, 0, Some(BeginNotCalled)))
    else if now - s.start < 0 then (s, Reply(None, -(now - s.start), None))
    else if s.lastIdx == -1 then
      FirstEnabled(actions, iterations);
      (s.(lastActionStart := now, lastIdx := 0), Reply(Some(actions[0].value), actions[0].duration, None))
    else
      var actionElapsed := now - s.lastActionStart;
      var d := Current(actions, s);
      if actionElapsed < d then (s, Reply(None, d - actionElapsed, None))
      else if !Enabled(actions, iterations, s.lastIdx + 1) then (s, Reply(None, 0, None))
      else
        var k := (s.lastIdx + 1) % |actions|;
        (s.(lastIdx := s.lastIdx + 1, lastActionStart := now), Reply(Some(actions[k].value), actions[k].duration, None))
  }

  /** The replies to a sequence of polls, and the state they leave behind. */
  function Run<T>(actions: seq<Action<T>>, iterations: int, s: LooseState, nows: seq<int>)
    : (r: (LooseState, seq<Reply<T>>))
    requires ValidTable(actions, iterations) && ValidState(actions, iterations, s)
    ensures ValidState(actions, iterations, r.0) && |r.1| == |nows|
    decreases |nows|
  {
    if nows == [] then (s, [])
    else
      var (s1, reply) := Poll(actions, iterations, s, nows[0]);
      var (s2, replies) := Run(actions, iterations, s1, nows[1..]);
      (s2, [reply] + replies)
  }

  /** A run is its first poll followed by the run of the remaining instants. */
  lemma RunHead<T>(actions: seq<Action<T>>, iterations: int, s: LooseState, nows: seq<int>)
    requires ValidTable(actions, iterations) && ValidState(actions, iterations, s) && nows != []
    ensures var p := Poll(actions, iterations, s, nows[0]);
      && Run(actions, iterations, s, nows).0 == Run(actions, iterations, p.0, nows[1..]).0
      && Run(actions, iterations, s, nows).1 == [p.1] + Run(actions, iterations, p.0, nows[1..]).1
  {
  }

  /** Each poll at nows[i] takes states[i] to states[i + 1] and gives replies[i]. */
  ghost predicate Chain<T>(actions: seq<Action<T>>, iterations: int, states: seq<LooseState>, nows: seq<int>,
                     replies: seq<Reply<T>>)
    requires ValidTable(actions, iterations)
  {
    && |states| == |nows| + 1 && |replies| == |nows|
    && (forall i :: 0 <= i < |states| ==> ValidState(actions, iterations, states[i]))
    && (forall i :: 0 <= i < |nows| ==>
          Poll(actions, iterations, states[i], nows[i]) == (states[i + 1], replies[i]))
  }

  /** A run is the chain of its polls: it ends in the chain's last state and gives
      the chain's replies in order. */
  lemma {:induction false} RunAlong<T>(actions: seq<Action<T>>, iterations: int, states: seq<LooseState>,
                                       nows: seq<int>, replies: seq<Reply<T>>)
    requires ValidTable(actions, iterations) && Chain(actions, iterations, states, nows, replies)
    ensures Run(actions, iterations, states[0], nows).0 == states[|nows|]
    ensures Run(actions, iterations, states[0], nows).1 == replies
  {
    if nows != [] {
      RunHead(actions, iterations, states[0], nows);
      RunAlong(actions, iterations, states[1..], nows[1..], replies[1..]);
      assert replies == [replies[0]] + replies[1..];
    }
  }

  // ---------------------------------------------------------------------------
  // Properties of one poll

  /** The only error is BeginNotCalled, exactly before Begins, and it changes
      nothing; before the start instant a poll waits out the remaining time. */
  lemma PollGuards<T>(actions: seq<Action<T>>, iterations: int, s: LooseState, now: int)
    requires ValidTable(actions, iterations) && ValidState(actions, iterations, s)
    ensures var r := Poll(actions, iterations, s, now);
      && (r.1.err == Some(BeginNotCalled) <==> s.start == 0)
      && (r.1.err.None? || r.1.err == Some(BeginNotCalled))
      && (r.1.err.Some? ==> r == (s, Reply(None, 0, r.1.err)))
      && (s.start != 0 && now < s.start ==> r == (s, Reply(None, s.start - now, None)))
  {
  }

  /** The first poll at or after the start, after Begins, always triggers the first
      action, which then runs from that poll for its full duration. */
  lemma FirstPollTriggersFirst<T>(actions: seq<Action<T>>, iterations: int, s: LooseState, now: int)
    requires ValidTable(actions, iterations) && ValidState(actions, iterations, s)
    requires s.start != 0 && now >= s.start && s.lastIdx == -1
    ensures Poll(actions, iterations, s, now)
         == (s.(lastActionStart := now, lastIdx := 0), Reply(Some(actions[0].value), actions[0].duration, None))
  {
  }

  /** A trigger advances the count by exactly one, restarts the action clock at the
      poll, and delivers the next action of the cyclic order with its full duration;
      a poll that triggers nothing changes nothing. */
  lemma PollTriggers<T>(actions: seq<Action<T>>, iterations: int, s: LooseState, now: int)
    requires ValidTable(actions, iterations) && ValidState(actions, iterations, s)
    ensures var r := Poll(actions, iterations, s, now);
      var k := (s.lastIdx + 1) % |actions|;
      && (r.1.Ok() ==>
            && r.0 == s.(lastIdx := s.lastIdx + 1, lastActionStart := now)
            && r.1 == Reply(Some(actions[k].value), actions[k].duration, None))
      && (!r.1.Ok() ==> r.0 == s)
  {
  }

  /** Every action lasts at least its duration: no trigger comes before the current
      action's duration has passed since it was triggered, and until then a poll
      waits for exactly the remaining time. */
  lemma MinimumDuration<T>(actions: seq<Action<T>>, iterations: int, s: LooseState, now: int)
    requires ValidTable(actions, iterations) && ValidState(actions, iterations, s)
    requires s.lastIdx >= 0
    ensures Poll(actions, iterations, s, now).1.Ok() ==> now - s.lastActionStart >= Current(actions, s)
    ensures s.start != 0 && now >= s.start && now - s.lastActionStart < Current(actions, s) ==>
      Poll(actions, iterations, s, now) == (s, Reply(None, Current(actions, s) - (now - s.lastActionStart), None))
  {
  }

  /** The condition under which a poll reports done: the group was begun and
      started, the last allowed trigger has happened and its action has run its
      duration. */
  predicate Finished<T>(actions: seq<Action<T>>, iterations: int, s: LooseState, now: int)
    requires |actions| > 0
  {
    && s.start != 0 && now >= s.start && s.lastIdx >= 0
    && now - s.lastActionStart >= Current(actions, s)
    && !Enabled(actions, iterations, s.lastIdx + 1)
  }

  /** A poll reports done exactly when the group is finished, and then changes
      nothing. */
  lemma DoneExactly<T>(actions: seq<Action<T>>, iterations: int, s: LooseState, now: int)
    requires ValidTable(actions, iterations) && ValidState(actions, iterations, s)
    ensures Poll(actions, iterations, s, now).1.Done() <==> Finished(actions, iterations, s, now)
    ensures Finished(actions, iterations, s, now) ==> Poll(actions, iterations, s, now).0 == s
  {
  }

  // ---------------------------------------------------------------------------
  // Properties of runs

  /** Done is terminal: a poll at any later instant reports done again. */
  lemma DoneIsStable<T>(actions: seq<Action<T>>, iterations: int, s: LooseState, now: int, later: int)
    requires ValidTable(actions, iterations) && ValidState(actions, iterations, s)
    requires Poll(actions, iterations, s, now).1.Done() && now <= later
    ensures Poll(actions, iterations, s, later) == (s, Reply(None, 0, None))
  {
    DoneExactly(actions, iterations, s, now);
    DoneExactly(actions, iterations, s, later);
  }

  /** Done is reported again for every later poll, however many follow. */
  lemma {:induction false} DoneForever<T>(actions: seq<Action<T>>, iterations: int, s: LooseState, now: int, later: seq<int>)
    requires ValidTable(actions, iterations) && ValidState(actions, iterations, s)
    requires Poll(actions, iterations, s, now).1.Done()
    requires forall i :: 0 <= i < |later| ==> now <= later[i]
    ensures Run(actions, iterations, s, later).0 == s
    ensures forall i :: 0 <= i < |later| ==> Run(actions, iterations, s, later).1[i].Done()
    decreases |later|
  {
    if later != [] {
      DoneIsStable(actions, iterations, s, now, later[0]);
      DoneForever(actions, iterations, s, now, later[1..]);
    }
  }

  /** With unbounded repetition a poll never reports done. */
  lemma UnboundedNeverDone<T>(actions: seq<Action<T>>, s: LooseState, now: int)
    requires ValidTable(actions, -1) && ValidState(actions, -1, s)
    ensures !Poll(actions, -1, s, now).1.Done()
  {
    DoneExactly(actions, -1, s, now);
  }

  /** A begun group never reports an error, however late or irregular the polls. */
  lemma {:induction false} NeverFails<T>(actions: seq<Action<T>>, iterations: int, s: LooseState, nows: seq<int>)
    requires ValidTable(actions, iterations) && ValidState(actions, iterations, s)
    requires s.start != 0
    ensures forall i :: 0 <= i < |nows| ==> Run(actions, iterations, s, nows).1[i].err.None?
    decreases |nows|
  {
    if nows != [] {
      var p := Poll(actions, iterations, s, nows[0]);
      PollGuards(actions, iterations, s, nows[0]);
      NeverFails(actions, iterations, p.0, nows[1..]);
    }
  }

  /** The triggered payloads of any run follow the action list cyclically from the
      one after the last trigger, one per trigger: the k-th trigger since Begins
      delivers action k % len, whatever the timing of the polls. */
  lemma {:induction false} RunTriggersInOrder<T>(actions: seq<Action<T>>, iterations: int, s: LooseState, nows: seq<int>)
    requires ValidTable(actions, iterations) && ValidState(actions, iterations, s)
    ensures var r := Run(actions, iterations, s, nows);
      && r.0.lastIdx >= s.lastIdx
      && Triggered(r.1) == CyclicValues(actions, s.lastIdx + 1, r.0.lastIdx - s.lastIdx)
    decreases |nows|
  {
    if nows != [] {
      var p := Poll(actions, iterations, s, nows[0]);
      PollTriggers(actions, iterations, s, nows[0]);
      var rest := Run(actions, iterations, p.0, nows[1..]);
      RunHead(actions, iterations, s, nows);
      RunTriggersInOrder(actions, iterations, p.0, nows[1..]);
      TriggeredCons(p.1, rest.1);
      if p.1.Ok() {
        CyclicFront(actions, s.lastIdx + 1, rest.0.lastIdx - p.0.lastIdx);
      }
    }
  }

  /** From Begins, a run triggers exactly lastIdx + 1 actions, and never more than
      len * iterations when repetition is bounded. */
  lemma TriggerBound<T>(actions: seq<Action<T>>, iterations: int, t: int, nows: seq<int>)
    requires ValidTable(actions, iterations)
    ensures var r := Run(actions, iterations, Begin(t), nows);
      && |Triggered(r.1)| == r.0.lastIdx + 1
      && (iterations != -1 ==> |Triggered(r.1)| <= |actions| * iterations)
  {
    RunTriggersInOrder(actions, iterations, Begin(t), nows);
  }

  // ---------------------------------------------------------------------------
  // The group as the source keeps it: fields updated in place

  class GroupLoose<T> {
    var start: int
    var lastActionStart: int
    const duration: int
    var lastIdx: int
    const actions: seq<Action<T>>
    const iterations: int

    ghost function State(): LooseState
      reads this
    {
      LooseState(start, lastActionStart, lastIdx)
    }

    ghost predicate Valid()
      reads this
    {
      && ValidTable(actions, iterations)
      && duration == TotalDuration(actions)
      && ValidState(actions, iterations, State())
    }

    /** The struct literal of NewGroupLoose: every other field holds its zero value. */
    constructor (actions: seq<Action<T>>, duration: int, iterations: int)
      ensures this.actions == actions && this.duration == duration && this.iterations == iterations
      ensures State() == LooseState(0, 0, 0)
    {
      this.actions := actions;
      this.duration := duration;
      this.iterations := iterations;
      start, lastActionStart, lastIdx := 0, 0, 0;
    }

    /** Begins resets the whole polling state; Begins(0) leaves the group unstarted. */
    method Begins(start: int)
      requires Valid()
      modifies this
      ensures Valid() && State() == Begin(start)
    {
      this.start := start;
      lastActionStart := 0;
      lastIdx := -1;
    }

    function StartTime(): int
      reads this
    {
      start
    }

    function Iterations(): (n: int)
      requires Valid()
      reads this
      ensures n == -1 || n > 0
    {
      iterations
    }

    /** The length of one pass, cached at construction; it may be zero. */
    function Duration(): (d: int)
      requires Valid()
      reads this
      ensures d == TotalDuration(actions) && d >= 0
    {
      PrefixMonotone(actions, 0, |actions|);
      duration
    }

    method ScheduleNext(now: int) returns (v: Option<T>, ok: bool, next: int, err: Option<Error>)
      requires Valid()
      modifies this
      ensures Valid() && ok == v.Some?
      ensures (State(), Reply(v, next, err)) == Poll(actions, iterations, old(State()), now)
    {
      if start == 0 {
        return None, false, 0, Some(BeginNotCalled);
      }
      var elapsed := now - start;
      if elapsed < 0 {
        return None, false, -elapsed, None;
      }
      if lastIdx == -1 {
        FirstEnabled(actions, iterations);
        lastActionStart := now;
        lastIdx := 0;
        return Some(actions[0].value), true, actions[0].duration, None;
      }
      var actionElapsed := now - lastActionStart;
      var safeIdx := lastIdx % |actions|;
      var currAction := actions[safeIdx];
      if actionElapsed < currAction.duration {
        return None, false, currAction.duration - actionElapsed, None;
      }
      var nextIdx := lastIdx + 1;
      var nextActionEnabled := iterations == -1 || nextIdx < |actions| * iterations;
      if !nextActionEnabled {
        return None, false, 0, None;
      }
      lastIdx := lastIdx + 1;
      lastActionStart := now;
      safeIdx := lastIdx % |actions|;
      return Some(actions[safeIdx].value), true, actions[safeIdx].duration, None;
    }
  }

  /** Construction succeeds exactly for the tables the engine is defined on. */
  lemma ConstructionMatchesTable<T>(actions: seq<Action<T>>, iterations: int)
    ensures ConstructionError(actions, true, iterations).None? <==> ValidTable(actions, iterations)
  {
    ConstructionAccepts(actions, true, iterations);
  }

  /** NewGroupLoose: validate, then build the group; zero durations are accepted and
      the small-duration warning is dropped. */
  method NewGroupLoose<T>(actions: seq<Action<T>>, iterations: int) returns (g: GroupLoose?<T>, err: Option<Error>)
    ensures g == null <==> ConstructionError(actions, true, iterations).Some?
    ensures g == null ==> err == ConstructionError(actions, true, iterations)
    ensures g != null ==>
      && fresh(g) && g.Valid()
      && g.actions == actions && g.iterations == iterations
      && g.State() == LooseState(0, 0, 0)
      && err.None?
  {
    var duration, e := ActionsDuration(actions, true);
    if Fatal(e) {
      return null, e;
    }
    if |actions| == 0 {
      return null, Some(EmptyActions);
    }
    if iterations <= 0 && iterations != -1 {
      return null, Some(BadIterations);
    }
    ConstructionMatchesTable(actions, iterations);
    FirstEnabled(actions, iterations);
    g := new GroupLoose(actions, duration, iterations);
    err := None;
  }

  /** Polls a group once per instant, in order: the caller's control loop. */
  method PollAll<T>(g: GroupLoose<T>, nows: seq<int>) returns (replies: seq<Reply<T>>)
    requires g.Valid()
    modifies g
    ensures g.Valid()
    ensures g.State() == Run(g.actions, g.iterations, old(g.State()), nows).0
    ensures replies == Run(g.actions, g.iterations, old(g.State()), nows).1
  {
    ghost var s0 := g.State();
    replies := [];
    assert nows[0..] == nows;
    for i := 0 to |nows|
      invariant g.Valid()
      invariant Run(g.actions, g.iterations, s0, nows).0 == Run(g.actions, g.iterations, g.State(), nows[i..]).0
      invariant Run(g.actions, g.iterations, s0, nows).1 == replies + Run(g.actions, g.iterations, g.State(), nows[i..]).1
    {
      ghost var before := g.State();
      var v, ok, next, err := g.ScheduleNext(nows[i]);
      RunHead(g.actions, g.iterations, before, nows[i..]);
      assert nows[i..][1..] == nows[i + 1..];
      replies := replies + [Reply(v, next, err)];
    }
    assert nows[|nows|..] == [];
  }

  /** Calling Begins again with the same instant discards all progress: the same
      poll instants then produce the same replies as the first time. */
  method ReplayAfterBegins<T>(g: GroupLoose<T>, t: int, nows: seq<int>) returns (first: seq<Reply<T>>, second: seq<Reply<T>>)
    requires g.Valid()
    modifies g
    ensures g.Valid() && first == second
  {
    g.Begins(t);
    first := PollAll(g, nows);
    g.Begins(t);
    second := PollAll(g, nows);
  }
}
