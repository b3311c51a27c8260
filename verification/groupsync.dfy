/** The strict engine, GroupSync: the current action is read off the elapsed time
    since Begins (folded into the current cycle while repetition is active), and a
    poll may only stay on the last triggered action, move to its successor, or
    report done; any other jump fails the group until the next Begins. */
module SyncEngine {
  import opened Actions

  /** The fields of a GroupSync that Begins and polls update. */
  datatype SyncState = SyncState(start: int, elapsedToRestart: int, lastIdx: int, failed: bool)

  /** What NewGroupSync guarantees of the parts that never change afterwards. */
  predicate ValidTable<T>(actions: seq<Action<T>>, iterations: int)
  {
    && |actions| > 0
    && (forall i :: 0 <= i < |actions| ==> actions[i].duration > 0)
    && (iterations == -1 || iterations > 0)
  }

  /** lastIdx is -1 (nothing triggered since Begins) or an index of the table. */
  predicate ValidState<T>(actions: seq<Action<T>>, s: SyncState)
  {
    -1 <= s.lastIdx < |actions|
  }

  /** The state Begins(start) leaves behind, whatever came before. */
  function Begin(start: int): SyncState
  {
    SyncState(start, 0, -1, false)
  }

  /** Whether the elapsed time is folded into the current cycle: always with -1
      iterations, and with more than one iteration until all of them have elapsed. */
  predicate RestartActive(iterations: int, runtime: int, elapsed: int)
  {
    iterations == -1 || (iterations > 1 && elapsed < iterations * runtime)
  }

  /** The time since the start of the current cycle (or since Begins when not folding). */
  function Position(iterations: int, runtime: int, elapsed: int): int
    requires runtime > 0
  {
    if RestartActive(iterations, runtime, elapsed) then elapsed % runtime else elapsed
  }

  /** Index k is the legal successor of the last triggered index: the next one, or
      the first one again after the last while repetition is active. */
  predicate Successor<T>(actions: seq<Action<T>>, restart: bool, last: int, k: int)
  {
    k == last + 1 || (restart && last == |actions| - 1 && k == 0)
  }

  /** The action whose window holds the poll at `now`, and the time until its end. */
  function Located<T>(actions: seq<Action<T>>, iterations: int, s: SyncState, now: int): (int, int)
    requires ValidTable(actions, iterations)
  {
    TotalPositive(actions);
    Locate(actions, Position(iterations, TotalDuration(actions), now - s.start))
  }

  /** The located action is a real one and not the last triggered one. */
  predicate Jump<T>(actions: seq<Action<T>>, iterations: int, s: SyncState, now: int)
    requires ValidTable(actions, iterations)
  {
    var k := Located(actions, iterations, s, now).0;
    k != -1 && k != s.lastIdx
  }

  /** scheduleNext: what a poll does once Begins was called and the group has not
      failed. */
  function PollStarted<T>(actions: seq<Action<T>>, iterations: int, s: SyncState, now: int)
    : (r: (SyncState, Reply<T>))
    requires ValidTable(actions, iterations) && ValidState(actions, s)
    ensures ValidState(actions, r.0) && r.0.start == s.start
  {
    var elapsed := now - s.start;
    if elapsed < 0 then (s, Reply(None, -elapsed, None))
    else
      var restart := RestartActive(iterations, TotalDuration(actions), elapsed);
      var (nextIdx, next) := Located(actions, iterations, s, now);
      if nextIdx == s.lastIdx then (s, Reply(None, next, None))
      else if nextIdx != -1 && !Successor(actions, restart, s.lastIdx, nextIdx) then
        (s.(failed := true), Reply(None, 0, Some(MissedAction)))
      else if nextIdx == -1 then (s, Reply(None, 0, None))
      else (s.(lastIdx := nextIdx), Reply(Some(actions[nextIdx].value), next, None))
  }

  /** What one started poll may do to the state: wait before the start, trigger the
      successor of the last action (with a positive time to its end), fail with
      MissedAction and nothing else, or leave the state untouched. */
  lemma PollStartedEffects<T>(actions: seq<Action<T>>, iterations: int, s: SyncState, now: int)
    requires ValidTable(actions, iterations) && ValidState(actions, s)
    ensures var r := PollStarted(actions, iterations, s, now);
      && r.0.elapsedToRestart == s.elapsedToRestart
      && (now < s.start ==> r == (s, Reply(None, s.start - now, None)))
      && (r.1.err.None? || r.1.err == Some(MissedAction))
      && (r.0.failed <==> s.failed || r.1.err == Some(MissedAction))
      && (r.1.err == Some(MissedAction) ==> r.0.lastIdx == s.lastIdx && r.1 == Reply(None, 0, r.1.err))
      && (r.1.Ok() ==>
            && r.0 == s.(lastIdx := (s.lastIdx + 1) % |actions|)
            && r.1.value == Some(actions[r.0.lastIdx].value)
            && r.1.next > 0)
      && (!r.1.Ok() && r.1.err.None? ==> r.0 == s)
  {
    NextIndex(s.lastIdx, |actions|);
  }

  /** Which of the outcomes a started poll at or after the start takes, read off the
      action whose window holds it: done exactly when it lies past the last window,
      a trigger exactly on a jump to the legal successor, MissedAction exactly on a
      jump anywhere else, and otherwise a wait until the end of the current window. */
  lemma PollStartedDecision<T>(actions: seq<Action<T>>, iterations: int, s: SyncState, now: int)
    requires ValidTable(actions, iterations) && ValidState(actions, s)
    requires now >= s.start
    ensures var r := PollStarted(actions, iterations, s, now);
      var (k, rem) := Located(actions, iterations, s, now);
      var restart := RestartActive(iterations, TotalDuration(actions), now - s.start);
      && (r.1.Done() <==> k == -1)
      && (r.1.Ok() <==> Jump(actions, iterations, s, now) && Successor(actions, restart, s.lastIdx, k))
      && (r.1.err == Some(MissedAction) <==> Jump(actions, iterations, s, now) && !Successor(actions, restart, s.lastIdx, k))
      && (r.1.err.None? && !r.1.Done() ==> r.0.lastIdx == k && r.1.next == rem)
  {
    TotalPositive(actions);
  }

  /** ScheduleNext: the two guards, then scheduleNext. */
  function Poll<T>(actions: seq<Action<T>>, iterations: int, s: SyncState, now: int)
    : (r: (SyncState, Reply<T>))
    requires ValidTable(actions, iterations) && ValidState(actions, s)
    ensures ValidState(actions, r.0) && r.0.start == s.start
  {
    if s.start == 0 then (s, Reply(None, 0, Some(BeginNotCalled)))
    else if s.failed then (s, Reply(None, 0, Some(GroupFailed)))
    else PollStarted(actions, iterations, s, now)
  }

  /** The guards of ScheduleNext: BeginNotCalled exactly when Begins was not called,
      GroupFailed exactly on a failed group, which stays as it is; no other error
      than those and MissedAction, and an error never comes with a payload. */
  lemma PollErrors<T>(actions: seq<Action<T>>, iterations: int, s: SyncState, now: int)
    requires ValidTable(actions, iterations) && ValidState(actions, s)
    ensures var r := Poll(actions, iterations, s, now);
      && (r.1.err == Some(BeginNotCalled) <==> s.start == 0)
      && (r.1.err == Some(GroupFailed) <==> s.start != 0 && s.failed)
      && (r.1.err.None? || r.1.err.value in {BeginNotCalled, GroupFailed, MissedAction})
      && (r.1.err.Some? ==> r.1.value.None? && r.1.next == 0)
      && (s.failed ==> r.0 == s)
      && (r.0.failed <==> s.failed || r.1.err == Some(MissedAction))
      && (s.start != 0 && !s.failed && now < s.start ==> r == (s, Reply(None, s.start - now, None)))
  {
    if s.start != 0 && !s.failed {
      PollStartedEffects(actions, iterations, s, now);
    }
  }

  /** A poll moves lastIdx only by triggering, and only to the successor of the last
      triggered action (cyclically), delivering that action's payload; a poll that
      triggers nothing and does not miss leaves the whole state as it was. */
  lemma PollProgress<T>(actions: seq<Action<T>>, iterations: int, s: SyncState, now: int)
    requires ValidTable(actions, iterations) && ValidState(actions, s)
    ensures var r := Poll(actions, iterations, s, now);
      && (r.1.Ok() ==>
            && r.0 == s.(lastIdx := (s.lastIdx + 1) % |actions|)
            && r.1.value == Some(actions[r.0.lastIdx].value))
      && (!r.1.Ok() ==> r.0.lastIdx == s.lastIdx && r.0.elapsedToRestart == s.elapsedToRestart)
      && (!r.1.Ok() && r.1.err != Some(MissedAction) ==> r.0 == s)
  {
    if s.start != 0 && !s.failed {
      PollStartedEffects(actions, iterations, s, now);
    }
  }

  /** The replies to a sequence of polls, and the state they leave behind. */
  function Run<T>(actions: seq<Action<T>>, iterations: int, s: SyncState, nows: seq<int>)
    : (r: (SyncState, seq<Reply<T>>))
    requires ValidTable(actions, iterations) && ValidState(actions, s)
    ensures ValidState(actions, r.0) && |r.1| == |nows|
    decreases |nows|
  {
    if nows == [] then (s, [])
    else
      var (s1, reply) := Poll(actions, iterations, s, nows[0]);
      var (s2, replies) := Run(actions, iterations, s1, nows[1..]);
      (s2, [reply] + replies)
  }

  /** A run is its first poll followed by the run of the remaining instants. */
  lemma RunHead<T>(actions: seq<Action<T>>, iterations: int, s: SyncState, nows: seq<int>)
    requires ValidTable(actions, iterations) && ValidState(actions, s) && nows != []
    ensures var p := Poll(actions, iterations, s, nows[0]);
      && Run(actions, iterations, s, nows).0 == Run(actions, iterations, p.0, nows[1..]).0
      && Run(actions, iterations, s, nows).1 == [p.1] + Run(actions, iterations, p.0, nows[1..]).1
  {
  }

  /** Each poll at nows[i] takes states[i] to states[i + 1] and gives replies[i]. */
  ghost predicate Chain<T>(actions: seq<Action<T>>, iterations: int, states: seq<SyncState>, nows: seq<int>,
                     replies: seq<Reply<T>>)
    requires ValidTable(actions, iterations)
  {
    && |states| == |nows| + 1 && |replies| == |nows|
    && (forall i :: 0 <= i < |states| ==> ValidState(actions, states[i]))
    && (forall i :: 0 <= i < |nows| ==>
          Poll(actions, iterations, states[i], nows[i]) == (states[i + 1], replies[i]))
  }

  /** A run is the chain of its polls: it ends in the chain's last state and gives
      the chain's replies in order. */
  lemma {:induction false} RunAlong<T>(actions: seq<Action<T>>, iterations: int, states: seq<SyncState>,
                                       nows: seq<int>, replies: seq<Reply<T>>)
    requires ValidTable(actions, iterations) && Chain(actions, iterations, states, nows, replies)
    ensures Run(actions, iterations, states[0], nows).0 == states[|nows|]
    ensures Run(actions, iterations, states[0], nows).1 == replies
  {
    if nows != [] {
      RunHead(actions, iterations, states[0], nows);
      RunAlong(actions, iterations, states[1..], nows[1..], replies[1..]);
      assert replies == [replies[0]] + replies[1..];
    }
  }

  // ---------------------------------------------------------------------------
  // Properties of the strict engine

  /** Failure is sticky: once failed, every poll reports GroupFailed and nothing
      changes, until the next Begins. */
  lemma {:induction false} FailureIsSticky<T>(actions: seq<Action<T>>, iterations: int, s: SyncState, nows: seq<int>)
    requires ValidTable(actions, iterations) && ValidState(actions, s)
    requires s.start != 0 && s.failed
    ensures Run(actions, iterations, s, nows).0 == s
    ensures forall i :: 0 <= i < |nows| ==>
      Run(actions, iterations, s, nows).1[i] == Reply(None, 0, Some(GroupFailed))
    decreases |nows|
  {
    if nows != [] {
      FailureIsSticky(actions, iterations, s, nows[1..]);
    }
  }

  /** A missed action fails the group for good: every later poll reports
      GroupFailed until the next Begins. */
  lemma MissedActionIsTerminal<T>(actions: seq<Action<T>>, iterations: int, s: SyncState, now: int, later: seq<int>)
    requires ValidTable(actions, iterations) && ValidState(actions, s)
    requires Poll(actions, iterations, s, now).1.err == Some(MissedAction)
    ensures var s1 := Poll(actions, iterations, s, now).0;
      forall i :: 0 <= i < |later| ==>
        Run(actions, iterations, s1, later).1[i] == Reply(None, 0, Some(GroupFailed))
  {
    FailureIsSticky(actions, iterations, Poll(actions, iterations, s, now).0, later);
  }

  /** Done is terminal: once a poll reports done, a poll at any later instant
      reports done again and leaves the state as it is. */
  lemma DoneIsStable<T>(actions: seq<Action<T>>, iterations: int, s: SyncState, now: int, later: int)
    requires ValidTable(actions, iterations) && ValidState(actions, s)
    requires Poll(actions, iterations, s, now).1.Done() && now <= later
    ensures Poll(actions, iterations, s, now).0 == s
    ensures Poll(actions, iterations, s, later) == (s, Reply(None, 0, None))
  {
    var e, e' := now - s.start, later - s.start;
    TotalPositive(actions);
    var total := TotalDuration(actions);
    LocatePastEnd(actions, Position(iterations, total, e));
    LocatePastEnd(actions, e');
    assert !RestartActive(iterations, total, e');
  }

  /** Done is reported again for every later poll, however many follow. */
  lemma {:induction false} DoneForever<T>(actions: seq<Action<T>>, iterations: int, s: SyncState, now: int, later: seq<int>)
    requires ValidTable(actions, iterations) && ValidState(actions, s)
    requires Poll(actions, iterations, s, now).1.Done()
    requires forall i :: 0 <= i < |later| ==> now <= later[i]
    ensures Run(actions, iterations, s, later).0 == s
    ensures forall i :: 0 <= i < |later| ==> Run(actions, iterations, s, later).1[i].Done()
    decreases |later|
  {
    if later != [] {
      DoneIsStable(actions, iterations, s, now, later[0]);
      DoneForever(actions, iterations, s, now, later[1..]);
    }
  }

  /** With unbounded repetition the elapsed time is always folded into a cycle, so
      a poll never reports done. */
  lemma UnboundedNeverDone<T>(actions: seq<Action<T>>, s: SyncState, now: int)
    requires ValidTable(actions, -1) && ValidState(actions, s)
    ensures !Poll(actions, -1, s, now).1.Done()
  {
    TotalPositive(actions);
    var e := now - s.start;
    if s.start != 0 && !s.failed && e >= 0 {
      LocatePastEnd(actions, e % TotalDuration(actions));
    }
  }

  /** The offset from Begins of the cycle a poll falls in: a whole number of cycles
      while repetition is active, 0 otherwise. */
  function CycleStart<T>(actions: seq<Action<T>>, iterations: int, elapsed: int): int
    requires ValidTable(actions, iterations)
  {
    TotalPositive(actions);
    if RestartActive(iterations, TotalDuration(actions), elapsed)
    then (elapsed / TotalDuration(actions)) * TotalDuration(actions)
    else 0
  }

  /** The position a poll is located at is its offset from the start of its cycle,
      and lies inside the cycle while repetition is active. */
  lemma PositionInCycle<T>(actions: seq<Action<T>>, iterations: int, elapsed: int)
    requires ValidTable(actions, iterations) && elapsed >= 0
    ensures TotalDuration(actions) > 0
    ensures var p := Position(iterations, TotalDuration(actions), elapsed);
      && p == elapsed - CycleStart(actions, iterations, elapsed)
      && 0 <= p
      && (RestartActive(iterations, TotalDuration(actions), elapsed) ==> p < TotalDuration(actions))
  {
    TotalPositive(actions);
  }

  /** No drift: every boundary a poll reports lies on the fixed grid of Begins
      plus whole cycles plus the end of an action, and the action a poll stays on or
      triggers is the one whose nominal window holds the poll, however late or
      irregular the earlier polls were. */
  lemma BoundaryOnGrid<T>(actions: seq<Action<T>>, iterations: int, s: SyncState, now: int)
    requires ValidTable(actions, iterations) && ValidState(actions, s)
    requires now >= s.start
    ensures var (s', r) := Poll(actions, iterations, s, now);
      var base := s.start + CycleStart(actions, iterations, now - s.start);
      r.err.None? && !r.Done() ==>
        && 0 <= s'.lastIdx < |actions|
        && base + Prefix(actions, s'.lastIdx) <= now
        && now + r.next == base + Prefix(actions, s'.lastIdx + 1)
        && (r.Ok() ==> r.value == Some(actions[s'.lastIdx].value))
  {
    var e := now - s.start;
    PollErrors(actions, iterations, s, now);
    var (s', r) := Poll(actions, iterations, s, now);
    if r.err.None? && !r.Done() {
      PollStartedDecision(actions, iterations, s, now);
      PositionInCycle(actions, iterations, e);
      TotalPositive(actions);
      LocatePastEnd(actions, Position(iterations, TotalDuration(actions), e));
    }
  }

  /** The triggered payloads of any run follow the action list cyclically from the
      successor of the last triggered action: the engine never delivers a payload
      out of order and never skips one between two deliveries. */
  lemma {:induction false} RunTriggersInOrder<T>(actions: seq<Action<T>>, iterations: int, s: SyncState, nows: seq<int>)
    requires ValidTable(actions, iterations) && ValidState(actions, s)
    ensures var t := Triggered(Run(actions, iterations, s, nows).1);
      t == CyclicValues(actions, s.lastIdx + 1, |t|)
    decreases |nows|
  {
    if nows != [] {
      var p := Poll(actions, iterations, s, nows[0]);
      PollProgress(actions, iterations, s, nows[0]);
      var rest := Run(actions, iterations, p.0, nows[1..]);
      RunHead(actions, iterations, s, nows);
      RunTriggersInOrder(actions, iterations, p.0, nows[1..]);
      TriggeredCons(p.1, rest.1);
      CyclicExtend(actions, s.lastIdx, p.0.lastIdx, p.1, Triggered(rest.1));
    }
  }

  // ---------------------------------------------------------------------------
  // Polling often enough

  /** Between two instants at most the shortest action duration apart, the action
      the schedule places at the later one is the same as at the earlier one, its
      legal successor (wrapping while repetition is active), or none at all. */
  lemma LocatedAdvance<T>(actions: seq<Action<T>>, iterations: int, s: SyncState, prev: int, now: int, g: int)
    requires ValidTable(actions, iterations) && AllAtLeast(actions, g)
    requires s.start <= prev <= now <= prev + g
    requires Located(actions, iterations, s, prev).0 != -1
    ensures var k, k' := Located(actions, iterations, s, prev).0, Located(actions, iterations, s, now).0;
      var restart := RestartActive(iterations, TotalDuration(actions), now - s.start);
      k' == -1 || k' == k || Successor(actions, restart, k, k')
  {
    TotalPositive(actions);
    var total := TotalDuration(actions);
    PrefixMonotone(actions, 1, |actions|);
    assert Prefix(actions, 1) == actions[0].duration;
    var e, e' := prev - s.start, now - s.start;
    if RestartActive(iterations, total, e') {
      CycleAdvance(e, e', total, g);
      if e' / total == e / total {
        LocateAdvance(actions, g, e % total, e' % total);
      } else {
        LocateWrap(actions, g, e % total, e' % total);
      }
    } else if RestartActive(iterations, total, e) {
      MulAtLeast(iterations, total);
      LocatePastEnd(actions, e');
    } else {
      LocateAdvance(actions, g, e, e');
    }
  }

  /** A poll that comes at most the shortest action duration after an instant at
      which lastIdx was the action of the schedule never misses an action: it stays,
      moves to the successor (wrapping while repetition is active) or reports done. */
  lemma NoMissWithinShortest<T>(actions: seq<Action<T>>, iterations: int, s: SyncState, prev: int, now: int, g: int)
    requires ValidTable(actions, iterations) && ValidState(actions, s) && AllAtLeast(actions, g)
    requires s.start != 0 && !s.failed && s.start <= prev <= now <= prev + g
    requires s.lastIdx != -1 && s.lastIdx == Located(actions, iterations, s, prev).0
    ensures Poll(actions, iterations, s, now).1.err.None?
  {
    PollStartedDecision(actions, iterations, s, now);
    LocatedAdvance(actions, iterations, s, prev, now, g);
  }

  /** Each poll instant comes at or after the previous one (the first after `prev`)
      and at most g later. */
  predicate Frequent(prev: int, nows: seq<int>, g: int)
    decreases |nows|
  {
    nows == [] || (prev <= nows[0] <= prev + g && Frequent(nows[0], nows[1..], g))
  }

  /** A begun, healthy group whose lastIdx is the action the schedule places at
      instant `at`, or whose pass is over by then. */
  predicate InStep<T>(actions: seq<Action<T>>, iterations: int, s: SyncState, at: int)
    requires ValidTable(actions, iterations)
  {
    && s.start != 0 && !s.failed && s.start <= at
    && var k := Located(actions, iterations, s, at).0;
       k == -1 || (s.lastIdx != -1 && s.lastIdx == k)
  }

  /** A poll at most the shortest action duration after an instant at which the
      group was in step reports no error, and leaves the group in step at the poll. */
  lemma StaysInStep<T>(actions: seq<Action<T>>, iterations: int, s: SyncState, prev: int, now: int, g: int)
    requires ValidTable(actions, iterations) && ValidState(actions, s) && AllAtLeast(actions, g)
    requires InStep(actions, iterations, s, prev) && prev <= now <= prev + g
    ensures Poll(actions, iterations, s, now).1.err.None?
    ensures InStep(actions, iterations, Poll(actions, iterations, s, now).0, now)
  {
    var p := Poll(actions, iterations, s, now);
    PollStartedDecision(actions, iterations, s, prev);
    PollStartedDecision(actions, iterations, s, now);
    PollErrors(actions, iterations, s, now);
    PollProgress(actions, iterations, s, now);
    if Located(actions, iterations, s, prev).0 == -1 {
      DoneIsStable(actions, iterations, s, prev, now);
    } else {
      NoMissWithinShortest(actions, iterations, s, prev, now, g);
    }
    assert Located(actions, iterations, p.0, now) == Located(actions, iterations, s, now);
  }

  /** From a state in step with the schedule, polls that follow each other by at
      most the shortest action duration never report an error. */
  lemma {:induction false} FrequentPollsNeverMiss<T>(actions: seq<Action<T>>, iterations: int, s: SyncState, prev: int, nows: seq<int>, g: int)
    requires ValidTable(actions, iterations) && ValidState(actions, s) && AllAtLeast(actions, g)
    requires InStep(actions, iterations, s, prev) && Frequent(prev, nows, g)
    ensures forall i :: 0 <= i < |nows| ==> Run(actions, iterations, s, nows).1[i].err.None?
    decreases |nows|
  {
    if nows != [] {
      var p := Poll(actions, iterations, s, nows[0]);
      StaysInStep(actions, iterations, s, prev, nows[0], g);
      FrequentPollsNeverMiss(actions, iterations, p.0, nows[0], nows[1..], g);
      assert Run(actions, iterations, s, nows).1 == [p.1] + Run(actions, iterations, p.0, nows[1..]).1;
    }
  }

  /** An event loop that first polls strictly within the shortest action duration
      after Begins, and then at least once per shortest action duration, never sees
      MissedAction or any other error. (A first poll exactly one shortest duration
      after Begins can already be a whole action late.) */
  lemma PolledOftenNeverMisses<T>(actions: seq<Action<T>>, iterations: int, t: int, nows: seq<int>, g: int)
    requires ValidTable(actions, iterations) && AllAtLeast(actions, g) && t != 0
    requires nows != [] ==> t <= nows[0] < t + g && Frequent(nows[0], nows[1..], g)
    ensures forall i :: 0 <= i < |nows| ==> Run(actions, iterations, Begin(t), nows).1[i].err.None?
  {
    if nows != [] {
      var x := nows[0];
      var s := Begin(t);
      TotalPositive(actions);
      var total := TotalDuration(actions);
      PrefixMonotone(actions, 1, |actions|);
      assert Prefix(actions, 1) == actions[0].duration;
      QuotientUnique(x - t, total, 0, x - t);
      assert Located(actions, iterations, s, x).0 == 0;
      var p := Poll(actions, iterations, s, x);
      PollStartedDecision(actions, iterations, s, x);
      PollErrors(actions, iterations, s, x);
      assert Located(actions, iterations, p.0, x) == Located(actions, iterations, s, x);
      FrequentPollsNeverMiss(actions, iterations, p.0, x, nows[1..], g);
      assert Run(actions, iterations, s, nows).1 == [p.1] + Run(actions, iterations, p.0, nows[1..]).1;
    }
  }

  // ---------------------------------------------------------------------------
  // Behaviour as written, on concrete schedules

  /** The documented example's table: three actions of equal duration 2q with
      payloads 20, 30 and 50 (q is a quarter second there). */
  function ExampleActions(q: int): seq<Action<int>>
  {
    [Action(2 * q, 20), Action(2 * q, 30), Action(2 * q, 50)]
  }

  /** Where each poll, q apart, falls in the example's single pass. */
  lemma ExampleLocations(q: int)
    requires q > 0
    ensures TotalDuration(ExampleActions(q)) == 6 * q
    ensures Locate(ExampleActions(q), 0) == (0, 2 * q)
    ensures Locate(ExampleActions(q), q) == (0, q)
    ensures Locate(ExampleActions(q), 2 * q) == (1, 2 * q)
    ensures Locate(ExampleActions(q), 3 * q) == (1, q)
    ensures Locate(ExampleActions(q), 4 * q) == (2, 2 * q)
    ensures Locate(ExampleActions(q), 5 * q) == (2, q)
    ensures Locate(ExampleActions(q), 6 * q) == (-1, 0)
  {
    var actions := ExampleActions(q);
    assert Prefix(actions, 1) == 2 * q;
    assert Prefix(actions, 2) == 4 * q;
    assert Prefix(actions, 3) == 6 * q;
  }

  /** The documented example, begun at instant t and polled by a ticker every q,
      whose first tick comes at t + q: the first poll finds action 0 half over and
      delivers 20 with q to go; the polls at the start of the next two windows
      deliver 30 and 50, each with 2q to go. */
  lemma ExampleTriggers(q: int, t: int)
    requires q > 0 && t != 0
    ensures Poll(ExampleActions(q), 1, Begin(t), t + q)
         == (Begin(t).(lastIdx := 0), Reply(Some(20), q, None))
    ensures Poll(ExampleActions(q), 1, Begin(t).(lastIdx := 0), t + 2 * q)
         == (Begin(t).(lastIdx := 1), Reply(Some(30), 2 * q, None))
    ensures Poll(ExampleActions(q), 1, Begin(t).(lastIdx := 1), t + 4 * q)
         == (Begin(t).(lastIdx := 2), Reply(Some(50), 2 * q, None))
  {
    ExampleLocations(q);
  }

  /** The other ticks of the documented example: those halfway through a window
      wait q more on the action just delivered, and the one at the end of the pass
      reports done. */
  lemma ExampleWaits(q: int, t: int)
    requires q > 0 && t != 0
    ensures Poll(ExampleActions(q), 1, Begin(t).(lastIdx := 1), t + 3 * q)
         == (Begin(t).(lastIdx := 1), Reply(None, q, None))
    ensures Poll(ExampleActions(q), 1, Begin(t).(lastIdx := 2), t + 5 * q)
         == (Begin(t).(lastIdx := 2), Reply(None, q, None))
    ensures Poll(ExampleActions(q), 1, Begin(t).(lastIdx := 2), t + 6 * q)
         == (Begin(t).(lastIdx := 2), Reply(None, 0, None))
  {
    ExampleLocations(q);
  }

  /** The example's ticks after Begins, q apart. */
  function ExampleTicks(q: int, t: int): seq<int>
  {
    [t + q, t + 2 * q, t + 3 * q, t + 4 * q, t + 5 * q, t + 6 * q]
  }

  /** The replies the example's ticks receive. */
  function ExampleReplies(q: int): seq<Reply<int>>
  {
    [Reply(Some(20), q, None), Reply(Some(30), 2 * q, None), Reply(None, q, None),
     Reply(Some(50), 2 * q, None), Reply(None, q, None), Reply(None, 0, None)]
  }

  /** The states the example passes through, one before each tick and the last. */
  function ExampleStates(t: int): seq<SyncState>
  {
    [Begin(t), Begin(t).(lastIdx := 0), Begin(t).(lastIdx := 1), Begin(t).(lastIdx := 1),
     Begin(t).(lastIdx := 2), Begin(t).(lastIdx := 2), Begin(t).(lastIdx := 2)]
  }

  /** The example's ticks that deliver, in terms of the run's states and replies. */
  lemma ExampleTriggerSteps(q: int, t: int, i: int)
    requires q > 0 && t != 0 && (i == 0 || i == 1 || i == 3)
    ensures ValidTable(ExampleActions(q), 1)
    ensures Poll(ExampleActions(q), 1, ExampleStates(t)[i], ExampleTicks(q, t)[i])
         == (ExampleStates(t)[i + 1], ExampleReplies(q)[i])
  {
    ExampleTriggers(q, t);
    assert ExampleStates(t)[..5] == [Begin(t), Begin(t).(lastIdx := 0), Begin(t).(lastIdx := 1),
                                     Begin(t).(lastIdx := 1), Begin(t).(lastIdx := 2)];
  }

  /** The example's ticks that wait or report done, in the same terms. */
  lemma ExampleWaitSteps(q: int, t: int, i: int)
    requires q > 0 && t != 0 && (i == 2 || i == 4 || i == 5)
    ensures ValidTable(ExampleActions(q), 1)
    ensures Poll(ExampleActions(q), 1, ExampleStates(t)[i], ExampleTicks(q, t)[i])
         == (ExampleStates(t)[i + 1], ExampleReplies(q)[i])
  {
    ExampleWaits(q, t);
  }

  /** The example's ticks, one by one, take each state to the next. */
  lemma ExampleChain(q: int, t: int)
    requires q > 0 && t != 0
    ensures ValidTable(ExampleActions(q), 1)
    ensures Chain(ExampleActions(q), 1, ExampleStates(t), ExampleTicks(q, t), ExampleReplies(q))
  {
    ExampleWaitSteps(q, t, 2);
    forall i | 0 <= i < 6
      ensures Poll(ExampleActions(q), 1, ExampleStates(t)[i], ExampleTicks(q, t)[i])
           == (ExampleStates(t)[i + 1], ExampleReplies(q)[i])
    {
      if i == 0 || i == 1 || i == 3 {
        ExampleTriggerSteps(q, t, i);
      } else {
        ExampleWaitSteps(q, t, i);
      }
    }
  }

  /** The example's replies deliver 20, 30 and 50 in that order, carry no error,
      and the last one reports done. */
  lemma ExampleDelivers(q: int)
    ensures forall i :: 0 <= i < |ExampleReplies(q)| ==> ExampleReplies(q)[i].err.None?
    ensures Triggered(ExampleReplies(q)) == [20, 30, 50]
    ensures ExampleReplies(q)[5].Done()
  {
    var r := ExampleReplies(q);
    assert r == [r[0]] + ([r[1]] + ([r[2]] + ([r[3]] + ([r[4]] + ([r[5]] + [])))));
    TriggeredCons(r[5], []);
    TriggeredCons(r[4], [r[5]] + []);
    TriggeredCons(r[3], [r[4]] + ([r[5]] + []));
    TriggeredCons(r[2], [r[3]] + ([r[4]] + ([r[5]] + [])));
    TriggeredCons(r[1], [r[2]] + ([r[3]] + ([r[4]] + ([r[5]] + []))));
    TriggeredCons(r[0], [r[1]] + ([r[2]] + ([r[3]] + ([r[4]] + ([r[5]] + [])))));
  }

  /** The whole documented example: the six ticks after Begins deliver 20, 30 and 50
      in that order, without an error, and the sixth reports done, leaving lastIdx
      on the last action. */
  lemma ExampleRun(q: int, t: int)
    requires q > 0 && t != 0
    ensures ValidTable(ExampleActions(q), 1)
    ensures var r := Run(ExampleActions(q), 1, Begin(t), ExampleTicks(q, t));
      && r.0 == Begin(t).(lastIdx := 2)
      && r.1 == ExampleReplies(q)
      && (forall i :: 0 <= i < |r.1| ==> r.1[i].err.None?)
      && Triggered(r.1) == [20, 30, 50]
      && r.1[5].Done()
  {
    ExampleChain(q, t);
    RunAlong(ExampleActions(q), 1, ExampleStates(t), ExampleTicks(q, t), ExampleReplies(q));
    ExampleDelivers(q);
  }

  /** As written, the done branch does not ask whether the last action was ever
      triggered: a first poll at or after the end of all iterations reports done,
      with no error, although nothing was delivered. */
  lemma FirstPollPastEndIsDone<T>(actions: seq<Action<T>>, iterations: int, t: int, now: int)
    requires ValidTable(actions, iterations) && iterations > 0 && t != 0
    requires now - t >= iterations * TotalDuration(actions)
    ensures Poll(actions, iterations, Begin(t), now) == (Begin(t), Reply(None, 0, None))
  {
    TotalPositive(actions);
    var total := TotalDuration(actions);
    MulAtLeast(iterations, total);
    LocatePastEnd(actions, now - t);
  }

  /** As written, a poll that comes a whole cycle after an instant at which the
      group was on the located action, while repetition is active, lands at the same
      position in the cycle and is read as "still on the same action": it waits as
      it did then and changes nothing, so the skipped cycle goes unnoticed
      (elapsedToRestart, meant to catch this, is never read). */
  lemma WholeCycleSkipUnnoticed<T>(actions: seq<Action<T>>, iterations: int, s: SyncState, prev: int)
    requires ValidTable(actions, iterations) && ValidState(actions, s)
    requires s.start != 0 && !s.failed && s.start <= prev
    requires RestartActive(iterations, TotalDuration(actions), prev + TotalDuration(actions) - s.start)
    requires s.lastIdx == Located(actions, iterations, s, prev).0
    ensures Poll(actions, iterations, s, prev + TotalDuration(actions))
         == (s, Reply(None, Located(actions, iterations, s, prev).1, None))
  {
    TotalPositive(actions);
    var total := TotalDuration(actions);
    var e := prev - s.start;
    ModShift(e, total);
    assert RestartActive(iterations, total, e);
    assert Located(actions, iterations, s, prev + total) == Located(actions, iterations, s, prev);
  }

  /** The smallest instance: two actions of 1 ns, repeating without end; the poll at
      3, a whole cycle after the trigger of action 0 at 1, waits 1 ns on action 0. */
  lemma WholeCycleSkipExample()
    ensures
      var actions := [Action(1, 'a'), Action(1, 'b')];
      var s := Begin(1).(lastIdx := 0);
      Poll(actions, -1, s, 3) == (s, Reply(None, 1, None))
  {
    var actions := [Action(1, 'a'), Action(1, 'b')];
    assert TotalDuration(actions) == 2;
    assert Position(-1, 2, 0) == 0;
    assert Locate(actions, 0) == (0, 1);
    WholeCycleSkipUnnoticed(actions, -1, Begin(1).(lastIdx := 0), 1);
  }

  // ---------------------------------------------------------------------------
  // The group as the source keeps it: fields updated in place

  class GroupSync<T> {
    var start: int
    /** Reset by Begins and read nowhere. */
    var elapsedToRestart: int
    const duration: int
    var lastIdx: int
    const actions: seq<Action<T>>
    const iterations: int
    var failed: bool

    ghost function State(): SyncState
      reads this
    {
      SyncState(start, elapsedToRestart, lastIdx, failed)
    }

    ghost predicate Valid()
      reads this
    {
      && ValidTable(actions, iterations)
      && duration == TotalDuration(actions)
      && ValidState(actions, State())
    }

    /** The struct literal of NewGroupSync: every other field holds its zero value. */
    constructor (actions: seq<Action<T>>, duration: int, iterations: int)
      ensures this.actions == actions && this.duration == duration && this.iterations == iterations
      ensures State() == SyncState(0, 0, 0, false)
    {
      this.actions := actions;
      this.duration := duration;
      this.iterations := iterations;
      start, elapsedToRestart, lastIdx, failed := 0, 0, 0, false;
    }

    /** Begins resets the whole polling state; Begins(0) leaves the group unstarted. */
    method Begins(start: int)
      requires Valid()
      modifies this
      ensures Valid() && State() == Begin(start)
    {
      this.start := start;
      elapsedToRestart := 0;
      lastIdx := -1;
      failed := false;
    }

    function StartTime(): int
      reads this
    {
      start
    }

    /** The length of one pass, cached at construction. */
    function Duration(): (d: int)
      requires Valid()
      reads this
      ensures d == TotalDuration(actions) && d > 0
    {
      TotalPositive(actions);
      duration
    }

    function Iterations(): (n: int)
      requires Valid()
      reads this
      ensures n == -1 || n > 0
    {
      iterations
    }

    method ScheduleNext(now: int) returns (v: Option<T>, ok: bool, next: int, err: Option<Error>)
      requires Valid()
      modifies this
      ensures Valid() && ok == v.Some?
      ensures (State(), Reply(v, next, err)) == Poll(actions, iterations, old(State()), now)
    {
      if start == 0 {
        return None, false, 0, Some(BeginNotCalled);
      }
      if failed {
        return None, false, 0, Some(GroupFailed);
      }
      v, ok, next, err := ScheduleStarted(now);
    }

    /** scheduleNext, kept as the source writes it, including its fallback error,
        which the postcondition shows is never returned. */
    method ScheduleStarted(now: int) returns (v: Option<T>, ok: bool, next: int, err: Option<Error>)
      requires Valid()
      modifies this
      ensures Valid() && ok == v.Some?
      ensures (State(), Reply(v, next, err)) == PollStarted(actions, iterations, old(State()), now)
    {
      ghost var s0 := State();
      ghost var spec := PollStarted(actions, iterations, s0, now);
      var elapsed := now - start;
      if elapsed < 0 {
        assert spec == (s0, Reply(None, -elapsed, None));
        return None, false, -elapsed, None;
      }
      var runtime := Duration();
      var restartActive := iterations == -1 || (iterations > 1 && elapsed < iterations * runtime);
      if restartActive {
        elapsed := elapsed % runtime;
      }
      assert restartActive == RestartActive(iterations, runtime, now - start);
      assert elapsed == Position(iterations, runtime, now - start);
      var nextIdx;
      nextIdx, next := CurrentIdx(actions, elapsed);
      assert (nextIdx, next) == Located(actions, iterations, s0, now);
      if nextIdx == lastIdx {
        assert spec == (s0, Reply(None, next, None));
        return None, false, next, None;
      }
      NextIndex(lastIdx, |actions|);
      if (nextIdx != -1 && !restartActive && nextIdx != lastIdx + 1)
        || (nextIdx != -1 && restartActive && nextIdx != (lastIdx + 1) % |actions|)
      {
        assert !Successor(actions, restartActive, lastIdx, nextIdx);
        assert spec == (s0.(failed := true), Reply(None, 0, Some(MissedAction)));
        failed := true;
        return None, false, 0, Some(MissedAction);
      } else if nextIdx == -1 {
        assert spec == (s0, Reply(None, 0, None));
        return None, false, 0, None;
      }
      assert Successor(actions, restartActive, lastIdx, nextIdx);
      if nextIdx == lastIdx + 1 || (restartActive && nextIdx == 0 && lastIdx == |actions| - 1) {
        assert spec == (s0.(lastIdx := nextIdx), Reply(Some(actions[nextIdx].value), next, None));
        lastIdx := nextIdx;
        return Some(actions[nextIdx].value), true, next, None;
      }
      return None, false, next, Some(UnexpectedNextIdx);
    }
  }

  /** Construction succeeds exactly for the tables the engine is defined on. */
  lemma ConstructionMatchesTable<T>(actions: seq<Action<T>>, iterations: int)
    ensures ConstructionError(actions, false, iterations).None? <==> ValidTable(actions, iterations)
  {
    ConstructionAccepts(actions, false, iterations);
  }

  /** NewGroupSync: validate, then build the group; the small-duration warning is
      returned beside a usable group. */
  method NewGroupSync<T>(actions: seq<Action<T>>, iterations: int) returns (g: GroupSync?<T>, err: Option<Error>)
    ensures g == null <==> ConstructionError(actions, false, iterations).Some?
    ensures g == null ==> err == ConstructionError(actions, false, iterations)
    ensures g != null ==>
      && fresh(g) && g.Valid()
      && g.actions == actions && g.iterations == iterations
      && g.State() == SyncState(0, 0, 0, false)
      && err == DurationError(actions, false)
      && (err == Some(SmallDuration) <==> HasSmall(actions))
  {
    var duration, e := ActionsDuration(actions, false);
    if Fatal(e) {
      return null, e;
    }
    if |actions| == 0 {
      return null, Some(EmptyActions);
    }
    if iterations <= 0 && iterations != -1 {
      return null, Some(BadIterations);
    }
    DurationErrorCases(actions, false);
    g := new GroupSync(actions, duration, iterations);
    err := e;
  }

  /** Polls a group once per instant, in order: the caller's control loop. */
  method PollAll<T>(g: GroupSync<T>, nows: seq<int>) returns (replies: seq<Reply<T>>)
    requires g.Valid()
    modifies g
    ensures g.Valid()
    ensures g.State() == Run(g.actions, g.iterations, old(g.State()), nows).0
    ensures replies == Run(g.actions, g.iterations, old(g.State()), nows).1
  {
    ghost var s0 := g.State();
    replies := [];
    assert nows[0..] == nows;
    for i := 0 to |nows|
      invariant g.Valid()
      invariant Run(g.actions, g.iterations, s0, nows).0 == Run(g.actions, g.iterations, g.State(), nows[i..]).0
      invariant Run(g.actions, g.iterations, s0, nows).1 == replies + Run(g.actions, g.iterations, g.State(), nows[i..]).1
    {
      ghost var before := g.State();
      var v, ok, next, err := g.ScheduleNext(nows[i]);
      RunHead(g.actions, g.iterations, before, nows[i..]);
      assert nows[i..][1..] == nows[i + 1..];
      replies := replies + [Reply(v, next, err)];
    }
    assert nows[|nows|..] == [];
  }

  /** Calling Begins again with the same instant discards all progress: the same
      poll instants then produce the same replies as the first time. */
  method ReplayAfterBegins<T>(g: GroupSync<T>, t: int, nows: seq<int>) returns (first: seq<Reply<T>>, second: seq<Reply<T>>)
    requires g.Valid()
    modifies g
    ensures g.Valid() && first == second
  {
    g.Begins(t);
    first := PollAll(g, nows);
    g.Begins(t);
    second := PollAll(g, nows);
  }
}
