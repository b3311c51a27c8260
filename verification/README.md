# schedule: polled action sequencers

This project models the two polled action sequencers of the Go package
`schedule`. A group holds an ordered list of actions. Each action is a
duration paired with a payload. The caller calls `Begins(start)` once. After
that it calls `ScheduleNext(now)` as often as it likes. Each call answers with
`(v, ok, next, err)`:

- whether a new action is due (`ok`) and its payload (`v`);
- how long until the next boundary (`next`);
- an error, if any.

`ok == false` with `next == 0` and no error means the group is done. Nothing
sleeps or reads a clock, so each call is a deterministic transition over a few
integer fields.

- `GroupSync` (groupsync.go) is the strict engine.
  - It reads the current action off the time elapsed since `Begins`. While
    repetition is active, that time is folded into the current cycle.
  - The action is found by a prefix-sum scan (`currentIdx`).
  - A poll may only stay on the last triggered action, move to its successor,
    or report done. Any other jump sets a sticky `failed` flag.
- `GroupLoose` (grouploose.go) is the tolerant engine.
  - It remembers only the index, counted over all passes, of the last trigger
    (`lastIdx`) and when that trigger happened.
  - It moves on by exactly one action once that action's own duration has
    passed.
  - It stops after `len * iterations` triggers and never fails.

Polled at every nanosecond, both engines deliver each action at its nominal
start in every pass and report done at the end of the last iteration. The one
exception is a strict group with a single action and repetition. After the
first pass it finds the same index as its last trigger, so it never delivers
the action again.

Layout:

- `actions.dfy` (module `Actions`) holds what both engines share:
  - the action, error and reply types;
  - prefix sums;
  - `actionsDuration` (method `ActionsDuration` and its specification
    `DurationError`);
  - `currentIdx` (method `CurrentIdx` and its specification `Locate`).
- `groupsync.dfy` (module `SyncEngine`) and `grouploose.dfy` (module
  `LooseEngine`) each hold one engine, in three layers:
  - the polling state as a datatype;
  - one poll as a pure function `Poll` and a sequence of polls as `Run`, with
    lemmas about them;
  - the Go struct as a class, whose `ScheduleNext` method updates the fields
    in place. Its postcondition ties the new fields and the reply to `Poll`.
- `agreement.dfy` (module `Agreement`) sets both engines against the nominal
  schedule that the prefix sums give. It models the common group test's main
  loop: a poll at every nanosecond from `Begins` to the end of the last
  iteration, then polls after done.

Representation:

- Instants and durations are integer nanoseconds. Instant 0 stands for Go's
  zero `time.Time`, which `IsZero` tests. So `Begins(0)` leaves a group unstarted.
- A reply is `Reply(value, next, err)`. `value` is `Some(payload)` exactly when
  `ok` is true, and `None` where Go returns the zero value of `T`.
- Errors are the enumeration `Error`.
- The fields that never change after construction (`actions`, `duration`,
  `iterations`) are `const` fields of the classes.

## Model

| member | source | states |
|---|---|---|
| Actions.ActionsDuration | groupsync.go:153-170 | The error is the first refused duration in list order: zero (when zeros are refused) before negative. Otherwise the error is the small-duration warning exactly when some duration is under 1 ms. The duration is 0 on a fatal error, else the exact sum of all durations. |
| Actions.DurationErrorCases | groupsync.go:156-168 | The error is fatal iff some action is refused. With zeros refused, a non-negative list containing a zero gives ZeroDuration. With zeros allowed, ZeroDuration never occurs. Any negative duration is fatal. Without a fatal error, the warning is given iff some duration is under 1 ms. |
| Actions.ConstructionAccepts | groupsync.go:25-34 | Both constructors' validation succeeds exactly for a non-empty list with no refused duration and an iteration count that is -1 or positive. Every failure it reports is fatal. |
| Actions.FirstRejected | groupsync.go:155-160 | The index where the validation loop stops: every earlier action is accepted and the one there is refused, or it is the list length. |
| Actions.LocateFrom | groupsync.go:172-181 | From index i on, the scan returns the first action whose end lies strictly after `elapsed`, with the time left until that end. It returns (-1, 0) when every end from i on is at or before `elapsed`. |
| Actions.Locate | groupsync.go:172-181 | currentIdx: the first index whose cumulative end is strictly after `elapsed`, with `end - elapsed > 0`, or (-1, 0) when there is none. |
| Actions.LocatePastEnd | groupsync.go:172-181 | For non-negative durations, currentIdx returns -1 exactly when `elapsed` is at least the total duration. A found index k satisfies `Prefix(k) <= elapsed < Prefix(k+1)`. |
| Actions.CurrentIdx | groupsync.go:172-181 | The loop's result equals `Locate`: the running sum invariant is the prefix sum of the actions scanned so far. |
| SyncEngine.PollStarted | groupsync.go:118-151 | scheduleNext keeps lastIdx in [-1, len-1] and never changes the start. |
| SyncEngine.PollStartedEffects | groupsync.go:118-151 | Before the start, a poll waits `start - now` and changes nothing. The only possible error is MissedAction, and it alone sets `failed`. A trigger moves lastIdx to `(lastIdx+1) % len`, delivers that action's payload and has `next > 0`. Any other outcome leaves the state unchanged. |
| SyncEngine.PollStartedDecision | groupsync.go:123-148 | At or after the start, with the elapsed time folded into the cycle while repetition is active: done iff no action's window holds the poll. A trigger iff the located action differs from the last one and is its legal successor (next, or 0 after the last while restarting). MissedAction iff it differs and is not. Otherwise a wait until the end of the current window. |
| SyncEngine.Poll | groupsync.go:108-116 | ScheduleNext keeps lastIdx in [-1, len-1] and never changes the start. |
| SyncEngine.PollErrors | groupsync.go:108-122 | BeginNotCalled iff the start is zero. GroupFailed iff begun and failed, and then nothing changes. No other error except MissedAction, and an error never comes with a payload or a wait. Only a MissedAction poll sets `failed`, and no poll clears it. Before the start, a poll waits `start - now`. |
| SyncEngine.PollProgress | groupsync.go:132-148 | lastIdx moves only on a trigger, and only to `(lastIdx+1) % len`, whose payload is delivered. A poll that neither triggers nor misses leaves the whole state unchanged. |
| SyncEngine.Run | groupsync.go:108-116 | A sequence of polls keeps lastIdx in range and gives one reply per poll. |
| SyncEngine.FailureIsSticky | groupsync.go:112-114 | Once failed, every later poll reports GroupFailed and leaves the state as it is. |
| SyncEngine.MissedActionIsTerminal | groupsync.go:136-139 | After a MissedAction reply, every later poll reports GroupFailed until the next Begins. |
| SyncEngine.DoneIsStable | groupsync.go:140-142 | A poll that reports done changes nothing, and a poll at any later instant reports done again. |
| SyncEngine.DoneForever | schedule_test.go:182-197 | After done, any number of later polls all report done and leave the state unchanged. |
| SyncEngine.UnboundedNeverDone | groupsync.go:125-128 | With -1 iterations the elapsed time is always folded into a cycle, so done is never reported. |
| SyncEngine.PositionInCycle | groupsync.go:125-128 | The folded elapsed time is the offset from the start of the current cycle, and it lies inside the cycle while restart is active. |
| SyncEngine.BoundaryOnGrid | groupsync.go:44-60 | No drift. The action a poll stays on or triggers is the one whose nominal window holds the poll. The boundary it reports lies exactly on the grid of start + whole cycles + prefix sum, however late the poll. |
| SyncEngine.RunAlong | groupsync.go:108-116 | A run ends in the last state of any chain of single polls over the same instants, and gives that chain's replies in order. |
| SyncEngine.LocatedAdvance | groupsync.go:125-131 | Between two instants at most the shortest action duration apart, the action located at the later one is the same, its legal successor (wrapping while repetition is active) or none. |
| SyncEngine.NoMissWithinShortest | groupsync.go:132-139 | A poll at most the shortest action duration after an instant where lastIdx was the located action reports no error. |
| SyncEngine.StaysInStep | groupsync.go:132-148 | Such a poll also leaves lastIdx equal to the action located at the poll, or the pass over. |
| SyncEngine.FrequentPollsNeverMiss | groupsync.go:11 | From a state in step with the schedule, polls at most the shortest action duration apart never report an error. |
| SyncEngine.PolledOftenNeverMisses | groupsync.go:11 | An event loop whose first poll comes strictly within the shortest duration after Begins, and each later one within the shortest duration of the previous, never sees MissedAction or any other error. |
| SyncEngine.RunTriggersInOrder | groupsync.go:132-148 | The payloads a run delivers are the action list walked cyclically from the successor of the last triggered action. None is delivered out of order and none is skipped between two deliveries. |
| SyncEngine.ExampleLocations | schedule_test.go:28-32 | For three actions of duration 2q, where each poll q apart falls in the pass, and when the pass ends (at 6q). |
| SyncEngine.ExampleTriggers | schedule_test.go:26-66 | The documented example, one iteration, polled by a ticker whose first tick comes q after Begins: that tick delivers 20 with q to go, and the ticks at 2q and 4q deliver 30 and 50, each with 2q to go. |
| SyncEngine.ExampleWaits | schedule_test.go:26-66 | In the same example, the ticks at 3q and 5q wait q more on the action just delivered, and the tick at 6q reports done. |
| SyncEngine.ExampleDelivers | schedule_test.go:56-65 | The example's six replies carry no error, deliver 20, 30 and 50 in that order (the sums 20, 50 and 100 of the expected output), and the last one reports done. |
| SyncEngine.ExampleRun | schedule_test.go:26-66 | The whole example as one run: the six ticks q apart after Begins give exactly those replies and leave lastIdx on the last action. |
| SyncEngine.FirstPollPastEndIsDone | groupsync.go:140-142 | The done branch does not check that anything was delivered. A first poll at or past the end of all iterations reports done with no error. |
| SyncEngine.WholeCycleSkipUnnoticed | groupsync.go:125-133 | For any table and any healthy group whose lastIdx is the action located at some instant: a poll exactly one cycle later, while repetition is active, changes nothing and waits as long as a poll at that instant would. The skipped cycle is not reported. |
| SyncEngine.WholeCycleSkipExample | groupsync.go:125-133 | The smallest instance: two actions of 1 ns repeating without end, action 0 triggered at 1; the poll at 3 waits 1 ns on action 0. |
| SyncEngine.ConstructionMatchesTable | groupsync.go:25-34 | NewGroupSync's validation succeeds exactly for the tables the engine is defined on: non-empty, all durations positive, iterations -1 or positive. |
| SyncEngine.GroupSync.constructor | groupsync.go:36-40 | The struct literal sets the table and leaves every other field at its zero value. |
| SyncEngine.GroupSync.Begins | groupsync.go:80-85 | Begins sets the start and resets elapsedToRestart, lastIdx (to -1) and failed, whatever came before. |
| SyncEngine.GroupSync.Duration | groupsync.go:93-95 | Duration reports the sum of all action durations, which is positive. |
| SyncEngine.GroupSync.Iterations | groupsync.go:99-101 | Iterations reports the configured count, -1 or positive. |
| SyncEngine.GroupSync.ScheduleNext | groupsync.go:108-116 | The in-place method's new fields and reply are exactly those of `Poll` on the old fields, with `ok` iff a payload is returned. |
| SyncEngine.GroupSync.ScheduleStarted | groupsync.go:118-151 | The in-place scheduleNext agrees with `PollStarted`, so its final "unexpected nextIdx" error is never returned. |
| SyncEngine.NewGroupSync | groupsync.go:25-42 | Returns no group exactly when validation fails, and then the first error. Otherwise a fresh group in its zero polling state, with the small-duration warning returned beside it iff some duration is under 1 ms. |
| SyncEngine.PollAll | schedule_test.go:139-176 | The caller's loop of ScheduleNext calls leaves the fields and collects the replies that `Run` gives. |
| SyncEngine.ReplayAfterBegins | groupsync.go:80-85 | After Begins with the same instant, the same poll instants produce the same replies again. |
| LooseEngine.Poll | grouploose.go:79-113 | ScheduleNext keeps lastIdx at -1 or below len*iterations when repetition is bounded, and never changes the start. |
| LooseEngine.Run | grouploose.go:79-113 | A sequence of polls keeps that bound and gives one reply per poll. |
| LooseEngine.PollGuards | grouploose.go:79-86 | The only error is BeginNotCalled, given exactly before Begins, with nothing changed. Before the start, a poll waits `start - now` and changes nothing. |
| LooseEngine.FirstPollTriggersFirst | grouploose.go:88-93 | The first poll at or after the start triggers action 0 with its full duration, and records the poll as that action's start. |
| LooseEngine.PollTriggers | grouploose.go:101-112 | A trigger increments lastIdx by exactly one, sets lastActionStart to the poll, and delivers action `(lastIdx+1) % len` with its full duration. A poll without a trigger changes nothing. |
| LooseEngine.MinimumDuration | grouploose.go:94-100 | No trigger comes before the current action's duration has passed since it was triggered. Until then a poll waits for exactly the remaining time. |
| LooseEngine.DoneExactly | grouploose.go:94-105 | Done iff the group was begun and started, the current action has run its duration, and the next trigger would exceed len*iterations. Done changes nothing. |
| LooseEngine.DoneIsStable | grouploose.go:101-105 | After done, a poll at any later instant reports done again with the state unchanged. |
| LooseEngine.DoneForever | schedule_test.go:182-197 | After done, any number of later polls all report done. |
| LooseEngine.UnboundedNeverDone | grouploose.go:101-105 | With -1 iterations done is never reported. |
| LooseEngine.NeverFails | grouploose.go:34-39 | A begun group never reports an error, however late or irregular the polls. |
| LooseEngine.RunAlong | grouploose.go:79-113 | A run ends in the last state of any chain of single polls over the same instants, and gives that chain's replies in order. |
| LooseEngine.RunTriggersInOrder | grouploose.go:106-112 | Over any run, the payloads delivered are the action list walked cyclically from the one after the last trigger, one per increment of lastIdx. The k-th trigger since Begins delivers action `k % len`. |
| LooseEngine.TriggerBound | grouploose.go:101-105 | From Begins, a run triggers exactly lastIdx + 1 actions, and at most len*iterations when repetition is bounded. |
| LooseEngine.ConstructionMatchesTable | grouploose.go:15-24 | NewGroupLoose's validation succeeds exactly for a non-empty list of non-negative durations (zero allowed) with iterations -1 or positive. |
| LooseEngine.GroupLoose.constructor | grouploose.go:26-30 | The struct literal sets the table and leaves every other field at its zero value. |
| LooseEngine.GroupLoose.Begins | grouploose.go:51-55 | Begins sets the start and resets lastActionStart to zero and lastIdx to -1. |
| LooseEngine.GroupLoose.Iterations | grouploose.go:64-66 | Iterations reports the configured count, -1 or positive. |
| LooseEngine.GroupLoose.Duration | grouploose.go:70-72 | Duration reports the sum of all action durations, which may be zero but is never negative. |
| LooseEngine.GroupLoose.ScheduleNext | grouploose.go:79-113 | The in-place method's new fields and reply are exactly those of `Poll` on the old fields, with `ok` iff a payload is returned. |
| LooseEngine.NewGroupLoose | grouploose.go:15-32 | Returns no group exactly when validation fails, and then the first error. Otherwise a fresh group in its zero polling state and no error, even when some duration is under 1 ms. |
| LooseEngine.PollAll | schedule_test.go:139-176 | The caller's loop of ScheduleNext calls leaves the fields and collects the replies that `Run` gives. |
| LooseEngine.ReplayAfterBegins | grouploose.go:51-55 | After Begins with the same instant, the same poll instants produce the same replies again. |
| Agreement.NominalTriggersAtStarts | schedule_test.go:162-173 | The reply the schedule predicts delivers a payload exactly when the offset into the pass is the start of some action, and then it is that action's payload. |
| Agreement.SyncDenseStep | schedule_test.go:142-174 | The strict poll at offset e after Begins, from the state left by the polls at 0 .. e-1, gives the reply the schedule predicts: no error, the payload of the action starting at e folded into its pass, and the time to the end of the action under way. This holds within the iterations, for more than one action or in the first pass. |
| Agreement.LooseDenseStep | schedule_test.go:142-174 | The tolerant poll at offset e within the iterations gives the same predicted reply and keeps the state valid. |
| Agreement.SyncDenseRun | schedule_test.go:142-174 | Polled at every nanosecond from Begins, the strict engine's run gives the predicted replies and ends in the state the schedule predicts. |
| Agreement.LooseDenseRun | schedule_test.go:142-174 | The same for the tolerant engine. |
| Agreement.EnginesAgreeUnderDensePolling | schedule_test.go:142-174 | Both engines give exactly the replies the schedule predicts (the `next` and payload the test checks, and no payload between action starts) through every pass up to the end of the last iteration, so they agree with each other. With a single action this holds for the strict engine in the first pass only. |
| Agreement.BothDoneAtEnd | schedule_test.go:151-160 | With bounded iterations, the poll at the end of the last iteration, after the dense polls, reports done with no error in both engines and leaves the state unchanged. |
| Agreement.SingleActionNotRepeated | groupsync.go:125-134 | With one action and repetition, the strict engine does not deliver the action again at the start of the second pass; it waits a whole duration instead. The tolerant engine delivers it again there. |

## Left out

- group.go is an older variant of the strict engine and is not part of this
  model. It reads the wall clock itself, and it redeclares the types and
  errors of groupsync.go.
- GroupSync.StartTime and GroupLoose.StartTime return the start field. They
  are modelled as functions without a contract, since there is nothing to
  state beyond that.
- Error values are an enumeration. Their message texts are left out, and so
  is the formatted text of the "unexpected nextIdx" error (its indices).
- `time.Time` is reduced to an integer count of nanoseconds. Monotonic clock
  readings, locations and wall-clock details are left out.
- Go's 64-bit overflow of durations and of the products `iterations *
  runtime` and `len(actions) * iterations` is not modelled; the model's
  integers are unbounded.
- The actions slice is shared with the caller in Go. The model copies it into
  an immutable sequence, so aliasing through that slice is not captured.
- The documented example polls on a wall-clock ticker and prints its
  results. The model takes the ticks as exact multiples of the resolution
  after Begins, the first one resolution after it, and leaves out the
  printing and the jitter of a real ticker.
- The common group test draws its tables and iteration counts at random. The
  random generation is not modelled. Its main loop is covered for every table:
  the dense polls by `EnginesAgreeUnderDensePolling`, the end by
  `BothDoneAtEnd`, and the polls after done by the `DoneForever` lemmas.
- `EnginesAgreeUnderDensePolling` excludes the strict engine with a single
  action past the first pass. There the two engines differ, as
  `SingleActionNotRepeated` states. The test does not notice, since it
  compares payloads only on polls that report one.
- The elapsedToRestart field is kept and reset as in the source. It is read
  nowhere, so it has no effect on any reply.
