/** The two engines against the nominal schedule: polled at every nanosecond from
    Begins until the end of the last iteration, both the strict and the tolerant
    engine give exactly the replies the prefix sums predict, so they agree with
    each other (the strict one only with more than one action once a second pass
    begins), and both report done at the end. */
module Agreement {
  import opened Actions
  import SyncEngine
  import LooseEngine

  /** A table both engines accept, with positive durations. */
  predicate Table<T>(actions: seq<Action<T>>, iterations: int)
  {
    SyncEngine.ValidTable(actions, iterations)
  }

  /** The poll `e` nanoseconds after Begins falls before the end of the last
      iteration (always, with -1 iterations). */
  predicate Within<T>(actions: seq<Action<T>>, iterations: int, e: int)
  {
    iterations == -1 || e < iterations * TotalDuration(actions)
  }

  /** The reply the schedule predicts for a poll at offset `p` into a pass: the
      payload of the action starting exactly then, if one does, and the time until
      the end of the action under way. */
  function NominalIn<T>(actions: seq<Action<T>>, p: int): (r: Reply<T>)
    requires |actions| > 0 && AllAtLeast(actions, 1)
    requires 0 <= p < TotalDuration(actions)
    ensures r.err.None? && r.next > 0
  {
    LocatePastEnd(actions, p);
    var (k, rem) := Locate(actions, p);
    Reply(if p == Prefix(actions, k) then Some(actions[k].value) else None, rem, None)
  }

  /** The reply the schedule predicts for a poll `e` nanoseconds after Begins:
      the one for `e` folded into its pass. */
  function Nominal<T>(actions: seq<Action<T>>, e: int): (r: Reply<T>)
    requires |actions| > 0 && AllAtLeast(actions, 1)
    requires e >= 0
  {
    TotalPositive(actions);
    NominalIn(actions, e % TotalDuration(actions))
  }

  /** The replies the schedule predicts for the polls at offsets 0 .. m-1. */
  function NominalReplies<T>(actions: seq<Action<T>>, m: nat): (rs: seq<Reply<T>>)
    requires |actions| > 0 && AllAtLeast(actions, 1)
  {
    seq(m, i requires 0 <= i < m => Nominal(actions, i))
  }

  /** The poll instants t, t + 1, ..., t + m - 1. */
  function Instants(t: int, m: nat): (nows: seq<int>)
  {
    seq(m, i => t + i)
  }

  /** A table the strict engine accepts is one the tolerant engine accepts. */
  lemma TableIsLoose<T>(actions: seq<Action<T>>, iterations: int)
    requires Table(actions, iterations)
    ensures LooseEngine.ValidTable(actions, iterations)
  {
  }

  /** The strict engine's state after the polls at offsets 0 .. e-1: the last
      triggered action is the one under way at offset e-1, folded into its pass. */
  function SyncAfter<T>(actions: seq<Action<T>>, t: int, e: int): (s: SyncEngine.SyncState)
    requires |actions| > 0 && AllAtLeast(actions, 1)
    ensures SyncEngine.ValidState(actions, s) && s.start == t && !s.failed
  {
    TotalPositive(actions);
    if e <= 0 then SyncEngine.Begin(t)
    else SyncEngine.SyncState(t, 0, Locate(actions, (e - 1) % TotalDuration(actions)).0, false)
  }

  /** With c whole passes before offset p of a pass, the index c*n + k of an action
      stays below n*iterations while the poll is within the iterations. */
  lemma {:induction false} BelowBound(c: int, total: int, p: int, iterations: int, n: int, k: int)
    requires c >= 0 && 0 <= p < total && 0 <= k < n
    requires c * total + p < iterations * total
    ensures c * n + k < iterations * n
  {
    assert (iterations - c) * total == iterations * total - c * total;
    assert iterations - c > 0;
    assert iterations * n - c * n == (iterations - c) * n;
    MulAtLeast(iterations - c, n);
  }

  /** The tolerant engine's state after the polls at offsets 0 .. e-1: c whole
      passes and k actions triggered, the last one at its nominal start. */
  function LooseAfter<T>(actions: seq<Action<T>>, iterations: int, t: int, e: int): (s: LooseEngine.LooseState)
    requires Table(actions, iterations)
    ensures s.start == t
    ensures e <= 0 || Within(actions, iterations, e - 1) ==> LooseEngine.ValidState(actions, iterations, s)
  {
    TotalPositive(actions);
    var total := TotalDuration(actions);
    if e <= 0 then LooseEngine.Begin(t)
    else
      var c, p := (e - 1) / total, (e - 1) % total;
      LocatePastEnd(actions, p);
      var k := Locate(actions, p).0;
      var s := LooseAt(actions, t, c, k);
      if iterations == -1 || !Within(actions, iterations, e - 1) then s
      else BelowBound(c, total, p, iterations, |actions|, k); s
  }

  /** One nanosecond later within a pass, the action under way is the same or the
      next one, and the next one starts exactly then. */
  lemma {:induction false} NextNanosecond<T>(actions: seq<Action<T>>, p: int)
    requires |actions| > 0 && AllAtLeast(actions, 1)
    requires 0 < p < TotalDuration(actions)
    ensures var k0, k := Locate(actions, p - 1).0, Locate(actions, p).0;
      && 0 <= k0 < |actions| && 0 <= k < |actions|
      && Prefix(actions, k0) <= p - 1
      && (k == k0 <==> p < Prefix(actions, k0 + 1))
      && (k != k0 ==> k == k0 + 1 && p == Prefix(actions, k))
  {
    LocatePastEnd(actions, p - 1);
    LocatePastEnd(actions, p);
    LocateAdvance(actions, 1, p - 1, p);
  }

  /** A strict poll that stays within the pass at offset p, one nanosecond after
      offset p - 1: on the same action it waits, on the next one it triggers it. */
  lemma {:induction false} SyncStepInPass<T>(actions: seq<Action<T>>, iterations: int, t: int, e: int, p: int)
    requires Table(actions, iterations) && t != 0 && e >= 0
    requires 0 < p < TotalDuration(actions)
    requires SyncEngine.Position(iterations, TotalDuration(actions), e) == p
    ensures var s := SyncEngine.SyncState(t, 0, Locate(actions, p - 1).0, false);
      SyncEngine.Poll(actions, iterations, s, t + e)
      == (SyncEngine.SyncState(t, 0, Locate(actions, p).0, false), NominalIn(actions, p))
  {
    NextNanosecond(actions, p);
  }

  /** A strict poll at the start of a later pass, one nanosecond after the end of
      the previous one, while repetition is active: it triggers the first action
      again, provided there is more than one. */
  lemma {:induction false} SyncStepWrap<T>(actions: seq<Action<T>>, iterations: int, t: int, e: int)
    requires Table(actions, iterations) && t != 0 && e >= 0 && |actions| > 1
    requires TotalDuration(actions) > 0 && SyncEngine.RestartActive(iterations, TotalDuration(actions), e)
    requires SyncEngine.Position(iterations, TotalDuration(actions), e) == 0
    ensures var s := SyncEngine.SyncState(t, 0, Locate(actions, TotalDuration(actions) - 1).0, false);
      SyncEngine.Poll(actions, iterations, s, t + e)
      == (SyncEngine.SyncState(t, 0, Locate(actions, 0).0, false), NominalIn(actions, 0))
  {
    TotalPositive(actions);
    LocateWrap(actions, 1, TotalDuration(actions) - 1, 0);
  }

  /** The first strict poll, at the start, triggers the first action. */
  lemma {:induction false} SyncFirstStep<T>(actions: seq<Action<T>>, iterations: int, t: int)
    requires Table(actions, iterations) && t != 0
    ensures TotalDuration(actions) > 0
    ensures SyncEngine.Poll(actions, iterations, SyncEngine.Begin(t), t)
         == (SyncEngine.SyncState(t, 0, Locate(actions, 0).0, false), NominalIn(actions, 0))
  {
    TotalPositive(actions);
    assert Prefix(actions, 1) == actions[0].duration;
    LocatePastEnd(actions, 0);
  }

  /** A strict poll at offset e > 0, one nanosecond after the previous one: it
      stays on the action under way or triggers the next one, folding into the
      next pass while repetition is active. */
  lemma {:induction false} SyncLaterStep<T>(actions: seq<Action<T>>, iterations: int, t: int, e: int)
    requires Table(actions, iterations) && t != 0
    requires 0 < e && Within(actions, iterations, e)
    requires |actions| > 1 || e < TotalDuration(actions)
    ensures TotalDuration(actions) > 0
    ensures var p := e % TotalDuration(actions);
      SyncEngine.Poll(actions, iterations, SyncAfter(actions, t, e), t + e)
      == (SyncEngine.SyncState(t, 0, Locate(actions, p).0, false), NominalIn(actions, p))
  {
    TotalPositive(actions);
    var total := TotalDuration(actions);
    var p := e % total;
    if iterations == 1 {
      QuotientUnique(e, total, 0, e);
    }
    assert SyncEngine.Position(iterations, total, e) == p;
    CycleAdvance(e - 1, e, total, 1);
    if p == 0 {
      assert SyncAfter(actions, t, e) == SyncEngine.SyncState(t, 0, Locate(actions, total - 1).0, false);
      SyncStepWrap(actions, iterations, t, e);
    } else {
      assert SyncAfter(actions, t, e) == SyncEngine.SyncState(t, 0, Locate(actions, p - 1).0, false);
      SyncStepInPass(actions, iterations, t, e, p);
    }
  }

  /** The strict engine's poll at offset e gives the nominal reply, as long as it is
      within the iterations and the table has more than one action or the poll is
      in the first pass. */
  lemma {:induction false} SyncDenseStep<T>(actions: seq<Action<T>>, iterations: int, t: int, e: int)
    requires Table(actions, iterations) && t != 0
    requires 0 <= e && Within(actions, iterations, e)
    requires |actions| > 1 || e < TotalDuration(actions)
    ensures SyncEngine.Poll(actions, iterations, SyncAfter(actions, t, e), t + e)
         == (SyncAfter(actions, t, e + 1), Nominal(actions, e))
  {
    TotalPositive(actions);
    var p := e % TotalDuration(actions);
    assert SyncAfter(actions, t, e + 1) == SyncEngine.SyncState(t, 0, Locate(actions, p).0, false);
    assert Nominal(actions, e) == NominalIn(actions, p);
    if e == 0 {
      SyncFirstStep(actions, iterations, t);
    } else {
      SyncLaterStep(actions, iterations, t, e);
    }
  }

  /** The tolerant state after c whole passes and the action k of the current one,
      triggered at its nominal start. */
  function LooseAt<T>(actions: seq<Action<T>>, t: int, c: int, k: int): LooseEngine.LooseState
    requires 0 <= k <= |actions|
  {
    LooseEngine.LooseState(t, t + c * TotalDuration(actions) + Prefix(actions, k), c * |actions| + k)
  }

  /** A tolerant poll that stays within pass c at offset p, one nanosecond after
      offset p - 1: on the same action it waits, on the next one it triggers it. */
  lemma {:induction false} LooseStepInPass<T>(actions: seq<Action<T>>, iterations: int, t: int, c: int, p: int)
    requires Table(actions, iterations) && t != 0 && c >= 0
    requires 0 < p < TotalDuration(actions)
    requires Within(actions, iterations, c * TotalDuration(actions) + p)
    ensures LooseEngine.ValidTable(actions, iterations)
    ensures var k0, k := Locate(actions, p - 1).0, Locate(actions, p).0;
      && 0 <= k0 < |actions| && 0 <= k < |actions|
      && LooseEngine.ValidState(actions, iterations, LooseAt(actions, t, c, k0))
      && LooseEngine.Poll(actions, iterations, LooseAt(actions, t, c, k0), t + c * TotalDuration(actions) + p)
         == (LooseAt(actions, t, c, k), NominalIn(actions, p))
  {
    var n, total := |actions|, TotalDuration(actions);
    NextNanosecond(actions, p);
    var k0, k := Locate(actions, p - 1).0, Locate(actions, p).0;
    QuotientUnique(c * n + k0, n, c, k0);
    QuotientUnique(c * n + k, n, c, k);
    if iterations != -1 {
      BelowBound(c, total, p, iterations, n, k);
    }
  }

  /** A tolerant poll at the start of pass c + 1, one nanosecond after the end of
      pass c: it triggers the first action again. */
  lemma {:induction false} LooseStepWrap<T>(actions: seq<Action<T>>, iterations: int, t: int, c: int)
    requires Table(actions, iterations) && t != 0 && c >= 0
    requires Within(actions, iterations, (c + 1) * TotalDuration(actions))
    ensures LooseEngine.ValidTable(actions, iterations) && TotalDuration(actions) > 0
    ensures var n, total := |actions|, TotalDuration(actions);
      && LooseEngine.ValidState(actions, iterations, LooseAt(actions, t, c, n - 1))
      && LooseEngine.Poll(actions, iterations, LooseAt(actions, t, c, n - 1), t + (c + 1) * total)
         == (LooseAt(actions, t, c + 1, 0), NominalIn(actions, 0))
  {
    var n, total := |actions|, TotalDuration(actions);
    TotalPositive(actions);
    LocatePastEnd(actions, 0);
    assert Prefix(actions, n) == Prefix(actions, n - 1) + actions[n - 1].duration;
    assert Prefix(actions, 1) == actions[0].duration;
    assert c * n + (n - 1) + 1 == (c + 1) * n;
    assert (c + 1) * total == c * total + total;
    QuotientUnique(c * n + (n - 1), n, c, n - 1);
    QuotientUnique((c + 1) * n, n, c + 1, 0);
    if iterations != -1 {
      BelowBound(c + 1, total, 0, iterations, n, 0);
    }
  }

  /** The first tolerant poll, at the start, triggers the first action. */
  lemma {:induction false} LooseFirstStep<T>(actions: seq<Action<T>>, iterations: int, t: int)
    requires Table(actions, iterations) && t != 0
    ensures LooseEngine.ValidTable(actions, iterations) && TotalDuration(actions) > 0
    ensures LooseEngine.Poll(actions, iterations, LooseEngine.Begin(t), t)
         == (LooseAt(actions, t, 0, Locate(actions, 0).0), NominalIn(actions, 0))
  {
    TotalPositive(actions);
    assert Prefix(actions, 1) == actions[0].duration;
    LocatePastEnd(actions, 0);
  }

  /** A tolerant poll at offset e > 0 at the start of a pass: the step of
      LooseStepWrap, with the state read off e. */
  lemma {:induction false} LooseLaterWrap<T>(actions: seq<Action<T>>, iterations: int, t: int, e: int)
    requires Table(actions, iterations) && t != 0
    requires 0 < e && Within(actions, iterations, e)
    requires TotalDuration(actions) > 0 && e % TotalDuration(actions) == 0
    ensures LooseEngine.ValidTable(actions, iterations)
    ensures LooseEngine.ValidState(actions, iterations, LooseAfter(actions, iterations, t, e))
    ensures LooseEngine.Poll(actions, iterations, LooseAfter(actions, iterations, t, e), t + e)
         == (LooseAt(actions, t, e / TotalDuration(actions), 0), NominalIn(actions, 0))
  {
    var n, total := |actions|, TotalDuration(actions);
    var c0 := (e - 1) / total;
    CycleAdvance(e - 1, e, total, 1);
    LocateWrap(actions, 1, total - 1, 0);
    assert e / total == c0 + 1 && e == (c0 + 1) * total;
    assert LooseAfter(actions, iterations, t, e) == LooseAt(actions, t, c0, n - 1);
    LooseStepWrap(actions, iterations, t, c0);
  }

  /** A tolerant poll at offset e > 0 inside a pass: the step of LooseStepInPass,
      with the state read off e. */
  lemma {:induction false} LooseLaterInPass<T>(actions: seq<Action<T>>, iterations: int, t: int, e: int)
    requires Table(actions, iterations) && t != 0
    requires 0 < e && Within(actions, iterations, e)
    requires TotalDuration(actions) > 0 && e % TotalDuration(actions) != 0
    ensures LooseEngine.ValidTable(actions, iterations)
    ensures LooseEngine.ValidState(actions, iterations, LooseAfter(actions, iterations, t, e))
    ensures var c, p := e / TotalDuration(actions), e % TotalDuration(actions);
      && 0 <= Locate(actions, p).0 < |actions|
      && LooseEngine.Poll(actions, iterations, LooseAfter(actions, iterations, t, e), t + e)
         == (LooseAt(actions, t, c, Locate(actions, p).0), NominalIn(actions, p))
  {
    var total := TotalDuration(actions);
    var c, p := e / total, e % total;
    CycleAdvance(e - 1, e, total, 1);
    assert e == c * total + p;
    assert LooseAfter(actions, iterations, t, e) == LooseAt(actions, t, c, Locate(actions, p - 1).0);
    LooseStepInPass(actions, iterations, t, c, p);
  }

  /** A tolerant poll at offset e > 0, one nanosecond after the previous one: it
      stays on the action under way or triggers the next one, the first one again
      at the start of a pass. */
  lemma {:induction false} LooseLaterStep<T>(actions: seq<Action<T>>, iterations: int, t: int, e: int)
    requires Table(actions, iterations) && t != 0
    requires 0 < e && Within(actions, iterations, e)
    ensures LooseEngine.ValidTable(actions, iterations) && TotalDuration(actions) > 0
    ensures LooseEngine.ValidState(actions, iterations, LooseAfter(actions, iterations, t, e))
    ensures var c, p := e / TotalDuration(actions), e % TotalDuration(actions);
      && 0 <= Locate(actions, p).0 < |actions|
      && LooseEngine.Poll(actions, iterations, LooseAfter(actions, iterations, t, e), t + e)
         == (LooseAt(actions, t, c, Locate(actions, p).0), NominalIn(actions, p))
  {
    TotalPositive(actions);
    var total := TotalDuration(actions);
    if e % total == 0 {
      LocateWrap(actions, 1, total - 1, 0);
      LooseLaterWrap(actions, iterations, t, e);
    } else {
      LooseLaterInPass(actions, iterations, t, e);
    }
  }

  /** The tolerant engine's poll at offset e gives the nominal reply, as long as it
      is within the iterations. */
  lemma {:induction false} LooseDenseStep<T>(actions: seq<Action<T>>, iterations: int, t: int, e: int)
    requires Table(actions, iterations) && t != 0
    requires 0 <= e && Within(actions, iterations, e)
    ensures LooseEngine.ValidTable(actions, iterations)
    ensures LooseEngine.ValidState(actions, iterations, LooseAfter(actions, iterations, t, e))
    ensures LooseEngine.Poll(actions, iterations, LooseAfter(actions, iterations, t, e), t + e)
         == (LooseAfter(actions, iterations, t, e + 1), Nominal(actions, e))
  {
    TotalPositive(actions);
    var total := TotalDuration(actions);
    var c, p := e / total, e % total;
    LocatePastEnd(actions, p);
    assert LooseAfter(actions, iterations, t, e + 1) == LooseAt(actions, t, c, Locate(actions, p).0);
    assert Nominal(actions, e) == NominalIn(actions, p);
    if e == 0 {
      QuotientUnique(0, total, 0, 0);
      LooseFirstStep(actions, iterations, t);
    } else {
      LooseLaterStep(actions, iterations, t, e);
    }
  }

  /** The polls at offsets 0 .. m-1 chain the strict engine's states after each
      offset and give the nominal replies. */
  lemma {:induction false} SyncDenseChain<T>(actions: seq<Action<T>>, iterations: int, t: int, m: nat)
    requires Table(actions, iterations) && t != 0
    requires m == 0 || Within(actions, iterations, m - 1)
    requires |actions| > 1 || m <= TotalDuration(actions)
    ensures SyncEngine.Chain(actions, iterations, seq(m + 1, i => SyncAfter(actions, t, i)),
                             Instants(t, m), NominalReplies(actions, m))
  {
    var states, nows, replies := seq(m + 1, i => SyncAfter(actions, t, i)), Instants(t, m), NominalReplies(actions, m);
    forall i | 0 <= i < m
      ensures SyncEngine.Poll(actions, iterations, states[i], nows[i]) == (states[i + 1], replies[i])
    {
      assert states[i] == SyncAfter(actions, t, i) && states[i + 1] == SyncAfter(actions, t, i + 1);
      assert nows[i] == t + i && replies[i] == Nominal(actions, i);
      SyncDenseStep(actions, iterations, t, i);
    }
  }

  /** The polls at offsets 0 .. m-1 chain the tolerant engine's states after each
      offset and give the nominal replies. */
  lemma {:induction false} LooseDenseChain<T>(actions: seq<Action<T>>, iterations: int, t: int, m: nat)
    requires Table(actions, iterations) && t != 0
    requires m == 0 || Within(actions, iterations, m - 1)
    ensures LooseEngine.ValidTable(actions, iterations)
    ensures LooseEngine.Chain(actions, iterations, seq(m + 1, i => LooseAfter(actions, iterations, t, i)),
                              Instants(t, m), NominalReplies(actions, m))
  {
    TableIsLoose(actions, iterations);
    var states, nows, replies := seq(m + 1, i => LooseAfter(actions, iterations, t, i)), Instants(t, m), NominalReplies(actions, m);
    forall i | 0 <= i <= m
      ensures LooseEngine.ValidState(actions, iterations, states[i])
    {
      assert states[i] == LooseAfter(actions, iterations, t, i);
    }
    forall i | 0 <= i < m
      ensures LooseEngine.Poll(actions, iterations, states[i], nows[i]) == (states[i + 1], replies[i])
    {
      assert states[i] == LooseAfter(actions, iterations, t, i);
      assert states[i + 1] == LooseAfter(actions, iterations, t, i + 1);
      assert nows[i] == t + i && replies[i] == Nominal(actions, i);
      LooseDenseStep(actions, iterations, t, i);
    }
  }

  /** Polled at every nanosecond from Begins up to offset m-1, the strict engine
      gives the nominal replies and reaches its state after offset m-1, as long as
      the polls are within the iterations and the table has more than one action or
      the polls stay in the first pass. */
  lemma {:induction false} SyncDenseRun<T>(actions: seq<Action<T>>, iterations: int, t: int, m: nat)
    requires Table(actions, iterations) && t != 0
    requires m == 0 || Within(actions, iterations, m - 1)
    requires |actions| > 1 || m <= TotalDuration(actions)
    ensures SyncEngine.Run(actions, iterations, SyncEngine.Begin(t), Instants(t, m)).0 == SyncAfter(actions, t, m)
    ensures SyncEngine.Run(actions, iterations, SyncEngine.Begin(t), Instants(t, m)).1 == NominalReplies(actions, m)
  {
    SyncDenseChain(actions, iterations, t, m);
    SyncEngine.RunAlong(actions, iterations, seq(m + 1, i => SyncAfter(actions, t, i)),
                        Instants(t, m), NominalReplies(actions, m));
  }

  /** Polled at every nanosecond from Begins up to offset m-1, the tolerant engine
      gives the nominal replies and reaches its state after offset m-1, as long as
      the polls are within the iterations. */
  lemma {:induction false} LooseDenseRun<T>(actions: seq<Action<T>>, iterations: int, t: int, m: nat)
    requires Table(actions, iterations) && t != 0
    requires m == 0 || Within(actions, iterations, m - 1)
    ensures LooseEngine.ValidTable(actions, iterations)
    ensures LooseEngine.Run(actions, iterations, LooseEngine.Begin(t), Instants(t, m)).0
         == LooseAfter(actions, iterations, t, m)
    ensures LooseEngine.Run(actions, iterations, LooseEngine.Begin(t), Instants(t, m)).1 == NominalReplies(actions, m)
  {
    LooseDenseChain(actions, iterations, t, m);
    LooseEngine.RunAlong(actions, iterations, seq(m + 1, i => LooseAfter(actions, iterations, t, i)),
                         Instants(t, m), NominalReplies(actions, m));
  }

  /** Polled at every nanosecond from Begins, both engines give exactly the nominal
      replies until the end of the last iteration: every action is delivered at its
      nominal start in every pass, and every poll reports the time left until the
      end of the action under way. So the two engines agree there. The strict
      engine needs more than one action once the polls go past the first pass. */
  lemma {:induction false} EnginesAgreeUnderDensePolling<T>(actions: seq<Action<T>>, iterations: int, t: int, m: nat)
    requires Table(actions, iterations) && t != 0
    requires m == 0 || Within(actions, iterations, m - 1)
    requires |actions| > 1 || m <= TotalDuration(actions)
    ensures LooseEngine.ValidTable(actions, iterations)
    ensures SyncEngine.Run(actions, iterations, SyncEngine.Begin(t), Instants(t, m)).1 == NominalReplies(actions, m)
    ensures LooseEngine.Run(actions, iterations, LooseEngine.Begin(t), Instants(t, m)).1 == NominalReplies(actions, m)
  {
    SyncDenseRun(actions, iterations, t, m);
    LooseDenseRun(actions, iterations, t, m);
  }

  /** With a bounded number of iterations, the poll at the end of the last one,
      after polling at every nanosecond before it, reports done in both engines,
      with no error and nothing changed. */
  lemma {:induction false} BothDoneAtEnd<T>(actions: seq<Action<T>>, iterations: int, t: int)
    requires Table(actions, iterations) && t != 0 && iterations > 0
    ensures LooseEngine.ValidTable(actions, iterations) && TotalDuration(actions) > 0
    ensures var h := iterations * TotalDuration(actions);
      && h > 0
      && SyncEngine.Poll(actions, iterations, SyncAfter(actions, t, h), t + h)
         == (SyncAfter(actions, t, h), Reply(None, 0, None))
      && LooseEngine.ValidState(actions, iterations, LooseAfter(actions, iterations, t, h))
      && LooseEngine.Poll(actions, iterations, LooseAfter(actions, iterations, t, h), t + h)
         == (LooseAfter(actions, iterations, t, h), Reply(None, 0, None))
  {
    TotalPositive(actions);
    var n, total := |actions|, TotalDuration(actions);
    var h := iterations * total;
    MulAtLeast(iterations, total);
    MulAtLeast(iterations, n);
    LocatePastEnd(actions, h);
    LocateWrap(actions, 1, total - 1, 0);
    assert h - 1 == (iterations - 1) * total + (total - 1);
    QuotientUnique(h - 1, total, iterations - 1, total - 1);
    assert LooseAfter(actions, iterations, t, h) == LooseAt(actions, t, iterations - 1, n - 1);
    assert (iterations - 1) * n + (n - 1) + 1 == iterations * n;
    QuotientUnique((iterations - 1) * n + (n - 1), n, iterations - 1, n - 1);
    assert Prefix(actions, n) == Prefix(actions, n - 1) + actions[n - 1].duration;
  }

  /** With a single action and repetition, the strict engine does not deliver the
      action again at the start of the second pass: the poll there finds the same
      index as the last trigger and waits a whole duration, while the tolerant
      engine, polled the same way, delivers the action again. */
  lemma {:induction false} SingleActionNotRepeated<T>(actions: seq<Action<T>>, iterations: int, t: int)
    requires Table(actions, iterations) && t != 0
    requires |actions| == 1 && iterations != 1
    ensures LooseEngine.ValidTable(actions, iterations)
    ensures var d := actions[0].duration;
      && SyncEngine.Poll(actions, iterations, SyncAfter(actions, t, d), t + d)
         == (SyncAfter(actions, t, d), Reply(None, d, None))
      && LooseEngine.ValidState(actions, iterations, LooseAfter(actions, iterations, t, d))
      && LooseEngine.Poll(actions, iterations, LooseAfter(actions, iterations, t, d), t + d).1
         == Reply(Some(actions[0].value), d, None)
  {
    var d := actions[0].duration;
    assert TotalDuration(actions) == Prefix(actions, 1) == d;
    if iterations != -1 {
      assert iterations * d - d == (iterations - 1) * d;
      MulAtLeast(iterations - 1, d);
    }
    QuotientUnique(d - 1, d, 0, d - 1);
    QuotientUnique(d, d, 1, 0);
    LocatePastEnd(actions, d - 1);
    LocatePastEnd(actions, 0);
    LooseDenseStep(actions, iterations, t, d);
  }

  /** The nominal reply delivers a payload exactly at the start of an action. */
  lemma NominalTriggersAtStarts<T>(actions: seq<Action<T>>, e: int)
    requires |actions| > 0 && AllAtLeast(actions, 1)
    requires 0 <= e < TotalDuration(actions)
    ensures NominalIn(actions, e).Ok() <==> exists j :: 0 <= j < |actions| && e == Prefix(actions, j)
    ensures forall j :: 0 <= j < |actions| && e == Prefix(actions, j) ==>
      NominalIn(actions, e).value == Some(actions[j].value)
  {
    LocatePastEnd(actions, e);
    var k := Locate(actions, e).0;
    forall j | 0 <= j < |actions| && e == Prefix(actions, j)
      ensures j == k
    {
      assert Prefix(actions, j + 1) == Prefix(actions, j) + actions[j].duration;
      if k < j {
        PrefixMonotone(actions, k + 1, j);
      }
    }
  }
}
