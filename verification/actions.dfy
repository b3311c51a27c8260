/** Definitions shared by both sequencing engines: actions, the package's error
    sentinels, what one poll reports, the validation of an action list
    (actionsDuration) and the prefix-sum scan that finds the current action
    (currentIdx). Instants and durations are integers counting nanoseconds; the
    instant 0 plays the role of Go's zero time.Time. */
module Actions {

  /** One millisecond in nanoseconds: actions shorter than this draw a warning. */
  const Millisecond: int := 1_000_000

  datatype Option<+T> = None | Some(value: T)

  /** A scheduled unit of work: how long it lasts and the opaque payload it yields. */
  datatype Action<T> = Action(duration: int, value: T)

  /** The package's error sentinels, as discriminable kinds. */
  datatype Error =
    | BeginNotCalled      // ScheduleNext before any Begins
    | MissedAction        // strict engine: a poll skipped an action boundary
    | GroupFailed         // strict engine: sticky report of an earlier MissedAction
    | SmallDuration       // construction warning: some action is shorter than 1 ms
    | ZeroDuration        // strict construction: an action of zero duration
    | NegativeDuration    // construction: an action of negative duration
    | EmptyActions        // construction: no actions at all
    | BadIterations       // construction: iterations neither positive nor -1
    | UnexpectedNextIdx   // strict engine fallback; never produced (see SyncEngine)

  /** An error that makes construction return no group: everything but the warning. */
  predicate Fatal(e: Option<Error>)
  {
    e.Some? && e.value != SmallDuration
  }

  /** What one ScheduleNext call reports. Go returns (v, ok, next, err) where v is
      the zero value unless ok; here ok is `value.Some?`. */
  datatype Reply<T> = Reply(value: Option<T>, next: int, err: Option<Error>) {
    predicate Ok() { value.Some? }
    /** The terminal "done" report: ok=false, next=0 and no error. */
    predicate Done() { value.None? && next == 0 && err.None? }
  }

  /** Sum of the durations of the first k actions: where action k-1 ends, measured
      from the start of a cycle. */
  function Prefix<T>(actions: seq<Action<T>>, k: nat): int
    requires k <= |actions|
  {
    if k == 0 then 0 else Prefix(actions, k - 1) + actions[k - 1].duration
  }

  /** The length of one full pass over the actions. */
  function TotalDuration<T>(actions: seq<Action<T>>): int
  {
    Prefix(actions, |actions|)
  }

  predicate NonNegative<T>(actions: seq<Action<T>>)
  {
    forall i :: 0 <= i < |actions| ==> actions[i].duration >= 0
  }

  lemma {:induction false} PrefixMonotone<T>(actions: seq<Action<T>>, j: nat, k: nat)
    requires NonNegative(actions) && j <= k <= |actions|
    ensures Prefix(actions, j) <= Prefix(actions, k)
    decreases k
  {
    if j < k {
      PrefixMonotone(actions, j, k - 1);
    }
  }

  /** With positive durations one cycle takes a positive time. */
  lemma TotalPositive<T>(actions: seq<Action<T>>)
    requires |actions| > 0
    requires forall i :: 0 <= i < |actions| ==> actions[i].duration > 0
    ensures TotalDuration(actions) > 0
  {
    PrefixMonotone(actions, 0, |actions| - 1);
  }

  /** Adding one period does not change a remainder. */
  lemma ModShift(y: int, n: int)
    requires y >= 0 && n > 0
    ensures (n + y) % n == y % n
  {
    var q, r := y / n, y % n;
    var q', r' := (n + y) / n, (n + y) % n;
    assert (q + 1 - q') * n == r' - r;
    if q + 1 > q' {
      MulAtLeast(q + 1 - q', n);
    } else if q + 1 < q' {
      MulAtLeast(q' - q - 1, n);
    }
  }

  /** The successor of an index modulo the length, for indices from -1 on. */
  lemma NextIndex(last: int, n: int)
    requires -1 <= last < n && n > 0
    ensures (last + 1) % n == if last + 1 == n then 0 else last + 1
  {
  }

  lemma {:induction false} MulAtLeast(a: int, n: int)
    requires a >= 1 && n > 0
    ensures a * n >= n
    decreases a
  {
    if a > 1 {
      MulAtLeast(a - 1, n);
      assert a * n == (a - 1) * n + n;
    }
  }

  // ---------------------------------------------------------------------------
  // Validation of an action list (actionsDuration)

  /** An action that construction refuses: a negative duration, or a zero one
      when zero durations are not allowed. */
  predicate Rejected<T>(a: Action<T>, canZero: bool)
  {
    (!canZero && a.duration == 0) || a.duration < 0
  }

  /** The index of the first refused action, or |actions| if there is none. */
  function FirstRejected<T>(actions: seq<Action<T>>, canZero: bool): (k: nat)
    ensures k <= |actions|
    ensures forall j :: 0 <= j < k ==> !Rejected(actions[j], canZero)
    ensures k < |actions| ==> Rejected(actions[k], canZero)
  {
    if actions == [] then 0
    else if Rejected(actions[0], canZero) then 0
    else 1 + FirstRejected(actions[1..], canZero)
  }

  predicate HasSmall<T>(actions: seq<Action<T>>)
  {
    exists i :: 0 <= i < |actions| && actions[i].duration < Millisecond
  }

  /** The error actionsDuration reports: the first refused action decides between
      ZeroDuration and NegativeDuration; otherwise a warning if some action is
      shorter than a millisecond. */
  function DurationError<T>(actions: seq<Action<T>>, canZero: bool): Option<Error>
  {
    var k := FirstRejected(actions, canZero);
    if k < |actions| then
      Some(if !canZero && actions[k].duration == 0 then ZeroDuration else NegativeDuration)
    else if HasSmall(actions) then Some(SmallDuration)
    else None
  }

  /** What the validation promises: it is fatal exactly when some action is refused;
      with zero durations forbidden and no negative ones, a zero duration is
      reported as ZeroDuration; with zero durations allowed it never is; and when
      it is not fatal, the warning appears exactly when some duration is below 1 ms. */
  lemma DurationErrorCases<T>(actions: seq<Action<T>>, canZero: bool)
    ensures Fatal(DurationError(actions, canZero))
        <==> exists i :: 0 <= i < |actions| && Rejected(actions[i], canZero)
    ensures !canZero && NonNegative(actions)
        && (exists i :: 0 <= i < |actions| && actions[i].duration == 0)
        ==> DurationError(actions, canZero) == Some(ZeroDuration)
    ensures canZero ==> DurationError(actions, canZero) != Some(ZeroDuration)
    ensures (exists i :: 0 <= i < |actions| && actions[i].duration < 0)
        ==> Fatal(DurationError(actions, canZero))
    ensures !Fatal(DurationError(actions, canZero))
        ==> (DurationError(actions, canZero) == Some(SmallDuration) <==> HasSmall(actions))
  {
    var k := FirstRejected(actions, canZero);
    if !canZero && NonNegative(actions) && k < |actions| {
      assert actions[k].duration == 0;
    }
  }

  /** actionsDuration: one pass that refuses bad durations and sums the others. */
  method ActionsDuration<T>(actions: seq<Action<T>>, canZero: bool)
    returns (duration: int, err: Option<Error>)
    ensures err == DurationError(actions, canZero)
    ensures duration == if Fatal(err) then 0 else TotalDuration(actions)
  {
    var hasSmallDuration := false;
    duration := 0;
    for i := 0 to |actions|
      invariant forall j :: 0 <= j < i ==> !Rejected(actions[j], canZero)
      invariant duration == Prefix(actions, i)
      invariant hasSmallDuration <==> exists j :: 0 <= j < i && actions[j].duration < Millisecond
    {
      var d := actions[i].duration;
      if !canZero && d == 0 {
        return 0, Some(ZeroDuration);
      } else if d < 0 {
        return 0, Some(NegativeDuration);
      } else if d < Millisecond {
        hasSmallDuration := true;
      }
      duration := duration + d;
    }
    err := if hasSmallDuration then Some(SmallDuration) else None;
  }

  /** The first error the constructors' switch reports, or None when they build a
      group: refused durations first, then an empty list, then the iteration count. */
  function ConstructionError<T>(actions: seq<Action<T>>, canZero: bool, iterations: int): Option<Error>
  {
    var d := DurationError(actions, canZero);
    if Fatal(d) then d
    else if |actions| == 0 then Some(EmptyActions)
    else if iterations <= 0 && iterations != -1 then Some(BadIterations)
    else None
  }

  /** Construction succeeds exactly for a non-empty list with no refused duration and
      an iteration count that is positive or -1; a failure is always fatal. */
  lemma ConstructionAccepts<T>(actions: seq<Action<T>>, canZero: bool, iterations: int)
    ensures ConstructionError(actions, canZero, iterations).None?
        <==> (&& |actions| > 0
              && (forall i :: 0 <= i < |actions| ==> !Rejected(actions[i], canZero))
              && (iterations == -1 || iterations > 0))
    ensures ConstructionError(actions, canZero, iterations).None?
        || Fatal(ConstructionError(actions, canZero, iterations))
  {
    DurationErrorCases(actions, canZero);
  }

  // ---------------------------------------------------------------------------
  // Locating the current action (currentIdx)

  /** The scan of currentIdx from index i on: the first action at or after i whose
      end lies strictly after `elapsed`, with the time left until that end, or
      (-1, 0) when there is none. */
  function LocateFrom<T>(actions: seq<Action<T>>, elapsed: int, i: nat): (r: (int, int))
    requires i <= |actions|
    ensures r.0 == -1 ==>
      && r.1 == 0
      && forall k :: i < k <= |actions| ==> Prefix(actions, k) <= elapsed
    ensures r.0 != -1 ==>
      && i <= r.0 < |actions|
      && elapsed < Prefix(actions, r.0 + 1)
      && r.1 == Prefix(actions, r.0 + 1) - elapsed
      && forall k :: i < k <= r.0 ==> Prefix(actions, k) <= elapsed
    decreases |actions| - i
  {
    if i == |actions| then (-1, 0)
    else if elapsed < Prefix(actions, i + 1) then (i, Prefix(actions, i + 1) - elapsed)
    else LocateFrom(actions, elapsed, i + 1)
  }

  /** Where `elapsed` falls in one pass: the index of the first action whose
      cumulative end is strictly greater than `elapsed`, paired with the positive
      time until that end; (-1, 0) when every action has ended by `elapsed`. */
  function Locate<T>(actions: seq<Action<T>>, elapsed: int): (r: (int, int))
    ensures r.0 == -1 ==>
      && r.1 == 0
      && forall k :: 0 < k <= |actions| ==> Prefix(actions, k) <= elapsed
    ensures r.0 != -1 ==>
      && 0 <= r.0 < |actions|
      && Prefix(actions, r.0 + 1) - elapsed == r.1 > 0
      && forall k :: 0 < k <= r.0 ==> Prefix(actions, k) <= elapsed
  {
    LocateFrom(actions, elapsed, 0)
  }

  /** For non-negative durations the scan runs off the end exactly when `elapsed`
      has reached the length of a pass, and otherwise the located action is the
      one whose window [start, end) holds `elapsed`. */
  lemma LocatePastEnd<T>(actions: seq<Action<T>>, elapsed: int)
    requires |actions| > 0 && NonNegative(actions)
    ensures Locate(actions, elapsed).0 == -1 <==> elapsed >= TotalDuration(actions)
    ensures var k := Locate(actions, elapsed).0;
      k != -1 && elapsed >= 0 ==> Prefix(actions, k) <= elapsed < Prefix(actions, k + 1)
  {
    var k := Locate(actions, elapsed).0;
    if k != -1 {
      PrefixMonotone(actions, k + 1, |actions|);
      if k > 0 {
        assert Prefix(actions, k) <= elapsed;
      }
    } else {
      assert Prefix(actions, |actions|) <= elapsed;
    }
  }

  /** currentIdx: accumulate the end of each action until one ends after `elapsed`. */
  method CurrentIdx<T>(actions: seq<Action<T>>, elapsed: int) returns (idx: int, next: int)
    ensures (idx, next) == Locate(actions, elapsed)
  {
    var endOfAction := 0;
    for i := 0 to |actions|
      invariant endOfAction == Prefix(actions, i)
      invariant LocateFrom(actions, elapsed, i) == Locate(actions, elapsed)
    {
      endOfAction := endOfAction + actions[i].duration;
      if elapsed < endOfAction {
        return i, endOfAction - elapsed;
      }
    }
    return -1, 0;
  }

  // ---------------------------------------------------------------------------
  // Traces of triggered payloads

  /** The payloads of the replies that triggered an action, in order. */
  function Triggered<T>(replies: seq<Reply<T>>): seq<T>
  {
    if replies == [] then []
    else (if replies[0].Ok() then [replies[0].value.value] else []) + Triggered(replies[1..])
  }

  /** The n payloads met when walking the action list cyclically from index `from`. */
  function CyclicValues<T>(actions: seq<Action<T>>, from: int, n: nat): seq<T>
    requires |actions| > 0 && from >= 0
  {
    seq(n, j requires 0 <= j < n => actions[(from + j) % |actions|].value)
  }

  /** Triggered distributes over one leading reply. */
  lemma TriggeredCons<T>(r: Reply<T>, rest: seq<Reply<T>>)
    ensures Triggered([r] + rest) == (if r.Ok() then [r.value.value] else []) + Triggered(rest)
  {
    assert ([r] + rest)[1..] == rest;
  }

  /** Walking the list cyclically after index `last` meets the successor of `last`
      first, then continues after that successor. */
  lemma CyclicStep<T>(actions: seq<Action<T>>, last: int, m: nat)
    requires |actions| > 0 && -1 <= last < |actions|
    ensures var next := (last + 1) % |actions|;
      CyclicValues(actions, last + 1, m + 1) == [actions[next].value] + CyclicValues(actions, next + 1, m)
  {
    var n := |actions|;
    NextIndex(last, n);
    var next := (last + 1) % n;
    var c := CyclicValues(actions, last + 1, m + 1);
    var d := CyclicValues(actions, next + 1, m);
    forall j | 0 <= j < m
      ensures c[j + 1] == d[j]
    {
      if last + 1 == n {
        ModShift(1 + j, n);
      }
    }
    assert c == [actions[next].value] + d;
  }

  /** One reply in front of a cyclic walk: if it delivers the successor of `last`
      and the walk continues after that successor, or it delivers nothing and the
      walk continues after `last`, the whole is the cyclic walk after `last`. */
  lemma CyclicExtend<T>(actions: seq<Action<T>>, last: int, last': int, r: Reply<T>, rest: seq<T>)
    requires |actions| > 0 && -1 <= last < |actions| && -1 <= last' < |actions|
    requires r.Ok() ==> last' == (last + 1) % |actions| && r.value == Some(actions[last'].value)
    requires !r.Ok() ==> last' == last
    requires rest == CyclicValues(actions, last' + 1, |rest|)
    ensures var t := (if r.Ok() then [r.value.value] else []) + rest;
      t == CyclicValues(actions, last + 1, |t|)
  {
    if r.Ok() {
      CyclicStep(actions, last, |rest|);
    }
  }

  /** Walking the list cyclically from `from` meets action from % |actions| first. */
  lemma CyclicFront<T>(actions: seq<Action<T>>, from: int, m: nat)
    requires |actions| > 0 && from >= 0
    ensures CyclicValues(actions, from, m + 1)
         == [actions[from % |actions|].value] + CyclicValues(actions, from + 1, m)
  {
    var c := CyclicValues(actions, from, m + 1);
    var d := CyclicValues(actions, from + 1, m);
    assert forall j :: 0 <= j < m ==> c[j + 1] == d[j];
    assert c == [actions[from % |actions|].value] + d;
  }

  // ---------------------------------------------------------------------------
  // Polls closer together than the shortest action

  /** Every action lasts at least g, and g is positive. */
  predicate AllAtLeast<T>(actions: seq<Action<T>>, g: int)
  {
    g > 0 && forall i :: 0 <= i < |actions| ==> actions[i].duration >= g
  }

  /** Quotient and remainder are determined by the division identity. */
  lemma QuotientUnique(x: int, d: int, q: int, r: int)
    requires d > 0 && 0 <= r < d && x == q * d + r
    ensures x / d == q && x % d == r
  {
    var q', r' := x / d, x % d;
    assert (q - q') * d == r' - r;
    if q' < q {
      MulAtLeast(q - q', d);
    } else if q' > q {
      MulAtLeast(q' - q, d);
    }
  }

  /** Moving forward by at most one period from e either stays in the same
      period, or crosses into the next one, wrapping the remainder. */
  lemma CycleAdvance(e: int, e': int, d: int, g: int)
    requires 0 <= e <= e' <= e + g && 0 < g <= d
    ensures || (e' / d == e / d && e' % d == e % d + (e' - e))
            || (e' / d == e / d + 1 && e' % d == e % d + (e' - e) - d)
  {
    var q, r := e / d, e % d;
    if r + (e' - e) < d {
      QuotientUnique(e', d, q, r + (e' - e));
    } else {
      QuotientUnique(e', d, q + 1, r + (e' - e) - d);
    }
  }

  /** Two positions at most the shortest duration apart, in the same pass: the
      later one lies in the same action as the earlier one, in the next action, or
      (after the last action) past the end. */
  lemma LocateAdvance<T>(actions: seq<Action<T>>, g: int, p: int, p': int)
    requires |actions| > 0 && AllAtLeast(actions, g)
    requires 0 <= p <= p' <= p + g
    requires Locate(actions, p).0 != -1
    ensures var k, k' := Locate(actions, p).0, Locate(actions, p').0;
      || k' == k
      || (k + 1 < |actions| && k' == k + 1)
      || (k + 1 == |actions| && k' == -1)
  {
    var n := |actions|;
    LocatePastEnd(actions, p);
    LocatePastEnd(actions, p');
    var k := Locate(actions, p).0;
    if k + 1 < n {
      PrefixMonotone(actions, k + 2, n);
    }
  }

  /** Two positions at most the shortest duration apart across the end of a pass:
      the earlier lies in the last action and the later in the first. */
  lemma LocateWrap<T>(actions: seq<Action<T>>, g: int, p: int, p': int)
    requires |actions| > 0 && AllAtLeast(actions, g)
    requires 0 <= p < TotalDuration(actions) && 0 <= p' && p' + TotalDuration(actions) - p <= g
    ensures Locate(actions, p).0 == |actions| - 1 && Locate(actions, p').0 == 0
  {
    var n := |actions|;
    LocatePastEnd(actions, p);
    LocatePastEnd(actions, p');
    var k := Locate(actions, p).0;
    assert Prefix(actions, n) == Prefix(actions, n - 1) + actions[n - 1].duration;
    if k < n - 1 {
      PrefixMonotone(actions, k + 1, n - 1);
    }
    assert Prefix(actions, 1) == actions[0].duration;
    PrefixMonotone(actions, 1, n);
  }
}
