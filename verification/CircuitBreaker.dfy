/** `withCircuitBreaker` of services/analytics-service/src/circuitBreaker.ts.  A call suspends
    while it awaits the guarded function, so its start and its end are two events, and other
    calls may start and end in between. */
module CircuitBreaker {

  const FAILURE_THRESHOLD: nat := 5
  const LATENCY_THRESHOLD_MS: real := 1000.0
  const RESET_TIMEOUT_MS: int := 30_000
  const WINDOW: nat := 20

  datatype Phase = ShortCircuited | Running | Returned | Threw

  /** A call and the clock, in milliseconds since the epoch, when it started. */
  datatype Call = Call(start: nat, phase: Phase)

  /** The module variables, and the calls in order of their start. */
  datatype State = State(failureCount: nat, latencySamples: seq<int>, lastFailureTime: nat, calls: seq<Call>)

  datatype Event =
    | Start(now: nat)
    | Succeed(id: nat, duration: int)  // the guarded function returns
    | Fail(id: nat)                    // or throws

  function Init(): State {
    State(0, [], 0, [])
  }

  function Sum(samples: seq<int>): int {
    if samples == [] then 0 else Sum(samples[..|samples| - 1]) + samples[|samples| - 1]
  }

  function AvgLatency(samples: seq<int>): real {
    if samples == [] then 0.0 else Sum(samples) as real / |samples| as real
  }

  function Record(samples: seq<int>, ms: int): seq<int> {
    var t := samples + [ms];
    if |t| > WINDOW then t[1..] else t
  }

  predicate Tripped(s: State) {
    s.failureCount >= FAILURE_THRESHOLD || AvgLatency(s.latencySamples) > LATENCY_THRESHOLD_MS
  }

  predicate Open(s: State, now: nat) {
    Tripped(s) && now - s.lastFailureTime < RESET_TIMEOUT_MS
  }

  /** The state in which a call that is let through starts its function. */
  function Begin(s: State): State {
    if Tripped(s) then s.(failureCount := 0, latencySamples := []) else s
  }

  predicate InPhase(s: State, id: nat, p: Phase) {
    id < |s.calls| && s.calls[id].phase == p
  }

  function Enter(s: State, id: nat, p: Phase): State
    requires id < |s.calls|
  {
    s.(calls := s.calls[id := s.calls[id].(phase := p)])
  }

  function Step(s: State, e: Event): State {
    match e
    case Start(now) =>
      if Open(s, now) then s.(calls := s.calls + [Call(now, ShortCircuited)])
      else Begin(s).(calls := s.calls + [Call(now, Running)])
    case Succeed(id, ms) =>
      if !InPhase(s, id, Running) then s
      else Enter(s, id, Returned).(failureCount := 0, latencySamples := Record(s.latencySamples, ms))
    case Fail(id) =>
      if !InPhase(s, id, Running) then s
      else Enter(s, id, Threw).(failureCount := s.failureCount + 1, lastFailureTime := s.calls[id].start)
  }

  function Exec(s: State, es: seq<Event>): State {
    if es == [] then s else Step(Exec(s, es[..|es| - 1]), es[|es| - 1])
  }

  /** The module variables as the source changes them; `calls` is what the callers are doing. */
  class Breaker {
    var failureCount: nat
    var latencySamples: seq<int>
    var lastFailureTime: nat
    var calls: seq<Call>

    ghost function View(): State
      reads this
    {
      State(failureCount, latencySamples, lastFailureTime, calls)
    }

    constructor ()
      ensures View() == Init()
    {
      failureCount, latencySamples, lastFailureTime, calls := 0, [], 0, [];
    }

    method Average() returns (r: real)
      ensures r == AvgLatency(latencySamples)
    {
      if |latencySamples| == 0 {
        return 0.0;
      }
      var sum := 0;
      for i := 0 to |latencySamples|
        invariant sum == Sum(latencySamples[..i])
      {
        assert latencySamples[..i + 1][..i] == latencySamples[..i];
        sum := sum + latencySamples[i];
      }
      assert latencySamples[..|latencySamples|] == latencySamples;
      r := sum as real / |latencySamples| as real;
    }

    /** `withCircuitBreaker` up to its await: false when the call is short-circuited. */
    method BeginCall(now: nat) returns (started: bool)
      modifies this
      ensures View() == Step(old(View()), Start(now))
      ensures started <==> calls[|old(calls)|].phase == Running
    {
      var avg := Average();
      var latencyTooHigh := avg > LATENCY_THRESHOLD_MS;
      if failureCount >= FAILURE_THRESHOLD || latencyTooHigh {
        if now - lastFailureTime < RESET_TIMEOUT_MS {
          calls := calls + [Call(now, ShortCircuited)];
          return false;
        }
        failureCount := 0;
        latencySamples := [];
      }
      calls := calls + [Call(now, Running)];
      return true;
    }

    /** `withCircuitBreaker` after its await. */
    method OnSuccess(id: nat, duration: int)
      requires InPhase(View(), id, Running)
      modifies this
      ensures View() == Step(old(View()), Succeed(id, duration))
      ensures failureCount == 0
    {
      latencySamples := latencySamples + [duration];
      if |latencySamples| > WINDOW {
        latencySamples := latencySamples[1..];
      }
      failureCount := 0;
      calls := calls[id := calls[id].(phase := Returned)];
    }

    /** The catch clause, which stamps the failure with the start of the call. */
    method OnFailure(id: nat)
      requires InPhase(View(), id, Running)
      modifies this
      ensures View() == Step(old(View()), Fail(id))
      ensures lastFailureTime == old(calls)[id].start
    {
      failureCount := failureCount + 1;
      lastFailureTime := calls[id].start;
      calls := calls[id := calls[id].(phase := Threw)];
    }
  }

  // ----- calls in flight

  /** Which starts are looked at: all, those from a time on, or those of thirty seconds. */
  datatype Span = Always | Since(t0: nat) | Within(t0: nat)

  predicate In(span: Span, start: nat) {
    match span
    case Always => true
    case Since(t0) => t0 <= start
    case Within(t0) => t0 <= start < t0 + RESET_TIMEOUT_MS
  }

  function Flying(calls: seq<Call>, span: Span): nat {
    if calls == [] then 0
    else
      var c := calls[|calls| - 1];
      Flying(calls[..|calls| - 1], span) + if c.phase == Running && In(span, c.start) then 1 else 0
  }

  function InFlight(s: State): nat {
    Flying(s.calls, Always)
  }

  lemma FlyingAppend(calls: seq<Call>, c: Call, span: Span)
    ensures Flying(calls + [c], span) == Flying(calls, span) + if c.phase == Running && In(span, c.start) then 1 else 0
  {
    assert (calls + [c])[..|calls|] == calls;
  }

  lemma {:induction false} FlyingUpdate(calls: seq<Call>, id: nat, c: Call, span: Span)
    requires id < |calls| && calls[id].phase == Running && c.phase != Running
    ensures Flying(calls[id := c], span) == Flying(calls, span) - if In(span, calls[id].start) then 1 else 0
    ensures In(span, calls[id].start) ==> Flying(calls, span) > 0
  {
    var n := |calls| - 1;
    if id < n {
      FlyingUpdate(calls[..n], id, c, span);
      assert calls[id := c][..n] == calls[..n][id := c];
    } else {
      assert calls[id := c][..n] == calls[..n];
    }
  }

  lemma {:induction false} NoneFlying(calls: seq<Call>)
    requires Flying(calls, Always) == 0
    ensures forall id | 0 <= id < |calls| :: calls[id].phase != Running
  {
    if calls != [] {
      NoneFlying(calls[..|calls| - 1]);
    }
  }

  // ----- when the failure count stays within its threshold

  /** A call starts although the failures counted and the calls in flight already make up
      the threshold. */
  predicate Overcommits(s: State, e: Event) {
    e.Start? && !Open(s, e.now) && Begin(s).failureCount + InFlight(s) >= FAILURE_THRESHOLD
  }

  predicate Bounded(s: State) {
    s.failureCount + InFlight(s) <= FAILURE_THRESHOLD
  }

  lemma BoundedStep(s: State, e: Event)
    requires Bounded(s)
    ensures Bounded(Step(s, e)) <==> !Overcommits(s, e)
  {
    match e
    case Start(now) => FlyingAppend(s.calls, Step(s, e).calls[|s.calls|], Always);
    case Succeed(id, _) =>
      if InPhase(s, id, Running) {
        FlyingUpdate(s.calls, id, s.calls[id].(phase := Returned), Always);
      }
    case Fail(id) =>
      if InPhase(s, id, Running) {
        FlyingUpdate(s.calls, id, s.calls[id].(phase := Threw), Always);
      }
  }

  ghost predicate NeverOvercommits(es: seq<Event>) {
    forall k | 0 <= k < |es| :: !Overcommits(Exec(Init(), es[..k]), es[k])
  }

  lemma {:induction false} BoundedUnlessOvercommitted(es: seq<Event>)
    requires NeverOvercommits(es)
    ensures Bounded(Exec(Init(), es))
  {
    if es != [] {
      var n := |es| - 1;
      assert forall k | 0 <= k < n :: es[..n][..k] == es[..k];
      BoundedUnlessOvercommitted(es[..n]);
      BoundedStep(Exec(Init(), es[..n]), es[n]);
    }
  }

  /** Failures counted and calls in flight stay within the threshold throughout a run exactly
      when no call starts with the threshold already made up by them. */
  lemma BoundedIffNeverOvercommits(es: seq<Event>)
    ensures (forall k | 0 <= k <= |es| :: Bounded(Exec(Init(), es[..k]))) <==> NeverOvercommits(es)
  {
    if NeverOvercommits(es) {
      forall k | 0 <= k <= |es| ensures Bounded(Exec(Init(), es[..k])) {
        assert forall j | 0 <= j < k :: es[..k][..j] == es[..j];
        BoundedUnlessOvercommitted(es[..k]);
      }
    }
    if forall k | 0 <= k <= |es| :: Bounded(Exec(Init(), es[..k])) {
      forall k | 0 <= k < |es| ensures !Overcommits(Exec(Init(), es[..k]), es[k]) {
        StaysBounded(es, k);
      }
    }
  }

  lemma StaysBounded(es: seq<Event>, k: nat)
    requires k < |es| && Bounded(Exec(Init(), es[..k])) && Bounded(Exec(Init(), es[..k + 1]))
    ensures !Overcommits(Exec(Init(), es[..k]), es[k])
  {
    assert es[..k + 1][..k] == es[..k];
    BoundedStep(Exec(Init(), es[..k]), es[k]);
  }

  // ----- a clock that does not go back

  predicate ClockGoesBack(s: State, e: Event) {
    e.Start? && s.calls != [] && e.now < s.calls[|s.calls| - 1].start
  }

  ghost predicate Ordered(es: seq<Event>) {
    forall k | 0 <= k < |es| :: !ClockGoesBack(Exec(Init(), es[..k]), es[k])
  }

  /** Under a clock that does not go back, calls are numbered in order of their start. */
  ghost predicate StartsOrdered(s: State) {
    forall k, j | 0 <= k <= j < |s.calls| :: s.calls[k].start <= s.calls[j].start
  }

  lemma OrderedStep(s: State, e: Event)
    requires StartsOrdered(s) && !ClockGoesBack(s, e)
    ensures StartsOrdered(Step(s, e))
  {
  }

  lemma {:induction false} OrderedStarts(es: seq<Event>)
    requires Ordered(es)
    ensures StartsOrdered(Exec(Init(), es))
  {
    if es != [] {
      var n := |es| - 1;
      assert forall k | 0 <= k < n :: es[..n][..k] == es[..k];
      OrderedStarts(es[..n]);
      OrderedStep(Exec(Init(), es[..n]), es[n]);
    }
  }

  lemma Extend(es: seq<Event>, e: Event) returns (fs: seq<Event>)
    ensures fs == es + [e] && fs[..|es|] == es
    ensures Exec(Init(), fs) == Step(Exec(Init(), es), e)
  {
    fs := es + [e];
    assert fs[..|es|] == es;
  }

  // ----- short circuits

  /** The time of the last failure is the start of a call that threw, or still the initial 0;
      and whoever was short-circuited came within thirty seconds of such a call. */
  ghost predicate Stamped(s: State) {
    && (s.lastFailureTime == 0 || exists k :: 0 <= k < |s.calls| && s.calls[k] == Call(s.lastFailureTime, Threw))
    && forall j | 0 <= j < |s.calls| && s.calls[j].phase == ShortCircuited && s.calls[j].start >= RESET_TIMEOUT_MS ::
         RecentFailure(s.calls, j)
  }

  ghost predicate RecentFailure(calls: seq<Call>, j: nat)
    requires j < |calls|
  {
    exists k :: 0 <= k < j && calls[k].phase == Threw && calls[j].start - calls[k].start < RESET_TIMEOUT_MS
  }

  lemma StampedEnter(s: State, id: nat, p: Phase)
    requires Stamped(s) && InPhase(s, id, Running) && p != ShortCircuited
    ensures Stamped(Enter(s, id, p))
  {
    var t := Enter(s, id, p);
    if s.lastFailureTime != 0 {
      var k :| 0 <= k < |s.calls| && s.calls[k] == Call(s.lastFailureTime, Threw);
      assert t.calls[k] == s.calls[k];
    }
    forall j | 0 <= j < |t.calls| && t.calls[j].phase == ShortCircuited && t.calls[j].start >= RESET_TIMEOUT_MS
      ensures RecentFailure(t.calls, j)
    {
      assert RecentFailure(s.calls, j);
      var k :| 0 <= k < j && s.calls[k].phase == Threw && s.calls[j].start - s.calls[k].start < RESET_TIMEOUT_MS;
      assert t.calls[k] == s.calls[k];
    }
  }

  lemma StampedStart(s: State, now: nat)
    requires Stamped(s)
    ensures Stamped(Step(s, Start(now)))
  {
    var t := Step(s, Start(now));
    if s.lastFailureTime != 0 {
      var k :| 0 <= k < |s.calls| && s.calls[k] == Call(s.lastFailureTime, Threw);
      assert t.calls[k] == s.calls[k];
    }
    forall j | 0 <= j < |t.calls| && t.calls[j].phase == ShortCircuited && t.calls[j].start >= RESET_TIMEOUT_MS
      ensures RecentFailure(t.calls, j)
    {
      if j < |s.calls| {
        assert RecentFailure(s.calls, j);
        var k :| 0 <= k < j && s.calls[k].phase == Threw && s.calls[j].start - s.calls[k].start < RESET_TIMEOUT_MS;
        assert t.calls[k] == s.calls[k];
      }
    }
  }

  lemma StampedStep(s: State, e: Event)
    requires Stamped(s)
    ensures Stamped(Step(s, e))
  {
    if e.Start? {
      StampedStart(s, e.now);
    } else if InPhase(s, e.id, Running) {
      StampedEnter(s, e.id, if e.Fail? then Threw else Returned);
      assert Step(s, e).calls[e.id].start == s.calls[e.id].start;
    }
  }

  lemma {:induction false} StampedAlways(es: seq<Event>)
    ensures Stamped(Exec(Init(), es))
  {
    if es != [] {
      StampedAlways(es[..|es| - 1]);
      StampedStep(Exec(Init(), es[..|es| - 1]), es[|es| - 1]);
    }
  }

  /** In every run, overlapping or not, a call past the first thirty seconds of the clock is
      short-circuited only within thirty seconds of the start of an earlier call that failed. */
  lemma ShortCircuitNeedsFailure(es: seq<Event>, j: nat)
    requires InPhase(Exec(Init(), es), j, ShortCircuited) && Exec(Init(), es).calls[j].start >= RESET_TIMEOUT_MS
    ensures var calls := Exec(Init(), es).calls;
            exists k :: 0 <= k < j && calls[k].phase == Threw && calls[j].start - calls[k].start < RESET_TIMEOUT_MS
                        && (Ordered(es) ==> calls[k].start <= calls[j].start)
  {
    StampedAlways(es);
    if Ordered(es) {
      OrderedStarts(es);
    }
    assert RecentFailure(Exec(Init(), es).calls, j);
  }

  /** So the breaker never opens on latency alone, against its description: after successes
      however slow it trips, and still lets the next call through. */
  lemma SlownessNeverBlocks(now: nat, ms: nat) returns (es: seq<Event>)
    requires now >= RESET_TIMEOUT_MS && ms > 1000
    ensures var s := Exec(Init(), es);
            && s.calls == [Call(now, Returned)] && AvgLatency(s.latencySamples) > LATENCY_THRESHOLD_MS && Tripped(s)
            && InPhase(Step(s, Start(now + ms)), 1, Running)
  {
    es := Extend([], Start(now));
    es := Extend(es, Succeed(0, ms));
    var s := Exec(Init(), es);
    assert s.latencySamples == [ms];
    assert Sum([ms]) == ms;
  }

  // ----- the latency window

  /** The durations of the successes since the samples were last thrown away. */
  function Successes(es: seq<Event>): seq<int> {
    if es == [] then []
    else
      var n := |es| - 1;
      var s := Exec(Init(), es[..n]);
      match es[n]
      case Start(now) => if Tripped(s) && !Open(s, now) then [] else Successes(es[..n])
      case Succeed(id, ms) => Successes(es[..n]) + if InPhase(s, id, Running) then [ms] else []
      case Fail(_) => Successes(es[..n])
  }

  function LastOf(xs: seq<int>, n: nat): seq<int> {
    if |xs| <= n then xs else xs[|xs| - n..]
  }

  /** The latency window is exactly the last 20 success durations since the last reset, or all
      of them when there are fewer. */
  lemma {:induction false} WindowIsLastTwenty(es: seq<Event>)
    ensures Exec(Init(), es).latencySamples == LastOf(Successes(es), 20)
  {
    if es != [] {
      WindowIsLastTwenty(es[..|es| - 1]);
    }
  }

  /** The failures since the last success or reset. */
  function Failures(es: seq<Event>): nat {
    if es == [] then 0
    else
      var n := |es| - 1;
      var s := Exec(Init(), es[..n]);
      match es[n]
      case Start(now) => if Tripped(s) && !Open(s, now) then 0 else Failures(es[..n])
      case Succeed(id, _) => if InPhase(s, id, Running) then 0 else Failures(es[..n])
      case Fail(id) => Failures(es[..n]) + if InPhase(s, id, Running) then 1 else 0
  }

  /** When the call started that failed last, or 0. */
  function LastFailed(es: seq<Event>): nat {
    if es == [] then 0
    else
      var n := |es| - 1;
      var s := Exec(Init(), es[..n]);
      if es[n].Fail? && InPhase(s, es[n].id, Running) then s.calls[es[n].id].start else LastFailed(es[..n])
  }

  lemma {:induction false} FailuresCounted(es: seq<Event>)
    ensures Exec(Init(), es).failureCount == Failures(es) && Exec(Init(), es).lastFailureTime == LastFailed(es)
  {
    if es != [] {
      FailuresCounted(es[..|es| - 1]);
    }
  }

  /** When a call is short-circuited, in terms of what happened before: the call that failed
      last started less than 30000 ms ago, and either five failures have come since the last
      success or reset, or the last 20 successes since the reset average above 1000 ms.
      Every other call is let through. */
  lemma OpenMeaning(es: seq<Event>, now: nat)
    ensures var s, window := Exec(Init(), es), LastOf(Successes(es), 20);
            var blocked := now - LastFailed(es) < 30_000 && (Failures(es) >= 5 || Sum(window) > 1000 * |window|);
            (Open(s, now) <==> blocked) && Step(s, Start(now)).calls == s.calls + [Call(now, if blocked then ShortCircuited else Running)]
  {
    WindowIsLastTwenty(es);
    FailuresCounted(es);
    var window := LastOf(Successes(es), WINDOW);
    if window != [] {
      AverageAbove(Sum(window), |window|);
    }
  }

  lemma AverageAbove(sum: int, n: int)
    requires n > 0
    ensures sum as real / n as real > LATENCY_THRESHOLD_MS <==> sum > 1000 * n
  {
    var d := n as real;
    var q := sum as real / d;
    assert q * d == sum as real;
    SignOfProduct(q - 1000.0, d, (q - 1000.0) * d);
    Expand(q, d, sum as real);
    assert sum as real > 1000.0 * d <==> sum > 1000 * n;
  }

  lemma Expand(q: real, d: real, s: real)
    requires q * d == s
    ensures (q - 1000.0) * d == s - 1000.0 * d
  {
  }

  lemma SignOfProduct(x: real, d: real, w: real)
    requires d > 0.0 && w == x * d
    ensures w > 0.0 <==> x > 0.0
  {
    if x > 0.0 {
      PositiveProduct(x, d, w);
    } else {
      NonPositiveProduct(x, d, w);
    }
  }

  lemma PositiveProduct(x: real, d: real, w: real)
    requires d > 0.0 && x > 0.0 && w == x * d
    ensures w > 0.0
  {
  }

  lemma NonPositiveProduct(x: real, d: real, w: real)
    requires d > 0.0 && x <= 0.0 && w == x * d
    ensures w <= 0.0
  {
  }
}
