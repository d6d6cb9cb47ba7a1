/** How many calls can fail in thirty seconds without a success, under `withCircuitBreaker` of
    services/analytics-service/src/circuitBreaker.ts, when calls may overlap. */
module BreakerWindow {
  import opened CircuitBreaker

  predicate Fails(s: State, e: Event) {
    e.Fail? && InPhase(s, e.id, Running)
  }

  predicate Succeeds(s: State, e: Event) {
    e.Succeed? && InPhase(s, e.id, Running)
  }

  function FailsIn(s: State, e: Event, span: Span): nat {
    if Fails(s, e) && In(span, s.calls[e.id].start) then 1 else 0
  }

  /** The failures from event `from` on of calls that started in a span. */
  function FailuresFrom(es: seq<Event>, from: nat, span: Span): nat
    requires from <= |es|
  {
    if |es| == from then 0
    else
      var n := |es| - 1;
      FailuresFrom(es[..n], from, span) + FailsIn(Exec(Init(), es[..n]), es[n], span)
  }

  predicate InWindow(s: State, e: Event, t0: nat) {
    !Succeeds(s, e) && (e.Start? ==> e.now < t0 + RESET_TIMEOUT_MS)
  }

  /** From event `from` on nothing succeeds, and calls start before t0 plus thirty seconds. */
  ghost predicate FailingWindow(es: seq<Event>, from: nat, t0: nat)
    requires from <= |es|
  {
    forall k | from <= k < |es| :: InWindow(Exec(Init(), es[..k]), es[k], t0)
  }

  // ----- in terms of the breaker's own variables

  /** A call that started before t0 fails after one that started later, and moves the stamp of
      the last failure back before t0. */
  predicate Unstamps(s: State, e: Event, t0: nat) {
    Fails(s, e) && s.calls[e.id].start < t0 <= s.lastFailureTime
  }

  ghost predicate StampKept(es: seq<Event>, from: nat, t0: nat)
    requires from <= |es|
  {
    forall k | from <= k < |es| :: !Unstamps(Exec(Init(), es[..k]), es[k], t0)
  }

  ghost predicate CommitsKept(es: seq<Event>, from: nat)
    requires from <= |es|
  {
    forall k | from <= k < |es| :: !Overcommits(Exec(Init(), es[..k]), es[k])
  }

  /** Once a call of the window has failed, the count only rises, failure by failure, and
      nothing resets it. */
  lemma WindowStep(s: State, e: Event, t0: nat, n: nat)
    requires n > 0 ==> s.failureCount >= n && s.lastFailureTime >= t0
    requires InWindow(s, e, t0) && !Unstamps(s, e, t0)
    ensures var t, m := Step(s, e), n + FailsIn(s, e, Since(t0)); m > 0 ==> t.failureCount >= m && t.lastFailureTime >= t0
  {
  }

  lemma ShorterWindow(es: seq<Event>, from: nat, t0: nat)
    requires from < |es| && FailingWindow(es, from, t0)
    ensures FailingWindow(es[..|es| - 1], from, t0)
  {
    assert forall k | 0 <= k < |es| - 1 :: es[..|es| - 1][..k] == es[..k];
  }

  lemma ShorterStamped(es: seq<Event>, from: nat, t0: nat)
    requires from < |es| && StampKept(es, from, t0)
    ensures StampKept(es[..|es| - 1], from, t0)
  {
    assert forall k | 0 <= k < |es| - 1 :: es[..|es| - 1][..k] == es[..k];
  }

  lemma {:induction false} WindowCount(es: seq<Event>, from: nat, t0: nat)
    requires from <= |es| && FailingWindow(es, from, t0) && StampKept(es, from, t0)
    ensures var n, s := FailuresFrom(es, from, Since(t0)), Exec(Init(), es);
            n > 0 ==> s.failureCount >= n && s.lastFailureTime >= t0
  {
    if from < |es| {
      var n := |es| - 1;
      ShorterWindow(es, from, t0);
      ShorterStamped(es, from, t0);
      WindowCount(es[..n], from, t0);
      WindowStep(Exec(Init(), es[..n]), es[n], t0, FailuresFrom(es[..n], from, Since(t0)));
    }
  }

  lemma ShorterCommits(es: seq<Event>, from: nat)
    requires from < |es| && CommitsKept(es, from)
    ensures CommitsKept(es[..|es| - 1], from) && es[..|es| - 1][..from] == es[..from]
  {
    assert forall k | 0 <= k < |es| - 1 :: es[..|es| - 1][..k] == es[..k];
  }

  lemma {:induction false} BoundedFrom(es: seq<Event>, from: nat)
    requires from <= |es| && CommitsKept(es, from) && Bounded(Exec(Init(), es[..from]))
    ensures Bounded(Exec(Init(), es))
  {
    if from == |es| {
      assert es[..from] == es;
    } else {
      var n := |es| - 1;
      ShorterCommits(es, from);
      BoundedFrom(es[..n], from);
      BoundedStep(Exec(Init(), es[..n]), es[n]);
    }
  }

  /** Whatever happened before and whatever overlaps: in a window that begins with the count
      bounded, sees no call overcommit, and keeps the stamp of its failures, at most five of
      the calls started at t0 or later fail. */
  lemma FiveFailuresPerWindow(es: seq<Event>, from: nat, t0: nat)
    requires from <= |es| && FailingWindow(es, from, t0)
    requires Bounded(Exec(Init(), es[..from])) && CommitsKept(es, from) && StampKept(es, from, t0)
    ensures FailuresFrom(es, from, Since(t0)) <= FAILURE_THRESHOLD
  {
    WindowCount(es, from, t0);
    BoundedFrom(es, from);
  }

  // ----- calls that do not overlap

  predicate AtMostOne(s: State) {
    InFlight(s) <= 1
  }

  /** At every moment at most one call is in flight. */
  ghost predicate Sequential(es: seq<Event>) {
    forall k | 0 <= k <= |es| :: AtMostOne(Exec(Init(), es[..k]))
  }

  /** A call fails that started before the call of the last failure on record. */
  predicate Backdates(s: State, e: Event) {
    Fails(s, e) && s.calls[e.id].start < s.lastFailureTime
  }

  ghost predicate NeverBackdates(es: seq<Event>) {
    forall k | 0 <= k < |es| :: !Backdates(Exec(Init(), es[..k]), es[k])
  }

  /** No call started after the latest one, and no call in flight before the last failure. */
  ghost predicate Current(s: State) {
    && (forall id | 0 <= id < |s.calls| :: s.calls[id].start <= s.calls[|s.calls| - 1].start)
    && (s.lastFailureTime <= if s.calls == [] then 0 else s.calls[|s.calls| - 1].start)
    && (forall id | 0 <= id < |s.calls| && s.calls[id].phase == Running :: s.lastFailureTime <= s.calls[id].start)
  }

  lemma CurrentStart(s: State, now: nat)
    requires Current(s) && InFlight(Step(s, Start(now))) <= 1 && !ClockGoesBack(s, Start(now))
    ensures Current(Step(s, Start(now))) && !Overcommits(s, Start(now))
  {
    if !Open(s, now) {
      FlyingAppend(s.calls, Call(now, Running), Always);
      NoneFlying(s.calls);
    }
  }

  lemma CurrentStep(s: State, e: Event)
    requires Current(s) && InFlight(s) <= 1 && InFlight(Step(s, e)) <= 1 && !ClockGoesBack(s, e)
    ensures Current(Step(s, e)) && !Backdates(s, e) && !Overcommits(s, e)
  {
    if e.Start? {
      CurrentStart(s, e.now);
    } else if Fails(s, e) {
      FlyingUpdate(s.calls, e.id, s.calls[e.id].(phase := Threw), Always);
      NoneFlying(Step(s, e).calls);
    }
  }

  lemma ShorterSequential(es: seq<Event>)
    requires es != [] && Sequential(es)
    ensures Sequential(es[..|es| - 1])
  {
    var p := es[..|es| - 1];
    forall k | 0 <= k <= |p| ensures AtMostOne(Exec(Init(), p[..k])) {
      assert p[..k] == es[..k] && AtMostOne(Exec(Init(), es[..k]));
    }
  }

  lemma AtTheEnd(es: seq<Event>)
    requires Sequential(es)
    ensures AtMostOne(Exec(Init(), es))
  {
    var whole := es[..|es|];
    assert AtMostOne(Exec(Init(), whole)) && whole == es;
  }

  lemma LongerTame(es: seq<Event>)
    requires es != [] && NeverBackdates(es[..|es| - 1]) && NeverOvercommits(es[..|es| - 1])
    requires var s, e := Exec(Init(), es[..|es| - 1]), es[|es| - 1]; !Backdates(s, e) && !Overcommits(s, e)
    ensures NeverBackdates(es) && NeverOvercommits(es)
  {
    assert forall k | 0 <= k < |es| - 1 :: es[..|es| - 1][..k] == es[..k];
  }

  lemma {:induction false} SequentialIsTame(es: seq<Event>)
    requires Sequential(es) && Ordered(es)
    ensures Current(Exec(Init(), es)) && NeverBackdates(es) && NeverOvercommits(es)
  {
    if es != [] {
      var n := |es| - 1;
      ShorterSequential(es);
      ShorterOrdered(es);
      SequentialIsTame(es[..n]);
      AtTheEnd(es[..n]);
      AtTheEnd(es);
      CurrentStep(Exec(Init(), es[..n]), es[n]);
      LongerTame(es);
    }
  }

  /** For calls that do not overlap and a clock that does not go back, no thirty seconds
      without a success see more than five failures. */
  lemma SequentialFiveFailures(es: seq<Event>, from: nat, t0: nat)
    requires Sequential(es) && Ordered(es) && from <= |es| && FailingWindow(es, from, t0)
    ensures FailuresFrom(es, from, Since(t0)) <= FAILURE_THRESHOLD
  {
    SequentialIsTame(es);
    assert forall k | 0 <= k < from :: es[..from][..k] == es[..k];
    BoundedUnlessOvercommitted(es[..from]);
    FiveFailuresPerWindow(es, from, t0);
  }

  // ----- exactly when thirty seconds see at most five failures

  /** The failures since the last success of calls that started in a span. */
  function Streak(es: seq<Event>, span: Span): nat {
    if es == [] then 0
    else
      var n := |es| - 1;
      NextStreak(Exec(Init(), es[..n]), es[n], span, Streak(es[..n], span))
  }

  function NextStreak(s: State, e: Event, span: Span, n: nat): nat {
    if Succeeds(s, e) then 0 else n + FailsIn(s, e, span)
  }

  /** Failures that a span has seen since the last success, or may still see. */
  function Load(es: seq<Event>, span: Span): nat {
    Streak(es, span) + Flying(Exec(Init(), es).calls, span)
  }

  predicate Admits(s: State, e: Event) {
    e.Start? && !Open(s, e.now)
  }

  /** The thirty seconds that end with `now`. */
  function Recent(now: nat): Span {
    Within(if now < RESET_TIMEOUT_MS then 0 else now - RESET_TIMEOUT_MS + 1)
  }

  /** A call is let through although, of the calls started in the last thirty seconds, those
      that failed since the last success and those in flight already make five. */
  predicate Crowds(es: seq<Event>, e: Event) {
    Admits(Exec(Init(), es), e) && Load(es, Recent(e.now)) >= FAILURE_THRESHOLD
  }

  ghost predicate NeverCrowds(es: seq<Event>) {
    forall k | 0 <= k < |es| :: !Crowds(es[..k], es[k])
  }

  /** Only a call let through in the span raises its load, and only a success lowers it. */
  lemma LoadStep(s: State, e: Event, span: Span, n: nat)
    ensures var before, after := n + Flying(s.calls, span), NextStreak(s, e, span, n) + Flying(Step(s, e).calls, span);
            && after <= before + (if Admits(s, e) && In(span, e.now) then 1 else 0)
            && (!Succeeds(s, e) ==> after == before + if Admits(s, e) && In(span, e.now) then 1 else 0)
  {
    match e
    case Start(now) => FlyingAppend(s.calls, Step(s, e).calls[|s.calls|], span);
    case Succeed(id, _) =>
      if InPhase(s, id, Running) {
        FlyingUpdate(s.calls, id, s.calls[id].(phase := Returned), span);
      }
    case Fail(id) =>
      if InPhase(s, id, Running) {
        FlyingUpdate(s.calls, id, s.calls[id].(phase := Threw), span);
      }
  }

  /** On these calls the one span covers no start that the other leaves out. */
  ghost predicate Narrower(calls: seq<Call>, a: Span, b: Span) {
    forall id | 0 <= id < |calls| && In(a, calls[id].start) :: In(b, calls[id].start)
  }

  lemma {:induction false} FlyingNarrower(calls: seq<Call>, a: Span, b: Span)
    requires Narrower(calls, a, b)
    ensures Flying(calls, a) <= Flying(calls, b)
  {
    if calls != [] {
      FlyingNarrower(calls[..|calls| - 1], a, b);
    }
  }

  /** Calls keep their start. */
  lemma StartsStay(s: State, e: Event)
    ensures var t := Step(s, e);
            |s.calls| <= |t.calls| && forall id | 0 <= id < |s.calls| :: t.calls[id].start == s.calls[id].start
  {
  }

  lemma NarrowerBefore(s: State, e: Event, a: Span, b: Span)
    requires Narrower(Step(s, e).calls, a, b)
    ensures Narrower(s.calls, a, b)
  {
    StartsStay(s, e);
    var t := Step(s, e);
    assert forall id | 0 <= id < |s.calls| :: t.calls[id].start == s.calls[id].start;
  }

  lemma {:induction false} StreakNarrower(es: seq<Event>, a: Span, b: Span)
    requires Narrower(Exec(Init(), es).calls, a, b)
    ensures Streak(es, a) <= Streak(es, b)
  {
    if es != [] {
      var n := |es| - 1;
      NarrowerBefore(Exec(Init(), es[..n]), es[n], a, b);
      StreakNarrower(es[..n], a, b);
    }
  }

  ghost predicate UpTo(calls: seq<Call>, top: nat) {
    forall id | 0 <= id < |calls| :: calls[id].start <= top
  }

  lemma StartsUpTo(es: seq<Event>, now: nat)
    requires Ordered(es) && !ClockGoesBack(Exec(Init(), es), Start(now))
    ensures UpTo(Exec(Init(), es).calls, now)
  {
    OrderedStarts(es);
  }

  lemma RecentIsWidest(calls: seq<Call>, now: nat, t0: nat)
    requires UpTo(calls, now) && In(Within(t0), now)
    ensures Narrower(calls, Within(t0), Recent(now))
  {
  }

  lemma ShorterOrdered(es: seq<Event>)
    requires es != [] && Ordered(es)
    ensures Ordered(es[..|es| - 1])
  {
    assert forall k | 0 <= k < |es| - 1 :: es[..|es| - 1][..k] == es[..k];
  }

  lemma ShorterUncrowded(es: seq<Event>)
    requires es != [] && NeverCrowds(es)
    ensures NeverCrowds(es[..|es| - 1])
  {
    assert forall k | 0 <= k < |es| - 1 :: es[..|es| - 1][..k] == es[..k];
  }

  lemma {:induction false} LoadBounded(es: seq<Event>, t0: nat)
    requires Ordered(es) && NeverCrowds(es)
    ensures Load(es, Within(t0)) <= FAILURE_THRESHOLD
  {
    if es != [] {
      var n := |es| - 1;
      var s := Exec(Init(), es[..n]);
      ShorterOrdered(es);
      ShorterUncrowded(es);
      LoadBounded(es[..n], t0);
      LoadStep(s, es[n], Within(t0), Streak(es[..n], Within(t0)));
      if Admits(s, es[n]) && In(Within(t0), es[n].now) {
        RoomForOne(es[..n], es[n].now, t0);
      }
    }
  }

  lemma RoomForOne(es: seq<Event>, now: nat, t0: nat)
    requires Ordered(es) && !ClockGoesBack(Exec(Init(), es), Start(now)) && In(Within(t0), now)
    requires Admits(Exec(Init(), es), Start(now)) && !Crowds(es, Start(now))
    ensures Load(es, Within(t0)) < FAILURE_THRESHOLD
  {
    var calls := Exec(Init(), es).calls;
    StartsUpTo(es, now);
    RecentIsWidest(calls, now, t0);
    FlyingNarrower(calls, Within(t0), Recent(now));
    StreakNarrower(es, Within(t0), Recent(now));
  }

  /** From event `from` on nothing succeeds. */
  ghost predicate Unbroken(es: seq<Event>, from: nat)
    requires from <= |es|
  {
    forall k | from <= k < |es| :: !Succeeds(Exec(Init(), es[..k]), es[k])
  }

  lemma ShorterUnbroken(es: seq<Event>, from: nat)
    requires from < |es| && Unbroken(es, from)
    ensures Unbroken(es[..|es| - 1], from)
  {
    assert forall k | 0 <= k < |es| - 1 :: es[..|es| - 1][..k] == es[..k];
  }

  lemma {:induction false} FailuresInStreak(es: seq<Event>, from: nat, span: Span)
    requires from <= |es| && Unbroken(es, from)
    ensures FailuresFrom(es, from, span) <= Streak(es, span)
  {
    if from < |es| {
      ShorterUnbroken(es, from);
      FailuresInStreak(es[..|es| - 1], from, span);
      assert !Succeeds(Exec(Init(), es[..|es| - 1]), es[|es| - 1]);
    }
  }

  /** While no call crowds, at most five of the calls started in any thirty seconds fail
      without a success in between, however late they fail. */
  lemma FiveOfThirtySeconds(es: seq<Event>, from: nat, t0: nat)
    requires Ordered(es) && NeverCrowds(es) && from <= |es| && Unbroken(es, from)
    ensures FailuresFrom(es, from, Within(t0)) <= FAILURE_THRESHOLD
  {
    LoadBounded(es, t0);
    FailuresInStreak(es, from, Within(t0));
  }

  // ----- a call that crowds can be followed by six failures

  ghost predicate AllFail(fs: seq<Event>) {
    forall f | f in fs :: f.Fail?
  }

  /** The streak is itself such a stretch of events. */
  lemma {:induction false} StreakStretch(es: seq<Event>, span: Span) returns (from: nat)
    ensures from <= |es| && Unbroken(es, from) && FailuresFrom(es, from, span) == Streak(es, span)
  {
    if es == [] {
      return 0;
    }
    var n := |es| - 1;
    var s := Exec(Init(), es[..n]);
    if Succeeds(s, es[n]) {
      return |es|;
    }
    from := StreakStretch(es[..n], span);
    LongerUnbroken(es, from);
  }

  lemma LongerUnbroken(es: seq<Event>, from: nat)
    requires from < |es| && Unbroken(es[..|es| - 1], from) && !Succeeds(Exec(Init(), es[..|es| - 1]), es[|es| - 1])
    ensures Unbroken(es, from)
  {
    assert forall k | 0 <= k < |es| - 1 :: es[..|es| - 1][..k] == es[..k];
  }

  lemma {:induction false} FindFlying(calls: seq<Call>, span: Span) returns (id: nat)
    requires Flying(calls, span) > 0
    ensures id < |calls| && calls[id].phase == Running && In(span, calls[id].start)
  {
    var n := |calls| - 1;
    if calls[n].phase == Running && In(span, calls[n].start) {
      return n;
    }
    id := FindFlying(calls[..n], span);
  }

  /** One call in flight fails: the load becomes streak. */
  lemma DrainOne(es: seq<Event>, span: Span, id: nat) returns (fs: seq<Event>)
    requires InPhase(Exec(Init(), es), id, Running) && In(span, Exec(Init(), es).calls[id].start)
    ensures fs == es + [Fail(id)] && Load(fs, span) == Load(es, span)
    ensures Flying(Exec(Init(), fs).calls, span) == Flying(Exec(Init(), es).calls, span) - 1
    ensures forall top | UpTo(Exec(Init(), es).calls, top) :: UpTo(Exec(Init(), fs).calls, top)
  {
    var s := Exec(Init(), es);
    fs := Extend(es, Fail(id));
    LoadStep(s, Fail(id), span, Streak(es, span));
    FlyingUpdate(s.calls, id, s.calls[id].(phase := Threw), span);
    StartsStay(s, Fail(id));
  }

  lemma {:induction false} Drain(es: seq<Event>, span: Span) returns (fs: seq<Event>)
    ensures AllFail(fs) && Streak(es + fs, span) == Load(es, span)
    ensures forall top | UpTo(Exec(Init(), es).calls, top) :: UpTo(Exec(Init(), es + fs).calls, top)
    decreases Flying(Exec(Init(), es).calls, span)
  {
    if Flying(Exec(Init(), es).calls, span) == 0 {
      fs := [];
      assert es + fs == es;
    } else {
      var id := FindFlying(Exec(Init(), es).calls, span);
      var next := DrainOne(es, span, id);
      var rest := Drain(next, span);
      fs := [Fail(id)] + rest;
      Regroup(es, Fail(id), rest);
    }
  }

  lemma Regroup(es: seq<Event>, e: Event, fs: seq<Event>)
    ensures es + ([e] + fs) == (es + [e]) + fs
  {
  }

  lemma {:induction false} StartKept(es: seq<Event>, k: nat, top: nat)
    requires k < |es| && es[k].Start? && UpTo(Exec(Init(), es).calls, top)
    ensures es[k].now <= top
  {
    var n := |es| - 1;
    var s := Exec(Init(), es[..n]);
    if k < n {
      StartsStay(s, es[n]);
      assert UpTo(s.calls, top) by {
        assert forall id | 0 <= id < |s.calls| :: Step(s, es[n]).calls[id].start == s.calls[id].start;
      }
      StartKept(es[..n], k, top);
    } else {
      assert Step(s, es[n]).calls[|s.calls|].start == es[n].now;
    }
  }

  /** In every failing window of a run at most five of the calls started in it fail. */
  ghost predicate WindowsHold(es: seq<Event>) {
    forall from, t0 | 0 <= from <= |es| && 0 <= t0 && FailingWindow(es, from, t0) :: FailuresFrom(es, from, Within(t0)) <= FAILURE_THRESHOLD
  }

  lemma CrowdFails(es: seq<Event>, now: nat) returns (fs: seq<Event>)
    requires Ordered(es) && !ClockGoesBack(Exec(Init(), es), Start(now)) && Crowds(es, Start(now))
    ensures AllFail(fs) && !WindowsHold(es + [Start(now)] + fs)
  {
    var span := Recent(now);
    var next := Extend(es, Start(now));
    LoadStep(Exec(Init(), es), Start(now), span, Streak(es, span));
    StartsUpTo(es, now);
    assert UpTo(Exec(Init(), next).calls, now);
    fs := Drain(next, span);
    var run := next + fs;
    var from := StreakStretch(run, span);
    forall k | from <= k < |run| ensures InWindow(Exec(Init(), run[..k]), run[k], span.t0) {
      if run[k].Start? {
        StartKept(run, k, now);
      }
    }
    assert FailingWindow(run, from, span.t0) && FailuresFrom(run, from, Within(span.t0)) > FAILURE_THRESHOLD;
  }

  lemma PrefixOrdered(es: seq<Event>, k: nat)
    requires Ordered(es) && k <= |es|
    ensures Ordered(es[..k])
  {
    assert forall j | 0 <= j < k :: es[..k][..j] == es[..j] && es[..k][j] == es[j];
  }

  /** Failing calls neither turn the clock back nor crowd. */
  lemma FailuresAreHarmless(es: seq<Event>, k: nat, fs: seq<Event>)
    requires Ordered(es) && NeverCrowds(es) && k <= |es| && AllFail(fs)
    ensures Ordered(es[..k] + fs) && NeverCrowds(es[..k] + fs)
  {
    var run := es[..k] + fs;
    forall j | 0 <= j < |run| ensures !ClockGoesBack(Exec(Init(), run[..j]), run[j]) && !Crowds(run[..j], run[j]) {
      if j < k {
        assert run[..j] == es[..j] && run[j] == es[j];
      } else {
        assert run[j] in fs;
      }
    }
  }

  lemma UncrowdedHolds(es: seq<Event>, k: nat, fs: seq<Event>)
    requires Ordered(es) && NeverCrowds(es) && k <= |es| && AllFail(fs)
    ensures WindowsHold(es[..k] + fs)
  {
    var run := es[..k] + fs;
    FailuresAreHarmless(es, k, fs);
    forall from, t0 | 0 <= from <= |run| && 0 <= t0 && FailingWindow(run, from, t0)
      ensures FailuresFrom(run, from, Within(t0)) <= FAILURE_THRESHOLD
    {
      assert Unbroken(run, from);
      FiveOfThirtySeconds(run, from, t0);
    }
  }

  lemma TakeOneMore(es: seq<Event>, i: nat)
    requires i < |es|
    ensures es[..i] + [es[i]] == es[..i + 1]
  {
  }

  lemma CrowdedBreaks(es: seq<Event>, i: nat) returns (fs: seq<Event>)
    requires Ordered(es) && i < |es| && Crowds(es[..i], es[i])
    ensures AllFail(fs) && !WindowsHold(es[..i + 1] + fs)
  {
    PrefixOrdered(es, i);
    var e := es[i];
    assert !ClockGoesBack(Exec(Init(), es[..i]), e) && e == Start(e.now);
    fs := CrowdFails(es[..i], e.now);
    TakeOneMore(es, i);
  }

  /** Under a clock that does not go back: whatever calls fail next, no thirty seconds without
      a success see more than five of the calls started in them fail, exactly in the runs in
      which no call crowds. */
  lemma FiveFailuresIffNeverCrowds(es: seq<Event>)
    requires Ordered(es)
    ensures NeverCrowds(es) <==> forall k, fs | 0 <= k <= |es| && AllFail(fs) :: WindowsHold(es[..k] + fs)
  {
    if NeverCrowds(es) {
      forall k, fs | 0 <= k <= |es| && AllFail(fs) ensures WindowsHold(es[..k] + fs) {
        UncrowdedHolds(es, k, fs);
      }
    } else {
      var i :| 0 <= i < |es| && Crowds(es[..i], es[i]);
      var fs := CrowdedBreaks(es, i);
    }
  }

  // ----- runs that break the bound

  /** A run whose events from `from` on are a window with n failures. */
  ghost predicate FailsTimes(es: seq<Event>, from: nat, t0: nat, n: nat) {
    from <= |es| && FailingWindow(es, from, t0) && FailuresFrom(es, from, Within(t0)) == n
  }

  lemma ExtendWindow(es: seq<Event>, e: Event, from: nat, t0: nat, n: nat) returns (fs: seq<Event>)
    requires FailsTimes(es, from, t0, n)
    requires InWindow(Exec(Init(), es), e, t0)
    ensures fs == es + [e] && Exec(Init(), fs) == Step(Exec(Init(), es), e)
    ensures FailsTimes(fs, from, t0, n + FailsIn(Exec(Init(), es), e, Within(t0)))
    ensures StampKept(es, from, t0) && !Unstamps(Exec(Init(), es), e, t0) ==> StampKept(fs, from, t0)
  {
    fs := Extend(es, e);
    assert forall k | 0 <= k < |es| :: fs[..k] == es[..k];
  }

  function Repeat(n: nat, c: Call): (r: seq<Call>)
    ensures |r| == n && forall i | 0 <= i < n :: r[i] == c
  {
    seq(n, i => c)
  }

  lemma {:induction false} StartMany(now: nat, n: nat) returns (es: seq<Event>)
    ensures Exec(Init(), es) == State(0, [], 0, Repeat(n, Call(now, Running)))
    ensures FailsTimes(es, 0, now, 0) && StampKept(es, 0, now)
  {
    if n == 0 {
      return [];
    }
    es := StartMany(now, n - 1);
    es := ExtendWindow(es, Start(now), 0, now, 0);
    assert Repeat(n, Call(now, Running)) == Repeat(n - 1, Call(now, Running)) + [Call(now, Running)];
  }

  lemma {:induction false} FailMany(now: nat, n: nat, m: nat) returns (es: seq<Event>)
    requires m <= n
    ensures Exec(Init(), es) == State(m, [], if m == 0 then 0 else now, Repeat(m, Call(now, Threw)) + Repeat(n - m, Call(now, Running)))
    ensures FailsTimes(es, 0, now, m) && StampKept(es, 0, now)
    decreases m
  {
    if m == 0 {
      es := StartMany(now, n);
    } else {
      es := FailMany(now, n, m - 1);
      var s := Exec(Init(), es);
      assert s.calls[m - 1] == Call(now, Running);
      assert s.calls[m - 1 := Call(now, Threw)] == Repeat(m, Call(now, Threw)) + Repeat(n - m, Call(now, Running));
      es := ExtendWindow(es, Fail(m - 1), 0, now, m - 1);
    }
  }

  /** Calls that all start before any of them ends can all fail: any number, at one instant,
      and no failure moves the stamp of the last one back. */
  lemma OverlapUnbounded(now: nat, n: nat) returns (es: seq<Event>)
    ensures Exec(Init(), es).calls == Repeat(n, Call(now, Threw))
    ensures FailsTimes(es, 0, now, n) && StampKept(es, 0, now)
  {
    es := FailMany(now, n, n);
    assert Repeat(n, Call(now, Threw)) + Repeat(0, Call(now, Running)) == Repeat(n, Call(now, Threw));
  }

  predicate TameStep(s: State, e: Event) {
    !Overcommits(s, e) && !ClockGoesBack(s, e) && InFlight(Step(s, e)) <= 2
  }

  /** A run with at most two calls in flight, no overcommitment, and a clock that goes on. */
  ghost predicate Tame(es: seq<Event>) {
    forall k | 0 <= k < |es| :: TameStep(Exec(Init(), es[..k]), es[k])
  }

  lemma TameExtend(es: seq<Event>, e: Event)
    requires Tame(es) && TameStep(Exec(Init(), es), e)
    ensures Tame(es + [e])
  {
    var fs := es + [e];
    assert fs[..|es|] == es;
    assert forall k | 0 <= k < |es| :: fs[..k] == es[..k] && fs[k] == es[k];
  }

  lemma TameIsBounded(es: seq<Event>, from: nat)
    requires Tame(es) && from <= |es|
    ensures Bounded(Exec(Init(), es[..from])) && CommitsKept(es, from)
  {
    assert forall k | 0 <= k < from :: es[..from][..k] == es[..k];
    BoundedUnlessOvercommitted(es[..from]);
  }

  lemma {:induction false} FailuresNarrower(es: seq<Event>, from: nat, a: Span, b: Span)
    requires from <= |es| && forall start: nat | In(a, start) :: In(b, start)
    ensures FailuresFrom(es, from, a) <= FailuresFrom(es, from, b)
  {
    if from < |es| {
      FailuresNarrower(es[..|es| - 1], from, a, b);
    }
  }

  /** No samples, and these figures. */
  predicate Stands(s: State, count: nat, stamp: nat, latest: nat, flying: nat) {
    && s.failureCount == count && s.latencySamples == [] && s.lastFailureTime == stamp && InFlight(s) == flying
    && s.calls != [] && s.calls[|s.calls| - 1].start == latest
  }

  lemma StartStep(s: State, count: nat, stamp: nat, latest: nat, flying: nat, now: nat, t0: nat) returns (t: State)
    requires Stands(s, count, stamp, latest, flying) && latest <= now && In(Within(t0), now)
    requires flying <= 1 && (count + flying < FAILURE_THRESHOLD || (flying == 0 && now - stamp >= RESET_TIMEOUT_MS))
    ensures t == Step(s, Start(now)) && t.calls == s.calls + [Call(now, Running)]
    ensures Stands(t, if count < FAILURE_THRESHOLD then count else 0, stamp, now, flying + 1)
    ensures TameStep(s, Start(now)) && InWindow(s, Start(now), t0) && FailsIn(s, Start(now), Within(t0)) == 0
  {
    FlyingAppend(s.calls, Call(now, Running), Always);
    t := Step(s, Start(now));
  }

  lemma FailLast(t: State, calls: seq<Call>, count: nat, stamp: nat, flying: nat, now: nat, t0: nat) returns (u: State)
    requires t.calls == calls + [Call(now, Running)] && Stands(t, count, stamp, now, flying + 1) && flying <= 1 && In(Within(t0), now)
    ensures u == Step(t, Fail(|calls|)) && u.calls == calls + [Call(now, Threw)] && Stands(u, count + 1, now, now, flying)
    ensures TameStep(t, Fail(|calls|)) && InWindow(t, Fail(|calls|), t0) && FailsIn(t, Fail(|calls|), Within(t0)) == 1
  {
    FlyingUpdate(t.calls, |calls|, Call(now, Threw), Always);
    assert t.calls[|calls| := Call(now, Threw)] == calls + [Call(now, Threw)];
    u := Step(t, Fail(|calls|));
  }

  /** A tame run that has come to s, with n failures in the window since its first event. */
  ghost predicate Reaches(es: seq<Event>, s: State, t0: nat, n: nat) {
    s == Exec(Init(), es) && FailsTimes(es, 1, t0, n) && Tame(es)
  }

  lemma Advance(es: seq<Event>, s: State, e: Event, t0: nat, n: nat) returns (fs: seq<Event>)
    requires Reaches(es, s, t0, n) && InWindow(s, e, t0) && TameStep(s, e)
    ensures Reaches(fs, Step(s, e), t0, n + FailsIn(s, e, Within(t0)))
  {
    TameExtend(es, e);
    fs := ExtendWindow(es, e, 1, t0, n);
  }

  /** One more call starts and fails while at most one other is in flight. */
  lemma FailSoon(es: seq<Event>, s: State, count: nat, stamp: nat, latest: nat, flying: nat, now: nat, t0: nat, n: nat)
    returns (fs: seq<Event>, u: State)
    requires Reaches(es, s, t0, n) && Stands(s, count, stamp, latest, flying) && latest <= now && In(Within(t0), now)
    requires flying <= 1 && (count + flying < FAILURE_THRESHOLD || (flying == 0 && now - stamp >= RESET_TIMEOUT_MS))
    ensures Reaches(fs, u, t0, n + 1)
    ensures Stands(u, 1 + if count < FAILURE_THRESHOLD then count else 0, now, now, flying) && s.calls <= u.calls
  {
    var t := StartStep(s, count, stamp, latest, flying, now, t0);
    var next := Advance(es, s, Start(now), t0, n);
    u := FailLast(t, s.calls, if count < FAILURE_THRESHOLD then count else 0, stamp, flying, now, t0);
    fs := Advance(next, t, Fail(|s.calls|), t0, n);
  }

  lemma FirstStart(t: nat) returns (s: State)
    ensures s == Step(Init(), Start(t)) && s.calls == [Call(t, Running)] && Stands(s, 0, 0, t, 1)
    ensures TameStep(Init(), Start(t))
  {
    s := Step(Init(), Start(t));
    assert [] + [Call(t, Running)] == [Call(t, Running)];
    FlyingAppend([], Call(t, Running), Always);
  }

  /** A call starts at t and hangs. */
  lemma Hangs(t: nat) returns (es: seq<Event>, s: State)
    ensures Reaches(es, s, t + 40_000, 0) && s.calls == [Call(t, Running)] && Stands(s, 0, 0, t, 1)
  {
    s := FirstStart(t);
    TameExtend([], Start(t));
    es := Extend([], Start(t));
  }

  /** Four others fail meanwhile. */
  lemma FourFail(t: nat) returns (es: seq<Event>, s: State)
    ensures Reaches(es, s, t + 40_000, 4) && Stands(s, 4, t + 43_000, t + 43_000, 1)
    ensures [Call(t, Running)] <= s.calls
  {
    var w := t + 40_000;
    es, s := Hangs(t);
    es, s := FailSoon(es, s, 0, 0, t, 1, w, w, 0);
    es, s := FailSoon(es, s, 1, w, w, 1, t + 41_000, w, 1);
    es, s := FailSoon(es, s, 2, t + 41_000, t + 41_000, 1, t + 42_000, w, 2);
    es, s := FailSoon(es, s, 3, t + 42_000, t + 42_000, 1, t + 43_000, w, 3);
  }

  lemma StragglerStep(s: State, t: nat) returns (u: State)
    requires Stands(s, 4, t + 43_000, t + 43_000, 1) && [Call(t, Running)] <= s.calls
    ensures u == Step(s, Fail(0)) && Stands(u, 5, t, t + 43_000, 0)
    ensures TameStep(s, Fail(0)) && InWindow(s, Fail(0), t + 40_000) && FailsIn(s, Fail(0), Within(t + 40_000)) == 0
  {
    assert s.calls[0] == Call(t, Running) && |s.calls| > 1;
    FlyingUpdate(s.calls, 0, Call(t, Threw), Always);
    u := Step(s, Fail(0));
  }

  /** Then the hanging call fails too, with its old stamp. */
  lemma StragglerFails(t: nat) returns (es: seq<Event>, s: State)
    ensures Reaches(es, s, t + 40_000, 4) && Stands(s, 5, t, t + 43_000, 0)
  {
    var before, four := FourFail(t);
    s := StragglerStep(four, t);
    es := Advance(before, four, Fail(0), t + 40_000, 4);
  }

  /** The stamp lets the breaker reset at once, and five more fail. */
  lemma NineFail(t: nat) returns (es: seq<Event>, s: State)
    ensures Reaches(es, s, t + 40_000, 9)
  {
    var w := t + 40_000;
    es, s := StragglerFails(t);
    es, s := FailSoon(es, s, 5, t, t + 43_000, 0, t + 44_000, w, 4);
    es, s := FailSoon(es, s, 1, t + 44_000, t + 44_000, 0, t + 45_000, w, 5);
    es, s := FailSoon(es, s, 2, t + 45_000, t + 45_000, 0, t + 46_000, w, 6);
    es, s := FailSoon(es, s, 3, t + 46_000, t + 46_000, 0, t + 47_000, w, 7);
    es, s := FailSoon(es, s, 4, t + 47_000, t + 47_000, 0, t + 48_000, w, 8);
  }

  /** Nine failures of calls started within eight seconds, with never more than two in flight
      and the count never above five.  What breaks the bound is the stamp that is moved back,
      and nothing else. */
  lemma StragglerReopens(t: nat) returns (es: seq<Event>)
    ensures FailsTimes(es, 1, t + 40_000, 9) && Tame(es)
    ensures Bounded(Exec(Init(), es[..1])) && CommitsKept(es, 1) && !StampKept(es, 1, t + 40_000)
  {
    var s;
    es, s := NineFail(t);
    TameIsBounded(es, 1);
    if StampKept(es, 1, t + 40_000) {
      FiveFailuresPerWindow(es, 1, t + 40_000);
      FailuresNarrower(es, 1, Within(t + 40_000), Since(t + 40_000));
    }
  }
}
