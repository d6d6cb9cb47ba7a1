/** The end-to-end traffic shaper of services/api-gateway/src/e2e-traffic-shaper.ts, whose
    capacity the watchdog poller halves and restores at any time.  Releases are modelled for
    admitted requests: a client that goes away while still queued is not. */
module TrafficShaper {
  import opened WaitQueue

  datatype Phase = Queued | Admitted | Released | Refused

  datatype Config = Config(baseMax: nat, maxWaiters: nat)

  /** Requests are numbered in order of arrival; `requests` holds the phase of each. */
  datatype State = State(config: Config, throttled: bool, inUse: int, waiters: seq<nat>, requests: seq<Phase>)

  datatype Event =
    | Throttle(on: bool) // the poller has read the watchdog key
    | Arrive             // a request reaches the middleware
    | End(id: nat)       // `finish` or `close` of a response; both may fire

  function EffectiveMax(config: Config, throttled: bool): nat {
    var n := if throttled then config.baseMax / 2 else config.baseMax;
    if n > 4 then n else 4
  }

  function Init(config: Config): State {
    State(config, false, 0, [], [])
  }

  predicate Live(s: State, id: nat) {
    id < |s.requests| && s.requests[id] == Admitted
  }

  function Step(s: State, e: Event): State {
    match e
    case Throttle(on) => s.(throttled := on)
    case Arrive =>
      if s.inUse < EffectiveMax(s.config, s.throttled) then s.(inUse := s.inUse + 1, requests := s.requests + [Admitted])
      else if |s.waiters| >= s.config.maxWaiters then s.(requests := s.requests + [Refused])
      else s.(waiters := s.waiters + [|s.requests|], requests := s.requests + [Queued])
    case End(id) =>
      if !Live(s, id) then s
      else
        var t := s.(inUse := s.inUse - 1, requests := s.requests[id := Released]);
        if t.waiters != [] && t.waiters[0] < |t.requests| then
          t.(inUse := t.inUse + 1, waiters := t.waiters[1..], requests := t.requests[t.waiters[0] := Admitted])
        else t
  }

  function Exec(s: State, es: seq<Event>): State {
    if es == [] then s else Step(Exec(s, es[..|es| - 1]), es[|es| - 1])
  }

  function LiveCount(s: State): nat {
    Count(s.requests, Admitted)
  }

  function Ceiling(c: Config): nat {
    if c.baseMax > 4 then c.baseMax else 4
  }

  ghost predicate Inv(s: State) {
    && s.inUse == LiveCount(s) <= Ceiling(s.config)
    && |s.waiters| <= s.config.maxWaiters
    && Queue(s.waiters, s.requests, Queued)
    && (s.waiters != [] ==> s.inUse >= 4)
  }

  /** The closure state of the middleware; a request's `released` flag is its phase. */
  class Shaper {
    const config: Config
    var throttled: bool
    var inUse: int
    var waiters: seq<nat>
    var requests: seq<Phase>

    ghost function View(): State
      reads this
    {
      State(config, throttled, inUse, waiters, requests)
    }

    ghost predicate Valid()
      reads this
    {
      Inv(View())
    }

    constructor (baseMax: nat, maxWaiters: nat)
      ensures Valid() && View() == Init(Config(if baseMax > 1 then baseMax else 1, maxWaiters))
    {
      config := Config(if baseMax > 1 then baseMax else 1, maxWaiters);
      throttled, inUse, waiters, requests := false, 0, [], [];
    }

    /** The watchdog poller has read its key; a failed read counts as not throttled. */
    method Poll(on: bool)
      requires Valid()
      modifies this
      ensures Valid() && View() == Step(old(View()), Throttle(on))
      ensures inUse == old(inUse) && waiters == old(waiters) && requests == old(requests)
    {
      throttled := on;
    }

    /** The middleware function: proceed, queue, or answer 503. */
    method Handle() returns (id: nat)
      requires Valid()
      modifies this
      ensures Valid() && View() == Step(old(View()), Arrive) && id == |old(requests)|
    {
      ghost var t := Step(View(), Arrive);
      ArriveEffect(View());
      id := |requests|;
      var cap := EffectiveMax(config, throttled);
      if inUse < cap {
        inUse := inUse + 1;
        requests := requests + [Admitted];
        assert View() == t;
        return;
      }
      if |waiters| >= config.maxWaiters {
        requests := requests + [Refused];
        assert View() == t;
        return;
      }
      waiters := waiters + [id];
      requests := requests + [Queued];
      assert View() == t;
    }

    /** `release`, as called by both events of an admitted response. */
    method Release(id: nat)
      requires Valid()
      modifies this
      ensures Valid() && View() == Step(old(View()), End(id))
    {
      ghost var s, t := View(), Step(View(), End(id));
      if id >= |requests| || requests[id] != Admitted {
        return;
      }
      EndEffect(s, id);
      requests := requests[id := Released];
      inUse := inUse - 1;
      if waiters != [] {
        var w := waiters[0];
        waiters := waiters[1..];
        inUse := inUse + 1;
        requests := requests[w := Admitted];
      }
      assert View() == t;
    }
  }

  lemma EndAlone(s: State, id: nat)
    requires Inv(s) && Live(s, id) && s.waiters == []
    ensures Inv(s.(inUse := s.inUse - 1, requests := s.requests[id := Released]))
  {
    CountUpdate(s.requests, id, Released);
    Update(s.waiters, s.requests, Queued, id, Released);
  }

  lemma HandOver(s: State, id: nat)
    requires Inv(s) && Live(s, id) && s.waiters != []
    ensures s.waiters[0] < |s.requests| && s.requests[s.waiters[0]] == Queued
    ensures Inv(s.(waiters := s.waiters[1..], requests := s.requests[id := Released][s.waiters[0] := Admitted]))
  {
    var ended := s.requests[id := Released];
    Update(s.waiters, s.requests, Queued, id, Released);
    Shift(s.waiters, ended, Queued, Admitted);
    CountUpdate(s.requests, id, Released);
    CountUpdate(ended, s.waiters[0], Admitted);
  }

  /** What an effective release does: the first waiter, if any, takes over the place. */
  lemma EndEffect(s: State, id: nat)
    requires Inv(s) && Live(s, id)
    ensures var ended := s.requests[id := Released];
            && Inv(Step(s, End(id)))
            && (s.waiters != [] ==> s.waiters[0] < |s.requests| && s.requests[s.waiters[0]] == Queued)
            && Step(s, End(id)) ==
               if s.waiters == [] then s.(inUse := s.inUse - 1, requests := ended)
               else s.(waiters := s.waiters[1..], requests := ended[s.waiters[0] := Admitted])
  {
    if s.waiters == [] {
      EndAlone(s, id);
    } else {
      HandOver(s, id);
    }
  }

  lemma ArriveEffect(s: State)
    requires Inv(s)
    ensures Inv(Step(s, Arrive)) && s.waiters <= Step(s, Arrive).waiters && s.requests <= Step(s, Arrive).requests
  {
    if s.inUse < EffectiveMax(s.config, s.throttled) {
      Append(s.waiters, s.requests, Queued, Admitted);
      CountAppend(s.requests, Admitted);
    } else if |s.waiters| >= s.config.maxWaiters {
      Append(s.waiters, s.requests, Queued, Refused);
      CountAppend(s.requests, Refused);
    } else {
      Push(s.waiters, s.requests, Queued);
      CountAppend(s.requests, Queued);
    }
  }

  lemma InvStep(s: State, e: Event)
    requires Inv(s)
    ensures Inv(Step(s, e))
  {
    match e
    case Throttle(_) =>
    case Arrive => ArriveEffect(s);
    case End(id) =>
      if Live(s, id) {
        EndEffect(s, id);
      }
  }

  /** What becomes of an arrival, counted out: under throttling half the places can be taken,
      rounded down, but never fewer than four. */
  lemma ArrivalDecision(s: State)
    ensures var t, n := Step(s, Arrive), |s.requests|;
            var admitted := s.inUse < 4 || (s.inUse + 1) * (if s.throttled then 2 else 1) <= s.config.baseMax;
            var refused := !admitted && |s.waiters| >= s.config.maxWaiters;
            && t.requests == s.requests + [t.requests[n]]
            && (t.requests[n] == Admitted <==> admitted)
            && (t.requests[n] == Refused <==> refused)
            && (t.requests[n] == Queued <==> !admitted && !refused)
            && t.inUse == (if admitted then s.inUse + 1 else s.inUse)
            && t.waiters == (if admitted || refused then s.waiters else s.waiters + [n])
  {
  }

  /** In every run, however the capacity flips: `inUse` is the number of admitted, unreleased
      requests and at most max(4, baseMax); the queue is bounded; and it is empty whenever
      fewer than 4 requests are in use. */
  lemma {:induction false} InvAlways(config: Config, es: seq<Event>)
    ensures var s := Exec(Init(config), es); Inv(s) && s.config == config
    ensures var s := Exec(Init(config), es);
            s.inUse == Count(s.requests, Admitted) <= Ceiling(config) && |s.waiters| <= config.maxWaiters && (s.waiters != [] ==> s.inUse >= 4)
  {
    if es != [] {
      InvAlways(config, es[..|es| - 1]);
      InvStep(Exec(Init(config), es[..|es| - 1]), es[|es| - 1]);
    }
  }

  // ----- the queue is served in order, one request per release

  /** How many events of a run really release a request. */
  function Releases(s: State, es: seq<Event>): nat {
    if es == [] then 0
    else
      var n := |es| - 1;
      Releases(s, es[..n]) + if es[n].End? && Live(Exec(s, es[..n]), es[n].id) then 1 else 0
  }

  /** Where request w stands: still queued at `place`, or admitted at some time before. */
  ghost predicate Stands(s: State, w: nat, place: int) {
    && w < |s.requests|
    && (place >= 0 ==> place < |s.waiters| && s.waiters[place] == w && s.requests[w] == Queued)
    && (place < 0 ==> s.requests[w] in {Admitted, Released})
  }

  lemma StandsEnd(s: State, id: nat, w: nat, place: int)
    requires Inv(s) && Stands(s, w, place) && Live(s, id)
    ensures Stands(Step(s, End(id)), w, place - 1)
  {
    EndEffect(s, id);
    if place > 0 {
      assert Step(s, End(id)).waiters[place - 1] == w;
      assert s.waiters[0] < s.waiters[place];
    }
  }

  lemma StandsStep(s: State, e: Event, w: nat, place: int)
    requires Inv(s) && Stands(s, w, place)
    ensures Stands(Step(s, e), w, if e.End? && Live(s, e.id) then place - 1 else place)
  {
    if e == Arrive {
      ArriveEffect(s);
    } else if e.End? && Live(s, e.id) {
      StandsEnd(s, e.id, w, place);
    }
  }

  /** A request queued behind k others stays queued through k releases, moving up one place
      at each, and is admitted at exactly the (k+1)-th. */
  lemma {:induction false} AdmittedAtItsRelease(s: State, k: nat, es: seq<Event>)
    requires Inv(s) && k < |s.waiters|
    ensures Inv(Exec(s, es)) && Stands(Exec(s, es), s.waiters[k], k - Releases(s, es))
  {
    if es == [] {
      assert s.waiters[k] in s.waiters;
    } else {
      var m := |es| - 1;
      var t := Exec(s, es[..m]);
      AdmittedAtItsRelease(s, k, es[..m]);
      InvStep(t, es[m]);
      StandsStep(t, es[m], s.waiters[k], k - Releases(s, es[..m]));
    }
  }

  // ----- when requests are admitted in order of arrival

  /** No queued request is older than one that has been admitted. */
  ghost predicate InOrder(s: State) {
    forall a, q | 0 <= a < |s.requests| && 0 <= q < |s.requests| &&
                  s.requests[a] in {Admitted, Released} && s.requests[q] == Queued :: a < q
  }

  /** An arrival takes the fast path past a queue. */
  predicate Overtakes(s: State, e: Event) {
    e == Arrive && s.waiters != [] && s.inUse < EffectiveMax(s.config, s.throttled)
  }

  lemma OrderedArrive(s: State)
    requires Inv(s) && InOrder(s)
    ensures InOrder(Step(s, Arrive)) <==> !Overtakes(s, Arrive)
  {
    var t := Step(s, Arrive);
    if Overtakes(s, Arrive) {
      assert s.waiters[0] in s.waiters && t.requests[s.waiters[0]] == Queued && t.requests[|s.requests|] == Admitted;
    } else if s.inUse < EffectiveMax(s.config, s.throttled) {
      assert forall id | 0 <= id < |s.requests| :: s.requests[id] != Queued;
    }
  }

  lemma OrderedEnd(s: State, id: nat)
    requires Inv(s) && InOrder(s)
    ensures InOrder(Step(s, End(id)))
  {
    if Live(s, id) && s.waiters != [] {
      EndEffect(s, id);
      assert forall q | 0 <= q < |s.requests| && s.requests[q] == Queued :: s.waiters[0] <= q;
    }
  }

  lemma OrderedStep(s: State, e: Event)
    requires Inv(s) && InOrder(s)
    ensures InOrder(Step(s, e)) <==> !Overtakes(s, e)
  {
    match e
    case Throttle(_) =>
    case Arrive => OrderedArrive(s);
    case End(id) => OrderedEnd(s, id);
  }

  ghost predicate OvertakingFree(config: Config, es: seq<Event>) {
    forall k | 0 <= k < |es| :: !Overtakes(Exec(Init(config), es[..k]), es[k])
  }

  lemma {:induction false} OrderedWithoutOvertaking(config: Config, es: seq<Event>)
    requires OvertakingFree(config, es)
    ensures InOrder(Exec(Init(config), es))
  {
    if es != [] {
      var n := |es| - 1;
      assert forall k | 0 <= k < n :: es[..n][..k] == es[..k];
      OrderedWithoutOvertaking(config, es[..n]);
      InvAlways(config, es[..n]);
      OrderedStep(Exec(Init(config), es[..n]), es[n]);
    }
  }

  /** Requests are admitted in order of arrival at every moment of a run exactly when no
      arrival takes the fast path past a queue. */
  lemma OrderIffNoOvertaking(config: Config, es: seq<Event>)
    ensures (forall k | 0 <= k <= |es| :: InOrder(Exec(Init(config), es[..k]))) <==> OvertakingFree(config, es)
  {
    if OvertakingFree(config, es) {
      forall k | 0 <= k <= |es| ensures InOrder(Exec(Init(config), es[..k])) {
        assert forall j | 0 <= j < k :: es[..k][..j] == es[..j];
        OrderedWithoutOvertaking(config, es[..k]);
      }
    }
    if forall k | 0 <= k <= |es| :: InOrder(Exec(Init(config), es[..k])) {
      forall k | 0 <= k < |es| ensures !Overtakes(Exec(Init(config), es[..k]), es[k]) {
        assert es[..k + 1][..k] == es[..k];
        InvAlways(config, es[..k]);
        OrderedStep(Exec(Init(config), es[..k]), es[k]);
      }
    }
  }

  /** Nobody waits while there is room below the capacity of the moment. */
  predicate Full(s: State) {
    s.waiters != [] ==> s.inUse >= EffectiveMax(s.config, s.throttled)
  }

  /** The capacity is set above the requests in use while others wait. */
  predicate OpensOverQueue(s: State, e: Event) {
    e.Throttle? && s.waiters != [] && s.inUse < EffectiveMax(s.config, e.on)
  }

  lemma FullStep(s: State, e: Event)
    requires Inv(s) && Full(s)
    ensures Full(Step(s, e)) <==> !OpensOverQueue(s, e)
  {
    if e.End? && Live(s, e.id) {
      EndEffect(s, e.id);
    }
  }

  ghost predicate NeverOpens(config: Config, es: seq<Event>) {
    forall k | 0 <= k < |es| :: !OpensOverQueue(Exec(Init(config), es[..k]), es[k])
  }

  lemma {:induction false} FullUnlessOpened(config: Config, es: seq<Event>)
    requires NeverOpens(config, es)
    ensures Full(Exec(Init(config), es))
  {
    if es != [] {
      var n := |es| - 1;
      assert forall k | 0 <= k < n :: es[..n][..k] == es[..k];
      FullUnlessOpened(config, es[..n]);
      InvAlways(config, es[..n]);
      FullStep(Exec(Init(config), es[..n]), es[n]);
    }
  }

  /** At no moment of a run could an arrival overtake, exactly when the capacity is never set
      above the requests in use over a queue. */
  lemma OvertakableIffOpened(config: Config, es: seq<Event>)
    ensures (forall k | 0 <= k <= |es| :: !Overtakes(Exec(Init(config), es[..k]), Arrive)) <==> NeverOpens(config, es)
  {
    if NeverOpens(config, es) {
      forall k | 0 <= k <= |es| ensures !Overtakes(Exec(Init(config), es[..k]), Arrive) {
        assert forall j | 0 <= j < k :: es[..k][..j] == es[..j];
        FullUnlessOpened(config, es[..k]);
      }
    }
    if forall k | 0 <= k <= |es| :: !Overtakes(Exec(Init(config), es[..k]), Arrive) {
      forall k | 0 <= k < |es| ensures !OpensOverQueue(Exec(Init(config), es[..k]), es[k]) {
        StaysFull(config, es, k);
      }
    }
  }

  lemma StaysFull(config: Config, es: seq<Event>, k: nat)
    requires k < |es| && Full(Exec(Init(config), es[..k])) && Full(Exec(Init(config), es[..k + 1]))
    ensures !OpensOverQueue(Exec(Init(config), es[..k]), es[k])
  {
    assert es[..k + 1][..k] == es[..k];
    InvAlways(config, es[..k]);
    FullStep(Exec(Init(config), es[..k]), es[k]);
  }

  /** The capacity is the same after every event. */
  ghost predicate ConstantCapacity(config: Config, es: seq<Event>) {
    forall k | 0 <= k <= |es| :: EffectiveMax(config, Exec(Init(config), es[..k]).throttled) == EffectiveMax(config, false)
  }

  lemma {:induction false} ConstantIsFull(config: Config, es: seq<Event>)
    requires ConstantCapacity(config, es)
    ensures Full(Exec(Init(config), es))
  {
    if es != [] {
      var n := |es| - 1;
      assert forall k | 0 <= k <= n :: es[..n][..k] == es[..k];
      ConstantIsFull(config, es[..n]);
      InvAlways(config, es[..n]);
      FullStep(Exec(Init(config), es[..n]), es[n]);
      assert es[..|es|] == es;
    }
  }

  /** A run of constant capacity never overtakes. */
  lemma ConstantCapacityKeepsOrder(config: Config, es: seq<Event>)
    requires ConstantCapacity(config, es)
    ensures OvertakingFree(config, es) && InOrder(Exec(Init(config), es))
  {
    forall k | 0 <= k < |es| ensures !Overtakes(Exec(Init(config), es[..k]), es[k]) {
      assert forall j | 0 <= j <= k :: es[..k][..j] == es[..j];
      ConstantIsFull(config, es[..k]);
    }
    OrderedWithoutOvertaking(config, es);
  }

  /** A run that overtakes: when the capacity is restored over a queue, a later arrival goes
      straight past it. */
  lemma LateArrivalOvertakes() returns (es: seq<Event>)
    ensures var t := Exec(Init(Config(8, 500)), es);
            |t.requests| == 6 && t.requests[4] == Queued && t.requests[5] == Admitted
  {
    var s := Init(Config(8, 500));
    es := [];
    es := Extend(s, es, Throttle(true));
    es := Extend(s, es, Arrive);
    es := Extend(s, es, Arrive);
    es := Extend(s, es, Arrive);
    es := Extend(s, es, Arrive);
    assert Exec(s, es) == State(s.config, true, 4, [], [Admitted, Admitted, Admitted, Admitted]);
    es := Extend(s, es, Arrive);
    es := Extend(s, es, Throttle(false));
    assert Exec(s, es) == State(s.config, false, 4, [4], [Admitted, Admitted, Admitted, Admitted, Queued]);
    es := Extend(s, es, Arrive);
  }

  lemma Extend(s: State, es: seq<Event>, e: Event) returns (fs: seq<Event>)
    ensures Exec(s, fs) == Step(Exec(s, es), e)
  {
    fs := es + [e];
    assert fs[..|es|] == es;
  }
}
