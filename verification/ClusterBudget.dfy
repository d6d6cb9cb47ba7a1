/** The cluster-wide weighted budget of services/api-gateway/src/cluster-weight-budget.ts: two
    atomic Redis scripts on one expiring counter, driven by the requests of any number of
    gateways.  Time is in seconds. */
module ClusterBudget {
  import opened Common

  const TTL: nat := 180

  /** A Redis integer and the moment it expires. */
  datatype Entry = Entry(value: int, expires: nat)

  function Read(key: Option<Entry>, clock: nat): int {
    if key.Some? && clock < key.value.expires then key.value.value else 0
  }

  datatype TryReply = Acquired | OverCap | BadArgument

  /** The acquire script. */
  function LuaTry(key: Option<Entry>, clock: nat, w: int, cap: int): (TryReply, Option<Entry>) {
    if w < 1 || cap < 1 then (BadArgument, key)
    else if Read(key, clock) + w > cap then (OverCap, key)
    else (Acquired, Some(Entry(Read(key, clock) + w, clock + TTL)))
  }

  /** The release script: the amount taken off, at most what is there. */
  function LuaRelease(key: Option<Entry>, clock: nat, w: int): (int, Option<Entry>) {
    var cur := Read(key, clock);
    var dec := if w < cur then w else cur;
    if w < 1 then (0, key)
    else if dec > 0 && key.Some? then (dec, Some(key.value.(value := cur - dec)))
    else (dec, key)
  }

  /** The Redis side as the scripts change it. */
  class Redis {
    var clock: nat
    var key: Option<Entry>

    constructor ()
      ensures clock == 0 && key == None
    {
      clock, key := 0, None;
    }

    method Get() returns (r: int)
      ensures r == Read(key, clock)
    {
      r := if key.Some? && clock < key.value.expires then key.value.value else 0;
    }

    method EvalTry(w: int, cap: int) returns (r: TryReply)
      modifies this`key
      ensures (r, key) == LuaTry(old(key), clock, w, cap)
    {
      if w < 1 || cap < 1 {
        return BadArgument;
      }
      var cur := Get();
      if cur + w > cap {
        return OverCap;
      }
      key := Some(Entry(cur + w, clock + TTL));
      return Acquired;
    }

    method EvalRelease(w: int) returns (dec: int)
      modifies this`key
      ensures (dec, key) == LuaRelease(old(key), clock, w)
    {
      if w < 1 {
        return 0;
      }
      var cur := Get();
      dec := if w < cur then w else cur;
      if dec > 0 {
        key := Some(key.value.(value := cur - dec));
      }
    }
  }

  // ----- every gateway together

  /** The life of one request: `Releasing` once its `released` flag is set but the release
      script has not run, `Leaked` when that script, or the reply to its acquire, is lost. */
  datatype Phase = Unmetered | Refused | Held(w: int) | Releasing(w: int) | Leaked(w: int) | Freed

  datatype State = State(cap: int, clock: nat, key: Option<Entry>, requests: seq<Phase>)

  datatype Link = Down | ReplyLost | Up

  datatype Event =
    | Advance(seconds: nat)
    | Arrive(w: int, link: Link)        // a request asks for weight w
    | Finish(id: nat)                   // `finish` or `close` of its response
    | Send(id: nat, delivered: bool)    // its release script runs, or never does

  function Init(cap: int): State {
    State(cap, 0, None, [])
  }

  predicate In(s: State, id: nat) {
    id < |s.requests|
  }

  function Step(s: State, e: Event): State {
    match e
    case Advance(seconds) => s.(clock := s.clock + seconds)
    case Arrive(w, link) =>
      if w < 1 || link == Down then s.(requests := s.requests + [Unmetered])
      else
        var (reply, key) := LuaTry(s.key, s.clock, w, s.cap);
        var phase :=
          match reply
          case Acquired => if link == Up then Held(w) else Leaked(w)
          case OverCap => if link == Up then Refused else Unmetered
          case BadArgument => Unmetered;
        s.(key := key, requests := s.requests + [phase])
    case Finish(id) =>
      if In(s, id) && s.requests[id].Held? then s.(requests := s.requests[id := Releasing(s.requests[id].w)]) else s
    case Send(id, delivered) =>
      if !In(s, id) || !s.requests[id].Releasing? then s
      else if delivered then s.(key := LuaRelease(s.key, s.clock, s.requests[id].w).1, requests := s.requests[id := Freed])
      else s.(requests := s.requests[id := Leaked(s.requests[id].w)])
  }

  function Exec(s: State, es: seq<Event>): State {
    if es == [] then s else Step(Exec(s, es[..|es| - 1]), es[|es| - 1])
  }

  function Counter(s: State): int {
    Read(s.key, s.clock)
  }

  /** Which requests a total covers: those served now, those that will still release their
      weight, or all whose weight the counter was raised by and not lowered again. */
  datatype Scope = HeldOnly | Live | Owed

  function Weight(p: Phase, scope: Scope): int {
    match p
    case Held(w) => w
    case Releasing(w) => if scope == HeldOnly then 0 else w
    case Leaked(w) => if scope == Owed then w else 0
    case _ => 0
  }

  function Total(requests: seq<Phase>, scope: Scope): int {
    if requests == [] then 0
    else Total(requests[..|requests| - 1], scope) + Weight(requests[|requests| - 1], scope)
  }

  function HeldWeight(s: State): int {
    Total(s.requests, HeldOnly)
  }

  function LiveWeight(s: State): int {
    Total(s.requests, Live)
  }

  function OwedWeight(s: State): int {
    Total(s.requests, Owed)
  }

  ghost predicate PositiveWeights(requests: seq<Phase>) {
    forall id | 0 <= id < |requests| :: requests[id].Held? || requests[id].Releasing? || requests[id].Leaked? ==> requests[id].w >= 1
  }

  lemma {:induction false} TotalUpdate(requests: seq<Phase>, id: nat, p: Phase, scope: Scope)
    requires id < |requests|
    ensures Total(requests[id := p], scope) == Total(requests, scope) - Weight(requests[id], scope) + Weight(p, scope)
  {
    var n := |requests| - 1;
    if id < n {
      TotalUpdate(requests[..n], id, p, scope);
      assert requests[id := p][..n] == requests[..n][id := p];
    } else {
      assert requests[id := p][..n] == requests[..n];
    }
  }

  lemma TotalAppend(requests: seq<Phase>, p: Phase, scope: Scope)
    ensures Total(requests + [p], scope) == Total(requests, scope) + Weight(p, scope)
  {
    assert (requests + [p])[..|requests|] == requests;
  }

  lemma {:induction false} OneOfTotal(requests: seq<Phase>, id: nat, scope: Scope)
    requires PositiveWeights(requests) && id < |requests|
    ensures 0 <= Weight(requests[id], scope) <= Total(requests, scope)
  {
    var n := |requests| - 1;
    if n > 0 {
      OneOfTotal(requests[..n], if id < n then id else 0, scope);
    }
  }

  lemma {:induction false} ScopesNest(requests: seq<Phase>)
    requires PositiveWeights(requests)
    ensures 0 <= Total(requests, HeldOnly) <= Total(requests, Live) <= Total(requests, Owed)
  {
    if requests != [] {
      ScopesNest(requests[..|requests| - 1]);
    }
  }

  /** The counter stays within 0..cap and never above the weight held or leaked. */
  ghost predicate Inv(s: State) {
    && PositiveWeights(s.requests)
    && 0 <= Counter(s) && (Counter(s) > 0 ==> Counter(s) <= s.cap)
    && Counter(s) <= OwedWeight(s)
  }

  /** The one step that loses count: the key expires with weight still on it. */
  predicate LosesCount(s: State, e: Event) {
    e.Advance? && Counter(s) > 0 && s.clock + e.seconds >= s.key.value.expires
  }

  /** What becomes of an arrival.  With Redis up it is refused exactly when its weight does not
      fit under the cap, and otherwise holds its weight.  It is served without holding any when
      it has no weight, Redis is down, the cap is no cap, or the reply of a refusal is lost. */
  lemma ArriveEffect(s: State, w: int, link: Link)
    ensures var t, n := Step(s, Arrive(w, link)), |s.requests|;
            && t.requests == s.requests + [t.requests[n]] && t.cap == s.cap && t.clock == s.clock
            && var fits, p := Counter(s) + w <= s.cap, t.requests[n];
            && Counter(t) == Counter(s) + (if w >= 1 && link != Down && s.cap >= 1 && fits then w else 0)
            && (w >= 1 && s.cap >= 1 && link == Up ==> (p == Refused <==> !fits) && (p == Held(w) <==> fits))
            && (w >= 1 && s.cap >= 1 && link == ReplyLost ==> p == if fits then Leaked(w) else Unmetered)
            && (w < 1 || s.cap < 1 || link == Down ==> p == Unmetered && t.key == s.key)
  {
  }

  lemma ArriveStep(s: State, w: int, link: Link)
    requires Inv(s)
    ensures var t := Step(s, Arrive(w, link)); Inv(t) && OwedWeight(t) - Counter(t) == OwedWeight(s) - Counter(s)
  {
    ArriveEffect(s, w, link);
    TotalAppend(s.requests, Step(s, Arrive(w, link)).requests[|s.requests|], Owed);
  }

  lemma FinishStep(s: State, id: nat)
    requires Inv(s)
    ensures var t := Step(s, Finish(id)); Inv(t) && OwedWeight(t) - Counter(t) == OwedWeight(s) - Counter(s)
  {
    if In(s, id) && s.requests[id].Held? {
      TotalUpdate(s.requests, id, Releasing(s.requests[id].w), Owed);
    }
  }

  lemma SendStep(s: State, id: nat, delivered: bool)
    requires Inv(s)
    ensures Inv(Step(s, Send(id, delivered)))
    ensures Counter(s) == OwedWeight(s) ==> Counter(Step(s, Send(id, delivered))) == OwedWeight(Step(s, Send(id, delivered)))
  {
    if In(s, id) && s.requests[id].Releasing? {
      var w := s.requests[id].w;
      OneOfTotal(s.requests, id, Owed);
      TotalUpdate(s.requests, id, Freed, Owed);
      TotalUpdate(s.requests, id, Leaked(w), Owed);
    }
  }

  lemma InvStep(s: State, e: Event)
    requires Inv(s)
    ensures Inv(Step(s, e))
    ensures Counter(s) == OwedWeight(s) ==> (Counter(Step(s, e)) == OwedWeight(Step(s, e)) <==> !LosesCount(s, e))
  {
    match e
    case Advance(_) =>
    case Arrive(w, link) => ArriveStep(s, w, link);
    case Finish(id) => FinishStep(s, id);
    case Send(id, delivered) => SendStep(s, id, delivered);
  }

  /** In any mix of acquires, refusals, releases, lost messages and expiries the counter stays
      within 0..cap and at most the weight held or leaked. */
  lemma {:induction false} InvAlways(cap: int, es: seq<Event>)
    ensures Inv(Exec(Init(cap), es)) && Exec(Init(cap), es).cap == cap
  {
    if es != [] {
      InvAlways(cap, es[..|es| - 1]);
      InvStep(Exec(Init(cap), es[..|es| - 1]), es[|es| - 1]);
    }
  }

  ghost predicate Exact(cap: int, es: seq<Event>) {
    forall k | 0 <= k <= |es| :: Counter(Exec(Init(cap), es[..k])) == OwedWeight(Exec(Init(cap), es[..k]))
  }

  ghost predicate CountKept(cap: int, es: seq<Event>) {
    forall k | 0 <= k < |es| :: !LosesCount(Exec(Init(cap), es[..k]), es[k])
  }

  lemma {:induction false} ExactWhileKept(cap: int, es: seq<Event>)
    requires CountKept(cap, es)
    ensures Counter(Exec(Init(cap), es)) == OwedWeight(Exec(Init(cap), es))
  {
    if es != [] {
      var n := |es| - 1;
      assert forall k | 0 <= k < n :: es[..n][..k] == es[..k];
      ExactWhileKept(cap, es[..n]);
      InvAlways(cap, es[..n]);
      InvStep(Exec(Init(cap), es[..n]), es[n]);
    }
  }

  /** The counter is the weight held or leaked at every moment of a run exactly when the key
      never expires with weight on it. */
  lemma ExactIffCountKept(cap: int, es: seq<Event>)
    ensures Exact(cap, es) <==> CountKept(cap, es)
  {
    if CountKept(cap, es) {
      forall k | 0 <= k <= |es| ensures Counter(Exec(Init(cap), es[..k])) == OwedWeight(Exec(Init(cap), es[..k])) {
        assert forall j | 0 <= j < k :: es[..k][..j] == es[..j];
        ExactWhileKept(cap, es[..k]);
      }
    }
    if Exact(cap, es) {
      forall k | 0 <= k < |es| ensures !LosesCount(Exec(Init(cap), es[..k]), es[k]) {
        assert es[..k + 1][..k] == es[..k];
        InvAlways(cap, es[..k]);
        InvStep(Exec(Init(cap), es[..k]), es[k]);
      }
    }
  }

  // ----- when the cap holds

  /** The key expires while some request still has to release its weight.  Expiry of leaked
      weight alone does no such harm: it is how a leak is returned. */
  predicate LosesLive(s: State, e: Event) {
    LosesCount(s, e) && LiveWeight(s) > 0
  }

  ghost predicate Covered(s: State) {
    Inv(s) && LiveWeight(s) <= Counter(s)
  }

  lemma LiveArriveStep(s: State, w: int, link: Link)
    requires Covered(s)
    ensures Covered(Step(s, Arrive(w, link)))
  {
    ArriveStep(s, w, link);
    TotalAppend(s.requests, Step(s, Arrive(w, link)).requests[|s.requests|], Live);
  }

  lemma LiveFinishStep(s: State, id: nat)
    requires Covered(s)
    ensures Covered(Step(s, Finish(id)))
  {
    FinishStep(s, id);
    if In(s, id) && s.requests[id].Held? {
      TotalUpdate(s.requests, id, Releasing(s.requests[id].w), Live);
    }
  }

  lemma LiveSendStep(s: State, id: nat, delivered: bool)
    requires Covered(s)
    ensures Covered(Step(s, Send(id, delivered)))
  {
    SendStep(s, id, delivered);
    if In(s, id) && s.requests[id].Releasing? {
      OneOfTotal(s.requests, id, Live);
      TotalUpdate(s.requests, id, Freed, Live);
      TotalUpdate(s.requests, id, Leaked(s.requests[id].w), Live);
    }
  }

  /** The counter goes on covering the live weight through every step but that one. */
  lemma CoveredStep(s: State, e: Event)
    requires Covered(s)
    ensures Covered(Step(s, e)) <==> !LosesLive(s, e)
  {
    InvStep(s, e);
    ScopesNest(s.requests);
    match e
    case Advance(_) =>
    case Arrive(w, link) => LiveArriveStep(s, w, link);
    case Finish(id) => LiveFinishStep(s, id);
    case Send(id, delivered) => LiveSendStep(s, id, delivered);
  }

  ghost predicate LiveKept(cap: int, es: seq<Event>) {
    forall k | 0 <= k < |es| :: !LosesLive(Exec(Init(cap), es[..k]), es[k])
  }

  lemma {:induction false} CoveredWhileKept(cap: int, es: seq<Event>)
    requires LiveKept(cap, es)
    ensures Covered(Exec(Init(cap), es))
  {
    if es != [] {
      var n := |es| - 1;
      assert forall k | 0 <= k < n :: es[..n][..k] == es[..k];
      CoveredWhileKept(cap, es[..n]);
      CoveredStep(Exec(Init(cap), es[..n]), es[n]);
    }
  }

  lemma KeptPrefix(cap: int, es: seq<Event>, k: nat)
    requires LiveKept(cap, es) && k <= |es|
    ensures LiveKept(cap, es[..k])
  {
    assert forall j | 0 <= j < k :: es[..k][..j] == es[..j] && es[..k][j] == es[j];
  }

  /** The counter covers all live weight at every moment of a run exactly when the key never
      expires with live weight on it. */
  lemma CoveredIffLiveKept(cap: int, es: seq<Event>)
    ensures (forall k | 0 <= k <= |es| :: LiveWeight(Exec(Init(cap), es[..k])) <= Counter(Exec(Init(cap), es[..k])))
       <==> LiveKept(cap, es)
  {
    if LiveKept(cap, es) {
      forall k | 0 <= k <= |es| ensures LiveWeight(Exec(Init(cap), es[..k])) <= Counter(Exec(Init(cap), es[..k])) {
        KeptPrefix(cap, es, k);
        CoveredWhileKept(cap, es[..k]);
      }
    }
    if forall k | 0 <= k <= |es| :: LiveWeight(Exec(Init(cap), es[..k])) <= Counter(Exec(Init(cap), es[..k])) {
      forall k | 0 <= k < |es| ensures !LosesLive(Exec(Init(cap), es[..k]), es[k]) {
        assert es[..k + 1][..k] == es[..k];
        InvAlways(cap, es[..k]);
        InvAlways(cap, es[..k + 1]);
        CoveredStep(Exec(Init(cap), es[..k]), es[k]);
      }
    }
  }

  function Bound(cap: int): nat {
    if cap > 0 then cap else 0
  }

  lemma CoveredWithinCap(s: State)
    requires Covered(s)
    ensures HeldWeight(s) <= Bound(s.cap)
  {
    ScopesNest(s.requests);
  }

  /** While no live weight expires, the weight held across all gateways never passes the cap,
      however much weight has leaked and expired. */
  lemma HeldWithinCap(cap: int, es: seq<Event>)
    requires LiveKept(cap, es)
    ensures HeldWeight(Exec(Init(cap), es)) <= Bound(cap)
  {
    CoveredWhileKept(cap, es);
    InvAlways(cap, es);
    CoveredWithinCap(Exec(Init(cap), es));
  }

  ghost predicate Timeless(es: seq<Event>) {
    forall e | e in es :: !e.Advance?
  }

  lemma {:induction false} CoveredThroughout(s: State, es: seq<Event>)
    requires Covered(s) && Timeless(es)
    ensures Covered(Exec(s, es)) && Exec(s, es).cap == s.cap
  {
    if es != [] {
      var n := |es| - 1;
      assert es[n] in es;
      CoveredThroughout(s, es[..n]);
      CoveredStep(Exec(s, es[..n]), es[n]);
    }
  }

  lemma ExecMore(s: State, es: seq<Event>, e: Event)
    ensures Exec(s, es + [e]) == Step(Exec(s, es), e)
  {
    assert (es + [e])[..|es|] == es;
  }

  lemma AdmitOne(s: State)
    requires Inv(s) && Counter(s) < s.cap
    ensures var t := Step(s, Arrive(1, Up));
            Inv(t) && t.cap == s.cap && t.requests == s.requests + [Held(1)] && Counter(t) == Counter(s) + 1 && HeldWeight(t) == HeldWeight(s) + 1
  {
    var t := Step(s, Arrive(1, Up));
    assert t == State(s.cap, s.clock, Some(Entry(Counter(s) + 1, s.clock + TTL)), s.requests + [Held(1)]);
    ArriveStep(s, 1, Up);
    TotalAppend(s.requests, Held(1), HeldOnly);
  }

  /** New requests of weight 1 fill the room that the counter shows. */
  lemma {:induction false} Fill(s: State, n: nat) returns (fs: seq<Event>)
    requires Inv(s) && Counter(s) + n <= s.cap
    ensures Timeless(fs)
    ensures var t := Exec(s, fs); Inv(t) && t.cap == s.cap && Counter(t) == Counter(s) + n
    ensures var t := Exec(s, fs); s.requests <= t.requests && HeldWeight(t) == HeldWeight(s) + n
  {
    if n == 0 {
      return [];
    }
    var before := Fill(s, n - 1);
    AdmitOne(Exec(s, before));
    ExecMore(s, before, Arrive(1, Up));
    fs := before + [Arrive(1, Up)];
  }

  lemma {:induction false} FindReleasing(requests: seq<Phase>) returns (id: nat)
    requires Total(requests, Live) > Total(requests, HeldOnly)
    ensures id < |requests| && requests[id].Releasing?
  {
    var n := |requests| - 1;
    if requests[n].Releasing? {
      return n;
    }
    id := FindReleasing(requests[..n]);
  }

  /** A release that is under way makes room below a full counter and holds nothing itself. */
  lemma ReleaseOne(s: State, id: nat)
    requires Inv(s) && Counter(s) == s.cap >= 1 && id < |s.requests| && s.requests[id].Releasing?
    ensures var t := Step(s, Send(id, true));
            Inv(t) && t.cap == s.cap && 0 <= Counter(t) < s.cap && HeldWeight(t) == HeldWeight(s)
  {
    SendStep(s, id, true);
    TotalUpdate(s.requests, id, Freed, HeldOnly);
  }

  /** Once the counter has lost live weight, new arrivals push the held weight over the cap:
      by themselves, or after one release of weight that is no longer counted. */
  lemma Overfill(s: State) returns (fs: seq<Event>)
    requires Inv(s) && s.cap >= 1 && Counter(s) == 0 && LiveWeight(s) > 0
    ensures Timeless(fs) && HeldWeight(Exec(s, fs)) > s.cap
  {
    fs := Fill(s, s.cap);
    ScopesNest(s.requests);
    if HeldWeight(s) == 0 {
      var t := Exec(s, fs);
      var id := FindReleasing(s.requests);
      ReleaseOne(t, id);
      AdmitOne(Step(t, Send(id, true)));
      ExecMore(s, fs, Send(id, true));
      ExecMore(s, fs + [Send(id, true)], Arrive(1, Up));
      fs := fs + [Send(id, true)] + [Arrive(1, Up)];
    }
  }

  /** The cap holds, whatever the gateways do next, exactly in the runs in which the key never
      expires with live weight on it. */
  lemma CapIffLiveKept(cap: int, es: seq<Event>)
    ensures LiveKept(cap, es) <==>
              forall k, fs | 0 <= k <= |es| && Timeless(fs) :: HeldWeight(Exec(Exec(Init(cap), es[..k]), fs)) <= Bound(cap)
  {
    if LiveKept(cap, es) {
      forall k, fs | 0 <= k <= |es| && Timeless(fs) ensures HeldWeight(Exec(Exec(Init(cap), es[..k]), fs)) <= Bound(cap) {
        KeptPrefix(cap, es, k);
        CoveredWhileKept(cap, es[..k]);
        InvAlways(cap, es[..k]);
        CoveredThroughout(Exec(Init(cap), es[..k]), fs);
        CoveredWithinCap(Exec(Exec(Init(cap), es[..k]), fs));
      }
    } else {
      var k :| 0 <= k < |es| && LosesLive(Exec(Init(cap), es[..k]), es[k]);
      assert es[..k + 1][..k] == es[..k];
      InvAlways(cap, es[..k]);
      InvAlways(cap, es[..k + 1]);
      var fs := Overfill(Exec(Init(cap), es[..k + 1]));
      assert HeldWeight(Exec(Exec(Init(cap), es[..k + 1]), fs)) > Bound(cap);
    }
  }

  lemma LeakStates() returns (a: State, b: State, c: State)
    ensures a == Step(Init(1), Arrive(1, ReplyLost)) && b == Step(a, Advance(TTL)) && c == Step(b, Arrive(1, Up))
    ensures c.requests == [Leaked(1), Held(1)]
    ensures LosesCount(a, Advance(TTL)) && !LosesLive(a, Advance(TTL))
  {
    a := State(1, 0, Some(Entry(1, TTL)), [Leaked(1)]);
    b := a.(clock := TTL);
    c := State(1, TTL, Some(Entry(1, TTL + TTL)), [Leaked(1), Held(1)]);
    assert [] + [Leaked(1)] == [Leaked(1)] && [Leaked(1)] + [Held(1)] == [Leaked(1), Held(1)];
    assert Total([Leaked(1)], Live) == 0;
  }

  lemma KeptMore(cap: int, es: seq<Event>, e: Event) returns (fs: seq<Event>)
    requires LiveKept(cap, es) && !LosesLive(Exec(Init(cap), es), e)
    ensures fs == es + [e] && Exec(Init(cap), fs) == Step(Exec(Init(cap), es), e) && LiveKept(cap, fs)
    ensures LosesCount(Exec(Init(cap), es), e) || !CountKept(cap, es) ==> !CountKept(cap, fs)
  {
    fs := es + [e];
    ExecMore(Init(cap), es, e);
    forall k | 0 <= k < |fs| ensures fs[..k] == (if k < |es| then es[..k] else es) {
    }
    assert LosesCount(Exec(Init(cap), es), e) ==> LosesCount(Exec(Init(cap), fs[..|es|]), fs[|es|]);
    if k :| 0 <= k < |es| && LosesCount(Exec(Init(cap), es[..k]), es[k]) {
      assert LosesCount(Exec(Init(cap), fs[..k]), fs[k]);
    }
  }

  /** A leak under a cap of 1: expiry returns the leaked weight, and the cap holds before and
      after, although the counter has lost count. */
  lemma LeakIsReturned() returns (es: seq<Event>)
    ensures LiveKept(1, es) && !CountKept(1, es)
    ensures Exec(Init(1), es).requests == [Leaked(1), Held(1)]
  {
    var a, b, c := LeakStates();
    es := KeptMore(1, [], Arrive(1, ReplyLost));
    es := KeptMore(1, es, Advance(TTL));
    es := KeptMore(1, es, Arrive(1, Up));
  }

  /** Every arrival has a weight, and Redis answers it. */
  predicate MeteredEvents(es: seq<Event>) {
    forall e | e in es && e.Arrive? :: e.w >= 1 && e.link == Up
  }

  ghost predicate AllMetered(requests: seq<Phase>) {
    forall id | 0 <= id < |requests| :: requests[id] != Unmetered
  }

  lemma MeteredStep(s: State, e: Event)
    requires s.cap >= 1 && AllMetered(s.requests) && (e.Arrive? ==> e.w >= 1 && e.link == Up)
    ensures AllMetered(Step(s, e).requests)
  {
    if e.Arrive? {
      ArriveEffect(s, e.w, e.link);
    }
  }

  lemma {:induction false} NoneUnmetered(cap: int, es: seq<Event>)
    requires cap >= 1 && MeteredEvents(es)
    ensures AllMetered(Exec(Init(cap), es).requests)
  {
    if es != [] {
      var n := |es| - 1;
      assert es[n] in es;
      NoneUnmetered(cap, es[..n]);
      InvAlways(cap, es[..n]);
      MeteredStep(Exec(Init(cap), es[..n]), es[n]);
    }
  }

  /** While Redis answers and no live weight expires, the cap bounds all that is served: every
      request holds its weight, has given it back, or was refused. */
  lemma ServedWithinCap(cap: int, es: seq<Event>)
    requires cap >= 1 && MeteredEvents(es) && LiveKept(cap, es)
    ensures var s := Exec(Init(cap), es); HeldWeight(s) <= cap && AllMetered(s.requests)
  {
    NoneUnmetered(cap, es);
    HeldWithinCap(cap, es);
  }

  /** A request gives back exactly its weight, once, whichever of its two events fires first
      and however often they fire. */
  lemma ReleasedOnce(s: State, id: nat)
    requires Covered(s) && In(s, id) && s.requests[id].Held?
    ensures var t := Step(Step(s, Finish(id)), Send(id, true));
            && Counter(t) == Counter(s) - s.requests[id].w && t.requests == s.requests[id := Freed]
            && Step(t, Finish(id)) == t && forall delivered :: Step(t, Send(id, delivered)) == t
    ensures Step(Step(s, Finish(id)), Finish(id)) == Step(s, Finish(id))
  {
    OneOfTotal(s.requests, id, Live);
    assert s.requests[id := Releasing(s.requests[id].w)][id := Freed] == s.requests[id := Freed];
  }

  /** The moment of the last successful acquire of a run. */
  function LastAcquire(cap: int, es: seq<Event>): Option<nat> {
    if es == [] then None
    else
      var n := |es| - 1;
      var s := Exec(Init(cap), es[..n]);
      if es[n].Arrive? && es[n].link != Down && LuaTry(s.key, s.clock, es[n].w, cap).0 == Acquired then Some(s.clock)
      else LastAcquire(cap, es[..n])
  }

  /** Only acquires renew the key: it expires 180 seconds after the last one, whatever has been
      released or refused since.  So the count is lost exactly when some request keeps its
      weight while the cluster admits nothing for that long. */
  lemma {:induction false} ExpiryDatesFromLastAcquire(cap: int, es: seq<Event>)
    ensures var s, last := Exec(Init(cap), es), LastAcquire(cap, es);
            && (s.key.None? <==> last.None?)
            && (s.key.Some? ==> s.key.value.expires == last.value + 180)
  {
    if es != [] {
      ExpiryDatesFromLastAcquire(cap, es[..|es| - 1]);
      InvAlways(cap, es[..|es| - 1]);
    }
  }

  /** With expiry there is no cap: under a cap of 1, requests that outlive the key can come to
      hold any weight together. */
  lemma {:induction false} NoCapAcrossExpiry(n: nat) returns (es: seq<Event>)
    ensures var s := Exec(Init(1), es); HeldWeight(s) == n && s.cap == 1
    ensures var s := Exec(Init(1), es); s.key.Some? ==> s.key.value.expires <= s.clock + TTL
  {
    if n == 0 {
      return [];
    }
    var before := NoCapAcrossExpiry(n - 1);
    var s := Exec(Init(1), before);
    var waited := Step(s, Advance(TTL));
    var t := Step(waited, Arrive(1, Up));
    TotalAppend(s.requests, Held(1), HeldOnly);
    es := before + [Advance(TTL), Arrive(1, Up)];
    assert es[..|es| - 1] == before + [Advance(TTL)];
    assert (before + [Advance(TTL)])[..|before|] == before;
    assert Exec(Init(1), es) == t;
  }
}
