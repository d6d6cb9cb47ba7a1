/** Coalescing of identical upstream fetches: `analyticsDailyMetricsCoalescedHandler` of
    services/api-gateway/src/proxy-limits.ts.  A fetch settles first; the `finally` callback
    that drops it from the table, and the delivery to each waiting request, come later. */
module Coalescer {
  import opened Common

  datatype Outcome = Response(status: nat, body: string) | Failed

  /** A fetch is live until its `finally` callback has run. */
  datatype Fetch = Fetch(key: string, outcome: Option<Outcome>, live: bool)

  /** A request and the fetch whose promise it awaits. */
  datatype Request = Request(key: string, fetch: nat, reply: Option<Outcome>)

  datatype State = State(pending: map<string, nat>, fetches: seq<Fetch>, requests: seq<Request>)

  datatype Event =
    | Arrive(key: string)
    | Settle(f: nat, outcome: Outcome) // the upstream answers or fails
    | Finally(f: nat)                  // the callback that deletes the table entry
    | Deliver(r: nat)                  // a waiting request resumes

  function Init(): State {
    State(map[], [], [])
  }

  function Step(s: State, e: Event): State {
    match e
    case Arrive(key) =>
      if key in s.pending then s.(requests := s.requests + [Request(key, s.pending[key], None)])
      else
        var f := |s.fetches|;
        State(s.pending[key := f], s.fetches + [Fetch(key, None, true)], s.requests + [Request(key, f, None)])
    case Settle(f, outcome) =>
      if f < |s.fetches| && s.fetches[f].outcome.None? then
        s.(fetches := s.fetches[f := s.fetches[f].(outcome := Some(outcome))])
      else s
    case Finally(f) =>
      if f < |s.fetches| && s.fetches[f].live && s.fetches[f].outcome.Some? then
        s.(pending := s.pending - {s.fetches[f].key}, fetches := s.fetches[f := s.fetches[f].(live := false)])
      else s
    case Deliver(r) =>
      if r < |s.requests| && s.requests[r].reply.None? && s.requests[r].fetch < |s.fetches| &&
         !s.fetches[s.requests[r].fetch].live then
        s.(requests := s.requests[r := s.requests[r].(reply := s.fetches[s.requests[r].fetch].outcome)])
      else s
  }

  function Exec(s: State, es: seq<Event>): State {
    if es == [] then s else Step(Exec(s, es[..|es| - 1]), es[|es| - 1])
  }

  /** The table holds exactly the live fetches, one per key; a fetch stays live until it has
      an outcome; every request waits for a fetch of its own key and gets that outcome. */
  ghost predicate Inv(s: State) {
    && (forall k | k in s.pending :: s.pending[k] < |s.fetches| && s.fetches[s.pending[k]].key == k && s.fetches[s.pending[k]].live)
    && (forall f | 0 <= f < |s.fetches| && s.fetches[f].live :: s.fetches[f].key in s.pending && s.pending[s.fetches[f].key] == f)
    && (forall f | 0 <= f < |s.fetches| && s.fetches[f].outcome.None? :: s.fetches[f].live)
    && (forall r | 0 <= r < |s.requests| :: s.requests[r].fetch < |s.fetches| && s.fetches[s.requests[r].fetch].key == s.requests[r].key)
    && (forall r | 0 <= r < |s.requests| && s.requests[r].reply.Some? ::
          !s.fetches[s.requests[r].fetch].live && s.requests[r].reply == s.fetches[s.requests[r].fetch].outcome)
  }

  /** The handler's closure state, and what its callers and the upstream hold of it. */
  class Handler {
    var pending: map<string, nat>
    var fetches: seq<Fetch>
    var requests: seq<Request>

    ghost function View(): State
      reads this
    {
      State(pending, fetches, requests)
    }

    constructor ()
      ensures View() == Init() && Inv(View())
    {
      pending, fetches, requests := map[], [], [];
    }

    /** The handler up to its await: join the pending fetch or start one. */
    method Handle(key: string) returns (f: nat)
      requires Inv(View())
      modifies this
      ensures Inv(View()) && View() == Step(old(View()), Arrive(key))
      ensures f < |fetches| && fetches[f].key == key && fetches[f].live
    {
      InvStep(View(), Arrive(key));
      if key in pending {
        f := pending[key];
      } else {
        f := |fetches|;
        fetches := fetches + [Fetch(key, None, true)];
        pending := pending[key := f];
      }
      requests := requests + [Request(key, f, None)];
    }

    /** The `finally` callback. */
    method Cleanup(f: nat)
      requires Inv(View()) && f < |fetches| && fetches[f].live && fetches[f].outcome.Some?
      modifies this
      ensures Inv(View()) && View() == Step(old(View()), Finally(f))
    {
      InvStep(View(), Finally(f));
      pending := pending - {fetches[f].key};
      fetches := fetches[f := fetches[f].(live := false)];
    }
  }

  lemma ArriveStep(s: State, key: string)
    requires Inv(s)
    ensures Inv(Step(s, Arrive(key)))
  {
  }

  lemma SettleStep(s: State, f: nat, outcome: Outcome)
    requires Inv(s)
    ensures Inv(Step(s, Settle(f, outcome)))
  {
  }

  lemma FinallyStep(s: State, f: nat)
    requires Inv(s)
    ensures Inv(Step(s, Finally(f)))
  {
  }

  lemma DeliverStep(s: State, r: nat)
    requires Inv(s)
    ensures Inv(Step(s, Deliver(r)))
  {
  }

  lemma InvStep(s: State, e: Event)
    requires Inv(s)
    ensures Inv(Step(s, e))
  {
    match e
    case Arrive(key) => ArriveStep(s, key);
    case Settle(f, outcome) => SettleStep(s, f, outcome);
    case Finally(f) => FinallyStep(s, f);
    case Deliver(r) => DeliverStep(s, r);
  }

  lemma {:induction false} InvAlways(es: seq<Event>)
    ensures Inv(Exec(Init(), es))
  {
    if es != [] {
      InvAlways(es[..|es| - 1]);
      InvStep(Exec(Init(), es[..|es| - 1]), es[|es| - 1]);
    }
  }

  /** At most one upstream fetch per query string is outstanding. */
  lemma OneFetchPerKey(es: seq<Event>, f: nat, g: nat)
    requires var s := Exec(Init(), es); f < |s.fetches| && g < |s.fetches| && s.fetches[f].key == s.fetches[g].key
    requires var s := Exec(Init(), es); s.fetches[f].outcome.None? && s.fetches[g].outcome.None?
    ensures f == g
  {
    InvAlways(es);
  }

  /** What never changes once it is there: a request's fetch, a reply, an outcome, a death. */
  ghost predicate Grows(s: State, t: State) {
    && |s.fetches| <= |t.fetches| && |s.requests| <= |t.requests|
    && (forall f | 0 <= f < |s.fetches| :: s.fetches[f].key == t.fetches[f].key &&
          (s.fetches[f].outcome.Some? ==> t.fetches[f].outcome == s.fetches[f].outcome) &&
          (!s.fetches[f].live ==> !t.fetches[f].live))
    && (forall r | 0 <= r < |s.requests| :: s.requests[r].key == t.requests[r].key && s.requests[r].fetch == t.requests[r].fetch &&
          (s.requests[r].reply.Some? ==> t.requests[r].reply == s.requests[r].reply))
  }

  lemma StepGrows(s: State, e: Event)
    requires Inv(s)
    ensures Grows(s, Step(s, e))
  {
  }

  lemma GrowsTransitive(s: State, t: State, u: State)
    requires Grows(s, t) && Grows(t, u)
    ensures Grows(s, u)
  {
  }

  lemma {:induction false} RunGrows(s: State, es: seq<Event>)
    requires Inv(s)
    ensures Inv(Exec(s, es)) && Grows(s, Exec(s, es))
  {
    if es != [] {
      var t := Exec(s, es[..|es| - 1]);
      RunGrows(s, es[..|es| - 1]);
      InvStep(t, es[|es| - 1]);
      StepGrows(t, es[|es| - 1]);
      GrowsTransitive(s, t, Exec(s, es));
    }
  }

  /** A request that arrives in state s is answered, if ever, with the outcome of one fetch of
      its own key, which was pending when it arrived or was started by it. */
  lemma {:induction false} AnsweredByOwnFetch(s: State, key: string, es: seq<Event>)
    requires Inv(s)
    ensures var r := |s.requests|;
            var t := Exec(Step(s, Arrive(key)), es);
            var f := if key in s.pending then s.pending[key] else |s.fetches|;
            && r < |t.requests| && t.requests[r].fetch == f && f < |t.fetches| && t.fetches[f].key == key
            && (f < |s.fetches| ==> s.fetches[f].live)
            && (t.requests[r].reply.Some? ==> t.requests[r].reply == t.fetches[f].outcome)
  {
    InvStep(s, Arrive(key));
    RunGrows(Step(s, Arrive(key)), es);
  }

  /** A request is answered with what the upstream said: when its fetch has settled, the callback
      has run and the request resumes, it has exactly that outcome. */
  lemma AnswerArrives(es: seq<Event>, r: nat, outcome: Outcome)
    requires var s := Exec(Init(), es); r < |s.requests| && s.requests[r].fetch < |s.fetches| && s.fetches[s.requests[r].fetch].outcome.None?
    ensures var s := Exec(Init(), es); var f := s.requests[r].fetch;
            var t := Step(Step(Step(s, Settle(f, outcome)), Finally(f)), Deliver(r));
            && r < |t.requests| && t.requests[r] == Request(s.requests[r].key, f, Some(outcome))
            && s.requests[r].key !in t.pending
  {
    InvAlways(es);
  }

  /** A settled fetch never sticks: once its table entry is gone, the next request for the key
      starts a new fetch, and is never answered by the old one. */
  lemma {:induction false} FreshAfterRemoval(s: State, f: nat, key: string, es: seq<Event>)
    requires Inv(s) && f < |s.fetches| && s.fetches[f].live && s.fetches[f].outcome.Some? && key == s.fetches[f].key
    ensures var u := Step(s, Finally(f));
            var t := Exec(Step(u, Arrive(key)), es);
            && |Step(u, Arrive(key)).fetches| == |s.fetches| + 1
            && |s.requests| < |t.requests| && t.requests[|s.requests|].fetch == |s.fetches| != f
  {
    InvStep(s, Finally(f));
    AnsweredByOwnFetch(Step(s, Finally(f)), key, es);
  }

  /** Until then it does: a request arriving between a failure and the callback shares it. */
  lemma LateJoinerSharesFailure(key: string) returns (es: seq<Event>)
    ensures var s := Exec(Init(), es);
            && |s.requests| == 2 && s.requests[1].reply == Some(Failed)
            && |s.fetches| == 1
  {
    var a := Step(Init(), Arrive(key));
    var b := Step(a, Settle(0, Failed));
    var c := Step(b, Arrive(key));
    var d := Step(c, Finally(0));
    es := [Arrive(key), Settle(0, Failed), Arrive(key), Finally(0), Deliver(1)];
    assert es[..1] == [Arrive(key)] && es[..1][..0] == [];
    assert Exec(Init(), es[..1]) == a;
    assert es[..2][..1] == es[..1] && Exec(Init(), es[..2]) == b;
    assert es[..3][..2] == es[..2] && Exec(Init(), es[..3]) == c;
    assert es[..4][..3] == es[..3] && Exec(Init(), es[..4]) == d;
  }
}
