/** The concurrency guard of services/analytics-service/src/db.ts (booking-read-pool.ts repeats
    it).  `acquire` suspends between being woken and taking its slot, so waking and resuming are
    two events, and anything may happen in between. */
module QueryGuard {
  import opened Common
  import opened WaitQueue

  datatype Phase = Waiting | Woken | Running | Done

  /** Queries are numbered in order of arrival; `tasks` holds the phase of each. */
  datatype State = State(limit: nat, inflight: nat, waiters: seq<nat>, tasks: seq<Phase>)

  datatype Event =
    | Acquire          // a query arrives and runs `acquire` up to its return or its await
    | Resume(id: nat)  // a woken query continues after its await
    | Release(id: nat) // a running query settles and runs `release`

  function Init(limit: nat): State {
    State(limit, 0, [], [])
  }

  predicate Enabled(s: State, e: Event) {
    match e
    case Acquire => true
    case Resume(id) => id < |s.tasks| && s.tasks[id] == Woken
    case Release(id) => id < |s.tasks| && s.tasks[id] == Running
  }

  /** One event; events that cannot happen in a state leave it alone. */
  function Step(s: State, e: Event): State {
    if !Enabled(s, e) then s
    else match e
      case Acquire =>
        if s.inflight < s.limit then s.(inflight := s.inflight + 1, tasks := s.tasks + [Running])
        else s.(waiters := s.waiters + [|s.tasks|], tasks := s.tasks + [Waiting])
      case Resume(id) => s.(inflight := s.inflight + 1, tasks := s.tasks[id := Running])
      case Release(id) =>
        var t := s.(inflight := if s.inflight > 0 then s.inflight - 1 else 0, tasks := s.tasks[id := Done]);
        if t.waiters == [] then t
        else if t.waiters[0] < |t.tasks| then t.(waiters := t.waiters[1..], tasks := t.tasks[t.waiters[0] := Woken])
        else t
  }

  function Exec(s: State, es: seq<Event>): State {
    if es == [] then s else Step(Exec(s, es[..|es| - 1]), es[|es| - 1])
  }

  function Active(s: State): nat {
    Count(s.tasks, Running)
  }

  function Pending(s: State): nat {
    Count(s.tasks, Woken)
  }

  /** Queries that hold a slot or are entitled to take one. */
  function Pressure(s: State): nat {
    Active(s) + Pending(s)
  }

  /** What every event keeps: the counter counts running queries, the waiter list holds the
      waiting queries in order of arrival, and nobody waits beside a free slot. */
  ghost predicate Inv(s: State) {
    && s.inflight == Active(s)
    && Queue(s.waiters, s.tasks, Waiting)
    && (s.waiters != [] ==> Pressure(s) >= s.limit)
  }

  /** The closure state of `attachConcurrencyGuard`; `tasks` is what the callers are doing. */
  class Guard {
    const limit: nat
    var inflight: nat
    var waiters: seq<nat>
    ghost var tasks: seq<Phase>
    var arrivals: nat

    ghost function View(): State
      reads this
    {
      State(limit, inflight, waiters, tasks)
    }

    ghost predicate Valid()
      reads this
    {
      arrivals == |tasks| && Inv(View())
    }

    constructor (limit: nat)
      ensures Valid() && View() == Init(limit)
    {
      this.limit := limit;
      inflight, waiters, tasks, arrivals := 0, [], [], 0;
    }

    /** `acquire` up to its await: true when the slot was taken on the fast path. */
    method Begin() returns (entered: bool)
      requires Valid()
      modifies this
      ensures Valid() && View() == Step(old(View()), Acquire)
      ensures entered <==> tasks[|tasks| - 1] == Running
    {
      InvStep(View(), Acquire);
      entered := inflight < limit;
      if entered {
        inflight := inflight + 1;
        tasks := tasks + [Running];
      } else {
        waiters := waiters + [arrivals];
        tasks := tasks + [Waiting];
      }
      arrivals := arrivals + 1;
    }

    /** `acquire` after its await. */
    method Continue(id: nat)
      requires Valid() && Enabled(View(), Resume(id))
      modifies this
      ensures Valid() && View() == Step(old(View()), Resume(id))
    {
      InvStep(View(), Resume(id));
      inflight := inflight + 1;
      tasks := tasks[id := Running];
    }

    /** `release`.  The clamp at zero never acts. */
    method Leave(id: nat) returns (next: Option<nat>)
      requires Valid() && Enabled(View(), Release(id))
      modifies this
      ensures Valid() && View() == Step(old(View()), Release(id))
      ensures inflight == old(inflight) - 1
      ensures next == if old(waiters) == [] then None else Some(old(waiters)[0])
    {
      ReleaseEffect(View(), id);
      InvStep(View(), Release(id));
      inflight := if inflight - 1 > 0 then inflight - 1 else 0;
      tasks := tasks[id := Done];
      if waiters == [] {
        next := None;
      } else {
        next := Some(waiters[0]);
        tasks := tasks[waiters[0] := Woken];
        waiters := waiters[1..];
      }
    }
  }

  /** What a release does: one query fewer runs, and the first waiter, if any, is woken. */
  lemma ReleaseEffect(s: State, id: nat)
    requires Inv(s) && Enabled(s, Release(id))
    ensures var t, queued := Step(s, Release(id)), s.waiters != [];
            && s.inflight > 0 && t.inflight == s.inflight - 1 == Active(t)
            && Pending(t) == Pending(s) + (if queued then 1 else 0)
            && t.waiters == (if queued then s.waiters[1..] else []) && Queue(t.waiters, t.tasks, Waiting)
            && t.tasks == (if queued then s.tasks[id := Done][s.waiters[0] := Woken] else s.tasks[id := Done])
            && (queued ==> s.waiters[0] < |s.tasks|)
  {
    var done := s.tasks[id := Done];
    CountUpdate(s.tasks, id, Done);
    Update(s.waiters, s.tasks, Waiting, id, Done);
    if s.waiters != [] {
      Shift(s.waiters, done, Waiting, Woken);
      CountUpdate(done, s.waiters[0], Woken);
    }
  }

  lemma ResumeEffect(s: State, id: nat)
    requires Inv(s) && Enabled(s, Resume(id))
    ensures var t := Step(s, Resume(id)); Inv(t) && Pressure(t) == Pressure(s) && Pending(t) == Pending(s) - 1
  {
    CountUpdate(s.tasks, id, Running);
    Update(s.waiters, s.tasks, Waiting, id, Running);
  }

  lemma AcquireEffect(s: State)
    requires Inv(s)
    ensures var t := Step(s, Acquire); Inv(t) && Pressure(t) == Pressure(s) + (if s.inflight < s.limit then 1 else 0)
    ensures Pending(Step(s, Acquire)) == Pending(s)
  {
    if s.inflight < s.limit {
      Append(s.waiters, s.tasks, Waiting, Running);
    } else {
      Push(s.waiters, s.tasks, Waiting);
    }
  }

  lemma InvStep(s: State, e: Event)
    requires Inv(s)
    ensures Inv(Step(s, e))
  {
    if Enabled(s, e) {
      match e
      case Acquire => AcquireEffect(s);
      case Resume(id) => ResumeEffect(s, id);
      case Release(id) => ReleaseEffect(s, id);
    }
  }

  /** In every interleaving the counter is the number of running queries, waiting queries are
      queued in order of arrival, and a non-empty queue means no slot stands free. */
  lemma {:induction false} InvAlways(limit: nat, es: seq<Event>)
    ensures Inv(Exec(Init(limit), es))
  {
    if es != [] {
      InvAlways(limit, es[..|es| - 1]);
      InvStep(Exec(Init(limit), es[..|es| - 1]), es[|es| - 1]);
    }
  }

  // ----- the queue is served in order, one query per release

  /** How many events of a run really release a query. */
  function Releases(s: State, es: seq<Event>): nat {
    if es == [] then 0
    else
      var n := |es| - 1;
      Releases(s, es[..n]) + if es[n].Release? && Enabled(Exec(s, es[..n]), es[n]) then 1 else 0
  }

  /** Where query w stands: still waiting at `place`, or woken at some time before. */
  ghost predicate Stands(s: State, w: nat, place: int) {
    && w < |s.tasks|
    && (place >= 0 ==> place < |s.waiters| && s.waiters[place] == w && s.tasks[w] == Waiting)
    && (place < 0 ==> s.tasks[w] != Waiting)
  }

  lemma StandsRelease(s: State, id: nat, w: nat, place: int)
    requires Inv(s) && Stands(s, w, place) && Enabled(s, Release(id))
    ensures Stands(Step(s, Release(id)), w, place - 1)
  {
    ReleaseEffect(s, id);
    if place > 0 {
      assert Step(s, Release(id)).waiters[place - 1] == w;
      assert s.waiters[0] < s.waiters[place];
    }
  }

  lemma StandsStep(s: State, e: Event, w: nat, place: int)
    requires Inv(s) && Stands(s, w, place)
    ensures Stands(Step(s, e), w, if e.Release? && Enabled(s, e) then place - 1 else place)
  {
    if e.Release? && Enabled(s, e) {
      StandsRelease(s, e.id, w, place);
    }
  }

  lemma StandsNext(s: State, es: seq<Event>, w: nat, place: int)
    requires es != []
    requires var t := Exec(s, es[..|es| - 1]); Inv(t) && Stands(t, w, place - Releases(s, es[..|es| - 1]))
    ensures Inv(Exec(s, es)) && Stands(Exec(s, es), w, place - Releases(s, es))
  {
    var m := |es| - 1;
    InvStep(Exec(s, es[..m]), es[m]);
    StandsStep(Exec(s, es[..m]), es[m], w, place - Releases(s, es[..m]));
  }

  lemma {:induction false} MovesUp(s: State, k: nat, es: seq<Event>)
    requires Inv(s) && k < |s.waiters|
    ensures Inv(Exec(s, es)) && Stands(Exec(s, es), s.waiters[k], k - Releases(s, es))
  {
    if es == [] {
      assert s.waiters[k] in s.waiters;
    } else {
      MovesUp(s, k, es[..|es| - 1]);
      StandsNext(s, es, s.waiters[k], k);
    }
  }

  /** A query queued behind k others waits through k releases, moving up one place at each,
      and is woken at exactly the (k+1)-th, in every run. */
  lemma {:induction false} WokenAtItsRelease(s: State, k: nat, es: seq<Event>)
    requires Inv(s) && k < |s.waiters|
    ensures var t, w, n := Exec(s, es), s.waiters[k], Releases(s, es);
            && w < |t.tasks| && (t.tasks[w] == Waiting <==> n <= k)
            && (n <= k ==> k - n < |t.waiters| && t.waiters[k - n] == w)
  {
    KeepsPlace(s, k, es);
    PlaceOf(Exec(s, es), s.waiters[k], k - Releases(s, es));
  }

  lemma KeepsPlace(s: State, k: nat, es: seq<Event>)
    requires Inv(s) && k < |s.waiters|
    ensures Stands(Exec(s, es), s.waiters[k], k - Releases(s, es))
  {
    MovesUp(s, k, es);
  }

  lemma PlaceOf(t: State, w: nat, place: int)
    requires Stands(t, w, place)
    ensures w < |t.tasks| && (t.tasks[w] == Waiting <==> place >= 0)
    ensures place >= 0 ==> place < |t.waiters| && t.waiters[place] == w
  {
  }

  // ----- when the cap holds

  /** A query takes a slot on the fast path although running and woken queries already
      account for all of them. */
  predicate Overtakes(s: State, e: Event) {
    e == Acquire && s.inflight < s.limit && Pressure(s) >= s.limit
  }

  ghost predicate OvertakingFree(limit: nat, es: seq<Event>) {
    forall k | 0 <= k < |es| :: !Overtakes(Exec(Init(limit), es[..k]), es[k])
  }

  /** Only a fast-path arrival raises the pressure. */
  lemma PressureStep(s: State, e: Event)
    requires Inv(s)
    ensures Pressure(Step(s, e)) <= Pressure(s) + (if e == Acquire && s.inflight < s.limit then 1 else 0)
  {
    if Enabled(s, e) {
      match e
      case Acquire => AcquireEffect(s);
      case Resume(id) => ResumeEffect(s, id);
      case Release(id) => ReleaseEffect(s, id);
    }
  }

  lemma {:induction false} ExecLimit(s: State, es: seq<Event>)
    ensures Exec(s, es).limit == s.limit
  {
    if es != [] {
      ExecLimit(s, es[..|es| - 1]);
    }
  }

  lemma {:induction false} PressureCapped(limit: nat, es: seq<Event>)
    requires OvertakingFree(limit, es)
    ensures Pressure(Exec(Init(limit), es)) <= limit
  {
    if es != [] {
      var n := |es| - 1;
      var s := Exec(Init(limit), es[..n]);
      assert forall k | 0 <= k < n :: es[..n][..k] == es[..k];
      PressureCapped(limit, es[..n]);
      InvAlways(limit, es[..n]);
      PressureStep(s, es[n]);
      ExecLimit(Init(limit), es[..n]);
    }
  }

  ghost predicate Resumptions(es: seq<Event>) {
    forall e | e in es :: e.Resume?
  }

  lemma {:induction false} ResumptionsKeepPressure(s: State, rs: seq<Event>)
    requires Inv(s) && Resumptions(rs)
    ensures Inv(Exec(s, rs)) && Pressure(Exec(s, rs)) == Pressure(s)
  {
    if rs != [] {
      var n := |rs| - 1;
      assert rs[n] in rs;
      ResumptionsKeepPressure(s, rs[..n]);
      if Enabled(Exec(s, rs[..n]), rs[n]) {
        ResumeEffect(Exec(s, rs[..n]), rs[n].id);
      }
    }
  }

  lemma {:induction false} ExecConcat(s: State, es: seq<Event>, fs: seq<Event>)
    ensures Exec(s, es + fs) == Exec(Exec(s, es), fs)
  {
    if fs == [] {
      assert es + fs == es;
    } else {
      var n := |fs| - 1;
      assert (es + fs)[..|es + fs| - 1] == es + fs[..n];
      ExecConcat(s, es, fs[..n]);
    }
  }

  lemma ExecOne(s: State, e: Event, es: seq<Event>)
    ensures Exec(s, [e] + es) == Exec(Step(s, e), es)
  {
    assert [e][..0] == [];
    ExecConcat(s, [e], es);
  }

  /** Letting every woken query resume turns all pressure into running queries. */
  lemma {:induction false} Drain(s: State) returns (rs: seq<Event>)
    requires Inv(s)
    ensures Resumptions(rs) && Inv(Exec(s, rs))
    ensures Exec(s, rs).inflight == Pressure(s) && Pending(Exec(s, rs)) == 0
    ensures Exec(s, rs).limit == s.limit
    decreases Pending(s)
  {
    if Pending(s) == 0 {
      return [];
    }
    var id := CountFind(s.tasks, Woken);
    var e := Resume(id);
    ResumeEffect(s, id);
    rs := Drain(Step(s, e));
    ExecOne(s, e, rs);
    rs := [e] + rs;
  }

  /** The cap holds, however the woken queries are then scheduled, exactly in the runs in
      which no fast-path arrival overtakes: in particular whenever none falls between a wake
      and its resumption. */
  lemma CapIffNoOvertaking(limit: nat, es: seq<Event>)
    ensures OvertakingFree(limit, es) <==>
              forall k, rs | 0 <= k <= |es| && Resumptions(rs) :: Exec(Exec(Init(limit), es[..k]), rs).inflight <= limit
  {
    if OvertakingFree(limit, es) {
      forall k, rs | 0 <= k <= |es| && Resumptions(rs) ensures Exec(Exec(Init(limit), es[..k]), rs).inflight <= limit {
        assert forall j | 0 <= j < k :: es[..k][..j] == es[..j];
        PressureCapped(limit, es[..k]);
        InvAlways(limit, es[..k]);
        ResumptionsKeepPressure(Exec(Init(limit), es[..k]), rs);
      }
    } else {
      var k :| 0 <= k < |es| && Overtakes(Exec(Init(limit), es[..k]), es[k]);
      var s := Exec(Init(limit), es[..k]);
      var t := Step(s, es[k]);
      assert es[..k + 1][..k] == es[..k];
      assert t == Exec(Init(limit), es[..k + 1]);
      InvAlways(limit, es[..k]);
      InvAlways(limit, es[..k + 1]);
      AcquireEffect(s);
      ExecLimit(Init(limit), es[..k]);
      var rs := Drain(t);
      assert Exec(Exec(Init(limit), es[..k + 1]), rs).inflight > limit;
    }
  }

  /** With nobody woken but not yet resumed, no arrival can overtake. */
  lemma QuietArrivalsAreSafe(s: State, e: Event)
    requires Inv(s) && Pending(s) == 0
    ensures !Overtakes(s, e)
  {
  }

  /** A configured limit between 0 and 1 is rounded down to 0, and then no query ever runs. */
  lemma {:induction false} ZeroLimitStalls(es: seq<Event>)
    ensures var t := Exec(Init(0), es); t.limit == 0 && t.inflight == 0 && forall id | 0 <= id < |t.tasks| :: t.tasks[id] == Waiting
  {
    if es != [] {
      ZeroLimitStalls(es[..|es| - 1]);
    }
  }

  // ----- without that condition there is no cap at all

  lemma {:induction false} Enqueue(s: State, n: nat) returns (es: seq<Event>)
    requires Inv(s) && s.inflight >= s.limit
    ensures var t := Exec(s, es); Inv(t) && t.inflight == s.inflight && t.limit == s.limit && |t.waiters| == |s.waiters| + n
    ensures Pending(Exec(s, es)) == Pending(s)
    decreases n
  {
    if n == 0 {
      return [];
    }
    AcquireEffect(s);
    es := Enqueue(Step(s, Acquire), n - 1);
    ExecOne(s, Acquire, es);
    es := [Acquire] + es;
  }

  lemma {:induction false} ReleaseAll(s: State) returns (es: seq<Event>)
    requires Inv(s) && |s.waiters| >= s.inflight
    ensures var t := Exec(s, es); Inv(t) && t.inflight == 0 && t.limit == s.limit && Pending(t) == Pending(s) + s.inflight
    decreases s.inflight
  {
    if s.inflight == 0 {
      return [];
    }
    var id := CountFind(s.tasks, Running);
    var e := Release(id);
    ReleaseEffect(s, id);
    InvStep(s, e);
    es := ReleaseAll(Step(s, e));
    ExecOne(s, e, es);
    es := [e] + es;
  }

  /** One round of wake, overtake, resume ends with one more running query than it began. */
  lemma Round(s: State) returns (es: seq<Event>)
    requires Inv(s) && s.limit >= 1 && s.inflight >= s.limit && Pending(s) == 0
    ensures var t := Exec(s, es); Inv(t) && t.limit == s.limit && t.inflight == s.inflight + 1 && Pending(t) == 0
  {
    var queue := Enqueue(s, s.inflight);
    var a := Exec(s, queue);
    var release := ReleaseAll(a);
    var b := Exec(a, release);
    var c := Step(b, Acquire);
    AcquireEffect(b);
    var resume := Drain(c);
    ExecOne(b, Acquire, resume);
    ExecConcat(s, queue, release);
    ExecConcat(s, queue + release, [Acquire] + resume);
    es := queue + release + ([Acquire] + resume);
  }

  /** Whatever the limit, unless it is 0, some interleaving runs any number of queries at once. */
  lemma {:induction false} NoCapWithoutCondition(limit: nat, n: nat) returns (es: seq<Event>)
    requires limit >= 1
    ensures Exec(Init(limit), es).inflight >= n
    ensures var t := Exec(Init(limit), es); Inv(t) && t.limit == limit && Pending(t) == 0 && t.inflight >= limit
    decreases n
  {
    if n <= limit {
      es := Fill(limit, limit);
    } else {
      var before := NoCapWithoutCondition(limit, n - 1);
      var s := Exec(Init(limit), before);
      if s.inflight >= n {
        return before;
      }
      var round := Round(s);
      ExecConcat(Init(limit), before, round);
      es := before + round;
    }
  }

  lemma {:induction false} Fill(limit: nat, n: nat) returns (es: seq<Event>)
    requires n <= limit
    ensures var t := Exec(Init(limit), es); Inv(t) && t.limit == limit && t.inflight == n && Pending(t) == 0
    decreases n
  {
    if n == 0 {
      return [];
    }
    var before := Fill(limit, n - 1);
    AcquireEffect(Exec(Init(limit), before));
    es := before + [Acquire];
    assert es[..|es| - 1] == before;
  }
}
