/** Micro-batching in services/ollama-gateway/server.js: prompts are queued, a timer flushes
    the queue into one upstream request, and the lines of its answer are dealt out. */
module BatchQueue {
  import opened Common

  // ----- dealing out the answer

  /** `split('\n')`. */
  function SplitLines(s: string): (r: seq<string>)
    ensures r != []
  {
    if s == "" then [""]
    else
      var rest := SplitLines(s[1..]);
      if s[0] == '\n' then [""] + rest else [[s[0]] + rest[0]] + rest[1..]
  }

  /** What one job is resolved with: a line of the answer, or the whole of it, or whatever
      stood where the answer should have been. */
  datatype Answer = Line(text: string) | Whole(response: Option<string>) | Rejected

  function Parts(response: Option<string>): seq<string> {
    SplitLines(if response.Some? then response.value else "")
  }

  function Dealt(response: Option<string>, i: nat): Answer {
    if i < |Parts(response)| then Line(Parts(response)[i]) else Whole(response)
  }

  lemma {:induction false} SplitFirst(l: string, rest: string)
    requires '\n' !in l
    ensures SplitLines(l + "\n" + rest) == [l] + SplitLines(rest)
    ensures SplitLines(l) == [l]
  {
    var s := l + "\n" + rest;
    if l == "" {
      assert s[1..] == rest;
    } else {
      assert s[1..] == l[1..] + "\n" + rest;
      SplitFirst(l[1..], rest);
      assert [l[0]] + l[1..] == l;
    }
  }

  lemma {:induction false} SplitInvertsJoin(lines: seq<string>)
    requires lines != [] && forall l | l in lines :: '\n' !in l
    ensures SplitLines(Join(lines, "\n")) == lines
  {
    if |lines| == 1 {
      SplitFirst(lines[0], "");
      assert lines == [lines[0]];
    } else {
      SplitFirst(lines[0], Join(lines[1..], "\n"));
      SplitInvertsJoin(lines[1..]);
      assert lines == [lines[0]] + lines[1..];
    }
  }

  lemma {:induction false} JoinInvertsSplit(s: string)
    ensures Join(SplitLines(s), "\n") == s
    ensures forall l | l in SplitLines(s) :: '\n' !in l
  {
    if s != "" {
      JoinInvertsSplit(s[1..]);
      var rest := SplitLines(s[1..]);
      assert s == [s[0]] + s[1..];
      if s[0] != '\n' && |rest| > 1 {
        assert SplitLines(s)[1..] == rest[1..];
        assert ([s[0]] + rest[0]) + "\n" + Join(rest[1..], "\n") == [s[0]] + (rest[0] + "\n" + Join(rest[1..], "\n"));
      }
    }
  }

  /** When the model answers with newline-free lines, job i gets line i; and answers in that
      form are all there are: any answer is the join of exactly one such list. */
  lemma JobGetsItsLine(lines: seq<string>, response: string)
    requires lines != [] && forall l | l in lines :: '\n' !in l
    ensures response == Join(lines, "\n") <==> SplitLines(response) == lines
    ensures response == Join(lines, "\n") ==> forall i: nat :: Dealt(Some(response), i) == if i < |lines| then Line(lines[i]) else Whole(Some(response))
  {
    SplitInvertsJoin(lines);
    JoinInvertsSplit(response);
  }

  lemma SplitCons(c: char, s: string)
    ensures var rest := SplitLines(s);
            SplitLines([c] + s) == if c == '\n' then [""] + rest else [[c] + rest[0]] + rest[1..]
  {
    assert ([c] + s)[1..] == s;
  }

  lemma FirstOfConcat(c: char, a: seq<string>, b: seq<string>)
    requires a != []
    ensures [[c] + (a + b)[0]] + (a + b)[1..] == ([[c] + a[0]] + a[1..]) + b
    ensures [""] + (a + b) == ([""] + a) + b
  {
  }

  lemma {:induction false} SplitConcat(l: string, rest: string)
    ensures SplitLines(l + "\n" + rest) == SplitLines(l) + SplitLines(rest)
    ensures |SplitLines(l)| == 1 <==> '\n' !in l
  {
    if l == "" {
      SplitCons('\n', rest);
      assert l + "\n" + rest == ['\n'] + rest;
    } else {
      var tail := l[1..] + "\n" + rest;
      SplitConcat(l[1..], rest);
      SplitCons(l[0], tail);
      SplitCons(l[0], l[1..]);
      FirstOfConcat(l[0], SplitLines(l[1..]), SplitLines(rest));
      TakeFirst(l, rest);
    }
  }

  lemma TakeFirst(l: string, rest: string)
    requires l != ""
    ensures l == [l[0]] + l[1..] && l + "\n" + rest == [l[0]] + (l[1..] + "\n" + rest)
    ensures '\n' in l <==> l[0] == '\n' || '\n' in l[1..]
  {
    assert l == [l[0]] + l[1..];
  }

  /** The merged prompt has one line for each prompt of the batch exactly when no prompt
      holds a line feed; otherwise it has more lines than there are jobs. */
  lemma {:induction false} MergedPromptLines(prompts: seq<string>)
    requires prompts != []
    ensures |SplitLines(Join(prompts, "\n"))| >= |prompts|
    ensures |SplitLines(Join(prompts, "\n"))| == |prompts| <==> forall p | p in prompts :: '\n' !in p
  {
    SplitConcat(prompts[0], Join(prompts[1..], "\n"));
    if |prompts| == 1 {
      assert prompts == [prompts[0]];
    } else {
      MergedPromptLines(prompts[1..]);
      assert prompts == [prompts[0]] + prompts[1..];
    }
  }

  // ----- the queue

  datatype Settled = Settled(job: nat, answer: Answer)

  /** Jobs are numbered in order of arrival. */
  datatype State = State(arrivals: nat, queue: seq<nat>, timer: bool, batch: Option<seq<nat>>, settled: seq<Settled>)

  datatype Event =
    | Enqueue                            // a request queues its prompt and schedules a flush
    | TimerFires
    | Reply(response: Option<string>)    // the upstream answers the batch in flight
    | Fails                              // or the request, or reading its answer, throws

  function Init(): State {
    State(0, [], false, None, [])
  }

  function Deal(batch: seq<nat>, response: Option<string>): (r: seq<Settled>)
    ensures |r| == |batch| && forall i | 0 <= i < |r| :: r[i] == Settled(batch[i], Dealt(response, i))
  {
    seq(|batch|, i requires 0 <= i < |batch| => Settled(batch[i], Dealt(response, i)))
  }

  function Reject(batch: seq<nat>): (r: seq<Settled>)
    ensures |r| == |batch| && forall i | 0 <= i < |r| :: r[i] == Settled(batch[i], Rejected)
  {
    seq(|batch|, i requires 0 <= i < |batch| => Settled(batch[i], Rejected))
  }

  function Step(s: State, e: Event): State {
    match e
    case Enqueue => s.(arrivals := s.arrivals + 1, queue := s.queue + [s.arrivals], timer := true)
    case TimerFires =>
      if !s.timer then s
      else if s.batch.Some? || s.queue == [] then s.(timer := false)
      else s.(timer := false, batch := Some(s.queue), queue := [])
    case Reply(response) =>
      if s.batch.None? then s else s.(batch := None, settled := s.settled + Deal(s.batch.value, response))
    case Fails =>
      if s.batch.None? then s else s.(batch := None, settled := s.settled + Reject(s.batch.value))
  }

  function Exec(s: State, es: seq<Event>): State {
    if es == [] then s else Step(Exec(s, es[..|es| - 1]), es[|es| - 1])
  }

  function Jobs(settled: seq<Settled>): (r: seq<nat>)
    ensures |r| == |settled| && forall i | 0 <= i < |r| :: r[i] == settled[i].job
  {
    seq(|settled|, i requires 0 <= i < |settled| => settled[i].job)
  }

  function InFlight(s: State): seq<nat> {
    if s.batch.Some? then s.batch.value else []
  }

  /** All jobs, in the order settled, in flight, queued. */
  function All(s: State): seq<nat> {
    Jobs(s.settled) + InFlight(s) + s.queue
  }

  /** Settled jobs, the batch in flight and the queue, read in this order, are all jobs that
      ever arrived, once each, in order of arrival. */
  ghost predicate Conserved(s: State) {
    |All(s)| == s.arrivals && forall i | 0 <= i < |All(s)| :: All(s)[i] == i
  }

  /** The module state, as the functions of the source change it. */
  class Batcher {
    var batchQueue: seq<nat>
    var batchTimer: bool
    var batchFlushing: bool
    var batch: seq<nat>
    var arrivals: nat
    var settled: seq<Settled>

    ghost function View(): State
      reads this
    {
      State(arrivals, batchQueue, batchTimer, if batchFlushing then Some(batch) else None, settled)
    }

    constructor ()
      ensures View() == Init()
    {
      batchQueue, batchTimer, batchFlushing, batch, arrivals, settled := [], false, false, [], 0, [];
    }

    /** Queue a job and call `scheduleBatchFlush`. */
    method Enqueue() returns (job: nat)
      requires Conserved(View())
      modifies this
      ensures Conserved(View()) && View() == Step(old(View()), Event.Enqueue) && job == old(arrivals)
    {
      ConservedStep(View(), Event.Enqueue);
      job := arrivals;
      arrivals := arrivals + 1;
      batchQueue := batchQueue + [job];
      if !batchTimer {
        batchTimer := true;
      }
    }

    /** The timer callback, and `flushBatchQueue` up to its await. */
    method OnTimer()
      requires Conserved(View()) && batchTimer
      modifies this
      ensures Conserved(View()) && View() == Step(old(View()), TimerFires)
    {
      ConservedStep(View(), TimerFires);
      batchTimer := false;
      if batchFlushing || |batchQueue| == 0 {
        return;
      }
      batchFlushing := true;
      batch := batchQueue;
      batchQueue := [];
    }

    /** `flushBatchQueue` after its awaits: resolve every job of the batch in order. */
    method OnReply(response: Option<string>)
      requires Conserved(View()) && batchFlushing
      modifies this
      ensures Conserved(View()) && View() == Step(old(View()), Reply(response))
    {
      var dealt := Resolve(batch, response);
      ConservedStep(View(), Reply(response));
      settled := settled + dealt;
      batchFlushing := false;
    }

    /** The catch branch of `flushBatchQueue`: reject every job of the batch in order. */
    method OnFailure()
      requires Conserved(View()) && batchFlushing
      modifies this
      ensures Conserved(View()) && View() == Step(old(View()), Fails)
      ensures |settled| == |old(settled)| + |old(batch)|
      ensures forall i | 0 <= i < |old(batch)| :: settled[|old(settled)| + i] == Settled(old(batch)[i], Rejected)
    {
      var rejected := RejectAll(batch);
      ConservedStep(View(), Fails);
      settled := settled + rejected;
      batchFlushing := false;
    }
  }

  method RejectAll(batch: seq<nat>) returns (rejected: seq<Settled>)
    ensures rejected == Reject(batch)
  {
    rejected := [];
    for i := 0 to |batch|
      invariant |rejected| == i && forall k | 0 <= k < i :: rejected[k] == Settled(batch[k], Rejected)
    {
      rejected := rejected + [Settled(batch[i], Rejected)];
    }
  }

  /** The loop that resolves the jobs of a batch. */
  method Resolve(batch: seq<nat>, response: Option<string>) returns (dealt: seq<Settled>)
    ensures dealt == Deal(batch, response)
  {
    var parts := SplitLines(if response.Some? then response.value else "");
    dealt := [];
    for i := 0 to |batch|
      invariant |dealt| == i && forall k | 0 <= k < i :: dealt[k] == Settled(batch[k], Dealt(response, k))
    {
      dealt := dealt + [Settled(batch[i], if i < |parts| then Line(parts[i]) else Whole(response))];
    }
  }

  lemma JobsConcat(a: seq<Settled>, b: seq<Settled>)
    ensures Jobs(a + b) == Jobs(a) + Jobs(b)
  {
  }

  lemma SettleBatch(s: State, dealt: seq<Settled>)
    requires s.batch.Some? && Jobs(dealt) == s.batch.value
    ensures All(s.(batch := None, settled := s.settled + dealt)) == All(s)
  {
    JobsConcat(s.settled, dealt);
    assert Jobs(s.settled + dealt) + [] == Jobs(s.settled) + s.batch.value;
  }

  lemma FlushQueue(s: State)
    requires s.batch.None?
    ensures All(s.(timer := false, batch := Some(s.queue), queue := [])) == All(s)
  {
    assert (Jobs(s.settled) + s.queue) + [] == (Jobs(s.settled) + []) + s.queue;
  }

  lemma ConservedStep(s: State, e: Event)
    requires Conserved(s)
    ensures Conserved(Step(s, e))
  {
    match e
    case Enqueue =>
      assert All(Step(s, e)) == All(s) + [s.arrivals];
    case TimerFires =>
      if s.batch.None? {
        FlushQueue(s);
      }
    case Reply(response) =>
      if s.batch.Some? {
        assert Jobs(Deal(s.batch.value, response)) == s.batch.value;
        SettleBatch(s, Deal(s.batch.value, response));
      }
    case Fails =>
      if s.batch.Some? {
        assert Jobs(Reject(s.batch.value)) == s.batch.value;
        SettleBatch(s, Reject(s.batch.value));
      }
  }

  /** Every job is in exactly one of queue, batch in flight and settled, settles once, and
      jobs settle in order of arrival. */
  lemma {:induction false} ConservedAlways(es: seq<Event>)
    ensures Conserved(Exec(Init(), es))
  {
    if es != [] {
      ConservedAlways(es[..|es| - 1]);
      ConservedStep(Exec(Init(), es[..|es| - 1]), es[|es| - 1]);
    }
  }

  /** The k-th settlement is that of job k, at whatever time it is looked at. */
  lemma {:induction false} SettlesInOrder(es: seq<Event>, k: nat)
    requires k < |Exec(Init(), es).settled|
    ensures Exec(Init(), es).settled[k].job == k
  {
    ConservedAlways(es);
    var s := Exec(Init(), es);
    assert All(s)[k] == Jobs(s.settled)[k];
  }

  /** The i-th job of the batch in flight is the one that settles i places further on. */
  lemma BatchPlace(es: seq<Event>, i: nat)
    requires var s := Exec(Init(), es); s.batch.Some? && i < |s.batch.value|
    ensures var s := Exec(Init(), es); s.batch.value[i] == |s.settled| + i
  {
    ConservedAlways(es);
    var s := Exec(Init(), es);
    assert All(s)[|s.settled| + i] == s.batch.value[i];
  }

  /** Whatever happened before, each job of a batch is settled with its own line of the answer,
      and those for which there is no line with the whole of it. */
  lemma BatchGetsItsLines(es: seq<Event>, lines: seq<string>, i: nat)
    requires var b := Exec(Init(), es).batch; b.Some? && i < |b.value|
    requires lines != [] && forall l | l in lines :: '\n' !in l
    ensures var s := Exec(Init(), es);
            var response := Some(Join(lines, "\n"));
            var t := Step(s, Reply(response));
            && s.batch.value[i] < |t.settled|
            && t.settled[s.batch.value[i]] ==
                 Settled(s.batch.value[i], if i < |lines| then Line(lines[i]) else Whole(response))
  {
    BatchPlace(es, i);
    JobGetsItsLine(lines, Join(lines, "\n"));
  }

  /** Without a response the first job is settled with an empty line, the others with nothing. */
  lemma AbsentResponse(es: seq<Event>, i: nat)
    requires var b := Exec(Init(), es).batch; b.Some? && i < |b.value|
    ensures var s := Exec(Init(), es);
            var t := Step(s, Reply(None));
            && s.batch.value[i] < |t.settled|
            && t.settled[s.batch.value[i]] == Settled(s.batch.value[i], if i == 0 then Line("") else Whole(None))
  {
    BatchPlace(es, i);
  }

  /** When the upstream fails, each job of the batch is rejected. */
  lemma FailureRejectsBatch(es: seq<Event>, i: nat)
    requires var b := Exec(Init(), es).batch; b.Some? && i < |b.value|
    ensures var s := Exec(Init(), es);
            var t := Step(s, Fails);
            && s.batch.value[i] < |t.settled| && t.batch == None
            && t.settled[s.batch.value[i]] == Settled(s.batch.value[i], Rejected)
  {
    BatchPlace(es, i);
  }

  lemma {:induction false} SettledSoFar(es: seq<Event>, m: nat)
    requires m <= |es|
    ensures Exec(Init(), es[..m]).settled <= Exec(Init(), es).settled
  {
    if m < |es| {
      assert es[..|es| - 1][..m] == es[..m];
      SettledSoFar(es[..|es| - 1], m);
    } else {
      assert es[..m] == es;
    }
  }

  /** The event that settled job k, and how: a job is rejected exactly when its batch ended
      with a failure, and otherwise the upstream had replied. */
  lemma {:induction false} SettledBy(es: seq<Event>, k: nat) returns (m: nat)
    requires k < |Exec(Init(), es).settled|
    ensures m < |es| && |Exec(Init(), es[..m]).settled| <= k < |Exec(Init(), es[..m + 1]).settled|
    ensures es[m] == Fails || es[m].Reply?
    ensures Exec(Init(), es).settled[k].answer == Rejected <==> es[m] == Fails
  {
    var n := |es| - 1;
    var s := Exec(Init(), es[..n]);
    if k < |s.settled| {
      m := SettledBy(es[..n], k);
      assert es[..n][..m] == es[..m] && es[..n][..m + 1] == es[..m + 1];
      SettledSoFar(es, n);
    } else {
      m := n;
      assert es[..n + 1] == es;
    }
  }

  /** A settlement is final. */
  lemma {:induction false} SettledForGood(s: State, es: seq<Event>)
    ensures s.settled <= Exec(s, es).settled
  {
    if es != [] {
      SettledForGood(s, es[..|es| - 1]);
    }
  }

  // ----- jobs left behind

  /** Queued jobs that no timer will ever flush. */
  predicate Stranded(s: State) {
    s.queue != [] && !s.timer
  }

  /** The timer fires while a batch is in flight: the flush gives up and nothing reschedules it. */
  predicate FlushSkipped(s: State, e: Event) {
    e == TimerFires && s.timer && s.batch.Some? && s.queue != []
  }

  lemma StrandedStep(s: State, e: Event)
    requires !Stranded(s)
    ensures Stranded(Step(s, e)) <==> FlushSkipped(s, e)
  {
  }

  lemma {:induction false} NeverStranded(es: seq<Event>)
    requires forall k | 0 <= k < |es| :: !FlushSkipped(Exec(Init(), es[..k]), es[k])
    ensures !Stranded(Exec(Init(), es))
  {
    if es != [] {
      var n := |es| - 1;
      assert forall k | 0 <= k < n :: es[..n][..k] == es[..k];
      NeverStranded(es[..n]);
      StrandedStep(Exec(Init(), es[..n]), es[n]);
    }
  }

  /** Jobs are at some moment left in the queue with no flush to come exactly when a timer
      fires during a flush that jobs have queued behind. */
  lemma StrandedIffFlushSkipped(es: seq<Event>)
    ensures (forall k | 0 <= k <= |es| :: !Stranded(Exec(Init(), es[..k])))
       <==> (forall k | 0 <= k < |es| :: !FlushSkipped(Exec(Init(), es[..k]), es[k]))
  {
    if forall k | 0 <= k < |es| :: !FlushSkipped(Exec(Init(), es[..k]), es[k]) {
      forall k | 0 <= k <= |es| ensures !Stranded(Exec(Init(), es[..k])) {
        assert forall j | 0 <= j < k :: es[..k][..j] == es[..j];
        NeverStranded(es[..k]);
      }
    }
    if forall k | 0 <= k <= |es| :: !Stranded(Exec(Init(), es[..k])) {
      forall k | 0 <= k < |es| ensures !FlushSkipped(Exec(Init(), es[..k]), es[k]) {
        assert es[..k + 1][..k] == es[..k];
        StrandedStep(Exec(Init(), es[..k]), es[k]);
      }
    }
  }

  /** Such jobs stay where they are, through every reply and timer, until another request
      happens to arrive. */
  lemma {:induction false} StrandedUntilNextArrival(s: State, es: seq<Event>)
    requires Stranded(s) && forall e | e in es :: e != Enqueue
    ensures Stranded(Exec(s, es)) && Exec(s, es).queue == s.queue
  {
    if es != [] {
      var n := |es| - 1;
      assert es[n] in es;
      assert forall e | e in es[..n] :: e in es;
      StrandedUntilNextArrival(s, es[..n]);
    }
  }

  /** It takes two requests to leave one behind. */
  lemma SecondRequestStranded() returns (es: seq<Event>)
    ensures var s := Exec(Init(), es); Stranded(s) && s.arrivals == 2 && |s.settled| == 1 && s.batch == None
  {
    es := Extend([], Enqueue);
    assert Exec(Init(), es).queue == [0];
    es := Extend(es, TimerFires);
    assert Exec(Init(), es) == State(1, [], false, Some([0]), []);
    es := Extend(es, Enqueue);
    es := Extend(es, TimerFires);
    es := Extend(es, Reply(None));
  }

  lemma Extend(es: seq<Event>, e: Event) returns (fs: seq<Event>)
    ensures Exec(Init(), fs) == Step(Exec(Init(), es), e)
  {
    fs := es + [e];
    assert fs[..|es|] == es;
  }
}
