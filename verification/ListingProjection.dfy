/** The idempotent ListingCreated projection of
    services/analytics-service/src/listing-metrics-projection.ts, under duplicate, concurrent,
    failing and crashing deliveries.  An event id is the value its text has as a uuid. */
module ListingProjection {
  import opened Common

  // ----- days

  predicate IsDigit(c: char) {
    '0' <= c <= '9'
  }

  /** The pattern the day has to match after trimming and cutting to ten characters. */
  predicate DayPattern(day: string) {
    && |day| == 10 && day[4] == '-' && day[7] == '-'
    && forall i | i in {0, 1, 2, 3, 5, 6, 8, 9} :: IsDigit(day[i])
  }

  function DayText(listedAt: string): string {
    var t := Trim(listedAt);
    if |t| > 10 then t[..10] else t
  }

  function Digit(c: char): nat
    requires IsDigit(c)
  {
    (c as int) - ('0' as int)
  }

  function Two(day: string, i: nat): nat
    requires i + 1 < |day| && IsDigit(day[i]) && IsDigit(day[i + 1])
  {
    10 * Digit(day[i]) + Digit(day[i + 1])
  }

  function DaysIn(year: nat, month: nat): nat {
    if month in {4, 6, 9, 11} then 30
    else if month != 2 then 31
    else if year % 4 == 0 && (year % 100 != 0 || year % 400 == 0) then 29
    else 28
  }

  /** What the database accepts as a date: the pattern alone does not make one. */
  predicate CalendarDay(day: string) {
    DayPattern(day) &&
    var year, month, dd := 100 * Two(day, 0) + Two(day, 2), Two(day, 5), Two(day, 8);
    year >= 1 && 1 <= month <= 12 && 1 <= dd <= DaysIn(year, month)
  }

  function DigitText(n: nat): (c: char)
    requires n < 10
    ensures IsDigit(c) && Digit(c) == n
  {
    n as char + '0'
  }

  function TwoText(n: nat): (t: string)
    requires n < 100
    ensures |t| == 2
  {
    [DigitText(n / 10), DigitText(n % 10)]
  }

  /** Year, month and day of the month as ISO 8601 writes them. */
  function DayOf(year: nat, month: nat, dd: nat): (t: string)
    requires year < 10000 && month < 100 && dd < 100
    ensures |t| == 10
  {
    TwoText(year / 100) + TwoText(year % 100) + "-" + TwoText(month) + "-" + TwoText(dd)
  }

  /** The figures of a day that has the pattern. */
  lemma DayReads(day: string) returns (year: nat, month: nat, dd: nat)
    requires DayPattern(day)
    ensures year < 10000 && month < 100 && dd < 100 && day == DayOf(year, month, dd)
  {
    var y, y' := Two(day, 0), Two(day, 2);
    year, month, dd := 100 * y + y', Two(day, 5), Two(day, 8);
    TwoReads(day, 0);
    TwoReads(day, 2);
    TwoReads(day, 5);
    TwoReads(day, 8);
    assert year / 100 == y && year % 100 == y';
    DayParts(day);
  }

  lemma DayParts(day: string)
    requires |day| == 10 && day[4] == '-' && day[7] == '-'
    ensures day == day[0..2] + day[2..4] + "-" + day[5..7] + "-" + day[8..10]
  {
  }

  lemma TwoReads(day: string, i: nat)
    requires i + 1 < |day| && IsDigit(day[i]) && IsDigit(day[i + 1])
    ensures Two(day, i) < 100 && TwoText(Two(day, i)) == day[i..i + 2]
  {
    assert DigitText(Digit(day[i])) == day[i] && DigitText(Digit(day[i + 1])) == day[i + 1];
  }

  /** The pattern is that of a written year, month and day, whatever their values; the
      calendar has the day when there is such a month and the month is that long. */
  lemma CalendarDayMeaning(year: nat, month: nat, dd: nat)
    requires year < 10000 && month < 100 && dd < 100
    ensures DayPattern(DayOf(year, month, dd))
    ensures CalendarDay(DayOf(year, month, dd)) <==> year >= 1 && 1 <= month <= 12 && 1 <= dd <= DaysIn(year, month)
  {
    var day := DayOf(year, month, dd);
    assert Two(day, 0) == year / 100 && Two(day, 2) == year % 100;
    assert Two(day, 5) == month && Two(day, 8) == dd;
  }

  lemma PatternIffWritten(day: string)
    ensures DayPattern(day) <==> exists y: nat, m: nat, d: nat :: y < 10000 && m < 100 && d < 100 && day == DayOf(y, m, d)
  {
    if DayPattern(day) {
      var y, m, d := DayReads(day);
    }
    if y: nat, m: nat, d: nat :| y < 10000 && m < 100 && d < 100 && day == DayOf(y, m, d) {
      CalendarDayMeaning(y, m, d);
    }
  }

  lemma {:induction false} LeadingSpace(before: string, s: string)
    requires AllSpace(before)
    ensures Trim(before + s) == Trim(s)
  {
    if before == "" {
      assert before + s == s;
    } else {
      assert before[0] in before && (before + s)[1..] == before[1..] + s;
      LeadingSpace(before[1..], s);
    }
  }

  /** The day of a time stamp is its first ten characters, white space in front aside. */
  lemma DayOfTimestamp(before: string, day: string, rest: string)
    requires AllSpace(before) && DayPattern(day) && (rest == "" || !IsSpace(rest[|rest| - 1]))
    ensures DayText(before + (day + rest)) == day
  {
    LeadingSpace(before, day + rest);
    var t := day + rest;
    assert t[0] == day[0] && t[|t| - 1] == if rest == "" then day[9] else rest[|rest| - 1];
    assert IsDigit(day[0]) && IsDigit(day[9]);
    assert t[..10] == day;
  }

  // ----- deliveries

  datatype Phase =
    | Arrived    // past the checks on its text, before the claim
    | Rejected   // a malformed day
    | Claimed    // between claim and bump
    | Counted
    | Lost       // claimed, and never counted
    | Duplicate  // found the event claimed already
    | GaveUp     // failed or crashed before it claimed anything

  datatype Delivery = Delivery(event: nat, day: string, phase: Phase)

  /** How a database statement can end. */
  datatype Fault = Fine | FailsBefore | ReplyLost

  /** processed_events, with the day of the delivery that claimed each event; daily_metrics. */
  datatype State = State(processed: map<nat, string>, metrics: map<string, nat>, deliveries: seq<Delivery>)

  datatype Event =
    | Deliver(event: nat, listedAt: string)
    | Claim(d: nat, fault: Fault)
    | Bump(d: nat, fault: Fault)
    | Crash(d: nat)

  function Init(): State {
    State(map[], map[], [])
  }

  predicate InPhase(s: State, d: nat, p: Phase) {
    d < |s.deliveries| && s.deliveries[d].phase == p
  }

  function Enter(s: State, d: nat, p: Phase): State
    requires d < |s.deliveries|
  {
    s.(deliveries := s.deliveries[d := s.deliveries[d].(phase := p)])
  }

  function NewListings(s: State, day: string): nat {
    if day in s.metrics then s.metrics[day] else 0
  }

  function Step(s: State, e: Event): State {
    match e
    case Deliver(event, listedAt) =>
      var day := DayText(listedAt);
      s.(deliveries := s.deliveries + [Delivery(event, day, if DayPattern(day) then Arrived else Rejected)])
    case Claim(d, fault) =>
      if !InPhase(s, d, Arrived) then s
      else if fault == FailsBefore then Enter(s, d, GaveUp)
      else if s.deliveries[d].event in s.processed then Enter(s, d, Duplicate)
      else Enter(s, d, if fault == Fine then Claimed else Lost)
           .(processed := s.processed[s.deliveries[d].event := s.deliveries[d].day])
    case Bump(d, fault) =>
      if !InPhase(s, d, Claimed) then s
      else
        var day := s.deliveries[d].day;
        if fault == FailsBefore || !CalendarDay(day) then Enter(s, d, Lost)
        else Enter(s, d, Counted).(metrics := s.metrics[day := NewListings(s, day) + 1])
    case Crash(d) =>
      if InPhase(s, d, Arrived) then Enter(s, d, GaveUp)
      else if InPhase(s, d, Claimed) then Enter(s, d, Lost)
      else s
  }

  function Exec(s: State, es: seq<Event>): State {
    if es == [] then s else Step(Exec(s, es[..|es| - 1]), es[|es| - 1])
  }

  // ----- bookkeeping

  function Tally(ds: seq<Delivery>, day: string, p: Phase): nat {
    if ds == [] then 0
    else
      var d := ds[|ds| - 1];
      Tally(ds[..|ds| - 1], day, p) + if d.day == day && d.phase == p then 1 else 0
  }

  function ClaimTally(ds: seq<Delivery>, day: string): nat {
    if ds == [] then 0
    else
      var d := ds[|ds| - 1];
      ClaimTally(ds[..|ds| - 1], day) + if d.day == day && Claims(d.phase) then 1 else 0
  }

  lemma {:induction false} ClaimTallySplits(ds: seq<Delivery>, day: string)
    ensures ClaimTally(ds, day) == Tally(ds, day, Claimed) + Tally(ds, day, Counted) + Tally(ds, day, Lost)
  {
    if ds != [] {
      ClaimTallySplits(ds[..|ds| - 1], day);
    }
  }

  /** The distinct events claimed for a day. */
  function EventsFor(s: State, day: string): set<nat> {
    set e | e in s.processed && s.processed[e] == day
  }

  ghost predicate Figures(s: State) {
    forall day :: NewListings(s, day) == Tally(s.deliveries, day, Counted)
  }

  /** Each event claimed for a day has its delivery: under way, counted or lost. */
  ghost predicate Accounts(s: State) {
    forall day :: |EventsFor(s, day)| == ClaimTally(s.deliveries, day)
  }

  predicate Claims(p: Phase) {
    p == Claimed || p == Counted || p == Lost
  }

  /** Each event is claimed by one delivery, for that delivery's day. */
  ghost predicate OneClaimEach(s: State) {
    && (forall d | 0 <= d < |s.deliveries| && Claims(s.deliveries[d].phase) ::
          s.deliveries[d].event in s.processed && s.processed[s.deliveries[d].event] == s.deliveries[d].day)
    && (forall c, d | 0 <= c < d < |s.deliveries| && Claims(s.deliveries[c].phase) && Claims(s.deliveries[d].phase) ::
          s.deliveries[c].event != s.deliveries[d].event)
    && (forall d | 0 <= d < |s.deliveries| && s.deliveries[d].phase != Rejected :: DayPattern(s.deliveries[d].day))
    && (forall d | 0 <= d < |s.deliveries| && s.deliveries[d].phase == Duplicate :: s.deliveries[d].event in s.processed)
  }

  ghost predicate Inv(s: State) {
    OneClaimEach(s) && Figures(s) && Accounts(s)
  }

  lemma {:induction false} TallyUpdate(ds: seq<Delivery>, d: nat, p: Phase, day: string)
    requires d < |ds|
    ensures var es := ds[d := ds[d].(phase := p)];
            && (forall q :: Tally(es, day, q) == Tally(ds, day, q)
                  - (if ds[d].day == day && ds[d].phase == q then 1 else 0) + (if ds[d].day == day && p == q then 1 else 0))
            && ClaimTally(es, day) == ClaimTally(ds, day)
                  - (if ds[d].day == day && Claims(ds[d].phase) then 1 else 0) + (if ds[d].day == day && Claims(p) then 1 else 0)
  {
    var n := |ds| - 1;
    var es := ds[d := ds[d].(phase := p)];
    if d < n {
      TallyUpdate(ds[..n], d, p, day);
      assert es[..n] == ds[..n][d := ds[d].(phase := p)];
    } else {
      assert es[..n] == ds[..n];
    }
  }

  lemma TallyAppend(ds: seq<Delivery>, d: Delivery)
    ensures forall day, q :: Tally(ds + [d], day, q) == Tally(ds, day, q) + if d.day == day && d.phase == q then 1 else 0
    ensures forall day :: ClaimTally(ds + [d], day) == ClaimTally(ds, day) + if d.day == day && Claims(d.phase) then 1 else 0
  {
    assert (ds + [d])[..|ds|] == ds;
  }

  lemma ClaimKeepsClaims(s: State, d: nat, p: Phase, t: State)
    requires OneClaimEach(s) && InPhase(s, d, Arrived) && s.deliveries[d].event !in s.processed && (p == Claimed || p == Lost)
    requires t == Enter(s, d, p).(processed := s.processed[s.deliveries[d].event := s.deliveries[d].day])
    ensures OneClaimEach(t)
  {
  }

  lemma ClaimAccount(s: State, d: nat, p: Phase, t: State, day: string)
    requires |EventsFor(s, day)| == ClaimTally(s.deliveries, day) && InPhase(s, d, Arrived) && Claims(p)
    requires s.deliveries[d].event !in s.processed
    requires t.deliveries == s.deliveries[d := s.deliveries[d].(phase := p)]
    requires t.processed == s.processed[s.deliveries[d].event := s.deliveries[d].day]
    ensures |EventsFor(t, day)| == ClaimTally(t.deliveries, day)
  {
    TallyUpdate(s.deliveries, d, p, day);
    NewEvent(s, t, s.deliveries[d].event, s.deliveries[d].day, day);
  }

  lemma NewEvent(s: State, t: State, event: nat, claimed: string, day: string)
    requires event !in s.processed && t.processed == s.processed[event := claimed]
    ensures |EventsFor(t, day)| == |EventsFor(s, day)| + if claimed == day then 1 else 0
  {
    assert EventsFor(t, day) == EventsFor(s, day) + if claimed == day then {event} else {};
    assert event !in EventsFor(s, day);
  }

  lemma ClaimKeepsAccounts(s: State, d: nat, p: Phase, t: State)
    requires Accounts(s) && Figures(s) && InPhase(s, d, Arrived) && s.deliveries[d].event !in s.processed && (p == Claimed || p == Lost)
    requires t == Enter(s, d, p).(processed := s.processed[s.deliveries[d].event := s.deliveries[d].day])
    ensures Accounts(t) && Figures(t)
  {
    forall day ensures NewListings(t, day) == Tally(t.deliveries, day, Counted) {
      assert NewListings(t, day) == NewListings(s, day);
      TallyUpdate(s.deliveries, d, p, day);
    }
    forall day ensures |EventsFor(t, day)| == ClaimTally(t.deliveries, day) {
      ClaimAccount(s, d, p, t, day);
    }
  }

  /** A delivery changes phase without claiming anything. */
  lemma MoveStep(s: State, t: State, d: nat, p: Phase)
    requires Inv(s) && d < |s.deliveries| && s.deliveries[d].phase != Rejected
    requires t.deliveries == s.deliveries[d := s.deliveries[d].(phase := p)] && t.processed == s.processed
    requires p != Rejected && Claims(p) == Claims(s.deliveries[d].phase)
    requires p == Duplicate ==> s.deliveries[d].event in s.processed
    requires s.deliveries[d].phase != Counted
    requires forall day :: NewListings(t, day) == NewListings(s, day) + if p == Counted && day == s.deliveries[d].day then 1 else 0
    ensures Inv(t)
  {
    forall day ensures NewListings(t, day) == Tally(t.deliveries, day, Counted) {
      TallyUpdate(s.deliveries, d, p, day);
      assert NewListings(s, day) == Tally(s.deliveries, day, Counted);
    }
    forall day ensures |EventsFor(t, day)| == ClaimTally(t.deliveries, day) {
      TallyUpdate(s.deliveries, d, p, day);
      assert EventsFor(t, day) == EventsFor(s, day);
    }
  }

  lemma DeliverStep(s: State, event: nat, listedAt: string)
    requires Inv(s)
    ensures Inv(Step(s, Deliver(event, listedAt)))
  {
    var t := Step(s, Deliver(event, listedAt));
    TallyAppend(s.deliveries, t.deliveries[|s.deliveries|]);
    forall day ensures NewListings(t, day) == Tally(t.deliveries, day, Counted) {
      assert NewListings(t, day) == NewListings(s, day);
    }
    forall day ensures |EventsFor(t, day)| == ClaimTally(t.deliveries, day) {
      assert EventsFor(t, day) == EventsFor(s, day);
    }
  }

  lemma ClaimStep(s: State, d: nat, fault: Fault)
    requires Inv(s)
    ensures Inv(Step(s, Claim(d, fault)))
  {
    var t := Step(s, Claim(d, fault));
    if InPhase(s, d, Arrived) {
      if fault == FailsBefore || s.deliveries[d].event in s.processed {
        MoveStep(s, t, d, if fault == FailsBefore then GaveUp else Duplicate);
      } else {
        ClaimKeepsClaims(s, d, if fault == Fine then Claimed else Lost, t);
        ClaimKeepsAccounts(s, d, if fault == Fine then Claimed else Lost, t);
      }
    }
  }

  lemma BumpStep(s: State, d: nat, fault: Fault)
    requires Inv(s)
    ensures Inv(Step(s, Bump(d, fault)))
  {
    if InPhase(s, d, Claimed) {
      MoveStep(s, Step(s, Bump(d, fault)), d, if fault == FailsBefore || !CalendarDay(s.deliveries[d].day) then Lost else Counted);
    }
  }

  lemma CrashStep(s: State, d: nat)
    requires Inv(s)
    ensures Inv(Step(s, Crash(d)))
  {
    if InPhase(s, d, Arrived) {
      MoveStep(s, Step(s, Crash(d)), d, GaveUp);
    } else if InPhase(s, d, Claimed) {
      MoveStep(s, Step(s, Crash(d)), d, Lost);
    }
  }

  lemma InvStep(s: State, e: Event)
    requires Inv(s)
    ensures Inv(Step(s, e))
  {
    match e
    case Deliver(event, listedAt) => DeliverStep(s, event, listedAt);
    case Claim(d, fault) => ClaimStep(s, d, fault);
    case Bump(d, fault) => BumpStep(s, d, fault);
    case Crash(d) => CrashStep(s, d);
  }

  lemma {:induction false} InvAlways(es: seq<Event>)
    ensures Inv(Exec(Init(), es))
  {
    if es != [] {
      InvAlways(es[..|es| - 1]);
      InvStep(Exec(Init(), es[..|es| - 1]), es[|es| - 1]);
    } else {
      assert forall day :: EventsFor(Init(), day) == {};
    }
  }

  /** Under any deliveries, failures and crashes, each day's figure is the number of distinct
      events claimed for it, less those between claim and bump and those lost there. */
  lemma FigureAccounted(es: seq<Event>, day: string)
    ensures var s := Exec(Init(), es);
            NewListings(s, day) == |EventsFor(s, day)| - Tally(s.deliveries, day, Claimed) - Tally(s.deliveries, day, Lost)
  {
    InvAlways(es);
    ClaimTallySplits(Exec(Init(), es).deliveries, day);
  }

  /** No event counts twice. */
  lemma CountedOnce(es: seq<Event>, c: nat, d: nat)
    requires var s := Exec(Init(), es); InPhase(s, c, Counted) && InPhase(s, d, Counted) && s.deliveries[c].event == s.deliveries[d].event
    ensures c == d
  {
    InvAlways(es);
  }

  // ----- runs without faults

  predicate FaultFree(es: seq<Event>) {
    forall e | e in es :: match e
                          case Claim(_, fault) => fault == Fine
                          case Bump(_, fault) => fault == Fine
                          case Crash(_) => false
                          case Deliver(_, _) => true
  }

  /** Nothing is given up, and what is lost is lost to its date. */
  ghost predicate Clean(s: State) {
    && (forall d | 0 <= d < |s.deliveries| :: s.deliveries[d].phase != GaveUp)
    && (forall d | 0 <= d < |s.deliveries| && s.deliveries[d].phase == Lost :: !CalendarDay(s.deliveries[d].day))
    && (forall d | 0 <= d < |s.deliveries| && s.deliveries[d].phase == Counted :: CalendarDay(s.deliveries[d].day))
  }

  lemma CleanStep(s: State, e: Event)
    requires Clean(s) && FaultFree([e])
    ensures Clean(Step(s, e))
  {
    assert e in [e];
  }

  lemma {:induction false} FaultFreeIsClean(es: seq<Event>)
    requires FaultFree(es)
    ensures Clean(Exec(Init(), es))
  {
    if es != [] {
      var n := |es| - 1;
      assert es[n] in es;
      assert forall e | e in es[..n] :: e in es;
      FaultFreeIsClean(es[..n]);
      CleanStep(Exec(Init(), es[..n]), es[n]);
    }
  }

  predicate Quiescent(s: State) {
    forall d | 0 <= d < |s.deliveries| :: s.deliveries[d].phase != Arrived && s.deliveries[d].phase != Claimed
  }

  lemma {:induction false} TallyZero(ds: seq<Delivery>, day: string, p: Phase)
    requires forall d | 0 <= d < |ds| && ds[d].day == day :: ds[d].phase != p
    ensures Tally(ds, day, p) == 0
  {
    if ds != [] {
      TallyZero(ds[..|ds| - 1], day, p);
    }
  }

  /** When everything has come to rest without a fault, every event ever delivered with a
      well-formed day has been claimed; and the events of a day are counted, each once,
      exactly when the calendar has that day.  Otherwise all of them are lost: the claim stands
      and every redelivery is a duplicate. */
  lemma CountedIffCalendarDay(es: seq<Event>, day: string)
    requires FaultFree(es) && Quiescent(Exec(Init(), es)) && DayPattern(day)
    ensures var s := Exec(Init(), es);
            && NewListings(s, day) == (if CalendarDay(day) then |EventsFor(s, day)| else 0)
            && forall d | 0 <= d < |s.deliveries| && s.deliveries[d].phase != Rejected :: s.deliveries[d].event in s.processed
  {
    InvAlways(es);
    FaultFreeIsClean(es);
    var s := Exec(Init(), es);
    ClaimTallySplits(s.deliveries, day);
    TallyZero(s.deliveries, day, Claimed);
    if CalendarDay(day) {
      TallyZero(s.deliveries, day, Lost);
    } else {
      TallyZero(s.deliveries, day, Counted);
    }
  }

  /** Such a day gets past the pattern: the 30th of February. */
  lemma PatternAdmitsImpossibleDay()
    ensures DayPattern("2026-02-30") && !CalendarDay("2026-02-30")
  {
  }

  // ----- the function itself

  /** How a call ends: true, false, or a rejected promise. */
  datatype Outcome = Applied | Skipped | Rejects

  class Tables {
    var processed: map<nat, string>
    var metrics: map<string, nat>
    var deliveries: seq<Delivery>

    ghost function View(): State
      reads this
    {
      State(processed, metrics, deliveries)
    }

    constructor ()
      ensures View() == Init()
    {
      processed, metrics, deliveries := map[], map[], [];
    }

    /** `tryClaimListingEvent`: insert, or do nothing on conflict. */
    method TryClaim(d: nat) returns (claimed: bool)
      requires Inv(View()) && InPhase(View(), d, Arrived)
      modifies this
      ensures Inv(View()) && View() == Step(old(View()), Claim(d, Fine))
      ensures claimed <==> deliveries[d].event !in old(processed)
    {
      ClaimStep(View(), d, Fine);
      var event := deliveries[d].event;
      claimed := event !in processed;
      if claimed {
        processed := processed[event := deliveries[d].day];
      }
      deliveries := deliveries[d := deliveries[d].(phase := if claimed then Claimed else Duplicate)];
    }

    /** `bumpDailyMetricsNewListings`: insert 1, or add 1 on conflict; the statement fails on
        a day that the calendar lacks. */
    method BumpDailyMetrics(d: nat) returns (r: Outcome)
      requires Inv(View()) && InPhase(View(), d, Claimed)
      modifies this
      ensures Inv(View()) && View() == Step(old(View()), Bump(d, Fine))
      ensures r == if CalendarDay(old(deliveries)[d].day) then Applied else Rejects
    {
      BumpStep(View(), d, Fine);
      var day := deliveries[d].day;
      if !CalendarDay(day) {
        deliveries := deliveries[d := deliveries[d].(phase := Lost)];
        return Rejects;
      }
      if day in metrics {
        metrics := metrics[day := metrics[day] + 1];
      } else {
        metrics := metrics[day := 1];
      }
      deliveries := deliveries[d := deliveries[d].(phase := Counted)];
      return Applied;
    }

    /** `applyListingCreatedForAnalytics`, run without interruption.  When the database refuses
        the day, the claim stands and the call rejects. */
    method Apply(event: nat, listedAt: string) returns (r: Outcome)
      requires Inv(View())
      modifies this
      ensures Inv(View())
      ensures r == (if !DayPattern(DayText(listedAt)) || event in old(processed) then Skipped
                    else if CalendarDay(DayText(listedAt)) then Applied
                    else Rejects)
      ensures r == Skipped ==> processed == old(processed)
      ensures r != Skipped ==> processed == old(processed)[event := DayText(listedAt)]
      ensures forall day :: NewListings(View(), day) ==
                            NewListings(old(View()), day) + if r == Applied && day == DayText(listedAt) then 1 else 0
    {
      var day := DayText(listedAt);
      if !DayPattern(day) {
        return Skipped;
      }
      Deliver(event, day, listedAt);
      var claimed := TryClaim(|deliveries| - 1);
      if !claimed {
        return Skipped;
      }
      r := BumpDailyMetrics(|deliveries| - 1);
    }

    /** A delivery has passed the checks on its text. */
    method Deliver(event: nat, day: string, ghost listedAt: string)
      requires Inv(View()) && day == DayText(listedAt) && DayPattern(day)
      modifies this
      ensures Inv(View()) && View() == Step(old(View()), Event.Deliver(event, listedAt))
      ensures deliveries == old(deliveries) + [Delivery(event, day, Arrived)]
    {
      DeliverStep(View(), event, listedAt);
      deliveries := deliveries + [Delivery(event, day, Arrived)];
    }
  }
}
