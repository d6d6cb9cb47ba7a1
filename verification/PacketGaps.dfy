/** Packet-number accounting: scripts/lib/quic_loss_analyzer.py, and the second, differently
    computed loss figure of scripts/lib/transport_validator.py. */
module PacketGaps {
  import opened Common

  /** A packet seen on the wire: its time stamp and packet number. */
  datatype Packet = Packet(time: real, number: int)

  /** A gap runs from the first missing number to the next number seen. */
  datatype Gap = Gap(expected: int, actual: int)

  // ----- sorted(set(..))

  ghost predicate Increasing(s: seq<int>) {
    forall i, j | 0 <= i < j < |s| :: s[i] < s[j]
  }

  function InsertNumber(x: int, s: seq<int>): (r: seq<int>)
    requires Increasing(s)
    ensures Increasing(r) && Elements(r) == Elements(s) + {x}
  {
    if s == [] then [x]
    else
      HeadBelow(s);
      if x < s[0] then
        Prepend(x, s);
        [x] + s
      else if x == s[0] then s
      else
        var t := InsertNumber(x, s[1..]);
        Prepend(s[0], t);
        [s[0]] + t
  }

  lemma HeadBelow(s: seq<int>)
    requires Increasing(s) && s != []
    ensures Elements(s) == {s[0]} + Elements(s[1..])
    ensures forall y | y in Elements(s[1..]) :: y > s[0]
  {
  }

  lemma Prepend(x: int, t: seq<int>)
    requires Increasing(t) && forall y | y in Elements(t) :: x < y
    ensures Increasing([x] + t) && Elements([x] + t) == {x} + Elements(t)
  {
    assert forall i | 0 <= i < |t| :: t[i] in Elements(t);
  }

  function SortedSet(numbers: seq<int>): (r: seq<int>)
    ensures Increasing(r) && Elements(r) == Elements(numbers)
  {
    if numbers == [] then []
    else
      assert Elements(numbers) == {numbers[0]} + Elements(numbers[1..]);
      InsertNumber(numbers[0], SortedSet(numbers[1..]))
  }

  // ----- gaps

  function GapsOf(s: seq<int>): (r: seq<Gap>)
  {
    if |s| < 2 then []
    else
      var n := |s| - 1;
      GapsOf(s[..n]) + if s[n] > s[n - 1] + 1 then [Gap(s[n - 1] + 1, s[n])] else []
  }

  function Gaps(numbers: seq<int>): seq<Gap> {
    GapsOf(SortedSet(numbers))
  }

  /** `detect_gaps`. */
  method DetectGaps(numbers: seq<int>) returns (gaps: seq<Gap>)
    ensures gaps == Gaps(numbers)
  {
    var sorted := SortedSet(numbers);
    if |numbers| < 2 {
      FewElements(numbers, sorted);
      return [];
    }
    gaps := [];
    assert |sorted| > 0 by { assert numbers[0] in Elements(sorted); }
    for i := 1 to |sorted|
      invariant gaps == GapsOf(sorted[..i])
    {
      var expected, actual := sorted[i - 1] + 1, sorted[i];
      NextGap(sorted, i);
      if actual > expected {
        gaps := gaps + [Gap(expected, actual)];
      }
    }
    assert sorted[..|sorted|] == sorted;
  }

  lemma NextGap(s: seq<int>, i: nat)
    requires 1 <= i < |s|
    ensures GapsOf(s[..i + 1]) == GapsOf(s[..i]) + if s[i] > s[i - 1] + 1 then [Gap(s[i - 1] + 1, s[i])] else []
  {
    assert s[..i + 1][..i] == s[..i];
  }

  lemma FewElements(numbers: seq<int>, sorted: seq<int>)
    requires Increasing(sorted) && Elements(sorted) == Elements(numbers)
    ensures |sorted| <= |numbers|
  {
    DistinctSize(numbers);
    DistinctSize(sorted);
  }

  /** A maximal run of missing numbers between two numbers seen. */
  ghost predicate MissingRun(seen: set<int>, g: Gap) {
    && g.expected < g.actual && g.expected - 1 in seen && g.actual in seen
    && forall x | g.expected <= x < g.actual :: x !in seen
  }

  /** Adding a number x above the maximum m adds at most the run between them. */
  lemma RunsExtend(seen: set<int>, m: int, x: int, g: Gap)
    requires m in seen && x > m && forall y | y in seen :: y <= m
    ensures MissingRun(seen + {x}, g) <==> MissingRun(seen, g) || (g == Gap(m + 1, x) && x > m + 1)
  {
    if MissingRun(seen + {x}, g) && g.actual == x {
      assert g.expected - 1 in seen;
      assert m < g.expected;
    }
  }

  lemma {:induction false} GapsOfExact(s: seq<int>, g: Gap)
    requires Increasing(s)
    ensures g in GapsOf(s) <==> MissingRun(Elements(s), g)
  {
    if |s| >= 2 {
      var n := |s| - 1;
      GapsOfExact(s[..n], g);
      assert Elements(s) == Elements(s[..n]) + {s[n]};
      assert s[..n][n - 1] == s[n - 1];
      RunsExtend(Elements(s[..n]), s[n - 1], s[n], g);
    } else if MissingRun(Elements(s), g) {
      var i, j :| 0 <= i < |s| && 0 <= j < |s| && s[i] == g.expected - 1 && s[j] == g.actual;
    }
  }

  /** The reported gaps are exactly the maximal missing runs between smallest and largest. */
  lemma GapsExact(numbers: seq<int>, g: Gap)
    ensures g in Gaps(numbers) <==> MissingRun(Elements(numbers), g)
  {
    GapsOfExact(SortedSet(numbers), g);
  }

  // ----- two ways to count the loss

  /** `lost_packets_from_gaps`. */
  function LostInGaps(gaps: seq<Gap>): int {
    if gaps == [] then 0 else LostInGaps(gaps[..|gaps| - 1]) + gaps[|gaps| - 1].actual - gaps[|gaps| - 1].expected
  }

  /** All numbers from low to high. */
  ghost function Span(low: int, high: int): (r: set<int>)
    ensures forall x :: x in r <==> low <= x <= high
    ensures low <= high + 1 ==> |r| == high - low + 1
    decreases high - low + 1
  {
    if low > high then {} else Span(low, high - 1) + {high}
  }

  lemma {:induction false} LostTelescopes(s: seq<int>)
    requires Increasing(s) && s != []
    ensures LostInGaps(GapsOf(s)) == s[|s| - 1] - s[0] + 1 - |s|
  {
    if |s| > 1 {
      var n := |s| - 1;
      LostTelescopes(s[..n]);
      var before := GapsOf(s[..n]);
      if s[n] > s[n - 1] + 1 {
        assert (before + [Gap(s[n - 1] + 1, s[n])])[..|before|] == before;
      } else {
        assert before + [] == before;
      }
    }
  }

  /** The step of the transport validator that estimates loss from span and count. */
  method SpanLoss(numbers: seq<int>) returns (lost: int)
    ensures lost == LostInGaps(Gaps(numbers))
  {
    var sorted := SortedSet(numbers);
    lost := 0;
    if |sorted| > 1 {
      LostTelescopes(sorted);
      IncreasingSpan(sorted);
      var expected := sorted[|sorted| - 1] - sorted[0] + 1;
      lost := if expected - |sorted| > 0 then expected - |sorted| else 0;
    }
  }

  lemma {:induction false} IncreasingSpan(s: seq<int>)
    requires Increasing(s) && s != []
    ensures s[|s| - 1] - s[0] + 1 >= |s|
  {
    if |s| > 1 {
      IncreasingSpan(s[..|s| - 1]);
    }
  }

  lemma SortedEnds(s: seq<int>, low: int, high: int)
    requires Increasing(s) && low in s && high in s && forall x | x in s :: low <= x <= high
    ensures s[0] == low && s[|s| - 1] == high
  {
    var i, j := Position(s, low), Position(s, high);
    assert s[0] in s && s[|s| - 1] in s;
  }

  /** The total over the gaps is the number of packet numbers missing from the span: span
      minus distinct count. */
  lemma LostIsMissingCount(numbers: seq<int>, low: int, high: int)
    requires low in numbers && high in numbers && forall x | x in numbers :: low <= x <= high
    ensures LostInGaps(Gaps(numbers)) == |Span(low, high) - Elements(numbers)| == high - low + 1 - |Elements(numbers)|
  {
    var s, seen := SortedSet(numbers), Elements(numbers);
    SameMembers(s, numbers);
    SortedEnds(s, low, high);
    LostTelescopes(s);
    DistinctSize(s);
    SizeOutside(seen, Span(low, high));
  }

  lemma SameMembers(s: seq<int>, numbers: seq<int>)
    requires Elements(s) == Elements(numbers)
    ensures forall x :: x in s <==> x in numbers
  {
    forall x ensures x in s <==> x in numbers {
      assert x in s <==> x in Elements(s);
      assert x in numbers <==> x in Elements(numbers);
    }
  }

  lemma SizeOutside(part: set<int>, whole: set<int>)
    requires part <= whole
    ensures |whole - part| == |whole| - |part|
  {
    assert whole == part + (whole - part);
  }

  // ----- reordering

  /** A packet arrives after one with a larger number. */
  ghost predicate Inversion(packets: seq<Packet>) {
    exists i, j :: 0 <= i < j < |packets| && packets[j].number < packets[i].number
  }

  /** When reordering is reported.  The running maximum starts at -1, so a number below -1
      counts as reordered even when nothing larger came before it. */
  ghost predicate ReportsReordering(packets: seq<Packet>) {
    |packets| >= 2 && (Inversion(packets) || exists j :: 0 <= j < |packets| && packets[j].number < -1)
  }

  /** For real packet numbers, which are not negative, that is: exactly on an inversion. */
  lemma ReorderingIffInversion(packets: seq<Packet>)
    requires forall i | 0 <= i < |packets| :: packets[i].number >= 0
    ensures ReportsReordering(packets) <==> Inversion(packets)
  {
  }

  /** `detect_reordering`. */
  method DetectReordering(packets: seq<Packet>) returns (r: bool)
    ensures r <==> ReportsReordering(packets)
  {
    if |packets| < 2 {
      return false;
    }
    var maxSeen := -1;
    for k := 0 to |packets|
      invariant maxSeen >= -1 && (maxSeen == -1 || exists i :: 0 <= i < k && packets[i].number == maxSeen)
      invariant forall i | 0 <= i < k :: packets[i].number <= maxSeen
      invariant forall i | 0 <= i < k :: packets[i].number >= -1
      invariant forall i, j | 0 <= i < j < k :: packets[i].number <= packets[j].number
    {
      if packets[k].number < maxSeen {
        return true;
      }
      maxSeen := if packets[k].number > maxSeen then packets[k].number else maxSeen;
    }
    return false;
  }

  // ----- bursts

  function Numbers(packets: seq<Packet>): (r: seq<int>)
    ensures |r| == |packets| && forall i | 0 <= i < |r| :: r[i] == packets[i].number
  {
    seq(|packets|, i requires 0 <= i < |packets| => packets[i].number)
  }

  /** The table of time stamps by packet number; a repeated number keeps its last time. */
  function TimeByNumber(packets: seq<Packet>): (m: map<int, real>)
    ensures m.Keys == Elements(Numbers(packets))
  {
    if packets == [] then map[]
    else
      var n := |packets| - 1;
      assert Numbers(packets) == Numbers(packets[..n]) + [packets[n].number];
      TimeByNumber(packets[..n])[packets[n].number := packets[n].time]
  }

  /** The table holds the time of the last packet with a number, and no other number. */
  lemma {:induction false} TimeOfLast(packets: seq<Packet>, i: int, number: int)
    requires -1 <= i < |packets| && (i >= 0 ==> packets[i].number == number)
    requires forall k | i < k < |packets| :: packets[k].number != number
    ensures if i >= 0 then number in TimeByNumber(packets) && TimeByNumber(packets)[number] == packets[i].time
            else number !in TimeByNumber(packets)
  {
    if packets != [] && i < |packets| - 1 {
      TimeOfLast(packets[..|packets| - 1], i, number);
      assert Numbers(packets) == Numbers(packets[..|packets| - 1]) + [packets[|packets| - 1].number];
    }
  }

  /** The time looked up for a gap: its first lost number or else its last; a time of zero
      counts as absent in the first look-up. */
  function GapTime(times: map<int, real>, g: Gap): Option<real> {
    if g.expected in times && times[g.expected] != 0.0 then Some(times[g.expected])
    else if g.actual - 1 in times then Some(times[g.actual - 1])
    else None
  }

  const BURST_WINDOW_SEC := 0.01

  /** Two times are close when they are at most a hundredth of a second apart, either way. */
  lemma CloseMeaning(a: Option<real>, b: Option<real>)
    ensures Close(a, b) <==> a.Some? && b.Some? && 100.0 * (a.value - b.value) <= 1.0 && 100.0 * (b.value - a.value) <= 1.0
  {
  }

  predicate Close(a: Option<real>, b: Option<real>) {
    a.Some? && b.Some? && -BURST_WINDOW_SEC <= a.value - b.value <= BURST_WINDOW_SEC
  }

  /** `detect_burst_loss`. */
  method DetectBurstLoss(packets: seq<Packet>, gaps: seq<Gap>) returns (r: bool)
    ensures r <==> (exists i, j :: 0 <= i < j < |gaps| && Close(GapTime(TimeByNumber(packets), gaps[i]),
                                                                GapTime(TimeByNumber(packets), gaps[j])))
  {
    if |gaps| < 2 {
      return false;
    }
    var times := TimeByNumber(packets);
    for i := 0 to |gaps|
      invariant forall a, b | 0 <= a < i && a < b < |gaps| :: !Close(GapTime(times, gaps[a]), GapTime(times, gaps[b]))
    {
      for j := i + 1 to |gaps|
        invariant forall b | i < b < j :: !Close(GapTime(times, gaps[i]), GapTime(times, gaps[b]))
      {
        var t1, t2 := GapTime(times, gaps[i]), GapTime(times, gaps[j]);
        if Close(t1, t2) {
          return true;
        }
      }
    }
    return false;
  }

  /** Every number that `detect_burst_loss` looks up for a real gap is missing from the trace. */
  lemma GapTimesAbsent(packets: seq<Packet>, g: Gap)
    requires g in Gaps(Numbers(packets))
    ensures GapTime(TimeByNumber(packets), g) == None
  {
    GapsExact(Numbers(packets), g);
  }

  datatype LossProfile = LossProfile(total: nat, gapEvents: nat, lost: int, reordered: bool, burst: bool)

  /** `analyze` on an already extracted trace.  Burst loss is never reported: the detector is
      dead as called here. */
  method Analyze(packets: seq<Packet>) returns (p: LossProfile)
    ensures p.total == |packets| && p.gapEvents == |Gaps(Numbers(packets))|
    ensures p.lost == LostInGaps(Gaps(Numbers(packets)))
    ensures p.reordered <==> ReportsReordering(packets)
    ensures !p.burst
  {
    if |packets| == 0 {
      assert Gaps(Numbers(packets)) == [];
      return LossProfile(0, 0, 0, false, false);
    }
    var gaps := DetectGaps(Numbers(packets));
    var reordered := DetectReordering(packets);
    var burst := DetectBurstLoss(packets, gaps);
    forall i | 0 <= i < |gaps| ensures GapTime(TimeByNumber(packets), gaps[i]) == None {
      GapTimesAbsent(packets, gaps[i]);
    }
    p := LossProfile(|packets|, |gaps|, LostInGaps(gaps), reordered, burst);
  }
}
