/** Numbered tasks with a phase each, and a first-in first-out queue of those that wait. */
module WaitQueue {

  /** `ws` lists, in order of arrival, exactly the tasks whose phase is `waiting`. */
  ghost predicate Queue<P(!new)>(ws: seq<nat>, phases: seq<P>, waiting: P) {
    && (forall i, j | 0 <= i < j < |ws| :: ws[i] < ws[j])
    && (forall i | 0 <= i < |ws| :: ws[i] < |phases|)
    && (forall id | 0 <= id < |phases| :: phases[id] == waiting <==> id in ws)
  }

  function Count<P(==)>(phases: seq<P>, p: P): nat {
    multiset(phases)[p]
  }

  lemma Push<P(!new)>(ws: seq<nat>, phases: seq<P>, waiting: P)
    requires Queue(ws, phases, waiting)
    ensures Queue(ws + [|phases|], phases + [waiting], waiting)
  {
  }

  lemma Append<P(!new)>(ws: seq<nat>, phases: seq<P>, waiting: P, p: P)
    requires Queue(ws, phases, waiting) && p != waiting
    ensures Queue(ws, phases + [p], waiting)
  {
    assert forall id | id in ws :: id < |phases|;
  }

  lemma Update<P(!new)>(ws: seq<nat>, phases: seq<P>, waiting: P, id: nat, p: P)
    requires Queue(ws, phases, waiting) && id < |phases| && phases[id] != waiting && p != waiting
    ensures Queue(ws, phases[id := p], waiting)
  {
  }

  lemma Shift<P(!new)>(ws: seq<nat>, phases: seq<P>, waiting: P, p: P)
    requires Queue(ws, phases, waiting) && ws != [] && p != waiting
    ensures ws[0] < |phases| && phases[ws[0]] == waiting
    ensures Queue(ws[1..], phases[ws[0] := p], waiting)
  {
    assert ws[0] in ws;
    assert ws == [ws[0]] + ws[1..];
  }

  lemma CountAppend<P>(phases: seq<P>, p: P)
    ensures forall q :: Count(phases + [p], q) == Count(phases, q) + if q == p then 1 else 0
  {
    assert multiset(phases + [p]) == multiset(phases) + multiset{p};
  }

  lemma CountUpdate<P>(phases: seq<P>, id: nat, p: P)
    requires id < |phases|
    ensures Count(phases, phases[id]) > 0
    ensures forall q :: Count(phases[id := p], q) ==
                        Count(phases, q) - (if q == phases[id] then 1 else 0) + (if q == p then 1 else 0)
  {
    assert phases[id] in multiset(phases);
    assert multiset(phases[id := p]) == multiset(phases) - multiset{phases[id]} + multiset{p};
  }

  lemma CountFind<P>(phases: seq<P>, p: P) returns (id: nat)
    requires Count(phases, p) > 0
    ensures id < |phases| && phases[id] == p
  {
    assert p in multiset(phases);
    id :| 0 <= id < |phases| && phases[id] == p;
  }
}
