/** `_toposort`: Kahn's algorithm, with the in-degree table, the queue and the output list
    that the source updates in place. */
module KahnSort {
  import opened Common
  import opened DependencyGraph

  // ----- `sorted` on the names without dependencies (code-point order)

  predicate NameLeq(a: Name, b: Name) {
    a == "" || (b != "" && (a[0] < b[0] || (a[0] == b[0] && NameLeq(a[1..], b[1..]))))
  }

  function Insert(x: Name, s: seq<Name>): (r: seq<Name>)
    ensures multiset(r) == multiset(s) + multiset{x}
  {
    if s == [] || NameLeq(x, s[0]) then [x] + s
    else
      assert s == [s[0]] + s[1..];
      [s[0]] + Insert(x, s[1..])
  }

  function SortNames(s: seq<Name>): (r: seq<Name>)
    ensures multiset(r) == multiset(s)
  {
    if s == [] then []
    else
      assert s == [s[0]] + s[1..];
      Insert(s[0], SortNames(s[1..]))
  }

  ghost predicate SortedNames(s: seq<Name>) {
    forall i, j | 0 <= i < j < |s| && j == i + 1 :: NameLeq(s[i], s[j])
  }

  /** The lexicographic order: a comes first if it is a prefix of b, or has the smaller
      character where they first differ. */
  lemma {:induction false} NameLeqMeaning(a: Name, b: Name)
    ensures NameLeq(a, b) <==> a <= b || exists i :: 0 <= i < |a| && i < |b| && a[..i] == b[..i] && a[i] < b[i]
  {
    if a != "" && b != "" {
      NameLeqMeaning(a[1..], b[1..]);
      if a[0] == b[0] {
        SameHead(a, b);
      } else {
        assert a[..0] == b[..0];
      }
    }
  }

  lemma SameHead(a: Name, b: Name)
    requires a != "" && b != "" && a[0] == b[0]
    ensures a <= b <==> a[1..] <= b[1..]
    ensures (exists i :: 0 <= i < |a| && i < |b| && a[..i] == b[..i] && a[i] < b[i]) <==>
            (exists i :: 0 <= i < |a[1..]| && i < |b[1..]| && a[1..][..i] == b[1..][..i] && a[1..][i] < b[1..][i])
  {
    assert a == [a[0]] + a[1..] && b == [b[0]] + b[1..];
    if i :| 0 <= i < |a| && i < |b| && a[..i] == b[..i] && a[i] < b[i] {
      assert i > 0;
      assert a[1..][..i - 1] == a[..i][1..] && b[1..][..i - 1] == b[..i][1..];
    }
    if i :| 0 <= i < |a[1..]| && i < |b[1..]| && a[1..][..i] == b[1..][..i] && a[1..][i] < b[1..][i] {
      assert a[..i + 1] == [a[0]] + a[1..][..i] && b[..i + 1] == [b[0]] + b[1..][..i];
    }
  }

  lemma {:induction false} NameLeqTotal(a: Name, b: Name)
    ensures NameLeq(a, b) || NameLeq(b, a)
  {
    if a != "" && b != "" {
      NameLeqTotal(a[1..], b[1..]);
    }
  }

  lemma {:induction false} InsertSorted(x: Name, s: seq<Name>)
    requires SortedNames(s)
    ensures SortedNames(Insert(x, s)) && Insert(x, s) != []
    ensures Insert(x, s)[0] == x || (s != [] && Insert(x, s)[0] == s[0])
  {
    if s != [] && !NameLeq(x, s[0]) {
      NameLeqTotal(x, s[0]);
      InsertSorted(x, s[1..]);
    }
  }

  lemma {:induction false} SortNamesSorts(s: seq<Name>)
    ensures SortedNames(SortNames(s))
  {
    if s != [] {
      SortNamesSorts(s[1..]);
      InsertSorted(s[0], SortNames(s[1..]));
    }
  }

  lemma SameElements<T>(a: seq<T>, b: seq<T>)
    requires multiset(a) == multiset(b)
    ensures Elements(a) == Elements(b) && (Distinct(a) ==> Distinct(b))
  {
    assert forall x :: x in a <==> x in multiset(a);
    assert forall x :: x in b <==> x in multiset(b);
    assert |multiset(a)| == |a| && |multiset(b)| == |b|;
    DistinctSize(a);
    DistinctSize(b);
  }

  // ----- in-degrees

  /** How often popping the nodes of `out` lowers the counter of v. */
  function Drops(g: Graph, out: seq<Name>, v: Name): nat
    requires v in g.deps
  {
    if out == [] then 0
    else
      var n := |out| - 1;
      Drops(g, out[..n], v) + if out[n] in g.deps[v] then 1 else 0
  }

  function InDegree(g: Graph, out: seq<Name>, v: Name): int
    requires v in g.deps
  {
    |g.deps[v]| - Drops(g, out, v)
  }

  lemma InDegreeDrops(g: Graph, out: seq<Name>, u: Name, v: Name)
    requires v in g.deps
    ensures InDegree(g, out + [u], v) == InDegree(g, out, v) - (if u in g.deps[v] then 1 else 0)
  {
    assert (out + [u])[..|out|] == out;
  }

  lemma {:induction false} DropsCount(g: Graph, out: seq<Name>, v: Name)
    requires v in g.deps && Distinct(out)
    ensures Drops(g, out, v) == |Elements(out) * Elements(g.deps[v])|
  {
    var ds := Elements(g.deps[v]);
    if out == [] {
      assert Elements(out) * ds == {};
    } else {
      var n := |out| - 1;
      assert out == out[..n] + [out[n]];
      DistinctSnoc(out[..n], out[n]);
      DropsCount(g, out[..n], v);
      CommonSnoc(out[..n], out[n], ds);
    }
  }

  lemma CommonSnoc(rest: seq<Name>, x: Name, ds: set<Name>)
    requires x !in rest
    ensures |Elements(rest + [x]) * ds| == |Elements(rest) * ds| + if x in ds then 1 else 0
  {
    assert Elements(rest + [x]) == Elements(rest) + {x};
    assert Elements(rest + [x]) * ds == Elements(rest) * ds + (if x in ds then {x} else {});
  }

  /** The counter starts at the length of the dependency list but drops once per popped
      node, so it reaches zero only on a duplicate-free, fully resolved list. */
  lemma InDegreeZero(g: Graph, out: seq<Name>, v: Name)
    requires v in g.deps && Distinct(out)
    ensures InDegree(g, out, v) >= 0
    ensures InDegree(g, out, v) == 0 <==> Distinct(g.deps[v]) && Elements(g.deps[v]) <= Elements(out)
  {
    var ds := g.deps[v];
    DropsCount(g, out, v);
    DistinctSize(ds);
    var common := Elements(out) * Elements(ds);
    SubsetSize(common, Elements(ds));
    if Elements(ds) <= Elements(out) {
      assert common == Elements(ds);
    }
  }

  /** The nodes that have no dependencies, in sorted order: where the queue starts. */
  function Roots(g: Graph, names: seq<Name>): (r: seq<Name>)
    requires forall n | n in names :: n in g.deps
    ensures forall n :: n in r <==> n in names && g.deps[n] == []
    ensures Distinct(names) ==> Distinct(r)
  {
    if names == [] then []
    else
      var rest := Roots(g, names[1..]);
      if g.deps[names[0]] == [] then [names[0]] + rest else rest
  }

  // ----- the algorithm

  /** The counters of the nodes in `updated` count against `out`, the others still against `stale`. */
  ghost predicate Counters(g: Graph, indeg: map<Name, int>, stale: seq<Name>, out: seq<Name>, updated: set<Name>) {
    && indeg.Keys == g.deps.Keys
    && forall v | v in g.deps :: indeg[v] == InDegree(g, if v in updated then out else stale, v)
  }

  /** Output and queue together hold, once each, exactly the nodes whose counter is zero. */
  ghost predicate Frontier(g: Graph, indeg: map<Name, int>, out: seq<Name>, q: seq<Name>) {
    && Distinct(out) && Distinct(q)
    && indeg.Keys == g.deps.Keys
    && (forall v | v in q :: v in g.deps && v !in out)
    && (forall v | v in out :: v in g.deps)
    && forall v | v in g.deps :: v in out || v in q <==> indeg[v] == 0
  }

  /** One pass of the inner loop body keeps counters and frontier in step. */
  lemma LowerCounter(g: Graph, stale: seq<Name>, u: Name, indeg: map<Name, int>, done: set<Name>, v: Name)
    requires v in g.deps && v !in done && Counters(g, indeg, stale, stale + [u], done)
    ensures u !in g.deps[v] ==> Counters(g, indeg, stale, stale + [u], done + {v})
    ensures u in g.deps[v] ==> Counters(g, indeg[v := indeg[v] - 1], stale, stale + [u], done + {v})
    ensures u in g.deps[v] ==> indeg[v] - 1 == InDegree(g, stale + [u], v)
  {
    var out := stale + [u];
    InDegreeDrops(g, stale, u, v);
    assert indeg[v] == InDegree(g, stale, v);
    SetCounter(g, indeg, stale, out, done, v, InDegree(g, out, v));
    assert u !in g.deps[v] ==> indeg[v := indeg[v]] == indeg;
  }

  lemma SetCounter(g: Graph, indeg: map<Name, int>, stale: seq<Name>, out: seq<Name>, done: set<Name>, v: Name, n: int)
    requires v in g.deps && v !in done && Counters(g, indeg, stale, out, done) && n == InDegree(g, out, v)
    ensures Counters(g, indeg[v := n], stale, out, done + {v})
  {
    var low := indeg[v := n];
    assert low.Keys == g.deps.Keys;
    forall x | x in g.deps ensures low[x] == InDegree(g, if x in done + {v} then out else stale, x) {
      if x != v {
        assert low[x] == indeg[x] && (x in done + {v} <==> x in done);
      }
    }
  }

  lemma LowerFrontier(g: Graph, out: seq<Name>, indeg: map<Name, int>, q: seq<Name>, v: Name)
    requires v in g.deps && Frontier(g, indeg, out, q)
    requires v in indeg && indeg[v] - 1 == InDegree(g, out, v)
    ensures var low := indeg[v := indeg[v] - 1]; Frontier(g, low, out, if low[v] == 0 then q + [v] else q)
  {
    InDegreeZero(g, out, v);
    DistinctSnoc(q, v);
    assert forall x :: x in q + [v] <==> x in q || x == v;
  }

  /** What popping u adds to the queue: nodes that depend on u and on nothing still to come,
      in the order in which the nodes are listed. */
  ghost predicate Added(g: Graph, u: Name, out: seq<Name>, added: seq<Name>)
    requires ValidGraph(g)
  {
    && (forall v | v in added :: v in g.deps && v in g.names && u in g.deps[v] && Elements(g.deps[v]) <= Elements(out))
    && (forall i, j | 0 <= i < j < |added| && added[i] in g.names && added[j] in g.names ::
          Position(g.names, added[i]) < Position(g.names, added[j]))
  }

  /** The nodes among the first k listed that popping u makes ready. */
  ghost function NewlyReady(g: Graph, u: Name, out: seq<Name>, k: nat): seq<Name>
    requires ValidGraph(g) && k <= |g.names|
  {
    if k == 0 then []
    else
      NextKey(g, k - 1);
      var v := g.names[k - 1];
      NewlyReady(g, u, out, k - 1) + if u in g.deps[v] && InDegree(g, out, v) == 0 then [v] else []
  }

  /** The inner loop: lower the counter of every node that depends on u. */
  method Relax(g: Graph, u: Name, ghost stale: seq<Name>, ghost out: seq<Name>, indeg0: map<Name, int>, q0: seq<Name>)
    returns (indeg: map<Name, int>, q: seq<Name>)
    requires ValidGraph(g) && out == stale + [u] && Distinct(out)
    requires Counters(g, indeg0, stale, out, {}) && Frontier(g, indeg0, out, q0)
    ensures Counters(g, indeg, out, out, {}) && Frontier(g, indeg, out, q)
    ensures q == q0 + NewlyReady(g, u, out, |g.names|)
  {
    indeg, q := indeg0, q0;
    for k := 0 to |g.names|
      invariant Counters(g, indeg, stale, out, Elements(g.names[..k]))
      invariant Frontier(g, indeg, out, q) && q == q0 + NewlyReady(g, u, out, k)
    {
      NextKey(g, k);
      QueueNext(g, u, out, k, q0, q, g.names[k]);
      indeg, q := RelaxOne(g, u, k, stale, out, indeg, q);
    }
    AllUpdated(g, indeg, stale, out, |g.names|);
  }

  lemma AllUpdated(g: Graph, indeg: map<Name, int>, stale: seq<Name>, out: seq<Name>, k: nat)
    requires ValidGraph(g) && k == |g.names| && Counters(g, indeg, stale, out, Elements(g.names[..k]))
    ensures Counters(g, indeg, out, out, {})
  {
    assert g.names[..k] == g.names;
  }

  /** One turn of it. */
  method RelaxOne(g: Graph, u: Name, k: nat, ghost stale: seq<Name>, ghost out: seq<Name>, indeg0: map<Name, int>, q0: seq<Name>)
    returns (indeg: map<Name, int>, q: seq<Name>)
    requires ValidGraph(g) && out == stale + [u] && Distinct(out) && k < |g.names| && g.names[k] in g.deps
    requires Counters(g, indeg0, stale, out, Elements(g.names[..k])) && Frontier(g, indeg0, out, q0)
    ensures Counters(g, indeg, stale, out, Elements(g.names[..k + 1])) && Frontier(g, indeg, out, q)
    ensures var v := g.names[k]; q == if u in g.deps[v] && InDegree(g, out, v) == 0 then q0 + [v] else q0
  {
    indeg, q := indeg0, q0;
    var v := g.names[k];
    NextKey(g, k);
    LowerCounter(g, stale, u, indeg, Elements(g.names[..k]), v);
    if u in g.deps[v] {
      LowerFrontier(g, out, indeg, q, v);
      indeg := indeg[v := indeg[v] - 1];
      if indeg[v] == 0 {
        q := q + [v];
      }
    }
  }

  lemma QueueNext(g: Graph, u: Name, out: seq<Name>, k: nat, q0: seq<Name>, q: seq<Name>, v: Name)
    requires ValidGraph(g) && k < |g.names| && v == g.names[k] && v in g.deps && q == q0 + NewlyReady(g, u, out, k)
    ensures u in g.deps[v] && InDegree(g, out, v) == 0 ==> q + [v] == q0 + NewlyReady(g, u, out, k + 1)
    ensures u !in g.deps[v] || InDegree(g, out, v) != 0 ==> q == q0 + NewlyReady(g, u, out, k + 1)
  {
    assert (q0 + NewlyReady(g, u, out, k)) + [v] == q0 + (NewlyReady(g, u, out, k) + [v]);
    assert NewlyReady(g, u, out, k) + [] == NewlyReady(g, u, out, k);
  }

  ghost predicate AddedUpTo(g: Graph, u: Name, out: seq<Name>, added: seq<Name>, k: nat)
    requires ValidGraph(g)
  {
    Added(g, u, out, added) && forall v | v in added :: v in g.names && Position(g.names, v) < k
  }

  lemma {:induction false} NewlyReadyAdded(g: Graph, u: Name, out: seq<Name>, k: nat)
    requires ValidGraph(g) && k <= |g.names| && Distinct(out)
    ensures AddedUpTo(g, u, out, NewlyReady(g, u, out, k), k)
  {
    if k > 0 {
      NextKey(g, k - 1);
      NewlyReadyAdded(g, u, out, k - 1);
      var v := g.names[k - 1];
      InDegreeZero(g, out, v);
      if u in g.deps[v] && InDegree(g, out, v) == 0 {
        AddNext(g, u, out, NewlyReady(g, u, out, k - 1), k - 1);
      }
    }
  }

  lemma AddNext(g: Graph, u: Name, out: seq<Name>, added: seq<Name>, k: nat)
    requires ValidGraph(g) && AddedUpTo(g, u, out, added, k) && k < |g.names| && g.names[k] in g.deps
    requires u in g.deps[g.names[k]] && Elements(g.deps[g.names[k]]) <= Elements(out)
    ensures AddedUpTo(g, u, out, added + [g.names[k]], k + 1)
  {
    var v := g.names[k];
    assert Position(g.names, v) == k;
    var more := added + [v];
    assert forall x :: x in more <==> x in added || x == v;
    forall i, j | 0 <= i < j < |more| && more[i] in g.names && more[j] in g.names
      ensures Position(g.names, more[i]) < Position(g.names, more[j])
    {
      assert more[i] == added[i];
      if j < |added| {
        assert more[j] == added[j];
      }
    }
  }

  lemma NextKey(g: Graph, k: nat)
    requires ValidGraph(g) && k < |g.names|
    ensures g.names[k] in g.deps && g.names[k] !in Elements(g.names[..k])
    ensures Elements(g.names[..k + 1]) == Elements(g.names[..k]) + {g.names[k]}
  {
    assert g.names[k] in Elements(g.names);
    assert g.names[..k + 1] == g.names[..k] + [g.names[k]];
  }

  lemma WaitsForLeftover(g: Graph, indeg: map<Name, int>, out: seq<Name>, u: Name)
    requires Closed(g) && DuplicateFree(g) && u in g.deps && u !in out
    requires Counters(g, indeg, out, out, {}) && Frontier(g, indeg, out, [])
    ensures DependsInto(g, u, g.deps.Keys - Elements(out))
  {
    InDegreeZero(g, out, u);
    assert !(Elements(g.deps[u]) <= Elements(out));
    var d :| d in Elements(g.deps[u]) && d !in Elements(out);
    assert Edge(g, u, d) && d in g.deps.Keys - Elements(out);
  }

  /** When the queue runs dry with nodes left over, every left-over node of a closed,
      duplicate-free graph still waits for a left-over node. */
  lemma LeftoverHasCycle(g: Graph, indeg: map<Name, int>, out: seq<Name>)
    requires Closed(g) && DuplicateFree(g)
    requires Counters(g, indeg, out, out, {}) && Frontier(g, indeg, out, [])
    requires Elements(out) != g.deps.Keys
    ensures !Acyclic(g)
  {
    var r := g.deps.Keys - Elements(out);
    forall u | u in r ensures DependsInto(g, u, r) {
      WaitsForLeftover(g, indeg, out, u);
    }
    assert g.deps.Keys == r + Elements(out) by { assert Elements(out) <= g.deps.Keys; }
    StuckCycle(g, r);
  }

  /** The node at the head of the queue has all its dependencies in the output. */
  lemma TakeNext(g: Graph, indeg: map<Name, int>, out: seq<Name>, q: seq<Name>)
    requires q != [] && Counters(g, indeg, out, out, {}) && Frontier(g, indeg, out, q) && Ordered(g, out)
    ensures Distinct(g.deps[q[0]]) && Ordered(g, out + [q[0]])
    ensures Frontier(g, indeg, out + [q[0]], q[1..])
  {
    var u := q[0];
    InDegreeZero(g, out, u);
    assert forall d | d in g.deps[u] :: d in Elements(g.deps[u]) && d in Elements(out);
    OrderedExtend(g, out, u);
    assert q == [u] + q[1..];
    assert forall v :: v in q <==> v == u || v in q[1..];
    assert forall v :: v in out + [u] <==> v == u || v in out;
  }

  // ----- the order among nodes that have dependencies

  /** Node v becomes ready with position r of `out`: that is its last dependency. */
  ghost predicate ReadyAt(g: Graph, out: seq<Name>, v: Name, r: nat) {
    r < |out| && v in g.deps && out[r] in g.deps[v] && forall d | d in g.deps[v] :: d in out[..r + 1]
  }

  /** Nodes with dependencies come in the order in which they become ready, and those that
      become ready together in the order in which they are listed. */
  ghost predicate InReadyOrder(g: Graph, out: seq<Name>, seen: seq<Name>) {
    forall i, j, r, r' | 0 <= i < j < |seen| && ReadyAt(g, out, seen[i], r) && ReadyAt(g, out, seen[j], r') ::
      Before(g, seen[i], r, seen[j], r')
  }

  ghost predicate Before(g: Graph, v: Name, r: nat, v': Name, r': nat) {
    r < r' || (r == r' && v in g.names && v' in g.names && Position(g.names, v) < Position(g.names, v'))
  }

  ghost predicate Satisfied(g: Graph, out: seq<Name>, seen: seq<Name>) {
    forall v | v in seen :: v in g.deps && Elements(g.deps[v]) <= Elements(out)
  }

  lemma ReadyEarlier(g: Graph, stale: seq<Name>, u: Name, v: Name, r: nat)
    requires Distinct(stale + [u]) && v in g.deps && Elements(g.deps[v]) <= Elements(stale) && ReadyAt(g, stale + [u], v, r)
    ensures r < |stale| && ReadyAt(g, stale, v, r)
  {
    var out := stale + [u];
    DistinctSnoc(stale, u);
    assert out[r] in Elements(g.deps[v]) && out[r] in stale;
    assert out[..r + 1] == stale[..r + 1];
  }

  lemma ReadyNow(g: Graph, stale: seq<Name>, u: Name, v: Name, r: nat)
    requires Distinct(stale + [u]) && v in g.deps && u in g.deps[v] && ReadyAt(g, stale + [u], v, r)
    ensures r == |stale|
  {
    var out := stale + [u];
    DistinctSnoc(stale, u);
    assert forall i | 0 <= i < |stale| :: out[i] == stale[i];
    var k := Position(out[..r + 1], u);
    assert out[k] == u;
  }

  lemma TurnKeepsOrder(g: Graph, stale: seq<Name>, u: Name, seen: seq<Name>, added: seq<Name>)
    requires ValidGraph(g) && Distinct(stale + [u]) && InReadyOrder(g, stale, seen) && Satisfied(g, stale, seen)
    requires Added(g, u, stale + [u], added)
    ensures InReadyOrder(g, stale + [u], seen + added)
  {
    var out, more := stale + [u], seen + added;
    forall i, j, r, r' | 0 <= i < j < |more| && ReadyAt(g, out, more[i], r) && ReadyAt(g, out, more[j], r')
      ensures Before(g, more[i], r, more[j], r')
    {
      if i < |seen| {
        assert more[i] == seen[i];
        ReadyEarlier(g, stale, u, more[i], r);
      } else {
        assert more[i] == added[i - |seen|];
        ReadyNow(g, stale, u, more[i], r);
      }
      if j < |seen| {
        assert more[j] == seen[j];
        ReadyEarlier(g, stale, u, more[j], r');
      } else {
        assert more[j] == added[j - |seen|];
        ReadyNow(g, stale, u, more[j], r');
      }
    }
  }

  lemma FrontierSatisfied(g: Graph, indeg: map<Name, int>, out: seq<Name>, q: seq<Name>)
    requires Counters(g, indeg, out, out, {}) && Frontier(g, indeg, out, q)
    ensures Satisfied(g, out, out + q)
  {
    forall v | v in out + q ensures v in g.deps && Elements(g.deps[v]) <= Elements(out) {
      assert v in out || v in q;
      InDegreeZero(g, out, v);
    }
  }

  /** The order that the algorithm is to deliver. */
  ghost predicate KahnOrder(g: Graph, o: seq<Name>)
    requires ValidGraph(g)
  {
    TopologicalOrder(g, o) && InitialQueue(g) <= o && InReadyOrder(g, o, o)
  }

  /** Where the queue starts. */
  function InitialQueue(g: Graph): seq<Name>
    requires ValidGraph(g)
  {
    RootsStart(g);
    SortNames(Roots(g, g.names))
  }

  /** `_toposort`.  Any order returned is a topological order that begins with the sorted roots
      and goes on as nodes become ready; and one is returned exactly when the graph is closed
      and acyclic and no dependency list repeats a name. */
  method Toposort(g: Graph) returns (r: Option<seq<Name>>)
    requires ValidGraph(g)
    ensures r.Some? ==> KahnOrder(g, r.value)
    ensures r.Some? <==> Closed(g) && Acyclic(g) && DuplicateFree(g)
  {
    RootsStart(g);
    var indeg: map<Name, int> := map n | n in g.deps :: |g.deps[n]|;
    var roots := SortNames(Roots(g, g.names));
    var q, out := roots, [];
    assert Counters(g, indeg, out, out, {});
    while q != []
      invariant Counters(g, indeg, out, out, {}) && Frontier(g, indeg, out, q)
      invariant Ordered(g, out) && roots <= out + q && InReadyOrder(g, out, out + q)
      decreases |g.names| - |out|
    {
      var u := q[0];
      ghost var stale, q0 := out, q;
      FrontierSatisfied(g, indeg, out, q);
      TakeNext(g, indeg, out, q);
      q := q[1..];
      out := out + [u];
      OutputSize(g, out);
      indeg, q := Relax(g, u, stale, out, indeg, q);
      NewlyReadyAdded(g, u, out, |g.names|);
      TurnKeeps(g, roots, stale, q0, NewlyReady(g, u, out, |g.names|));
    }
    Verdict(g, indeg, out);
    assert out + [] == out;
    return if |out| != |g.names| then None else Some(out);
  }

  lemma TurnKeeps(g: Graph, roots: seq<Name>, stale: seq<Name>, q0: seq<Name>, added: seq<Name>)
    requires ValidGraph(g) && q0 != [] && Distinct(stale + [q0[0]]) && Added(g, q0[0], stale + [q0[0]], added)
    requires roots <= stale + q0 && InReadyOrder(g, stale, stale + q0) && Satisfied(g, stale, stale + q0)
    ensures var out, q := stale + [q0[0]], q0[1..] + added; roots <= out + q && InReadyOrder(g, out, out + q)
  {
    TurnKeepsOrder(g, stale, q0[0], stale + q0, added);
    assert (stale + q0) + added == (stale + [q0[0]]) + (q0[1..] + added);
  }

  // ----- there is only one such order

  lemma {:induction false} LastAmong(o: seq<Name>, ds: seq<Name>, n: nat) returns (r: nat)
    requires n <= |o| && ds != [] && forall d | d in ds :: d in o[..n]
    ensures r < n && o[r] in ds && forall d | d in ds :: d in o[..r + 1]
  {
    assert ds[0] in ds && ds[0] in o[..n];
    assert o[..n] == o[..n - 1] + [o[n - 1]];
    if o[n - 1] in ds {
      r := n - 1;
    } else {
      r := LastAmong(o, ds, n - 1);
    }
  }

  lemma ReadyExists(g: Graph, o: seq<Name>, n: nat) returns (r: nat)
    requires TopologicalOrder(g, o) && n < |o| && g.deps[o[n]] != []
    ensures r < n && ReadyAt(g, o, o[n], r)
  {
    r := LastAmong(o, g.deps[o[n]], n);
  }

  lemma ReadySame(g: Graph, o: seq<Name>, o': seq<Name>, n: nat, v: Name, r: nat)
    requires n <= |o| && n <= |o'| && o[..n] == o'[..n] && r < n && ReadyAt(g, o, v, r)
    ensures ReadyAt(g, o', v, r)
  {
    assert o'[r] == o'[..n][r] == o[..n][r] == o[r];
    assert o[..r + 1] == o[..n][..r + 1] == o'[..n][..r + 1] == o'[..r + 1];
  }

  /** Where the orders first differ, the next node of the one comes later in the other. */
  lemma NextIsLater(g: Graph, o: seq<Name>, o': seq<Name>, n: nat) returns (j: nat)
    requires TopologicalOrder(g, o) && TopologicalOrder(g, o') && n < |o| && n < |o'| && o[..n] == o'[..n] && o[n] != o'[n]
    ensures n < j < |o'| && o'[j] == o[n]
  {
    assert o[n] in Elements(o) && o[n] in Elements(o');
    j := Position(o', o[n]);
    assert forall i | 0 <= i < n :: o'[i] == o'[..n][i] == o[..n][i] == o[i];
  }

  lemma NextBefore(g: Graph, o: seq<Name>, o': seq<Name>, n: nat, r: nat, r': nat)
    requires TopologicalOrder(g, o) && TopologicalOrder(g, o') && InReadyOrder(g, o, o)
    requires n < |o| && n < |o'| && o[..n] == o'[..n] && o[n] != o'[n]
    requires ReadyAt(g, o, o[n], r) && ReadyAt(g, o, o'[n], r')
    ensures Before(g, o[n], r, o'[n], r')
  {
    var i := NextIsLater(g, o', o, n);
  }

  lemma SameNext(g: Graph, o: seq<Name>, o': seq<Name>, n: nat)
    requires ValidGraph(g) && KahnOrder(g, o) && KahnOrder(g, o') && n < |o| && n < |o'| && o[..n] == o'[..n]
    requires o[n] in g.deps && o'[n] in g.deps && g.deps[o[n]] != [] && g.deps[o'[n]] != []
    ensures o[n] == o'[n]
  {
    var r := ReadyExists(g, o, n);
    var r' := ReadyExists(g, o', n);
    ReadySame(g, o, o', n, o[n], r);
    ReadySame(g, o', o, n, o'[n], r');
    if o[n] != o'[n] {
      NextBefore(g, o, o', n, r, r');
      NextBefore(g, o', o, n, r', r);
    }
  }

  lemma NotInPrefix(o: seq<Name>, p: seq<Name>, n: nat)
    requires Distinct(o) && p <= o && |p| <= n < |o|
    ensures o[n] !in p
  {
    assert forall k | 0 <= k < |p| :: p[k] == o[k];
  }

  lemma RootIsQueued(g: Graph, v: Name)
    requires ValidGraph(g) && v in g.deps && g.deps[v] == []
    ensures v in InitialQueue(g)
  {
    RootsStart(g);
    assert v in Elements(g.names) && v in Roots(g, g.names) && v in Elements(Roots(g, g.names));
    SameElements(Roots(g, g.names), InitialQueue(g));
  }

  lemma AfterRoots(g: Graph, o: seq<Name>, n: nat)
    requires ValidGraph(g) && KahnOrder(g, o) && |InitialQueue(g)| <= n < |o|
    ensures o[n] in g.deps && g.deps[o[n]] != []
  {
    assert o[n] in Elements(o);
    NotInPrefix(o, InitialQueue(g), n);
    if g.deps[o[n]] == [] {
      RootIsQueued(g, o[n]);
    }
  }

  lemma SameRoot(g: Graph, o: seq<Name>, o': seq<Name>, n: nat)
    requires ValidGraph(g) && KahnOrder(g, o) && KahnOrder(g, o') && n < |InitialQueue(g)|
    ensures n < |o| && n < |o'| && o[n] == o'[n]
  {
    assert o[n] == InitialQueue(g)[n] && o'[n] == InitialQueue(g)[n];
  }

  lemma {:induction false} SameUpTo(g: Graph, o: seq<Name>, o': seq<Name>, n: nat)
    requires ValidGraph(g) && KahnOrder(g, o) && KahnOrder(g, o') && n <= |o| && n <= |o'|
    ensures o[..n] == o'[..n]
  {
    if n > 0 {
      SameUpTo(g, o, o', n - 1);
      SameAt(g, o, o', n - 1);
      assert o[..n] == o[..n - 1] + [o[n - 1]] && o'[..n] == o'[..n - 1] + [o'[n - 1]];
    }
  }

  lemma SameAt(g: Graph, o: seq<Name>, o': seq<Name>, n: nat)
    requires ValidGraph(g) && KahnOrder(g, o) && KahnOrder(g, o') && n < |o| && n < |o'| && o[..n] == o'[..n]
    ensures o[n] == o'[n]
  {
    if n < |InitialQueue(g)| {
      SameRoot(g, o, o', n);
    } else {
      AfterRoots(g, o, n);
      AfterRoots(g, o', n);
      SameNext(g, o, o', n);
    }
  }

  /** So the order returned is the only one of its kind. */
  lemma KahnOrderUnique(g: Graph, o: seq<Name>, o': seq<Name>)
    requires ValidGraph(g) && KahnOrder(g, o) && KahnOrder(g, o')
    ensures o == o'
  {
    DistinctSize(o);
    DistinctSize(o');
    SameUpTo(g, o, o', |o|);
    assert o[..|o|] == o && o'[..|o'|] == o';
  }

  /** With the queue empty, the output is complete exactly on the good graphs. */
  lemma Verdict(g: Graph, indeg: map<Name, int>, out: seq<Name>)
    requires ValidGraph(g) && Counters(g, indeg, out, out, {}) && Frontier(g, indeg, out, []) && Ordered(g, out)
    ensures |out| == |g.names| ==> TopologicalOrder(g, out)
    ensures |out| == |g.names| <==> Closed(g) && Acyclic(g) && DuplicateFree(g)
  {
    OutputSize(g, out);
    if |out| == |g.names| {
      OrderImpliesAcyclic(g, out);
      forall u | u in g.deps ensures Distinct(g.deps[u]) {
        assert u in Elements(out);
        InDegreeZero(g, out, u);
      }
    } else if Closed(g) && DuplicateFree(g) {
      LeftoverHasCycle(g, indeg, out);
    }
  }

  lemma NamesAreNodes(g: Graph)
    requires ValidGraph(g)
    ensures forall n :: n in g.names <==> n in g.deps
  {
    assert forall n :: n in g.names <==> n in Elements(g.names);
  }

  lemma RootsStart(g: Graph)
    requires ValidGraph(g)
    ensures forall n | n in g.names :: n in g.deps
    ensures var roots := SortNames(Roots(g, g.names));
            Frontier(g, map n | n in g.deps :: |g.deps[n]|, [], roots)
  {
    NamesAreNodes(g);
    SortedRoots(Roots(g, g.names));
  }

  lemma SortedRoots(names: seq<Name>)
    requires Distinct(names)
    ensures Distinct(SortNames(names)) && forall n :: n in SortNames(names) <==> n in names
  {
    var roots := SortNames(names);
    SameElements(names, roots);
    assert forall n :: n in roots <==> n in Elements(roots);
    assert forall n :: n in names <==> n in Elements(names);
  }

  lemma OutputSize(g: Graph, out: seq<Name>)
    requires ValidGraph(g) && Ordered(g, out)
    ensures |out| <= |g.names| && (|out| == |g.names| <==> Elements(out) == g.deps.Keys)
  {
    DistinctSize(out);
    DistinctSize(g.names);
    assert Elements(out) <= g.deps.Keys;
    SubsetSize(Elements(out), g.deps.Keys);
  }
}
