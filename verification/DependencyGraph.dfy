/** The dependency graph of scripts/cluster_health_dag.py, and what a cycle and a
    topological order of it are.  Both graph algorithms are proved against these
    definitions, in CycleDetection.dfy and KahnSort.dfy. */
module DependencyGraph {
  import opened Common

  type Name = string

  /** `names` lists the keys of the `nodes` dictionary in iteration order; `deps` gives each
      node's dependency list.  A list may repeat a name or name a node that does not exist. */
  datatype Graph = Graph(names: seq<Name>, deps: map<Name, seq<Name>>)

  ghost predicate ValidGraph(g: Graph) {
    Distinct(g.names) && g.deps.Keys == Elements(g.names)
  }

  predicate Edge(g: Graph, u: Name, v: Name) {
    u in g.deps && v in g.deps[u]
  }

  ghost predicate Walk(g: Graph, p: seq<Name>) {
    forall i, j | 0 <= i < j < |p| && j == i + 1 :: Edge(g, p[i], p[j])
  }

  ghost predicate Cycle(g: Graph, c: seq<Name>) {
    |c| >= 2 && Walk(g, c) && c[0] == c[|c| - 1]
  }

  ghost predicate Acyclic(g: Graph) {
    forall c :: !Cycle(g, c)
  }

  /** Every dependency names a node of the graph. */
  ghost predicate Closed(g: Graph) {
    forall u, v | u in g.deps && v in g.deps[u] :: v in g.deps
  }

  ghost predicate DuplicateFree(g: Graph) {
    forall u | u in g.deps :: Distinct(g.deps[u])
  }

  /** `o` lists nodes without repetition, each after all of its dependencies. */
  ghost predicate Ordered(g: Graph, o: seq<Name>) {
    && Distinct(o)
    && (forall x | x in o :: x in g.deps)
    && (forall i, d | 0 <= i < |o| && d in g.deps[o[i]] :: d in o[..i])
  }

  ghost predicate TopologicalOrder(g: Graph, o: seq<Name>) {
    Ordered(g, o) && Elements(o) == g.deps.Keys
  }

  lemma OrderedExtend(g: Graph, o: seq<Name>, u: Name)
    requires Ordered(g, o) && u in g.deps && u !in o
    requires forall d | d in g.deps[u] :: d in o
    ensures Ordered(g, o + [u])
  {
    var p := o + [u];
    forall i, d | 0 <= i < |p| && d in g.deps[p[i]] ensures d in p[..i] {
      if i < |o| {
        assert p[..i] == o[..i] && p[i] == o[i];
      } else {
        assert p[..i] == o;
      }
    }
  }

  /** Along a walk the position in a topological order drops at every step. */
  lemma {:induction false} WalkDescends(g: Graph, o: seq<Name>, p: seq<Name>, k: nat)
    requires TopologicalOrder(g, o) && Walk(g, p) && k < |p| && p[0] in o
    ensures p[k] in o && Position(o, p[k]) + k <= Position(o, p[0])
  {
    if k > 0 {
      WalkDescends(g, o, p, k - 1);
      var i := Position(o, p[k - 1]);
      assert Edge(g, p[k - 1], p[k]);
      assert p[k] in o[..i];
      var j :| 0 <= j < i && o[j] == p[k];
    }
  }

  /** A topological order rules out cycles and unknown dependencies. */
  lemma OrderImpliesAcyclic(g: Graph, o: seq<Name>)
    requires TopologicalOrder(g, o)
    ensures Acyclic(g) && Closed(g)
  {
    forall c ensures !Cycle(g, c) {
      if Cycle(g, c) {
        assert Edge(g, c[0], c[1]);
        WalkDescends(g, o, c, |c| - 1);
      }
    }
    forall u, v | u in g.deps && v in g.deps[u] ensures v in g.deps {
      var i := Position(o, u);
      assert v in o[..i];
    }
  }

  lemma WalkExtend(g: Graph, p: seq<Name>, v: Name)
    requires Walk(g, p) && (p == [] || Edge(g, p[|p| - 1], v))
    ensures Walk(g, p + [v])
  {
    var q := p + [v];
    forall i, j | 0 <= i < j < |q| && j == i + 1 ensures Edge(g, q[i], q[j]) {
      assert q[i] == p[i];
      if j < |p| { assert q[j] == p[j]; }
    }
  }

  /** A walk that comes back to one of its own nodes closes a cycle there. */
  lemma ClosedWalk(g: Graph, p: seq<Name>, j: nat)
    requires Walk(g, p) && j < |p| - 1 && p[j] == p[|p| - 1]
    ensures Cycle(g, p[j..])
  {
    var c := p[j..];
    forall a, b | 0 <= a < b < |c| && b == a + 1 ensures Edge(g, c[a], c[b]) {
      assert c[a] == p[j + a] && c[b] == p[j + b];
    }
  }

  ghost predicate DependsInto(g: Graph, u: Name, r: set<Name>) {
    exists v :: v in r && Edge(g, u, v)
  }

  lemma LongerPath(p: seq<Name>, v: Name, r: set<Name>)
    requires Distinct(p) && Elements(p) <= r && v in r && v !in p
    ensures Distinct(p + [v]) && Elements(p + [v]) <= r && |p| + 1 <= |r|
  {
    DistinctSnoc(p, v);
    DistinctSize(p + [v]);
    assert Elements(p + [v]) == Elements(p) + {v};
    SubsetSize(Elements(p + [v]), r);
  }

  /** If every node of a non-empty set depends on a node of that set, following
      dependencies must come round: the graph has a cycle. */
  lemma {:induction false} StuckSetHasCycle(g: Graph, r: set<Name>, p: seq<Name>)
    requires forall u {:trigger DependsInto(g, u, r)} | u in r :: DependsInto(g, u, r)
    requires p != [] && Walk(g, p) && Distinct(p) && Elements(p) <= r
    ensures !Acyclic(g)
    decreases |r| - |p|
  {
    var u := p[|p| - 1];
    assert u in Elements(p);
    assert DependsInto(g, u, r);
    var v :| v in r && Edge(g, u, v);
    WalkExtend(g, p, v);
    if v in p {
      var j :| 0 <= j < |p| && p[j] == v;
      ClosedWalk(g, p + [v], j);
    } else {
      LongerPath(p, v, r);
      StuckSetHasCycle(g, r, p + [v]);
    }
  }

  lemma StuckCycle(g: Graph, r: set<Name>)
    requires r != {} && forall u {:trigger DependsInto(g, u, r)} | u in r :: DependsInto(g, u, r)
    ensures !Acyclic(g)
  {
    var u :| u in r;
    StuckSetHasCycle(g, r, [u]);
  }
}
