/** `_dep_ready` and `validate_dependency_dag`: the two graph checks followed by readiness
    probes in topological order.  What a probe of the cluster answers is a parameter: the
    k-th probe made, of node n, yields `probe(k, n)`, so answers may change over time. */
module DagValidator {
  import opened Common
  import opened DependencyGraph
  import opened CycleDetection
  import opened KahnSort

  /** None when the node is ready, otherwise the reason it is not. */
  type Outcome = Option<string>

  datatype Violation =
    | Unknown(user: Name, dep: Name)
    | CycleReport(finding: Finding)
    | SortFailed
    | DependencyNotReady(user: Name, dep: Name, why: string)
    | NodeNotReady(node: Name, why: string)

  datatype Report = Report(valid: bool, order: seq<Name>, violations: seq<Violation>, acyclic: bool, checkedInOrder: bool)

  /** The memo table of `_dep_ready`, and the list of nodes probed so far. */
  class Readiness {
    const probe: (nat, Name) -> Outcome
    var cache: map<Name, Outcome>
    var probed: seq<Name>

    constructor (probe: (nat, Name) -> Outcome)
      ensures this.probe == probe && cache == map[] && probed == []
    {
      this.probe := probe;
      cache, probed := map[], [];
    }

    method DepReady(dep: Name) returns (r: Outcome)
      modifies this
      ensures dep in old(cache) ==> r == old(cache)[dep] && cache == old(cache) && probed == old(probed)
      ensures dep !in old(cache) ==>
                && r == probe(|old(probed)|, dep)
                && cache == old(cache)[dep := r] && probed == old(probed) + [dep]
    {
      if dep in cache {
        return cache[dep];
      }
      r := probe(|probed|, dep);
      cache := cache[dep := r];
      probed := probed + [dep];
    }
  }

  // ----- what a walk along an order must report

  /** The one answer that counts for x: the probe made when the walk reaches x itself. */
  ghost function Answer(order: seq<Name>, probe: (nat, Name) -> Outcome, x: Name): Outcome
    requires x in order
  {
    probe(Position(order, x), x)
  }

  ghost function DependencyViolations(order: seq<Name>, probe: (nat, Name) -> Outcome, u: Name, ds: seq<Name>): (vs: seq<Violation>)
    requires forall d | d in ds :: d in order
    ensures forall v :: v in vs <==> v.DependencyNotReady? && v.user == u && v.dep in ds && Answer(order, probe, v.dep) == Some(v.why)
  {
    if ds == [] then []
    else
      var n := |ds| - 1;
      var a := Answer(order, probe, ds[n]);
      assert ds == ds[..n] + [ds[n]];
      DependencyViolations(order, probe, u, ds[..n]) +
      (if a.Some? then [DependencyNotReady(u, ds[n], a.value)] else [])
  }

  function Flatten(parts: seq<seq<Violation>>, k: nat): seq<Violation>
    requires k <= |parts|
  {
    if k == 0 then [] else Flatten(parts, k - 1) + parts[k - 1]
  }

  lemma {:induction false} InFlatten(parts: seq<seq<Violation>>, k: nat, v: Violation)
    requires k <= |parts|
    ensures v in Flatten(parts, k) <==> exists j :: 0 <= j < k && v in parts[j]
  {
    if k > 0 {
      InFlatten(parts, k - 1, v);
    }
  }

  /** What each node of the order adds to the report. */
  ghost function NodeReports(g: Graph, order: seq<Name>, probe: (nat, Name) -> Outcome): (r: seq<seq<Violation>>)
    requires Ordered(g, order)
    ensures |r| == |order| && forall i | 0 <= i < |order| :: r[i] == NodeViolations(g, order, probe, order[i])
  {
    seq(|order|, i requires 0 <= i < |order| => NodeViolations(g, order, probe, order[i]))
  }

  ghost function WalkViolations(g: Graph, order: seq<Name>, probe: (nat, Name) -> Outcome, k: nat): seq<Violation>
    requires Ordered(g, order) && k <= |order|
  {
    Flatten(NodeReports(g, order, probe), k)
  }

  ghost function NodeViolations(g: Graph, order: seq<Name>, probe: (nat, Name) -> Outcome, u: Name): seq<Violation>
    requires Ordered(g, order) && u in order
  {
    var k := Position(order, u);
    assert forall d | d in g.deps[u] :: d in order[..k];
    var a := Answer(order, probe, u);
    DependencyViolations(order, probe, u, g.deps[u]) +
    (if a.Some? then [NodeNotReady(u, a.value)] else [])
  }

  /** That u is one of the first k nodes. */
  ghost predicate Among(order: seq<Name>, k: nat, u: Name) {
    u in order && Position(order, u) < k
  }

  /** That a walk along the first k nodes reports v. */
  ghost predicate Reported(g: Graph, order: seq<Name>, probe: (nat, Name) -> Outcome, k: nat, v: Violation)
    requires Ordered(g, order) && k <= |order|
  {
    match v
    case DependencyNotReady(u, d, why) => Among(order, k, u) && d in g.deps[u] && d in order && Answer(order, probe, d) == Some(why)
    case NodeNotReady(u, why) => Among(order, k, u) && Answer(order, probe, u) == Some(why)
    case _ => false
  }

  lemma DependenciesPrecede(g: Graph, order: seq<Name>, u: Name)
    requires Ordered(g, order) && u in order
    ensures forall d | d in g.deps[u] :: d in order
  {
    var k := Position(order, u);
    assert forall d | d in g.deps[u] :: d in order[..k];
  }

  /** What one node adds to the report. */
  lemma ReportedByNode(g: Graph, order: seq<Name>, probe: (nat, Name) -> Outcome, u: Name, v: Violation)
    requires Ordered(g, order) && u in order
    ensures v in NodeViolations(g, order, probe, u) <==>
              match v
              case DependencyNotReady(user, d, why) => user == u && d in g.deps[u] && d in order && Answer(order, probe, d) == Some(why)
              case NodeNotReady(node, why) => node == u && Answer(order, probe, u) == Some(why)
              case _ => false
  {
    DependenciesPrecede(g, order, u);
    var a := Answer(order, probe, u);
    var first := DependencyViolations(order, probe, u, g.deps[u]);
    var last := if a.Some? then [NodeNotReady(u, a.value)] else [];
    assert v in first + last <==> v in first || v in last;
  }

  /** Every node has one status: it is reported unready, with one reason, at itself and at
      every dependant, or it is reported nowhere. */
  lemma OneStatusPerNode(g: Graph, order: seq<Name>, probe: (nat, Name) -> Outcome, k: nat, v: Violation)
    requires Ordered(g, order) && k <= |order|
    ensures v in WalkViolations(g, order, probe, k) <==> Reported(g, order, probe, k, v)
  {
    var parts := NodeReports(g, order, probe);
    InFlatten(parts, k, v);
    if j :| 0 <= j < k && v in parts[j] {
      ReportedByNode(g, order, probe, order[j], v);
      NextProbe(order, j);
    }
    if Reported(g, order, probe, k, v) {
      var u := if v.DependencyNotReady? then v.user else v.node;
      ReportedByNode(g, order, probe, u, v);
      assert v in parts[Position(order, u)];
    }
  }

  lemma ReportedHasProbe(g: Graph, order: seq<Name>, probe: (nat, Name) -> Outcome, v: Violation) returns (i: nat)
    requires Ordered(g, order) && Reported(g, order, probe, |order|, v)
    ensures i < |order| && probe(i, order[i]).Some?
  {
    i := Position(order, if v.DependencyNotReady? then v.dep else v.node);
  }

  lemma ProbeIsReported(g: Graph, order: seq<Name>, probe: (nat, Name) -> Outcome, i: nat) returns (v: Violation)
    requires Ordered(g, order) && i < |order| && probe(i, order[i]).Some?
    ensures Reported(g, order, probe, |order|, v)
  {
    NextProbe(order, i);
    v := NodeNotReady(order[i], probe(i, order[i]).value);
  }

  lemma SilentIffAllReady(g: Graph, order: seq<Name>, probe: (nat, Name) -> Outcome)
    requires Ordered(g, order)
    ensures WalkViolations(g, order, probe, |order|) == [] <==> forall i | 0 <= i < |order| :: probe(i, order[i]).None?
  {
    var vs := WalkViolations(g, order, probe, |order|);
    if vs != [] {
      OneStatusPerNode(g, order, probe, |order|, vs[0]);
      var i := ReportedHasProbe(g, order, probe, vs[0]);
    }
    if i :| 0 <= i < |order| && probe(i, order[i]).Some? {
      var v := ProbeIsReported(g, order, probe, i);
      OneStatusPerNode(g, order, probe, |order|, v);
    }
  }

  lemma ReadinessOnly(g: Graph, order: seq<Name>, probe: (nat, Name) -> Outcome)
    requires Ordered(g, order)
    ensures forall v | v in WalkViolations(g, order, probe, |order|) :: v.DependencyNotReady? || v.NodeNotReady?
  {
    forall v | v in WalkViolations(g, order, probe, |order|) ensures v.DependencyNotReady? || v.NodeNotReady? {
      OneStatusPerNode(g, order, probe, |order|, v);
    }
  }

  ghost predicate Remembers(cache: map<Name, Outcome>, probe: (nat, Name) -> Outcome, order: seq<Name>, k: nat)
    requires k <= |order|
  {
    && cache.Keys == Elements(order[..k])
    && forall x | x in order && x in cache :: cache[x] == Answer(order, probe, x)
  }

  /** The inner readiness loop: every dependency lookup is a cache hit. */
  method CheckDependencies(readiness: Readiness, u: Name, ds: seq<Name>, ghost order: seq<Name>, ghost k: nat)
    returns (violations: seq<Violation>)
    requires k <= |order| && Remembers(readiness.cache, readiness.probe, order, k)
    requires forall d | d in ds :: d in order && d in readiness.cache
    modifies readiness
    ensures readiness.cache == old(readiness.cache) && readiness.probed == old(readiness.probed)
    ensures violations == DependencyViolations(order, readiness.probe, u, ds)
  {
    violations := [];
    for j := 0 to |ds|
      invariant readiness.cache == old(readiness.cache) && readiness.probed == old(readiness.probed)
      invariant violations == DependencyViolations(order, readiness.probe, u, ds[..j])
    {
      var r := readiness.DepReady(ds[j]);
      assert ds[..j + 1][..j] == ds[..j];
      if r.Some? {
        violations := violations + [DependencyNotReady(u, ds[j], r.value)];
      }
    }
    assert ds[..|ds|] == ds;
  }

  lemma NextProbe(order: seq<Name>, k: nat)
    requires Distinct(order) && k < |order|
    ensures Position(order, order[k]) == k && order[k] !in Elements(order[..k])
    ensures order[..k + 1] == order[..k] + [order[k]]
    ensures Elements(order[..k + 1]) == Elements(order[..k]) + {order[k]}
  {
    assert order[..k + 1] == order[..k] + [order[k]];
  }

  /** One turn of the outer readiness loop. */
  method CheckNode(readiness: Readiness, g: Graph, ghost order: seq<Name>, ghost k: nat, u: Name)
    returns (violations: seq<Violation>)
    requires Ordered(g, order) && k < |order| && u == order[k]
    requires readiness.probed == order[..k] && Remembers(readiness.cache, readiness.probe, order, k)
    modifies readiness
    ensures readiness.probed == order[..k + 1] && Remembers(readiness.cache, readiness.probe, order, k + 1)
    ensures violations == NodeViolations(g, order, readiness.probe, u)
  {
    assert forall d | d in g.deps[u] :: d in order[..k] && d in Elements(order[..k]);
    violations := CheckDependencies(readiness, u, g.deps[u], order, k);
    NextProbe(order, k);
    var r := readiness.DepReady(u);
    if r.Some? {
      violations := violations + [NodeNotReady(u, r.value)];
    }
  }

  /** The readiness loop.  Each node is probed exactly once, in topological order. */
  method WalkOrder(g: Graph, order: seq<Name>, probe: (nat, Name) -> Outcome)
    returns (violations: seq<Violation>, probed: seq<Name>)
    requires Ordered(g, order)
    ensures probed == order
    ensures violations == WalkViolations(g, order, probe, |order|)
  {
    var readiness := new Readiness(probe);
    violations := [];
    for k := 0 to |order|
      invariant readiness.probe == probe && readiness.probed == order[..k]
      invariant Remembers(readiness.cache, probe, order, k)
      invariant violations == WalkViolations(g, order, probe, k)
    {
      var vs := CheckNode(readiness, g, order, k, order[k]);
      violations := violations + vs;
    }
    assert order[..|order|] == order;
    probed := readiness.probed;
  }

  /** What the unknown-dependency pass has found. */
  ghost predicate UnknownOf(g: Graph, unknown: seq<Violation>) {
    && (forall v :: v in unknown <==> v.Unknown? && Edge(g, v.user, v.dep) && v.dep !in g.deps)
    && (unknown == [] <==> Closed(g))
  }

  /** The unknown-dependency pass at the top of `validate_dependency_dag`. */
  method UnknownDependencies(g: Graph) returns (violations: seq<Violation>)
    requires ValidGraph(g)
    ensures UnknownOf(g, violations)
  {
    violations := [];
    for i := 0 to |g.names|
      invariant forall v :: v in violations <==>
                  v.Unknown? && v.user in g.names[..i] && Edge(g, v.user, v.dep) && v.dep !in g.deps
    {
      var n := g.names[i];
      assert n in Elements(g.names);
      assert g.names[..i + 1] == g.names[..i] + [n];
      for j := 0 to |g.deps[n]|
        invariant forall v :: v in violations <==>
                    && v.Unknown? && v.dep !in g.deps
                    && ((v.user in g.names[..i] && Edge(g, v.user, v.dep)) || (v.user == n && v.dep in g.deps[n][..j]))
      {
        assert g.deps[n][..j + 1] == g.deps[n][..j] + [g.deps[n][j]];
        if g.deps[n][j] !in g.deps {
          violations := violations + [Unknown(n, g.deps[n][j])];
        }
      }
      assert g.deps[n][..|g.deps[n]|] == g.deps[n];
    }
    assert g.names[..|g.names|] == g.names;
    assert forall n | n in g.deps :: n in Elements(g.names);
    if violations != [] {
      var v := violations[0];
      assert v in violations;
    }
    if !Closed(g) {
      ghost var u, d :| u in g.deps && d in g.deps[u] && d !in g.deps;
      assert Edge(g, u, d) && Unknown(u, d) in violations;
    }
  }

  ghost predicate Sound(g: Graph) {
    Closed(g) && Acyclic(g) && DuplicateFree(g)
  }

  /** What a report says of the graph and the probes: a sound graph is walked in a topological
      order and each unready node is reported; any other is refused unwalked. */
  ghost predicate Verdict(g: Graph, probe: (nat, Name) -> Outcome, report: Report) {
    && (Sound(g) ==> TopologicalOrder(g, report.order)
                     && report.violations == WalkViolations(g, report.order, probe, |report.order|))
    && (!Sound(g) ==> report.order == [] && report.violations != [])
    && (report.valid <==> Sound(g) && forall i | 0 <= i < |report.order| :: probe(i, report.order[i]).None?)
    && report.valid == report.acyclic == report.checkedInOrder == (report.violations == [])
  }

  /** Which defects of the graph are among the violations. */
  ghost predicate Defects(g: Graph, vs: seq<Violation>) {
    && (SortFailed in vs <==> Closed(g) && Acyclic(g) && !DuplicateFree(g))
    && (forall u, d :: Unknown(u, d) in vs <==> Edge(g, u, d) && d !in g.deps)
    && (forall f :: CycleReport(f) in vs ==> Justified(g, f))
    && (!(Closed(g) && Acyclic(g)) ==> vs != [] && vs[|vs| - 1].CycleReport?)
  }

  lemma OnCycle(g: Graph, probe: (nat, Name) -> Outcome, unknown: seq<Violation>, f: Finding)
    requires UnknownOf(g, unknown) && Justified(g, f)
    ensures Verdict(g, probe, Report(false, [], unknown + [CycleReport(f)], false, false))
    ensures Defects(g, unknown + [CycleReport(f)])
  {
    FindingRefutes(g, f);
    assert forall v :: v in unknown + [CycleReport(f)] <==> v in unknown || v == CycleReport(f);
  }

  lemma OnSortFailure(g: Graph, probe: (nat, Name) -> Outcome, unknown: seq<Violation>)
    requires UnknownOf(g, unknown) && Closed(g) && Acyclic(g) && !DuplicateFree(g)
    ensures Verdict(g, probe, Report(false, [], unknown + [SortFailed], false, false))
    ensures Defects(g, unknown + [SortFailed])
  {
    assert unknown + [SortFailed] == [SortFailed];
    assert forall u, d :: !(Edge(g, u, d) && d !in g.deps);
  }

  lemma NoDefects(g: Graph, vs: seq<Violation>)
    requires Sound(g) && forall v | v in vs :: v.DependencyNotReady? || v.NodeNotReady?
    ensures Defects(g, vs)
  {
    assert forall u, d :: !(Edge(g, u, d) && d !in g.deps);
  }

  lemma OnWalk(g: Graph, probe: (nat, Name) -> Outcome, order: seq<Name>, vs: seq<Violation>)
    requires Sound(g) && TopologicalOrder(g, order) && vs == WalkViolations(g, order, probe, |order|)
    ensures Verdict(g, probe, Report(vs == [], order, vs, vs == [], vs == []))
    ensures Defects(g, vs)
  {
    ReadinessOnly(g, order, probe);
    NoDefects(g, vs);
    SilentIffAllReady(g, order, probe);
  }

  /** `validate_dependency_dag`.  A graph is walked exactly when it is closed, acyclic and
      free of duplicate dependencies; the verdict is then "every probe succeeded".  The
      sort-failure branch is reached exactly by acyclic graphs with a duplicated dependency. */
  method ValidateDependencyDag(g: Graph, probe: (nat, Name) -> Outcome) returns (report: Report, probed: seq<Name>)
    requires ValidGraph(g)
    ensures probed == report.order
    ensures Verdict(g, probe, report)
    ensures Defects(g, report.violations)
  {
    var unknown := UnknownDependencies(g);
    var cyc := DetectCycles(g);
    if cyc.Some? {
      OnCycle(g, probe, unknown, cyc.value);
      return Report(false, [], unknown + [CycleReport(cyc.value)], false, false), [];
    }
    var order := Toposort(g);
    if order.None? {
      OnSortFailure(g, probe, unknown);
      return Report(false, [], unknown + [SortFailed], false, false), [];
    }
    var walk;
    walk, probed := WalkOrder(g, order.value, probe);
    OnWalk(g, probe, order.value, walk);
    var violations := unknown + walk;
    assert violations == walk;
    var valid := |violations| == 0;
    report := Report(valid, order.value, violations, valid, valid);
  }

  /** The verdict on duplicates is real: this acyclic graph is refused for listing "a" twice. */
  lemma DuplicateDependencyIsRefused()
    ensures var g := Graph(["a", "b"], map["a" := [], "b" := ["a", "a"]]);
            ValidGraph(g) && Closed(g) && Acyclic(g) && !DuplicateFree(g)
  {
    var g := Graph(["a", "b"], map["a" := [], "b" := ["a", "a"]]);
    assert Elements(g.names) == {"a", "b"};
    assert ["a", "b"][..1] == ["a"];
    assert TopologicalOrder(g, ["a", "b"]);
    OrderImpliesAcyclic(g, ["a", "b"]);
    assert g.deps["b"][0] == g.deps["b"][1];
  }

  /** The field `acyclic` repeats the verdict: the report on one unready node without
      dependencies denies that the graph is acyclic. */
  lemma UnreadyReportedCyclic(n: Name, why: string, report: Report)
    requires Verdict(Graph([n], map[n := []]), (k: nat, x: Name) => Some(why), report)
    ensures var g := Graph([n], map[n := []]); ValidGraph(g) && Acyclic(g) && Sound(g)
    ensures !report.acyclic && report.order == [n]
  {
    var g := Graph([n], map[n := []]);
    assert Elements(g.names) == {n};
    assert TopologicalOrder(g, [n]);
    OrderImpliesAcyclic(g, [n]);
    assert Sound(g);
    OnlyNode(report.order, n);
  }

  lemma OnlyNode(order: seq<Name>, n: Name)
    requires Distinct(order) && Elements(order) == {n}
    ensures order == [n]
  {
    DistinctSize(order);
    assert order[0] in Elements(order);
  }
}
