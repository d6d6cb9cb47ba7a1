/** `_detect_cycles`: the three-colour depth-first search. */
module CycleDetection {
  import opened Common
  import opened DependencyGraph

  datatype Color = White | Gray | Black

  datatype Finding =
    | UnknownDependency(dep: Name, user: Name)
    | CycleFound(path: seq<Name>)

  /** What a reported finding has to exhibit: a dependency that is no node, or a walk along
      dependency edges that ends by returning to one of its own nodes. */
  ghost predicate Justified(g: Graph, f: Finding) {
    match f
    case UnknownDependency(dep, user) => Edge(g, user, dep) && dep !in g.deps
    case CycleFound(path) =>
      Walk(g, path) && exists j :: 0 <= j < |path| - 1 && path[j] == path[|path| - 1]
  }

  lemma FindingRefutes(g: Graph, f: Finding)
    requires Justified(g, f)
    ensures f.UnknownDependency? ==> !Closed(g)
    ensures f.CycleFound? ==> !Acyclic(g)
  {
    if f.CycleFound? {
      var j :| 0 <= j < |f.path| - 1 && f.path[j] == f.path[|f.path| - 1];
      ClosedWalk(g, f.path, j);
    }
  }

  lemma BackEdge(g: Graph, p: seq<Name>, v: Name)
    requires Walk(g, p) && v in p && Edge(g, p[|p| - 1], v)
    ensures Justified(g, CycleFound(p + [v]))
  {
    WalkExtend(g, p, v);
    var path, j := p + [v], Position(p, v);
    assert path[j] == path[|path| - 1];
  }

  // ----- colours, recursion stack and finished nodes, as values

  /** The gray nodes are those on the stack, the black ones those finished. */
  ghost predicate Painted(color: map<Name, Color>, stack: seq<Name>, finished: seq<Name>) {
    forall n | n in color :: (color[n] == Gray <==> n in stack) && (color[n] == Black <==> n in finished)
  }

  /** The stack is a walk without repetition; dependencies finish first. */
  ghost predicate Consistent(g: Graph, color: map<Name, Color>, stack: seq<Name>, finished: seq<Name>) {
    && ValidGraph(g)
    && color.Keys == g.deps.Keys
    && Painted(color, stack, finished)
    && Distinct(stack) && Elements(stack) <= g.deps.Keys && Walk(g, stack)
    && Ordered(g, finished)
  }

  ghost function Unvisited(color: map<Name, Color>): set<Name> {
    set n | n in color && color[n] == White
  }

  lemma PushKeeps(g: Graph, color: map<Name, Color>, stack: seq<Name>, finished: seq<Name>, u: Name)
    requires Consistent(g, color, stack, finished) && u in color && color[u] == White
    requires stack == [] || Edge(g, stack[|stack| - 1], u)
    ensures Consistent(g, color[u := Gray], stack + [u], finished)
    ensures Unvisited(color[u := Gray]) == Unvisited(color) - {u}
  {
    WalkExtend(g, stack, u);
    DistinctSnoc(stack, u);
    assert Elements(stack + [u]) == Elements(stack) + {u};
    assert forall n :: n in stack + [u] <==> n in stack || n == u;
  }

  /** Popping the stack takes off exactly the node on top. */
  lemma PopWalk(g: Graph, rest: seq<Name>, u: Name)
    requires Distinct(rest + [u]) && Walk(g, rest + [u])
    ensures (rest + [u])[..|rest|] == rest && Distinct(rest) && Walk(g, rest)
    ensures u !in rest && forall n :: n in rest + [u] <==> n in rest || n == u
  {
    var p := rest + [u];
    DistinctSnoc(rest, u);
    assert forall i | 0 <= i < |rest| :: p[i] == rest[i];
  }

  lemma RepaintBlack(color: map<Name, Color>, rest: seq<Name>, finished: seq<Name>, u: Name)
    requires Painted(color, rest + [u], finished) && u in color && u !in rest
    requires forall n :: n in rest + [u] <==> n in rest || n == u
    ensures color[u] == Gray && u !in finished
    ensures Painted(color[u := Black], rest, finished + [u])
    ensures Unvisited(color[u := Black]) == Unvisited(color)
  {
    assert forall n :: n in finished + [u] <==> n in finished || n == u;
  }

  lemma FinishLast(g: Graph, finished: seq<Name>, u: Name)
    requires Ordered(g, finished) && u in g.deps && u !in finished && Elements(g.deps[u]) <= Elements(finished)
    ensures Ordered(g, finished + [u])
  {
    assert forall d | d in g.deps[u] :: d in Elements(g.deps[u]) && d in Elements(finished);
    OrderedExtend(g, finished, u);
  }

  lemma PopKeeps(g: Graph, color: map<Name, Color>, rest: seq<Name>, finished: seq<Name>, u: Name)
    requires Consistent(g, color, rest + [u], finished) && u in g.deps && Elements(g.deps[u]) <= Elements(finished)
    ensures Consistent(g, color[u := Black], rest, finished + [u])
    ensures Unvisited(color[u := Black]) == Unvisited(color) && (rest + [u])[..|rest|] == rest
  {
    PopWalk(g, rest, u);
    RepaintBlack(color, rest, finished, u);
    FinishLast(g, finished, u);
    assert Elements(rest) <= Elements(rest + [u]);
  }

  lemma NextElement(ds: seq<Name>, i: nat)
    requires i < |ds|
    ensures Elements(ds[..i + 1]) == Elements(ds[..i]) + {ds[i]}
  {
    assert ds[..i + 1] == ds[..i] + [ds[i]];
  }

  lemma AllElements(ds: seq<Name>, i: nat)
    requires i == |ds|
    ensures ds[..i] == ds
  {
  }

  /** The closure state of `_detect_cycles`: the colours and the recursion stack.
      `finished` records the order in which nodes turn black. */
  class Search {
    const g: Graph
    var color: map<Name, Color>
    var stack: seq<Name>
    ghost var finished: seq<Name>

    ghost predicate Valid()
      reads this
    {
      Consistent(g, color, stack, finished)
    }

    ghost function Whites(): set<Name>
      reads this
    {
      Unvisited(color)
    }

    constructor (g: Graph)
      requires ValidGraph(g)
      ensures Valid() && this.g == g && stack == [] && finished == []
      ensures forall n | n in color :: color[n] == White
    {
      this.g := g;
      this.color := map n | n in g.names :: White;
      this.stack := [];
      this.finished := [];
    }

    /** The first two statements of `visit`: grey the node and push it. */
    method Enter(u: Name)
      requires Valid() && u in color && color[u] == White
      requires stack == [] || Edge(g, stack[|stack| - 1], u)
      modifies this
      ensures Valid() && stack == old(stack) + [u] && finished == old(finished)
      ensures Whites() == old(Whites()) - {u}
    {
      PushKeeps(g, color, stack, finished, u);
      color := color[u := Gray];
      stack := stack + [u];
    }

    /** The nested function `visit`. */
    method Visit(u: Name) returns (err: Option<Finding>)
      requires Valid() && u in color && color[u] == White
      requires stack == [] || Edge(g, stack[|stack| - 1], u)
      modifies this
      ensures err.None? ==> Valid() && stack == old(stack) && u in color && color[u] == Black
      ensures err.None? ==> Elements(old(finished)) <= Elements(finished) && Whites() <= old(Whites()) - {u}
      ensures err.Some? ==> Justified(g, err.value)
      decreases Whites(), 0
    {
      ghost var stack0, whites0, finished0 := stack, Whites(), Elements(finished);
      Enter(u);
      ghost var done := {};
      var i := 0;
      while i < |g.deps[u]|
        invariant 0 <= i <= |g.deps[u]| && done == Elements(g.deps[u][..i])
        invariant Valid() && stack == stack0 + [u]
        invariant finished0 + done <= Elements(finished) && Whites() <= whites0 - {u}
      {
        NextElement(g.deps[u], i);
        err := VisitDependency(u, g.deps[u][i]);
        if err.Some? {
          return;
        }
        done := done + {g.deps[u][i]};
        i := i + 1;
      }
      AllElements(g.deps[u], i);
      Finish(u, stack0);
      err := None;
    }

    /** One turn of the loop of `visit`. */
    method VisitDependency(u: Name, v: Name) returns (err: Option<Finding>)
      requires Valid() && stack != [] && u == stack[|stack| - 1] && Edge(g, u, v)
      modifies this
      ensures err.None? ==> Valid() && stack == old(stack) && v in Elements(finished)
      ensures err.None? ==> Elements(old(finished)) <= Elements(finished) && Whites() <= old(Whites())
      ensures err.Some? ==> Justified(g, err.value)
      decreases Whites(), 1
    {
      if v !in g.deps {
        return Some(UnknownDependency(v, u));
      }
      if color[v] == Gray {
        BackEdge(g, stack, v);
        return Some(CycleFound(stack + [v]));
      }
      if color[v] == White {
        err := Visit(v);
        return;
      }
      return None;
    }

    /** The last two statements of `visit`: pop the stack and blacken. */
    method Finish(u: Name, ghost rest: seq<Name>)
      requires Valid() && stack == rest + [u] && u in g.deps
      requires Elements(g.deps[u]) <= Elements(finished)
      modifies this
      ensures Valid() && stack == rest && u in color && color[u] == Black
      ensures finished == old(finished) + [u] && Whites() == old(Whites())
    {
      PopKeeps(g, color, rest, finished, u);
      stack := stack[..|stack| - 1];
      color := color[u := Black];
      finished := finished + [u];
    }
  }

  /** The search reports nothing exactly when every dependency is a node and no cycle
      exists; otherwise what it reports is really there. */
  method DetectCycles(g: Graph) returns (r: Option<Finding>)
    requires ValidGraph(g)
    ensures r.None? <==> Closed(g) && Acyclic(g)
    ensures r.Some? ==> Justified(g, r.value)
  {
    var search := new Search(g);
    for i := 0 to |g.names|
      invariant search.Valid() && search.g == g && search.stack == []
      invariant forall k | 0 <= k < i :: g.names[k] in search.finished
    {
      var n := g.names[i];
      assert n in Elements(g.names);
      if search.color[n] == White {
        ghost var before := search.finished;
        var err := search.Visit(n);
        if err.Some? {
          FindingRefutes(g, err.value);
          return err;
        }
        assert forall k | 0 <= k < i :: g.names[k] in Elements(before);
      }
    }
    assert Elements(search.finished) == g.deps.Keys;
    OrderImpliesAcyclic(g, search.finished);
    return None;
  }
}
