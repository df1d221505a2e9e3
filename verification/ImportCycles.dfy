/** The depth-first search for import cycles (scripts/course_bundle_validation.py). */
module ImportCycles {

  type Graph = map<string, seq<string>>

  /** Every edge leads to a node of the graph. */
  ghost predicate Closed(g: Graph) {
    forall n :: n in g ==> forall m :: m in g[n] ==> m in g
  }

  ghost predicate Walk(g: Graph, w: seq<string>) {
    && (forall i :: 0 <= i < |w| ==> w[i] in g)
    && forall i :: 0 < i < |w| ==> w[i] in g[w[i - 1]]
  }

  ghost predicate ClosedWalk(g: Graph, w: seq<string>) {
    Walk(g, w) && |w| >= 2 && w[0] == w[|w| - 1]
  }

  ghost predicate Acyclic(g: Graph) {
    forall w :: !ClosedWalk(g, w)
  }

  predicate Distinct(s: seq<string>) {
    forall i, j :: 0 <= i < j < |s| ==> s[i] != s[j]
  }

  /** In the order in which the search finishes them, nodes come after all their imports. */
  ghost predicate ImportsFirst(g: Graph, order: seq<string>) {
    && Distinct(order)
    && (forall i :: 0 <= i < |order| ==> order[i] in g)
    && forall i :: 0 <= i < |order| ==> forall m :: m in g[order[i]] ==> m in order[..i]
  }

  lemma {:induction false} WalkDescends(g: Graph, order: seq<string>, w: seq<string>, i: nat)
    requires ImportsFirst(g, order) && i < |order| && Walk(g, w) && |w| >= 2 && w[0] == order[i]
    ensures w[|w| - 1] in order[..i]
  {
    assert w[1] in g[w[0]] && w[1] in order[..i];
    if |w| > 2 {
      var j :| 0 <= j < i && order[j] == w[1];
      assert Walk(g, w[1..]) by {
        assert forall k :: 0 < k < |w[1..]| ==> w[1..][k - 1] == w[k] && w[1..][k] == w[k + 1];
      }
      WalkDescends(g, order, w[1..], j);
    }
  }

  lemma FinishedMeansAcyclic(g: Graph, order: seq<string>)
    requires ImportsFirst(g, order) && forall n :: n in g ==> n in order
    ensures Acyclic(g)
  {
    forall w
      ensures !ClosedWalk(g, w)
    {
      if ClosedWalk(g, w) {
        var i :| 0 <= i < |order| && order[i] == w[0];
        WalkDescends(g, order, w, i);
      }
    }
  }

  lemma FinishNode(g: Graph, order: seq<string>, n: string)
    requires ImportsFirst(g, order) && n in g && n !in order && forall m :: m in g[n] ==> m in order
    ensures ImportsFirst(g, order + [n])
  {
    var next := order + [n];
    forall i | 0 <= i < |next|
      ensures forall m :: m in g[next[i]] ==> m in next[..i]
    {
      assert next[..i] == order[..i];
      assert i == |order| ==> order[..i] == order;
    }
  }

  lemma ExtendWalk(g: Graph, w: seq<string>, n: string)
    requires Walk(g, w) && n in g && (w != [] ==> n in g[w[|w| - 1]])
    ensures Walk(g, w + [n])
  {
  }

  lemma CloseWalk(g: Graph, w: seq<string>, n: string, start: nat)
    requires Walk(g, w + [n]) && start < |w| && w[start] == n
    ensures ClosedWalk(g, w[start..] + [n])
  {
    var c := w[start..] + [n];
    assert forall k :: 0 <= k < |c| ==> c[k] == (w + [n])[start + k];
  }

  /** The state of one search: the stack of open nodes and the set of closed ones. */
  class CycleSearch {
    const graph: Graph
    var visiting: seq<string>
    var visited: set<string>
    ghost var finished: seq<string>

    ghost predicate Valid()
      reads this
    {
      && Closed(graph) && Walk(graph, visiting) && Distinct(visiting)
      && (forall n :: n in visiting ==> n !in visited)
      && ImportsFirst(graph, finished) && forall n :: n in finished <==> n in visited
    }

    constructor (g: Graph)
      requires Closed(g)
      ensures Valid() && graph == g && visiting == [] && visited == {}
    {
      graph, visiting, visited, finished := g, [], {}, [];
    }

    /** `visit`: the empty sequence stands for None. */
    method Visit(n: string) returns (cycle: seq<string>)
      requires Valid() && n in graph && (visiting != [] ==> n in graph[visiting[|visiting| - 1]])
      modifies this
      ensures cycle != [] ==> ClosedWalk(graph, cycle)
      ensures cycle == [] ==> Valid() && visiting == old(visiting) && old(visited) <= visited && n in visited
      decreases graph.Keys - (set v | v in visiting), 1
    {
      ExtendWalk(graph, visiting, n);
      if n in visiting {
        var start :| 0 <= start < |visiting| && visiting[start] == n;
        CloseWalk(graph, visiting, n, start);
        return visiting[start..] + [n];
      }
      if n in visited {
        return [];
      }
      ghost var above := visiting;
      visiting := visiting + [n];
      cycle := VisitImports(n, above);
      if cycle == [] {
        FinishNode(graph, finished, n);
        visiting := visiting[..|visiting| - 1];
        visited, finished := visited + {n}, finished + [n];
      }
    }

    method VisitImports(n: string, ghost above: seq<string>) returns (cycle: seq<string>)
      requires Valid() && n in graph && visiting == above + [n] && n !in above
      modifies this
      ensures cycle != [] ==> ClosedWalk(graph, cycle)
      ensures cycle == [] ==> Valid() && visiting == old(visiting) && old(visited) <= visited
      ensures cycle == [] ==> forall m :: m in graph[n] ==> m in visited
      decreases graph.Keys - (set v | v in above), 0
    {
      var imports := graph[n];
      ghost var outer, inner := graph.Keys - (set v | v in above), graph.Keys - (set v | v in above + [n]);
      assert inner == outer - {n} && n in outer;
      for i := 0 to |imports|
        invariant Valid() && visiting == above + [n] && old(visited) <= visited
        invariant forall k :: 0 <= k < i ==> imports[k] in visited
      {
        cycle := Visit(imports[i]);
        if cycle != [] {
          return;
        }
      }
      return [];
    }
  }

  /** `_cycle_errors`, for the nodes of the graph in the order of its dictionary: it reports nothing
      exactly when the graph is acyclic, and what it reports is a closed walk. */
  method FindCycle(graph: Graph, order: seq<string>) returns (cycle: seq<string>)
    requires Closed(graph) && forall n :: n in order <==> n in graph
    ensures cycle == [] <==> Acyclic(graph)
    ensures cycle != [] ==> ClosedWalk(graph, cycle)
  {
    var search := new CycleSearch(graph);
    for i := 0 to |order|
      invariant search.Valid() && search.visiting == [] && search.graph == graph
      invariant forall k :: 0 <= k < i ==> order[k] in search.visited
    {
      cycle := search.Visit(order[i]);
      if cycle != [] {
        return;
      }
    }
    FinishedMeansAcyclic(graph, search.finished);
    return [];
  }
}
