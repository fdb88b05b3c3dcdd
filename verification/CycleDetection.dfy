/**
 * The three-colour depth-first search for cycles (src/deps.ts:837-880) and the edge filter
 * built on it (src/external/insight-provider.ts:39-47, 147-150).
 */
module CycleDetection {
  import opened Names
  import opened Graphs

  datatype Color = White | Gray | Black

  ghost predicate OnCycle(c: seq<Name>, e: Edge) {
    exists i, j :: 0 <= i < j < |c| && j == i + 1 && c[i] == e.from && c[j] == e.to
  }

  ghost predicate OnSomeCycle(cycles: seq<seq<Name>>, e: Edge) {
    exists c :: c in cycles && OnCycle(c, e)
  }

  /** A closed walk that meets no file twice, except that it ends where it starts. */
  ghost predicate IsSimpleCycle(g: Graph, c: seq<Name>) {
    IsClosedWalk(g, c) && Distinct(c[..|c| - 1])
  }

  lemma OnSomeCycleGrows(cycles: seq<seq<Name>>, more: seq<seq<Name>>, e: Edge)
    requires OnSomeCycle(cycles, e) && cycles <= more
    ensures OnSomeCycle(more, e)
  {
    var c :| c in cycles && OnCycle(c, e);
    assert c in more;
  }

  function IndexOf(s: seq<Name>, x: Name): (i: nat)
    requires x in s
    ensures i < |s| && s[i] == x && x !in s[..i]
  {
    if s[0] == x then 0
    else
      assert s == [s[0]] + s[1..];
      var k := IndexOf(s[1..], x);
      assert s[..k + 1] == [s[0]] + s[1..][..k];
      k + 1
  }

  ghost predicate Settled(g: Graph, cycles: seq<seq<Name>>, earlier: seq<Name>, x: Name) {
    forall y :: DependsOn(g, x, y) ==> y in earlier || OnSomeCycle(cycles, Edge(x, y))
  }

  /** Every dependency of a finished file finished before it or lies on a reported cycle. */
  ghost predicate FinishOrder(g: Graph, cycles: seq<seq<Name>>, finished: seq<Name>) {
    forall i :: 0 <= i < |finished| ==> Settled(g, cycles, finished[..i], finished[i])
  }

  ghost predicate Colored(g: Graph, color: map<Name, Color>, path: seq<Name>, finished: seq<Name>) {
    && color.Keys == Members(g.files)
    && Distinct(path) && Distinct(finished)
    && (forall f :: f in path <==> f in color && color[f] == Gray)
    && (forall f :: f in finished <==> f in color && color[f] == Black)
  }

  ghost predicate SearchState(g: Graph, color: map<Name, Color>, path: seq<Name>,
                              cycles: seq<seq<Name>>, finished: seq<Name>) {
    && Colored(g, color, path, finished)
    && IsWalk(g, path)
    && (forall c :: c in cycles ==> IsSimpleCycle(g, c))
    && FinishOrder(g, cycles, finished)
  }

  function Whites(color: map<Name, Color>): set<Name> {
    set f | f in color && color[f] == White
  }

  lemma FinishOrderGrows(g: Graph, cycles: seq<seq<Name>>, more: seq<seq<Name>>, finished: seq<Name>)
    requires FinishOrder(g, cycles, finished) && cycles <= more
    ensures FinishOrder(g, more, finished)
  {
    forall i, y | 0 <= i < |finished| && DependsOn(g, finished[i], y)
      ensures y in finished[..i] || OnSomeCycle(more, Edge(finished[i], y))
    {
      assert Settled(g, cycles, finished[..i], finished[i]);
      if y !in finished[..i] { OnSomeCycleGrows(cycles, more, Edge(finished[i], y)); }
    }
  }

  lemma Enter(g: Graph, color: map<Name, Color>, path: seq<Name>, cycles: seq<seq<Name>>,
              finished: seq<Name>, node: Name)
    requires SearchState(g, color, path, cycles, finished)
    requires node in color && color[node] == White
    requires path != [] ==> DependsOn(g, path[|path| - 1], node)
    ensures SearchState(g, color[node := Gray], path + [node], cycles, finished)
    ensures Whites(color[node := Gray]) < Whites(color)
  {
    WalkAppend(g, path, node);
    assert node in Whites(color);
  }

  lemma BackEdge(g: Graph, color: map<Name, Color>, path: seq<Name>, cycles: seq<seq<Name>>,
                 finished: seq<Name>, neighbor: Name) returns (cycle: seq<Name>)
    requires SearchState(g, color, path, cycles, finished)
    requires neighbor in path && DependsOn(g, path[|path| - 1], neighbor)
    ensures cycle == path[IndexOf(path, neighbor)..] + [neighbor]
    ensures SearchState(g, color, path, cycles + [cycle], finished)
    ensures OnSomeCycle(cycles + [cycle], Edge(path[|path| - 1], neighbor))
  {
    var start := IndexOf(path, neighbor);
    cycle := path[start..] + [neighbor];
    WalkAppend(g, path[start..], neighbor);
    assert IsSimpleCycle(g, cycle) by { assert cycle[..|cycle| - 1] == path[start..]; }
    assert OnCycle(cycle, Edge(path[|path| - 1], neighbor)) by {
      assert cycle[|cycle| - 2] == path[|path| - 1] && cycle[|cycle| - 1] == neighbor;
    }
    FinishOrderGrows(g, cycles, cycles + [cycle], finished);
    assert cycle in cycles + [cycle];
  }

  lemma LeaveColors(g: Graph, color: map<Name, Color>, path: seq<Name>, finished: seq<Name>, node: Name)
    requires Colored(g, color, path + [node], finished)
    ensures Colored(g, color[node := Black], path, finished + [node])
    ensures Whites(color[node := Black]) == Whites(color)
  {
    assert (path + [node])[|path|] == node;
    assert node in path + [node] && color[node] == Gray;
    assert forall k :: 0 <= k < |path| ==> (path + [node])[k] == path[k];
  }

  lemma LeaveOrder(g: Graph, cycles: seq<seq<Name>>, finished: seq<Name>, node: Name)
    requires FinishOrder(g, cycles, finished) && Settled(g, cycles, finished, node)
    ensures FinishOrder(g, cycles, finished + [node])
  {
    var after := finished + [node];
    forall i | 0 <= i < |after| ensures Settled(g, cycles, after[..i], after[i]) {
      assert after[..i] == finished[..i];
    }
  }

  lemma Leave(g: Graph, color: map<Name, Color>, path: seq<Name>, cycles: seq<seq<Name>>, finished: seq<Name>)
    requires SearchState(g, color, path, cycles, finished) && path != []
    requires Settled(g, cycles, finished, path[|path| - 1])
    ensures SearchState(g, color[path[|path| - 1] := Black], path[..|path| - 1], cycles, finished + [path[|path| - 1]])
    ensures Whites(color[path[|path| - 1] := Black]) == Whites(color)
  {
    var node := path[|path| - 1];
    assert path == path[..|path| - 1] + [node];
    LeaveColors(g, color, path[..|path| - 1], finished, node);
    LeaveOrder(g, cycles, finished, node);
  }

  ghost predicate Handled(cycles: seq<seq<Name>>, finished: seq<Name>, node: Name, neighbors: seq<Name>) {
    forall y :: y in neighbors ==> y in finished || OnSomeCycle(cycles, Edge(node, y))
  }

  lemma HandledGrows(cycles: seq<seq<Name>>, finished: seq<Name>, node: Name, neighbors: seq<Name>,
                     cycles': seq<seq<Name>>, finished': seq<Name>, next: Name)
    requires Handled(cycles, finished, node, neighbors)
    requires cycles <= cycles' && finished <= finished'
    requires next in finished' || OnSomeCycle(cycles', Edge(node, next))
    ensures Handled(cycles', finished', node, neighbors + [next])
  {
    forall y | y in neighbors && y !in finished ensures OnSomeCycle(cycles', Edge(node, y)) {
      OnSomeCycleGrows(cycles, cycles', Edge(node, y));
    }
  }

  /** The search's local functions share these variables (src/deps.ts:838-852). */
  class CycleFinder {
    const graph: Graph
    const adjacency: map<Name, seq<Name>>
    var color: map<Name, Color>
    var path: seq<Name>
    var cycles: seq<seq<Name>>
    ghost var finished: seq<Name>

    ghost predicate Valid() reads this {
      && graph.WellFormed()
      && adjacency.Keys == Members(graph.files)
      && (forall f, x :: f in adjacency ==> (x in adjacency[f] <==> DependsOn(graph, f, x)))
      && SearchState(graph, color, path, cycles, finished)
    }

    constructor (g: Graph)
      requires g.WellFormed()
      ensures Valid() && graph == g
      ensures path == [] && cycles == [] && finished == []
    {
      var adj: map<Name, seq<Name>>, col: map<Name, Color> := map[], map[];
      for i := 0 to |g.files|
        invariant adj.Keys == col.Keys == Members(g.files[..i])
        invariant forall f :: f in adj ==> adj[f] == [] && col[f] == White
      {
        assert g.files[..i + 1] == g.files[..i] + [g.files[i]];
        adj, col := adj[g.files[i] := []], col[g.files[i] := White];
      }
      assert g.files[..|g.files|] == g.files;
      for i := 0 to |g.edges|
        invariant adj.Keys == Members(g.files)
        invariant forall f, x :: f in adj ==> (x in adj[f] <==> Edge(f, x) in g.edges[..i])
      {
        var edge := g.edges[i];
        assert edge in g.edges;
        assert g.edges[..i + 1] == g.edges[..i] + [edge];
        adj := adj[edge.from := adj[edge.from] + [edge.to]];
      }
      assert g.edges[..|g.edges|] == g.edges;
      graph, adjacency, color := g, adj, col;
      path, cycles, finished := [], [], [];
    }

    lemma NeighborsAreFiles(node: Name)
      requires Valid() && node in color
      ensures node in adjacency
      ensures forall y :: y in adjacency[node] ==> y in color && DependsOn(graph, node, y)
    {
      forall y | y in adjacency[node] ensures y in color {
        assert Edge(node, y).to in graph.files;
      }
    }

    /** One dependency of the file on top of the path (the body of the loop at src/deps.ts:859-867). */
    method Examine(node: Name, neighbor: Name)
      requires Valid() && path != [] && path[|path| - 1] == node
      requires neighbor in color && DependsOn(graph, node, neighbor)
      modifies this
      ensures Valid() && path == old(path)
      ensures old(cycles) <= cycles && old(finished) <= finished
      ensures Whites(color) <= old(Whites(color))
      ensures neighbor in finished || OnSomeCycle(cycles, Edge(node, neighbor))
      decreases Whites(color), 1
    {
      var c := color[neighbor];
      if c == Gray {
        ghost var cycle := BackEdge(graph, color, path, cycles, finished, neighbor);
        var cycleStart := IndexOf(path, neighbor);
        cycles := cycles + [path[cycleStart..] + [neighbor]];
      } else if c == White {
        Visit(neighbor);
      }
    }

    lemma AllHandled(node: Name)
      requires Valid() && node in adjacency && Handled(cycles, finished, node, adjacency[node])
      ensures Settled(graph, cycles, finished, node)
    {
    }

    method ExamineAll(node: Name, neighbors: seq<Name>)
      requires Valid() && path != [] && path[|path| - 1] == node
      requires forall y :: y in neighbors ==> y in color && DependsOn(graph, node, y)
      modifies this
      ensures Valid() && path == old(path)
      ensures old(cycles) <= cycles && old(finished) <= finished
      ensures Whites(color) <= old(Whites(color))
      ensures Handled(cycles, finished, node, neighbors)
      decreases Whites(color), 2
    {
      for j := 0 to |neighbors|
        invariant Valid() && path == old(path) && color.Keys == old(color.Keys)
        invariant old(cycles) <= cycles && old(finished) <= finished
        invariant Whites(color) <= old(Whites(color))
        invariant Handled(cycles, finished, node, neighbors[..j])
      {
        ghost var before, done := cycles, finished;
        assert neighbors[j] in neighbors;
        Examine(node, neighbors[j]);
        HandledGrows(before, done, node, neighbors[..j], cycles, finished, neighbors[j]);
        assert neighbors[..j + 1] == neighbors[..j] + [neighbors[j]];
      }
      assert neighbors[..|neighbors|] == neighbors;
    }

    method Open(node: Name)
      requires Valid() && node in color && color[node] == White
      requires path != [] ==> DependsOn(graph, path[|path| - 1], node)
      modifies this
      ensures Valid() && path == old(path) + [node] && node in adjacency
      ensures cycles == old(cycles) && finished == old(finished)
      ensures forall y :: y in adjacency[node] ==> y in color && DependsOn(graph, node, y)
      ensures Whites(color) < old(Whites(color))
    {
      Enter(graph, color, path, cycles, finished, node);
      color, path := color[node := Gray], path + [node];
      NeighborsAreFiles(node);
    }

    method Close(node: Name)
      requires Valid() && path != [] && path[|path| - 1] == node
      requires Settled(graph, cycles, finished, node)
      modifies this
      ensures Valid() && path == old(path[..|path| - 1])
      ensures cycles == old(cycles) && finished == old(finished) + [node]
      ensures Whites(color) == old(Whites(color))
    {
      Leave(graph, color, path, cycles, finished);
      path := path[..|path| - 1];
      color, finished := color[node := Black], finished + [node];
    }

    method Visit(node: Name)
      requires Valid() && node in color && color[node] == White
      requires path != [] ==> DependsOn(graph, path[|path| - 1], node)
      modifies this
      ensures Valid()
      ensures path == old(path) && node in finished
      ensures old(cycles) <= cycles && old(finished) <= finished
      ensures Whites(color) < old(Whites(color))
      decreases Whites(color), 0
    {
      Open(node);
      ExamineAll(node, adjacency[node]);
      AllHandled(node);
      Close(node);
    }

    lemma NotWhiteIsFinished(f: Name)
      requires Valid() && path == [] && f in graph.files
      ensures f in color && (color[f] != White ==> f in finished)
    {
      assert f in Members(graph.files);
      assert f !in path;
    }

    method VisitAll()
      requires Valid() && path == []
      modifies this
      ensures Valid()
      ensures forall k :: 0 <= k < |graph.files| ==> graph.files[k] in finished
    {
      for i := 0 to |graph.files|
        invariant Valid() && path == []
        invariant forall k :: 0 <= k < i ==> graph.files[k] in finished
      {
        NotWhiteIsFinished(graph.files[i]);
        if color[graph.files[i]] == White {
          Visit(graph.files[i]);
        }
      }
    }
  }

  /**
   * Reports only genuine cycles without detours, reports at least one exactly when the graph has a cycle,
   * and puts at least one edge of every cycle on a reported one.
   */
  method DetectCycles(g: Graph) returns (cycles: seq<seq<Name>>)
    requires g.WellFormed()
    ensures forall c :: c in cycles ==> IsSimpleCycle(g, c)
    ensures cycles != [] <==> HasCycle(g)
    ensures !HasCycle(Graph(g.files, OffCycles(g.edges, cycles)))
  {
    var finder := new CycleFinder(g);
    finder.VisitAll();
    cycles := finder.cycles;
    CutIsAcyclic(g, cycles, finder.finished);
    if cycles == [] {
      OffNoCycles(g.edges);
    } else {
      assert IsSimpleCycle(g, cycles[0]);
    }
  }

  /** The edges of es on no reported cycle, in their order. */
  ghost function OffCycles(es: seq<Edge>, cycles: seq<seq<Name>>): (r: seq<Edge>)
    ensures forall e :: e in r <==> e in es && !OnSomeCycle(cycles, e)
  {
    if es == [] then []
    else
      var init, last := es[..|es| - 1], es[|es| - 1];
      assert es == init + [last];
      OffCycles(init, cycles) + if OnSomeCycle(cycles, last) then [] else [last]
  }

  lemma {:induction false} OffNoCycles(es: seq<Edge>)
    ensures OffCycles(es, []) == es
  {
    if es != [] {
      OffNoCycles(es[..|es| - 1]);
      assert es == es[..|es| - 1] + [es[|es| - 1]];
    }
  }

  lemma CutIsAcyclic(g: Graph, cycles: seq<seq<Name>>, finished: seq<Name>)
    requires g.WellFormed()
    requires FinishOrder(g, cycles, finished) && Distinct(finished)
    requires forall k :: 0 <= k < |g.files| ==> g.files[k] in finished
    ensures !HasCycle(Graph(g.files, OffCycles(g.edges, cycles)))
  {
    var cut := Graph(g.files, OffCycles(g.edges, cycles));
    forall k, y | 0 <= k < |finished| && DependsOn(cut, finished[k], y) ensures y in finished[..k] {
      assert Settled(g, cycles, finished[..k], finished[k]);
      assert DependsOn(g, finished[k], y);
    }
    forall e | e in cut.edges ensures e.from in finished {
      assert e in g.edges && e.from in g.files;
    }
    OrderedIsAcyclic(cut, finished);
  }

  method CollectCycleEdgeKeys(cycles: seq<seq<Name>>) returns (keys: set<Edge>)
    ensures forall e :: e in keys <==> OnSomeCycle(cycles, e)
  {
    keys := {};
    for k := 0 to |cycles|
      invariant forall e :: e in keys <==> OnSomeCycle(cycles[..k], e)
    {
      var cycle := cycles[k];
      var i := 0;
      while i < |cycle| - 1
        invariant 0 <= i && (|cycle| > 0 ==> i <= |cycle| - 1)
        invariant forall e :: e in keys <==>
          OnSomeCycle(cycles[..k], e) || OnCycle(cycle[..if cycle == [] then 0 else i + 1], e)
      {
        OnCycleExtends(cycle, i + 1);
        keys := keys + {Edge(cycle[i], cycle[i + 1])};
        i := i + 1;
      }
      assert cycle[..|cycle|] == cycle;
      assert cycles[..k + 1] == cycles[..k] + [cycle];
      assert forall e :: OnSomeCycle(cycles[..k + 1], e) <==> OnSomeCycle(cycles[..k], e) || OnCycle(cycle, e);
    }
    assert cycles[..|cycles|] == cycles;
  }

  lemma OnCycleExtends(c: seq<Name>, n: nat)
    requires 1 <= n < |c|
    ensures forall e :: OnCycle(c[..n + 1], e) <==> OnCycle(c[..n], e) || e == Edge(c[n - 1], c[n])
  {
    forall e ensures OnCycle(c[..n + 1], e) <==> OnCycle(c[..n], e) || e == Edge(c[n - 1], c[n]) {
      if OnCycle(c[..n], e) {
        var i, j :| 0 <= i < j < n && j == i + 1 && c[..n][i] == e.from && c[..n][j] == e.to;
        assert c[..n + 1][i] == e.from && c[..n + 1][j] == e.to;
      }
      if e == Edge(c[n - 1], c[n]) {
        assert c[..n + 1][n - 1] == e.from && c[..n + 1][n] == e.to;
      }
      if OnCycle(c[..n + 1], e) {
        var i, j :| 0 <= i < j < n + 1 && j == i + 1 && c[..n + 1][i] == e.from && c[..n + 1][j] == e.to;
        if j < n { assert c[..n][i] == e.from && c[..n][j] == e.to; }
      }
    }
  }

  /** An edge on a closed walk leads back to where it starts. */
  lemma CycleEdgeReturns(g: Graph, c: seq<Name>, e: Edge)
    requires IsClosedWalk(g, c) && OnCycle(c, e)
    ensures e in g.edges && (e.to == e.from || Reaches(g, e.to, e.from))
  {
    var i, j :| 0 <= i < j < |c| && j == i + 1 && c[i] == e.from && c[j] == e.to;
    assert DependsOn(g, c[i], c[j]);
    if j < |c| - 1 {
      assert IsChain(g, c[j..], e.to, c[0]);
      if i > 0 {
        assert IsChain(g, c[..i + 1], c[0], e.from);
        ReachesTransitive(g, e.to, c[0], e.from);
      }
    } else if i > 0 {
      assert IsChain(g, c[..i + 1], e.to, e.from);
    }
  }

  method EdgesOffCycles(g: Graph, cycles: seq<seq<Name>>) returns (edges: seq<Edge>)
    ensures edges == OffCycles(g.edges, cycles)
  {
    var keys := CollectCycleEdgeKeys(cycles);
    edges := [];
    for i := 0 to |g.edges|
      invariant edges == OffCycles(g.edges[..i], cycles)
    {
      assert g.edges[..i + 1][..i] == g.edges[..i];
      if g.edges[i] !in keys { edges := edges + [g.edges[i]]; }
    }
    assert g.edges[..|g.edges|] == g.edges;
  }

  /**
   * The exported edges never form a cycle, and only dependencies that lead back to their own
   * source are missing from them.
   */
  method BuildExternalEdges(g: Graph) returns (edges: seq<Edge>)
    requires g.WellFormed()
    ensures !HasCycle(Graph(g.files, edges))
    ensures forall e :: e in edges ==> e in g.edges
    ensures forall e :: e in g.edges && e !in edges ==> e.to == e.from || Reaches(g, e.to, e.from)
    ensures !HasCycle(g) ==> edges == g.edges
  {
    var cycles := DetectCycles(g);
    edges := EdgesOffCycles(g, cycles);
    forall e | e in g.edges && e !in edges ensures e.to == e.from || Reaches(g, e.to, e.from) {
      var c :| c in cycles && OnCycle(c, e);
      CycleEdgeReturns(g, c, e);
    }
    if cycles == [] { OffNoCycles(g.edges); }
  }
}
