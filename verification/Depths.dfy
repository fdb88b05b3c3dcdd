/** The memoised depth computation (src/commands/deps.ts:96-130). */
module Depths {
  import opened Names
  import opened Graphs

  ghost predicate WalkFrom(g: Graph, p: seq<Name>, f: Name) {
    |p| >= 1 && p[0] == f && IsWalk(g, p)
  }

  ghost predicate Attained(g: Graph, f: Name, d: nat) {
    exists p :: WalkFrom(g, p, f) && |p| == d + 1
  }

  ghost predicate Bounded(g: Graph, f: Name, d: nat) {
    forall p :: WalkFrom(g, p, f) ==> |p| <= d + 1
  }

  /** d is the number of dependencies on the longest dependency chain starting at f. */
  ghost predicate IsLongestChain(g: Graph, f: Name, d: nat) {
    Attained(g, f, d) && Bounded(g, f, d)
  }

  lemma LongestChainIsUnique(g: Graph, f: Name, d: nat, e: nat)
    requires IsLongestChain(g, f, d) && IsLongestChain(g, f, e)
    ensures d == e
  {
    var p :| WalkFrom(g, p, f) && |p| == d + 1;
    var q :| WalkFrom(g, q, f) && |q| == e + 1;
  }

  ghost predicate ListsDependencies(g: Graph, depsByFile: map<Name, seq<Name>>) {
    && (forall f, x :: f in depsByFile && x in depsByFile[f] ==> DependsOn(g, f, x))
    && (forall f, x :: DependsOn(g, f, x) ==> f in depsByFile && x in depsByFile[f])
  }

  /** The dependencies of each file that has any, in the order of the edges (src/commands/deps.ts:97-101). */
  method GroupByFile(g: Graph) returns (depsByFile: map<Name, seq<Name>>)
    ensures ListsDependencies(g, depsByFile)
    ensures forall f :: f in depsByFile ==> depsByFile[f] != []
  {
    depsByFile := map[];
    for i := 0 to |g.edges|
      invariant forall f, x :: (f in depsByFile && x in depsByFile[f]) <==> Edge(f, x) in g.edges[..i]
      invariant forall f :: f in depsByFile ==> depsByFile[f] != []
    {
      var edge := g.edges[i];
      assert g.edges[..i + 1] == g.edges[..i] + [edge];
      var known := if edge.from in depsByFile then depsByFile[edge.from] else [];
      depsByFile := depsByFile[edge.from := known + [edge.to]];
    }
    assert g.edges[..|g.edges|] == g.edges;
    forall f, x ensures DependsOn(g, f, x) <==> (f in depsByFile && x in depsByFile[f]) { }
  }

  lemma FirstEdge(g: Graph, f: Name, p: seq<Name>)
    requires WalkFrom(g, p, f)
    ensures |p| >= 2 ==> DependsOn(g, f, p[1])
  {
  }

  lemma NoDependencies(g: Graph, f: Name)
    requires forall x :: !DependsOn(g, f, x)
    ensures IsLongestChain(g, f, 0)
  {
    assert WalkFrom(g, [f], f);
    forall p | WalkFrom(g, p, f) ensures |p| <= 1 {
      FirstEdge(g, f, p);
    }
  }

  lemma WalkStep(g: Graph, f: Name, x: Name, p: seq<Name>)
    requires DependsOn(g, f, x) && WalkFrom(g, p, x)
    ensures WalkFrom(g, [f] + p, f)
  {
  }

  /** A file is one deeper than the deepest of its dependencies. */
  lemma OneMore(g: Graph, f: Name, maxParent: nat, deepest: Name)
    requires DependsOn(g, f, deepest) && Attained(g, deepest, maxParent)
    requires forall x :: DependsOn(g, f, x) ==> Bounded(g, x, maxParent)
    ensures IsLongestChain(g, f, maxParent + 1)
  {
    var q :| WalkFrom(g, q, deepest) && |q| == maxParent + 1;
    WalkStep(g, f, deepest, q);
    assert |[f] + q| == maxParent + 2;
    forall p | WalkFrom(g, p, f) ensures |p| <= maxParent + 2 {
      if |p| >= 2 {
        assert DependsOn(g, p[0], p[1]);
        assert WalkFrom(g, p[1..], p[1]);
      }
    }
  }

  /** maxParent is the greatest depth among the dependencies seen, first reached at deepest. */
  ghost predicate Deepest(g: Graph, seen: seq<Name>, maxParent: nat, deepest: Name) {
    && (seen == [] ==> maxParent == 0)
    && (!HasCycle(g) && seen != [] ==> deepest in seen && Attained(g, deepest, maxParent))
    && (!HasCycle(g) ==> forall x :: x in seen ==> Bounded(g, x, maxParent))
  }

  lemma DeepestStep(g: Graph, seen: seq<Name>, maxParent: nat, deepest: Name, parent: Name, d: nat)
    requires Deepest(g, seen, maxParent, deepest)
    requires !HasCycle(g) ==> IsLongestChain(g, parent, d)
    ensures Deepest(g, seen + [parent], if d > maxParent then d else maxParent,
                    if seen == [] || d > maxParent then parent else deepest)
  {
    if !HasCycle(g) {
      var m := if d > maxParent then d else maxParent;
      forall x | x in seen + [parent] ensures Bounded(g, x, m) {
        if x != parent { assert Bounded(g, x, maxParent); }
      }
    }
  }

  /** The variables shared by the nested function getDepth. */
  class DepthFinder {
    const graph: Graph
    const depsByFile: map<Name, seq<Name>>
    var depth: map<Name, nat>
    var visited: set<Name>

    ghost predicate Valid() reads this {
      && graph.WellFormed()
      && ListsDependencies(graph, depsByFile)
      && visited <= Members(graph.files)
      && depth.Keys <= Members(graph.files)
      && (!HasCycle(graph) ==> forall f :: f in depth ==> IsLongestChain(graph, f, depth[f]))
    }

    constructor (g: Graph)
      requires g.WellFormed()
      ensures Valid() && graph == g && depth == map[] && visited == {}
    {
      var deps := GroupByFile(g);
      graph, depsByFile, depth, visited := g, deps, map[], {};
    }

    /** Visited files without a depth are still being computed: they lead to the file asked for. */
    ghost predicate InProgressLeadTo(file: Name) reads this {
      forall v :: v in visited && v !in depth ==> Reaches(graph, v, file)
    }

    twostate predicate Progress() reads this {
      && old(visited) <= visited
      && (forall f :: f in old(depth) ==> f in depth && depth[f] == old(depth)[f])
      && (forall v :: v in visited && v !in depth ==> v in old(visited) && v !in old(depth))
    }

    method GetDepth(file: Name) returns (d: nat)
      requires Valid() && file in graph.files && InProgressLeadTo(file)
      modifies this
      ensures Valid() && Progress()
      ensures file in depth || file in old(visited)
      ensures !HasCycle(graph) ==> file in depth && d == depth[file]
      decreases Members(graph.files) - visited, 1
    {
      if file in depth { return depth[file]; }
      if file in visited {
        CycleReaches(graph);
        return 0;
      }
      visited := visited + {file};
      if file !in depsByFile || depsByFile[file] == [] {
        NoDependencies(graph, file);
        depth := depth[file := 0];
        return 0;
      }
      var parents := depsByFile[file];
      assert Waiting(file);
      var maxParent := MaxDepth(file, parents);
      d := maxParent + 1;
      depth := depth[file := d];
    }

    /** Visited files without a depth are the file itself or lead to it. */
    ghost predicate Waiting(file: Name) reads this {
      forall v :: v in visited && v !in depth ==> v == file || Reaches(graph, v, file)
    }

    lemma LeadsToParent(file: Name, parent: Name)
      requires Valid() && DependsOn(graph, file, parent) && Waiting(file)
      ensures parent in graph.files && InProgressLeadTo(parent)
    {
      assert Edge(file, parent).to in graph.files;
      EdgeReaches(graph, file, parent);
      forall v | v in visited && v !in depth ensures Reaches(graph, v, parent) {
        if v != file { ReachesTransitive(graph, v, file, parent); }
      }
    }

    method ParentDepth(file: Name, parent: Name) returns (d: nat)
      requires Valid() && DependsOn(graph, file, parent) && Waiting(file)
      modifies this
      ensures Valid() && Progress() && Waiting(file)
      ensures !HasCycle(graph) ==> IsLongestChain(graph, parent, d)
      decreases Members(graph.files) - visited, 2
    {
      LeadsToParent(file, parent);
      d := GetDepth(parent);
    }

    /** The loop over the dependencies (src/commands/deps.ts:116-119). */
    method MaxDepth(file: Name, parents: seq<Name>) returns (maxParent: nat)
      requires Valid() && parents != [] && Waiting(file)
      requires forall x :: x in parents <==> DependsOn(graph, file, x)
      modifies this
      ensures Valid() && Progress()
      ensures !HasCycle(graph) ==> IsLongestChain(graph, file, maxParent + 1)
      decreases Members(graph.files) - visited, 3
    {
      maxParent := 0;
      ghost var deepest := parents[0];
      for k := 0 to |parents|
        invariant Valid() && Progress() && Waiting(file)
        invariant Deepest(graph, parents[..k], maxParent, deepest)
      {
        assert parents[k] in parents;
        ghost var before, leader := maxParent, deepest;
        var d := ParentDepth(file, parents[k]);
        if k == 0 || d > maxParent { deepest := parents[k]; }
        maxParent := if d > maxParent then d else maxParent;
        DeepestStep(graph, parents[..k], before, leader, parents[k], d);
        assert parents[..k + 1] == parents[..k] + [parents[k]];
      }
      assert parents[..|parents|] == parents;
      if !HasCycle(graph) { OneMore(graph, file, maxParent, deepest); }
    }
  }

  /**
   * Every file gets a depth, on any graph; without cycles it is the length of its longest
   * dependency chain.
   */
  method ComputeDepths(g: Graph) returns (depth: map<Name, nat>)
    requires g.WellFormed()
    ensures depth.Keys == Members(g.files)
    ensures !HasCycle(g) ==> forall f :: f in depth ==> IsLongestChain(g, f, depth[f])
  {
    var finder := new DepthFinder(g);
    for i := 0 to |g.files|
      invariant finder.Valid() && finder.graph == g
      invariant forall j :: 0 <= j < i ==> g.files[j] in finder.depth
    {
      finder.visited := {};
      var d := finder.GetDepth(g.files[i]);
    }
    depth := finder.depth;
    assert forall f :: f in Members(g.files) ==> f in depth;
  }
}
