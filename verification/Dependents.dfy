/** Leaves and transitive dependents (src/deps.ts:926-959). */
module Dependents {
  import opened Names
  import opened Graphs

  /** All files that depend, directly or not, on the given one. */
  ghost function DependentClosure(g: Graph, file: Name): set<Name> {
    set x | x in g.files && Reaches(g, x, file)
  }

  ghost predicate IsLeaf(g: Graph, f: Name) {
    f in g.files && forall x :: !DependsOn(g, x, f)
  }

  /** The map from a file to the files that depend on it (src/deps.ts:939-945). */
  method BuildChildren(files: seq<Name>, edges: seq<Edge>) returns (childrenOf: map<Name, seq<Name>>)
    ensures childrenOf.Keys == Members(files)
    ensures forall f, x :: f in childrenOf ==> (x in childrenOf[f] <==> Edge(x, f) in edges)
  {
    childrenOf := map[];
    for i := 0 to |files|
      invariant childrenOf.Keys == Members(files[..i])
      invariant forall f :: f in childrenOf ==> childrenOf[f] == []
    {
      assert files[..i + 1] == files[..i] + [files[i]];
      childrenOf := childrenOf[files[i] := []];
    }
    assert files[..|files|] == files;
    for i := 0 to |edges|
      invariant childrenOf.Keys == Members(files)
      invariant forall f, x :: f in childrenOf ==> (x in childrenOf[f] <==> Edge(x, f) in edges[..i])
    {
      var edge := edges[i];
      assert edges[..i + 1] == edges[..i] + [edge];
      if edge.to in childrenOf {
        childrenOf := childrenOf[edge.to := childrenOf[edge.to] + [edge.from]];
      }
    }
    assert edges[..|edges|] == edges;
  }

  ghost predicate ClosedUnderDependents(g: Graph, S: set<Name>, open: seq<Name>) {
    forall x, y :: DependsOn(g, x, y) && y in S && y !in open ==> x in S
  }

  lemma {:induction false} ChainEndsInClosed(g: Graph, S: set<Name>, p: seq<Name>, a: Name, b: Name)
    requires ClosedUnderDependents(g, S, []) && IsChain(g, p, a, b) && b in S
    ensures a in S
  {
    var c := p[|p| - 2];
    assert DependsOn(g, c, b);
    if |p| > 2 {
      ChainEndsInClosed(g, S, p[..|p| - 1], a, c);
    }
  }

  /** A set closed under dependents contains every transitive dependent of its members. */
  lemma ClosedContainsDependents(g: Graph, S: set<Name>, a: Name, b: Name)
    requires ClosedUnderDependents(g, S, []) && Reaches(g, a, b) && b in S
    ensures a in S
  {
    var p :| IsChain(g, p, a, b);
    ChainEndsInClosed(g, S, p, a, b);
  }

  lemma DependentOfDependent(g: Graph, x: Name, y: Name, file: Name)
    requires g.WellFormed() && DependsOn(g, x, y) && (y == file || Reaches(g, y, file))
    ensures x in DependentClosure(g, file)
  {
    EdgeReaches(g, x, y);
    if y != file { ReachesTransitive(g, x, y, file); }
    assert Edge(x, y).from in g.files;
  }

  /** Children of one worklist entry (src/deps.ts:951-956). */
  method PushNew(children: seq<Name>, result0: set<Name>, queue0: seq<Name>)
      returns (result: set<Name>, queue: seq<Name>)
    ensures result == result0 + Members(children)
    ensures |queue| - |queue0| == |result| - |result0|
    ensures forall x :: x in queue <==> x in queue0 || (x in children && x !in result0)
    ensures queue0 <= queue
  {
    result, queue := result0, queue0;
    for j := 0 to |children|
      invariant result == result0 + Members(children[..j])
      invariant |queue| - |queue0| == |result| - |result0|
      invariant forall x :: x in queue <==> x in queue0 || (x in children[..j] && x !in result0)
      invariant queue0 <= queue
    {
      assert children[..j + 1] == children[..j] + [children[j]];
      if children[j] !in result {
        result, queue := result + {children[j]}, queue + [children[j]];
      }
    }
    assert children[..|children|] == children;
  }

  /** What the worklist loop keeps: the result grows inside the closure, unexplored files are queued. */
  ghost predicate Exploring(g: Graph, file: Name, result: set<Name>, queue: seq<Name>) {
    && result <= DependentClosure(g, file)
    && (forall x :: x in queue ==> x == file || x in result)
    && (forall x, y :: DependsOn(g, x, y) && (y == file || y in result) && y !in queue ==> x in result)
  }

  lemma ClosureComplete(g: Graph, result: set<Name>, file: Name)
    requires Exploring(g, file, result, [])
    ensures result == DependentClosure(g, file)
  {
    assert ClosedUnderDependents(g, result + {file}, []);
    forall x | x in DependentClosure(g, file) ensures x in result {
      var b := ReachesFirstStep(g, x, file);
      if b != file {
        ClosedContainsDependents(g, result + {file}, b, file);
      }
    }
  }

  lemma Explore(g: Graph, file: Name, result: set<Name>, queue: seq<Name>, children: seq<Name>,
                result': set<Name>, queue': seq<Name>)
    requires g.WellFormed() && Exploring(g, file, result, queue) && queue != []
    requires forall x :: x in children <==> DependsOn(g, x, queue[|queue| - 1])
    requires result' == result + Members(children)
    requires forall x :: x in queue' <==> x in queue[..|queue| - 1] || (x in children && x !in result)
    ensures Exploring(g, file, result', queue')
  {
    var current := queue[|queue| - 1];
    assert queue == queue[..|queue| - 1] + [current];
    assert current in queue;
    forall x | x in children ensures x in DependentClosure(g, file) {
      DependentOfDependent(g, x, current, file);
    }
  }

  /** Computes exactly the files from which the given one is reachable along dependencies. */
  method FindTransitiveDependents(g: Graph, file: Name) returns (result: set<Name>)
    requires g.WellFormed()
    ensures result == DependentClosure(g, file)
  {
    var childrenOf := BuildChildren(g.files, g.edges);
    result := {};
    var queue := [file];
    while |queue| > 0
      invariant Exploring(g, file, result, queue)
      decreases |DependentClosure(g, file)| - |result|, |queue|
    {
      var current := queue[|queue| - 1];
      var children := if current in childrenOf then childrenOf[current] else [];
      forall x | DependsOn(g, x, current) ensures current in childrenOf {
        assert Edge(x, current).to in g.files;
      }
      ghost var result0, queue0 := result, queue;
      result, queue := PushNew(children, result, queue[..|queue| - 1]);
      Explore(g, file, result0, queue0, children, result, queue);
      SubsetSize(result0, result);
      SubsetSize(result, DependentClosure(g, file));
    }
    ClosureComplete(g, result, file);
  }

  ghost function DependedOn(es: seq<Edge>): set<Name> {
    set e | e in es :: e.to
  }

  /** The files that are not in S, in their order. */
  ghost function Without(files: seq<Name>, S: set<Name>): (r: seq<Name>)
    ensures forall f :: f in r <==> f in files && f !in S
    ensures Distinct(files) ==> Distinct(r)
  {
    if files == [] then []
    else
      var last := files[|files| - 1];
      assert files == files[..|files| - 1] + [last];
      Without(files[..|files| - 1], S) + if last in S then [] else [last]
  }

  /** Exactly the files no file depends on, in the order in which the files are listed. */
  method FindLeafNodes(g: Graph) returns (leaves: seq<Name>)
    requires g.WellFormed()
    ensures forall f :: f in leaves <==> IsLeaf(g, f)
    ensures leaves == Without(g.files, DependedOn(g.edges))
  {
    var dependedOn := {};
    for i := 0 to |g.edges|
      invariant dependedOn == DependedOn(g.edges[..i])
    {
      assert g.edges[..i + 1] == g.edges[..i] + [g.edges[i]];
      dependedOn := dependedOn + {g.edges[i].to};
    }
    assert g.edges[..|g.edges|] == g.edges;
    leaves := [];
    for i := 0 to |g.files|
      invariant leaves == Without(g.files[..i], dependedOn)
    {
      assert g.files[..i + 1][..i] == g.files[..i];
      if g.files[i] !in dependedOn { leaves := leaves + [g.files[i]]; }
    }
    assert g.files[..|g.files|] == g.files;
    forall f ensures f in DependedOn(g.edges) <==> exists x :: DependsOn(g, x, f) { DependedOnHasDependent(g, f); }
  }

  lemma DependedOnHasDependent(g: Graph, f: Name)
    ensures f in DependedOn(g.edges) <==> exists x :: DependsOn(g, x, f)
  {
    if f in DependedOn(g.edges) {
      var e :| e in g.edges && e.to == f;
      assert DependsOn(g, e.from, f);
    }
  }
}
