/** Kahn's algorithm with a sorted ready list (src/deps.ts:886-920). */
module Ordering {
  import opened Names
  import opened Graphs
  import opened Options

  /** The edges of es that make f wait for a file outside done. */
  function Pending(es: seq<Edge>, f: Name, done: set<Name>): nat {
    if es == [] then 0
    else
      var last := es[|es| - 1];
      Pending(es[..|es| - 1], f, done) + if last.from == f && last.to !in done then 1 else 0
  }

  /** The files that es makes depend on f, once per edge. */
  function DependentsOf(es: seq<Edge>, f: Name): seq<Name> {
    if es == [] then []
    else
      var last := es[|es| - 1];
      DependentsOf(es[..|es| - 1], f) + if last.to == f then [last.from] else []
  }

  lemma OneMoreEdge(es: seq<Edge>, edge: Edge)
    ensures forall f :: Pending(es + [edge], f, {}) == Pending(es, f, {}) + if edge.from == f then 1 else 0
    ensures forall f :: DependentsOf(es + [edge], f) == DependentsOf(es, f) + if edge.to == f then [edge.from] else []
  {
    assert (es + [edge])[..|es|] == es;
  }

  lemma {:induction false} PendingSplits(es: seq<Edge>, f: Name, done: set<Name>, node: Name)
    requires node !in done
    ensures Pending(es, f, done) == Pending(es, f, done + {node}) + multiset(DependentsOf(es, node))[f]
  {
    if es != [] {
      PendingSplits(es[..|es| - 1], f, done, node);
    }
  }

  lemma {:induction false} NothingPending(es: seq<Edge>, f: Name, done: set<Name>)
    ensures Pending(es, f, done) == 0 <==> forall e :: e in es && e.from == f ==> e.to in done
  {
    if es != [] {
      var init, last := es[..|es| - 1], es[|es| - 1];
      NothingPending(init, f, done);
      assert es == init + [last];
    }
  }

  lemma {:induction false} DependentsAreSources(es: seq<Edge>, f: Name)
    ensures forall x :: x in DependentsOf(es, f) <==> Edge(x, f) in es
  {
    if es != [] {
      var init, last := es[..|es| - 1], es[|es| - 1];
      DependentsAreSources(init, f);
      assert es == init + [last];
    }
  }

  ghost predicate Ready(g: Graph, f: Name, done: seq<Name>) {
    forall y :: DependsOn(g, f, y) ==> y in done
  }

  /** At every position stands the least of the files that could have stood there. */
  ghost predicate Greedy(g: Graph, s: seq<Name>) {
    forall i, f :: 0 <= i < |s| && f in g.files && f !in s[..i] && Ready(g, f, s[..i]) ==> AtMost(s[i], f)
  }

  /** s and t agree up to a position at which s has the smaller name. */
  ghost predicate Before(s: seq<Name>, t: seq<Name>) {
    exists i :: 0 <= i < |s| && i < |t| && s[..i] == t[..i] && Less(s[i], t[i])
  }

  /** The lexicographically least dependency order. */
  ghost predicate IsLeastOrder(g: Graph, s: seq<Name>) {
    && IsDependencyOrder(g, s)
    && forall t :: IsDependencyOrder(g, t) ==> s == t || Before(s, t)
  }

  lemma FirstDifference<T>(s: seq<T>, t: seq<T>) returns (i: nat)
    requires |s| == |t| && s != t
    ensures i < |s| && s[..i] == t[..i] && s[i] != t[i]
  {
    i := 0;
    while i < |s| && s[i] == t[i]
      invariant i <= |s| && s[..i] == t[..i]
    {
      i := i + 1;
    }
    assert s[..|s|] == s && t[..|s|] == t;
  }

  lemma OrdersHaveOneLength(g: Graph, s: seq<Name>, t: seq<Name>)
    requires IsDependencyOrder(g, s) && IsDependencyOrder(g, t)
    ensures |s| == |t|
  {
    DistinctMultiset(s, t);
    MembersFromMultiset(s, t);
  }

  lemma GreedyIsLeast(g: Graph, s: seq<Name>)
    requires IsDependencyOrder(g, s) && Greedy(g, s)
    ensures IsLeastOrder(g, s)
  {
    forall t | IsDependencyOrder(g, t) ensures s == t || Before(s, t) {
      OrdersHaveOneLength(g, s, t);
      if s != t {
        var i := FirstDifference(s, t);
        assert t[i] in t;
        assert t[i] !in s[..i];
        assert Ready(g, t[i], s[..i]);
        assert AtMost(s[i], t[i]);
      }
    }
  }

  lemma FirstDifferenceIsFirst(s: seq<Name>, t: seq<Name>, i: nat, j: nat)
    requires i < |s| && i < |t| && j < |s| && j < |t|
    requires s[..i] == t[..i] && Less(s[i], t[i])
    requires s[..j] == t[..j]
    ensures !Less(t[j], s[j])
  {
    LessIsAsymmetric(s[i], t[i]);
    assert forall k :: 0 <= k < j ==> s[k] == s[..j][k] == t[..j][k];
    assert j <= i;
    assert forall k :: 0 <= k < i ==> s[k] == s[..i][k] == t[..i][k];
    LessIsIrreflexive(s[j]);
  }

  lemma BeforeIsAsymmetric(s: seq<Name>, t: seq<Name>)
    requires Before(s, t)
    ensures !Before(t, s)
  {
    var i :| 0 <= i < |s| && i < |t| && s[..i] == t[..i] && Less(s[i], t[i]);
    forall j | 0 <= j < |s| && j < |t| && s[..j] == t[..j] ensures !Less(t[j], s[j]) {
      FirstDifferenceIsFirst(s, t, i, j);
    }
  }

  /** There is at most one least order. */
  lemma LeastOrderIsUnique(g: Graph, s: seq<Name>, t: seq<Name>)
    requires IsLeastOrder(g, s) && IsLeastOrder(g, t)
    ensures s == t
  {
    if Before(s, t) { BeforeIsAsymmetric(s, t); }
  }

  /** The least order is fixed by which files and edges there are, not by how they are listed. */
  lemma LeastOrderIgnoresListing(g: Graph, h: Graph, s: seq<Name>, t: seq<Name>)
    requires forall x :: x in g.files <==> x in h.files
    requires forall e :: e in g.edges <==> e in h.edges
    requires IsLeastOrder(g, s) && IsLeastOrder(h, t)
    ensures s == t
  {
    forall u ensures IsDependencyOrder(g, u) <==> IsDependencyOrder(h, u) {
      forall a, b ensures DependsOn(g, a, b) <==> DependsOn(h, a, b) { }
    }
    LeastOrderIsUnique(g, s, t);
  }

  lemma DependencyOrderIsAcyclic(g: Graph, s: seq<Name>)
    requires g.WellFormed() && IsDependencyOrder(g, s)
    ensures !HasCycle(g)
  {
    OrderedIsAcyclic(g, s);
  }

  /** The ready list holds, without repetition, the unsorted files of degree zero. */
  ghost predicate ReadyList(g: Graph, queue: seq<Name>, sorted: seq<Name>, inDegree: map<Name, nat>) {
    && inDegree.Keys == Members(g.files)
    && Distinct(queue)
    && (forall f :: f in queue <==> f in inDegree && f !in sorted && inDegree[f] == 0)
    && (forall f :: f in sorted ==> f in inDegree && inDegree[f] == 0)
  }

  ghost predicate Degrees(g: Graph, inDegree: map<Name, nat>, done: set<Name>, waiting: seq<Name>) {
    forall f :: f in inDegree ==> inDegree[f] == Pending(g.edges, f, done) + multiset(waiting)[f]
  }

  ghost predicate SortedPart(g: Graph, s: seq<Name>) {
    && Distinct(s)
    && Members(s) <= Members(g.files)
    && (forall i, y :: 0 <= i < |s| && DependsOn(g, s[i], y) ==> y in s[..i])
    && Greedy(g, s)
  }

  method InitMaps(files: seq<Name>) returns (inDegree: map<Name, nat>, adjacency: map<Name, seq<Name>>, keys: seq<Name>)
    ensures inDegree.Keys == adjacency.Keys == Members(files) == Members(keys)
    ensures Distinct(keys)
    ensures forall f :: f in inDegree ==> inDegree[f] == 0 && adjacency[f] == []
  {
    inDegree, adjacency, keys := map[], map[], [];
    for i := 0 to |files|
      invariant inDegree.Keys == adjacency.Keys == Members(files[..i]) == Members(keys)
      invariant Distinct(keys)
      invariant forall f :: f in inDegree ==> inDegree[f] == 0 && adjacency[f] == []
    {
      var file := files[i];
      assert files[..i + 1] == files[..i] + [file];
      if file !in inDegree {
        assert file !in keys by { assert file !in Members(keys); }
        MembersAppend(keys, file);
        keys := keys + [file];
      }
      inDegree, adjacency := inDegree[file := 0], adjacency[file := []];
    }
    assert files[..|files|] == files;
  }

  /** The maps filled by the first two loops: edges counted at their source, listed at their target. */
  method CountEdges(g: Graph) returns (inDegree: map<Name, nat>, adjacency: map<Name, seq<Name>>, keys: seq<Name>)
    requires g.WellFormed()
    ensures inDegree.Keys == adjacency.Keys == Members(g.files) == Members(keys)
    ensures Distinct(keys)
    ensures Degrees(g, inDegree, {}, [])
    ensures forall f :: f in adjacency ==> adjacency[f] == DependentsOf(g.edges, f)
  {
    inDegree, adjacency, keys := InitMaps(g.files);
    for i := 0 to |g.edges|
      invariant inDegree.Keys == adjacency.Keys == Members(g.files)
      invariant forall f :: f in inDegree ==> inDegree[f] == Pending(g.edges[..i], f, {})
      invariant forall f :: f in adjacency ==> adjacency[f] == DependentsOf(g.edges[..i], f)
    {
      var edge := g.edges[i];
      assert edge in g.edges;
      assert g.edges[..i + 1] == g.edges[..i] + [edge];
      OneMoreEdge(g.edges[..i], edge);
      adjacency := adjacency[edge.to := adjacency[edge.to] + [edge.from]];
      inDegree := inDegree[edge.from := inDegree[edge.from] + 1];
    }
    assert g.edges[..|g.edges|] == g.edges;
  }

  /** One node leaves the ready list: its dependents' degrees drop and new ready files join. */
  method Release(g: Graph, ghost sorted: seq<Name>, dependents: seq<Name>, queue0: seq<Name>,
                 inDegree0: map<Name, nat>) returns (queue: seq<Name>, inDegree: map<Name, nat>)
    requires ReadyList(g, queue0, sorted, inDegree0)
    requires Degrees(g, inDegree0, Members(sorted), dependents)
    requires Members(dependents) <= Members(g.files)
    ensures ReadyList(g, queue, sorted, inDegree)
    ensures Degrees(g, inDegree, Members(sorted), [])
  {
    queue, inDegree := queue0, inDegree0;
    for j := 0 to |dependents|
      invariant ReadyList(g, queue, sorted, inDegree)
      invariant Degrees(g, inDegree, Members(sorted), dependents[j..])
    {
      var dependent := dependents[j];
      assert dependents[j..] == [dependent] + dependents[j + 1..];
      assert dependent in Members(dependents);
      var newDegree := inDegree[dependent] - 1;
      inDegree := inDegree[dependent := newDegree];
      if newDegree == 0 {
        queue := queue + [dependent];
      }
    }
  }

  lemma AppendLeast(g: Graph, s: seq<Name>, queue: seq<Name>, inDegree: map<Name, nat>, node: Name)
    requires SortedPart(g, s) && ReadyList(g, queue, s, inDegree) && Degrees(g, inDegree, Members(s), [])
    requires node in queue && forall f :: f in queue ==> AtMost(node, f)
    ensures SortedPart(g, s + [node])
  {
    var t := s + [node];
    forall f | f in g.files ensures Ready(g, f, s) <==> Pending(g.edges, f, Members(s)) == 0 {
      NothingPending(g.edges, f, Members(s));
    }
    assert node in inDegree;
    assert Ready(g, node, s);
    assert forall i :: 0 <= i <= |s| ==> t[..i] == s[..i];
    forall f | f in g.files && f !in s && Ready(g, f, s) ensures AtMost(node, f) {
      assert f in inDegree;
    }
  }

  /** What the main loop keeps. */
  ghost predicate KahnState(g: Graph, queue: seq<Name>, sorted: seq<Name>, inDegree: map<Name, nat>) {
    && ReadyList(g, queue, sorted, inDegree)
    && Degrees(g, inDegree, Members(sorted), [])
    && SortedPart(g, sorted)
  }

  lemma MoveLeastDegrees(g: Graph, s: seq<Name>, inDegree: map<Name, nat>, node: Name)
    requires Degrees(g, inDegree, Members(s), []) && node !in s
    ensures Degrees(g, inDegree, Members(s + [node]), DependentsOf(g.edges, node))
  {
    MembersAppend(s, node);
    forall f | f in inDegree
      ensures inDegree[f] == Pending(g.edges, f, Members(s + [node])) + multiset(DependentsOf(g.edges, node))[f]
    {
      PendingSplits(g.edges, f, Members(s), node);
    }
  }

  lemma MoveLeastReady(g: Graph, s: seq<Name>, queue: seq<Name>, inDegree: map<Name, nat>)
    requires ReadyList(g, queue, s, inDegree) && queue != []
    ensures ReadyList(g, queue[1..], s + [queue[0]], inDegree)
  {
    assert queue == [queue[0]] + queue[1..];
    assert queue[0] in queue;
  }

  lemma DependentsAreFiles(g: Graph, node: Name)
    requires g.WellFormed()
    ensures Members(DependentsOf(g.edges, node)) <= Members(g.files)
  {
    DependentsAreSources(g.edges, node);
    forall x | x in DependentsOf(g.edges, node) ensures x in g.files {
      assert Edge(x, node).from in g.files;
    }
  }

  /** After the least ready file is moved to the sorted part, only its dependents' degrees are stale. */
  lemma MoveLeast(g: Graph, s: seq<Name>, queue: seq<Name>, inDegree: map<Name, nat>)
    requires KahnState(g, queue, s, inDegree) && queue != [] && Sorted(queue)
    ensures queue[0] in g.files && |s| < |Members(g.files)|
    ensures SortedPart(g, s + [queue[0]])
    ensures ReadyList(g, queue[1..], s + [queue[0]], inDegree)
    ensures Degrees(g, inDegree, Members(s + [queue[0]]), DependentsOf(g.edges, queue[0]))
  {
    var node := queue[0];
    forall f | f in queue ensures AtMost(node, f) {
      var k :| 0 <= k < |queue| && queue[k] == f;
    }
    assert node in queue && node in inDegree;
    AppendLeast(g, s, queue, inDegree, node);
    DistinctFits(s + [node], Members(g.files));
    MoveLeastDegrees(g, s, inDegree, node);
    MoveLeastReady(g, s, queue, inDegree);
  }

  lemma SortKeepsState(g: Graph, s: seq<Name>, queue: seq<Name>, inDegree: map<Name, nat>)
    requires KahnState(g, queue, s, inDegree)
    ensures KahnState(g, Sort(queue), s, inDegree) && |Sort(queue)| == |queue|
  {
    SortKeepsList(queue);
  }

  lemma UnsortedIsStuck(g: Graph, s: seq<Name>, inDegree: map<Name, nat>)
    requires g.WellFormed()
    requires ReadyList(g, [], s, inDegree) && Degrees(g, inDegree, Members(s), [])
    ensures NeverStuck(g, Members(g.files) - Members(s))
  {
    var S := Members(g.files) - Members(s);
    forall f | f in S ensures DependsInto(g, f, S) {
      assert f in inDegree && f !in s && f !in [];
      NothingPending(g.edges, f, Members(s));
      var e :| e in g.edges && e.from == f && e.to !in Members(s);
      assert DependsOn(g, f, e.to);
    }
  }

  lemma SubsetOfEqualSize<T>(A: set<T>, B: set<T>)
    requires A <= B && |A| == |B|
    ensures A == B
  {
    assert |B - A| == |B| - |A|;
  }

  lemma Conclude(g: Graph, s: seq<Name>)
    requires g.WellFormed() && SortedPart(g, s) && NeverStuck(g, Members(g.files) - Members(s))
    ensures |s| == |g.files| <==> Distinct(g.files) && !HasCycle(g)
    ensures |s| == |g.files| ==> IsDependencyOrder(g, s) && multiset(s) == multiset(g.files)
  {
    MembersSize(s);
    MembersSize(g.files);
    SubsetSize(Members(s), Members(g.files));
    if |s| == |g.files| {
      SubsetOfEqualSize(Members(s), Members(g.files));
      assert forall x :: x in s <==> x in Members(s);
      assert forall x :: x in g.files <==> x in Members(g.files);
      DistinctMultiset(s, g.files);
      DependencyOrderIsAcyclic(g, s);
    } else if Distinct(g.files) {
      assert |Members(g.files) - Members(s)| == |Members(g.files)| - |Members(s)|;
      StuckSetHasCycle(g, Members(g.files) - Members(s));
    }
  }

  method InitialReady(g: Graph, keys: seq<Name>, inDegree: map<Name, nat>) returns (queue: seq<Name>)
    requires inDegree.Keys == Members(g.files) == Members(keys) && Distinct(keys)
    ensures ReadyList(g, queue, [], inDegree)
  {
    queue := [];
    for k := 0 to |keys|
      invariant Distinct(queue)
      invariant forall f :: f in queue <==> f in keys[..k] && f in inDegree && inDegree[f] == 0
    {
      assert keys[k] in Members(keys);
      assert keys[..k + 1] == keys[..k] + [keys[k]];
      if inDegree[keys[k]] == 0 { queue := queue + [keys[k]]; }
    }
    assert keys[..|keys|] == keys;
    assert forall f :: f in keys <==> f in Members(keys);
  }

  /**
   * Succeeds exactly on distinct file names without a dependency cycle, and then returns the
   * lexicographically least order in which dependencies come first.
   */
  method TopologicalSort(g: Graph) returns (r: Option<seq<Name>>)
    requires g.WellFormed()
    ensures r.Some? <==> Distinct(g.files) && !HasCycle(g)
    ensures r.Some? ==> IsLeastOrder(g, r.value) && multiset(r.value) == multiset(g.files)
  {
    var inDegree, adjacency, keys := CountEdges(g);
    var queue := InitialReady(g, keys, inDegree);
    var sorted: seq<Name> := [];
    assert Members(sorted) == {};
    while |queue| > 0
      invariant KahnState(g, queue, sorted, inDegree)
      decreases |Members(g.files)| - |sorted|
    {
      SortKeepsState(g, sorted, queue, inDegree);
      queue := Sort(queue);
      MoveLeast(g, sorted, queue, inDegree);
      var node := queue[0];
      queue, sorted := queue[1..], sorted + [node];
      DependentsAreFiles(g, node);
      assert node in Members(g.files);
      queue, inDegree := Release(g, sorted, adjacency[node], queue, inDegree);
    }
    UnsortedIsStuck(g, sorted, inDegree);
    Conclude(g, sorted);
    if |sorted| != |g.files| { return None; }
    GreedyIsLeast(g, sorted);
    return Some(sorted);
  }
}
