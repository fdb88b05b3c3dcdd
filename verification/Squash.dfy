/** Grouping of new files for squashing in DAG mode (src/commands/squash.ts:137-179). */
module Squash {
  import opened Names
  import opened Graphs
  import opened Dependents

  /** The edges between two of the given files, in both directions. */
  function BothWays(es: seq<Edge>, files: seq<Name>): (r: seq<Edge>)
    ensures forall a, b :: Edge(a, b) in r <==> a in files && b in files && (Edge(a, b) in es || Edge(b, a) in es)
  {
    if es == [] then []
    else
      var init, last := es[..|es| - 1], es[|es| - 1];
      assert es == init + [last];
      BothWays(init, files)
        + if last.from in files && last.to in files then [last, Edge(last.to, last.from)] else []
  }

  /** The new files with their mutual edges, direction forgotten. */
  function Undirected(g: Graph, newFiles: seq<Name>): Graph {
    Graph(newFiles, BothWays(g.edges, newFiles))
  }

  /** An undirected path of edges between new files joins a and b. */
  ghost predicate Connected(g: Graph, newFiles: seq<Name>, a: Name, b: Name) {
    a == b || Reaches(Undirected(g, newFiles), a, b)
  }

  lemma ConnectedSymmetric(g: Graph, newFiles: seq<Name>, a: Name, b: Name)
    requires Connected(g, newFiles, a, b)
    ensures Connected(g, newFiles, b, a)
  {
    if a != b {
      var u := Undirected(g, newFiles);
      var p :| IsChain(u, p, a, b);
      var q := seq(|p|, i requires 0 <= i < |p| => p[|p| - 1 - i]);
      forall i, j | 0 <= i < j < |q| && j == i + 1 ensures DependsOn(u, q[i], q[j]) {
        assert DependsOn(u, p[|p| - 1 - j], p[|p| - 1 - i]);
      }
      assert IsChain(u, q, b, a);
    }
  }

  lemma ConnectedTransitive(g: Graph, newFiles: seq<Name>, a: Name, b: Name, c: Name)
    requires Connected(g, newFiles, a, b) && Connected(g, newFiles, b, c)
    ensures Connected(g, newFiles, a, c)
  {
    if a != b && b != c { ReachesTransitive(Undirected(g, newFiles), a, b, c); }
  }

  lemma NeighborConnected(g: Graph, newFiles: seq<Name>, a: Name, b: Name, c: Name)
    requires DependsOn(Undirected(g, newFiles), a, b) && Connected(g, newFiles, b, c)
    ensures Connected(g, newFiles, a, c)
  {
    EdgeReaches(Undirected(g, newFiles), a, b);
    ConnectedTransitive(g, newFiles, a, b, c);
  }

  /** c lists, once each, the new files connected with its first one. */
  ghost predicate IsComponent(g: Graph, newFiles: seq<Name>, c: seq<Name>) {
    && c != [] && Distinct(c) && c[0] in newFiles
    && forall x :: x in c <==> x in newFiles && Connected(g, newFiles, x, c[0])
  }

  ghost predicate Apart(c: seq<Name>, d: seq<Name>) {
    forall x :: x in c ==> x !in d
  }

  ghost predicate Covers(components: seq<seq<Name>>, x: Name) {
    exists k :: 0 <= k < |components| && x in components[k]
  }

  /** The components cover the new files and no file is in two of them. */
  ghost predicate AreComponents(g: Graph, newFiles: seq<Name>, components: seq<seq<Name>>) {
    && (forall k :: 0 <= k < |components| ==> IsComponent(g, newFiles, components[k]))
    && (forall x :: x in newFiles ==> Covers(components, x))
    && (forall k, l :: 0 <= k < l < |components| ==> Apart(components[k], components[l]))
  }

  ghost predicate ShareComponent(components: seq<seq<Name>>, a: Name, b: Name) {
    exists k :: 0 <= k < |components| && a in components[k] && b in components[k]
  }

  lemma SharedAreConnected(g: Graph, newFiles: seq<Name>, c: seq<Name>, a: Name, b: Name)
    requires IsComponent(g, newFiles, c) && b in newFiles && b in c
    ensures a in c <==> a in newFiles && Connected(g, newFiles, a, b)
  {
    if a in c {
      ConnectedSymmetric(g, newFiles, b, c[0]);
      ConnectedTransitive(g, newFiles, a, c[0], b);
    }
    if Connected(g, newFiles, a, b) {
      ConnectedTransitive(g, newFiles, a, b, c[0]);
    }
  }

  lemma OneComponentOnly(g: Graph, newFiles: seq<Name>, components: seq<seq<Name>>, k: nat, l: nat, x: Name)
    requires AreComponents(g, newFiles, components) && k < |components| && l < |components|
    requires x in components[k] && x in components[l]
    ensures k == l
  {
    assert k < l ==> Apart(components[k], components[l]);
    assert l < k ==> Apart(components[l], components[k]);
  }

  lemma ComponentOf(g: Graph, newFiles: seq<Name>, components: seq<seq<Name>>, x: Name) returns (k: nat)
    requires AreComponents(g, newFiles, components) && x in newFiles
    ensures k < |components| && x in components[k] && IsComponent(g, newFiles, components[k])
    ensures forall l :: 0 <= l < |components| && x in components[l] ==> l == k
  {
    assert Covers(components, x);
    k :| 0 <= k < |components| && x in components[k];
    forall l | 0 <= l < |components| && x in components[l] ensures l == k {
      OneComponentOnly(g, newFiles, components, k, l, x);
    }
  }

  /** Two new files share a component exactly when an undirected path joins them. */
  lemma ShareExactlyIfConnected(g: Graph, newFiles: seq<Name>, components: seq<seq<Name>>, a: Name, b: Name)
    requires AreComponents(g, newFiles, components) && a in newFiles && b in newFiles
    ensures ShareComponent(components, a, b) <==> Connected(g, newFiles, a, b)
  {
    var k := ComponentOf(g, newFiles, components, b);
    SharedAreConnected(g, newFiles, components[k], a, b);
  }

  // ---- The algorithm ----

  ghost predicate AreNeighbors(g: Graph, newFiles: seq<Name>, neighbors: map<Name, seq<Name>>) {
    && neighbors.Keys == Members(newFiles)
    && forall a, b :: a in neighbors ==> (b in neighbors[a] <==> DependsOn(Undirected(g, newFiles), a, b))
  }

  /** Set.add on an insertion-ordered set. */
  function AddTo(s: seq<Name>, x: Name): (r: seq<Name>)
    ensures forall y :: y in r <==> y in s || y == x
  {
    if x in s then s else s + [x]
  }

  method InitNeighbors(newFiles: seq<Name>) returns (neighbors: map<Name, seq<Name>>)
    ensures neighbors.Keys == Members(newFiles)
    ensures forall f :: f in neighbors ==> neighbors[f] == []
  {
    neighbors := map[];
    for i := 0 to |newFiles|
      invariant neighbors.Keys == Members(newFiles[..i])
      invariant forall f :: f in neighbors ==> neighbors[f] == []
    {
      assert newFiles[..i + 1] == newFiles[..i] + [newFiles[i]];
      neighbors := neighbors[newFiles[i] := []];
    }
    assert newFiles[..|newFiles|] == newFiles;
  }

  ghost predicate ListsBothWays(es: seq<Edge>, newFiles: seq<Name>, neighbors: map<Name, seq<Name>>) {
    forall a, b :: a in neighbors ==> (b in neighbors[a] <==> Edge(a, b) in BothWays(es, newFiles))
  }

  lemma BothWaysStep(es: seq<Edge>, edge: Edge, newFiles: seq<Name>, a: Name, b: Name)
    ensures Edge(a, b) in BothWays(es + [edge], newFiles) <==>
      Edge(a, b) in BothWays(es, newFiles)
      || (edge.from in newFiles && edge.to in newFiles && (Edge(a, b) == edge || Edge(b, a) == edge))
  {
  }

  method AddNeighbors(es: seq<Edge>, edge: Edge, newFiles: seq<Name>, neighbors0: map<Name, seq<Name>>)
      returns (neighbors: map<Name, seq<Name>>)
    requires neighbors0.Keys == Members(newFiles) && ListsBothWays(es, newFiles, neighbors0)
    ensures neighbors.Keys == Members(newFiles) && ListsBothWays(es + [edge], newFiles, neighbors)
  {
    neighbors := neighbors0;
    if edge.from in newFiles && edge.to in newFiles {
      neighbors := PutBoth(neighbors0, edge);
    }
    forall a, b | a in neighbors ensures b in neighbors[a] <==> Edge(a, b) in BothWays(es + [edge], newFiles) {
      BothWaysStep(es, edge, newFiles, a, b);
    }
  }

  method PutBoth(neighbors0: map<Name, seq<Name>>, edge: Edge) returns (neighbors: map<Name, seq<Name>>)
    requires edge.from in neighbors0 && edge.to in neighbors0
    ensures neighbors.Keys == neighbors0.Keys
    ensures forall a, b :: a in neighbors ==>
      (b in neighbors[a] <==> b in neighbors0[a] || Edge(a, b) == edge || Edge(b, a) == edge)
  {
    neighbors := PutNeighbor(neighbors0, edge.from, edge.to);
    neighbors := PutNeighbor(neighbors, edge.to, edge.from);
  }

  method PutNeighbor(neighbors0: map<Name, seq<Name>>, f: Name, x: Name) returns (neighbors: map<Name, seq<Name>>)
    requires f in neighbors0
    ensures neighbors.Keys == neighbors0.Keys
    ensures forall a, b :: a in neighbors ==> (b in neighbors[a] <==> b in neighbors0[a] || (a == f && b == x))
  {
    neighbors := neighbors0[f := AddTo(neighbors0[f], x)];
  }

  method CollectNeighbors(g: Graph, newFiles: seq<Name>) returns (neighbors: map<Name, seq<Name>>)
    ensures AreNeighbors(g, newFiles, neighbors)
  {
    neighbors := InitNeighbors(newFiles);
    for i := 0 to |g.edges|
      invariant neighbors.Keys == Members(newFiles)
      invariant ListsBothWays(g.edges[..i], newFiles, neighbors)
    {
      assert g.edges[..i + 1] == g.edges[..i] + [g.edges[i]];
      neighbors := AddNeighbors(g.edges[..i], g.edges[i], newFiles, neighbors);
    }
    assert g.edges[..|g.edges|] == g.edges;
  }

  ghost predicate ClosedSet(g: Graph, newFiles: seq<Name>, S: set<Name>) {
    forall a, b :: DependsOn(Undirected(g, newFiles), a, b) && b in S ==> a in S
  }

  /** The search from f: what it has visited, and what its queue still has to bring in. */
  ghost predicate Flooding(g: Graph, newFiles: seq<Name>, f: Name, before: set<Name>, component: seq<Name>,
                           queue: seq<Name>) {
    && Distinct(component)
    && (forall x :: x in component || x in queue ==> x in newFiles && Connected(g, newFiles, x, f))
    && (forall x :: x in component ==> x !in before)
    && (f in component || f in queue)
    && (forall a, b :: DependsOn(Undirected(g, newFiles), a, b) && b in component ==>
      a in component || a in before || a in queue)
  }

  lemma Flooded(g: Graph, newFiles: seq<Name>, f: Name, before: set<Name>, component: seq<Name>)
    requires Flooding(g, newFiles, f, before, component, []) && ClosedSet(g, newFiles, before) && f !in before
    ensures f in component && forall x :: x in component <==> x in newFiles && Connected(g, newFiles, x, f)
    ensures ClosedSet(g, newFiles, before + Members(component))
  {
    var u := Undirected(g, newFiles);
    var S := Members(component);
    forall a, b | DependsOn(u, a, b) && b in S ensures a in S {
      if a in before { assert DependsOn(u, b, a); }
    }
    forall x | x in newFiles && Connected(g, newFiles, x, f) ensures x in component {
      if x != f { ClosedContainsDependents(u, S, x, f); }
    }
  }

  method PushUnvisited(neighbors: seq<Name>, visited: set<Name>, queue0: seq<Name>) returns (queue: seq<Name>)
    ensures forall x :: x in queue <==> x in queue0 || (x in neighbors && x !in visited)
  {
    queue := queue0;
    for i := 0 to |neighbors|
      invariant forall x :: x in queue <==> x in queue0 || (x in neighbors[..i] && x !in visited)
    {
      assert neighbors[..i + 1] == neighbors[..i] + [neighbors[i]];
      if neighbors[i] !in visited { queue := queue + [neighbors[i]]; }
    }
    assert neighbors[..|neighbors|] == neighbors;
  }

  lemma FloodStep(g: Graph, newFiles: seq<Name>, f: Name, before: set<Name>, component: seq<Name>, queue: seq<Name>,
                  neighbors: map<Name, seq<Name>>, queue': seq<Name>)
    requires AreNeighbors(g, newFiles, neighbors)
    requires Flooding(g, newFiles, f, before, component, queue) && queue != []
    requires queue[|queue| - 1] !in component && queue[|queue| - 1] !in before
    requires queue[|queue| - 1] in neighbors
    requires var seen := before + Members(component + [queue[|queue| - 1]]);
      forall x :: x in queue' <==> x in queue[..|queue| - 1] || (x in neighbors[queue[|queue| - 1]] && x !in seen)
    ensures Flooding(g, newFiles, f, before, component + [queue[|queue| - 1]], queue')
  {
    var current := queue[|queue| - 1];
    assert queue == queue[..|queue| - 1] + [current];
    var u := Undirected(g, newFiles);
    forall x | x in neighbors[current] ensures x in newFiles && Connected(g, newFiles, x, f) {
      assert DependsOn(u, current, x) && DependsOn(u, x, current);
      NeighborConnected(g, newFiles, x, current, f);
    }
    forall a, b | DependsOn(u, a, b) && b in component + [current]
      ensures a in component + [current] || a in before || a in queue'
    {
      if b == current { assert DependsOn(u, b, a) && a in neighbors[current]; }
    }
  }

  lemma SkipStep(g: Graph, newFiles: seq<Name>, f: Name, before: set<Name>, component: seq<Name>, queue: seq<Name>)
    requires Flooding(g, newFiles, f, before, component, queue) && queue != []
    requires ClosedSet(g, newFiles, before) && f !in before
    requires queue[|queue| - 1] in component || queue[|queue| - 1] in before
    ensures Flooding(g, newFiles, f, before, component, queue[..|queue| - 1])
  {
    assert queue == queue[..|queue| - 1] + [queue[|queue| - 1]];
  }

  /** One component by depth-first search from f (src/commands/squash.ts:161-172). */
  method FloodFrom(g: Graph, newFiles: seq<Name>, neighbors: map<Name, seq<Name>>, f: Name, visited0: set<Name>)
      returns (component: seq<Name>, visited: set<Name>)
    requires AreNeighbors(g, newFiles, neighbors) && f in newFiles && f !in visited0
    requires visited0 <= Members(newFiles) && ClosedSet(g, newFiles, visited0)
    ensures visited == visited0 + Members(component)
    ensures Flooding(g, newFiles, f, visited0, component, [])
  {
    visited, component := visited0, [];
    var queue := [f];
    while |queue| > 0
      invariant visited == visited0 + Members(component) && visited <= Members(newFiles)
      invariant Flooding(g, newFiles, f, visited0, component, queue)
      decreases Members(newFiles) - visited, |queue|
    {
      var current := queue[|queue| - 1];
      assert current in queue;
      if current in visited {
        SkipStep(g, newFiles, f, visited0, component, queue);
        queue := queue[..|queue| - 1];
        continue;
      }
      MembersAppend(component, current);
      visited := visited + {current};
      var queue' := PushUnvisited(neighbors[current], visited, queue[..|queue| - 1]);
      FloodStep(g, newFiles, f, visited0, component, queue, neighbors, queue');
      component, queue := component + [current], queue';
    }
  }

  ghost predicate Covered(components: seq<seq<Name>>, visited: set<Name>) {
    forall x :: x in visited <==> Covers(components, x)
  }

  /** The component starting at f, with f as the file that names it. */
  lemma FloodedIsComponent(g: Graph, newFiles: seq<Name>, f: Name, before: set<Name>, component: seq<Name>)
    requires Flooding(g, newFiles, f, before, component, []) && ClosedSet(g, newFiles, before) && f !in before
    ensures IsComponent(g, newFiles, component)
    ensures f in component && ClosedSet(g, newFiles, before + Members(component))
  {
    Flooded(g, newFiles, f, before, component);
    SameComponent(g, newFiles, component[0], f);
  }

  ghost predicate SoFar(g: Graph, newFiles: seq<Name>, components: seq<seq<Name>>, visited: set<Name>) {
    && (forall k :: 0 <= k < |components| ==> IsComponent(g, newFiles, components[k]))
    && Covered(components, visited)
    && (forall k, l :: 0 <= k < l < |components| ==> Apart(components[k], components[l]))
    && visited <= Members(newFiles) && ClosedSet(g, newFiles, visited)
  }

  lemma AddComponent(g: Graph, newFiles: seq<Name>, components: seq<seq<Name>>, visited: set<Name>, f: Name,
                     component: seq<Name>)
    requires SoFar(g, newFiles, components, visited) && f in component
    requires IsComponent(g, newFiles, component) && ClosedSet(g, newFiles, visited + Members(component))
    requires forall x :: x in component ==> x !in visited
    ensures SoFar(g, newFiles, components + [component], visited + Members(component)) && f in component
  {
    var all := components + [component];
    forall x ensures x in visited + Members(component) <==> Covers(all, x) {
      if x in visited {
        var k :| 0 <= k < |components| && x in components[k];
        assert x in all[k];
      }
      if x in component { assert x in all[|components|]; }
      if k :| 0 <= k < |all| && x in all[k] {
        if k < |components| { assert x in components[k]; }
      }
    }
    forall k, l | 0 <= k < l < |all| ensures Apart(all[k], all[l]) {
      if l == |components| {
        forall x | x in components[k] ensures x !in component { assert Covers(components, x); }
      }
    }
  }

  lemma AllVisited(g: Graph, newFiles: seq<Name>, components: seq<seq<Name>>, visited: set<Name>)
    requires SoFar(g, newFiles, components, visited) && AllIn(newFiles, visited)
    ensures AreComponents(g, newFiles, components)
  {
  }

  // ---- The order inside a component ----

  /** compareSortKeys (src/naming.ts:161-163), on keys that string order and locale order agree on. */
  ghost predicate SortedByKey(q: seq<Name>, sortKey: Name -> string) {
    forall i, j :: 0 <= i < j < |q| ==> AtMost(sortKey(q[i]), sortKey(q[j]))
  }

  function InsertByKey(x: Name, q: seq<Name>, sortKey: Name -> string): seq<Name> {
    if q == [] then [x]
    else if Less(sortKey(q[0]), sortKey(x)) then [q[0]] + InsertByKey(x, q[1..], sortKey)
    else [x] + q
  }

  lemma {:induction false} InsertByKeyKeepsAll(x: Name, q: seq<Name>, sortKey: Name -> string)
    ensures multiset(InsertByKey(x, q, sortKey)) == multiset(q) + multiset{x}
    ensures forall y :: y in InsertByKey(x, q, sortKey) <==> y == x || y in q
  {
    if q != [] {
      assert q == [q[0]] + q[1..];
      InsertByKeyKeepsAll(x, q[1..], sortKey);
    }
  }

  ghost predicate KeyBelowAll(x: Name, q: seq<Name>, sortKey: Name -> string) {
    forall y :: y in q ==> AtMost(sortKey(x), sortKey(y))
  }

  lemma InsertedFirst(x: Name, q: seq<Name>, sortKey: Name -> string)
    requires SortedByKey(q, sortKey) && q != [] && !Less(sortKey(q[0]), sortKey(x))
    ensures KeyBelowAll(x, q, sortKey)
  {
    var a, b := sortKey(x), sortKey(q[0]);
    LessIsTotal(a, b);
    forall y | y in q ensures AtMost(a, sortKey(y)) {
      if a != b && b != sortKey(y) { LessIsTransitive(a, b, sortKey(y)); }
    }
  }

  lemma {:induction false} InsertByKeySorts(x: Name, q: seq<Name>, sortKey: Name -> string)
    requires SortedByKey(q, sortKey)
    ensures SortedByKey(InsertByKey(x, q, sortKey), sortKey)
  {
    if q != [] {
      if Less(sortKey(q[0]), sortKey(x)) {
        InsertByKeySorts(x, q[1..], sortKey);
        InsertByKeyKeepsAll(x, q[1..], sortKey);
        assert KeyBelowAll(q[0], InsertByKey(x, q[1..], sortKey), sortKey);
      } else {
        InsertedFirst(x, q, sortKey);
      }
    }
  }

  function SortByKey(q: seq<Name>, sortKey: Name -> string): (r: seq<Name>)
    ensures multiset(r) == multiset(q)
    ensures SortedByKey(r, sortKey)
  {
    if q == [] then []
    else
      assert q == [q[0]] + q[1..];
      InsertByKeyKeepsAll(q[0], SortByKey(q[1..], sortKey), sortKey);
      InsertByKeySorts(q[0], SortByKey(q[1..], sortKey), sortKey);
      InsertByKey(q[0], SortByKey(q[1..], sortKey), sortKey)
  }

  lemma DistinctPermuted(c: seq<Name>, d: seq<Name>)
    requires Distinct(c) && multiset(c) == multiset(d)
    ensures Distinct(d) && |d| == |c| && forall x :: x in d <==> x in c
  {
    forall x ensures multiset(d)[x] <= 1 { DistinctCount(c, x); }
    CountDistinct(d);
    MembersFromMultiset(c, d);
  }

  lemma ComponentPermuted(g: Graph, newFiles: seq<Name>, c: seq<Name>, d: seq<Name>)
    requires IsComponent(g, newFiles, c) && multiset(c) == multiset(d)
    ensures IsComponent(g, newFiles, d) && forall x :: x in d <==> x in c
  {
    DistinctPermuted(c, d);
    assert d[0] in c;
    SameComponent(g, newFiles, d[0], c[0]);
  }

  lemma SameComponent(g: Graph, newFiles: seq<Name>, a: Name, b: Name)
    requires Connected(g, newFiles, a, b)
    ensures forall x :: Connected(g, newFiles, x, a) <==> Connected(g, newFiles, x, b)
  {
    forall x ensures Connected(g, newFiles, x, a) <==> Connected(g, newFiles, x, b) {
      if Connected(g, newFiles, x, a) { ConnectedTransitive(g, newFiles, x, a, b); }
      if Connected(g, newFiles, x, b) {
        ConnectedSymmetric(g, newFiles, a, b);
        ConnectedTransitive(g, newFiles, x, b, a);
      }
    }
  }

  ghost predicate EachSorted(components: seq<seq<Name>>, sortKey: Name -> string) {
    forall c :: c in components ==> SortedByKey(c, sortKey)
  }

  /** Splits the new files into their connected components, each in the order of the sort keys. */
  method FindConnectedComponents(newFiles: seq<Name>, g: Graph, sortKey: Name -> string)
      returns (components: seq<seq<Name>>)
    ensures AreComponents(g, newFiles, components) && EachSorted(components, sortKey)
  {
    var neighbors := CollectNeighbors(g, newFiles);
    components := [];
    var visited: set<Name> := {};
    NothingYet(g, newFiles);
    for i := 0 to |newFiles|
      invariant SoFar(g, newFiles, components, visited) && EachSorted(components, sortKey)
      invariant AllIn(newFiles[..i], visited)
    {
      components, visited := Visit(g, newFiles, neighbors, i, sortKey, components, visited);
    }
    assert newFiles[..|newFiles|] == newFiles;
    AllVisited(g, newFiles, components, visited);
  }

  lemma NothingYet(g: Graph, newFiles: seq<Name>)
    ensures SoFar(g, newFiles, [], {})
  {
  }

  ghost predicate AllIn(files: seq<Name>, visited: set<Name>) {
    forall x :: x in files ==> x in visited
  }

  /** One round of the loop: a file already in a component is passed over. */
  method Visit(g: Graph, newFiles: seq<Name>, neighbors: map<Name, seq<Name>>, i: nat,
               sortKey: Name -> string, components0: seq<seq<Name>>, visited0: set<Name>)
      returns (components: seq<seq<Name>>, visited: set<Name>)
    requires AreNeighbors(g, newFiles, neighbors) && i < |newFiles|
    requires SoFar(g, newFiles, components0, visited0) && EachSorted(components0, sortKey)
    requires AllIn(newFiles[..i], visited0)
    ensures SoFar(g, newFiles, components, visited) && EachSorted(components, sortKey)
    ensures AllIn(newFiles[..i + 1], visited)
  {
    components, visited := components0, visited0;
    if newFiles[i] !in visited {
      components, visited := NextComponent(g, newFiles, neighbors, newFiles[i], sortKey, components, visited);
    }
    assert newFiles[..i + 1] == newFiles[..i] + [newFiles[i]];
  }

  method NextComponent(g: Graph, newFiles: seq<Name>, neighbors: map<Name, seq<Name>>, f: Name,
                       sortKey: Name -> string, components0: seq<seq<Name>>, visited0: set<Name>)
      returns (components: seq<seq<Name>>, visited: set<Name>)
    requires AreNeighbors(g, newFiles, neighbors) && f in newFiles && f !in visited0
    requires SoFar(g, newFiles, components0, visited0) && EachSorted(components0, sortKey)
    ensures SoFar(g, newFiles, components, visited) && visited0 + {f} <= visited
    ensures EachSorted(components, sortKey)
  {
    var component;
    component, visited := FloodFrom(g, newFiles, neighbors, f, visited0);
    FloodedIsComponent(g, newFiles, f, visited0, component);
    var sorted := SortByKey(component, sortKey);
    ComponentPermuted(g, newFiles, component, sorted);
    assert Members(sorted) == Members(component);
    AddComponent(g, newFiles, components0, visited0, f, sorted);
    components := components0 + [sorted];
  }

  // ---- Contracting the components ----

  /** The file that stands for x once each component is one file. */
  ghost function Rep(components: seq<seq<Name>>, x: Name): Name {
    if exists k :: 0 <= k < |components| && x in components[k] then
      var k :| 0 <= k < |components| && x in components[k];
      components[k][0]
    else x
  }

  ghost predicate IsContractedEdge(es: seq<Edge>, components: seq<seq<Name>>, e: Edge) {
    e.from != e.to && exists d :: d in es && e == Edge(Rep(components, d.from), Rep(components, d.to))
  }

  /** The edges between the squashed files and the untouched ones. */
  ghost function ContractedEdges(es: seq<Edge>, components: seq<seq<Name>>): (r: seq<Edge>)
    ensures forall e :: e in r <==> IsContractedEdge(es, components, e)
  {
    if es == [] then []
    else
      var init, last := es[..|es| - 1], es[|es| - 1];
      assert es == init + [last];
      var e := Edge(Rep(components, last.from), Rep(components, last.to));
      ContractedEdges(init, components) + if e.from != e.to then [e] else []
  }

  ghost function Contracted(g: Graph, components: seq<seq<Name>>): Graph {
    Graph(g.files, ContractedEdges(g.edges, components))
  }

  lemma RepIsFirst(g: Graph, newFiles: seq<Name>, components: seq<seq<Name>>, x: Name) returns (k: nat)
    requires AreComponents(g, newFiles, components) && x in newFiles
    ensures k < |components| && x in components[k] && IsComponent(g, newFiles, components[k])
    ensures Rep(components, x) == components[k][0]
  {
    k := ComponentOf(g, newFiles, components, x);
  }

  lemma RepIsNew(g: Graph, newFiles: seq<Name>, components: seq<seq<Name>>, x: Name)
    requires AreComponents(g, newFiles, components)
    ensures x in newFiles <==> Rep(components, x) in newFiles
    ensures x !in newFiles ==> Rep(components, x) == x
  {
    if x in newFiles {
      var k := RepIsFirst(g, newFiles, components, x);
    } else {
      forall k | 0 <= k < |components| ensures x !in components[k] {
        assert IsComponent(g, newFiles, components[k]);
      }
    }
  }

  lemma RepInside(g: Graph, newFiles: seq<Name>, components: seq<seq<Name>>, a: Name, b: Name)
    requires AreComponents(g, newFiles, components)
    requires DependsOn(g, a, b) && a in newFiles && b in newFiles
    ensures Rep(components, a) == Rep(components, b)
  {
    assert DependsOn(Undirected(g, newFiles), a, b);
    EdgeReaches(Undirected(g, newFiles), a, b);
    ConnectedShareRep(g, newFiles, components, a, b);
  }

  /** Connected new files are replaced by the same file. */
  lemma ConnectedShareRep(g: Graph, newFiles: seq<Name>, components: seq<seq<Name>>, a: Name, b: Name)
    requires AreComponents(g, newFiles, components)
    requires a in newFiles && b in newFiles && Connected(g, newFiles, a, b)
    ensures Rep(components, a) == Rep(components, b)
  {
    var k := RepIsFirst(g, newFiles, components, a);
    var l := RepIsFirst(g, newFiles, components, b);
    SharedAreConnected(g, newFiles, components[l], a, b);
    OneComponentOnly(g, newFiles, components, k, l, a);
  }

  ghost predicate NoRecordedDependsOnNew(g: Graph, newFiles: seq<Name>) {
    forall a, b :: DependsOn(g, a, b) && b in newFiles ==> a in newFiles
  }

  lemma ContractedEdgeSource(g: Graph, components: seq<seq<Name>>, x: Name, y: Name) returns (d: Edge)
    requires DependsOn(Contracted(g, components), x, y)
    ensures DependsOn(g, d.from, d.to) && x == Rep(components, d.from) && y == Rep(components, d.to) && x != y
  {
    var e := Edge(x, y);
    assert IsContractedEdge(g.edges, components, e);
    d :| d in g.edges && e == Edge(Rep(components, d.from), Rep(components, d.to));
    assert d == Edge(d.from, d.to);
  }

  /** A contracted edge never enters a squashed file, and between recorded files it is an old edge. */
  lemma ContractedEdgeIsOld(g: Graph, newFiles: seq<Name>, components: seq<seq<Name>>, x: Name, y: Name)
    requires AreComponents(g, newFiles, components) && NoRecordedDependsOnNew(g, newFiles)
    requires DependsOn(Contracted(g, components), x, y)
    ensures y !in newFiles && (x !in newFiles ==> DependsOn(g, x, y))
  {
    var d := ContractedEdgeSource(g, components, x, y);
    RepIsNew(g, newFiles, components, d.from);
    RepIsNew(g, newFiles, components, d.to);
    if d.to in newFiles { RepInside(g, newFiles, components, d.from, d.to); }
  }

  /**
   * If no recorded file depends on a new one, replacing each component by a single file keeps
   * the graph free of cycles.
   */
  lemma ContractionIsAcyclic(g: Graph, newFiles: seq<Name>, components: seq<seq<Name>>)
    requires AreComponents(g, newFiles, components) && NoRecordedDependsOnNew(g, newFiles)
    requires !HasCycle(g)
    ensures !HasCycle(Contracted(g, components))
  {
    var c := Contracted(g, components);
    forall p ensures !IsClosedWalk(c, p) {
      if IsClosedWalk(c, p) {
        ClosedWalkIsOld(g, newFiles, components, p);
      }
    }
  }

  lemma ClosedWalkIsOld(g: Graph, newFiles: seq<Name>, components: seq<seq<Name>>, p: seq<Name>)
    requires AreComponents(g, newFiles, components) && NoRecordedDependsOnNew(g, newFiles)
    requires IsClosedWalk(Contracted(g, components), p)
    ensures IsClosedWalk(g, p)
  {
    var c := Contracted(g, components);
    forall i | 0 <= i < |p| ensures p[i] !in newFiles {
      var k := if i == 0 then |p| - 1 else i;
      assert DependsOn(c, p[k - 1], p[k]);
      ContractedEdgeIsOld(g, newFiles, components, p[k - 1], p[k]);
    }
    forall i, j | 0 <= i < j < |p| && j == i + 1 ensures DependsOn(g, p[i], p[j]) {
      assert DependsOn(c, p[i], p[j]);
      ContractedEdgeIsOld(g, newFiles, components, p[i], p[j]);
    }
  }

  // ---- Exactly when squashing closes a cycle ----

  /** Dependency edges, and moves back and forth between neighbouring new files. */
  function Mixed(g: Graph, newFiles: seq<Name>): Graph {
    Graph(g.files, g.edges + BothWays(g.edges, newFiles))
  }

  /** A recorded file is on a closed walk of dependency edges and moves inside components. */
  ghost predicate ComesBack(g: Graph, newFiles: seq<Name>, r: Name) {
    r !in newFiles && Reaches(Mixed(g, newFiles), r, r)
  }

  lemma ConnectedInMixed(g: Graph, newFiles: seq<Name>, a: Name, b: Name)
    requires Connected(g, newFiles, a, b) && a != b
    ensures Reaches(Mixed(g, newFiles), a, b)
  {
    var u, m := Undirected(g, newFiles), Mixed(g, newFiles);
    var p :| IsChain(u, p, a, b);
    forall i, j | 0 <= i < j < |p| && j == i + 1 ensures DependsOn(m, p[i], p[j]) {
      assert DependsOn(u, p[i], p[j]);
    }
    assert IsChain(m, p, a, b);
  }

  lemma RepInMixed(g: Graph, newFiles: seq<Name>, components: seq<seq<Name>>, x: Name)
    requires AreComponents(g, newFiles, components)
    ensures var c := Rep(components, x);
      c == x || (Reaches(Mixed(g, newFiles), x, c) && Reaches(Mixed(g, newFiles), c, x))
  {
    var c := Rep(components, x);
    RepIsNew(g, newFiles, components, x);
    if c != x {
      var k := RepIsFirst(g, newFiles, components, x);
      ConnectedInMixed(g, newFiles, x, c);
      ConnectedSymmetric(g, newFiles, x, c);
      ConnectedInMixed(g, newFiles, c, x);
    }
  }

  /** One edge between squashed files is a walk in the mixed graph, and one end of it is recorded. */
  lemma ContractedEdgeInMixed(g: Graph, newFiles: seq<Name>, components: seq<seq<Name>>, x: Name, y: Name)
    requires AreComponents(g, newFiles, components) && DependsOn(Contracted(g, components), x, y)
    ensures Reaches(Mixed(g, newFiles), x, y) && (x !in newFiles || y !in newFiles)
  {
    var m := Mixed(g, newFiles);
    var d := ContractedEdgeSource(g, components, x, y);
    RepIsNew(g, newFiles, components, d.from);
    RepIsNew(g, newFiles, components, d.to);
    if d.from in newFiles && d.to in newFiles { RepInside(g, newFiles, components, d.from, d.to); }
    RepInMixed(g, newFiles, components, d.from);
    RepInMixed(g, newFiles, components, d.to);
    EdgeReaches(m, d.from, d.to);
    if x != d.from { ReachesTransitive(m, x, d.from, d.to); }
    if y != d.to { ReachesTransitive(m, x, d.to, y); }
  }

  lemma {:induction false} ContractedChainInMixed(g: Graph, newFiles: seq<Name>, components: seq<seq<Name>>,
                                                  p: seq<Name>, x: Name, y: Name)
    requires AreComponents(g, newFiles, components) && IsChain(Contracted(g, components), p, x, y)
    ensures Reaches(Mixed(g, newFiles), x, y)
  {
    var z := ChainStep(Contracted(g, components), p, x, y);
    ContractedEdgeInMixed(g, newFiles, components, x, z);
    if |p| > 2 {
      ContractedChainInMixed(g, newFiles, components, p[1..], z, y);
      ReachesTransitive(Mixed(g, newFiles), x, z, y);
    }
  }

  lemma ChainStep(g: Graph, p: seq<Name>, x: Name, y: Name) returns (z: Name)
    requires IsChain(g, p, x, y)
    ensures DependsOn(g, x, z) && (|p| == 2 ==> z == y) && (|p| > 2 ==> IsChain(g, p[1..], z, y))
  {
    z := p[1];
  }

  lemma ContractedReachesInMixed(g: Graph, newFiles: seq<Name>, components: seq<seq<Name>>, x: Name, y: Name)
    requires AreComponents(g, newFiles, components) && Reaches(Contracted(g, components), x, y)
    ensures Reaches(Mixed(g, newFiles), x, y)
  {
    var p :| IsChain(Contracted(g, components), p, x, y);
    ContractedChainInMixed(g, newFiles, components, p, x, y);
  }

  lemma CycleComesBack(g: Graph, newFiles: seq<Name>, components: seq<seq<Name>>)
    requires AreComponents(g, newFiles, components) && HasCycle(Contracted(g, components))
    ensures exists r :: ComesBack(g, newFiles, r)
  {
    var c := Contracted(g, components);
    CycleReaches(c);
    var x :| Reaches(c, x, x);
    var y := ReachesFirstStep(c, x, x);
    ContractedEdgeInMixed(g, newFiles, components, x, y);
    EdgeReaches(c, x, y);
    if y != x { ReachesTransitive(c, y, x, y); }
    ContractedReachesInMixed(g, newFiles, components, x, x);
    ContractedReachesInMixed(g, newFiles, components, y, y);
    assert ComesBack(g, newFiles, x) || ComesBack(g, newFiles, y);
  }

  /** A step of the mixed graph stays inside a component or is an edge between squashed files. */
  lemma MixedStep(g: Graph, newFiles: seq<Name>, components: seq<seq<Name>>, x: Name, y: Name)
    requires AreComponents(g, newFiles, components) && DependsOn(Mixed(g, newFiles), x, y)
    ensures Rep(components, x) == Rep(components, y)
      || Reaches(Contracted(g, components), Rep(components, x), Rep(components, y))
  {
    if DependsOn(g, x, y) {
      if Rep(components, x) != Rep(components, y) {
        KeepsEdge(g, components, Edge(x, y));
        EdgeReaches(Contracted(g, components), Rep(components, x), Rep(components, y));
      }
    } else {
      assert Edge(x, y) in BothWays(g.edges, newFiles);
      RepInside(g, newFiles, components, y, x);
    }
  }

  lemma {:induction false} MixedChain(g: Graph, newFiles: seq<Name>, components: seq<seq<Name>>,
                                      p: seq<Name>, x: Name, y: Name)
    requires AreComponents(g, newFiles, components) && IsChain(Mixed(g, newFiles), p, x, y)
    ensures Rep(components, x) == Rep(components, y)
      || Reaches(Contracted(g, components), Rep(components, x), Rep(components, y))
  {
    var z := ChainStep(Mixed(g, newFiles), p, x, y);
    MixedStep(g, newFiles, components, x, z);
    if |p| > 2 {
      MixedChain(g, newFiles, components, p[1..], z, y);
      JoinReaches(Contracted(g, components), Rep(components, x), Rep(components, z), Rep(components, y));
    }
  }

  lemma JoinReaches(g: Graph, x: Name, z: Name, y: Name)
    requires (x == z || Reaches(g, x, z)) && (z == y || Reaches(g, z, y))
    ensures x == y || Reaches(g, x, y)
  {
    if x != z && z != y { ReachesTransitive(g, x, z, y); }
  }

  lemma ComingBackIsCycle(g: Graph, newFiles: seq<Name>, components: seq<seq<Name>>, r: Name)
    requires AreComponents(g, newFiles, components) && ComesBack(g, newFiles, r) && !DependsOn(g, r, r)
    ensures HasCycle(Contracted(g, components))
  {
    var m, c := Mixed(g, newFiles), Contracted(g, components);
    var y := ReachesFirstStep(m, r, r);
    assert Edge(r, y) !in BothWays(g.edges, newFiles);
    assert DependsOn(g, r, y) && y != r;
    RepIsNew(g, newFiles, components, r);
    RepIsNew(g, newFiles, components, y);
    KeepsEdge(g, components, Edge(r, y));
    EdgeReaches(c, r, Rep(components, y));
    var p :| IsChain(m, p, y, r);
    MixedChain(g, newFiles, components, p, y, r);
    ReachesTransitive(c, r, Rep(components, y), r);
    CycleReaches(c);
  }

  /**
   * Replacing each component by a single file closes a cycle exactly when some recorded file is on
   * a closed walk of dependency edges and moves inside components.
   */
  lemma ContractionHasCycleExactlyWhen(g: Graph, newFiles: seq<Name>, components: seq<seq<Name>>)
    requires AreComponents(g, newFiles, components)
    requires forall f :: !DependsOn(g, f, f)
    ensures HasCycle(Contracted(g, components)) <==> exists r :: ComesBack(g, newFiles, r)
  {
    if HasCycle(Contracted(g, components)) { CycleComesBack(g, newFiles, components); }
    forall r | ComesBack(g, newFiles, r) ensures HasCycle(Contracted(g, components)) {
      ComingBackIsCycle(g, newFiles, components, r);
    }
  }

  lemma {:induction false} ReachesInMore(g: Graph, h: Graph, a: Name, b: Name)
    requires Reaches(g, a, b) && forall e :: e in g.edges ==> e in h.edges
    ensures Reaches(h, a, b)
  {
    var p :| IsChain(g, p, a, b);
    forall i, j | 0 <= i < j < |p| && j == i + 1 ensures DependsOn(h, p[i], p[j]) {
      assert DependsOn(g, p[i], p[j]);
    }
    assert IsChain(h, p, a, b);
  }

  /** In particular when it lies between two new files of one component. */
  lemma RecordedInBetweenMakesACycle(g: Graph, newFiles: seq<Name>, components: seq<seq<Name>>, a: Name, r: Name,
                                     b: Name)
    requires AreComponents(g, newFiles, components) && a in newFiles && b in newFiles && r !in newFiles
    requires Connected(g, newFiles, a, b) && Reaches(g, a, r) && Reaches(g, r, b)
    requires forall f :: !DependsOn(g, f, f)
    ensures HasCycle(Contracted(g, components))
  {
    var m := Mixed(g, newFiles);
    ReachesInMore(g, m, a, r);
    ReachesInMore(g, m, r, b);
    ConnectedSymmetric(g, newFiles, a, b);
    if a != b {
      ConnectedInMixed(g, newFiles, b, a);
      ReachesTransitive(m, r, b, a);
    }
    ReachesTransitive(m, r, a, r);
    ComingBackIsCycle(g, newFiles, components, r);
  }

  lemma KeepsEdge(g: Graph, components: seq<seq<Name>>, d: Edge)
    requires d in g.edges && Rep(components, d.from) != Rep(components, d.to)
    ensures DependsOn(Contracted(g, components), Rep(components, d.from), Rep(components, d.to))
  {
    assert IsContractedEdge(g.edges, components, Edge(Rep(components, d.from), Rep(components, d.to)));
  }
}
