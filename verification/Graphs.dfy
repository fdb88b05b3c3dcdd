/**
 * The migration dependency graph (src/deps.ts:69-79). An edge runs from a file to a file
 * it depends on. Walks, reachability, cycles and dependency orders are defined here once;
 * every algorithm is proved against them.
 */
module Graphs {
  import opened Names

  datatype Edge = Edge(from: Name, to: Name)

  datatype Graph = Graph(files: seq<Name>, edges: seq<Edge>) {
    ghost predicate WellFormed() {
      forall e | e in edges :: e.from in files && e.to in files
    }
  }

  ghost predicate DependsOn(g: Graph, a: Name, b: Name) {
    Edge(a, b) in g.edges
  }

  ghost predicate IsWalk(g: Graph, p: seq<Name>) {
    forall i, j :: 0 <= i < j < |p| && j == i + 1 ==> DependsOn(g, p[i], p[j])
  }

  ghost predicate IsChain(g: Graph, p: seq<Name>, a: Name, b: Name) {
    |p| >= 2 && p[0] == a && p[|p| - 1] == b && IsWalk(g, p)
  }

  /** a depends on b, directly or through other files. */
  ghost predicate Reaches(g: Graph, a: Name, b: Name) {
    exists p :: IsChain(g, p, a, b)
  }

  ghost predicate IsClosedWalk(g: Graph, p: seq<Name>) {
    |p| >= 2 && p[0] == p[|p| - 1] && IsWalk(g, p)
  }

  ghost predicate HasCycle(g: Graph) {
    exists p :: IsClosedWalk(g, p)
  }

  /** Every file exactly once, each after all the files it depends on. */
  ghost predicate IsDependencyOrder(g: Graph, s: seq<Name>) {
    && Distinct(s)
    && (forall x :: x in s <==> x in g.files)
    && forall i, y :: 0 <= i < |s| && DependsOn(g, s[i], y) ==> y in s[..i]
  }

  lemma EdgeReaches(g: Graph, a: Name, b: Name)
    requires DependsOn(g, a, b)
    ensures Reaches(g, a, b)
  {
    assert IsChain(g, [a, b], a, b);
  }

  lemma ReachesTransitive(g: Graph, a: Name, b: Name, c: Name)
    requires Reaches(g, a, b) && Reaches(g, b, c)
    ensures Reaches(g, a, c)
  {
    var p :| IsChain(g, p, a, b);
    var q :| IsChain(g, q, b, c);
    assert IsChain(g, p + q[1..], a, c);
  }

  lemma ReachesFirstStep(g: Graph, a: Name, c: Name) returns (b: Name)
    requires Reaches(g, a, c)
    ensures DependsOn(g, a, b) && (b == c || Reaches(g, b, c))
  {
    var p :| IsChain(g, p, a, c);
    b := p[1];
    if |p| > 2 {
      assert IsChain(g, p[1..], b, c);
    }
  }

  lemma CycleReaches(g: Graph)
    ensures HasCycle(g) <==> exists a :: Reaches(g, a, a)
  {
    if HasCycle(g) {
      var p :| IsClosedWalk(g, p);
      assert IsChain(g, p, p[0], p[0]);
      assert Reaches(g, p[0], p[0]);
    }
    forall a | Reaches(g, a, a) ensures HasCycle(g) {
      var p :| IsChain(g, p, a, a);
      assert IsClosedWalk(g, p);
    }
  }

  lemma WalkAppend(g: Graph, p: seq<Name>, y: Name)
    requires IsWalk(g, p)
    requires p != [] ==> DependsOn(g, p[|p| - 1], y)
    ensures IsWalk(g, p + [y])
  {
  }

  /** Along a list in which dependencies come first, walks only move towards the front. */
  lemma {:induction false} WalkDescends(g: Graph, order: seq<Name>, p: seq<Name>, i: nat)
    requires forall k, y :: 0 <= k < |order| && DependsOn(g, order[k], y) ==> y in order[..k]
    requires i < |order| && |p| >= 2 && p[0] == order[i] && IsWalk(g, p)
    ensures p[|p| - 1] in order[..i]
  {
    assert DependsOn(g, p[0], p[1]);
    if |p| > 2 {
      var j :| 0 <= j < i && order[j] == p[1];
      WalkDescends(g, order, p[1..], j);
      assert p[|p| - 1] in order[..j];
    }
  }

  /** Dependencies-first lists certify the absence of cycles. */
  lemma OrderedIsAcyclic(g: Graph, order: seq<Name>)
    requires forall k, y :: 0 <= k < |order| && DependsOn(g, order[k], y) ==> y in order[..k]
    requires forall e :: e in g.edges ==> e.from in order
    requires Distinct(order)
    ensures !HasCycle(g)
  {
    if HasCycle(g) {
      var p :| IsClosedWalk(g, p);
      assert DependsOn(g, p[0], p[1]);
      assert Edge(p[0], p[1]).from in order;
      var i :| 0 <= i < |order| && order[i] == p[0];
      WalkDescends(g, order, p, i);
    }
  }

  lemma WalkCloses(g: Graph, q: seq<Name>, k: nat)
    requires IsWalk(g, q) && k + 1 < |q| && q[k] == q[|q| - 1]
    ensures IsClosedWalk(g, q[k..])
    ensures HasCycle(g)
  {
    assert IsClosedWalk(g, q[k..]);
  }

  ghost predicate DependsInto(g: Graph, x: Name, S: set<Name>) {
    exists y :: y in S && DependsOn(g, x, y)
  }

  ghost predicate NeverStuck(g: Graph, S: set<Name>) {
    forall x :: x in S ==> DependsInto(g, x, S)
  }

  lemma NextStep(g: Graph, S: set<Name>, x: Name) returns (y: Name)
    requires NeverStuck(g, S) && x in S
    ensures y in S && DependsOn(g, x, y)
  {
    y :| y in S && DependsOn(g, x, y);
  }

  lemma MembersAppend<T>(p: seq<T>, y: T)
    ensures Members(p + [y]) == Members(p) + {y}
  {
  }

  lemma DistinctFits<T>(p: seq<T>, S: set<T>)
    requires Distinct(p) && Members(p) <= S
    ensures |p| <= |S|
  {
    MembersSize(p);
    SubsetSize(Members(p), S);
  }

  /** A walk without repetition inside a set that never gets stuck closes up. */
  lemma {:induction false} WalkUntilRepeat(g: Graph, S: set<Name>, p: seq<Name>)
    requires NeverStuck(g, S)
    requires |p| >= 1 && Distinct(p) && Members(p) <= S && IsWalk(g, p)
    ensures HasCycle(g)
    decreases |S| - |p|
  {
    var y := NextStep(g, S, p[|p| - 1]);
    WalkAppend(g, p, y);
    if y in p {
      var k :| 0 <= k < |p| && p[k] == y;
      WalkCloses(g, p + [y], k);
    } else {
      MembersAppend(p, y);
      DistinctFits(p + [y], S);
      WalkUntilRepeat(g, S, p + [y]);
    }
  }

  lemma SubsetSize<T>(A: set<T>, B: set<T>)
    requires A <= B
    ensures |A| <= |B|
  {
    assert B == A + (B - A);
  }

  /** If every file of a non-empty set depends on a file of the set, there is a cycle. */
  lemma StuckSetHasCycle(g: Graph, S: set<Name>)
    requires S != {} && NeverStuck(g, S)
    ensures HasCycle(g)
  {
    var x :| x in S;
    assert Members([x]) == {x};
    WalkUntilRepeat(g, S, [x]);
  }
}
