/**
 * The two answers to "is there a cycle": deps reports cycles found by depth-first search
 * (src/commands/deps.ts:21-38), apply sorts by counting degrees (src/commands/apply.ts:112-114).
 */
module Agreement {
  import opened Names
  import opened Graphs
  import opened Options
  import opened Ordering
  import opened CycleDetection

  ghost predicate HasOrder(g: Graph) {
    exists order :: IsDependencyOrder(g, order)
  }

  ghost predicate DependenciesFirst(g: Graph, s: seq<Name>) {
    forall i, y :: 0 <= i < |s| && DependsOn(g, s[i], y) ==> y in s[..i]
  }

  /** Without cycles, any start that puts dependencies first can be completed. */
  lemma {:induction false} Completed(g: Graph, s: seq<Name>)
    requires g.WellFormed() && !HasCycle(g)
    requires Distinct(s) && Members(s) <= Members(g.files) && DependenciesFirst(g, s)
    ensures HasOrder(g)
    decreases |Members(g.files)| - |s|
  {
    var S := Members(g.files) - Members(s);
    if S == {} {
      assert forall x :: x in Members(g.files) ==> x in Members(s) by {
        assert forall x :: x in Members(g.files) ==> x !in S;
      }
      SameMembers(s, g.files);
      assert IsDependencyOrder(g, s);
    } else {
      assert !NeverStuck(g, S) by { if NeverStuck(g, S) { StuckSetHasCycle(g, S); } }
      var x :| x in S && !DependsInto(g, x, S);
      ReadyNext(g, s, x);
      MembersAppend(s, x);
      DistinctFits(s + [x], Members(g.files));
      Completed(g, s + [x]);
    }
  }

  lemma SameMembers(s: seq<Name>, t: seq<Name>)
    requires Members(s) == Members(t)
    ensures forall x :: x in s <==> x in t
  {
    assert forall x :: x in s <==> x in Members(s);
    assert forall x :: x in t <==> x in Members(t);
  }

  lemma ReadyNext(g: Graph, s: seq<Name>, x: Name)
    requires g.WellFormed() && DependenciesFirst(g, s)
    requires x !in s && !DependsInto(g, x, Members(g.files) - Members(s))
    ensures DependenciesFirst(g, s + [x])
  {
    forall y | DependsOn(g, x, y) ensures y in s {
      assert Edge(x, y).to in g.files;
      assert y in Members(g.files) && (y in Members(s) || y in Members(g.files) - Members(s));
    }
    forall i, y | 0 <= i < |s + [x]| && DependsOn(g, (s + [x])[i], y) ensures y in (s + [x])[..i] {
      assert (s + [x])[..i] == s[..i];
    }
  }

  /** A dependency order exists exactly when no file depends on itself through others. */
  lemma OrderExistsExactlyIfAcyclic(g: Graph)
    requires g.WellFormed()
    ensures HasOrder(g) <==> !HasCycle(g)
  {
    if HasOrder(g) {
      var order :| IsDependencyOrder(g, order);
      OrderedIsAcyclic(g, order);
    } else if !HasCycle(g) {
      Completed(g, []);
    }
  }

  /** deps is ok exactly when the files can be applied dependencies first. */
  method CommandDeps(g: Graph) returns (ok: bool, cycles: seq<seq<Name>>)
    requires g.WellFormed()
    ensures ok <==> HasOrder(g)
    ensures ok <==> cycles == []
    ensures forall c :: c in cycles ==> IsSimpleCycle(g, c)
  {
    cycles := DetectCycles(g);
    ok := |cycles| == 0;
    OrderExistsExactlyIfAcyclic(g);
  }

  /** On distinct file names the sort gives up exactly when the search reports a cycle. */
  method SortAndSearchAgree(g: Graph) returns (sorted: Option<seq<Name>>, cycles: seq<seq<Name>>)
    requires g.WellFormed() && Distinct(g.files)
    ensures sorted.None? <==> cycles != []
    ensures sorted.Some? ==> IsLeastOrder(g, sorted.value)
    ensures forall c :: c in cycles ==> IsSimpleCycle(g, c)
  {
    sorted := TopologicalSort(g);
    cycles := DetectCycles(g);
  }
}
