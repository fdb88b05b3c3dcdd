/** Which files a baseline keeps and which it squashes (src/commands/baseline.ts:53-97, 176-231). */
module Baseline {
  import opened Names
  import opened Graphs
  import opened Options
  import opened Dependents

  predicate IsNamedBy(f: Name, cutpoint: string) {
    f == cutpoint || cutpoint + "/" <= f
  }

  /** The cutpoint is the file's own name, or the directory it is listed in. */
  ghost predicate IsMeantBy(f: Name, cutpoint: string) {
    f == cutpoint || exists x :: f == cutpoint + "/" + x
  }

  lemma NamedIsMeant(f: Name, cutpoint: string)
    ensures IsNamedBy(f, cutpoint) <==> IsMeantBy(f, cutpoint)
  {
    var start := cutpoint + "/";
    assert start <= f ==> f == start + f[if |start| <= |f| then |start| else 0..];
  }

  ghost predicate IsFirstNamed(files: seq<Name>, cutpoint: string, f: Name) {
    f in files && IsMeantBy(f, cutpoint)
    && exists i :: 0 <= i < |files| && files[i] == f && forall x :: x in files[..i] ==> !IsMeantBy(x, cutpoint)
  }

  lemma FirstNamedCons(files: seq<Name>, cutpoint: string)
    requires files != [] && !IsMeantBy(files[0], cutpoint)
    ensures forall f :: IsFirstNamed(files[1..], cutpoint, f) ==> IsFirstNamed(files, cutpoint, f)
  {
    var rest := files[1..];
    forall f | IsFirstNamed(rest, cutpoint, f) ensures IsFirstNamed(files, cutpoint, f) {
      var i :| 0 <= i < |rest| && rest[i] == f && forall x :: x in rest[..i] ==> !IsMeantBy(x, cutpoint);
      assert files[i + 1] == f && files[..i + 1] == [files[0]] + rest[..i];
    }
  }

  /** The first file that the cutpoint names, itself or as a group directory. */
  function ResolveCutpoint(files: seq<Name>, cutpoint: string): (r: Option<Name>)
    ensures r.Some? ==> IsFirstNamed(files, cutpoint, r.value)
    ensures r.None? ==> forall f :: f in files ==> !IsMeantBy(f, cutpoint)
  {
    if files == [] then None
    else
      assert files == [files[0]] + files[1..];
      NamedIsMeant(files[0], cutpoint);
      if IsNamedBy(files[0], cutpoint) then Some(files[0])
      else
        FirstNamedCons(files, cutpoint);
        ResolveCutpoint(files[1..], cutpoint)
  }

  /** A cutpoint keeps the file it resolves to and everything that depends on that file. */
  ghost predicate KeptBy(g: Graph, cutpoint: string, f: Name) {
    match ResolveCutpoint(g.files, cutpoint)
    case None => false
    case Some(r) => f == r || f in DependentClosure(g, r)
  }

  ghost predicate KeptBySome(g: Graph, cutpoints: seq<string>, f: Name) {
    exists c :: c in cutpoints && KeptBy(g, c, f)
  }

  /** The worklist of one cutpoint: the resolved file, and its dependents found so far. */
  ghost predicate Keeping(g: Graph, file: Name, keep: set<Name>, queue: seq<Name>) {
    && file in keep && keep <= DependentClosure(g, file) + {file}
    && (forall x :: x in queue ==> x in keep)
    && (forall x, y :: DependsOn(g, x, y) && y in keep && y !in queue ==> x in keep)
  }

  lemma KeepStep(g: Graph, file: Name, keep: set<Name>, queue: seq<Name>, children: seq<Name>,
                 keep': set<Name>, queue': seq<Name>)
    requires g.WellFormed() && Keeping(g, file, keep, queue) && queue != []
    requires forall x :: x in children <==> DependsOn(g, x, queue[|queue| - 1])
    requires keep' == keep + Members(children)
    requires forall x :: x in queue' <==> x in queue[..|queue| - 1] || (x in children && x !in keep)
    ensures Keeping(g, file, keep', queue')
  {
    var current := queue[|queue| - 1];
    assert queue == queue[..|queue| - 1] + [current];
    assert current in queue;
    forall x | x in children ensures x in DependentClosure(g, file) {
      DependentOfDependent(g, x, current, file);
    }
  }

  lemma KeepComplete(g: Graph, file: Name, keep: set<Name>)
    requires Keeping(g, file, keep, [])
    ensures keep == DependentClosure(g, file) + {file}
  {
    assert ClosedUnderDependents(g, keep, []);
    forall x | x in DependentClosure(g, file) ensures x in keep {
      ClosedContainsDependents(g, keep, x, file);
    }
  }

  /** The closure of one cutpoint (src/commands/baseline.ts:196-206). */
  method KeepFrom(g: Graph, childrenOf: map<Name, seq<Name>>, file: Name) returns (keep: set<Name>)
    requires g.WellFormed() && childrenOf.Keys == Members(g.files)
    requires forall f, x :: f in childrenOf ==> (x in childrenOf[f] <==> Edge(x, f) in g.edges)
    ensures keep == DependentClosure(g, file) + {file}
  {
    keep := {file};
    var queue := [file];
    while |queue| > 0
      invariant Keeping(g, file, keep, queue)
      decreases |DependentClosure(g, file) + {file}| - |keep|, |queue|
    {
      var current := queue[|queue| - 1];
      var children := if current in childrenOf then childrenOf[current] else [];
      forall x | DependsOn(g, x, current) ensures current in childrenOf {
        assert Edge(x, current).to in g.files;
      }
      ghost var keep0, queue0 := keep, queue;
      keep, queue := PushNew(children, keep, queue[..|queue| - 1]);
      KeepStep(g, file, keep0, queue0, children, keep, queue);
      SubsetSize(keep0, keep);
      SubsetSize(keep, DependentClosure(g, file) + {file});
    }
    KeepComplete(g, file, keep);
  }

  /** descendants maps each file to the cutpoints that keep it (src/commands/baseline.ts:181-211). */
  ghost predicate Marks(g: Graph, cutpoints: seq<string>, descendants: map<Name, set<string>>) {
    && Members(g.files) <= descendants.Keys
    && forall f, c :: f in descendants ==> (c in descendants[f] <==> c in cutpoints && KeptBy(g, c, f))
  }

  method MarkKept(ghost g: Graph, ghost before: seq<string>, descendants0: map<Name, set<string>>, keep: set<Name>,
                  cutpoint: string)
      returns (descendants: map<Name, set<string>>)
    requires Marks(g, before, descendants0)
    requires forall f :: f in keep <==> KeptBy(g, cutpoint, f)
    requires keep <= descendants0.Keys
    ensures Marks(g, before + [cutpoint], descendants)
  {
    descendants := descendants0;
    var left := keep;
    while left != {}
      invariant left <= keep && descendants.Keys == descendants0.Keys
      invariant forall f :: f in descendants ==>
        descendants[f] == descendants0[f] + if f in keep - left then {cutpoint} else {}
      decreases left
    {
      var f :| f in left;
      descendants := descendants[f := descendants[f] + {cutpoint}];
      left := left - {f};
    }
  }

  method MarkAll(g: Graph, cutpoints: seq<string>) returns (descendants: map<Name, set<string>>)
    requires g.WellFormed()
    ensures Marks(g, cutpoints, descendants)
  {
    descendants := map f | f in g.files :: {};
    var childrenOf := BuildChildren(g.files, g.edges);
    for i := 0 to |cutpoints|
      invariant Marks(g, cutpoints[..i], descendants)
    {
      assert cutpoints[..i + 1] == cutpoints[..i] + [cutpoints[i]];
      var resolved := ResolveCutpoint(g.files, cutpoints[i]);
      if resolved.Some? {
        var keep := KeepFrom(g, childrenOf, resolved.value);
        descendants := MarkKept(g, cutpoints[..i], descendants, keep, cutpoints[i]);
      }
    }
    assert cutpoints[..|cutpoints|] == cutpoints;
  }

  /** The files one cutpoint or more keeps, file by file (src/commands/baseline.ts:213-223). */
  method CollectMarked(g: Graph, cutpoints: seq<string>, descendants: map<Name, set<string>>)
      returns (keepSet: set<Name>)
    requires g.WellFormed() && Marks(g, cutpoints, descendants)
    ensures forall f :: f in keepSet <==> f in g.files && KeptBySome(g, cutpoints, f)
  {
    keepSet := {};
    for i := 0 to |g.files|
      invariant forall f :: f in keepSet <==> f in g.files[..i] && KeptBySome(g, cutpoints, f)
    {
      var file := g.files[i];
      assert g.files[..i + 1] == g.files[..i] + [file];
      assert file in Members(g.files);
      var kept := IsMarked(g, cutpoints, descendants, file);
      if kept { keepSet := keepSet + {file}; }
    }
    assert g.files[..|g.files|] == g.files;
  }

  method IsMarked(g: Graph, cutpoints: seq<string>, descendants: map<Name, set<string>>, file: Name)
      returns (kept: bool)
    requires Marks(g, cutpoints, descendants) && file in g.files
    ensures kept <==> KeptBySome(g, cutpoints, file)
  {
    kept := false;
    assert file in Members(g.files);
    for j := 0 to |cutpoints|
      invariant kept <==> KeptBySome(g, cutpoints[..j], file)
    {
      assert cutpoints[..j + 1] == cutpoints[..j] + [cutpoints[j]];
      assert cutpoints[j] in cutpoints;
      var resolved := ResolveCutpoint(g.files, cutpoints[j]);
      if resolved.Some? && (file == resolved.value || cutpoints[j] in descendants[file]) {
        kept := true;
      }
    }
    assert cutpoints[..|cutpoints|] == cutpoints;
  }

  /**
   * The keep set is the union, over the cutpoints that resolve, of the file each resolves to
   * and all its transitive dependents.
   */
  method ComputeKeepSet(g: Graph, cutpoints: seq<string>) returns (keepSet: set<Name>)
    requires g.WellFormed()
    ensures forall f :: f in keepSet <==> KeptBySome(g, cutpoints, f)
  {
    var descendants := MarkAll(g, cutpoints);
    keepSet := CollectMarked(g, cutpoints, descendants);
    forall f | KeptBySome(g, cutpoints, f) ensures f in g.files { }
    for i := 0 to |cutpoints|
      invariant forall f :: f in keepSet <==> KeptBySome(g, cutpoints, f)
    {
      assert cutpoints[i] in cutpoints;
      var resolved := ResolveCutpoint(g.files, cutpoints[i]);
      if resolved.Some? {
        assert KeptBy(g, cutpoints[i], resolved.value);
        keepSet := keepSet + {resolved.value};
      }
    }
  }

  // ---- Splitting the files ----

  /** No file outside S depends on a file in S. */
  ghost predicate NothingOutsideDependsOn(g: Graph, S: set<Name>) {
    forall x, y :: DependsOn(g, x, y) && y in S ==> x in S
  }

  lemma KeepSetIsClosed(g: Graph, cutpoints: seq<string>, keepSet: set<Name>)
    requires g.WellFormed() && forall f :: f in keepSet <==> KeptBySome(g, cutpoints, f)
    ensures NothingOutsideDependsOn(g, keepSet)
  {
    forall x, y | DependsOn(g, x, y) && y in keepSet ensures x in keepSet {
      var c :| c in cutpoints && KeptBy(g, c, y);
      DependentOfDependent(g, x, y, ResolveCutpoint(g.files, c).value);
      assert KeptBy(g, c, x);
    }
  }

  lemma LeavesAreClosed(g: Graph, leaves: set<Name>)
    requires forall f :: f in leaves ==> IsLeaf(g, f)
    ensures NothingOutsideDependsOn(g, leaves)
  {
  }

  /** A group whose backfill failed, the first file neither kept nor applied, or the files to squash and to keep. */
  datatype Plan = GroupFailed | Refused(file: Name) | Split(squashed: seq<Name>, kept: set<Name>)

  /** Without keep-since the leaves are kept, otherwise what the cutpoints keep. */
  ghost predicate Chosen(g: Graph, keepSince: seq<string>, f: Name) {
    if keepSince == [] then IsLeaf(g, f) else KeptBySome(g, keepSince, f)
  }

  /** Files of open groups are kept too. */
  ghost predicate Kept(g: Graph, keepSince: seq<string>, openFiles: set<Name>, f: Name) {
    Chosen(g, keepSince, f) || (f in g.files && f in openFiles)
  }

  ghost predicate SquashesNoDependency(g: Graph, squashed: seq<Name>, kept: set<Name>) {
    forall x, y :: x in squashed && y in kept ==> !DependsOn(g, x, y) && !Reaches(g, x, y)
  }

  /** If nothing outside the kept files depends on one of them, nothing outside reaches one either. */
  lemma ClosedSplitIsSafe(g: Graph, squashed: seq<Name>, kept: set<Name>)
    requires NothingOutsideDependsOn(g, kept)
    requires forall x :: x in squashed ==> x !in kept
    ensures SquashesNoDependency(g, squashed, kept)
  {
    assert ClosedUnderDependents(g, kept, []);
    forall x, y | x in squashed && y in kept ensures !DependsOn(g, x, y) && !Reaches(g, x, y) {
      if Reaches(g, x, y) { ClosedContainsDependents(g, kept, x, y); }
    }
  }

  method ChooseKeepSet(g: Graph, keepSince: seq<string>) returns (keepSet: set<Name>)
    requires g.WellFormed()
    ensures forall f :: f in keepSet <==> Chosen(g, keepSince, f)
    ensures NothingOutsideDependsOn(g, keepSet)
  {
    if |keepSince| == 0 {
      var leaves := FindLeafNodes(g);
      keepSet := set f | f in leaves;
      LeavesAreClosed(g, keepSet);
    } else {
      keepSet := ComputeKeepSet(g, keepSince);
      KeepSetIsClosed(g, keepSince, keepSet);
    }
  }

  method AddOpenFiles(files: seq<Name>, chosen: set<Name>, openFiles: set<Name>) returns (keepSet: set<Name>)
    ensures forall f :: f in keepSet <==> f in chosen || (f in files && f in openFiles)
  {
    keepSet := chosen;
    for i := 0 to |files|
      invariant forall f :: f in keepSet <==> f in chosen || (f in files[..i] && f in openFiles)
    {
      assert files[..i + 1] == files[..i] + [files[i]];
      if files[i] in openFiles { keepSet := keepSet + {files[i]}; }
    }
    assert files[..|files|] == files;
  }

  /** The first file that is neither kept nor applied. */
  ghost predicate IsFirstObstacle(files: seq<Name>, kept: set<Name>, applied: set<Name>, f: Name) {
    && f !in kept && f !in applied
    && exists i :: 0 <= i < |files| && files[i] == f && forall x :: x in files[..i] ==> x in kept || x in applied
  }

  method SelectTargets(files: seq<Name>, keepSet: set<Name>, applied: set<Name>) returns (plan: Plan)
    ensures plan.Refused? ==> IsFirstObstacle(files, keepSet, applied, plan.file)
    ensures !plan.Refused? ==> plan == Split(Without(files, keepSet), keepSet)
    ensures !plan.Refused? ==> forall f :: f in plan.squashed ==> f in applied
  {
    var squashTargets := [];
    for i := 0 to |files|
      invariant squashTargets == Without(files[..i], keepSet)
      invariant forall f :: f in files[..i] ==> f in keepSet || f in applied
    {
      assert files[..i + 1] == files[..i] + [files[i]];
      if files[i] !in keepSet {
        if files[i] !in applied { return Refused(files[i]); }
        squashTargets := squashTargets + [files[i]];
      }
    }
    assert files[..|files|] == files;
    plan := Split(squashTargets, keepSet);
  }

  /** Nothing outside the kept files depends on a file that is kept only for its open group. */
  ghost predicate OpenFilesProtected(g: Graph, keepSince: seq<string>, openFiles: set<Name>) {
    forall x, y :: DependsOn(g, x, y) && y in openFiles && !Chosen(g, keepSince, y) ==> Kept(g, keepSince, openFiles, x)
  }

  /**
   * The split of commandBaseline. Unless a group's backfill failed or a file stands in the way,
   * what is not kept is squashed, and then no squashed file depends, even through others, on a
   * kept one: always when no group is open, otherwise exactly when the open groups' files are protected.
   */
  method PlanBaseline(g: Graph, keepSince: seq<string>, openFiles: set<Name>, applied: set<Name>, failedGroups: nat)
      returns (plan: Plan, ghost keepSet: set<Name>)
    requires g.WellFormed()
    ensures forall f :: f in keepSet <==> Kept(g, keepSince, openFiles, f)
    ensures plan.GroupFailed? <==> failedGroups > 0
    ensures plan.Refused? ==> IsFirstObstacle(g.files, keepSet, applied, plan.file)
    ensures plan.Split? ==> plan.kept == keepSet && plan.squashed == Without(g.files, keepSet)
    ensures plan.Split? ==> forall f :: f in plan.squashed ==> f in applied
    ensures plan.Split? ==>
      (SquashesNoDependency(g, plan.squashed, plan.kept) <==> OpenFilesProtected(g, keepSince, openFiles))
    ensures plan.Split? && openFiles == {} ==> SquashesNoDependency(g, plan.squashed, plan.kept)
  {
    var chosen := ChooseKeepSet(g, keepSince);
    var kept := AddOpenFiles(g.files, chosen, openFiles);
    keepSet := kept;
    if failedGroups > 0 { return GroupFailed, kept; }
    plan := SelectTargets(g.files, kept, applied);
    SafeExactlyWhenClosed(g, Without(g.files, kept), kept);
    OpenGroupsSafeExactlyWhen(g, keepSince, chosen, openFiles, kept);
  }

  /** Squashing what is not kept is safe exactly when no file outside the kept ones depends on one. */
  lemma SafeExactlyWhenClosed(g: Graph, squashed: seq<Name>, kept: set<Name>)
    requires g.WellFormed() && forall f :: f in squashed <==> f in g.files && f !in kept
    ensures SquashesNoDependency(g, squashed, kept) <==> NothingOutsideDependsOn(g, kept)
  {
    if NothingOutsideDependsOn(g, kept) { ClosedSplitIsSafe(g, squashed, kept); }
    forall x, y | DependsOn(g, x, y) && y in kept && x !in kept ensures x in squashed {
      assert Edge(x, y).from in g.files;
    }
  }

  lemma OpenGroupsSafeExactlyWhen(g: Graph, keepSince: seq<string>, chosen: set<Name>, openFiles: set<Name>,
                                  kept: set<Name>)
    requires g.WellFormed()
    requires forall f :: f in chosen <==> Chosen(g, keepSince, f)
    requires forall f :: f in kept <==> f in chosen || (f in g.files && f in openFiles)
    requires NothingOutsideDependsOn(g, chosen)
    ensures NothingOutsideDependsOn(g, kept) <==> OpenFilesProtected(g, keepSince, openFiles)
  {
    forall f ensures f in kept <==> Kept(g, keepSince, openFiles, f) { }
    forall x, y | DependsOn(g, x, y) ensures y in g.files { assert Edge(x, y).to in g.files; }
  }

  /** A leaf and the file of an open group are kept, and the file between them is squashed. */
  lemma OpenGroupCanBreakTheSplit()
    ensures var edges := [Edge("b.sql", "a/1_expand.sql"), Edge("c.sql", "b.sql")];
      var g := Graph(["a/1_expand.sql", "b.sql", "c.sql"], edges);
      var open := {"a/1_expand.sql"};
      && g.WellFormed() && Reaches(g, "c.sql", "b.sql") && Reaches(g, "b.sql", "a/1_expand.sql")
      && Kept(g, [], open, "c.sql") && !Kept(g, [], open, "b.sql") && Kept(g, [], open, "a/1_expand.sql")
      && !OpenFilesProtected(g, [], open)
  {
    var a, b, c := "a/1_expand.sql", "b.sql", "c.sql";
    assert a[0] != c[0] && b[0] != c[0] && b[0] != a[0];
    BetweenIsUnprotected(a, b, c);
  }

  lemma BetweenIsUnprotected(a: Name, b: Name, c: Name)
    requires a != b && b != c && c != a
    ensures var g := Graph([a, b, c], [Edge(b, a), Edge(c, b)]);
      && g.WellFormed() && Reaches(g, c, b) && Reaches(g, b, a)
      && Kept(g, [], {a}, c) && !Kept(g, [], {a}, b) && Kept(g, [], {a}, a)
      && !OpenFilesProtected(g, [], {a})
  {
    var g := Graph([a, b, c], [Edge(b, a), Edge(c, b)]);
    assert g.edges[0] == Edge(b, a) && g.edges[1] == Edge(c, b);
    assert g.files[0] == a && g.files[1] == b && g.files[2] == c;
    assert forall e :: e in g.edges ==> e == g.edges[0] || e == g.edges[1];
    assert DependsOn(g, b, a) && DependsOn(g, c, b);
    assert !IsLeaf(g, a) && !IsLeaf(g, b) && IsLeaf(g, c);
    EdgeReaches(g, b, a);
    EdgeReaches(g, c, b);
  }
}
