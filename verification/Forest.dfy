/** The dependency forest that the deps command draws (src/commands/deps.ts:48-94). */
module Forest {
  import opened Names
  import opened Graphs
  import opened Depths

  datatype Tree = Node(file: Name, children: seq<Tree>)

  /** The files of a tree with their levels, each before its children. */
  function Places(t: Tree, level: nat): seq<(Name, nat)>
    decreases t, 1
  {
    [(t.file, level)] + PlacesAll(t.children, level + 1)
  }

  function PlacesAll(ts: seq<Tree>, level: nat): seq<(Name, nat)>
    decreases ts, 0
  {
    if ts == [] then [] else PlacesAll(ts[..|ts| - 1], level) + Places(ts[|ts| - 1], level)
  }

  // ---- Chains of primary parents ----

  ghost predicate IsParent(parentOf: map<Name, Name>, parent: Name, child: Name) {
    child in parentOf && parentOf[child] == parent
  }

  /** From a file without a parent down, each file followed by one of which it is the parent. */
  ghost predicate IsRootChain(parentOf: map<Name, Name>, r: seq<Name>) {
    && |r| >= 1 && r[0] !in parentOf
    && forall i, j :: 0 <= i < j < |r| && j == i + 1 ==> IsParent(parentOf, r[i], r[j])
  }

  lemma {:induction false} RootChainIsUnique(parentOf: map<Name, Name>, r: seq<Name>, s: seq<Name>)
    requires IsRootChain(parentOf, r) && IsRootChain(parentOf, s)
    requires r[|r| - 1] == s[|s| - 1]
    ensures r == s
  {
    assert |r| >= 2 ==> IsParent(parentOf, r[|r| - 2], r[|r| - 1]);
    assert |s| >= 2 ==> IsParent(parentOf, s[|s| - 2], s[|s| - 1]);
    if |r| >= 2 && |s| >= 2 {
      RootChainIsUnique(parentOf, r[..|r| - 1], s[..|s| - 1]);
      assert r == r[..|r| - 1] + [r[|r| - 1]] && s == s[..|s| - 1] + [s[|s| - 1]];
    }
  }

  lemma RootChainIsDistinct(parentOf: map<Name, Name>, r: seq<Name>)
    requires IsRootChain(parentOf, r)
    ensures Distinct(r)
  {
    forall i, j | 0 <= i < j < |r| ensures r[i] != r[j] {
      if r[i] == r[j] { RootChainIsUnique(parentOf, r[..i + 1], r[..j + 1]); }
    }
  }

  lemma RootChainExtends(parentOf: map<Name, Name>, r: seq<Name>, child: Name)
    requires IsRootChain(parentOf, r) && child in parentOf && parentOf[child] == r[|r| - 1]
    ensures IsRootChain(parentOf, r + [child])
  {
  }

  ghost predicate IsForest(files: set<Name>, parentOf: map<Name, Name>, childrenOf: map<Name, seq<Name>>) {
    && parentOf.Keys <= files
    && childrenOf.Keys == files
    && (forall f, c :: f in childrenOf ==> (c in childrenOf[f] <==> IsParent(parentOf, f, c)))
    && (forall f :: f in childrenOf ==> Distinct(childrenOf[f]))
  }

  lemma ChainFits(files: set<Name>, parentOf: map<Name, Name>, r: seq<Name>)
    requires IsRootChain(parentOf, r) && Members(r) <= files
    ensures |r| <= |files|
  {
    RootChainIsDistinct(parentOf, r);
    DistinctFits(r, files);
  }

  lemma ChildChain(files: set<Name>, parentOf: map<Name, Name>, childrenOf: map<Name, seq<Name>>, path: seq<Name>,
                   c: Name)
    requires IsForest(files, parentOf, childrenOf) && IsRootChain(parentOf, path) && Members(path) <= files
    requires path[|path| - 1] in childrenOf && c in childrenOf[path[|path| - 1]]
    ensures IsRootChain(parentOf, path + [c]) && Members(path + [c]) <= files
    ensures |path| < |files|
  {
    RootChainExtends(parentOf, path, c);
    MembersAppend(path, c);
    ChainFits(files, parentOf, path + [c]);
  }

  ghost predicate AreChildren(childrenOf: map<Name, seq<Name>>, parent: Name, kids: seq<Name>) {
    parent in childrenOf && forall c :: c in kids ==> c in childrenOf[parent]
  }

  lemma LastChild(childrenOf: map<Name, seq<Name>>, parent: Name, kids: seq<Name>)
    requires AreChildren(childrenOf, parent, kids) && kids != []
    ensures kids[|kids| - 1] in childrenOf[parent]
    ensures AreChildren(childrenOf, parent, kids[..|kids| - 1])
  {
    assert kids[|kids| - 1] in kids;
  }

  /** The inner function build. The path from the root bounds the recursion, on cyclic graphs too. */
  function Build(childrenOf: map<Name, seq<Name>>, file: Name, ghost files: set<Name>,
                 ghost parentOf: map<Name, Name>, ghost path: seq<Name>): (t: Tree)
    requires IsForest(files, parentOf, childrenOf)
    requires IsRootChain(parentOf, path) && Members(path) <= files && path[|path| - 1] == file
    ensures t.file == file
    decreases |files| - |path|, 1
  {
    assert file in Members(path);
    ChainFits(files, parentOf, path);
    Node(file, BuildAll(childrenOf, childrenOf[file], files, parentOf, path))
  }

  function BuildAll(childrenOf: map<Name, seq<Name>>, kids: seq<Name>, ghost files: set<Name>,
                    ghost parentOf: map<Name, Name>, ghost path: seq<Name>): (ts: seq<Tree>)
    requires IsForest(files, parentOf, childrenOf)
    requires IsRootChain(parentOf, path) && Members(path) <= files
    requires AreChildren(childrenOf, path[|path| - 1], kids)
    ensures |ts| == |kids| && forall k :: 0 <= k < |ts| ==> ts[k].file == kids[k]
    decreases |files| - |path|, 0, |kids|
  {
    if kids == [] then []
    else
      var c := kids[|kids| - 1];
      LastChild(childrenOf, path[|path| - 1], kids);
      ChildChain(files, parentOf, childrenOf, path, c);
      ChainFits(files, parentOf, path + [c]);
      BuildAll(childrenOf, kids[..|kids| - 1], files, parentOf, path)
        + [Build(childrenOf, c, files, parentOf, path + [c])]
  }

  // ---- What a built tree holds ----

  /** f is placed at the end of a root chain that continues the path through one of the given files. */
  ghost predicate Through(parentOf: map<Name, Name>, path: seq<Name>, kids: seq<Name>, f: Name, r: seq<Name>) {
    && IsRootChain(parentOf, r) && r[|r| - 1] == f
    && |path| < |r| && path == r[..|path|] && r[|path|] in kids
  }

  ghost predicate Below(parentOf: map<Name, Name>, path: seq<Name>, f: Name, r: seq<Name>) {
    && IsRootChain(parentOf, r) && r[|r| - 1] == f
    && |path| <= |r| && path == r[..|path|]
  }

  ghost predicate PlacedBelow(parentOf: map<Name, Name>, path: seq<Name>, x: (Name, nat)) {
    exists r :: Below(parentOf, path, x.0, r) && x.1 == |r| - 1
  }

  ghost predicate PlacedThrough(parentOf: map<Name, Name>, path: seq<Name>, kids: seq<Name>, x: (Name, nat)) {
    exists r :: Through(parentOf, path, kids, x.0, r) && x.1 == |r| - 1
  }

  /** places lists, once each and with their levels, exactly the files below the path. */
  ghost predicate HoldsBelow(parentOf: map<Name, Name>, path: seq<Name>, places: seq<(Name, nat)>) {
    && (forall x :: x in places <==> PlacedBelow(parentOf, path, x))
    && Distinct(places)
  }

  ghost predicate HoldsThrough(parentOf: map<Name, Name>, path: seq<Name>, kids: seq<Name>, places: seq<(Name, nat)>) {
    && (forall x :: x in places <==> PlacedThrough(parentOf, path, kids, x))
    && Distinct(places)
  }

  lemma DistinctAppend<T>(s: seq<T>, t: seq<T>)
    requires Distinct(s) && Distinct(t) && forall x :: x in s ==> x !in t
    ensures Distinct(s + t)
  {
    var u := s + t;
    forall i, j | 0 <= i < j < |u| ensures u[i] != u[j] {
      if i < |s| <= j { assert u[i] in s && u[j] in t; }
    }
  }

  /** Through one more child: the files below it are added. */
  lemma ThroughOneMore(parentOf: map<Name, Name>, path: seq<Name>, kids: seq<Name>, c: Name, x: (Name, nat))
    ensures PlacedThrough(parentOf, path, kids + [c], x) <==>
      PlacedThrough(parentOf, path, kids, x) || PlacedBelow(parentOf, path + [c], x)
  {
    if PlacedThrough(parentOf, path, kids, x) {
      var r :| Through(parentOf, path, kids, x.0, r) && x.1 == |r| - 1;
      assert Through(parentOf, path, kids + [c], x.0, r);
    }
    if PlacedBelow(parentOf, path + [c], x) {
      var r :| Below(parentOf, path + [c], x.0, r) && x.1 == |r| - 1;
      BelowIsThrough(parentOf, path, c, kids + [c], x.0, r);
    }
    if PlacedThrough(parentOf, path, kids + [c], x) {
      var r :| Through(parentOf, path, kids + [c], x.0, r) && x.1 == |r| - 1;
      if r[|path|] in kids {
        assert Through(parentOf, path, kids, x.0, r);
      } else {
        assert r[..|path| + 1] == path + [c];
        assert Below(parentOf, path + [c], x.0, r);
      }
    }
  }

  lemma BelowIsThrough(parentOf: map<Name, Name>, path: seq<Name>, c: Name, kids: seq<Name>, f: Name, r: seq<Name>)
    requires Below(parentOf, path + [c], f, r) && c in kids
    ensures Through(parentOf, path, kids, f, r)
  {
    assert r[|path|] == r[..|path| + 1][|path|] == (path + [c])[|path|];
    assert r[..|path|] == r[..|path| + 1][..|path|] == (path + [c])[..|path|];
  }

  /** A file is below at most one child. */
  lemma ThroughOneOnly(parentOf: map<Name, Name>, path: seq<Name>, kids: seq<Name>, c: Name, x: (Name, nat))
    requires c !in kids && PlacedThrough(parentOf, path, kids, x)
    ensures !PlacedBelow(parentOf, path + [c], x)
  {
    var r :| Through(parentOf, path, kids, x.0, r) && x.1 == |r| - 1;
    forall s ensures !Below(parentOf, path + [c], x.0, s) {
      if Below(parentOf, path + [c], x.0, s) {
        BelowIsThrough(parentOf, path, c, [c], x.0, s);
        RootChainIsUnique(parentOf, r, s);
      }
    }
  }

  lemma AddChild(parentOf: map<Name, Name>, path: seq<Name>, kids: seq<Name>, places: seq<(Name, nat)>,
                 c: Name, below: seq<(Name, nat)>)
    requires c !in kids
    requires HoldsThrough(parentOf, path, kids, places) && HoldsBelow(parentOf, path + [c], below)
    ensures HoldsThrough(parentOf, path, kids + [c], places + below)
  {
    forall x ensures x in places + below <==> PlacedThrough(parentOf, path, kids + [c], x) {
      ThroughOneMore(parentOf, path, kids, c, x);
    }
    forall x | x in places ensures x !in below {
      ThroughOneOnly(parentOf, path, kids, c, x);
    }
    DistinctAppend(places, below);
  }

  lemma BelowSelfOrThrough(parentOf: map<Name, Name>, path: seq<Name>, file: Name, kids: seq<Name>, x: (Name, nat))
    requires IsRootChain(parentOf, path) && path[|path| - 1] == file
    requires forall c :: c in kids <==> IsParent(parentOf, file, c)
    ensures PlacedBelow(parentOf, path, x) <==>
      x == (file, |path| - 1) || PlacedThrough(parentOf, path, kids, x)
    ensures PlacedThrough(parentOf, path, kids, x) ==> x.1 > |path| - 1
  {
    if x == (file, |path| - 1) {
      assert path[..|path|] == path && Below(parentOf, path, file, path);
    }
    if PlacedThrough(parentOf, path, kids, x) {
      var r :| Through(parentOf, path, kids, x.0, r) && x.1 == |r| - 1;
      assert Below(parentOf, path, x.0, r);
    }
    if PlacedBelow(parentOf, path, x) {
      var r :| Below(parentOf, path, x.0, r) && x.1 == |r| - 1;
      if |r| > |path| {
        assert r[|path| - 1] == r[..|path|][|path| - 1];
        assert IsParent(parentOf, r[|path| - 1], r[|path|]);
        assert Through(parentOf, path, kids, x.0, r);
      } else {
        assert r[..|path|] == r;
      }
    }
  }

  lemma AddRoot(parentOf: map<Name, Name>, path: seq<Name>, file: Name, kids: seq<Name>, places: seq<(Name, nat)>)
    requires IsRootChain(parentOf, path) && path[|path| - 1] == file
    requires forall c :: c in kids <==> IsParent(parentOf, file, c)
    requires HoldsThrough(parentOf, path, kids, places)
    ensures HoldsBelow(parentOf, path, [(file, |path| - 1)] + places)
  {
    var root := (file, |path| - 1);
    forall x ensures x in [root] + places <==> PlacedBelow(parentOf, path, x) {
      BelowSelfOrThrough(parentOf, path, file, kids, x);
    }
    BelowSelfOrThrough(parentOf, path, file, kids, root);
    DistinctAppend([root], places);
  }

  lemma {:induction false} BuildHolds(childrenOf: map<Name, seq<Name>>, file: Name, files: set<Name>,
                                      parentOf: map<Name, Name>, path: seq<Name>)
    requires IsForest(files, parentOf, childrenOf)
    requires IsRootChain(parentOf, path) && Members(path) <= files && path[|path| - 1] == file
    ensures HoldsBelow(parentOf, path, Places(Build(childrenOf, file, files, parentOf, path), |path| - 1))
    decreases |files| - |path|, 1
  {
    assert file in Members(path);
    ChainFits(files, parentOf, path);
    var kids := childrenOf[file];
    BuildAllHolds(childrenOf, kids, files, parentOf, path);
    AddRoot(parentOf, path, file, kids, PlacesAll(BuildAll(childrenOf, kids, files, parentOf, path), |path|));
  }

  lemma {:induction false} BuildAllHolds(childrenOf: map<Name, seq<Name>>, kids: seq<Name>, files: set<Name>,
                                         parentOf: map<Name, Name>, path: seq<Name>)
    requires IsForest(files, parentOf, childrenOf) && Distinct(kids)
    requires IsRootChain(parentOf, path) && Members(path) <= files
    requires AreChildren(childrenOf, path[|path| - 1], kids)
    ensures HoldsThrough(parentOf, path, kids, PlacesAll(BuildAll(childrenOf, kids, files, parentOf, path), |path|))
    decreases |files| - |path|, 0, |kids|
  {
    if kids != [] {
      var init, c := kids[..|kids| - 1], kids[|kids| - 1];
      LastChild(childrenOf, path[|path| - 1], kids);
      ChildChain(files, parentOf, childrenOf, path, c);
      ChainFits(files, parentOf, path + [c]);
      BuildAllHolds(childrenOf, init, files, parentOf, path);
      BuildHolds(childrenOf, c, files, parentOf, path + [c]);
      var ts, t := BuildAll(childrenOf, init, files, parentOf, path), Build(childrenOf, c, files, parentOf, path + [c]);
      assert (ts + [t])[..|ts|] == ts;
      AddChild(parentOf, path, init, PlacesAll(ts, |path|), c, Places(t, |path|));
      assert kids == init + [c];
    }
  }

  // ---- Primary parents ----

  function DepthOf(depth: map<Name, nat>, f: Name): nat {
    if f in depth then depth[f] else 0
  }

  predicate Deeper(depth: map<Name, nat>, p: Name, q: Name) {
    DepthOf(depth, p) > DepthOf(depth, q) || (DepthOf(depth, p) == DepthOf(depth, q) && AtMost(p, q))
  }

  /** The deepest dependency; among equally deep ones, the first by name. */
  ghost predicate IsPrimary(g: Graph, depth: map<Name, nat>, f: Name, p: Name) {
    DependsOn(g, f, p) && forall q :: DependsOn(g, f, q) ==> Deeper(depth, p, q)
  }

  method PrimaryParent(depth: map<Name, nat>, parents: seq<Name>) returns (best: Name)
    requires parents != []
    ensures best in parents && forall q :: q in parents ==> Deeper(depth, best, q)
  {
    best := parents[0];
    var bestDepth := DepthOf(depth, best);
    for i := 1 to |parents|
      invariant best in parents && bestDepth == DepthOf(depth, best)
      invariant forall j :: 0 <= j < i ==> Deeper(depth, best, parents[j])
    {
      var d := DepthOf(depth, parents[i]);
      LessIsTotal(best, parents[i]);
      if d > bestDepth || (d == bestDepth && Less(parents[i], best)) {
        forall j | 0 <= j < i ensures Deeper(depth, parents[i], parents[j]) {
          if DepthOf(depth, parents[j]) == d && best != parents[j] {
            LessIsTransitive(parents[i], best, parents[j]);
          }
        }
        best, bestDepth := parents[i], d;
      }
    }
  }

  method PrimaryParents(g: Graph, depth: map<Name, nat>) returns (parentOf: map<Name, Name>)
    requires g.WellFormed()
    ensures forall f :: f in parentOf <==> f in g.files && exists x :: DependsOn(g, f, x)
    ensures forall f :: f in parentOf ==> IsPrimary(g, depth, f, parentOf[f])
  {
    var depsByFile := GroupByFile(g);
    parentOf := map[];
    for i := 0 to |g.files|
      invariant forall f :: f in parentOf <==> f in g.files[..i] && exists x :: DependsOn(g, f, x)
      invariant forall f :: f in parentOf ==> IsPrimary(g, depth, f, parentOf[f])
    {
      var file := g.files[i];
      assert g.files[..i + 1] == g.files[..i] + [file];
      if file in depsByFile {
        assert depsByFile[file][0] in depsByFile[file];
        assert DependsOn(g, file, depsByFile[file][0]);
        var best := PrimaryParent(depth, depsByFile[file]);
        parentOf := parentOf[file := best];
      }
    }
    assert g.files[..|g.files|] == g.files;
  }

  method NoChildren(files: seq<Name>) returns (childrenOf: map<Name, seq<Name>>)
    ensures childrenOf.Keys == Members(files) && forall f :: f in childrenOf ==> childrenOf[f] == []
  {
    childrenOf := map[];
    for i := 0 to |files|
      invariant childrenOf.Keys == Members(files[..i])
      invariant forall f :: f in childrenOf ==> childrenOf[f] == []
    {
      assert files[..i + 1] == files[..i] + [files[i]];
      childrenOf := childrenOf[files[i] := []];
    }
    assert files[..|files|] == files;
  }

  method CollectChildren(files: seq<Name>, parentOf: map<Name, Name>) returns (childrenOf: map<Name, seq<Name>>)
    requires Distinct(files)
    requires forall c :: c in parentOf ==> c in files && parentOf[c] in files
    ensures IsForest(Members(files), parentOf, childrenOf)
  {
    childrenOf := NoChildren(files);
    for i := 0 to |files|
      invariant childrenOf.Keys == Members(files)
      invariant forall f, c :: f in childrenOf ==> (c in childrenOf[f] <==> c in files[..i] && IsParent(parentOf, f, c))
      invariant forall f :: f in childrenOf ==> Distinct(childrenOf[f])
    {
      var child := files[i];
      assert files[..i + 1] == files[..i] + [child];
      assert child !in files[..i];
      if child in parentOf {
        var parent := parentOf[child];
        childrenOf := childrenOf[parent := childrenOf[parent] + [child]];
      }
    }
    assert files[..|files|] == files;
  }

  method SortChildren(ghost files: set<Name>, parentOf: map<Name, Name>, unsorted: map<Name, seq<Name>>)
      returns (childrenOf: map<Name, seq<Name>>)
    requires IsForest(files, parentOf, unsorted)
    ensures IsForest(files, parentOf, childrenOf)
    ensures forall f :: f in childrenOf ==> Sorted(childrenOf[f])
  {
    childrenOf := map f | f in unsorted :: Sort(unsorted[f]);
    forall f | f in childrenOf
      ensures Distinct(childrenOf[f]) && forall c :: c in childrenOf[f] <==> c in unsorted[f]
    {
      SortKeepsList(unsorted[f]);
    }
  }

  // ---- The forest ----

  ghost predicate Ascending(ts: seq<Tree>) {
    forall i, j :: 0 <= i < j < |ts| ==> AtMost(ts[i].file, ts[j].file)
  }

  /** Every file hangs under its parent, siblings in name order. */
  ghost predicate Tidy(t: Tree, parentOf: map<Name, Name>) {
    Ascending(t.children) && forall c :: c in t.children ==> IsParent(parentOf, t.file, c.file) && Tidy(c, parentOf)
  }

  lemma {:induction false} BuildIsTidy(childrenOf: map<Name, seq<Name>>, file: Name, files: set<Name>,
                                       parentOf: map<Name, Name>, path: seq<Name>)
    requires IsForest(files, parentOf, childrenOf)
    requires IsRootChain(parentOf, path) && Members(path) <= files && path[|path| - 1] == file
    requires forall f :: f in childrenOf ==> Sorted(childrenOf[f])
    ensures Tidy(Build(childrenOf, file, files, parentOf, path), parentOf)
    decreases |files| - |path|, 1
  {
    assert file in Members(path);
    ChainFits(files, parentOf, path);
    BuildAllIsTidy(childrenOf, childrenOf[file], files, parentOf, path);
  }

  lemma {:induction false} BuildAllIsTidy(childrenOf: map<Name, seq<Name>>, kids: seq<Name>, files: set<Name>,
                                          parentOf: map<Name, Name>, path: seq<Name>)
    requires IsForest(files, parentOf, childrenOf)
    requires IsRootChain(parentOf, path) && Members(path) <= files
    requires AreChildren(childrenOf, path[|path| - 1], kids)
    requires forall f :: f in childrenOf ==> Sorted(childrenOf[f])
    ensures forall t :: t in BuildAll(childrenOf, kids, files, parentOf, path) ==>
      IsParent(parentOf, path[|path| - 1], t.file) && Tidy(t, parentOf)
    decreases |files| - |path|, 0, |kids|
  {
    if kids != [] {
      var init, c := kids[..|kids| - 1], kids[|kids| - 1];
      LastChild(childrenOf, path[|path| - 1], kids);
      ChildChain(files, parentOf, childrenOf, path, c);
      ChainFits(files, parentOf, path + [c]);
      BuildAllIsTidy(childrenOf, init, files, parentOf, path);
      BuildIsTidy(childrenOf, c, files, parentOf, path + [c]);
    }
  }

  method Roots(files: seq<Name>, parentOf: map<Name, Name>) returns (roots: seq<Name>)
    requires Distinct(files)
    ensures Distinct(roots) && Sorted(roots)
    ensures forall f :: f in roots <==> f in files && f !in parentOf
  {
    roots := [];
    for i := 0 to |files|
      invariant Distinct(roots)
      invariant forall f :: f in roots <==> f in files[..i] && f !in parentOf
    {
      assert files[..i + 1] == files[..i] + [files[i]];
      assert files[i] !in files[..i];
      if files[i] !in parentOf { roots := roots + [files[i]]; }
    }
    assert files[..|files|] == files;
    SortKeepsList(roots);
    roots := Sort(roots);
  }

  /** The placed files are the files with a root chain, at the chain's length. */
  ghost predicate HoldsForest(parentOf: map<Name, Name>, roots: seq<Name>, places: seq<(Name, nat)>) {
    HoldsThrough(parentOf, [], roots, places)
  }

  lemma AddTree(files: set<Name>, parentOf: map<Name, Name>, childrenOf: map<Name, seq<Name>>,
                seen: seq<Name>, root: Name, forest: seq<Tree>)
    requires IsForest(files, parentOf, childrenOf) && Members([root]) <= files && IsRootChain(parentOf, [root])
    requires forall f :: f in childrenOf ==> Sorted(childrenOf[f])
    requires root !in seen && HoldsForest(parentOf, seen, PlacesAll(forest, 0))
    ensures var t := Build(childrenOf, root, files, parentOf, [root]);
      HoldsForest(parentOf, seen + [root], PlacesAll(forest + [t], 0)) && Tidy(t, parentOf)
  {
    var t := Build(childrenOf, root, files, parentOf, [root]);
    BuildHolds(childrenOf, root, files, parentOf, [root]);
    BuildIsTidy(childrenOf, root, files, parentOf, [root]);
    assert [] + [root] == [root];
    AddChild(parentOf, [], seen, PlacesAll(forest, 0), root, Places(t, 0));
    assert (forest + [t])[..|forest|] == forest;
  }

  method BuildForest(ghost files: set<Name>, parentOf: map<Name, Name>, childrenOf: map<Name, seq<Name>>,
                     roots: seq<Name>)
      returns (forest: seq<Tree>)
    requires IsForest(files, parentOf, childrenOf) && Distinct(roots)
    requires forall f :: f in childrenOf ==> Sorted(childrenOf[f])
    requires forall f :: f in roots ==> f in files && f !in parentOf
    ensures HoldsForest(parentOf, roots, PlacesAll(forest, 0))
    ensures |forest| == |roots| && forall k :: 0 <= k < |roots| ==> forest[k].file == roots[k]
    ensures forall t :: t in forest ==> Tidy(t, parentOf)
  {
    forest := [];
    for k := 0 to |roots|
      invariant HoldsForest(parentOf, roots[..k], PlacesAll(forest, 0))
      invariant |forest| == k && forall j :: 0 <= j < k ==> forest[j].file == roots[j]
      invariant forall t :: t in forest ==> Tidy(t, parentOf)
    {
      var root := roots[k];
      assert root in roots;
      assert Members([root]) <= files;
      var t := Build(childrenOf, root, files, parentOf, [root]);
      AddTree(files, parentOf, childrenOf, roots[..k], root, forest);
      assert roots[..k + 1] == roots[..k] + [root];
      forest := forest + [t];
    }
    assert roots[..|roots|] == roots;
  }

  lemma PrimaryDepth(g: Graph, depth: map<Name, nat>, f: Name, p: Name)
    requires g.WellFormed() && depth.Keys == Members(g.files) && f in depth
    requires forall x :: x in depth ==> IsLongestChain(g, x, depth[x])
    requires IsPrimary(g, depth, f, p)
    ensures p in depth && depth[f] == depth[p] + 1
  {
    assert Edge(f, p).to in g.files;
    forall x | DependsOn(g, f, x) ensures Bounded(g, x, depth[p]) {
      assert Edge(f, x).to in g.files;
      assert x in depth && IsLongestChain(g, x, depth[x]) && Deeper(depth, p, x);
    }
    OneMore(g, f, depth[p], p);
    LongestChainIsUnique(g, f, depth[f], depth[p] + 1);
  }

  /** Without cycles, following primary parents from a file reaches a root in depth many steps. */
  lemma {:induction false} EveryFileHasRootChain(g: Graph, depth: map<Name, nat>, parentOf: map<Name, Name>, f: Name)
      returns (r: seq<Name>)
    requires g.WellFormed() && depth.Keys == Members(g.files) && f in g.files
    requires forall x :: x in depth ==> IsLongestChain(g, x, depth[x])
    requires forall x :: x in parentOf <==> x in g.files && exists y :: DependsOn(g, x, y)
    requires forall x :: x in parentOf ==> IsPrimary(g, depth, x, parentOf[x])
    ensures f in depth && IsRootChain(parentOf, r) && r[|r| - 1] == f && |r| == depth[f] + 1
    ensures r[0] in g.files
    decreases if f in depth then depth[f] else 0
  {
    assert f in Members(g.files);
    if f in parentOf {
      PrimaryDepth(g, depth, f, parentOf[f]);
      assert parentOf[f] in Members(g.files);
      var s := EveryFileHasRootChain(g, depth, parentOf, parentOf[f]);
      r := s + [f];
      RootChainExtends(parentOf, s, f);
    } else {
      r := [f];
      NoDependencies(g, f);
      LongestChainIsUnique(g, f, depth[f], 0);
    }
  }

  lemma OncePerFile(parentOf: map<Name, Name>, roots: seq<Name>, places: seq<(Name, nat)>)
    requires HoldsForest(parentOf, roots, places)
    ensures forall i, j :: 0 <= i < j < |places| ==> places[i].0 != places[j].0
  {
    forall i, j | 0 <= i < j < |places| ensures places[i].0 != places[j].0 {
      assert places[i] in places && places[j] in places;
      var r :| Through(parentOf, [], roots, places[i].0, r) && places[i].1 == |r| - 1;
      var s :| Through(parentOf, [], roots, places[j].0, s) && places[j].1 == |s| - 1;
      if places[i].0 == places[j].0 { RootChainIsUnique(parentOf, r, s); }
    }
  }

  lemma LevelIsDepth(g: Graph, depth: map<Name, nat>, parentOf: map<Name, Name>, roots: seq<Name>, f: Name)
    requires g.WellFormed() && depth.Keys == Members(g.files) && f in g.files
    requires forall x :: x in depth ==> IsLongestChain(g, x, depth[x])
    requires forall x :: x in parentOf <==> x in g.files && exists y :: DependsOn(g, x, y)
    requires forall x :: x in parentOf ==> IsPrimary(g, depth, x, parentOf[x])
    requires forall x :: x in roots <==> x in g.files && x !in parentOf
    ensures f in depth && PlacedThrough(parentOf, [], roots, (f, depth[f]))
    ensures forall l: nat :: PlacedThrough(parentOf, [], roots, (f, l)) ==> l == depth[f]
  {
    var r := EveryFileHasRootChain(g, depth, parentOf, f);
    assert r[..0] == [] && Through(parentOf, [], roots, f, r);
    forall l: nat | PlacedThrough(parentOf, [], roots, (f, l)) ensures l == depth[f] {
      var s :| Through(parentOf, [], roots, f, s) && l == |s| - 1;
      RootChainIsUnique(parentOf, r, s);
    }
  }

  lemma LevelsAreDepths(g: Graph, depth: map<Name, nat>, parentOf: map<Name, Name>, roots: seq<Name>,
                        places: seq<(Name, nat)>)
    requires g.WellFormed() && depth.Keys == Members(g.files)
    requires forall x :: x in depth ==> IsLongestChain(g, x, depth[x])
    requires forall x :: x in parentOf <==> x in g.files && exists y :: DependsOn(g, x, y)
    requires forall x :: x in parentOf ==> IsPrimary(g, depth, x, parentOf[x])
    requires forall x :: x in roots <==> x in g.files && x !in parentOf
    requires HoldsForest(parentOf, roots, places)
    ensures forall f, l: nat :: (f, l) in places <==> f in g.files && IsLongestChain(g, f, l)
  {
    forall f, l: nat ensures (f, l) in places <==> f in g.files && IsLongestChain(g, f, l) {
      assert (f, l) in places <==> PlacedThrough(parentOf, [], roots, (f, l));
      if (f, l) in places { PlacedAreFiles(g, parentOf, roots, (f, l), places); }
      if f in g.files {
        LevelIsDepth(g, depth, parentOf, roots, f);
        if IsLongestChain(g, f, l) { LongestChainIsUnique(g, f, l, depth[f]); }
      }
    }
  }

  lemma PlacedAreFiles(g: Graph, parentOf: map<Name, Name>, roots: seq<Name>, x: (Name, nat), places: seq<(Name, nat)>)
    requires forall f :: f in parentOf ==> f in g.files
    requires forall f :: f in roots ==> f in g.files
    requires HoldsForest(parentOf, roots, places) && x in places
    ensures x.0 in g.files
  {
    var r :| Through(parentOf, [], roots, x.0, r) && x.1 == |r| - 1;
    if |r| >= 2 { assert IsParent(parentOf, r[|r| - 2], r[|r| - 1]); }
  }

  /**
   * On any graph the drawing ends and shows no file twice; without cycles it shows every file
   * exactly once, at a level equal to the length of its longest dependency chain. Every file
   * hangs under its deepest dependency; roots and siblings stand in name order.
   */
  method BuildTree(g: Graph) returns (forest: seq<Tree>, ghost depth: map<Name, nat>, ghost parentOf: map<Name, Name>)
    requires g.WellFormed() && Distinct(g.files)
    ensures var places := PlacesAll(forest, 0);
      && (forall i, j :: 0 <= i < j < |places| ==> places[i].0 != places[j].0)
      && (forall x :: x in places ==> x.0 in g.files)
      && (!HasCycle(g) ==> forall f, l: nat :: (f, l) in places <==> f in g.files && IsLongestChain(g, f, l))
    ensures Ascending(forest) && forall t :: t in forest ==> Tidy(t, parentOf)
    ensures depth.Keys == Members(g.files)
    ensures !HasCycle(g) ==> forall f :: f in depth ==> IsLongestChain(g, f, depth[f])
    ensures forall f :: f in parentOf <==> f in g.files && exists x :: DependsOn(g, f, x)
    ensures forall f :: f in parentOf ==> IsPrimary(g, depth, f, parentOf[f])
  {
    var depths := ComputeDepths(g);
    var primaryParent := PrimaryParents(g, depths);
    depth, parentOf := depths, primaryParent;
    forall c | c in parentOf ensures parentOf[c] in g.files {
      assert Edge(c, parentOf[c]).to in g.files;
    }
    var childrenOf := CollectChildren(g.files, primaryParent);
    childrenOf := SortChildren(Members(g.files), primaryParent, childrenOf);
    var roots := Roots(g.files, primaryParent);
    forest := BuildForest(Members(g.files), primaryParent, childrenOf, roots);
    var places := PlacesAll(forest, 0);
    OncePerFile(parentOf, roots, places);
    forall x | x in places ensures x.0 in g.files { PlacedAreFiles(g, parentOf, roots, x, places); }
    if !HasCycle(g) { LevelsAreDepths(g, depth, parentOf, roots, places); }
  }
}
