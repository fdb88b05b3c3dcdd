/**
 * Construction of the dependency edges (src/deps.ts:752-831) from what the files declare. The
 * objects a file creates and references, its explicit targets and the configured dependencies
 * are inputs: extracting them from SQL is not part of this model.
 */
module EdgeBuilder {
  import opened Names
  import opened Graphs
  import opened Options

  datatype ObjectType = Table | View | Sequence | Function | Index | Type | Role | Schema | Database
  datatype Namespace = Relations | Functions | Types | Roles | Schemas | Databases
  datatype ObjectRef = ObjectRef(kind: ObjectType, name: string)
  datatype ObjectKey = ObjectKey(space: Namespace, name: string)

  /** Tables, views, sequences and indexes share one namespace (src/deps.ts:35-49). */
  function KeyOf(r: ObjectRef): ObjectKey {
    ObjectKey(
      match r.kind
      case Table | View | Sequence | Index => Relations
      case Function => Functions
      case Type => Types
      case Role => Roles
      case Schema => Schemas
      case Database => Databases,
      r.name)
  }

  datatype FileDeps = FileDeps(creates: seq<ObjectRef>, references: seq<ObjectRef>, targets: seq<string>)

  predicate IsRelation(kind: ObjectType) {
    kind in {Table, View, Sequence, Index}
  }

  /** Equal names, and equal kinds or both kinds of relations: a query says "table" for a view. */
  ghost predicate SameObject(r: ObjectRef, s: ObjectRef) {
    r.name == s.name && (r.kind == s.kind || (IsRelation(r.kind) && IsRelation(s.kind)))
  }

  /** Keys identify exactly the references to one object. */
  lemma KeysIdentifyObjects(r: ObjectRef, s: ObjectRef)
    ensures KeyOf(r) == KeyOf(s) <==> SameObject(r, s)
  {
  }

  /** The file creates the object that the reference means. */
  ghost predicate Declares(d: FileDeps, r: ObjectRef) {
    exists s :: s in d.creates && SameObject(s, r)
  }

  /** g is the last of the files that create the object that the reference means. */
  ghost predicate LastDeclares(files: seq<Name>, deps: map<Name, FileDeps>, r: ObjectRef, g: Name) {
    exists i ::
      && 0 <= i < |files| && files[i] == g
      && g in deps && Declares(deps[g], r)
      && forall j :: i < j < |files| && files[j] in deps ==> !Declares(deps[files[j]], r)
  }

  /** A reference links to one file at most. */
  lemma LastDeclaresIsUnique(files: seq<Name>, deps: map<Name, FileDeps>, r: ObjectRef, g: Name, h: Name)
    requires LastDeclares(files, deps, r, g) && LastDeclares(files, deps, r, h)
    ensures g == h
  {
  }

  lemma CreatesMeans(d: FileDeps, r: ObjectRef)
    ensures Creates(d, KeyOf(r)) <==> Declares(d, r)
  {
    forall s ensures KeyOf(s) == KeyOf(r) <==> SameObject(s, r) { KeysIdentifyObjects(s, r); }
  }

  lemma LastCreatorMeans(files: seq<Name>, deps: map<Name, FileDeps>, r: ObjectRef, g: Name)
    ensures IsLastCreator(files, deps, KeyOf(r), g) <==> LastDeclares(files, deps, r, g)
  {
    forall f | f in deps ensures Creates(deps[f], KeyOf(r)) <==> Declares(deps[f], r) { CreatesMeans(deps[f], r); }
  }

  ghost predicate Creates(d: FileDeps, k: ObjectKey) {
    exists r :: r in d.creates && KeyOf(r) == k
  }

  /** g is the last of the files that create the object. */
  ghost predicate IsLastCreator(files: seq<Name>, deps: map<Name, FileDeps>, k: ObjectKey, g: Name) {
    exists i ::
      && 0 <= i < |files| && files[i] == g
      && g in deps && Creates(deps[g], k)
      && forall j :: i < j < |files| && files[j] in deps ==> !Creates(deps[files[j]], k)
  }

  /** startsWith and endsWith (src/deps.ts:799). */
  predicate LooksExpanded(f: Name, group: string) {
    group + "/" <= f && |f| >= |"_expand.sql"| && f[|f| - |"_expand.sql"|..] == "_expand.sql"
  }

  /** A file of the group whose name ends in _expand.sql. */
  ghost predicate IsExpandFileOf(f: Name, group: string) {
    exists x :: f == group + "/" + x + "_expand.sql"
  }

  /** The two ends cannot overlap, because the ending has no slash. */
  lemma LooksExpandedMeans(f: Name, group: string)
    ensures LooksExpanded(f, group) <==> IsExpandFileOf(f, group)
  {
    var start, ending := group + "/", "_expand.sql";
    if LooksExpanded(f, group) {
      NoOverlap(f, start, ending);
      var x := f[|start|..|f| - |ending|];
      assert f == start + x + ending;
    }
    forall x | f == start + x + ending ensures LooksExpanded(f, group) { StartsAndEnds(start, x, ending); }
  }

  lemma StartsAndEnds(start: string, x: string, ending: string)
    ensures var f := start + x + ending; start <= f && f[|f| - |ending|..] == ending
  {
    assert start + x + ending == start + (x + ending);
  }

  lemma NoOverlap(f: string, start: string, ending: string)
    requires start != "" && start[|start| - 1] == '/' && '/' !in ending
    requires start <= f && |ending| <= |f| && f[|f| - |ending|..] == ending
    ensures |start| + |ending| <= |f|
  {
    var n := |f| - |ending|;
    assert f[|start| - 1] == '/';
    forall k | n <= k < |f| ensures f[k] in ending { assert f[k] == ending[k - n]; }
  }

  /** An explicit target names a file, or else a group, which stands for its first expand file. */
  ghost predicate ResolvesTo(files: seq<Name>, target: string, g: Name) {
    if target in files then g == target
    else exists i ::
      && 0 <= i < |files| && files[i] == g && IsExpandFileOf(g, target)
      && forall j :: 0 <= j < i ==> !IsExpandFileOf(files[j], target)
  }

  ghost predicate ReferenceLink(files: seq<Name>, deps: map<Name, FileDeps>, d: FileDeps, g: Name) {
    exists r :: r in d.references && LastDeclares(files, deps, r, g)
  }

  ghost predicate TargetOf(files: seq<Name>, targets: seq<string>, g: Name) {
    exists t :: t in targets && ResolvesTo(files, t, g)
  }

  /** f depends on g: by an object it references, by an explicit target, or by configuration. */
  ghost predicate Links(files: seq<Name>, deps: map<Name, FileDeps>, config: map<Name, seq<Name>>, f: Name, g: Name) {
    && f in files && g in files && f != g && f in deps
    && (ReferenceLink(files, deps, deps[f], g)
        || TargetOf(files, deps[f].targets, g)
        || (f in config && g in config[f]))
  }

  method RegisterCreates(creators0: map<ObjectKey, Name>, file: Name, d: FileDeps)
      returns (creators: map<ObjectKey, Name>)
    ensures forall k :: k in creators <==> k in creators0 || Creates(d, k)
    ensures forall k :: k in creators ==> creators[k] == if Creates(d, k) then file else creators0[k]
  {
    creators := creators0;
    for i := 0 to |d.creates|
      invariant forall k :: k in creators <==> k in creators0 || exists r :: r in d.creates[..i] && KeyOf(r) == k
      invariant forall k :: k in creators ==>
        creators[k] == if exists r :: r in d.creates[..i] && KeyOf(r) == k then file else creators0[k]
    {
      assert d.creates[..i + 1] == d.creates[..i] + [d.creates[i]];
      creators := creators[KeyOf(d.creates[i]) := file];
    }
    assert d.creates[..|d.creates|] == d.creates;
  }

  lemma LastCreatorStep(files: seq<Name>, deps: map<Name, FileDeps>, file: Name, k: ObjectKey, g: Name)
    requires file in deps
    ensures IsLastCreator(files + [file], deps, k, g) <==>
      if Creates(deps[file], k) then g == file else IsLastCreator(files, deps, k, g)
  {
    var more := files + [file];
    if Creates(deps[file], k) && g == file {
      assert more[|files|] == g;
    }
    if !Creates(deps[file], k) && IsLastCreator(files, deps, k, g) {
      var i :| 0 <= i < |files| && files[i] == g && g in deps && Creates(deps[g], k)
        && forall j :: i < j < |files| && files[j] in deps ==> !Creates(deps[files[j]], k);
      assert more[i] == g;
    }
    if IsLastCreator(more, deps, k, g) {
      var i :| 0 <= i < |more| && more[i] == g && g in deps && Creates(deps[g], k)
        && forall j :: i < j < |more| && more[j] in deps ==> !Creates(deps[more[j]], k);
      assert more[|files|] == file;
      if i < |files| {
        assert forall j :: i < j < |files| ==> more[j] == files[j];
        assert files[i] == g;
      }
    }
  }

  /** The last writer of each key wins (src/deps.ts:764-769). */
  method CollectCreators(files: seq<Name>, deps: map<Name, FileDeps>) returns (creators: map<ObjectKey, Name>)
    requires forall f :: f in files ==> f in deps
    ensures forall k, g :: (k in creators && creators[k] == g) <==> IsLastCreator(files, deps, k, g)
  {
    creators := map[];
    for i := 0 to |files|
      invariant forall k, g :: (k in creators && creators[k] == g) <==> IsLastCreator(files[..i], deps, k, g)
    {
      var file := files[i];
      assert files[..i + 1] == files[..i] + [file];
      forall k, g { LastCreatorStep(files[..i], deps, file, k, g); }
      creators := RegisterCreates(creators, file, deps[file]);
    }
    assert files[..|files|] == files;
  }

  /** The edge list and the set of its edges. */
  ghost predicate Listed(edges: seq<Edge>, edgeSet: set<Edge>) {
    Distinct(edges) && forall e :: e in edges <==> e in edgeSet
  }

  method AddEdge(edges0: seq<Edge>, edgeSet0: set<Edge>, e: Edge) returns (edges: seq<Edge>, edgeSet: set<Edge>)
    requires Listed(edges0, edgeSet0)
    ensures Listed(edges, edgeSet) && edgeSet == edgeSet0 + {e}
  {
    edges, edgeSet := edges0, edgeSet0;
    if e !in edgeSet {
      edges, edgeSet := edges + [e], edgeSet + {e};
    }
  }

  ghost predicate CreatedBy(references: seq<ObjectRef>, creators: map<ObjectKey, Name>, g: Name) {
    exists r :: r in references && KeyOf(r) in creators && creators[KeyOf(r)] == g
  }

  method AddReferences(file: Name, references: seq<ObjectRef>, creators: map<ObjectKey, Name>,
                       edges0: seq<Edge>, edgeSet0: set<Edge>) returns (edges: seq<Edge>, edgeSet: set<Edge>)
    requires Listed(edges0, edgeSet0) && forall k :: k in creators ==> creators[k] != ""
    ensures Listed(edges, edgeSet)
    ensures forall e :: e in edgeSet <==>
      e in edgeSet0 || (e.from == file && e.to != file && CreatedBy(references, creators, e.to))
  {
    edges, edgeSet := edges0, edgeSet0;
    for i := 0 to |references|
      invariant Listed(edges, edgeSet)
      invariant forall e :: e in edgeSet <==>
        e in edgeSet0 || (e.from == file && e.to != file && CreatedBy(references[..i], creators, e.to))
    {
      var ref := references[i];
      assert references[..i + 1] == references[..i] + [ref];
      var key := KeyOf(ref);
      if key in creators && creators[key] != "" && creators[key] != file {
        edges, edgeSet := AddEdge(edges, edgeSet, Edge(file, creators[key]));
      }
    }
    assert references[..|references|] == references;
  }

  method FindExpandFile(files: seq<Name>, group: string) returns (r: Option<Name>)
    ensures r.None? ==> forall j :: 0 <= j < |files| ==> !IsExpandFileOf(files[j], group)
    ensures r.Some? ==> group !in files ==> ResolvesTo(files, group, r.value)
    ensures r.Some? ==> r.value in files
  {
    for i := 0 to |files|
      invariant forall j :: 0 <= j < i ==> !IsExpandFileOf(files[j], group)
    {
      LooksExpandedMeans(files[i], group);
      if LooksExpanded(files[i], group) { return Some(files[i]); }
    }
    return None;
  }

  /** Resolution of one explicit target (src/deps.ts:795-806). */
  method Resolve(files: seq<Name>, target: string) returns (r: Option<Name>)
    ensures forall g :: r == Some(g) <==> ResolvesTo(files, target, g)
    ensures r.Some? ==> r.value in files
  {
    if target in files { return Some(target); }
    r := FindExpandFile(files, target);
    forall g | ResolvesTo(files, target, g) ensures r == Some(g) {
      ResolutionIsUnique(files, target, g, if r.Some? then r.value else g);
    }
  }

  lemma ResolutionIsUnique(files: seq<Name>, target: string, g: Name, h: Name)
    requires ResolvesTo(files, target, g) && ResolvesTo(files, target, h)
    ensures g == h
  {
  }

  method AddExplicit(files: seq<Name>, file: Name, targets: seq<string>,
                     edges0: seq<Edge>, edgeSet0: set<Edge>) returns (edges: seq<Edge>, edgeSet: set<Edge>)
    requires Listed(edges0, edgeSet0)
    ensures Listed(edges, edgeSet)
    ensures forall e :: e in edgeSet <==>
      e in edgeSet0 || (e.from == file && e.to != file && TargetOf(files, targets, e.to))
  {
    edges, edgeSet := edges0, edgeSet0;
    for i := 0 to |targets|
      invariant Listed(edges, edgeSet)
      invariant forall e :: e in edgeSet <==>
        e in edgeSet0 || (e.from == file && e.to != file && TargetOf(files, targets[..i], e.to))
    {
      assert targets[..i + 1] == targets[..i] + [targets[i]];
      var resolved := Resolve(files, targets[i]);
      if resolved.Some? && resolved.value != file {
        edges, edgeSet := AddEdge(edges, edgeSet, Edge(file, resolved.value));
      }
    }
    assert targets[..|targets|] == targets;
  }

  method AddConfigured(files: seq<Name>, file: Name, configured: seq<Name>,
                       edges0: seq<Edge>, edgeSet0: set<Edge>) returns (edges: seq<Edge>, edgeSet: set<Edge>)
    requires Listed(edges0, edgeSet0)
    ensures Listed(edges, edgeSet)
    ensures forall e :: e in edgeSet <==>
      e in edgeSet0 || (e.from == file && e.to != file && e.to in files && e.to in configured)
  {
    edges, edgeSet := edges0, edgeSet0;
    for i := 0 to |configured|
      invariant Listed(edges, edgeSet)
      invariant forall e :: e in edgeSet <==>
        e in edgeSet0 || (e.from == file && e.to != file && e.to in files && e.to in configured[..i])
    {
      assert configured[..i + 1] == configured[..i] + [configured[i]];
      if configured[i] in files && configured[i] != file {
        edges, edgeSet := AddEdge(edges, edgeSet, Edge(file, configured[i]));
      }
    }
    assert configured[..|configured|] == configured;
  }

  method AddFile(files: seq<Name>, deps: map<Name, FileDeps>, config: map<Name, seq<Name>>, file: Name,
                 creators: map<ObjectKey, Name>, edges0: seq<Edge>, edgeSet0: set<Edge>)
      returns (edges: seq<Edge>, edgeSet: set<Edge>)
    requires "" !in files && file in files && file in deps && Listed(edges0, edgeSet0)
    requires forall k, g :: (k in creators && creators[k] == g) <==> IsLastCreator(files, deps, k, g)
    ensures Listed(edges, edgeSet)
    ensures forall e :: e in edgeSet <==> e in edgeSet0 || (e.from == file && Links(files, deps, config, file, e.to))
  {
    forall k | k in creators ensures creators[k] in files {
      assert IsLastCreator(files, deps, k, creators[k]);
    }
    edges, edgeSet := AddReferences(file, deps[file].references, creators, edges0, edgeSet0);
    ghost var afterReferences := edgeSet;
    assert forall e :: e in afterReferences <==>
      e in edgeSet0 || (e.from == file && e.to != file && ReferenceLink(files, deps, deps[file], e.to)) by {
      ReferencesAreLinks(files, deps, deps[file], creators);
    }
    edges, edgeSet := AddExplicit(files, file, deps[file].targets, edges, edgeSet);
    if file in config {
      edges, edgeSet := AddConfigured(files, file, config[file], edges, edgeSet);
    }
    forall e | ReferenceLink(files, deps, deps[file], e) || TargetOf(files, deps[file].targets, e) ensures e in files {
      LinkTargetsAreFiles(files, deps, deps[file], e);
    }
  }

  lemma ReferencesAreLinks(files: seq<Name>, deps: map<Name, FileDeps>, d: FileDeps, creators: map<ObjectKey, Name>)
    requires forall k, g :: (k in creators && creators[k] == g) <==> IsLastCreator(files, deps, k, g)
    ensures forall g :: ReferenceLink(files, deps, d, g) <==> CreatedBy(d.references, creators, g)
  {
    forall g ensures ReferenceLink(files, deps, d, g) <==> CreatedBy(d.references, creators, g) {
      ReferenceIsLink(files, deps, d, creators, g);
    }
  }

  lemma ReferenceIsLink(files: seq<Name>, deps: map<Name, FileDeps>, d: FileDeps, creators: map<ObjectKey, Name>,
                        g: Name)
    requires forall k, g :: (k in creators && creators[k] == g) <==> IsLastCreator(files, deps, k, g)
    ensures ReferenceLink(files, deps, d, g) <==> CreatedBy(d.references, creators, g)
  {
    if ReferenceLink(files, deps, d, g) {
      var r :| r in d.references && LastDeclares(files, deps, r, g);
      LastCreatorMeans(files, deps, r, g);
      assert KeyOf(r) in creators && creators[KeyOf(r)] == g;
    }
    if CreatedBy(d.references, creators, g) {
      var r :| r in d.references && KeyOf(r) in creators && creators[KeyOf(r)] == g;
      LastCreatorMeans(files, deps, r, g);
    }
  }

  lemma LinkTargetsAreFiles(files: seq<Name>, deps: map<Name, FileDeps>, d: FileDeps, g: Name)
    requires ReferenceLink(files, deps, d, g) || TargetOf(files, d.targets, g)
    ensures g in files
  {
    if ReferenceLink(files, deps, d, g) {
      var r :| r in d.references && LastDeclares(files, deps, r, g);
    }
  }

  /**
   * Both ends of every edge are files, no file depends on itself, no edge is listed twice, and
   * an edge stands for exactly the declared dependencies.
   */
  method BuildEdges(files: seq<Name>, deps: map<Name, FileDeps>, config: map<Name, seq<Name>>)
      returns (edges: seq<Edge>)
    requires Distinct(files) && "" !in files
    requires forall f :: f in files ==> f in deps
    ensures Graph(files, edges).WellFormed()
    ensures forall e :: e in edges ==> e.from != e.to
    ensures Distinct(edges)
    ensures forall f, g :: Edge(f, g) in edges <==> Links(files, deps, config, f, g)
  {
    var creators := CollectCreators(files, deps);
    edges := [];
    var edgeSet := {};
    for i := 0 to |files|
      invariant Listed(edges, edgeSet)
      invariant forall e :: e in edgeSet <==> e.from in files[..i] && Links(files, deps, config, e.from, e.to)
    {
      assert files[..i + 1] == files[..i] + [files[i]];
      edges, edgeSet := AddFile(files, deps, config, files[i], creators, edges, edgeSet);
    }
    assert files[..|files|] == files;
  }
}
