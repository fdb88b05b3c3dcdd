/**
 * The apply engine for Class A files (src/commands/apply.ts:31-46, 96-219, 245-349): what is
 * decided for each file, what is executed and recorded, and what a failure blocks. Whether the
 * SQL of an execution succeeds is given by an oracle, asked once per recorded attempt.
 */
module Apply {
  import opened Names
  import opened Graphs
  import opened Options
  import opened Records
  import opened Ordering
  import opened Dependents

  /** The migration files in scan order, the checksum of each, their dependencies, and the model in use. */
  datatype Disk = Disk(files: seq<Name>, checksums: map<Name, string>, edges: seq<Edge>, dag: bool) {
    function DependencyGraph(): Graph {
      Graph(files, edges)
    }

    ghost predicate Valid() {
      Distinct(files) && (forall f :: f in files ==> f in checksums) && DependencyGraph().WellFormed()
    }
  }

  datatype ErrorKind = FirstFailed | RetryFailed | ReapplyFailed | Unresolved | AncestorRevert | Tampered

  datatype Decision = Execute(onFailure: ErrorKind) | Skip | Reject(kind: ErrorKind)

  /** The checksums of a file's records other than the latest one. */
  function PastChecksums(records: seq<Record>, latest: Record): set<string> {
    set r | r in records && r != latest :: r.checksum
  }

  /** The branches of processFile (src/commands/apply.ts:259-348). */
  function Decide(records: seq<Record>, latest: Option<Record>, checksum: string, editable: bool): Decision {
    match latest
    case None => Execute(FirstFailed)
    case Some(r) =>
      if r.status == Skipped then Skip
      else if r.status == Failed then if editable then Execute(RetryFailed) else Reject(Unresolved)
      else if r.checksum == checksum then Skip
      else if checksum in PastChecksums(records, r) then Reject(AncestorRevert)
      else if editable then Execute(ReapplyFailed)
      else Reject(Tampered)
  }

  // ---- The state of a run and one file's effect on it ----

  datatype Run = Run(log: seq<Record>, clock: nat, applied: seq<Name>, skipped: seq<Name>, blocked: seq<Name>,
                     errors: seq<(Name, ErrorKind)>, failed: Option<Name>)

  function Fail(run: Run, file: Name, kind: ErrorKind): Run {
    run.(errors := run.errors + [(file, kind)], failed := if run.failed.Some? then run.failed else Some(file))
  }

  function AddRecord(run: Run, file: Name, checksum: string, status: Status): Run {
    run.(log := run.log + [Record(file, checksum, status, run.clock, None, None)], clock := run.clock + 1)
  }

  function Perform(run: Run, file: Name, checksum: string, decision: Decision, succeeds: bool): Run {
    match decision
    case Skip => run.(skipped := run.skipped + [file])
    case Reject(kind) => Fail(run, file, kind)
    case Execute(kind) =>
      if succeeds then
        var r := AddRecord(run, file, checksum, Applied); r.(applied := r.applied + [file])
      else Fail(AddRecord(run, file, checksum, Failed), file, kind)
  }

  /** The arrays of the result object (src/commands/apply.ts:23-29). */
  class ApplyResult {
    var applied: seq<Name>
    var skipped: seq<Name>
    var blocked: seq<Name>
    var errors: seq<(Name, ErrorKind)>
    var failed: Option<Name>

    constructor ()
      ensures applied == [] && skipped == [] && blocked == [] && errors == [] && failed == None
    {
      applied, skipped, blocked, errors, failed := [], [], [], [], None;
    }

    method Error(file: Name, kind: ErrorKind)
      modifies this
      ensures errors == old(errors) + [(file, kind)]
      ensures failed == if old(failed).Some? then old(failed) else Some(file)
      ensures applied == old(applied) && skipped == old(skipped) && blocked == old(blocked)
    {
      if failed.None? { failed := Some(file); }
      errors := errors + [(file, kind)];
    }
  }

  ghost function RunOf(db: Db, result: ApplyResult): Run
    reads db, result
  {
    Run(db.log, db.clock, result.applied, result.skipped, result.blocked, result.errors, result.failed)
  }

  method ExecuteFile(db: Db, result: ApplyResult, file: Name, checksum: string, kind: ErrorKind, ok: nat -> bool)
      returns (error: bool)
    requires db.Valid()
    modifies db, result
    ensures db.Valid()
    ensures RunOf(db, result) == Perform(old(RunOf(db, result)), file, checksum, Execute(kind), ok(|old(db.log)|))
    ensures error <==> !ok(|old(db.log)|)
  {
    var success := ok(|db.log|);
    if success {
      db.InsertRecord(file, checksum, Applied, None, None);
      result.applied := result.applied + [file];
      error := false;
    } else {
      db.InsertRecord(file, checksum, Failed, None, None);
      result.Error(file, kind);
      error := true;
    }
  }

  method ProcessFile(db: Db, result: ApplyResult, file: Name, records: seq<Record>, latest: Option<Record>,
                     checksum: string, editable: bool, ok: nat -> bool) returns (error: bool)
    requires db.Valid()
    modifies db, result
    ensures db.Valid()
    ensures RunOf(db, result)
      == Perform(old(RunOf(db, result)), file, checksum, Decide(records, latest, checksum, editable), ok(|old(db.log)|))
    ensures error <==> IsError(Decide(records, latest, checksum, editable), ok(|old(db.log)|))
  {
    if latest.None? {
      error := ExecuteFile(db, result, file, checksum, FirstFailed, ok);
      return;
    }
    var latestRecord := latest.value;
    if latestRecord.status == Skipped {
      result.skipped := result.skipped + [file];
      return false;
    }
    if latestRecord.status == Failed {
      if editable {
        error := ExecuteFile(db, result, file, checksum, RetryFailed, ok);
      } else {
        result.Error(file, Unresolved);
        error := true;
      }
      return;
    }
    if latestRecord.checksum == checksum {
      result.skipped := result.skipped + [file];
      return false;
    }
    var pastChecksums := PastChecksums(records, latestRecord);
    if checksum in pastChecksums {
      result.Error(file, AncestorRevert);
      return true;
    }
    if editable {
      error := ExecuteFile(db, result, file, checksum, ReapplyFailed, ok);
    } else {
      result.Error(file, Tampered);
      error := true;
    }
  }

  predicate IsError(decision: Decision, succeeds: bool) {
    decision.Reject? || (decision.Execute? && !succeeds)
  }

  // ---- The main loop ----

  ghost predicate Editable(d: Disk, f: Name) {
    if d.dag then IsLeaf(d.DependencyGraph(), f) else d.files != [] && f == d.files[|d.files| - 1]
  }

  ghost function DecisionFor(d: Disk, log0: seq<Record>, file: Name): Decision
    requires file in d.checksums
  {
    Decide(OfFile(log0, file), Latest(OfFile(log0, file)), d.checksums[file], Editable(d, file))
  }

  datatype Progress = Progress(run: Run, blockedSet: set<Name>, stopped: bool)

  /** One round of the loop, with the records read at the start of the run. */
  ghost function StepFile(d: Disk, log0: seq<Record>, p: Progress, file: Name, ok: nat -> bool): Progress
    requires file in d.checksums
  {
    if p.stopped then p
    else if file in p.blockedSet then p.(run := p.run.(blocked := p.run.blocked + [file]))
    else
      var decision := DecisionFor(d, log0, file);
      var succeeds := ok(|p.run.log|);
      var run := Perform(p.run, file, d.checksums[file], decision, succeeds);
      if !IsError(decision, succeeds) then Progress(run, p.blockedSet, false)
      else if d.dag then Progress(run, p.blockedSet + DependentClosure(d.DependencyGraph(), file), false)
      else Progress(run, p.blockedSet, true)
  }

  ghost function Start(log: seq<Record>, clock: nat): Progress {
    Progress(Run(log, clock, [], [], [], [], None), {}, false)
  }

  ghost function After(d: Disk, log0: seq<Record>, clock: nat, order: seq<Name>, ok: nat -> bool): Progress
    requires forall f :: f in order ==> f in d.checksums
  {
    if order == [] then Start(log0, clock)
    else
      assert order[|order| - 1] in order;
      StepFile(d, log0, After(d, log0, clock, order[..|order| - 1], ok), order[|order| - 1], ok)
  }

  /** Dependency order in DAG mode; scan order in linear mode, or when there is a cycle. */
  ghost predicate IsOrder(d: Disk, order: seq<Name>) {
    if d.dag && !HasCycle(d.DependencyGraph()) then IsLeastOrder(d.DependencyGraph(), order) else order == d.files
  }

  lemma OrderListsFiles(d: Disk, order: seq<Name>)
    requires d.Valid() && IsOrder(d, order)
    ensures Distinct(order) && forall f :: f in order <==> f in d.files
    ensures forall f :: f in order ==> f in d.checksums
  {
  }

  /** recordsByFile (src/commands/apply.ts:103-109). */
  method GroupRecords(log: seq<Record>) returns (recordsByFile: map<Name, seq<Record>>)
    ensures forall f :: OfFile(log, f) == if f in recordsByFile then recordsByFile[f] else []
  {
    recordsByFile := map[];
    for i := 0 to |log|
      invariant forall f :: OfFile(log[..i], f) == if f in recordsByFile then recordsByFile[f] else []
    {
      var r := log[i];
      assert log[..i + 1][..i] == log[..i];
      var list := if r.file in recordsByFile then recordsByFile[r.file] else [];
      recordsByFile := recordsByFile[r.file := list + [r]];
    }
    assert log[..|log|] == log;
  }

  method ChooseOrder(d: Disk) returns (order: seq<Name>)
    requires d.Valid()
    ensures IsOrder(d, order)
  {
    order := d.files;
    if d.dag {
      var sorted := TopologicalSort(d.DependencyGraph());
      if sorted.Some? { order := sorted.value; }
    }
  }

  method EditableFiles(d: Disk) returns (editable: set<Name>)
    requires d.Valid()
    ensures forall f :: f in editable <==> Editable(d, f)
    ensures d.dag ==> forall f :: f in editable <==> f in d.files && forall x :: Edge(x, f) !in d.edges
    ensures !d.dag ==> forall f :: f in editable <==> d.files != [] && f == d.files[|d.files| - 1]
  {
    if d.dag {
      var leaves := FindLeafNodes(d.DependencyGraph());
      editable := set f | f in leaves;
    } else if |d.files| > 0 {
      editable := {d.files[|d.files| - 1]};
    } else {
      editable := {};
    }
  }

  /** The body of the loop over the files (src/commands/apply.ts:149-219). */
  method ApplyOne(db: Db, result: ApplyResult, d: Disk, ghost log0: seq<Record>, file: Name, records: seq<Record>,
                  editable: bool, blockedSet0: set<Name>, ok: nat -> bool)
      returns (blockedSet: set<Name>, stopped: bool)
    requires db.Valid() && d.Valid() && file in d.checksums
    requires records == OfFile(log0, file) && editable == Editable(d, file)
    modifies db, result
    ensures db.Valid()
    ensures Progress(RunOf(db, result), blockedSet, stopped)
      == StepFile(d, log0, Progress(old(RunOf(db, result)), blockedSet0, false), file, ok)
  {
    blockedSet, stopped := blockedSet0, false;
    if file in blockedSet {
      result.blocked := result.blocked + [file];
      return;
    }
    var error := ProcessFile(db, result, file, records, Latest(records), d.checksums[file], editable, ok);
    if error {
      if d.dag {
        var dependents := FindTransitiveDependents(d.DependencyGraph(), file);
        blockedSet := blockedSet + dependents;
      } else {
        stopped := true;
      }
    }
  }

  /** One round of the loop: the files up to and with position i have had their turn. */
  method ApplyNext(db: Db, result: ApplyResult, d: Disk, ghost log0: seq<Record>, ghost clock0: nat,
                   order: seq<Name>, i: nat, records: seq<Record>, editable: bool, blockedSet0: set<Name>,
                   ok: nat -> bool)
      returns (blockedSet: set<Name>, stopped: bool)
    requires db.Valid() && d.Valid() && i < |order| && forall f :: f in order ==> f in d.checksums
    requires records == OfFile(log0, order[i]) && editable == Editable(d, order[i])
    requires Progress(RunOf(db, result), blockedSet0, false) == After(d, log0, clock0, order[..i], ok)
    modifies db, result
    ensures db.Valid()
    ensures Progress(RunOf(db, result), blockedSet, stopped) == After(d, log0, clock0, order[..i + 1], ok)
  {
    AfterOneMore(d, log0, clock0, order, i, ok);
    blockedSet, stopped := ApplyOne(db, result, d, log0, order[i], records, editable, blockedSet0, ok);
  }

  /** apply: the log and the result object end as the run of the files in order says. */
  method CommandApply(db: Db, d: Disk, ok: nat -> bool) returns (result: ApplyResult, ghost order: seq<Name>)
    requires db.Valid() && d.Valid()
    modifies db
    ensures db.Valid() && fresh(result)
    ensures IsOrder(d, order) && forall f :: f in order ==> f in d.checksums
    ensures RunOf(db, result) == After(d, old(db.log), old(db.clock), order, ok).run
  {
    result := new ApplyResult();
    var allRecords := db.log;
    ghost var clock0 := db.clock;
    var recordsByFile := GroupRecords(allRecords);
    var orderedFileNames := ChooseOrder(d);
    OrderListsFiles(d, orderedFileNames);
    order := orderedFileNames;
    var editable := EditableFiles(d);
    var blockedSet: set<Name> := {};
    var stopped := false;
    var i := 0;
    while i < |orderedFileNames| && !stopped
      invariant 0 <= i <= |orderedFileNames| && db.Valid()
      invariant Progress(RunOf(db, result), blockedSet, stopped) == After(d, allRecords, clock0, order[..i], ok)
    {
      var file := orderedFileNames[i];
      var records := if file in recordsByFile then recordsByFile[file] else [];
      blockedSet, stopped :=
        ApplyNext(db, result, d, allRecords, clock0, orderedFileNames, i, records, file in editable, blockedSet, ok);
      i := i + 1;
    }
    StoppedStays(d, allRecords, clock0, order, i, ok);
  }

  lemma AfterOneMore(d: Disk, log0: seq<Record>, clock: nat, order: seq<Name>, i: nat, ok: nat -> bool)
    requires i < |order| && forall f :: f in order ==> f in d.checksums
    ensures After(d, log0, clock, order[..i + 1], ok)
      == StepFile(d, log0, After(d, log0, clock, order[..i], ok), order[i], ok)
  {
    assert order[..i + 1][..i] == order[..i];
  }

  /** After a break the remaining files change nothing. */
  lemma {:induction false} StoppedStays(d: Disk, log0: seq<Record>, clock: nat, order: seq<Name>, i: nat,
                                        ok: nat -> bool)
    requires forall f :: f in order ==> f in d.checksums
    requires i <= |order| && (After(d, log0, clock, order[..i], ok).stopped || i == |order|)
    ensures After(d, log0, clock, order, ok) == After(d, log0, clock, order[..i], ok)
    decreases |order|
  {
    if i == |order| {
      assert order[..i] == order;
    } else {
      assert order[..|order| - 1][..i] == order[..i];
      StoppedStays(d, log0, clock, order[..|order| - 1], i, ok);
    }
  }
}
