/**
 * What a run of apply does with a file whose turn comes, said of the file's records, its checksum and
 * its place alone (src/commands/apply.ts:149-219, 259-348), and what follows for whole runs.
 */
module ApplyOutcomes {
  import opened Names
  import opened Options
  import opened Records
  import opened Dependents
  import opened Apply
  import opened ApplyLaws

  ghost predicate SeenBefore(log: seq<Record>, f: Name, checksum: string) {
    exists r :: r in log && r.file == f && r.checksum == checksum
  }

  ghost predicate LastIsApplied(log: seq<Record>, f: Name) {
    var last := LastOfFile(log, f);
    last.Some? && (last.value.status == Applied || last.value.status == Running)
  }

  ghost predicate LastIs(log: seq<Record>, f: Name, status: Status) {
    var last := LastOfFile(log, f);
    last.Some? && last.value.status == status
  }

  /**
   * The file's SQL has to be executed: it has no record; or it may be edited, and the last attempt
   * failed or the file has a content it never had before.
   */
  ghost predicate Due(d: Disk, log: seq<Record>, f: Name)
    requires f in d.checksums
  {
    || LastOfFile(log, f).None?
    || (Editable(d, f) && LastIs(log, f, Failed))
    || (Editable(d, f) && LastIsApplied(log, f) && !SeenBefore(log, f, d.checksums[f]))
  }

  /** Nothing is to be done: the file was resolved, or its last applied content is the current one. */
  ghost predicate Current(d: Disk, log: seq<Record>, f: Name)
    requires f in d.checksums
  {
    LastIs(log, f, Skipped) || (LastIsApplied(log, f) && LastOfFile(log, f).value.checksum == d.checksums[f])
  }

  /** The error reported for a file that is neither current nor executed with success. */
  ghost function ErrorFor(d: Disk, log: seq<Record>, f: Name): ErrorKind
    requires f in d.checksums
  {
    if LastOfFile(log, f).None? then FirstFailed
    else if LastIs(log, f, Failed) then if Editable(d, f) then RetryFailed else Unresolved
    else if SeenBefore(log, f, d.checksums[f]) then AncestorRevert
    else if Editable(d, f) then ReapplyFailed
    else Tampered
  }

  lemma DecisionMeans(d: Disk, log: seq<Record>, f: Name)
    requires f in d.checksums && Chronological(log)
    ensures DecisionFor(d, log, f) ==
      if Due(d, log, f) then Execute(ErrorFor(d, log, f))
      else if Current(d, log, f) then Skip
      else Reject(ErrorFor(d, log, f))
  {
    OfFileIsChronological(log, f);
    LatestOfFile(log, f);
    if LastOfFile(log, f).Some? { PastMeans(log, f, d.checksums[f]); }
  }

  /** Past checksums are those of the records before the last one. */
  lemma PastMeans(log: seq<Record>, f: Name, checksum: string)
    requires Chronological(log) && LastOfFile(log, f).Some?
    ensures var last := LastOfFile(log, f).value;
      last.checksum != checksum ==> (checksum in PastChecksums(OfFile(log, f), last) <==> SeenBefore(log, f, checksum))
  {
    OfFileIsChronological(log, f);
    var last := LastOfFile(log, f).value;
    if SeenBefore(log, f, checksum) && last.checksum != checksum {
      var r :| r in log && r.file == f && r.checksum == checksum;
      assert r in OfFile(log, f) && r != last;
    }
  }

  ghost function Executed(run: Run, f: Name, checksum: string, status: Status): Run {
    run.(log := run.log + [Record(f, checksum, status, run.clock, None, None)], clock := run.clock + 1)
  }

  ghost function WithError(run: Run, f: Name, kind: ErrorKind): Run {
    run.(errors := run.errors + [(f, kind)], failed := if run.failed == None then Some(f) else run.failed)
  }

  ghost function BlockedBy(d: Disk, p: Progress, f: Name): set<Name> {
    if d.dag then p.blockedSet + DependentClosure(d.DependencyGraph(), f) else p.blockedSet
  }

  /** What the turn of a file makes of the run so far. */
  ghost function Turn(d: Disk, log0: seq<Record>, p: Progress, f: Name, succeeds: bool): Progress
    requires f in d.checksums
  {
    var sum := d.checksums[f];
    if p.stopped then p
    else if f in p.blockedSet then p.(run := p.run.(blocked := p.run.blocked + [f]))
    else if Due(d, log0, f) && succeeds then
      var run := Executed(p.run, f, sum, Applied);
      p.(run := run.(applied := p.run.applied + [f]))
    else if Due(d, log0, f) then
      Progress(WithError(Executed(p.run, f, sum, Failed), f, ErrorFor(d, log0, f)), BlockedBy(d, p, f), !d.dag)
    else if Current(d, log0, f) then p.(run := p.run.(skipped := p.run.skipped + [f]))
    else Progress(WithError(p.run, f, ErrorFor(d, log0, f)), BlockedBy(d, p, f), !d.dag)
  }

  lemma StepIsTurn(d: Disk, log0: seq<Record>, p: Progress, f: Name, ok: nat -> bool)
    requires f in d.checksums && Chronological(log0)
    ensures StepFile(d, log0, p, f, ok) == Turn(d, log0, p, f, ok(|p.run.log|))
  {
    DecisionMeans(d, log0, f);
  }

  /**
   * The turn of the file at position i: blocked, executed and recorded, skipped, or in error, exactly
   * as its records, its checksum and its place say.
   */
  lemma TurnOfFile(d: Disk, log0: seq<Record>, clock: nat, order: seq<Name>, i: nat, ok: nat -> bool)
    requires (forall x :: x in order ==> x in d.checksums) && i < |order| && Chronological(log0)
    ensures var p := After(d, log0, clock, order[..i], ok);
      After(d, log0, clock, order[..i + 1], ok) == Turn(d, log0, p, order[i], ok(|p.run.log|))
  {
    AfterOneMore(d, log0, clock, order, i, ok);
    StepIsTurn(d, log0, After(d, log0, clock, order[..i], ok), order[i], ok);
  }

  // ---- First runs ----

  /** One applied record for each file, in order. */
  ghost predicate AllRecorded(d: Disk, clock: nat, order: seq<Name>, log: seq<Record>)
    requires forall x :: x in order ==> x in d.checksums
  {
    && |log| == |order|
    && forall k :: 0 <= k < |order| ==>
      log[k] == Record(order[k], d.checksums[order[k]], Applied, clock + k, None, None)
  }

  /** On an empty log, when no execution fails, every file is executed and recorded as applied, in order. */
  lemma {:induction false} FirstRunAppliesAll(d: Disk, clock: nat, order: seq<Name>, ok: nat -> bool)
    requires (forall x :: x in order ==> x in d.checksums) && forall n :: ok(n)
    ensures var p := After(d, [], clock, order, ok);
      && AllRecorded(d, clock, order, p.run.log)
      && p == Progress(Run(p.run.log, clock + |order|, order, [], [], [], None), {}, false)
  {
    if order != [] {
      var init, last := order[..|order| - 1], order[|order| - 1];
      assert last in order && order == init + [last];
      FirstRunAppliesAll(d, clock, init, ok);
      var p := After(d, [], clock, init, ok);
      FirstTurn(d, clock, init, last, p, ok);
    }
  }

  lemma FirstTurn(d: Disk, clock: nat, done: seq<Name>, f: Name, p: Progress, ok: nat -> bool)
    requires (forall x :: x in done ==> x in d.checksums) && f in d.checksums && forall n :: ok(n)
    requires AllRecorded(d, clock, done, p.run.log)
    requires p == Progress(Run(p.run.log, clock + |done|, done, [], [], [], None), {}, false)
    ensures var q := StepFile(d, [], p, f, ok);
      && (forall x :: x in done + [f] ==> x in d.checksums)
      && AllRecorded(d, clock, done + [f], q.run.log)
      && q == Progress(Run(q.run.log, clock + |done| + 1, done + [f], [], [], [], None), {}, false)
  {
    StepIsTurn(d, [], p, f, ok);
  }

  // ---- Any file, over a whole run ----

  lemma {:induction false} TurnsBetweenKeep(d: Disk, log0: seq<Record>, clock: nat, order: seq<Name>, i: nat, j: nat,
                                            ok: nat -> bool, f: Name)
    requires (forall x :: x in order ==> x in d.checksums) && i <= j <= |order|
    requires forall k :: i <= k < j ==> order[k] != f
    ensures SameFor(After(d, log0, clock, order[..i], ok).run.log, After(d, log0, clock, order[..j], ok).run.log, f)
    decreases j - i
  {
    if i < j {
      TurnsBetweenKeep(d, log0, clock, order, i, j - 1, ok, f);
      OneTurnKeeps(d, log0, clock, order, j - 1, ok, f);
    }
  }

  lemma OneTurnKeeps(d: Disk, log0: seq<Record>, clock: nat, order: seq<Name>, i: nat, ok: nat -> bool, f: Name)
    requires (forall x :: x in order ==> x in d.checksums) && i < |order| && order[i] != f
    ensures SameFor(After(d, log0, clock, order[..i], ok).run.log, After(d, log0, clock, order[..i + 1], ok).run.log, f)
  {
    AfterOneMore(d, log0, clock, order, i, ok);
    StepKeepsOthers(d, log0, After(d, log0, clock, order[..i], ok), order[i], ok, f);
  }

  /** The file's turn comes: the run was not stopped before it, and it is not blocked. */
  ghost predicate TurnComes(p: Progress, f: Name) {
    !p.stopped && f !in p.blockedSet
  }

  /**
   * A file that is due when its turn comes gets exactly one record in the run, applied or failed as
   * the execution goes. In particular every new file does that is not blocked, and every editable file
   * with a content never seen before.
   */
  lemma DueFileIsRecordedOnce(d: Disk, log0: seq<Record>, clock: nat, order: seq<Name>, i: nat, ok: nat -> bool)
    requires Distinct(order) && (forall x :: x in order ==> x in d.checksums) && i < |order| && Chronological(log0)
    requires TurnComes(After(d, log0, clock, order[..i], ok), order[i]) && Due(d, log0, order[i])
    ensures var before, f := After(d, log0, clock, order[..i], ok).run, order[i];
      var status := if ok(|before.log|) then Applied else Failed;
      var r := Record(f, d.checksums[f], status, before.clock, None, None);
      var log := After(d, log0, clock, order, ok).run.log;
      OfFile(log, f) == OfFile(log0, f) + [r] && LastOfFile(log, f) == Some(r)
  {
    var p, f := After(d, log0, clock, order[..i], ok), order[i];
    assert f !in order[..i];
    OthersUntouched(d, log0, clock, order[..i], ok, f);
    TurnOfFile(d, log0, clock, order, i, ok);
    var r := Record(f, d.checksums[f], if ok(|p.run.log|) then Applied else Failed, p.run.clock, None, None);
    DueTurnRecords(d, log0, p, f, ok(|p.run.log|), r);
    TurnsBetweenKeep(d, log0, clock, order, i + 1, |order|, ok, f);
    assert order[..|order|] == order;
  }

  lemma DueTurnRecords(d: Disk, log0: seq<Record>, p: Progress, f: Name, succeeds: bool, r: Record)
    requires f in d.checksums && TurnComes(p, f) && Due(d, log0, f) && SameFor(log0, p.run.log, f)
    requires r == Record(f, d.checksums[f], if succeeds then Applied else Failed, p.run.clock, None, None)
    ensures var log := Turn(d, log0, p, f, succeeds).run.log;
      OfFile(log, f) == OfFile(log0, f) + [r] && LastOfFile(log, f) == Some(r)
  {
    LastOfFileAppend(p.run.log, r, f);
  }

  /** A file that is not due gets no record in the run, whatever happens to the others. */
  lemma OthersGetNoRecord(d: Disk, log0: seq<Record>, clock: nat, order: seq<Name>, ok: nat -> bool, f: Name)
    requires (forall x :: x in order ==> x in d.checksums) && f in d.checksums && Chronological(log0)
    requires !Due(d, log0, f)
    ensures SameFor(log0, After(d, log0, clock, order, ok).run.log, f)
  {
    DecisionMeans(d, log0, f);
    NotExecutedKeepsRecords(d, log0, clock, order, ok, f);
  }

  /** A resolved file is skipped on any disk: it gets no record, and no error when its turn comes. */
  lemma ResolvedFileIsSkipped(d: Disk, log0: seq<Record>, clock: nat, order: seq<Name>, i: nat, ok: nat -> bool)
    requires (forall x :: x in order ==> x in d.checksums) && i < |order| && Chronological(log0)
    requires LastIs(log0, order[i], Skipped)
    ensures SameFor(log0, After(d, log0, clock, order, ok).run.log, order[i])
    ensures var p := After(d, log0, clock, order[..i], ok);
      TurnComes(p, order[i]) ==>
        After(d, log0, clock, order[..i + 1], ok) == p.(run := p.run.(skipped := p.run.skipped + [order[i]]))
  {
    OthersGetNoRecord(d, log0, clock, order, ok, order[i]);
    TurnOfFile(d, log0, clock, order, i, ok);
  }

  /** The result names the first file in error as the one that failed. */
  lemma {:induction false} FailedIsFirstError(d: Disk, log0: seq<Record>, clock: nat, order: seq<Name>, ok: nat -> bool)
    requires (forall x :: x in order ==> x in d.checksums) && Chronological(log0)
    ensures var run := After(d, log0, clock, order, ok).run;
      run.failed == if run.errors == [] then None else Some(run.errors[0].0)
  {
    if order != [] {
      var init, last := order[..|order| - 1], order[|order| - 1];
      assert last in order;
      FailedIsFirstError(d, log0, clock, init, ok);
      StepIsTurn(d, log0, After(d, log0, clock, init, ok), last, ok);
      TurnFails(d, log0, After(d, log0, clock, init, ok), last, ok(|After(d, log0, clock, init, ok).run.log|));
    }
  }

  lemma TurnFails(d: Disk, log0: seq<Record>, p: Progress, f: Name, succeeds: bool)
    requires f in d.checksums && p.run.failed == if p.run.errors == [] then None else Some(p.run.errors[0].0)
    ensures var run := Turn(d, log0, p, f, succeeds).run;
      run.failed == if run.errors == [] then None else Some(run.errors[0].0)
  {
  }
}
