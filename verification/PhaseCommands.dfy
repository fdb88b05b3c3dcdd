/**
 * The two commands that append phase records, advance (src/commands/advance.ts:29-84) and
 * apply-phase (src/commands/apply-phase.ts:25-92), and the order of phases they keep.
 */
module PhaseCommands {
  import opened Names
  import opened Options
  import opened Records
  import opened GroupStates

  datatype Report = ReportRunning | ReportCompleted | ReportFailed

  function StatusOf(report: Report): Status {
    match report
    case ReportRunning => Running
    case ReportCompleted => Applied
    case ReportFailed => Failed
  }

  /** The files of a group are numbered in the order of the phases. */
  ghost predicate IsPhaseFile(file: Name, group: string, phase: Phase) {
    && (phase == Expand ==> file == group + "/1_expand.sql")
    && (phase == Backfill ==> file == group + "/2_backfill.sql")
    && (phase == Switch ==> file == group + "/3_switch.sql")
    && (phase == Contract ==> file == group + "/4_contract.sql")
  }

  function PhaseFileName(group: string, phase: Phase): (file: Name)
    ensures IsPhaseFile(file, group, phase)
  {
    group + match phase
      case Expand => "/1_expand.sql"
      case Backfill => "/2_backfill.sql"
      case Switch => "/3_switch.sql"
      case Contract => "/4_contract.sql"
  }

  /** The file of the first record of the phase, or the conventional name (src/commands/advance.ts:78-84). */
  function FindPhaseFileName(log: seq<Record>, group: string, phase: Phase): Name {
    if log == [] then PhaseFileName(group, phase)
    else if Matches(log[0], group, phase) then log[0].file
    else FindPhaseFileName(log[1..], group, phase)
  }

  /** The file under which advance records a phase: that of the phase's first record, if there is one. */
  ghost predicate IsAdvanceFile(log: seq<Record>, group: string, phase: Phase, file: Name) {
    if exists r :: r in log && Matches(r, group, phase) then
      exists i :: 0 <= i < |log| && Matches(log[i], group, phase) && log[i].file == file
        && forall j :: 0 <= j < i ==> !Matches(log[j], group, phase)
    else IsPhaseFile(file, group, phase)
  }

  lemma {:induction false} FindsAdvanceFile(log: seq<Record>, group: string, phase: Phase)
    ensures IsAdvanceFile(log, group, phase, FindPhaseFileName(log, group, phase))
  {
    if log != [] {
      var file := FindPhaseFileName(log, group, phase);
      if Matches(log[0], group, phase) {
        assert log[0] in log && log[0].file == file;
      } else {
        FindsAdvanceFile(log[1..], group, phase);
        FirstRecordOfTail(log, group, phase, file);
      }
    }
  }

  lemma FirstRecordOfTail(log: seq<Record>, group: string, phase: Phase, file: Name)
    requires log != [] && !Matches(log[0], group, phase) && IsAdvanceFile(log[1..], group, phase, file)
    ensures IsAdvanceFile(log, group, phase, file)
  {
    var rest := log[1..];
    assert log == [log[0]] + rest;
    if r :| r in log && Matches(r, group, phase) {
      assert r in rest;
      var i :| 0 <= i < |rest| && Matches(rest[i], group, phase) && rest[i].file == file
        && forall j :: 0 <= j < i ==> !Matches(rest[j], group, phase);
      assert log[i + 1] == rest[i];
      forall j | 0 <= j < i + 1 ensures !Matches(log[j], group, phase) {
        if j > 0 { assert log[j] == rest[j - 1]; }
      }
    } else {
      assert forall r :: r in rest ==> r in log;
    }
  }

  // ---- The guard, by the last records of the phases ----

  ghost predicate DoneIfBegun(log: seq<Record>, group: string, phase: Phase) {
    var r := LastOfPhase(log, group, phase);
    r.Some? ==> r.value.status == Applied
  }

  /** Expand always; later phases once the last expand is applied and what was begun in between is done. */
  ghost predicate Allowed(log: seq<Record>, group: string, phase: Phase) {
    || phase == Expand
    || (LastOfPhase(log, group, Expand).Some? && DoneIfBegun(log, group, Expand)
        && (phase == Switch || phase == Contract ==> DoneIfBegun(log, group, Backfill))
        && (phase == Contract ==> DoneIfBegun(log, group, Switch)))
  }

  lemma AllowedMeans(log: seq<Record>, group: string, phase: Phase)
    requires Chronological(log)
    ensures CanAdvanceToPhase(DeriveGroupState(log, group), phase) <==> Allowed(log, group, phase)
  {
    DerivedIsLast(log, group, Expand);
    DerivedIsLast(log, group, Backfill);
    DerivedIsLast(log, group, Switch);
  }

  lemma FailedExpandUndoes(log: seq<Record>, r: Record, group: string)
    requires Chronological(log + [r]) && Matches(r, group, Expand) && r.status != Applied
    ensures DeriveGroupState(log + [r], group).state == NotApplied
  {
    DerivedIsLast(log + [r], group, Expand);
    assert (log + [r])[..|log|] == log;
  }

  lemma RecordedLast(log: seq<Record>, r: Record, group: string, phase: Phase)
    requires Matches(r, group, phase)
    ensures LastOfPhase(log + [r], group, phase) == Some(r)
  {
  }

  datatype Command =
    | Advance(group: string, phase: Phase, report: Report)
    | ApplyPhase(group: string, phase: Phase, present: bool, checksum: string, succeeds: bool)

  /** The record a command adds to the log, if its guard lets it. */
  function Outcome(c: Command, log: seq<Record>, now: nat): Option<Record> {
    if !CanAdvanceToPhase(DeriveGroupState(log, c.group), c.phase) then None
    else match c
      case Advance(g, p, report) =>
        Some(Record(FindPhaseFileName(log, g, p), "", StatusOf(report), now, Some(p), Some(g)))
      case ApplyPhase(g, p, present, checksum, succeeds) =>
        if !present then None
        else Some(Record(PhaseFileName(g, p), checksum, if succeeds then Applied else Failed, now, Some(p), Some(g)))
  }

  function After(log: seq<Record>, r: Option<Record>): seq<Record> {
    if r.Some? then log + [r.value] else log
  }

  /** advance: refuses when prerequisite phases are not complete, else records the reported status. */
  method CommandAdvance(db: Db, group: string, phase: Phase, report: Report)
      returns (success: bool, previous: StateName, next: StateName)
    requires db.Valid()
    modifies db
    ensures db.Valid()
    ensures db.log == After(old(db.log), Outcome(Advance(group, phase, report), old(db.log), old(db.clock)))
    ensures success <==> Allowed(old(db.log), group, phase)
    ensures !success ==> db.log == old(db.log)
    ensures success ==> |db.log| == |old(db.log)| + 1 && db.log[..|old(db.log)|] == old(db.log)
    ensures success ==> var last := LastOfPhase(db.log, group, phase);
      && last == Some(db.log[|old(db.log)|])
      && IsAdvanceFile(old(db.log), group, phase, last.value.file) && last.value.checksum == ""
      && (report == ReportRunning ==> last.value.status == Running)
      && (report == ReportCompleted ==> last.value.status == Applied)
      && (report == ReportFailed ==> last.value.status == Failed)
    ensures success && phase == Expand && report != ReportCompleted ==> next == NotApplied
    ensures previous == DeriveGroupState(old(db.log), group).state
    ensures next == DeriveGroupState(db.log, group).state
  {
    var current := DeriveGroupState(db.log, group);
    previous := current.state;
    AllowedMeans(db.log, group, phase);
    if !CanAdvanceToPhase(current, phase) {
      return false, previous, previous;
    }
    FindsAdvanceFile(db.log, group, phase);
    db.InsertRecord(FindPhaseFileName(db.log, group, phase), "", StatusOf(report), Some(phase), Some(group));
    RecordedLast(old(db.log), db.log[|old(db.log)|], group, phase);
    if phase == Expand && report != ReportCompleted {
      FailedExpandUndoes(old(db.log), db.log[|old(db.log)|], group);
    }
    next := DeriveGroupState(db.log, group).state;
    success := true;
  }

  /** apply-phase: runs the phase file when it exists and its turn has come, and records the result. */
  method CommandApplyPhase(db: Db, group: string, phase: Phase, files: map<Name, string>, succeeds: bool)
      returns (success: bool)
    requires db.Valid()
    modifies db
    ensures db.Valid()
    ensures var file := PhaseFileName(group, phase);
      db.log == After(old(db.log), Outcome(
        ApplyPhase(group, phase, file in files, if file in files then files[file] else "", succeeds),
        old(db.log), old(db.clock)))
    ensures IsPhaseFile(PhaseFileName(group, phase), group, phase)
    ensures success <==> succeeds && Allowed(old(db.log), group, phase) && PhaseFileName(group, phase) in files
    ensures !Allowed(old(db.log), group, phase) || PhaseFileName(group, phase) !in files ==> db.log == old(db.log)
    ensures Allowed(old(db.log), group, phase) && PhaseFileName(group, phase) in files ==>
      var file := PhaseFileName(group, phase);
      var status := if succeeds then Applied else Failed;
      var r := Record(file, files[file], status, old(db.clock), Some(phase), Some(group));
      db.log == old(db.log) + [r] && LastOfPhase(db.log, group, phase) == Some(r)
    ensures phase == Expand && db.log != old(db.log) && !succeeds ==>
      DeriveGroupState(db.log, group).state == NotApplied
  {
    AllowedMeans(db.log, group, phase);
    var current := DeriveGroupState(db.log, group);
    if !CanAdvanceToPhase(current, phase) { return false; }
    var file := PhaseFileName(group, phase);
    if file !in files { return false; }
    db.InsertRecord(file, files[file], if succeeds then Applied else Failed, Some(phase), Some(group));
    RecordedLast(old(db.log), db.log[|old(db.log)|], group, phase);
    if phase == Expand && !succeeds { FailedExpandUndoes(old(db.log), db.log[|old(db.log)|], group); }
    success := succeeds;
  }

  /** The log after a run of commands, with the database clock counting inserts. */
  function RunLog(commands: seq<Command>): seq<Record> {
    if commands == [] then []
    else
      var log := RunLog(commands[..|commands| - 1]);
      After(log, Outcome(commands[|commands| - 1], log, |log|))
  }

  /** What may stand at position i, said of the positions before it. */
  ghost predicate InPhaseOrder(log: seq<Record>, i: nat)
    requires i < |log|
  {
    var r := log[i];
    r.group.Some? && r.phase.Some? &&
    var g := r.group.value;
    && (r.phase.value != Expand ==> LastBeforeIsApplied(log, i, g, Expand))
    && (r.phase.value in {Switch, Contract} && RecordedBefore(log, i, g, Backfill) ==>
         LastBeforeIsApplied(log, i, g, Backfill))
    && (r.phase.value == Contract && RecordedBefore(log, i, g, Switch) ==> LastBeforeIsApplied(log, i, g, Switch))
  }

  ghost predicate PhaseOrder(log: seq<Record>) {
    forall i :: 0 <= i < |log| ==> InPhaseOrder(log, i)
  }

  lemma PrefixKeepsPosition(log: seq<Record>, r: Record, i: nat)
    requires i < |log| && InPhaseOrder(log, i)
    ensures InPhaseOrder(log + [r], i)
  {
    var more := log + [r];
    assert forall k :: 0 <= k < |log| ==> more[k] == log[k];
    forall g, p ensures RecordedBefore(more, i, g, p) ==> RecordedBefore(log, i, g, p) {
      if RecordedBefore(more, i, g, p) {
        var j :| 0 <= j < i && Matches(more[j], g, p);
        assert Matches(log[j], g, p);
      }
    }
    forall g, p | LastBeforeIsApplied(log, i, g, p) ensures LastBeforeIsApplied(more, i, g, p) {
      var j: nat :| IsLastBefore(log, i, j, g, p) && log[j].status == Applied;
      assert IsLastBefore(more, i, j, g, p);
    }
  }

  lemma AppliedAtLastPosition(log: seq<Record>, r: Record, g: string, p: Phase)
    requires Chronological(log)
    ensures HasStatus(DeriveGroupState(log, g).PhaseRecord(p), Applied) ==> LastBeforeIsApplied(log + [r], |log|, g, p)
    ensures DeriveGroupState(log, g).PhaseRecord(p).None? ==> !RecordedBefore(log + [r], |log|, g, p)
  {
    DerivedIsLast(log, g, p);
    var j := LastOfPhaseIsAt(log, g, p);
    var more := log + [r];
    assert forall k :: 0 <= k < |log| ==> more[k] == log[k];
    if HasStatus(LastOfPhase(log, g, p), Applied) {
      assert IsLastBefore(more, |log|, j, g, p);
    }
  }

  lemma NewRecordInOrder(log: seq<Record>, c: Command, now: nat)
    requires Chronological(log) && Outcome(c, log, now).Some?
    ensures InPhaseOrder(log + [Outcome(c, log, now).value], |log|)
  {
    var r := Outcome(c, log, now).value;
    AppliedAtLastPosition(log, r, c.group, Expand);
    AppliedAtLastPosition(log, r, c.group, Backfill);
    AppliedAtLastPosition(log, r, c.group, Switch);
  }

  lemma {:induction false} RunIsChronological(commands: seq<Command>)
    ensures Chronological(RunLog(commands))
    ensures forall k :: 0 <= k < |RunLog(commands)| ==> RunLog(commands)[k].appliedAt == k
  {
    if commands != [] { RunIsChronological(commands[..|commands| - 1]); }
  }

  /**
   * Whatever commands are given, for whatever groups and in whatever order: each later phase is
   * recorded only while the group's last expand is applied, switch and contract only while the
   * last backfill, if any, is applied, and contract only while the last switch, if any, is.
   */
  lemma {:induction false} EveryRunKeepsPhaseOrder(commands: seq<Command>)
    ensures PhaseOrder(RunLog(commands))
  {
    if commands != [] {
      var before, c := commands[..|commands| - 1], commands[|commands| - 1];
      EveryRunKeepsPhaseOrder(before);
      RunIsChronological(before);
      var log := RunLog(before);
      var r := Outcome(c, log, |log|);
      if r.Some? {
        NewRecordInOrder(log, c, |log|);
        forall i | 0 <= i < |log| ensures InPhaseOrder(log + [r.value], i) {
          PrefixKeepsPosition(log, r.value, i);
        }
      }
    }
  }

  // ---- A completed group is not terminal ----

  lemma LastOfPhaseAppend(log: seq<Record>, r: Record, g: string, p: Phase)
    ensures LastOfPhase(log + [r], g, p) == if Matches(r, g, p) then Some(r) else LastOfPhase(log, g, p)
  {
    assert (log + [r])[..|log|] == log;
  }

  /**
   * docs/expand-contract.md calls contract_completed terminal. In the code a completed group stays
   * completed exactly when the added record is not an unsuccessful expand or contract of that group.
   */
  lemma StaysCompletedExactlyWhen(log: seq<Record>, r: Record, g: string)
    requires Chronological(log + [r])
    requires DeriveGroupState(log, g).state == ContractCompleted
    ensures DeriveGroupState(log + [r], g).state == ContractCompleted <==>
      (Matches(r, g, Expand) || Matches(r, g, Contract) ==> r.status == Applied)
  {
    assert (log + [r])[..|log|] == log;
    ChronologicalSplit(log + [r]);
    CompletedMeans(log, g);
    CompletedMeans(log + [r], g);
    LastOfPhaseAppend(log, r, g, Expand);
    LastOfPhaseAppend(log, r, g, Contract);
  }

  /** From a completed group, reporting expand as failed is accepted and reopens everything. */
  lemma CompletedGroupCanBeReopened(log: seq<Record>, g: string, now: nat)
    requires Chronological(log) && (forall r :: r in log ==> r.appliedAt < now)
    requires DeriveGroupState(log, g).state == ContractCompleted
    ensures var r := Outcome(Advance(g, Expand, ReportFailed), log, now);
      r.Some? && DeriveGroupState(log + [r.value], g).state == NotApplied
  {
    var r := Outcome(Advance(g, Expand, ReportFailed), log, now).value;
    ChronologicalAppend(log, r);
    FailedExpandUndoes(log, r, g);
  }
}
