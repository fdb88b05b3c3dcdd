/** The insert-only schema_migrations log (src/db.ts:31-61, 179-203). */
module Records {
  import opened Names
  import opened Options

  datatype Status = Applied | Failed | Skipped | Running
  datatype Phase = Expand | Backfill | Switch | Contract

  datatype Record = Record(file: Name, checksum: string, status: Status, appliedAt: nat,
                           phase: Option<Phase>, group: Option<string>)

  /** reduce((latest, r) => r.appliedAt > latest.appliedAt ? r : latest), from a given record on. */
  function LatestFrom(latest: Record, rest: seq<Record>): Record
    decreases |rest|
  {
    if rest == [] then latest
    else LatestFrom(if rest[0].appliedAt > latest.appliedAt then rest[0] else latest, rest[1..])
  }

  /** getLatestRecord (src/commands/apply.ts:31-36); also src/group-state.ts:37-39. */
  function Latest(records: seq<Record>): Option<Record> {
    if records == [] then None else Some(LatestFrom(records[0], records[1..]))
  }

  ghost predicate IsFirstGreatest(records: seq<Record>, i: nat) {
    && i < |records|
    && (forall j :: 0 <= j < i ==> records[j].appliedAt < records[i].appliedAt)
    && (forall j :: i < j < |records| ==> records[j].appliedAt <= records[i].appliedAt)
  }

  lemma {:induction false} LatestFromIsFirstGreatest(seen: seq<Record>, latest: Record, rest: seq<Record>, i: nat)
      returns (k: nat)
    requires IsFirstGreatest(seen, i) && seen[i] == latest
    ensures IsFirstGreatest(seen + rest, k) && (seen + rest)[k] == LatestFrom(latest, rest)
    decreases |rest|
  {
    if rest == [] {
      k := i;
      assert seen + rest == seen;
    } else {
      var more := seen + [rest[0]];
      assert seen + rest == more + rest[1..];
      if rest[0].appliedAt > latest.appliedAt {
        k := LatestFromIsFirstGreatest(more, rest[0], rest[1..], |seen|);
      } else {
        k := LatestFromIsFirstGreatest(more, latest, rest[1..], i);
      }
    }
  }

  /** Among records with the greatest time, the reduction keeps the one listed first. */
  lemma LatestIsFirstGreatest(records: seq<Record>) returns (k: nat)
    requires records != []
    ensures IsFirstGreatest(records, k) && Latest(records) == Some(records[k])
  {
    assert records == [records[0]] + records[1..];
    k := LatestFromIsFirstGreatest([records[0]], records[0], records[1..], 0);
  }

  /** Every record is later than the ones before it. */
  ghost predicate Chronological(log: seq<Record>) {
    forall i, j :: 0 <= i < j < |log| ==> log[i].appliedAt < log[j].appliedAt
  }

  /** In chronological order the latest record is the last one. */
  lemma LatestIsLast(records: seq<Record>)
    requires Chronological(records) && records != []
    ensures Latest(records) == Some(records[|records| - 1])
  {
    var k := LatestIsFirstGreatest(records);
    assert records[k].appliedAt <= records[|records| - 1].appliedAt;
  }

  /** Two records made at one moment: the earlier row wins, so the later one is not "latest". */
  lemma TiesKeepTheEarlierRow(r: Record, s: Record)
    requires r.appliedAt == s.appliedAt
    ensures Latest([r, s]) == Some(r)
  {
    assert [r, s][1..] == [s];
    assert LatestFrom(r, [s]) == LatestFrom(r, [s][1..]);
  }

  // ---- Selections ----

  predicate Matches(r: Record, group: string, phase: Phase) {
    r.group == Some(group) && r.phase == Some(phase)
  }

  function OfGroup(log: seq<Record>, group: string): seq<Record> {
    if log == [] then []
    else OfGroup(log[..|log| - 1], group) + if log[|log| - 1].group == Some(group) then [log[|log| - 1]] else []
  }

  function OfPhase(log: seq<Record>, phase: Phase): seq<Record> {
    if log == [] then []
    else OfPhase(log[..|log| - 1], phase) + if log[|log| - 1].phase == Some(phase) then [log[|log| - 1]] else []
  }

  function OfFile(log: seq<Record>, file: Name): seq<Record> {
    if log == [] then []
    else OfFile(log[..|log| - 1], file) + if log[|log| - 1].file == file then [log[|log| - 1]] else []
  }

  /** The last record of the log for a file, if any. */
  function LastOfFile(log: seq<Record>, file: Name): (r: Option<Record>)
    ensures r.Some? ==> r.value in log && r.value.file == file
    ensures r.None? ==> forall s :: s in log ==> s.file != file
  {
    if log == [] then None
    else if log[|log| - 1].file == file then Some(log[|log| - 1])
    else
      assert log == log[..|log| - 1] + [log[|log| - 1]];
      LastOfFile(log[..|log| - 1], file)
  }

  lemma {:induction false} OfFileIsChronological(log: seq<Record>, file: Name)
    requires Chronological(log)
    ensures Chronological(OfFile(log, file))
    ensures forall r :: r in OfFile(log, file) <==> r in log && r.file == file
    ensures OfFile(log, file) == [] ==> LastOfFile(log, file) == None
    ensures OfFile(log, file) != [] ==> LastOfFile(log, file) == Some(OfFile(log, file)[|OfFile(log, file)| - 1])
  {
    if log != [] {
      var init, last := log[..|log| - 1], log[|log| - 1];
      assert log == init + [last];
      OfFileIsChronological(init, file);
      forall r | r in init ensures r.appliedAt < last.appliedAt { }
    }
  }

  /** On a chronological log, getLatestRecord of a file's records is the file's last record. */
  lemma LatestOfFile(log: seq<Record>, file: Name)
    requires Chronological(log)
    ensures Latest(OfFile(log, file)) == LastOfFile(log, file)
  {
    OfFileIsChronological(log, file);
    if OfFile(log, file) != [] { LatestIsLast(OfFile(log, file)); }
  }

  /** The last record of the log for a phase of a group, if any. */
  function LastOfPhase(log: seq<Record>, group: string, phase: Phase): Option<Record> {
    if log == [] then None
    else if Matches(log[|log| - 1], group, phase) then Some(log[|log| - 1])
    else LastOfPhase(log[..|log| - 1], group, phase)
  }

  /** The records of one phase of a group, as latestRecordForPhase selects them. */
  function PhaseRecords(log: seq<Record>, group: string, phase: Phase): seq<Record> {
    OfPhase(OfGroup(log, group), phase)
  }

  lemma PhaseRecordsStep(log: seq<Record>, r: Record, group: string, phase: Phase)
    ensures PhaseRecords(log + [r], group, phase)
      == PhaseRecords(log, group, phase) + if Matches(r, group, phase) then [r] else []
  {
    assert (log + [r])[..|log|] == log;
    var sel := OfGroup(log, group);
    assert (sel + [r])[..|sel|] == sel;
    assert sel + [] == sel;
  }

  lemma ChronologicalAppend(s: seq<Record>, r: Record)
    requires Chronological(s) && forall x :: x in s ==> x.appliedAt < r.appliedAt
    ensures Chronological(s + [r])
  {
  }

  lemma ChronologicalSplit(log: seq<Record>)
    requires Chronological(log) && log != []
    ensures Chronological(log[..|log| - 1])
    ensures forall x :: x in log[..|log| - 1] ==> x.appliedAt < log[|log| - 1].appliedAt
  {
  }

  lemma {:induction false} SelectedPhase(log: seq<Record>, group: string, phase: Phase)
    requires Chronological(log)
    ensures var sel := PhaseRecords(log, group, phase);
      && Chronological(sel)
      && (forall r :: r in sel ==> r in log)
      && LastOfPhase(log, group, phase) == if sel == [] then None else Some(sel[|sel| - 1])
  {
    if log != [] {
      var init, last := log[..|log| - 1], log[|log| - 1];
      assert log == init + [last];
      ChronologicalSplit(log);
      SelectedPhase(init, group, phase);
      PhaseRecordsStep(init, last, group, phase);
      if Matches(last, group, phase) { ChronologicalAppend(PhaseRecords(init, group, phase), last); }
    }
  }

  /** On a chronological log, latestRecordForPhase is the phase's last record. */
  lemma LatestOfPhase(log: seq<Record>, group: string, phase: Phase)
    requires Chronological(log)
    ensures Latest(PhaseRecords(log, group, phase)) == LastOfPhase(log, group, phase)
  {
    SelectedPhase(log, group, phase);
    var sel := PhaseRecords(log, group, phase);
    if sel != [] { LatestIsLast(sel); }
  }

  /** The database adapter: rows are only ever added, each later than the ones before. */
  class Db {
    var log: seq<Record>
    var clock: nat

    ghost predicate Valid() reads this {
      Chronological(log) && forall r :: r in log ==> r.appliedAt < clock
    }

    constructor ()
      ensures Valid() && log == []
    {
      log, clock := [], 0;
    }

    method InsertRecord(file: Name, checksum: string, status: Status, phase: Option<Phase>, group: Option<string>)
      requires Valid()
      modifies this
      ensures Valid() && clock == old(clock) + 1
      ensures log == old(log) + [Record(file, checksum, status, old(clock), phase, group)]
    {
      log := log + [Record(file, checksum, status, clock, phase, group)];
      clock := clock + 1;
    }
  }
}
