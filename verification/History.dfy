/**
 * Resolve (src/commands/resolve.ts:10-44), and what the log obeys over every sequence of edits,
 * new files, applies and resolves (docs/state-model.md:3-30, 45-65, 96-105).
 */
module History {
  import opened Names
  import opened Options
  import opened Records
  import opened Apply
  import opened ApplyLaws
  import opened ApplyOutcomes

  datatype ResolveResult = Resolved | NoRecords | NotFailed(status: Status)

  /** The record that resolve adds: the latest one must have failed, and its checksum is kept. */
  function ResolveRecord(log: seq<Record>, file: Name, now: nat): Option<Record> {
    match Latest(OfFile(log, file))
    case None => None
    case Some(r) => if r.status == Failed then Some(Record(file, r.checksum, Skipped, now, None, None)) else None
  }

  method CommandResolve(db: Db, file: Name) returns (result: ResolveResult)
    requires db.Valid()
    modifies db
    ensures db.Valid()
    ensures var r := ResolveRecord(old(db.log), file, old(db.clock));
      db.log == (if r.Some? then old(db.log) + [r.value] else old(db.log)) && (result.Resolved? <==> r.Some?)
    ensures result.Resolved? <==>
      var last := LastOfFile(old(db.log), file); last.Some? && last.value.status == Failed
    ensures result.Resolved? ==>
      var r := Record(file, LastOfFile(old(db.log), file).value.checksum, Skipped, old(db.clock), None, None);
      db.log == old(db.log) + [r] && LastOfFile(db.log, file) == Some(r)
    ensures !result.Resolved? ==> db.log == old(db.log)
    ensures result.NoRecords? <==> forall r :: r in old(db.log) ==> r.file != file
    ensures result.NotFailed? ==>
      var last := LastOfFile(old(db.log), file); last.Some? && last.value.status == result.status != Failed
  {
    LatestOfFile(db.log, file);
    OfFileIsChronological(db.log, file);
    var records := OfFile(db.log, file);
    if |records| == 0 { return NoRecords; }
    var latestRecord := Latest(records).value;
    if latestRecord.status != Failed { return NotFailed(latestRecord.status); }
    db.InsertRecord(file, latestRecord.checksum, Skipped, None, None);
    LastOfFileAppend(old(db.log), db.log[|old(db.log)|], file);
    result := Resolved;
  }

  /** After a resolve, a run of apply on any disk skips the file when its turn comes, and adds no record for it. */
  lemma ResolveMeansSkip(log: seq<Record>, file: Name, now: nat, d: Disk, clock: nat, order: seq<Name>, i: nat,
                         ok: nat -> bool)
    requires WellClocked(log, now) && LastIs(log, file, Failed)
    requires (forall x :: x in order ==> x in d.checksums) && i < |order| && order[i] == file
    ensures var r := Record(file, LastOfFile(log, file).value.checksum, Skipped, now, None, None);
      var p := After(d, log + [r], clock, order[..i], ok);
      && SameFor(log + [r], After(d, log + [r], clock, order, ok).run.log, file)
      && (TurnComes(p, file) ==>
           After(d, log + [r], clock, order[..i + 1], ok) == p.(run := p.run.(skipped := p.run.skipped + [file])))
  {
    var r := Record(file, LastOfFile(log, file).value.checksum, Skipped, now, None, None);
    AppendClocked(log, now, r);
    LastOfFileAppend(log, r, file);
    ResolvedFileIsSkipped(d, log + [r], clock, order, i, ok);
  }

  // ---- Runs ----

  /** Between two commands the disk may change in any way: each apply brings its own. */
  datatype Event = ApplyRun(d: Disk, order: seq<Name>, ok: nat -> bool) | ResolveFile(file: Name)

  ghost predicate ValidEvent(e: Event) {
    e.ApplyRun? ==> e.d.Valid() && IsOrder(e.d, e.order) && forall f :: f in e.order ==> f in e.d.checksums
  }

  ghost function LogAfterEvent(log: seq<Record>, e: Event): seq<Record>
    requires ValidEvent(e)
  {
    match e
    case ApplyRun(d, order, ok) => After(d, log, |log|, order, ok).run.log
    case ResolveFile(file) =>
      var r := ResolveRecord(log, file, |log|);
      if r.Some? then log + [r.value] else log
  }

  ghost predicate ValidEvents(events: seq<Event>) {
    forall k :: 0 <= k < |events| ==> ValidEvent(events[k])
  }

  /** The log after the events, from an empty one; the clock counts the records. */
  ghost function LogOf(events: seq<Event>): seq<Record>
    requires ValidEvents(events)
  {
    if events == [] then [] else LogAfterEvent(LogOf(events[..|events| - 1]), events[|events| - 1])
  }

  /** What a record may look like, given the records before it. */
  ghost predicate MayFollow(log: seq<Record>, r: Record) {
    var previous := LastOfFile(log, r.file);
    && r.status != Running
    && (r.status == Skipped ==>
         previous.Some? && previous.value.status == Failed && previous.value.checksum == r.checksum)
    && (previous.Some? ==> previous.value.status != Skipped)
    && (previous.Some? && previous.value.status == Applied ==>
         forall s :: s in log && s.file == r.file ==> s.checksum != r.checksum)
  }

  ghost predicate Lawful(log: seq<Record>) {
    forall i :: 0 <= i < |log| ==> MayFollow(log[..i], log[i])
  }

  /** The clock counts the records. */
  ghost predicate Counted(log: seq<Record>) {
    forall i :: 0 <= i < |log| ==> log[i].appliedAt == i
  }

  lemma CountedIsClocked(log: seq<Record>)
    requires Counted(log)
    ensures WellClocked(log, |log|)
  {
  }

  lemma LawfulAppend(log: seq<Record>, r: Record)
    requires Lawful(log) && MayFollow(log, r)
    ensures Lawful(log + [r])
  {
    var more := log + [r];
    forall i | 0 <= i < |more| ensures MayFollow(more[..i], more[i]) {
      if i < |log| { assert more[..i] == log[..i]; } else { assert more[..i] == log; }
    }
  }

  lemma {:induction false} LastIsNotRunning(log: seq<Record>, f: Name)
    requires Lawful(log)
    ensures LastOfFile(log, f).Some? ==> LastOfFile(log, f).value.status != Running
  {
    if LastOfFile(log, f).Some? {
      var r := LastOfFile(log, f).value;
      var i :| 0 <= i < |log| && log[i] == r;
      assert MayFollow(log[..i], log[i]);
    }
  }

  /** What apply executes may follow what the log already says of the file. */
  lemma ExecutionIsLawful(d: Disk, log0: seq<Record>, log: seq<Record>, f: Name, status: Status, now: nat)
    requires f in d.checksums && Chronological(log0) && Lawful(log0)
    requires SameFor(log0, log, f) && (forall s :: s in log && s.file == f ==> s in OfFile(log0, f))
    requires DecisionFor(d, log0, f).Execute? && (status == Applied || status == Failed)
    ensures MayFollow(log, Record(f, d.checksums[f], status, now, None, None))
  {
    LatestOfFile(log0, f);
    LastIsNotRunning(log0, f);
    var latest := LastOfFile(log0, f);
    if latest.Some? && latest.value.status == Applied {
      forall s | s in log && s.file == f ensures s.checksum != d.checksums[f] {
        assert s in OfFile(log0, f);
        if s != latest.value { assert s.checksum in PastChecksums(OfFile(log0, f), latest.value); }
      }
    }
  }

  lemma SameForMembers(log0: seq<Record>, log: seq<Record>, f: Name)
    requires Chronological(log) && SameFor(log0, log, f)
    ensures forall s :: s in log && s.file == f ==> s in OfFile(log0, f)
  {
    OfFileIsChronological(log, f);
  }

  ghost predicate GoodLog(log: seq<Record>, clock: nat) {
    Lawful(log) && WellClocked(log, clock)
  }

  lemma StepIsLawful(d: Disk, log0: seq<Record>, p: Progress, f: Name, ok: nat -> bool)
    requires f in d.checksums && GoodLog(log0, |log0|)
    requires GoodLog(p.run.log, p.run.clock) && SameFor(log0, p.run.log, f)
    ensures Lawful(StepFile(d, log0, p, f, ok).run.log)
  {
    if !p.stopped && f !in p.blockedSet && DecisionFor(d, log0, f).Execute? {
      var status := if ok(|p.run.log|) then Applied else Failed;
      SameForMembers(log0, p.run.log, f);
      ExecutionIsLawful(d, log0, p.run.log, f, status, p.run.clock);
      LawfulAppend(p.run.log, Record(f, d.checksums[f], status, p.run.clock, None, None));
    }
  }

  lemma {:induction false} RunIsLawful(d: Disk, log0: seq<Record>, order: seq<Name>, ok: nat -> bool)
    requires Distinct(order) && (forall x :: x in order ==> x in d.checksums)
    requires GoodLog(log0, |log0|)
    ensures Lawful(After(d, log0, |log0|, order, ok).run.log)
  {
    if order != [] {
      var init, last := order[..|order| - 1], order[|order| - 1];
      assert last in order && last !in init;
      RunIsLawful(d, log0, init, ok);
      RunExtendsLog(d, log0, |log0|, init, ok);
      OthersUntouched(d, log0, |log0|, init, ok, last);
      StepIsLawful(d, log0, After(d, log0, |log0|, init, ok), last, ok);
    }
  }

  lemma StepIsCounted(d: Disk, log0: seq<Record>, p: Progress, f: Name, ok: nat -> bool)
    requires f in d.checksums && Counted(p.run.log) && p.run.clock == |p.run.log|
    ensures var q := StepFile(d, log0, p, f, ok); Counted(q.run.log) && q.run.clock == |q.run.log|
  {
    StepAppends(d, log0, p, f, ok);
  }

  lemma {:induction false} RunIsCounted(d: Disk, log0: seq<Record>, order: seq<Name>, ok: nat -> bool)
    requires forall x :: x in order ==> x in d.checksums
    requires Counted(log0)
    ensures var p := After(d, log0, |log0|, order, ok); Counted(p.run.log) && p.run.clock == |p.run.log|
  {
    if order != [] {
      var init, last := order[..|order| - 1], order[|order| - 1];
      assert last in order;
      RunIsCounted(d, log0, init, ok);
      StepIsCounted(d, log0, After(d, log0, |log0|, init, ok), last, ok);
    }
  }

  lemma ResolveIsLawful(log: seq<Record>, file: Name)
    requires Lawful(log) && Counted(log)
    ensures Lawful(LogAfterEvent(log, ResolveFile(file))) && Counted(LogAfterEvent(log, ResolveFile(file)))
  {
    CountedIsClocked(log);
    LatestOfFile(log, file);
    var r := ResolveRecord(log, file, |log|);
    if r.Some? { LawfulAppend(log, r.value); }
  }

  /**
   * Over every sequence of events, for every file: a skipped record directly follows a failed one
   * and carries its checksum; nothing follows a skipped record; and a record that directly
   * follows an applied one carries a checksum the file never had before.
   */
  lemma {:induction false} EveryHistoryIsLawful(events: seq<Event>)
    requires ValidEvents(events)
    ensures Lawful(LogOf(events)) && Counted(LogOf(events))
  {
    if events != [] {
      var before, e := events[..|events| - 1], events[|events| - 1];
      EveryHistoryIsLawful(before);
      var log := LogOf(before);
      CountedIsClocked(log);
      match e {
        case ApplyRun(d, order, ok) =>
          OrderListsFiles(d, order);
          RunIsLawful(d, log, order, ok);
          RunIsCounted(d, log, order, ok);
        case ResolveFile(file) => ResolveIsLawful(log, file);
      }
    }
  }

  // ---- Who may be executed again ----

  /** The records a run adds are for files on disk, and repeats only for the tail or a leaf. */
  ghost predicate AddedByRun(d: Disk, log0: seq<Record>, order: seq<Name>, log: seq<Record>) {
    && log0 <= log
    && forall i :: |log0| <= i < |log| ==>
      log[i].file in order && (LastOfFile(log0, log[i].file).Some? ==> Editable(d, log[i].file))
  }

  ghost predicate NoFileTwice(log0: seq<Record>, log: seq<Record>) {
    forall i, j :: |log0| <= i < j < |log| ==> log[i].file != log[j].file
  }

  lemma StepAdds(d: Disk, log0: seq<Record>, order: seq<Name>, p: Progress, f: Name, ok: nat -> bool)
    requires f in d.checksums && Chronological(log0) && f !in order
    requires AddedByRun(d, log0, order, p.run.log) && NoFileTwice(log0, p.run.log)
    ensures var q := StepFile(d, log0, p, f, ok);
      AddedByRun(d, log0, order + [f], q.run.log) && NoFileTwice(log0, q.run.log)
  {
    LatestOfFile(log0, f);
    StepAppends(d, log0, p, f, ok);
    var q := StepFile(d, log0, p, f, ok);
    if |q.run.log| > |p.run.log| {
      assert q.run.log == p.run.log + [q.run.log[|p.run.log|]];
      assert DecisionFor(d, log0, f).Execute?;
    } else {
      assert q.run.log == p.run.log;
    }
  }

  lemma {:induction false} RunAdds(d: Disk, log0: seq<Record>, clock: nat, order: seq<Name>, ok: nat -> bool)
    requires Distinct(order) && (forall x :: x in order ==> x in d.checksums) && Chronological(log0)
    ensures var log := After(d, log0, clock, order, ok).run.log;
      AddedByRun(d, log0, order, log) && NoFileTwice(log0, log)
  {
    if order != [] {
      var init, last := order[..|order| - 1], order[|order| - 1];
      assert last in order && last !in init;
      assert order == init + [last];
      RunAdds(d, log0, clock, init, ok);
      StepAdds(d, log0, init, After(d, log0, clock, init, ok), last, ok);
    }
  }

  /**
   * At any point of any history: an apply executes each file at most once, and executes a file
   * that already has records only while it is the tail (linear mode) or a leaf (DAG mode).
   */
  lemma RepeatsOnlyWhileEditable(events: seq<Event>, k: nat)
    requires ValidEvents(events) && k < |events| && events[k].ApplyRun?
    ensures var log0, log, d := LogOf(events[..k]), LogOf(events[..k + 1]), events[k].d;
      AddedByRun(d, log0, d.files, log) && NoFileTwice(log0, log)
  {
    var before := events[..k];
    assert events[..k + 1][..k] == before;
    EveryHistoryIsLawful(before);
    CountedIsClocked(LogOf(before));
    OrderListsFiles(events[k].d, events[k].order);
    RunAdds(events[k].d, LogOf(before), |LogOf(before)|, events[k].order, events[k].ok);
  }
}
