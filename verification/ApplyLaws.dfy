/** What every run of apply keeps (README.md:31-33, 190, 634; docs/state-model.md:45-65). */
module ApplyLaws {
  import opened Names
  import opened Graphs
  import opened Options
  import opened Records
  import opened Dependents
  import opened Apply

  // ---- The log during a run ----

  lemma LastOfFileAppend(log: seq<Record>, r: Record, f: Name)
    ensures LastOfFile(log + [r], f) == if r.file == f then Some(r) else LastOfFile(log, f)
    ensures OfFile(log + [r], f) == OfFile(log, f) + if r.file == f then [r] else []
  {
    assert (log + [r])[..|log|] == log;
  }

  ghost predicate SameFor(log: seq<Record>, log': seq<Record>, f: Name) {
    OfFile(log, f) == OfFile(log', f) && LastOfFile(log, f) == LastOfFile(log', f)
  }

  lemma StepAppends(d: Disk, log0: seq<Record>, p: Progress, file: Name, ok: nat -> bool)
    requires file in d.checksums
    ensures var q := StepFile(d, log0, p, file, ok);
      && p.run.log <= q.run.log
      && |q.run.log| <= |p.run.log| + 1
      && (|q.run.log| == |p.run.log| + 1 ==>
           q.run.log[|p.run.log|].file == file && q.run.log[|p.run.log|].appliedAt == p.run.clock
           && q.run.log[|p.run.log|].checksum == d.checksums[file]
           && q.run.clock == p.run.clock + 1)
      && (|q.run.log| == |p.run.log| ==> q.run.clock == p.run.clock)
  {
  }

  lemma StepKeepsOthers(d: Disk, log0: seq<Record>, p: Progress, file: Name, ok: nat -> bool, f: Name)
    requires file in d.checksums && f != file
    ensures SameFor(p.run.log, StepFile(d, log0, p, file, ok).run.log, f)
  {
    StepAppends(d, log0, p, file, ok);
    var q := StepFile(d, log0, p, file, ok);
    if |q.run.log| > |p.run.log| {
      assert q.run.log == p.run.log + [q.run.log[|p.run.log|]];
      LastOfFileAppend(p.run.log, q.run.log[|p.run.log|], f);
      assert OfFile(p.run.log, f) + [] == OfFile(p.run.log, f);
    } else {
      assert q.run.log == p.run.log;
    }
  }

  /** Files not yet reached have the records they had at the start. */
  lemma {:induction false} OthersUntouched(d: Disk, log0: seq<Record>, clock: nat, order: seq<Name>, ok: nat -> bool,
                                           f: Name)
    requires forall x :: x in order ==> x in d.checksums
    requires f !in order
    ensures SameFor(log0, After(d, log0, clock, order, ok).run.log, f)
  {
    if order != [] {
      var init, last := order[..|order| - 1], order[|order| - 1];
      assert last in order;
      OthersUntouched(d, log0, clock, init, ok, f);
      StepKeepsOthers(d, log0, After(d, log0, clock, init, ok), last, ok, f);
    }
  }

  ghost predicate WellClocked(log: seq<Record>, clock: nat) {
    Chronological(log) && forall r :: r in log ==> r.appliedAt < clock
  }

  lemma AppendClocked(log: seq<Record>, clock: nat, r: Record)
    requires WellClocked(log, clock) && r.appliedAt == clock
    ensures WellClocked(log + [r], clock + 1)
  {
    ChronologicalAppend(log, r);
  }

  /** Every run only extends the log. */
  lemma {:induction false} RunExtendsLog(d: Disk, log0: seq<Record>, clock: nat, order: seq<Name>, ok: nat -> bool)
    requires forall x :: x in order ==> x in d.checksums
    requires WellClocked(log0, clock)
    ensures var p := After(d, log0, clock, order, ok);
      log0 <= p.run.log && WellClocked(p.run.log, p.run.clock)
  {
    if order != [] {
      var init, last := order[..|order| - 1], order[|order| - 1];
      assert last in order;
      RunExtendsLog(d, log0, clock, init, ok);
      var p := After(d, log0, clock, init, ok);
      StepAppends(d, log0, p, last, ok);
      var q := StepFile(d, log0, p, last, ok);
      if |q.run.log| > |p.run.log| {
        assert q.run.log == p.run.log + [q.run.log[|p.run.log|]];
        AppendClocked(p.run.log, p.run.clock, q.run.log[|p.run.log|]);
      } else {
        assert q.run.log == p.run.log;
      }
    }
  }

  // ---- What a file's turn leads to ----

  /** The file needs nothing more: resolved, or its latest record carries the current checksum and is no failure. */
  ghost predicate UpToDate(log: seq<Record>, f: Name, checksum: string) {
    var r := LastOfFile(log, f);
    r.Some? && (r.value.status == Skipped || (r.value.status != Failed && r.value.checksum == checksum))
  }

  ghost predicate Errored(run: Run, f: Name) {
    exists k :: 0 <= k < |run.errors| && run.errors[k].0 == f
  }

  /** A file reached with the records it had at the start ends blocked, in error, or up to date. */
  lemma TurnEnds(d: Disk, log0: seq<Record>, p: Progress, file: Name, ok: nat -> bool)
    requires file in d.checksums && Chronological(log0) && !p.stopped
    requires SameFor(log0, p.run.log, file) && file !in p.blockedSet
    ensures var q := StepFile(d, log0, p, file, ok);
      && (q.run.errors == p.run.errors ==>
           UpToDate(q.run.log, file, d.checksums[file]) && q.blockedSet == p.blockedSet && !q.stopped)
      && (q.run.errors != p.run.errors ==>
           |q.run.errors| == |p.run.errors| + 1 && q.run.errors[..|p.run.errors|] == p.run.errors
           && q.run.errors[|p.run.errors|].0 == file
           && q.stopped == !d.dag
           && q.blockedSet == p.blockedSet + if d.dag then DependentClosure(d.DependencyGraph(), file) else {})
  {
    var q := StepFile(d, log0, p, file, ok);
    TurnErrors(d, log0, p, file, ok);
    if q.run.errors == p.run.errors { TurnSettles(d, log0, p, file, ok); }
  }

  lemma TurnErrors(d: Disk, log0: seq<Record>, p: Progress, file: Name, ok: nat -> bool)
    requires file in d.checksums && !p.stopped && file !in p.blockedSet
    ensures var q := StepFile(d, log0, p, file, ok); var n := |p.run.errors|;
      if !IsError(DecisionFor(d, log0, file), ok(|p.run.log|)) then
        q.run.errors == p.run.errors && q.blockedSet == p.blockedSet && !q.stopped
      else
        && |q.run.errors| == n + 1 && q.run.errors[..n] == p.run.errors && q.run.errors[n].0 == file
        && q.stopped == !d.dag
        && q.blockedSet == p.blockedSet + if d.dag then DependentClosure(d.DependencyGraph(), file) else {}
  {
  }

  lemma TurnSettles(d: Disk, log0: seq<Record>, p: Progress, file: Name, ok: nat -> bool)
    requires file in d.checksums && Chronological(log0) && !p.stopped && file !in p.blockedSet
    requires SameFor(log0, p.run.log, file)
    requires !IsError(DecisionFor(d, log0, file), ok(|p.run.log|))
    ensures UpToDate(StepFile(d, log0, p, file, ok).run.log, file, d.checksums[file])
  {
    LatestOfFile(log0, file);
    if DecisionFor(d, log0, file).Execute? {
      LastOfFileAppend(p.run.log, Record(file, d.checksums[file], Applied, p.run.clock, None, None), file);
    }
  }

  // ---- DAG mode without cycles ----

  ghost predicate Blocked(d: Disk, run: Run, x: Name) {
    x in d.files && exists e :: Errored(run, e) && Reaches(d.DependencyGraph(), x, e)
  }

  /** What holds after the files of done have had their turn. */
  ghost predicate DagState(d: Disk, done: seq<Name>, p: Progress) {
    && !p.stopped
    && (forall e :: Errored(p.run, e) ==> e in done && e !in p.blockedSet)
    && (forall x :: x in p.blockedSet <==> Blocked(d, p.run, x))
    && (forall x :: x in p.run.blocked <==> x in done && x in p.blockedSet)
    && (forall x :: x in done && x in d.checksums ==>
         x in p.blockedSet || Errored(p.run, x) || UpToDate(p.run.log, x, d.checksums[x]))
  }

  lemma DependenciesComeFirst(g: Graph, order: seq<Name>, i: nat, y: Name)
    requires IsDependencyOrder(g, order) && i < |order| && Reaches(g, order[i], y)
    ensures y in order[..i]
  {
    var p :| IsChain(g, p, order[i], y);
    WalkDescends(g, order, p, i);
  }

  lemma DependentsComeLater(g: Graph, order: seq<Name>, i: nat, x: Name)
    requires IsDependencyOrder(g, order) && i < |order| && Reaches(g, x, order[i])
    ensures x !in order[..i + 1]
  {
    forall k | 0 <= k < i + 1 ensures order[k] != x {
      if order[k] == x { DependenciesComeFirst(g, order, k, order[i]); }
    }
  }

  lemma ErroredAppend(run: Run, run': Run, f: Name, kind: ErrorKind)
    requires run'.errors == run.errors + [(f, kind)]
    ensures forall e :: Errored(run', e) <==> Errored(run, e) || e == f
  {
    forall e ensures Errored(run', e) <==> Errored(run, e) || e == f {
      if Errored(run, e) {
        var k :| 0 <= k < |run.errors| && run.errors[k].0 == e;
        assert run'.errors[k].0 == e;
      }
      if e == f { assert run'.errors[|run.errors|].0 == f; }
    }
  }

  lemma BlockedAppend(d: Disk, run: Run, run': Run, f: Name)
    requires forall e :: Errored(run', e) <==> Errored(run, e) || e == f
    ensures forall x :: Blocked(d, run', x) <==> Blocked(d, run, x) || x in DependentClosure(d.DependencyGraph(), f)
  {
    forall x ensures Blocked(d, run', x) <==> Blocked(d, run, x) || x in DependentClosure(d.DependencyGraph(), f) {
      if Blocked(d, run, x) {
        var e :| Errored(run, e) && Reaches(d.DependencyGraph(), x, e);
        assert Errored(run', e);
      }
      if x in DependentClosure(d.DependencyGraph(), f) { assert Errored(run', f); }
    }
  }

  lemma StepBlocked(d: Disk, log0: seq<Record>, done: seq<Name>, p: Progress, f: Name, ok: nat -> bool)
    requires DagState(d, done, p) && f in d.checksums && f !in done && f in p.blockedSet
    ensures DagState(d, done + [f], StepFile(d, log0, p, f, ok))
  {
    var q := StepFile(d, log0, p, f, ok);
    assert q.run.errors == p.run.errors;
    forall e ensures Errored(q.run, e) <==> Errored(p.run, e) { }
    forall x ensures Blocked(d, q.run, x) <==> Blocked(d, p.run, x) { BlockedSame(d, p.run, q.run, x); }
  }

  lemma BlockedSame(d: Disk, run: Run, run': Run, x: Name)
    requires forall e :: Errored(run', e) <==> Errored(run, e)
    ensures Blocked(d, run', x) <==> Blocked(d, run, x)
  {
    if Blocked(d, run, x) {
      var e :| Errored(run, e) && Reaches(d.DependencyGraph(), x, e);
      assert Errored(run', e);
    }
  }

  lemma StepKeepsUpToDate(d: Disk, log0: seq<Record>, p: Progress, f: Name, ok: nat -> bool, done: seq<Name>)
    requires f in d.checksums && f !in done
    ensures forall x :: x in done && x in d.checksums && UpToDate(p.run.log, x, d.checksums[x]) ==>
      UpToDate(StepFile(d, log0, p, f, ok).run.log, x, d.checksums[x])
  {
    forall x | x in done && x in d.checksums && UpToDate(p.run.log, x, d.checksums[x])
      ensures UpToDate(StepFile(d, log0, p, f, ok).run.log, x, d.checksums[x])
    {
      StepKeepsOthers(d, log0, p, f, ok, x);
    }
  }

  lemma StepFine(d: Disk, log0: seq<Record>, done: seq<Name>, p: Progress, f: Name, ok: nat -> bool)
    requires DagState(d, done, p) && f in d.checksums && f !in done && f !in p.blockedSet
    requires Chronological(log0) && SameFor(log0, p.run.log, f)
    requires StepFile(d, log0, p, f, ok).run.errors == p.run.errors
    ensures DagState(d, done + [f], StepFile(d, log0, p, f, ok))
  {
    var q := StepFile(d, log0, p, f, ok);
    TurnEnds(d, log0, p, f, ok);
    StepKeepsUpToDate(d, log0, p, f, ok, done);
    assert q.run.blocked == p.run.blocked;
    forall e ensures Errored(q.run, e) <==> Errored(p.run, e) { }
    forall x ensures Blocked(d, q.run, x) <==> Blocked(d, p.run, x) { BlockedSame(d, p.run, q.run, x); }
  }

  lemma StepFailed(d: Disk, log0: seq<Record>, done: seq<Name>, p: Progress, f: Name, ok: nat -> bool)
    requires d.dag && DagState(d, done, p) && f in d.checksums && f !in done && f !in p.blockedSet
    requires Chronological(log0) && SameFor(log0, p.run.log, f)
    requires StepFile(d, log0, p, f, ok).run.errors != p.run.errors
    requires forall x :: x in DependentClosure(d.DependencyGraph(), f) ==> x !in done && x != f
    ensures DagState(d, done + [f], StepFile(d, log0, p, f, ok))
  {
    var q := StepFile(d, log0, p, f, ok);
    TurnEnds(d, log0, p, f, ok);
    StepKeepsUpToDate(d, log0, p, f, ok, done);
    assert q.run.blocked == p.run.blocked;
    var n := |p.run.errors|;
    assert q.run.errors == q.run.errors[..n] + [(f, q.run.errors[n].1)];
    ErroredAppend(p.run, q.run, f, q.run.errors[n].1);
    BlockedAppend(d, p.run, q.run, f);
  }

  lemma DagStep(d: Disk, log0: seq<Record>, order: seq<Name>, i: nat, p: Progress, ok: nat -> bool)
    requires d.Valid() && d.dag && IsDependencyOrder(d.DependencyGraph(), order)
    requires i < |order| && order[i] in d.checksums
    requires Chronological(log0) && SameFor(log0, p.run.log, order[i])
    requires DagState(d, order[..i], p)
    ensures DagState(d, order[..i + 1], StepFile(d, log0, p, order[i], ok))
  {
    var f := order[i];
    assert f !in order[..i];
    assert order[..i + 1] == order[..i] + [f];
    if f in p.blockedSet {
      StepBlocked(d, log0, order[..i], p, f, ok);
    } else if StepFile(d, log0, p, f, ok).run.errors == p.run.errors {
      StepFine(d, log0, order[..i], p, f, ok);
    } else {
      forall x | x in DependentClosure(d.DependencyGraph(), f) ensures x !in order[..i] && x != f {
        DependentsComeLater(d.DependencyGraph(), order, i, x);
      }
      StepFailed(d, log0, order[..i], p, f, ok);
    }
  }

  lemma {:induction false} DagRun(d: Disk, log0: seq<Record>, clock: nat, order: seq<Name>, i: nat, ok: nat -> bool)
    requires d.Valid() && d.dag && IsDependencyOrder(d.DependencyGraph(), order)
    requires forall x :: x in order ==> x in d.checksums
    requires Chronological(log0) && i <= |order|
    ensures DagState(d, order[..i], After(d, log0, clock, order[..i], ok))
  {
    if i > 0 {
      DagRun(d, log0, clock, order, i - 1, ok);
      var p := After(d, log0, clock, order[..i - 1], ok);
      assert order[i - 1] !in order[..i - 1];
      OthersUntouched(d, log0, clock, order[..i - 1], ok, order[i - 1]);
      DagStep(d, log0, order, i - 1, p, ok);
      assert order[..i][..i - 1] == order[..i - 1];
    } else {
      assert order[..0] == [];
    }
  }

  ghost predicate Executes(d: Disk, log0: seq<Record>, p: Progress, f: Name)
    requires f in d.checksums
  {
    !p.stopped && f !in p.blockedSet && DecisionFor(d, log0, f).Execute?
  }

  /** Class A records are never in the running state, which only advance writes. */
  ghost predicate NoneRunning(log: seq<Record>) {
    forall r :: r in log ==> r.status != Running
  }

  /** The latest record is applied with the current checksum, or skipped by resolve. */
  ghost predicate Settled(log: seq<Record>, f: Name, checksum: string) {
    var r := LastOfFile(log, f);
    r.Some? && (r.value.status == Skipped || (r.value.status == Applied && r.value.checksum == checksum))
  }

  lemma {:induction false} NoneStartRunning(d: Disk, log0: seq<Record>, clock: nat, order: seq<Name>, ok: nat -> bool)
    requires forall x :: x in order ==> x in d.checksums
    requires NoneRunning(log0)
    ensures NoneRunning(After(d, log0, clock, order, ok).run.log)
  {
    if order != [] {
      assert order[|order| - 1] in order;
      NoneStartRunning(d, log0, clock, order[..|order| - 1], ok);
    }
  }

  /**
   * In DAG mode without cycles, when a file's SQL is executed every file it depends on, directly
   * or through others, is already applied in its current form or skipped.
   */
  lemma ExecutedAfterDependencies(d: Disk, log0: seq<Record>, clock: nat, order: seq<Name>, i: nat, ok: nat -> bool,
                                  y: Name)
    requires d.Valid() && d.dag && !HasCycle(d.DependencyGraph()) && IsOrder(d, order)
    requires forall x :: x in order ==> x in d.checksums
    requires Chronological(log0) && NoneRunning(log0) && i < |order|
    requires Executes(d, log0, After(d, log0, clock, order[..i], ok), order[i])
    requires Reaches(d.DependencyGraph(), order[i], y)
    ensures y in d.checksums && Settled(After(d, log0, clock, order[..i], ok).run.log, y, d.checksums[y])
  {
    var g, p := d.DependencyGraph(), After(d, log0, clock, order[..i], ok);
    DagRun(d, log0, clock, order, i, ok);
    DependenciesComeFirst(g, order, i, y);
    NoneStartRunning(d, log0, clock, order[..i], ok);
    assert order[i] in d.files;
    if Errored(p.run, y) {
      assert Blocked(d, p.run, order[i]);
    }
    if y in p.blockedSet {
      var e :| Errored(p.run, e) && Reaches(g, y, e);
      ReachesTransitive(g, order[i], y, e);
      assert Blocked(d, p.run, order[i]);
    }
  }

  /**
   * In DAG mode without cycles the blocked files are exactly those that depend, directly or
   * through others, on a file that failed or was rejected in this run, and every file that is
   * neither blocked nor in error ends up to date.
   */
  lemma BlastRadiusIsExact(d: Disk, log0: seq<Record>, clock: nat, order: seq<Name>, ok: nat -> bool)
    requires d.Valid() && d.dag && !HasCycle(d.DependencyGraph()) && IsOrder(d, order)
    requires forall x :: x in order ==> x in d.checksums
    requires Chronological(log0)
    ensures var run := After(d, log0, clock, order, ok).run;
      && (forall x :: x in run.blocked <==> Blocked(d, run, x))
      && (forall x :: Errored(run, x) ==> x in d.files && x !in run.blocked)
      && (forall x :: x in d.files && x !in run.blocked && !Errored(run, x) ==> UpToDate(run.log, x, d.checksums[x]))
  {
    DagRun(d, log0, clock, order, |order|, ok);
    assert order[..|order|] == order;
  }

  // ---- Every file is reported once ----

  function ErrorFiles(errors: seq<(Name, ErrorKind)>): seq<Name> {
    if errors == [] then [] else ErrorFiles(errors[..|errors| - 1]) + [errors[|errors| - 1].0]
  }

  function Reported(run: Run): multiset<Name> {
    multiset(run.applied) + multiset(run.skipped) + multiset(run.blocked) + multiset(ErrorFiles(run.errors))
  }

  lemma FailReports(run: Run, f: Name, kind: ErrorKind)
    ensures Reported(Fail(run, f, kind)) == Reported(run) + multiset{f}
  {
    var more := run.errors + [(f, kind)];
    assert more[..|run.errors|] == run.errors;
    assert ErrorFiles(more) == ErrorFiles(run.errors) + [f];
  }

  lemma PerformReports(run: Run, f: Name, checksum: string, decision: Decision, succeeds: bool)
    ensures Reported(Perform(run, f, checksum, decision, succeeds)) == Reported(run) + multiset{f}
  {
    match decision
    case Skip =>
    case Reject(kind) => FailReports(run, f, kind);
    case Execute(kind) =>
      if !succeeds { FailReports(AddRecord(run, f, checksum, Failed), f, kind); }
  }

  lemma StepReports(d: Disk, log0: seq<Record>, p: Progress, f: Name, ok: nat -> bool)
    requires f in d.checksums && !p.stopped
    ensures Reported(StepFile(d, log0, p, f, ok).run) == Reported(p.run) + multiset{f}
  {
    if f !in p.blockedSet {
      PerformReports(p.run, f, d.checksums[f], DecisionFor(d, log0, f), ok(|p.run.log|));
    }
  }

  /** k files were reached: all of them, or those up to the one that stopped the run. */
  ghost predicate Reached(d: Disk, log0: seq<Record>, clock: nat, order: seq<Name>, ok: nat -> bool, k: nat)
    requires forall x :: x in order ==> x in d.checksums
  {
    var p := After(d, log0, clock, order, ok);
    && k <= |order| && Reported(p.run) == multiset(order[..k])
    && (!p.stopped ==> k == |order|)
    && (p.stopped ==> k > 0 && After(d, log0, clock, order[..k], ok) == p)
    && (p.stopped ==> !After(d, log0, clock, order[..k - 1], ok).stopped)
  }

  lemma StillReached(d: Disk, log0: seq<Record>, clock: nat, order: seq<Name>, ok: nat -> bool, k: nat)
    requires order != [] && forall x :: x in order ==> x in d.checksums
    requires Reached(d, log0, clock, order[..|order| - 1], ok, k)
    requires After(d, log0, clock, order[..|order| - 1], ok).stopped
    ensures Reached(d, log0, clock, order, ok, k)
  {
    StoppedStays(d, log0, clock, order, |order| - 1, ok);
    PrefixOfPrefix(order, |order| - 1, k);
    PrefixOfPrefix(order, |order| - 1, k - 1);
  }

  lemma PrefixOfPrefix<T>(s: seq<T>, n: nat, k: nat)
    requires k <= n <= |s|
    ensures s[..n][..k] == s[..k]
  {
  }

  lemma ReachedOneMore(d: Disk, log0: seq<Record>, clock: nat, order: seq<Name>, ok: nat -> bool, k: nat)
    requires order != [] && forall x :: x in order ==> x in d.checksums
    requires Reached(d, log0, clock, order[..|order| - 1], ok, k)
    requires !After(d, log0, clock, order[..|order| - 1], ok).stopped
    ensures Reached(d, log0, clock, order, ok, |order|)
  {
    var init := order[..|order| - 1];
    assert init[..k] == init && order[..|order|] == order;
    ReportedOneMore(d, log0, clock, order, ok);
  }

  lemma ReportedOneMore(d: Disk, log0: seq<Record>, clock: nat, order: seq<Name>, ok: nat -> bool)
    requires order != [] && forall x :: x in order ==> x in d.checksums
    requires Reported(After(d, log0, clock, order[..|order| - 1], ok).run) == multiset(order[..|order| - 1])
    requires !After(d, log0, clock, order[..|order| - 1], ok).stopped
    ensures Reported(After(d, log0, clock, order, ok).run) == multiset(order)
  {
    var init, last := order[..|order| - 1], order[|order| - 1];
    assert last in order;
    SplitOffLast(order);
    StepReports(d, log0, After(d, log0, clock, init, ok), last, ok);
  }

  lemma SplitOffLast<T>(s: seq<T>)
    requires s != []
    ensures multiset(s) == multiset(s[..|s| - 1]) + multiset{s[|s| - 1]}
  {
    assert s == s[..|s| - 1] + [s[|s| - 1]];
  }

  lemma {:induction false} ReportsProcessed(d: Disk, log0: seq<Record>, clock: nat, order: seq<Name>, ok: nat -> bool)
      returns (k: nat)
    requires forall x :: x in order ==> x in d.checksums
    ensures Reached(d, log0, clock, order, ok, k)
  {
    if order == [] {
      k := 0;
    } else {
      k := ReportsProcessed(d, log0, clock, order[..|order| - 1], ok);
      if After(d, log0, clock, order[..|order| - 1], ok).stopped {
        StillReached(d, log0, clock, order, ok, k);
      } else {
        ReachedOneMore(d, log0, clock, order, ok, k);
        k := |order|;
      }
    }
  }

  /** In DAG mode every file is reported exactly once: applied, skipped, blocked or in error. */
  lemma DagReportsEveryFileOnce(d: Disk, log0: seq<Record>, clock: nat, order: seq<Name>, ok: nat -> bool)
    requires d.Valid() && d.dag && IsOrder(d, order)
    requires forall x :: x in order ==> x in d.checksums
    ensures Reported(After(d, log0, clock, order, ok).run) == multiset(d.files)
  {
    DagNeverStops(d, log0, clock, order, ok);
    var k := ReportsProcessed(d, log0, clock, order, ok);
    assert order[..k] == order;
    OrderListsFiles(d, order);
    DistinctMultiset(order, d.files);
  }

  lemma {:induction false} DagNeverStops(d: Disk, log0: seq<Record>, clock: nat, order: seq<Name>, ok: nat -> bool)
    requires d.dag && forall x :: x in order ==> x in d.checksums
    ensures !After(d, log0, clock, order, ok).stopped
  {
    if order != [] {
      assert order[|order| - 1] in order;
      DagNeverStops(d, log0, clock, order[..|order| - 1], ok);
    }
  }

  // ---- Linear mode ----

  /** Before the first error of a linear run everything reached is up to date. */
  lemma {:induction false} LinearRun(d: Disk, log0: seq<Record>, clock: nat, order: seq<Name>, ok: nat -> bool)
    requires !d.dag && Distinct(order) && (forall x :: x in order ==> x in d.checksums)
    requires Chronological(log0)
    ensures var p := After(d, log0, clock, order, ok);
      && p.blockedSet == {} && p.run.blocked == []
      && (p.stopped <==> p.run.errors != [])
      && (!p.stopped ==> forall x :: x in order ==> UpToDate(p.run.log, x, d.checksums[x]))
  {
    if order != [] {
      var init, last := order[..|order| - 1], order[|order| - 1];
      assert last in order && last !in init;
      assert order == init + [last];
      LinearRun(d, log0, clock, init, ok);
      var p := After(d, log0, clock, init, ok);
      if !p.stopped {
        OthersUntouched(d, log0, clock, init, ok, last);
        TurnEnds(d, log0, p, last, ok);
        StepKeepsUpToDate(d, log0, p, last, ok, init);
      }
    }
  }

  /** In linear mode a file's SQL is executed only when every earlier file is settled. */
  lemma LinearExecutedInOrder(d: Disk, log0: seq<Record>, clock: nat, order: seq<Name>, i: nat, ok: nat -> bool, k: nat)
    requires d.Valid() && !d.dag && IsOrder(d, order)
    requires forall x :: x in order ==> x in d.checksums
    requires Chronological(log0) && NoneRunning(log0) && k < i < |order|
    requires Executes(d, log0, After(d, log0, clock, order[..i], ok), order[i])
    ensures Settled(After(d, log0, clock, order[..i], ok).run.log, order[k], d.checksums[order[k]])
  {
    LinearRun(d, log0, clock, order[..i], ok);
    NoneStartRunning(d, log0, clock, order[..i], ok);
    assert order[k] in order[..i];
  }

  /** In linear mode the first error ends the run: it is the only one, and nothing after it is touched. */
  lemma LinearStopsAtFirstError(d: Disk, log0: seq<Record>, clock: nat, order: seq<Name>, ok: nat -> bool)
      returns (k: nat)
    requires d.Valid() && !d.dag && IsOrder(d, order)
    requires forall x :: x in order ==> x in d.checksums
    requires Chronological(log0)
    requires After(d, log0, clock, order, ok).run.errors != []
    ensures var run := After(d, log0, clock, order, ok).run;
      && k < |order| && |run.errors| == 1 && run.errors[0].0 == order[k]
      && Reported(run) == multiset(order[..k + 1])
      && (forall x :: x in order[k + 1..] ==> SameFor(log0, run.log, x))
  {
    LinearRun(d, log0, clock, order, ok);
    var p := After(d, log0, clock, order, ok);
    var processed := ReportsProcessed(d, log0, clock, order, ok);
    k := processed - 1;
    var before := After(d, log0, clock, order[..k], ok);
    assert order[..k + 1][..k] == order[..k];
    LinearRun(d, log0, clock, order[..k], ok);
    OthersUntouched(d, log0, clock, order[..k], ok, order[k]);
    TurnEnds(d, log0, before, order[k], ok);
    forall x | x in order[k + 1..] ensures SameFor(log0, p.run.log, x) {
      var j :| k + 1 <= j < |order| && order[j] == x;
      OthersUntouched(d, log0, clock, order[..k + 1], ok, x);
    }
  }

  // ---- Convergence ----

  /** The files of done are up to date, nothing is blocked, and the run goes on. */
  ghost predicate AllFine(d: Disk, done: seq<Name>, p: Progress) {
    && !p.stopped && p.blockedSet == {}
    && forall x :: x in done ==> x in d.checksums && UpToDate(p.run.log, x, d.checksums[x])
  }

  /** A run without errors leaves every file up to date, in either mode, with cycles or without. */
  lemma {:induction false} ErrorFreeRun(d: Disk, log0: seq<Record>, clock: nat, order: seq<Name>, ok: nat -> bool)
    requires Distinct(order) && (forall x :: x in order ==> x in d.checksums)
    requires Chronological(log0)
    requires After(d, log0, clock, order, ok).run.errors == []
    ensures AllFine(d, order, After(d, log0, clock, order, ok))
  {
    if order != [] {
      var init, last := order[..|order| - 1], order[|order| - 1];
      assert last in order && last !in init;
      NoEarlierError(d, log0, After(d, log0, clock, init, ok), last, ok);
      ErrorFreeRun(d, log0, clock, init, ok);
      OthersUntouched(d, log0, clock, init, ok, last);
      ErrorFreeStep(d, log0, After(d, log0, clock, init, ok), last, ok, init);
      assert order == init + [last];
    }
  }

  lemma ErrorFreeStep(d: Disk, log0: seq<Record>, p: Progress, f: Name, ok: nat -> bool, done: seq<Name>)
    requires f in d.checksums && f !in done && AllFine(d, done, p)
    requires Chronological(log0) && SameFor(log0, p.run.log, f)
    requires StepFile(d, log0, p, f, ok).run.errors == p.run.errors == []
    ensures AllFine(d, done + [f], StepFile(d, log0, p, f, ok))
  {
    TurnEnds(d, log0, p, f, ok);
    StepKeepsUpToDate(d, log0, p, f, ok, done);
  }

  lemma NoEarlierError(d: Disk, log0: seq<Record>, p: Progress, f: Name, ok: nat -> bool)
    requires f in d.checksums && StepFile(d, log0, p, f, ok).run.errors == []
    ensures p.run.errors == []
  {
  }

  /** Files that are up to date are skipped, whatever the oracle would say. */
  lemma {:induction false} UpToDateRun(d: Disk, log: seq<Record>, clock: nat, order: seq<Name>, ok: nat -> bool)
    requires forall x :: x in order ==> x in d.checksums && UpToDate(log, x, d.checksums[x])
    requires Chronological(log)
    ensures After(d, log, clock, order, ok) == Progress(Run(log, clock, [], order, [], [], None), {}, false)
  {
    if order != [] {
      var init, last := order[..|order| - 1], order[|order| - 1];
      assert last in order;
      UpToDateRun(d, log, clock, init, ok);
      UpToDateStep(d, log, clock, init, last, ok);
      assert order == init + [last];
    }
  }

  lemma UpToDateStep(d: Disk, log: seq<Record>, clock: nat, done: seq<Name>, f: Name, ok: nat -> bool)
    requires f in d.checksums && UpToDate(log, f, d.checksums[f]) && Chronological(log)
    ensures StepFile(d, log, Progress(Run(log, clock, [], done, [], [], None), {}, false), f, ok)
      == Progress(Run(log, clock, [], done + [f], [], [], None), {}, false)
  {
    UpToDateIsSkipped(d, log, f);
  }

  lemma UpToDateIsSkipped(d: Disk, log: seq<Record>, f: Name)
    requires f in d.checksums && UpToDate(log, f, d.checksums[f]) && Chronological(log)
    ensures DecisionFor(d, log, f) == Skip
  {
    LatestOfFile(log, f);
  }

  /** Every file of the later disk is on the earlier one with the same checksum. */
  ghost predicate SameFiles(d: Disk, later: Disk) {
    forall f :: f in later.files ==>
      f in d.files && f in d.checksums && f in later.checksums && later.checksums[f] == d.checksums[f]
  }

  /**
   * After a run without errors, a second run executes nothing: it skips every file and leaves the
   * log as it is. That holds on the same disk, and also if meanwhile files went away,
   * dependencies changed, or the model was switched between linear and DAG.
   */
  lemma ApplyConverges(d: Disk, log0: seq<Record>, clock: nat, order: seq<Name>, ok: nat -> bool,
                       later: Disk, again: seq<Name>, ok': nat -> bool)
    requires d.Valid() && IsOrder(d, order) && later.Valid() && IsOrder(later, again) && SameFiles(d, later)
    requires forall x :: x in order ==> x in d.checksums
    requires forall x :: x in again ==> x in later.checksums
    requires WellClocked(log0, clock)
    requires After(d, log0, clock, order, ok).run.errors == []
    ensures var first := After(d, log0, clock, order, ok).run;
      After(later, first.log, first.clock, again, ok').run == Run(first.log, first.clock, [], again, [], [], None)
  {
    var first := After(d, log0, clock, order, ok).run;
    OrderListsFiles(d, order);
    OrderListsFiles(later, again);
    ErrorFreeRun(d, log0, clock, order, ok);
    RunExtendsLog(d, log0, clock, order, ok);
    UpToDateRun(later, first.log, first.clock, again, ok');
  }

  // ---- Unresolved failures and reverts ----

  /** A file that is not executed keeps the records it had. */
  lemma {:induction false} NotExecutedKeepsRecords(d: Disk, log0: seq<Record>, clock: nat, order: seq<Name>,
                                                   ok: nat -> bool, f: Name)
    requires forall x :: x in order ==> x in d.checksums
    requires f in d.checksums && !DecisionFor(d, log0, f).Execute?
    ensures SameFor(log0, After(d, log0, clock, order, ok).run.log, f)
  {
    if order != [] {
      var init, last := order[..|order| - 1], order[|order| - 1];
      assert last in order;
      NotExecutedKeepsRecords(d, log0, clock, init, ok, f);
      NotExecutedStep(d, log0, After(d, log0, clock, init, ok), last, ok, f);
    }
  }

  lemma NotExecutedStep(d: Disk, log0: seq<Record>, p: Progress, last: Name, ok: nat -> bool, f: Name)
    requires last in d.checksums && f in d.checksums && !DecisionFor(d, log0, f).Execute?
    ensures SameFor(p.run.log, StepFile(d, log0, p, last, ok).run.log, f)
  {
    if f != last { StepKeepsOthers(d, log0, p, last, ok, f); }
  }

  /** The latest attempt failed, and the file is no longer the tail or a leaf. */
  ghost predicate UnresolvedFailure(d: Disk, log: seq<Record>, f: Name) {
    var r := LastOfFile(log, f);
    f in d.checksums && r.Some? && r.value.status == Failed && !Editable(d, f)
  }

  /** In DAG mode a file waits for what it depends on, in linear mode for all files before it. */
  ghost predicate WaitsFor(d: Disk, order: seq<Name>, i: nat, f: Name)
    requires i < |order|
  {
    if d.dag then Reaches(d.DependencyGraph(), order[i], f) else f in order[..i]
  }

  /** An unresolved failure keeps every file that waits for it from being executed, in every run. */
  lemma UnresolvedFailureBlocks(d: Disk, log0: seq<Record>, clock: nat, order: seq<Name>, i: nat, ok: nat -> bool,
                                f: Name)
    requires d.Valid() && IsOrder(d, order) && (d.dag ==> !HasCycle(d.DependencyGraph()))
    requires forall x :: x in order ==> x in d.checksums
    requires Chronological(log0) && NoneRunning(log0)
    requires UnresolvedFailure(d, log0, f) && i < |order| && WaitsFor(d, order, i, f)
    ensures !Executes(d, log0, After(d, log0, clock, order[..i], ok), order[i])
  {
    LatestOfFile(log0, f);
    NotExecutedKeepsRecords(d, log0, clock, order[..i], ok, f);
    if Executes(d, log0, After(d, log0, clock, order[..i], ok), order[i]) {
      SettledBefore(d, log0, clock, order, i, ok, f);
    }
  }

  lemma SettledBefore(d: Disk, log0: seq<Record>, clock: nat, order: seq<Name>, i: nat, ok: nat -> bool, f: Name)
    requires d.Valid() && IsOrder(d, order) && (d.dag ==> !HasCycle(d.DependencyGraph()))
    requires forall x :: x in order ==> x in d.checksums
    requires Chronological(log0) && NoneRunning(log0) && i < |order| && WaitsFor(d, order, i, f)
    requires Executes(d, log0, After(d, log0, clock, order[..i], ok), order[i])
    ensures f in d.checksums && Settled(After(d, log0, clock, order[..i], ok).run.log, f, d.checksums[f])
  {
    if d.dag {
      ExecutedAfterDependencies(d, log0, clock, order, i, ok, f);
    } else {
      var k :| 0 <= k < i && order[..i][k] == f;
      LinearExecutedInOrder(d, log0, clock, order, i, ok, k);
    }
  }

  /** The file on disk equals an earlier version, but not the latest recorded one. */
  ghost predicate Reverted(d: Disk, log: seq<Record>, f: Name) {
    var latest := LastOfFile(log, f);
    && f in d.checksums && latest.Some? && d.checksums[f] != latest.value.checksum
    && exists r :: r in log && r.file == f && r.checksum == d.checksums[f]
  }

  /**
   * README.md:32 promises an error whenever a file reverts to an old checksum. The code gives an
   * error exactly when the latest record is applied (ancestor revert), or failed and the file is
   * neither tail nor leaf (unresolved failure). Otherwise the old version is executed again, after
   * a failure, or passed over in silence, after a resolve.
   */
  lemma RevertDetectedExactlyWhen(d: Disk, log: seq<Record>, f: Name)
    requires Chronological(log) && NoneRunning(log) && Reverted(d, log, f)
    ensures var status, decision := LastOfFile(log, f).value.status, DecisionFor(d, log, f);
      && (decision.Reject? <==> status == Applied || (status == Failed && !Editable(d, f)))
      && (decision == Reject(AncestorRevert) <==> status == Applied)
      && (decision == Reject(Unresolved) <==> status == Failed && !Editable(d, f))
      && (decision == Execute(RetryFailed) <==> status == Failed && Editable(d, f))
      && (decision == Skip <==> status == Skipped)
  {
    OfFileIsChronological(log, f);
    LatestOfFile(log, f);
    var latest := LastOfFile(log, f).value;
    var r :| r in log && r.file == f && r.checksum == d.checksums[f];
    assert r in OfFile(log, f) && r != latest;
    assert d.checksums[f] in PastChecksums(OfFile(log, f), latest);
  }

  /** The records of an applied v1, a failed v2 and, if resolved, a skipped v2 of one file. */
  function HotfixLog(f: Name, resolved: bool): seq<Record> {
    [Record(f, "v1", Applied, 0, None, None), Record(f, "v2", Failed, 1, None, None)]
    + if resolved then [Record(f, "v2", Skipped, 2, None, None)] else []
  }

  lemma HotfixIsReverted(d: Disk, f: Name, resolved: bool)
    requires f in d.checksums && d.checksums[f] == "v1"
    ensures var log := HotfixLog(f, resolved);
      && Chronological(log) && NoneRunning(log) && Reverted(d, log, f)
      && LastOfFile(log, f).value.status == if resolved then Skipped else Failed
  {
    var log := HotfixLog(f, resolved);
    assert log[0] in log && log[0].checksum == "v1";
    assert "v1"[1] != "v2"[1];
    assert log[|log| - 1].checksum == "v2";
  }

  /** A hotfix v2 fails and the file goes back to v1: v1 is executed again. */
  lemma RevertAfterFailureIsExecuted(d: Disk, f: Name)
    requires f in d.checksums && d.checksums[f] == "v1" && Editable(d, f)
    ensures var log := HotfixLog(f, false); Reverted(d, log, f) && DecisionFor(d, log, f) == Execute(RetryFailed)
  {
    HotfixIsReverted(d, f, false);
    RevertDetectedExactlyWhen(d, HotfixLog(f, false), f);
  }

  /** A hotfix v2 fails and is resolved, and the file goes back to v1: it is skipped, without an error. */
  lemma RevertAfterResolveIsSkipped(d: Disk, f: Name)
    requires f in d.checksums && d.checksums[f] == "v1"
    ensures var log := HotfixLog(f, true); Reverted(d, log, f) && DecisionFor(d, log, f) == Skip
  {
    HotfixIsReverted(d, f, true);
    RevertDetectedExactlyWhen(d, HotfixLog(f, true), f);
  }
}
