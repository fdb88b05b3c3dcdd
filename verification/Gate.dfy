/** The deployment gate (src/commands/gate.ts) and all group states (src/group-state.ts:102-113). */
module Gate {
  import opened Options
  import opened Records
  import opened GroupStates
  import opened Conditions

  // ---- Group states in order of first appearance ----

  function AddName(names: seq<string>, r: Record): seq<string> {
    if r.group.Some? && r.group.value != "" && r.group.value !in names then names + [r.group.value] else names
  }

  function GroupNames(log: seq<Record>): seq<string> {
    if log == [] then [] else AddName(GroupNames(log[..|log| - 1]), log[|log| - 1])
  }

  function StatesOf(log: seq<Record>, names: seq<string>): (states: seq<GroupState>)
    ensures |states| == |names|
    ensures forall k :: 0 <= k < |names| ==> states[k] == DeriveGroupState(log, names[k])
  {
    if names == [] then []
    else StatesOf(log, names[..|names| - 1]) + [DeriveGroupState(log, names[|names| - 1])]
  }

  ghost predicate IsGroupOf(log: seq<Record>, name: string) {
    name != "" && exists r :: r in log && r.group == Some(name)
  }

  /** The names are the non-empty groups of the log, each once. */
  lemma {:induction false} NamesAreTheGroups(log: seq<Record>)
    ensures forall n :: n in GroupNames(log) <==> IsGroupOf(log, n)
    ensures forall i, j :: 0 <= i < j < |GroupNames(log)| ==> GroupNames(log)[i] != GroupNames(log)[j]
  {
    if log != [] {
      var init, last := log[..|log| - 1], log[|log| - 1];
      NamesAreTheGroups(init);
      assert log == init + [last];
      forall n ensures IsGroupOf(log, n) <==> IsGroupOf(init, n) || (n != "" && last.group == Some(n)) {
        if n != "" && last.group == Some(n) { assert last in log; }
      }
    }
  }

  /** Of two names, the one listed first was recorded when the other one was not yet. */
  lemma {:induction false} NamesInOrder(log: seq<Record>, i: nat, j: nat) returns (p: nat)
    requires i < j < |GroupNames(log)|
    ensures p <= |log| && IsGroupOf(log[..p], GroupNames(log)[i]) && !IsGroupOf(log[..p], GroupNames(log)[j])
  {
    var init := log[..|log| - 1];
    if j < |GroupNames(init)| {
      p := NamesInOrder(init, i, j);
      assert init[..p] == log[..p];
    } else {
      p := |log| - 1;
      NamesAreTheGroups(init);
      NamesAreTheGroups(log);
    }
  }

  method CollectGroupNames(log: seq<Record>) returns (groupNames: seq<string>)
    ensures groupNames == GroupNames(log)
  {
    groupNames := [];
    for i := 0 to |log|
      invariant groupNames == GroupNames(log[..i])
    {
      assert log[..i + 1][..i] == log[..i];
      groupNames := AddName(groupNames, log[i]);
    }
    assert log[..|log|] == log;
  }

  method DeriveAllGroupStates(log: seq<Record>) returns (states: seq<GroupState>)
    ensures states == StatesOf(log, GroupNames(log))
    ensures forall s :: s in states <==> IsGroupOf(log, s.group) && s == DeriveGroupState(log, s.group)
    ensures forall i, j :: 0 <= i < j < |states| ==> states[i].group != states[j].group
  {
    var groupNames := CollectGroupNames(log);
    states := [];
    for i := 0 to |groupNames|
      invariant states == StatesOf(log, groupNames[..i])
    {
      assert groupNames[..i + 1][..i] == groupNames[..i];
      states := states + [DeriveGroupState(log, groupNames[i])];
    }
    assert groupNames[..|groupNames|] == groupNames;
    StatesAreTheGroups(log);
  }

  lemma StatesAreTheGroups(log: seq<Record>)
    ensures var states := StatesOf(log, GroupNames(log));
      && (forall s :: s in states <==> IsGroupOf(log, s.group) && s == DeriveGroupState(log, s.group))
      && forall i, j :: 0 <= i < j < |states| ==> states[i].group != states[j].group
  {
    NamesAreTheGroups(log);
    var names, states := GroupNames(log), StatesOf(log, GroupNames(log));
    forall s: GroupState | IsGroupOf(log, s.group) && s == DeriveGroupState(log, s.group) ensures s in states {
      var k :| 0 <= k < |names| && names[k] == s.group;
      assert states[k] == s;
    }
    forall s | s in states ensures IsGroupOf(log, s.group) {
      var k :| 0 <= k < |states| && states[k] == s;
      assert names[k] in names;
    }
  }

  // ---- Evaluation ----

  predicate EvaluateCondition(states: seq<GroupState>, text: string) {
    match ParseCondition(text)
    case None => false
    case Some(c) =>
      match FindState(states, c.group)
      case None => false
      case Some(s) => MatchesState(s.state, c.state)
  }

  datatype Reason = NotMet(condition: string) | Present(condition: string)

  function Unmet(states: seq<GroupState>, required: seq<string>): seq<Reason> {
    if required == [] then []
    else
      var last := required[|required| - 1];
      Unmet(states, required[..|required| - 1]) + if EvaluateCondition(states, last) then [] else [NotMet(last)]
  }

  function Violated(states: seq<GroupState>, forbidden: seq<string>): seq<Reason> {
    if forbidden == [] then []
    else
      var last := forbidden[|forbidden| - 1];
      Violated(states, forbidden[..|forbidden| - 1]) + if EvaluateCondition(states, last) then [Present(last)] else []
  }

  /**
   * The condition is written as one, its name finds a group of the log, and by the last records of
   * its phases that group has reached the state.
   */
  ghost predicate ConditionHolds(log: seq<Record>, text: string) {
    exists name, state, g ::
      IsCondition(text, name, state) && IsFirstCalled(GroupNames(log), name, g) && HasReached(log, g, state)
  }

  ghost predicate FoundReached(log: seq<Record>, name: string, state: string) {
    exists g :: IsFirstCalled(GroupNames(log), name, g) && HasReached(log, g, state)
  }

  lemma ConditionAsks(log: seq<Record>, text: string, name: string, state: string)
    requires IsCondition(text, name, state)
    ensures ConditionHolds(log, text) <==> FoundReached(log, name, state)
  {
    ParseMeans(text, name, state);
    forall n, s | IsCondition(text, n, s) ensures n == name && s == state { ParseMeans(text, n, s); }
  }

  lemma FoundMeans(log: seq<Record>, name: string, state: string)
    requires Chronological(log)
    ensures var found := FindState(StatesOf(log, GroupNames(log)), name);
      FoundReached(log, name, state) <==> found.Some? && MatchesState(found.value.state, state)
  {
    var found := FindState(StatesOf(log, GroupNames(log)), name);
    FindMeans(StatesOf(log, GroupNames(log)), GroupNames(log), name);
    FoundIsDerived(log, name);
    if found.Some? { DerivedReaches(log, found.value.group, state); }
  }

  lemma EvaluateMeans(log: seq<Record>, text: string)
    requires Chronological(log)
    ensures EvaluateCondition(StatesOf(log, GroupNames(log)), text) <==> ConditionHolds(log, text)
  {
    if ParseCondition(text).Some? {
      var c := ParseCondition(text).value;
      ParseMeans(text, c.group, c.state);
      ConditionAsks(log, text, c.group, c.state);
      FoundMeans(log, c.group, c.state);
    } else {
      forall name, state ensures !IsCondition(text, name, state) { ParseMeans(text, name, state); }
    }
  }

  /** A condition whose name finds a group holds exactly when that group has reached the state. */
  lemma NamedConditionHolds(log: seq<Record>, name: string, g: string, state: string)
    requires name != "" && '.' !in name && OneLine(state) && IsFirstCalled(GroupNames(log), name, g)
    ensures ConditionHolds(log, "group:" + (name + ("." + state))) <==> HasReached(log, g, state)
  {
    ConditionAsks(log, "group:" + (name + ("." + state)), name, state);
    FindMeans(StatesOf(log, GroupNames(log)), GroupNames(log), name);
  }

  /** When a group has its expand applied, and when it is completed, by the last records of its phases. */
  lemma ReachedMeans(log: seq<Record>, g: string)
    ensures HasReached(log, g, "contract_completed") <==>
      HasStatus(LastOfPhase(log, g, Expand), Applied) && HasStatus(LastOfPhase(log, g, Contract), Applied)
    ensures HasReached(log, g, "expand_applied") <==>
      && HasStatus(LastOfPhase(log, g, Expand), Applied)
      && (HasStatus(LastOfPhase(log, g, Backfill), Failed) ==>
           HasStatus(LastOfPhase(log, g, Switch), Applied) || HasStatus(LastOfPhase(log, g, Contract), Applied))
  {
    TwoTargets(LastOfPhase(log, g, Expand), LastOfPhase(log, g, Backfill), LastOfPhase(log, g, Switch),
               LastOfPhase(log, g, Contract));
  }

  lemma SplitLast<T>(s: seq<T>)
    requires s != []
    ensures s == s[..|s| - 1] + [s[|s| - 1]]
  {
  }

  ghost predicate AllHold(states: seq<GroupState>, conditions: seq<string>) {
    forall c :: c in conditions ==> EvaluateCondition(states, c)
  }

  ghost predicate NoneHolds(states: seq<GroupState>, conditions: seq<string>) {
    forall c :: c in conditions ==> !EvaluateCondition(states, c)
  }

  lemma {:induction false} NoneUnmet(states: seq<GroupState>, required: seq<string>)
    ensures Unmet(states, required) == [] <==> AllHold(states, required)
  {
    if required != [] {
      NoneUnmet(states, required[..|required| - 1]);
      SplitLast(required);
    }
  }

  lemma {:induction false} NoneViolated(states: seq<GroupState>, forbidden: seq<string>)
    ensures Violated(states, forbidden) == [] <==> NoneHolds(states, forbidden)
  {
    if forbidden != [] {
      NoneViolated(states, forbidden[..|forbidden| - 1]);
      SplitLast(forbidden);
    }
  }

  ghost predicate Meant(log: seq<Record>, conditions: seq<string>, met: bool) {
    forall c :: c in conditions ==> (ConditionHolds(log, c) <==> met)
  }

  lemma {:induction false} UnmetMean(log: seq<Record>, required: seq<string>)
    requires Chronological(log)
    ensures var unmet := Unmet(StatesOf(log, GroupNames(log)), required);
      forall r :: r in unmet <==> r.NotMet? && r.condition in required && !ConditionHolds(log, r.condition)
  {
    if required != [] {
      UnmetMean(log, required[..|required| - 1]);
      SplitLast(required);
      EvaluateMeans(log, required[|required| - 1]);
    }
  }

  lemma {:induction false} ViolatedMean(log: seq<Record>, forbidden: seq<string>)
    requires Chronological(log)
    ensures var violated := Violated(StatesOf(log, GroupNames(log)), forbidden);
      forall r :: r in violated <==> r.Present? && r.condition in forbidden && ConditionHolds(log, r.condition)
  {
    if forbidden != [] {
      ViolatedMean(log, forbidden[..|forbidden| - 1]);
      SplitLast(forbidden);
      EvaluateMeans(log, forbidden[|forbidden| - 1]);
    }
  }

  /** Exactly the required conditions that do not hold and the forbidden ones that do. */
  ghost predicate AreReasons(log: seq<Record>, required: seq<string>, forbidden: seq<string>, reasons: seq<Reason>) {
    && (forall c :: NotMet(c) in reasons <==> c in required && !ConditionHolds(log, c))
    && (forall c :: Present(c) in reasons <==> c in forbidden && ConditionHolds(log, c))
  }

  lemma ReasonsMean(log: seq<Record>, required: seq<string>, forbidden: seq<string>, reasons: seq<Reason>)
    requires Chronological(log)
    requires var states := StatesOf(log, GroupNames(log));
      reasons == Unmet(states, required) + Violated(states, forbidden)
    ensures AreReasons(log, required, forbidden, reasons)
    ensures reasons == [] <==> Meant(log, required, true) && Meant(log, forbidden, false)
  {
    UnmetMean(log, required);
    ViolatedMean(log, forbidden);
    NoReasonMeans(reasons, log, required, forbidden);
  }

  lemma NoReasonMeans(reasons: seq<Reason>, log: seq<Record>, required: seq<string>, forbidden: seq<string>)
    requires AreReasons(log, required, forbidden, reasons)
    ensures reasons == [] <==> Meant(log, required, true) && Meant(log, forbidden, false)
  {
    if reasons == [] {
      forall c | c in required ensures ConditionHolds(log, c) { assert NotMet(c) !in reasons; }
      forall c | c in forbidden ensures !ConditionHolds(log, c) { assert Present(c) !in reasons; }
    } else {
      var r := reasons[0];
      assert r in reasons;
      assert r == if r.NotMet? then NotMet(r.condition) else Present(r.condition);
    }
  }

  /** The gate passes exactly when every required condition holds and no forbidden one does. */
  method CommandGate(log: seq<Record>, required: seq<string>, forbidden: seq<string>)
      returns (pass: bool, reasons: seq<Reason>)
    ensures Chronological(log) ==> (pass <==> Meant(log, required, true) && Meant(log, forbidden, false))
    ensures Chronological(log) ==> AreReasons(log, required, forbidden, reasons)
    ensures var states := StatesOf(log, GroupNames(log));
      && (pass <==> AllHold(states, required) && NoneHolds(states, forbidden))
      && reasons == Unmet(states, required) + Violated(states, forbidden)
  {
    var states := DeriveAllGroupStates(log);
    var unmet := CollectUnmet(states, required);
    var violated := CollectViolated(states, forbidden);
    reasons := unmet + violated;
    pass := |reasons| == 0;
    if Chronological(log) { ReasonsMean(log, required, forbidden, reasons); }
  }

  method CollectUnmet(states: seq<GroupState>, required: seq<string>) returns (reasons: seq<Reason>)
    ensures reasons == Unmet(states, required)
    ensures reasons == [] <==> AllHold(states, required)
  {
    reasons := [];
    for i := 0 to |required|
      invariant reasons == Unmet(states, required[..i])
    {
      assert required[..i + 1][..i] == required[..i];
      if !EvaluateCondition(states, required[i]) { reasons := reasons + [NotMet(required[i])]; }
    }
    assert required[..|required|] == required;
    NoneUnmet(states, required);
  }

  method CollectViolated(states: seq<GroupState>, forbidden: seq<string>) returns (reasons: seq<Reason>)
    ensures reasons == Violated(states, forbidden)
    ensures reasons == [] <==> NoneHolds(states, forbidden)
  {
    reasons := [];
    for i := 0 to |forbidden|
      invariant reasons == Violated(states, forbidden[..i])
    {
      assert forbidden[..i + 1][..i] == forbidden[..i];
      if EvaluateCondition(states, forbidden[i]) { reasons := reasons + [Present(forbidden[i])]; }
    }
    assert forbidden[..|forbidden|] == forbidden;
    NoneViolated(states, forbidden);
  }

  // ---- Progress ----

  /** The record advances its group: it is not a failure, and its phase was not applied already. */
  ghost predicate Advances(log: seq<Record>, r: Record) {
    r.group.Some? && r.phase.Some? ==>
      && (r.status == Running || r.status == Applied)
      && !HasStatus(LastOfPhase(log, r.group.value, r.phase.value), Applied)
  }

  /** Every record of the log advanced its group when it was added. */
  ghost predicate Progressing(log: seq<Record>) {
    && Chronological(log)
    && (forall i :: 0 <= i < |log| ==> Advances(log[..i], log[i]))
    && forall i :: 0 <= i < |log| ==> (log[i].group.Some? <==> log[i].phase.Some?)
  }

  /** The place of a state in stateOrder. */
  function StateIndex(s: StateName): int {
    match s
    case NotApplied => 0
    case ExpandApplied => 1
    case BackfillRunning => 2
    case BackfillFailed => -1
    case BackfillCompleted => 3
    case SwitchApplied => 4
    case ContractReady => 5
    case ContractCompleted => 6
  }

  lemma TextHasIndex(s: StateName)
    ensures OrderIndex(StateText(s)) == StateIndex(s)
  {
  }

  function Rank(log: seq<Record>, group: string): int {
    StateIndex(DeriveGroupState(log, group).state)
  }

  lemma ProgressingPrefix(log: seq<Record>, i: nat)
    requires Progressing(log) && i <= |log|
    ensures Progressing(log[..i])
  {
    forall j | 0 <= j < i ensures Advances(log[..i][..j], log[..i][j]) {
      assert log[..i][..j] == log[..j];
    }
  }

  lemma LastAfter(log: seq<Record>, r: Record, g: string, p: Phase)
    requires Chronological(log + [r])
    ensures Chronological(log)
    ensures DeriveGroupState(log, g).PhaseRecord(p) == LastOfPhase(log, g, p)
    ensures DeriveGroupState(log + [r], g).PhaseRecord(p)
      == if Matches(r, g, p) then Some(r) else LastOfPhase(log, g, p)
  {
    forall i, j | 0 <= i < j < |log| ensures log[i].appliedAt < log[j].appliedAt {
      assert (log + [r])[i].appliedAt < (log + [r])[j].appliedAt;
    }
    DerivedIsLast(log, g, p);
    DerivedIsLast(log + [r], g, p);
    assert (log + [r])[..|log|] == log;
  }

  /** No phase record of a progressing log is failed or skipped. */
  lemma {:induction false} ProgressingStatuses(log: seq<Record>, g: string, p: Phase)
    requires Progressing(log)
    ensures var r := LastOfPhase(log, g, p); r.Some? ==> r.value.status == Running || r.value.status == Applied
  {
    if log != [] {
      ProgressingPrefix(log, |log| - 1);
      assert Advances(log[..|log| - 1], log[|log| - 1]);
      ProgressingStatuses(log[..|log| - 1], g, p);
    }
  }

  /** The latest record of a phase before and after one step of progress. */
  ghost predicate Moves(before: Option<Record>, after: Option<Record>) {
    before == after || (!HasStatus(before, Applied) && (HasStatus(after, Running) || HasStatus(after, Applied)))
  }

  lemma StateRises(e: Option<Record>, b: Option<Record>, s: Option<Record>, c: Option<Record>,
                   e': Option<Record>, b': Option<Record>, s': Option<Record>, c': Option<Record>)
    requires Moves(e, e') && Moves(b, b') && Moves(s, s') && Moves(c, c')
    requires b.Some? ==> b.value.status == Running || b.value.status == Applied
    ensures 0 <= StateIndex(ComputeState(e, b, s, c)) <= StateIndex(ComputeState(e', b', s', c'))
  {
  }

  lemma PhaseMoves(log: seq<Record>, r: Record, g: string, p: Phase)
    requires Chronological(log + [r]) && Advances(log, r)
    ensures Moves(DeriveGroupState(log, g).PhaseRecord(p), DeriveGroupState(log + [r], g).PhaseRecord(p))
  {
    LastAfter(log, r, g, p);
  }

  lemma LastStep(log: seq<Record>, r: Record)
    requires Progressing(log + [r])
    ensures Chronological(log + [r]) && Progressing(log) && Advances(log, r)
  {
    var more := log + [r];
    assert more[..|log|] == log && more[|log|] == r;
    ProgressingPrefix(more, |log|);
    assert Advances(more[..|log|], more[|log|]);
  }

  /** One record that advances some group lowers no group's rank. */
  lemma RankNeverFallsStep(log: seq<Record>, r: Record, g: string)
    requires Progressing(log + [r])
    ensures 0 <= Rank(log, g) <= Rank(log + [r], g)
  {
    LastStep(log, r);
    PhaseMoves(log, r, g, Expand);
    PhaseMoves(log, r, g, Backfill);
    PhaseMoves(log, r, g, Switch);
    PhaseMoves(log, r, g, Contract);
    ProgressingStatuses(log, g, Backfill);
    DerivedIsLast(log, g, Backfill);
    GroupRises(DeriveGroupState(log, g), DeriveGroupState(log + [r], g));
  }

  lemma GroupRises(s: GroupState, t: GroupState)
    requires s.state == ComputeState(s.expand, s.backfill, s.switch, s.contract)
    requires t.state == ComputeState(t.expand, t.backfill, t.switch, t.contract)
    requires Moves(s.expand, t.expand) && Moves(s.backfill, t.backfill)
    requires Moves(s.switch, t.switch) && Moves(s.contract, t.contract)
    requires s.backfill.Some? ==> s.backfill.value.status == Running || s.backfill.value.status == Applied
    ensures 0 <= StateIndex(s.state) <= StateIndex(t.state)
  {
    StateRises(s.expand, s.backfill, s.switch, s.contract, t.expand, t.backfill, t.switch, t.contract);
  }

  lemma PrefixStep(log: seq<Record>, j: nat)
    requires 0 < j <= |log|
    ensures log[..j] == log[..j - 1] + [log[j - 1]]
  {
  }

  lemma RankStepAt(log: seq<Record>, j: nat, g: string)
    requires Progressing(log) && 0 < j <= |log|
    ensures Rank(log[..j - 1], g) <= Rank(log[..j], g)
  {
    ProgressingPrefix(log, j);
    PrefixStep(log, j);
    RankNeverFallsStep(log[..j - 1], log[j - 1], g);
  }

  /** No group's rank ever falls along a progressing log. */
  lemma RankNeverFalls(log: seq<Record>, i: nat, j: nat, g: string)
    requires Progressing(log) && i <= j <= |log|
    ensures Rank(log[..i], g) <= Rank(log[..j], g)
  {
    var ranks := seq(|log| + 1, k requires 0 <= k <= |log| => Rank(log[..k], g));
    forall k | 0 < k < |ranks| ensures ranks[k - 1] <= ranks[k] { RankStepAt(log, k, g); }
    Climbs(ranks, i, j);
  }

  lemma {:induction false} Climbs(ranks: seq<int>, i: nat, j: nat)
    requires i <= j < |ranks| && forall k :: 0 < k < |ranks| ==> ranks[k - 1] <= ranks[k]
    ensures ranks[i] <= ranks[j]
    decreases j - i
  {
    if i < j { Climbs(ranks, i, j - 1); }
  }

  lemma RankIsNotNegative(log: seq<Record>, g: string)
    requires Progressing(log)
    ensures Rank(log, g) >= 0
  {
    ProgressingStatuses(log, g, Backfill);
    DerivedIsLast(log, g, Backfill);
  }

  lemma {:induction false} NamesGrow(log: seq<Record>, i: nat, j: nat)
    requires i <= j <= |log|
    ensures GroupNames(log[..i]) <= GroupNames(log[..j])
    decreases j - i
  {
    if i < j {
      NamesGrow(log, i, j - 1);
      assert log[..j][..j - 1] == log[..j - 1];
    }
  }

  /** Groups that appear later do not change which group a name finds. */
  lemma {:induction false} FindStable(states: seq<GroupState>, later: seq<GroupState>, name: string)
    requires |states| <= |later| && forall k :: 0 <= k < |states| ==> later[k].group == states[k].group
    requires FindState(states, name).Some?
    ensures FindState(later, name).Some? && FindState(later, name).value.group == FindState(states, name).value.group
  {
    if !Answers(states[0], name) { FindStable(states[1..], later[1..], name); }
  }

  lemma FoundIsDerived(log: seq<Record>, name: string)
    ensures var r := FindState(StatesOf(log, GroupNames(log)), name);
      r.Some? ==> r.value == DeriveGroupState(log, r.value.group)
  {
    var states := StatesOf(log, GroupNames(log));
    var r := FindState(states, name);
    if r.Some? {
      var k :| 0 <= k < |states| && states[k] == r.value;
    }
  }

  lemma HigherRankMatches(current: StateName, next: StateName, target: string)
    requires MatchesState(current, target) && 0 <= StateIndex(current) <= StateIndex(next)
    ensures MatchesState(next, target)
  {
    TextHasIndex(current);
    TextHasIndex(next);
  }

  function AllStates(log: seq<Record>): seq<GroupState> {
    StatesOf(log, GroupNames(log))
  }

  /** A name that finds a group finds the same one later, at no lower rank. */
  lemma FoundLater(log: seq<Record>, i: nat, j: nat, name: string)
    requires Progressing(log) && i <= j <= |log|
    requires FindState(AllStates(log[..i]), name).Some?
    ensures FindState(AllStates(log[..j]), name).Some?
    ensures var s, t := FindState(AllStates(log[..i]), name).value, FindState(AllStates(log[..j]), name).value;
      t.group == s.group && 0 <= StateIndex(s.state) <= StateIndex(t.state)
  {
    NamesGrow(log, i, j);
    FindStable(AllStates(log[..i]), AllStates(log[..j]), name);
    FoundIsDerived(log[..i], name);
    FoundIsDerived(log[..j], name);
    var g := FindState(AllStates(log[..i]), name).value.group;
    RankNeverFalls(log, i, j, g);
    ProgressingPrefix(log, i);
    RankIsNotNegative(log[..i], g);
  }

  /**
   * Along a progressing log a required condition, once satisfied, stays satisfied, also when it
   * names its group by short name and new groups appear.
   */
  lemma RequireStaysSatisfied(log: seq<Record>, i: nat, j: nat, condition: string)
    requires Progressing(log) && i <= j <= |log|
    requires EvaluateCondition(AllStates(log[..i]), condition)
    ensures EvaluateCondition(AllStates(log[..j]), condition)
  {
    var c := ParseCondition(condition).value;
    FoundLater(log, i, j, c.group);
    HigherRankMatches(FindState(AllStates(log[..i]), c.group).value.state,
                      FindState(AllStates(log[..j]), c.group).value.state, c.state);
  }
}
