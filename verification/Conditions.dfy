/**
 * The conditions of the deployment gate (src/commands/gate.ts:83-123): how they are written, which
 * group they find, and which states meet them.
 */
module Conditions {
  import opened Options
  import opened Records
  import opened GroupStates

  predicate IsLineEnd(c: char) {
    c == '\n' || c == '\r' || c == '\U{2028}' || c == '\U{2029}'
  }

  /** Matched by .+ to the end of the text. */
  predicate IsRestOfLine(s: string) {
    s != "" && forall c | c in s :: !IsLineEnd(c)
  }

  function FirstDot(s: string): Option<nat> {
    if s == "" then None
    else if s[0] == '.' then Some(0)
    else match FirstDot(s[1..]) case None => None case Some(k) => Some(k + 1)
  }

  lemma {:induction false} FirstDotBound(s: string)
    ensures FirstDot(s).Some? ==> FirstDot(s).value < |s|
  {
    if s != "" { FirstDotBound(s[1..]); }
  }

  datatype Condition = Condition(group: string, state: string)

  /** /^group:([^.]+)\.(.+)$/ (src/commands/gate.ts:84). */
  function ParseCondition(text: string): Option<Condition> {
    if !("group:" <= text) then None
    else
      var rest := text[|"group:"|..];
      match FirstDot(rest)
      case None => None
      case Some(k) =>
        FirstDotBound(rest);
        if k > 0 && IsRestOfLine(rest[k + 1..]) then Some(Condition(rest[..k], rest[k + 1..])) else None
  }

  /** The text after the first "__" that leaves something, else the whole name (src/commands/gate.ts:100-103). */
  function ShortNameFrom(name: string, whole: string): string {
    if |name| < 3 then whole
    else if name[0] == '_' && name[1] == '_' && IsRestOfLine(name[2..]) then name[2..]
    else ShortNameFrom(name[1..], whole)
  }

  function ExtractShortName(name: string): string {
    ShortNameFrom(name, name)
  }

  function StateText(s: StateName): string {
    match s
    case NotApplied => "not_applied"
    case ExpandApplied => "expand_applied"
    case BackfillRunning => "backfill_running"
    case BackfillFailed => "backfill_failed"
    case BackfillCompleted => "backfill_completed"
    case SwitchApplied => "switch_applied"
    case ContractReady => "contract_ready"
    case ContractCompleted => "contract_completed"
  }

  /** indexOf in stateOrder (src/commands/gate.ts:108-119); backfill_failed is not in it. */
  function OrderIndex(text: string): int {
    if text == "not_applied" then 0
    else if text == "expand_applied" then 1
    else if text == "backfill_running" then 2
    else if text == "backfill_completed" then 3
    else if text == "switch_applied" then 4
    else if text == "contract_ready" then 5
    else if text == "contract_completed" then 6
    else -1
  }

  predicate MatchesState(current: StateName, target: string) {
    if StateText(current) == target then true
    else
      var currentIdx, targetIdx := OrderIndex(StateText(current)), OrderIndex(target);
      currentIdx != -1 && targetIdx != -1 && currentIdx >= targetIdx
  }

  predicate Answers(s: GroupState, group: string) {
    s.group == group || ExtractShortName(s.group) == group
  }

  /** groupStates.find: the first state that answers to the name. */
  function FindState(states: seq<GroupState>, group: string): (r: Option<GroupState>)
    ensures r.None? ==> forall s :: s in states ==> !Answers(s, group)
    ensures r.Some? ==> r.value in states && Answers(r.value, group)
  {
    if states == [] then None
    else if Answers(states[0], group) then Some(states[0])
    else
      assert states == [states[0]] + states[1..];
      FindState(states[1..], group)
  }

  // ---- How a condition is written ----

  ghost predicate OneLine(s: string) {
    s != "" && '\n' !in s && '\r' !in s && '\U{2028}' !in s && '\U{2029}' !in s
  }

  lemma RestOfLineMeans(s: string)
    ensures IsRestOfLine(s) <==> OneLine(s)
  {
  }

  lemma {:induction false} FirstDotMeans(s: string, k: nat)
    ensures FirstDot(s) == Some(k) <==> k < |s| && s[k] == '.' && '.' !in s[..k]
  {
    if s != "" && s[0] != '.' {
      assert k > 0 && k <= |s| ==> s[..k] == [s[0]] + s[1..][..k - 1];
      if k > 0 { FirstDotMeans(s[1..], k - 1); }
    }
  }

  ghost predicate IsCondition(text: string, name: string, state: string) {
    text == "group:" + (name + ("." + state)) && name != "" && '.' !in name && OneLine(state)
  }

  lemma DotBetween(name: string, state: string)
    requires '.' !in name
    ensures var rest := name + ("." + state);
      FirstDot(rest) == Some(|name|) && rest[..|name|] == name && rest[|name| + 1..] == state
  {
    var rest := name + ("." + state);
    assert rest[..|name|] == name && rest[|name|] == '.';
    FirstDotMeans(rest, |name|);
  }

  /** A text is a condition on a name and a state exactly when it is written so. */
  lemma ParseMeans(text: string, name: string, state: string)
    ensures ParseCondition(text) == Some(Condition(name, state)) <==> IsCondition(text, name, state)
  {
    if IsCondition(text, name, state) {
      var rest := name + ("." + state);
      assert text[|"group:"|..] == rest;
      DotBetween(name, state);
      RestOfLineMeans(state);
    }
    if ParseCondition(text) == Some(Condition(name, state)) { ParsedIsCondition(text); }
  }

  lemma ParsedIsCondition(text: string)
    requires ParseCondition(text).Some?
    ensures var c := ParseCondition(text).value; IsCondition(text, c.group, c.state)
  {
    var rest := text[|"group:"|..];
    var k := FirstDot(rest).value;
    FirstDotMeans(rest, k);
    RestOfLineMeans(rest[k + 1..]);
    assert text == "group:" + rest;
    assert rest == rest[..k] + ("." + rest[k + 1..]);
  }

  // ---- Which names find a group ----

  ghost predicate SplitsAt(name: string, k: nat) {
    k + 2 < |name| && name[k] == '_' && name[k + 1] == '_' && OneLine(name[k + 2..])
  }

  /** What follows the first two underscores that leave a line; the whole name if there are none. */
  ghost predicate IsShortName(name: string, short: string) {
    || (exists k: nat :: SplitsAt(name, k) && short == name[k + 2..] && forall j: nat :: j < k ==> !SplitsAt(name, j))
    || (short == name && forall k: nat :: !SplitsAt(name, k))
  }

  lemma {:induction false} ShortNameStep(whole: string, i: nat)
    requires i <= |whole| && forall j: nat :: j < i ==> !SplitsAt(whole, j)
    ensures IsShortName(whole, ShortNameFrom(whole[i..], whole))
    decreases |whole| - i
  {
    var name := whole[i..];
    if |name| >= 3 {
      assert name[2..] == whole[i + 2..] && name[1..] == whole[i + 1..];
      RestOfLineMeans(name[2..]);
      if name[0] == '_' && name[1] == '_' && IsRestOfLine(name[2..]) {
        assert SplitsAt(whole, i);
      } else {
        ShortNameStep(whole, i + 1);
      }
    }
  }

  lemma ShortNameIsUnique(name: string, short: string, other: string)
    requires IsShortName(name, short) && IsShortName(name, other)
    ensures short == other
  {
  }

  lemma ShortNameMeans(name: string, short: string)
    ensures ExtractShortName(name) == short <==> IsShortName(name, short)
  {
    assert name[0..] == name;
    ShortNameStep(name, 0);
    if IsShortName(name, short) { ShortNameIsUnique(name, short, ExtractShortName(name)); }
  }

  /** A group answers to its name and to its short name. */
  ghost predicate IsCalled(group: string, name: string) {
    group == name || IsShortName(group, name)
  }

  /** The first of the groups that answers to the name. */
  ghost predicate IsFirstCalled(groups: seq<string>, name: string, group: string) {
    exists i :: 0 <= i < |groups| && groups[i] == group && IsCalled(group, name)
      && forall j :: 0 <= j < i ==> !IsCalled(groups[j], name)
  }

  lemma AnswersMeans(s: GroupState, name: string)
    ensures Answers(s, name) <==> IsCalled(s.group, name)
  {
    ShortNameMeans(s.group, name);
  }

  lemma {:induction false} FindMeans(states: seq<GroupState>, groups: seq<string>, name: string)
    requires |states| == |groups| && forall k :: 0 <= k < |states| ==> states[k].group == groups[k]
    ensures forall g :: IsFirstCalled(groups, name, g) <==>
      FindState(states, name).Some? && FindState(states, name).value.group == g
  {
    if states != [] {
      AnswersMeans(states[0], name);
      FindMeans(states[1..], groups[1..], name);
      forall g ensures IsFirstCalled(groups, name, g) <==>
        if IsCalled(groups[0], name) then g == groups[0] else IsFirstCalled(groups[1..], name, g)
      {
        FirstCalledStep(groups, name, g);
      }
    }
  }

  lemma FirstCalledStep(groups: seq<string>, name: string, g: string)
    requires groups != []
    ensures IsFirstCalled(groups, name, g) <==>
      if IsCalled(groups[0], name) then g == groups[0] else IsFirstCalled(groups[1..], name, g)
  {
    var rest := groups[1..];
    if IsCalled(groups[0], name) {
      if g == groups[0] { assert groups[0] == g; }
    } else {
      if IsFirstCalled(groups, name, g) {
        var i :| 0 <= i < |groups| && groups[i] == g && IsCalled(g, name)
          && forall j :: 0 <= j < i ==> !IsCalled(groups[j], name);
        assert rest[i - 1] == g;
      }
      if IsFirstCalled(rest, name, g) {
        var i :| 0 <= i < |rest| && rest[i] == g && IsCalled(g, name)
          && forall j :: 0 <= j < i ==> !IsCalled(rest[j], name);
        assert groups[i + 1] == g;
        forall j | 0 <= j < i + 1 ensures !IsCalled(groups[j], name) {
          if j > 0 { assert groups[j] == rest[j - 1]; }
        }
      }
    }
  }

  // ---- Which states meet a condition ----

  /** Said of the latest records of a group's phases. */
  ghost predicate Meets(expand: Option<Record>, backfill: Option<Record>, switchRec: Option<Record>,
                        contract: Option<Record>, target: string)
  {
    if !(expand.Some? && expand.value.status == Applied) then
      target == "not_applied"
    else if contract.Some? && contract.value.status == Applied then
      target in {"not_applied", "expand_applied", "backfill_running", "backfill_completed", "switch_applied",
        "contract_ready", "contract_completed"}
    else if switchRec.Some? && switchRec.value.status == Applied then
      target in {"not_applied", "expand_applied", "backfill_running", "backfill_completed", "switch_applied",
        "contract_ready"}
    else if backfill.Some? && backfill.value.status == Running then
      target in {"not_applied", "expand_applied", "backfill_running"}
    else if backfill.Some? && backfill.value.status == Failed then
      target == "backfill_failed"
    else if backfill.Some? && backfill.value.status == Applied then
      target in {"not_applied", "expand_applied", "backfill_running", "backfill_completed"}
    else
      target in {"not_applied", "expand_applied"}
  }

  /** Two of the targets, said without the others. */
  lemma TwoTargets(e: Option<Record>, b: Option<Record>, s: Option<Record>, c: Option<Record>)
    ensures Meets(e, b, s, c, "contract_completed") <==> HasStatus(e, Applied) && HasStatus(c, Applied)
    ensures Meets(e, b, s, c, "expand_applied") <==>
      HasStatus(e, Applied) && (HasStatus(b, Failed) ==> HasStatus(s, Applied) || HasStatus(c, Applied))
  {
  }

  /** A state below the one asked for does not meet the condition. */
  lemma LowerStateDoesNotMatch(current: StateName, target: StateName)
    requires OrderIndex(StateText(current)) < OrderIndex(StateText(target))
    ensures !MatchesState(current, StateText(target))
  {
  }

  lemma MatchesMeans(current: StateName, target: string)
    ensures MatchesState(current, target) <==> match current
      case NotApplied => target == "not_applied"
      case ExpandApplied => target in {"not_applied", "expand_applied"}
      case BackfillRunning => target in {"not_applied", "expand_applied", "backfill_running"}
      case BackfillFailed => target == "backfill_failed"
      case BackfillCompleted => target in {"not_applied", "expand_applied", "backfill_running", "backfill_completed"}
      case SwitchApplied => target in {"not_applied", "expand_applied", "backfill_running", "backfill_completed",
        "switch_applied"}
      case ContractReady => target in {"not_applied", "expand_applied", "backfill_running", "backfill_completed",
        "switch_applied", "contract_ready"}
      case ContractCompleted => target in {"not_applied", "expand_applied", "backfill_running", "backfill_completed",
        "switch_applied", "contract_ready", "contract_completed"}
  {
  }

  /** Which conditions the state computed from the latest records meets. */
  lemma ComputedMeets(e: Option<Record>, b: Option<Record>, s: Option<Record>, c: Option<Record>, target: string)
    ensures MatchesState(ComputeState(e, b, s, c), target) <==> Meets(e, b, s, c, target)
  {
    MatchesMeans(ComputeState(e, b, s, c), target);
  }

  /** A group has reached the target, by the last records of its phases in the log. */
  ghost predicate HasReached(log: seq<Record>, group: string, target: string) {
    Meets(LastOfPhase(log, group, Expand), LastOfPhase(log, group, Backfill), LastOfPhase(log, group, Switch),
          LastOfPhase(log, group, Contract), target)
  }

  lemma DerivedReaches(log: seq<Record>, group: string, target: string)
    requires Chronological(log)
    ensures MatchesState(DeriveGroupState(log, group).state, target) <==> HasReached(log, group, target)
  {
    var s := DeriveGroupState(log, group);
    DerivedIsLast(log, group, Expand);
    DerivedIsLast(log, group, Backfill);
    DerivedIsLast(log, group, Switch);
    DerivedIsLast(log, group, Contract);
    ComputedMeets(s.expand, s.backfill, s.switch, s.contract, target);
  }
}
