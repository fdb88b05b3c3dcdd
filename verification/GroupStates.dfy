/** The state of an expand/contract group, derived from the log (src/group-state.ts). */
module GroupStates {
  import opened Options
  import opened Records

  datatype StateName =
    | NotApplied | ExpandApplied | BackfillRunning | BackfillFailed | BackfillCompleted
    | SwitchApplied | ContractReady | ContractCompleted

  datatype GroupState = GroupState(group: string, state: StateName, expand: Option<Record>, backfill: Option<Record>,
                                   switch: Option<Record>, contract: Option<Record>)
  {
    function PhaseRecord(phase: Phase): Option<Record> {
      match phase
      case Expand => expand
      case Backfill => backfill
      case Switch => switch
      case Contract => contract
    }
  }

  predicate HasStatus(r: Option<Record>, status: Status) {
    r.Some? && r.value.status == status
  }

  function ComputeState(expand: Option<Record>, backfill: Option<Record>, switchRec: Option<Record>,
                        contract: Option<Record>): StateName {
    if !HasStatus(expand, Applied) then NotApplied
    else if HasStatus(contract, Applied) then ContractCompleted
    else if HasStatus(switchRec, Applied) then ContractReady
    else if HasStatus(backfill, Running) then BackfillRunning
    else if HasStatus(backfill, Failed) then BackfillFailed
    else if HasStatus(backfill, Applied) then BackfillCompleted
    else ExpandApplied
  }

  function LatestForPhase(log: seq<Record>, group: string, phase: Phase): Option<Record> {
    Latest(PhaseRecords(log, group, phase))
  }

  function DeriveGroupState(log: seq<Record>, group: string): GroupState {
    var e := LatestForPhase(log, group, Expand);
    var b := LatestForPhase(log, group, Backfill);
    var s := LatestForPhase(log, group, Switch);
    var c := LatestForPhase(log, group, Contract);
    GroupState(group, ComputeState(e, b, s, c), e, b, s, c)
  }

  predicate IsGroupOpen(s: GroupState) {
    s.state != ContractCompleted && s.state != NotApplied
  }

  predicate AppliedIfPresent(r: Option<Record>) {
    r.Some? ==> r.value.status == Applied
  }

  predicate CanAdvanceToPhase(s: GroupState, phase: Phase) {
    match phase
    case Expand => true
    case Backfill => HasStatus(s.expand, Applied)
    case Switch => HasStatus(s.expand, Applied) && AppliedIfPresent(s.backfill)
    case Contract => HasStatus(s.expand, Applied) && AppliedIfPresent(s.backfill) && AppliedIfPresent(s.switch)
  }

  // ---- Positions in the log ----

  /** j is the last position before i that records the phase of the group. */
  ghost predicate IsLastBefore(log: seq<Record>, i: nat, j: nat, group: string, phase: Phase) {
    && j < i <= |log| && Matches(log[j], group, phase)
    && forall k :: j < k < i ==> !Matches(log[k], group, phase)
  }

  ghost predicate RecordedBefore(log: seq<Record>, i: nat, group: string, phase: Phase)
    requires i <= |log|
  {
    exists j :: 0 <= j < i && Matches(log[j], group, phase)
  }

  ghost predicate LastBeforeIsApplied(log: seq<Record>, i: nat, group: string, phase: Phase) {
    exists j: nat :: IsLastBefore(log, i, j, group, phase) && log[j].status == Applied
  }

  /** The derived phase record is the one at the last matching position. */
  lemma {:induction false} LastOfPhaseIsAt(log: seq<Record>, group: string, phase: Phase) returns (j: nat)
    ensures LastOfPhase(log, group, phase).None? ==> !RecordedBefore(log, |log|, group, phase)
    ensures LastOfPhase(log, group, phase).Some? ==>
      IsLastBefore(log, |log|, j, group, phase) && log[j] == LastOfPhase(log, group, phase).value
  {
    j := 0;
    if log != [] {
      var init, last := log[..|log| - 1], log[|log| - 1];
      if Matches(last, group, phase) {
        j := |log| - 1;
      } else {
        j := LastOfPhaseIsAt(init, group, phase);
        assert forall k :: 0 <= k < |init| ==> init[k] == log[k];
      }
    }
  }

  lemma DerivedIsLast(log: seq<Record>, group: string, phase: Phase)
    requires Chronological(log)
    ensures DeriveGroupState(log, group).PhaseRecord(phase) == LastOfPhase(log, group, phase)
  {
    LatestOfPhase(log, group, phase);
  }

  /** A group is completed when its latest expand and contract records are both applied. */
  lemma CompletedMeans(log: seq<Record>, g: string)
    requires Chronological(log)
    ensures DeriveGroupState(log, g).state == ContractCompleted <==>
      HasStatus(LastOfPhase(log, g, Expand), Applied) && HasStatus(LastOfPhase(log, g, Contract), Applied)
  {
    DerivedIsLast(log, g, Expand);
    DerivedIsLast(log, g, Contract);
  }

  /** A group is open from its expand until its contract. */
  lemma OpenMeans(log: seq<Record>, g: string)
    requires Chronological(log)
    ensures IsGroupOpen(DeriveGroupState(log, g)) <==>
      HasStatus(LastOfPhase(log, g, Expand), Applied) && !HasStatus(LastOfPhase(log, g, Contract), Applied)
  {
    DerivedIsLast(log, g, Expand);
    DerivedIsLast(log, g, Contract);
  }
}
