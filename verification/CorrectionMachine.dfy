/**
 * Corrections move through their policy's steps: each step once, in order, and the record changes
 * once, when the last step is approved.
 */
module CorrectionMachine {
  import opened Common
  import opened Least
  import opened Totals
  import opened PunchMoves
  import opened MissingCheckOut
  import opened Approvers
  import opened Policies
  import opened HolidayConflict
  import opened Engine
  import Payroll

  ghost predicate Prefix(approvals: seq<Approval>, steps: seq<PolicyStep>) {
    && |approvals| <= |steps|
    && forall i :: 0 <= i < |approvals| ==> approvals[i].step == steps[i].id && approvals[i].number == steps[i].number
  }

  ghost predicate AllApproved(approvals: seq<Approval>) {
    forall i :: 0 <= i < |approvals| ==> approvals[i].approved
  }

  ghost predicate NoneBy(approvals: seq<Approval>, own: Option<nat>) {
    forall i :: 0 <= i < |approvals| ==> own != Some(approvals[i].approver)
  }

  /**
   * Where a correction stands against its steps: while undecided, approved up to some proper prefix;
   * accepted, approved throughout; declined, approved up to the one step that declined it. Nobody
   * approves their own record.
   */
  ghost predicate Sound(c: Correction, policies: Table, own: Option<nat>) {
    if c.policy.None? then c.approvals == [] && c.status.Undecided?
    else
      && c.policy.value in policies
      && var steps := policies[c.policy.value].steps;
         var n := |c.approvals|;
         && Prefix(c.approvals, steps) && NoneBy(c.approvals, own)
         && match c.status
            case Undecided => n < |steps| && AllApproved(c.approvals)
            case Accepted => n == |steps| && AllApproved(c.approvals)
            case Declined => n > 0 && AllApproved(c.approvals[..n - 1]) && !c.approvals[n - 1].approved
  }

  ghost predicate StepsAscend(policies: Table) {
    forall id :: id in policies ==> policies[id].steps != [] && Ascending(policies[id].steps)
  }

  ghost predicate AllSound(org: Organization, s: State) {
    forall id :: id in s.corrections ==>
      Sound(s.corrections[id], s.policies, StaffOf(org, s.corrections[id].key.employee).user)
  }

  ghost predicate RowsInPlace(s: State) {
    && (forall id :: id in s.corrections ==> id < s.nextId && s.corrections[id].key in s.records)
    && (forall id :: id in s.policies ==> id < s.nextId)
  }

  ghost predicate MachineSound(org: Organization, s: State) {
    StepsAscend(s.policies) && AllSound(org, s) && RowsInPlace(s) && OneDefault(s.policies)
  }

  // ---- The pending step is the next one ----

  lemma {:induction false} PendingStepFrom(steps: seq<PolicyStep>, approvals: seq<Approval>, k: nat)
    requires Ascending(steps) && Prefix(approvals, steps) && k <= |approvals|
    ensures PendingStep(steps[k..], approvals) == if |approvals| < |steps| then Some(steps[|approvals|]) else None
    decreases |approvals| - k
  {
    if k < |steps| {
      var rest := steps[k..];
      assert rest[1..] == steps[k + 1..];
      if k < |approvals| {
        assert approvals[k] in approvals && approvals[k].step == rest[0].id;
        PendingStepFrom(steps, approvals, k + 1);
      } else {
        forall a | a in approvals ensures a.step != rest[0].id {
          var i :| 0 <= i < |approvals| && approvals[i] == a;
          assert steps[i].id != steps[k].id;
        }
      }
    }
  }

  /** Looking for an undecided step by id finds the one right after those decided, if any is left. */
  lemma PendingStepIsNext(steps: seq<PolicyStep>, approvals: seq<Approval>)
    requires Ascending(steps) && Prefix(approvals, steps)
    ensures PendingStep(steps, approvals) == if |approvals| < |steps| then Some(steps[|approvals|]) else None
  {
  }

  lemma MoreStepsFollow(steps: seq<PolicyStep>, k: nat)
    requires Ascending(steps) && k < |steps|
    ensures HasMoreSteps(steps, steps[k].number) <==> k + 1 < |steps|
  {
    if k + 1 < |steps| {
      assert steps[k + 1] in steps;
    }
    assert forall i :: 0 <= i <= k ==> steps[i].number <= steps[k].number;
    forall s | s in steps && s.number > steps[k].number ensures k + 1 < |steps| {
      var i :| 0 <= i < |steps| && steps[i] == s;
    }
  }

  // ---- One decision ----

  /**
   * An accepted decision settles exactly the next step. The correction is declined by any refusal,
   * accepted by the last approval, and stays undecided otherwise; the steps left go down by one. The
   * record changes when the correction is accepted, and only then.
   */
  lemma DecideSettlesNextStep(org: Organization, request: Request, s: State, id: nat, approve: bool,
      replacement: Replacement)
    requires MachineSound(org, s) && Decide(org, request, s, id, approve, replacement).Ok?
    ensures var t := Decide(org, request, s, id, approve, replacement).value;
            var before, after := s.corrections[id], t.corrections[id];
            var steps, k := StepsOf(s, before), |before.approvals|;
            && before.status.Undecided? && before.policy.Some? && k < |steps| && request.user.Some?
            && after == before.(
                 approvals := before.approvals + [Approval(steps[k].id, steps[k].number, request.user.value, approve)],
                 after := Replaced(before.after, replacement),
                 status := if !approve then Declined else if k + 1 < |steps| then Undecided else Accepted)
            && t.corrections == s.corrections[id := after]
            && (t.records != s.records <==> after.status.Accepted?)
    ensures StaffOf(org, s.corrections[id].key.employee).user != request.user
  {
    var c := s.corrections[id];
    var steps := StepsOf(s, c);
    PendingStepIsNext(steps, c.approvals);
    MoreStepsFollow(steps, |c.approvals|);
    var t := Decide(org, request, s, id, approve, replacement).value;
    if t.corrections[id].status.Accepted? {
      assert t.records[c.key].version == s.records[c.key].version + 1;
    }
  }

  /** Adding the next step's decision to a sound undecided correction leaves it sound. */
  lemma DecidedIsSound(before: Correction, policies: Table, own: Option<nat>, user: nat, approve: bool,
      snapshot: Snapshot)
    requires Sound(before, policies, own) && before.status.Undecided? && before.policy.Some? && own != Some(user)
    ensures var steps, k := policies[before.policy.value].steps, |before.approvals|;
            k < |steps| &&
            Sound(before.(approvals := before.approvals + [Approval(steps[k].id, steps[k].number, user, approve)],
                          after := snapshot,
                          status := if !approve then Declined else if k + 1 < |steps| then Undecided else Accepted),
                  policies, own)
  {
  }

  /** Replacing one correction by a sound one, with policies and records in place, leaves everything sound. */
  lemma OneCorrectionChanged(org: Organization, s: State, t: State, id: nat)
    requires MachineSound(org, s) && id in s.corrections && id in t.corrections
    requires t.policies == s.policies && s.nextId <= t.nextId && t.corrections == s.corrections[id := t.corrections[id]]
    requires t.corrections[id].key == s.corrections[id].key && forall key :: key in s.records ==> key in t.records
    requires Sound(t.corrections[id], s.policies, StaffOf(org, s.corrections[id].key.employee).user)
    ensures MachineSound(org, t)
  {
  }

  lemma DecideKeepsMachine(org: Organization, request: Request, s: State, id: nat, approve: bool,
      replacement: Replacement)
    requires MachineSound(org, s) && Decide(org, request, s, id, approve, replacement).Ok?
    ensures MachineSound(org, Decide(org, request, s, id, approve, replacement).value)
  {
    DecideSettlesNextStep(org, request, s, id, approve, replacement);
    var before := s.corrections[id];
    DecidedIsSound(before, s.policies, StaffOf(org, before.key.employee).user, request.user.value, approve,
                   Replaced(before.after, replacement));
    hide MachineSound, Decide, Sound, StaffOf, Payroll.MarkPayrollStale;
    OneCorrectionChanged(org, s, Decide(org, request, s, id, approve, replacement).value, id);
  }

  // ---- Raising and punching ----

  lemma CorrectionPolicyIsActive(policies: Table)
    requires CorrectionPolicy(policies).Some?
    ensures CorrectionPolicy(policies).value in ActiveIn(policies, AttendanceCorrection)
  {
  }

  /** Routing and reviewing use the policy any listing of the active ones would give. */
  lemma CorrectionPolicyIsChosen(policies: Table, ids: seq<nat>)
    requires OneDefault(policies) && ListsActive(policies, AttendanceCorrection, ids)
    ensures CorrectionPolicy(policies) == ChooseFrom(policies, ids)
  {
    ChoiceIsChosen(policies, AttendanceCorrection, ids);
    var active, defaults := ActiveIn(policies, AttendanceCorrection), ActiveDefaults(policies, AttendanceCorrection);
    var choice := ChooseFrom(policies, ids);
    var default, one := Earliest(defaults), Earliest(active);
    if default.Some? {
      assert IsChoice(policies, AttendanceCorrection, default.value);
      assert choice.Some? && policies[choice.value].isDefault;
    } else {
      forall id | id in active ensures !policies[id].isDefault { assert id !in defaults; }
      if one.Some? && |active| == 1 {
        OnlyMember(active, one.value);
        assert forall id :: id in policies && policies[id].domain == AttendanceCorrection && policies[id].isActive ==>
                 id in active;
        assert IsChoice(policies, AttendanceCorrection, one.value);
      }
      if choice.Some? {
        assert choice.value in active;
        assert forall id :: id in active ==> id == choice.value;
        assert active == {choice.value};
      }
    }
  }

  lemma OnlyMember(ids: set<nat>, id: nat)
    requires |ids| == 1 && id in ids
    ensures ids == {id}
  {
    SubsetSize({id}, ids);
  }

  lemma CreateCorrectionKeepsMachine(org: Organization, request: Request, s: State, key: Key, after: Snapshot)
    requires MachineSound(org, s) && key in s.records && CreateCorrection(org, request, s, key, after).Ok?
    ensures MachineSound(org, CreateCorrection(org, request, s, key, after).value)
  {
    CorrectionPolicyIsActive(s.policies);
  }

  lemma PunchKeepsMachine(org: Organization, request: Request, s: State, key: Key, kind: PunchKind, at: int,
      dayStatus: Option<DayStatus>, branch: Option<nat>, reviewRequired: bool)
    requires MachineSound(org, s) && PunchIn(org, request, s, key, kind, at, dayStatus, branch, reviewRequired).Ok?
    ensures MachineSound(org, PunchIn(org, request, s, key, kind, at, dayStatus, branch, reviewRequired).value)
  {
    hide ByTime, TotalsOf, PunchRefusal, Upserted, Payroll.MarkPayrollStale;
  }

  // ---- Policy edits ----

  lemma EditIsEdited(org: Organization, s: State, edit: PolicyEdit)
    requires EditPolicy(org, s, edit).Ok?
    ensures (EditOf(s, edit).CreatePolicy? ==> EditOf(s, edit).id !in s.policies)
            && Edited(s.policies, EditOf(s, edit), org.names).Ok?
    ensures EditPolicy(org, s, edit).value == s.(policies := Edited(s.policies, EditOf(s, edit), org.names).value,
                                                 nextId := s.nextId + IdsTaken(edit))
    ensures edit.NewPolicy? ==> EditOf(s, edit).id < s.nextId + IdsTaken(edit)
  {
  }

  /** The fence: a policy whose steps an approval refers to keeps those steps. */
  lemma StepsWithHistoryStay(org: Organization, s: State, edit: PolicyEdit, id: nat)
    requires MachineSound(org, s) && EditPolicy(org, s, edit).Ok?
    requires id in s.corrections && s.corrections[id].approvals != [] && s.corrections[id].policy.Some?
    ensures var p := s.corrections[id].policy.value;
            p in EditPolicy(org, s, edit).value.policies
            && EditPolicy(org, s, edit).value.policies[p].steps == s.policies[p].steps
  {
    hide EditPolicy, Edited, StoredSteps, ValidateSteps;
    EditIsEdited(org, s, edit);
    EditedStepsOnly(s.policies, EditOf(s, edit), org.names);
    var c := s.corrections[id];
    var steps := s.policies[c.policy.value].steps;
    assert Sound(c, s.policies, StaffOf(org, c.key.employee).user);
    assert steps[0] in steps && c.approvals[0].step == steps[0].id;
    if edit.ChangePolicy? {
      assert steps[0].id in History(s.corrections, edit.elsewhere);
    }
  }

  lemma EditedStepsAscend(org: Organization, s: State, edit: PolicyEdit)
    requires StepsAscend(s.policies) && EditPolicy(org, s, edit).Ok?
    ensures StepsAscend(EditPolicy(org, s, edit).value.policies)
    ensures forall id :: id in s.policies ==> id in EditPolicy(org, s, edit).value.policies
  {
    hide EditPolicy, Edited, StoredSteps, History;
    EditIsEdited(org, s, edit);
    var e := EditOf(s, edit);
    EditedStepsOnly(s.policies, e, org.names);
    if NewSteps(e).Some? { StoredStepsAscend(NewSteps(e).value.0, NewSteps(e).value.1); }
  }

  lemma EditKeepsDefault(org: Organization, s: State, edit: PolicyEdit)
    requires OneDefault(s.policies) && EditPolicy(org, s, edit).Ok?
    ensures OneDefault(EditPolicy(org, s, edit).value.policies)
  {
    hide EditPolicy, Edited;
    EditIsEdited(org, s, edit);
    EditKeepsOneDefault(s.policies, EditOf(s, edit), org.names);
  }

  lemma EditKeepsRows(org: Organization, s: State, edit: PolicyEdit)
    requires RowsInPlace(s) && EditPolicy(org, s, edit).Ok?
    ensures RowsInPlace(EditPolicy(org, s, edit).value)
  {
  }

  lemma EditKeepsMachine(org: Organization, s: State, edit: PolicyEdit)
    requires MachineSound(org, s) && EditPolicy(org, s, edit).Ok?
    ensures MachineSound(org, EditPolicy(org, s, edit).value)
  {
    EditedStepsAscend(org, s, edit);
    EditKeepsDefault(org, s, edit);
    EditKeepsRows(org, s, edit);
    hide EditPolicy, RowsInPlace, OneDefault, StaffOf;
    var t := EditPolicy(org, s, edit).value;
    forall id | id in t.corrections
      ensures Sound(t.corrections[id], t.policies, StaffOf(org, t.corrections[id].key.employee).user)
    {
      if t.corrections[id].approvals != [] {
        StepsWithHistoryStay(org, s, edit, id);
      } else {
        assert Sound(s.corrections[id], s.policies, StaffOf(org, s.corrections[id].key.employee).user);
      }
    }
  }

  // ---- Every operation ----

  /** Operations on reviews, selections and runs leave corrections and policies alone, and lose no record. */
  ghost predicate ElsewhereOnly(s: State, t: State) {
    && t.corrections == s.corrections && t.policies == s.policies && s.nextId <= t.nextId
    && forall key :: key in s.records ==> key in t.records
  }

  lemma ElsewhereKeepsMachine(org: Organization, s: State, t: State)
    requires MachineSound(org, s) && ElsewhereOnly(s, t)
    ensures MachineSound(org, t)
  {
  }

  /**
   * Every operation keeps every correction sound: approvals stay a prefix of the policy's steps,
   * policy edits included.
   */
  lemma PerformKeepsMachine(org: Organization, request: Request, s: State, a: Action)
    requires MachineSound(org, s) && Perform(org, request, s, a).Ok?
    ensures MachineSound(org, Perform(org, request, s, a).value)
  {
    hide PunchIn, Decide, DecideReview, RequestReview, CreateCorrection;
    hide SelectHoliday, CancelSelection, SetHolidayActive, EditPolicy, CreateRun, CalculateRun, AdvanceRun;
    hide MachineSound, AssertValidMissingCheckOut, NextPunchAfterOpenCheckIn, DaysOf, ByTime;
    var t := Perform(org, request, s, a).value;
    match a
    case DoPunch(key, kind, at, dayStatus, branch, reviewRequired) =>
      PunchKeepsMachine(org, request, s, key, kind, at, dayStatus, branch, reviewRequired);
    case DoRequestCorrection(key, after) =>
      CreateCorrectionKeepsMachine(org, request, s, key,
                                   if after.Some? then after.value else RecordSnapshot(s.records[key]));
    case DoRequestMissingCheckOut(key, checkOut) =>
      CreateCorrectionKeepsMachine(org, request, s, key,
                                   RecordSnapshot(s.records[key]).(missingCheckOut := Some(checkOut)));
    case DoAutoClose(key, closeAt) =>
      CreateCorrectionKeepsMachine(org, request, s, key, AutoCloseSnapshot(s.records[key], closeAt));
    case DoDecide(id, approve, replacement) => DecideKeepsMachine(org, request, s, id, approve, replacement);
    case DoEditPolicy(edit) => EditKeepsMachine(org, s, edit);
    case _ => ElsewhereKeepsMachine(org, s, t);
  }

  lemma DecideLeavesOthers(org: Organization, request: Request, s: State, id: nat, approve: bool,
      replacement: Replacement, other: nat)
    requires Decide(org, request, s, id, approve, replacement).Ok? && other != id
    ensures var t := Decide(org, request, s, id, approve, replacement).value;
            && (other in t.corrections <==> other in s.corrections)
            && (other in s.corrections ==> t.corrections[other] == s.corrections[other])
  {
  }

  lemma CreatedUndecided(org: Organization, request: Request, s: State, key: Key, after: Snapshot, id: nat)
    requires RowsInPlace(s) && key in s.records && CreateCorrection(org, request, s, key, after).Ok?
    ensures var t := CreateCorrection(org, request, s, key, after).value;
            && (id in s.corrections ==> id in t.corrections && t.corrections[id] == s.corrections[id])
            && (id in t.corrections && id !in s.corrections ==> t.corrections[id].status.Undecided?)
  {
  }

  lemma PunchLeavesCorrections(org: Organization, request: Request, s: State, key: Key, kind: PunchKind, at: int,
      dayStatus: Option<DayStatus>, branch: Option<nat>, reviewRequired: bool, id: nat)
    requires RowsInPlace(s) && PunchIn(org, request, s, key, kind, at, dayStatus, branch, reviewRequired).Ok?
    ensures var t := PunchIn(org, request, s, key, kind, at, dayStatus, branch, reviewRequired).value;
            && (id in s.corrections ==> id in t.corrections && t.corrections[id] == s.corrections[id])
            && (id in t.corrections && id !in s.corrections ==> t.corrections[id].status.Undecided?)
  {
  }

  /** Only a decision on a correction changes it, and every correction starts undecided. */
  lemma OthersLeaveCorrection(org: Organization, request: Request, s: State, a: Action, id: nat)
    requires RowsInPlace(s) && Perform(org, request, s, a).Ok? && !(a.DoDecide? && a.id == id)
    ensures var t := Perform(org, request, s, a).value;
            && (id in s.corrections ==> id in t.corrections && t.corrections[id] == s.corrections[id])
            && (id in t.corrections && id !in s.corrections ==> t.corrections[id].status.Undecided?)
  {
    hide PunchIn, Decide, DecideReview, RequestReview, CreateCorrection;
    hide SelectHoliday, CancelSelection, SetHolidayActive, EditPolicy, CreateRun, CalculateRun, AdvanceRun;
    hide RowsInPlace, AssertValidMissingCheckOut, NextPunchAfterOpenCheckIn, DaysOf, ByTime;
    match a
    case DoPunch(key, kind, at, dayStatus, branch, reviewRequired) =>
      PunchLeavesCorrections(org, request, s, key, kind, at, dayStatus, branch, reviewRequired, id);
    case DoRequestCorrection(key, after) =>
      CreatedUndecided(org, request, s, key, if after.Some? then after.value else RecordSnapshot(s.records[key]), id);
    case DoRequestMissingCheckOut(key, checkOut) =>
      CreatedUndecided(org, request, s, key, RecordSnapshot(s.records[key]).(missingCheckOut := Some(checkOut)), id);
    case DoAutoClose(key, closeAt) =>
      CreatedUndecided(org, request, s, key, AutoCloseSnapshot(s.records[key], closeAt), id);
    case DoDecide(other, approve, replacement) => DecideLeavesOthers(org, request, s, other, approve, replacement, id);
    case _ =>
  }

  // ---- A routed correction can be finished ----

  /** A correction raised by a punch has no policy, so nobody can ever decide it. */
  lemma UnroutedCorrectionIsNeverDecided(org: Organization, request: Request, s: State, id: nat, approve: bool,
      replacement: Replacement)
    requires id in s.corrections && s.corrections[id].policy.None?
    ensures Decide(org, request, s, id, approve, replacement).Err?
  {
  }

  /** The decision of one authorized user, asked without a branch filter and without a replacement. */
  function AskedBy(now: int, directory: Directory, user: nat): Request {
    Request(now, Some(user), false, None, directory)
  }

  /** The approvals of these users, one after another, all accepted. */
  function ApproveInTurn(org: Organization, now: int, directory: Directory, s: State, id: nat,
      users: seq<nat>): Result<State, Refusal>
    decreases |users|
  {
    if users == [] then Ok(s)
    else
      match Decide(org, AskedBy(now, directory, users[0]), s, id, true, AsProposed)
      case Ok(t) => ApproveInTurn(org, now, directory, t, id, users[1..])
      case Err(refusal) => Err(refusal)
  }

  /** What a correction would do to its record can be done at this moment. */
  predicate CanApply(now: int, s: State, c: Correction)
    requires c.key in s.records
  {
    CorrectedPunches(Request(now, None, false, None, Directory([], [])), s, c).Ok?
  }

  /** Every step of the correction's policy has an approver in the record's own branch. */
  ghost predicate Resolvable(org: Organization, now: int, directory: Directory, s: State, c: Correction)
    requires c.key in s.records && s.records[c.key].branch.Some?
  {
    var staff := StaffOf(org, c.key.employee);
    FirstUnresolvable(directory, s.records[c.key].branch.value, staff.manager, staff.user, StepsOf(s, c), now) == None
  }

  lemma NextApproverExists(org: Organization, now: int, directory: Directory, s: State, id: nat) returns (user: nat)
    requires MachineSound(org, s) && id in s.corrections && s.corrections[id].status.Undecided?
             && s.corrections[id].policy.Some?
    requires s.records[s.corrections[id].key].branch.Some? && Resolvable(org, now, directory, s, s.corrections[id])
    ensures DecideRefusal(org, AskedBy(now, directory, user), s, id, AsProposed) == None
  {
    var c := s.corrections[id];
    var steps, staff, branch := StepsOf(s, c), StaffOf(org, c.key.employee), s.records[c.key].branch.value;
    PendingStepIsNext(steps, c.approvals);
    RoutedStepsHaveApprovers(directory, branch, staff.manager, staff.user, steps, now);
    var step := steps[|c.approvals|];
    assert step in steps;
    assert SomeoneCanApprove(directory, staff.manager, step, branch, staff.user, now);
    user :| CanApprove(directory, user, staff.manager, step, Some(branch), staff.user, now);
  }

  /** Of a request only its moment matters to applying a correction. */
  lemma AskingIsEnough(request: Request, s: State, c: Correction)
    requires c.key in s.records
    ensures CanApply(request.now, s, c) <==> CorrectedPunches(request, s, c).Ok?
  {
    hide ByTime, AssertValidMissingCheckOut, CorrectionPunchUpdates, NextPunchAfterOpenCheckIn;
  }

  /** An authorized approval is accepted exactly when it is not the last, or the correction can be applied. */
  lemma ApprovalGoesThroughExactly(org: Organization, now: int, directory: Directory, s: State, id: nat, user: nat)
    requires MachineSound(org, s) && DecideRefusal(org, AskedBy(now, directory, user), s, id, AsProposed) == None
    ensures Decide(org, AskedBy(now, directory, user), s, id, true, AsProposed).Ok?
       <==> |s.corrections[id].approvals| + 1 < |StepsOf(s, s.corrections[id])| || CanApply(now, s, s.corrections[id])
    ensures Decide(org, AskedBy(now, directory, user), s, id, false, AsProposed).Ok?
  {
    var c, request := s.corrections[id], AskedBy(now, directory, user);
    PendingStepIsNext(StepsOf(s, c), c.approvals);
    MoreStepsFollow(StepsOf(s, c), |c.approvals|);
    hide MachineSound, DecideRefusal, PendingStep, HasMoreSteps, CanApply, CorrectedPunches, Applied;
    SameToApply(now, s, s, c, WithDecision(s, c, user, true, AsProposed));
    AskingIsEnough(request, s, WithDecision(s, c, user, true, AsProposed));
  }

  /** An approval that is not the last leaves everything as it was but the one decision added. */
  lemma EarlierApproval(org: Organization, now: int, directory: Directory, s: State, id: nat, user: nat)
    requires MachineSound(org, s) && DecideRefusal(org, AskedBy(now, directory, user), s, id, AsProposed) == None
    requires |s.corrections[id].approvals| + 1 < |StepsOf(s, s.corrections[id])|
    requires s.records[s.corrections[id].key].branch.Some? && Resolvable(org, now, directory, s, s.corrections[id])
    ensures Decide(org, AskedBy(now, directory, user), s, id, true, AsProposed).Ok?
    ensures var t := Decide(org, AskedBy(now, directory, user), s, id, true, AsProposed).value;
            && MachineSound(org, t) && id in t.corrections && t.records == s.records
            && t.corrections[id].status.Undecided? && t.corrections[id].policy.Some?
            && t.corrections[id].key == s.corrections[id].key
            && StepsOf(t, t.corrections[id]) == StepsOf(s, s.corrections[id])
            && |t.corrections[id].approvals| == |s.corrections[id].approvals| + 1
            && Resolvable(org, now, directory, t, t.corrections[id])
            && (CanApply(now, t, t.corrections[id]) <==> CanApply(now, s, s.corrections[id]))
  {
    hide StaffOf, FirstUnresolvable, CanApprove, CorrectedPunches, Applied;
    ApprovalGoesThroughExactly(org, now, directory, s, id, user);
    DecideSettlesNextStep(org, AskedBy(now, directory, user), s, id, true, AsProposed);
    DecideKeepsMachine(org, AskedBy(now, directory, user), s, id, true, AsProposed);
    var t := Decide(org, AskedBy(now, directory, user), s, id, true, AsProposed).value;
    assert t == s.(corrections := t.corrections);
    SameToApply(now, s, t, s.corrections[id], t.corrections[id]);
    hide MachineSound, Decide, CanApply, DecideRefusal;
  }

  lemma SameToApply(now: int, s: State, t: State, c: Correction, d: Correction)
    requires t.records == s.records && t.nextId == s.nextId && c.key in s.records
    requires d.key == c.key && d.after == c.after && d.byClient == c.byClient
    ensures CanApply(now, t, d) <==> CanApply(now, s, c)
  {
  }

  /**
   * A routed correction can be finished. While the policy and the directory stay as they were when
   * routing accepted them, some sequence of approvals, one per remaining step, ends with the
   * correction accepted, exactly when what it asks for can be applied to the record.
   */
  lemma {:induction false} RoutedCorrectionFinishes(org: Organization, now: int, directory: Directory, s: State,
      id: nat)
      returns (users: seq<nat>)
    requires MachineSound(org, s) && id in s.corrections && s.corrections[id].status.Undecided?
             && s.corrections[id].policy.Some?
    requires s.records[s.corrections[id].key].branch.Some? && Resolvable(org, now, directory, s, s.corrections[id])
    ensures |users| == |StepsOf(s, s.corrections[id])| - |s.corrections[id].approvals|
    ensures ApproveInTurn(org, now, directory, s, id, users).Ok? <==> CanApply(now, s, s.corrections[id])
    ensures ApproveInTurn(org, now, directory, s, id, users).Ok? ==>
              var t := ApproveInTurn(org, now, directory, s, id, users).value;
              id in t.corrections && t.corrections[id].status.Accepted?
    decreases |StepsOf(s, s.corrections[id])| - |s.corrections[id].approvals|
  {
    var c := s.corrections[id];
    assert |c.approvals| < |StepsOf(s, c)|;
    var user := NextApproverExists(org, now, directory, s, id);
    ApprovalGoesThroughExactly(org, now, directory, s, id, user);
    hide MachineSound, Resolvable, CanApply, DecideRefusal;
    if |c.approvals| + 1 < |StepsOf(s, c)| {
      EarlierApproval(org, now, directory, s, id, user);
      hide Decide, StepsOf;
      var t := Decide(org, AskedBy(now, directory, user), s, id, true, AsProposed).value;
      var rest := RoutedCorrectionFinishes(org, now, directory, t, id);
      users := [user] + rest;
      assert users[1..] == rest;
    } else {
      users := [user];
      if CanApply(now, s, c) {
        DecideSettlesNextStep(org, AskedBy(now, directory, user), s, id, true, AsProposed);
      }
      hide Decide, StepsOf;
      assert users[1..] == [];
    }
  }

  /**
   * A correction is created routed: to the chosen policy, every step of which has an approver in the
   * record's branch.
   */
  lemma CreatedIsRouted(org: Organization, request: Request, s: State, key: Key, after: Snapshot)
    requires MachineSound(org, s) && key in s.records && s.records[key].branch.Some?
    requires CreateCorrection(org, request, s, key, after).Ok?
    ensures var t := CreateCorrection(org, request, s, key, after).value;
            && s.nextId in t.corrections && t.records == s.records
            && var c := t.corrections[s.nextId];
               && c.key == key && c.status.Undecided? && c.after == after && c.approvals == []
               && c.policy == CorrectionPolicy(s.policies) && c.policy.Some?
               && Resolvable(org, request.now, request.directory, t, c)
  {
  }

  /**
   * From raising to the end: whatever was accepted for routing can be carried through by approvals,
   * one for each step, at that moment, exactly when what it asks for can be applied.
   */
  lemma CreatedCorrectionFinishes(org: Organization, request: Request, s: State, key: Key,
      after: Snapshot) returns (users: seq<nat>)
    requires MachineSound(org, s) && key in s.records && s.records[key].branch.Some?
    requires CreateCorrection(org, request, s, key, after).Ok?
    ensures var t, id := CreateCorrection(org, request, s, key, after).value, s.nextId;
            && id in t.corrections && t.corrections[id].key in t.records
            && |users| == |StepsOf(t, t.corrections[id])|
            && (ApproveInTurn(org, request.now, request.directory, t, id, users).Ok? <==>
                  CanApply(request.now, t, t.corrections[id]))
            && (ApproveInTurn(org, request.now, request.directory, t, id, users).Ok? ==>
                  var u := ApproveInTurn(org, request.now, request.directory, t, id, users).value;
                  id in u.corrections && u.corrections[id].status.Accepted?)
  {
    hide *;
    CreatedIsRouted(org, request, s, key, after);
    CreateCorrectionKeepsMachine(org, request, s, key, after);
    var t := CreateCorrection(org, request, s, key, after).value;
    users := RoutedCorrectionFinishes(org, request.now, request.directory, t, s.nextId);
  }

  // ---- Only records with a branch are routed ----

  ghost predicate HasBranch(s: State, key: Key) { key in s.records && s.records[key].branch.Some? }

  /** A record that has a branch keeps having one. */
  ghost predicate BranchesStay(s: State, t: State) { forall key :: HasBranch(s, key) ==> HasBranch(t, key) }

  ghost predicate RoutedHaveBranch(s: State) {
    forall id :: id in s.corrections && s.corrections[id].policy.Some? ==> HasBranch(s, s.corrections[id].key)
  }

  /** The sweep acts as the system, whose context names no branch. */
  predicate SystemNamesNoBranch(request: Request, a: Action) { a.DoAutoClose? ==> request.branch.None? }

  /**
   * Nobody gets a correction of a record without a branch accepted: a filter would not find it, and
   * without one none is named.
   */
  lemma BranchlessIsNeverRouted(org: Organization, request: Request, s: State, a: Action, key: Key)
    requires a.DoRequestCorrection? || a.DoRequestMissingCheckOut? || a.DoAutoClose?
    requires a.key == key && !HasBranch(s, key) && SystemNamesNoBranch(request, a)
    ensures Perform(org, request, s, a).Err?
  {
    hide AssertValidMissingCheckOut, NextPunchAfterOpenCheckIn, DaysOf, ByTime, MissingCheckOutPending;
    hide CorrectionPolicy;
  }

  lemma PunchKeepsBranches(org: Organization, request: Request, s: State, key: Key, kind: PunchKind, at: int,
      dayStatus: Option<DayStatus>, branch: Option<nat>, reviewRequired: bool)
    requires RoutedHaveBranch(s) && PunchIn(org, request, s, key, kind, at, dayStatus, branch, reviewRequired).Ok?
    ensures var t := PunchIn(org, request, s, key, kind, at, dayStatus, branch, reviewRequired).value;
            BranchesStay(s, t) && RoutedHaveBranch(t)
  {
    hide ByTime, TotalsOf, PunchRefusal, Payroll.MarkPayrollStale;
  }

  lemma DecideKeepsBranches(org: Organization, request: Request, s: State, id: nat, approve: bool,
      replacement: Replacement)
    requires RoutedHaveBranch(s) && Decide(org, request, s, id, approve, replacement).Ok?
    ensures var t := Decide(org, request, s, id, approve, replacement).value;
            BranchesStay(s, t) && RoutedHaveBranch(t)
  {
    hide CorrectedPunches, CanApprove, TotalsOf, Payroll.MarkPayrollStale;
  }

  lemma DecideReviewKeepsBranches(org: Organization, request: Request, s: State, id: nat, outcome: Outcome)
    requires DecideReview(org, request, s, id, outcome).Ok?
    ensures BranchesStay(s, DecideReview(org, request, s, id, outcome).value)
  {
    hide Settle, Payroll.MarkPayrollStale, MayDecide;
  }

  lemma CreatedKeepsBranches(org: Organization, request: Request, s: State, key: Key, after: Snapshot)
    requires RoutedHaveBranch(s) && HasBranch(s, key) && CreateCorrection(org, request, s, key, after).Ok?
    ensures RoutedHaveBranch(CreateCorrection(org, request, s, key, after).value)
  {
    hide RouteRefusal;
  }

  /** Every operation keeps every correction under a policy on a record that has a branch. */
  lemma PerformKeepsBranches(org: Organization, request: Request, s: State, a: Action)
    requires RoutedHaveBranch(s) && SystemNamesNoBranch(request, a) && Perform(org, request, s, a).Ok?
    ensures BranchesStay(s, Perform(org, request, s, a).value) && RoutedHaveBranch(Perform(org, request, s, a).value)
  {
    if a.DoRequestCorrection? || a.DoRequestMissingCheckOut? || a.DoAutoClose? {
      if !HasBranch(s, a.key) { BranchlessIsNeverRouted(org, request, s, a, a.key); }
    }
    hide PunchIn, Decide, DecideReview, RequestReview, CreateCorrection, MissingCheckOutPending;
    hide SelectHoliday, CancelSelection, SetHolidayActive, EditPolicy, CreateRun, CalculateRun, AdvanceRun;
    hide AssertValidMissingCheckOut, NextPunchAfterOpenCheckIn, DaysOf, ByTime;
    match a
    case DoPunch(key, kind, at, dayStatus, branch, reviewRequired) =>
      PunchKeepsBranches(org, request, s, key, kind, at, dayStatus, branch, reviewRequired);
    case DoRequestCorrection(key, after) =>
      CreatedKeepsBranches(org, request, s, key, if after.Some? then after.value else RecordSnapshot(s.records[key]));
    case DoRequestMissingCheckOut(key, checkOut) =>
      CreatedKeepsBranches(org, request, s, key, RecordSnapshot(s.records[key]).(missingCheckOut := Some(checkOut)));
    case DoAutoClose(key, closeAt) =>
      CreatedKeepsBranches(org, request, s, key, AutoCloseSnapshot(s.records[key], closeAt));
    case DoDecide(id, approve, replacement) => DecideKeepsBranches(org, request, s, id, approve, replacement);
    case DoDecideReview(id, outcome) => DecideReviewKeepsBranches(org, request, s, id, outcome);
    case _ =>
  }
}
