/**
 * What each operation of the engine answers and leaves behind, said on the rows themselves: when it
 * is accepted, what every field of the row it writes becomes, and that no other row changes.
 */
module Outcomes {
  import opened Common
  import opened Totals
  import opened PunchMoves
  import opened MissingCheckOut
  import opened Approvers
  import opened Policies
  import opened HolidayConflict
  import opened Engine
  import opened CorrectionMachine
  import opened HolidayMachine
  import opened RecordCache
  import opened AddedCheckOut
  import opened Sweep
  import Payroll
  import Sorting
  import WallClock

  // ---- What stays ----

  ghost predicate OtherRecordsStay(s: State, t: State, key: Key) {
    && t.records.Keys == s.records.Keys + {key}
    && forall other :: other in s.records && other != key ==> t.records[other] == s.records[other]
  }

  /** The calculated runs that cover this date are marked, and nothing else of any run changes. */
  ghost predicate RunsAreMarked(s: State, t: State, date: int) {
    && t.runs.Keys == s.runs.Keys
    && forall id :: id in s.runs ==>
         && t.runs[id] == s.runs[id].(stale := t.runs[id].stale)
         && (t.runs[id].stale <==>
               s.runs[id].stale
               || (s.runs[id].status == Payroll.Calculated && s.runs[id].from <= date <= s.runs[id].to))
  }

  /** A request sees the records of the branch it is filtered to, and without a filter all of them. */
  ghost predicate Sees(request: Request, s: State, key: Key) {
    key in s.records && forall branch :: request.branch == Some(branch) ==> s.records[key].branch == Some(branch)
  }

  // ---- Punching ----

  /** The day's punches as a punch finds them. */
  ghost function ReadBefore(s: State, key: Key): seq<Punch> {
    if key in s.records then ByTime(s.records[key].punches) else []
  }

  lemma ReadsWhatWasThere(s: State, key: Key, dayStatus: Option<DayStatus>, branch: Option<nat>)
    ensures ByTime(Upserted(s, key, dayStatus, branch).punches) == ReadBefore(s, key)
  {
  }

  /**
   * A check-in goes through when nothing is open and, with one session a day, the day is not over; a
   * check-out when something is open; neither with a status that other work sets.
   */
  lemma PunchAcceptedExactly(org: Organization, request: Request, s: State, key: Key, kind: PunchKind, at: int,
      dayStatus: Option<DayStatus>, branch: Option<nat>, reviewRequired: bool)
    ensures var read := ReadBefore(s, key);
            var open := |read| > 0 && read[|read| - 1].kind == In;
            var foreign := dayStatus == Some(Absent) || dayStatus == Some(OnLeave);
            var punched := PunchIn(org, request, s, key, kind, at, dayStatus, branch, reviewRequired);
            && (punched.Ok? <==>
                  && !foreign && (kind == Out <==> open)
                  && (kind == In && |read| >= 2 ==> org.multipleSessions))
            && (punched.Err? ==> punched.error == Conflict(
                  if foreign then StatusOfAnotherWorkflow
                  else if kind == Out then NoOpenInterval
                  else if open then IntervalAlreadyOpen
                  else SessionCompleted))
  {
    ReadsWhatWasThere(s, key, dayStatus, branch);
    hide ByTime, TotalsOf, Payroll.MarkPayrollStale, Upserted, ReadBefore;
    if dayStatus.Some? {
      var status := dayStatus.value;
      assert status.Present? || status.Absent? || status.Late? || status.HalfDay? || status.OnLeave?;
    }
  }

  /**
   * A punch adds one row to its day. The day status and the branch are those named, else the
   * record's own, else PRESENT and none; the figures are those of the day read again.
   */
  lemma PunchWrites(org: Organization, request: Request, s: State, key: Key, kind: PunchKind, at: int,
      dayStatus: Option<DayStatus>, branch: Option<nat>, reviewRequired: bool)
    requires PunchIn(org, request, s, key, kind, at, dayStatus, branch, reviewRequired).Ok?
    ensures key in PunchIn(org, request, s, key, kind, at, dayStatus, branch, reviewRequired).value.records
    ensures var r := PunchIn(org, request, s, key, kind, at, dayStatus, branch, reviewRequired).value.records[key];
            && r.punches == (if key in s.records then s.records[key].punches else []) + [Punch(s.nextId, kind, at)]
            && r.dayStatus == (if dayStatus.Some? then dayStatus.value
                               else if key in s.records then s.records[key].dayStatus else Present)
            && r.branch == (if branch.Some? then branch
                            else if key in s.records then s.records[key].branch else None)
            && r.version == (if key in s.records then s.records[key].version + 2 else 2)
            && r.worked == KeptMinutes(ByTime(r.punches))
            && r.overtime == (if r.worked > org.standardDay then r.worked - org.standardDay else 0)
            && r.status == (if !HasOpenPunch(ByTime(r.punches)) && r.worked > 0 then Completed else Open)
  {
    var t := PunchIn(org, request, s, key, kind, at, dayStatus, branch, reviewRequired).value;
    var punches := Upserted(s, key, dayStatus, branch).punches + [Punch(s.nextId, kind, at)];
    assert t.records[key] == Punched(Upserted(s, key, dayStatus, branch), Punch(s.nextId, kind, at), org.standardDay);
    hide PunchIn, ByTime, Scan, HasOpenPunch, KeptMinutes;
    TotalsMean(ByTime(punches), org.standardDay);
  }

  /** No other record changes, the runs over the date are marked, and only a punch to review raises a correction. */
  lemma PunchLeaves(org: Organization, request: Request, s: State, key: Key, kind: PunchKind, at: int,
      dayStatus: Option<DayStatus>, branch: Option<nat>, reviewRequired: bool)
    requires PunchIn(org, request, s, key, kind, at, dayStatus, branch, reviewRequired).Ok?
    ensures var t := PunchIn(org, request, s, key, kind, at, dayStatus, branch, reviewRequired).value;
            && OtherRecordsStay(s, t, key) && RunsAreMarked(s, t, key.date)
            && t.policies == s.policies && t.selections == s.selections && t.reviews == s.reviews
            && t.nextId == s.nextId + (if reviewRequired then 2 else 1)
            && t.corrections == if !reviewRequired then s.corrections
                 else s.corrections[s.nextId + 1 := Correction(
                   key, None, Undecided, [], Snapshot(Missing, Missing, None, false, None), request.client)]
  {
    Payroll.MarkedExactly(s.runs, key.date);
    hide Payroll.MarkPayrollStale, PunchRefusal, Upserted, Punched;
  }

  // ---- Raising a correction ----

  /** The branch a correction is routed by: the record's own, else the one the request names. */
  ghost function RoutingBranch(request: Request, r: Record): Option<nat> {
    if r.branch.Some? then r.branch else request.branch
  }

  /** An employee's own user, and their manager's, as far as the organization knows them. */
  ghost function UserOf(org: Organization, employee: nat): Option<nat> {
    if employee in org.staff then org.staff[employee].user else None
  }

  ghost function ManagerOf(org: Organization, employee: nat): Option<nat> {
    if employee in org.staff then org.staff[employee].manager else None
  }

  /** Somebody in this branch may approve the step. */
  ghost predicate HasApprover(org: Organization, request: Request, employee: nat, branch: nat, step: PolicyStep) {
    var self, manager := UserOf(org, employee), ManagerOf(org, employee);
    match step.approver
    case ByRole =>
      step.role.Some? && exists user: nat ::
        self != Some(user) && HasRole(request.directory, user, step.role.value, Some(branch), request.now)
    case ByUser =>
      step.user.Some? && self != step.user && WorksIn(request.directory, step.user.value, branch, request.now)
    case ByManager => manager.Some? && self != manager && Works(request.directory, manager.value)
  }

  /** A policy to follow, a branch to ask in, and somebody there for every step. */
  ghost predicate CanBeRouted(org: Organization, request: Request, s: State, key: Key)
    requires key in s.records
  {
    var branch := RoutingBranch(request, s.records[key]);
    && branch.Some?
    && exists policy :: Chosen(s.policies, AttendanceCorrection, Some(policy))
         && forall i :: 0 <= i < |s.policies[policy].steps| ==>
              HasApprover(org, request, key.employee, branch.value, s.policies[policy].steps[i])
  }

  lemma EngineChooses(policies: Table)
    requires OneDefault(policies)
    ensures Chosen(policies, AttendanceCorrection, CorrectionPolicy(policies))
    ensures forall choice :: Chosen(policies, AttendanceCorrection, choice) ==> choice == CorrectionPolicy(policies)
  {
    var listed := Listed(ActiveIn(policies, AttendanceCorrection));
    assert forall id :: id in listed <==> id in Members(listed);
    CorrectionPolicyIsChosen(policies, listed);
    ChoiceIsChosen(policies, AttendanceCorrection, listed);
    var chosen := CorrectionPolicy(policies);
    forall choice | Chosen(policies, AttendanceCorrection, choice) ensures choice == chosen {
      assert choice.Some? ==> IsChoice(policies, AttendanceCorrection, choice.value);
      assert chosen.Some? ==> IsChoice(policies, AttendanceCorrection, chosen.value);
    }
  }

  /** The members of a set in some order, each once. */
  lemma {:induction false} Listed(ids: set<nat>) returns (listed: seq<nat>)
    ensures Distinct(listed) && Members(listed) == ids
  {
    if ids == {} {
      listed := [];
    } else {
      var id :| id in ids;
      var rest := Listed(ids - {id});
      listed := rest + [id];
      assert forall x :: x in rest ==> x in Members(rest);
      assert Members(listed) == Members(rest) + {id};
    }
  }

  lemma StepResolves(org: Organization, request: Request, employee: nat, branch: nat, step: PolicyStep)
    ensures var staff := StaffOf(org, employee);
            Unresolvable(request.directory, branch, staff.manager, staff.user, step, request.now) == None <==>
              HasApprover(org, request, employee, branch, step)
  {
    var staff := StaffOf(org, employee);
    UnresolvedFor(request.directory, branch, staff.manager, staff.user, step, request.now);
    hide Works, WorksIn, HasRole, Unresolvable;
  }

  /** A correction is routed exactly when it can be: the first thing missing is why not. */
  lemma RoutedExactly(org: Organization, request: Request, s: State, key: Key)
    requires OneDefault(s.policies) && key in s.records
    ensures RouteRefusal(org, request, s, key) == None <==> CanBeRouted(org, request, s, key)
    ensures RouteRefusal(org, request, s, key) == Some(Conflict(NoPolicyForCorrections)) <==>
              Chosen(s.policies, AttendanceCorrection, None)
    ensures RouteRefusal(org, request, s, key) == Some(Conflict(BranchRequired)) <==>
              !Chosen(s.policies, AttendanceCorrection, None) && RoutingBranch(request, s.records[key]) == None
  {
    EngineChooses(s.policies);
    var policy, branch := CorrectionPolicy(s.policies), RoutingBranch(request, s.records[key]);
    if policy.Some? && branch.Some? {
      var staff, steps := StaffOf(org, key.employee), s.policies[policy.value].steps;
      ResolvableStepByStep(request.directory, branch.value, staff.manager, staff.user, steps, request.now);
      forall i | 0 <= i < |steps|
        ensures steps[i] in steps
        ensures Unresolvable(request.directory, branch.value, staff.manager, staff.user, steps[i], request.now) == None
           <==> HasApprover(org, request, key.employee, branch.value, steps[i])
      {
        StepResolves(org, request, key.employee, branch.value, steps[i]);
      }
      RefusedByAStep(request.directory, branch.value, staff.manager, staff.user, steps, request.now);
      hide Unresolvable, FirstUnresolvable, HasApprover, CorrectionPolicy, Chosen, StaffOf;
    }
  }

  /** A step refuses for reasons of its own. */
  lemma {:induction false} RefusedByAStep(directory: Directory, branch: nat, manager: Option<nat>,
      requester: Option<nat>, steps: seq<PolicyStep>, now: int)
    ensures FirstUnresolvable(directory, branch, manager, requester, steps, now) !in
              {Some(Conflict(NoPolicyForCorrections)), Some(Conflict(BranchRequired))}
  {
    if steps != [] { RefusedByAStep(directory, branch, manager, requester, steps[1..], now); }
  }

  /** The one new row, undecided and without approvals; nothing else changes. */
  ghost predicate Raises(request: Request, s: State, t: State, key: Key, after: Snapshot) {
    exists policy :: Chosen(s.policies, AttendanceCorrection, Some(policy))
      && t == State(s.records,
                    s.corrections[s.nextId := Correction(key, Some(policy), Undecided, [], after, request.client)],
                    s.policies, s.selections, s.reviews, s.runs, s.nextId + 1)
  }

  lemma CreatedExactly(org: Organization, request: Request, s: State, key: Key, after: Snapshot)
    requires OneDefault(s.policies) && key in s.records
    ensures CreateCorrection(org, request, s, key, after).Ok? <==> CanBeRouted(org, request, s, key)
    ensures CreateCorrection(org, request, s, key, after).Ok? ==>
              Raises(request, s, CreateCorrection(org, request, s, key, after).value, key, after)
  {
    RoutedExactly(org, request, s, key);
    EngineChooses(s.policies);
    hide Chosen, CanBeRouted, CorrectionPolicy, FirstUnresolvable;
  }

  /** What a record alone says in a snapshot, with a check-out to add if there is one. */
  ghost function Asking(r: Record, checkOut: Option<int>, byItself: bool): Snapshot {
    Snapshot(Missing, Missing, checkOut, byItself, Some(r.dayStatus))
  }

  /** A general correction is raised exactly on a record the request sees, if it can be routed, as it was sent. */
  lemma RequestCorrectionExactly(org: Organization, request: Request, s: State, key: Key, after: Option<Snapshot>)
    requires OneDefault(s.policies)
    ensures var raised := RequestCorrection(org, request, s, key, after);
            && (raised.Ok? <==> Sees(request, s, key) && CanBeRouted(org, request, s, key))
            && (raised.Err? && !Sees(request, s, key) ==> raised.error == NotFound)
            && (raised.Ok? ==>
                  Raises(request, s, raised.value, key,
                         if after.Some? then after.value else Asking(s.records[key], None, false)))
  {
    if key in s.records {
      CreatedExactly(org, request, s, key, if after.Some? then after.value else RecordSnapshot(s.records[key]));
    }
    hide CreateCorrection, CanBeRouted, Raises;
  }

  /** A check-out fits the day it is missing from: the guard's own rules. */
  ghost predicate FitsTheDay(s: State, key: Key, checkOut: int, now: int)
    requires key in s.records
  {
    Fits(DaysOf(s.records), key, checkOut, now)
  }

  ghost predicate Fits(days: map<Key, seq<Punch>>, key: Key, checkOut: int, now: int)
    requires key in days
  {
    && HasOpenPunch(days[key])
    && var openAt := days[key][|days[key]| - 1].at;
       && openAt < checkOut <= now && checkOut - openAt <= 1440 * 60_000
       && forall k, i | k in days && k != key && k.employee == key.employee && 0 <= i < |days[k]| ::
            days[k][i].at > openAt ==> checkOut < days[k][i].at
  }

  /** A check-out for this day awaits a decision. */
  ghost predicate AwaitsCheckOut(s: State, key: Key) {
    exists id :: id in s.corrections && s.corrections[id].key == key && s.corrections[id].status == Undecided
      && s.corrections[id].after.missingCheckOut != None
  }

  /**
   * A missing check-out is raised exactly when the record is seen, the time fits, none is pending and it
   * can be routed.
   */
  lemma RequestMissingCheckOutExactly(org: Organization, request: Request, s: State, key: Key, checkOut: int)
    requires OneDefault(s.policies)
    ensures var raised := RequestMissingCheckOut(org, request, s, key, checkOut);
            && (raised.Ok? <==>
                  && Sees(request, s, key) && FitsTheDay(s, key, checkOut, request.now) && !AwaitsCheckOut(s, key)
                  && CanBeRouted(org, request, s, key))
            && (raised.Err? && !Sees(request, s, key) ==> raised.error == NotFound)
            && (Sees(request, s, key) && FitsTheDay(s, key, checkOut, request.now) && AwaitsCheckOut(s, key) ==>
                  raised == Err(Conflict(CheckOutAlreadyProposed)))
            && (raised.Ok? ==> Raises(request, s, raised.value, key, Asking(s.records[key], Some(checkOut), false)))
  {
    if key in s.records {
      CheckOutAcceptedExactly(DaysOf(s.records), key, checkOut, request.now);
      CreatedExactly(org, request, s, key, RecordSnapshot(s.records[key]).(missingCheckOut := Some(checkOut)));
      PendingExactly(s, key);
    }
    hide CreateCorrection, CanBeRouted, Raises, ByTime, AssertValidMissingCheckOut, NextPunchAfterOpenCheckIn;
    hide MissingCheckOutPending, AwaitsCheckOut;
  }

  lemma PendingExactly(s: State, key: Key)
    ensures MissingCheckOutPending(s, key) <==> AwaitsCheckOut(s, key)
  {
  }

  /** What the sweep raises: the same, with its own mark, and whatever the time. */
  lemma AutoCloseExactly(org: Organization, request: Request, s: State, key: Key, closeAt: int)
    requires OneDefault(s.policies)
    ensures var raised := AutoClose(org, request, s, key, closeAt);
            && (raised.Ok? <==> key in s.records && !AwaitsCheckOut(s, key) && CanBeRouted(org, request, s, key))
            && (raised.Err? && key !in s.records ==> raised.error == NotFound)
            && (raised.Err? && key in s.records && AwaitsCheckOut(s, key) ==>
                  raised.error == Conflict(CheckOutAlreadyProposed))
            && (raised.Ok? ==> Raises(request, s, raised.value, key, Asking(s.records[key], Some(closeAt), true)))
  {
    if key in s.records {
      CreatedExactly(org, request, s, key, AutoCloseSnapshot(s.records[key], closeAt));
      PendingExactly(s, key);
    }
    hide CreateCorrection, CanBeRouted, Raises, MissingCheckOutPending, AwaitsCheckOut;
  }

  // ---- Deciding a correction ----

  /** The snapshot a decision leaves: with the approver's time for the check-out if they gave one, else as it was. */
  ghost function DecidedSnapshot(after: Snapshot, replacement: Replacement): Snapshot {
    match replacement
    case Instead(checkOut) =>
      Snapshot(after.correctedCheckIn, after.correctedCheckOut, Some(checkOut), after.autoClosed, after.dayStatus)
    case _ => after
  }

  /** A step is open to whoever it names, in the record's branch, but never to the employee. */
  ghost predicate OpenTo(org: Organization, request: Request, s: State, key: Key, step: PolicyStep, user: nat)
    requires key in s.records
  {
    && UserOf(org, key.employee) != Some(user)
    && match step.approver
       case ByRole =>
         step.role.Some?
         && HasRole(request.directory, user, step.role.value, RoutingBranch(request, s.records[key]), request.now)
       case ByUser => step.user == Some(user) && Works(request.directory, user)
       case ByManager => ManagerOf(org, key.employee) == Some(user) && Works(request.directory, user)
  }

  /** An approver may give another time only for a check-out a person asked for. */
  ghost predicate TimeIsReplaceable(c: Correction, replacement: Replacement) {
    match replacement
    case AsProposed => true
    case Unreadable => false
    case Instead(_) => !c.byClient && c.after.missingCheckOut != None
  }

  /** What a correction with this snapshot would do to its record can be done now. */
  ghost predicate Applies(now: int, s: State, c: Correction, after: Snapshot)
    requires c.key in s.records
  {
    CanApply(now, s, Correction(c.key, c.policy, c.status, c.approvals, after, c.byClient))
  }

  /** The correction is undecided and seen, its next step open to the user, and the time given one that can be. */
  ghost predicate DecisionInOrder(org: Organization, request: Request, s: State, id: nat, replacement: Replacement) {
    && id in s.corrections && Sees(request, s, s.corrections[id].key)
    && var c := s.corrections[id];
       && c.status == Undecided && request.user.Some? && c.policy.Some?
       && c.policy.value in s.policies && |c.approvals| < |s.policies[c.policy.value].steps|
       && OpenTo(org, request, s, c.key, s.policies[c.policy.value].steps[|c.approvals|], request.user.value)
       && TimeIsReplaceable(c, replacement)
  }

  /** The step a sound correction waits for, and whether it is the last. */
  lemma NextStepIs(org: Organization, s: State, id: nat)
    requires MachineSound(org, s) && id in s.corrections && s.corrections[id].status.Undecided?
    ensures var c := s.corrections[id];
            if c.policy.None? then PendingStep(StepsOf(s, c), c.approvals) == None
            else
              && c.policy.value in s.policies && |c.approvals| < |s.policies[c.policy.value].steps|
              && var steps, k := s.policies[c.policy.value].steps, |c.approvals|;
                 && StepsOf(s, c) == steps && PendingStep(steps, c.approvals) == Some(steps[k])
                 && (HasMoreSteps(steps, steps[k].number) <==> k + 1 < |steps|)
  {
    var c := s.corrections[id];
    assert Sound(c, s.policies, StaffOf(org, c.key.employee).user);
    if c.policy.Some? {
      PendingStepIsNext(s.policies[c.policy.value].steps, c.approvals);
      MoreStepsFollow(s.policies[c.policy.value].steps, |c.approvals|);
    }
  }

  lemma DecisionIsInOrder(org: Organization, request: Request, s: State, id: nat, replacement: Replacement)
    requires MachineSound(org, s)
    ensures DecideRefusal(org, request, s, id, replacement) == None <==>
              DecisionInOrder(org, request, s, id, replacement)
  {
    if id in s.corrections && s.corrections[id].status.Undecided? {
      var c := s.corrections[id];
      NextStepIs(org, s, id);
      if c.policy.Some? && request.user.Some? && c.key in s.records {
        OpenExactly(org, request, s, c.key, s.policies[c.policy.value].steps[|c.approvals|], request.user.value);
      }
    }
    hide MachineSound, OpenTo, CanApprove, PendingStep, HasMoreSteps, StaffOf;
  }

  /**
   * A decision is accepted exactly on an undecided correction the request sees, by a user the next
   * step is open to, with a time only where one can be replaced; and the last approval only if the
   * correction can be applied with that time.
   */
  lemma DecisionAcceptedExactly(org: Organization, request: Request, s: State, id: nat, approve: bool,
      replacement: Replacement)
    requires MachineSound(org, s)
    ensures Decide(org, request, s, id, approve, replacement).Ok? <==>
              && DecisionInOrder(org, request, s, id, replacement)
              && var c := s.corrections[id];
                 approve && |c.approvals| + 1 == |s.policies[c.policy.value].steps| ==>
                   Applies(request.now, s, c, DecidedSnapshot(c.after, replacement))
  {
    DecisionIsInOrder(org, request, s, id, replacement);
    if DecideRefusal(org, request, s, id, replacement) == None {
      DecidedApplies(request, s, s.corrections[id], approve, replacement);
      NextStepIs(org, s, id);
    }
    hide DecisionInOrder, DecideRefusal, Applies, CorrectedPunches, Applied, PendingStep, HasMoreSteps, MachineSound;
    assert DecisionInOrder(org, request, s, id, replacement) ==> id in s.corrections;
  }

  /** Why a decision is refused before anything is applied: the first of these that holds. */
  lemma DecisionRefusedFor(org: Organization, request: Request, s: State, id: nat, replacement: Replacement)
    requires MachineSound(org, s) && !DecisionInOrder(org, request, s, id, replacement)
    ensures forall approve ::
              Decide(org, request, s, id, approve, replacement) == Err(
                if id !in s.corrections || !Sees(request, s, s.corrections[id].key) then NotFound
                else
                  var c := s.corrections[id];
                  if c.status != Undecided then Conflict(CorrectionAlreadyDecided)
                  else if request.user == None then Conflict(HumanApproverRequired)
                  else if c.policy == None then Conflict(NothingPending)
                  else if c.policy.value !in s.policies || |c.approvals| >= |s.policies[c.policy.value].steps| then
                    Conflict(NothingPending)
                  else
                    var step := s.policies[c.policy.value].steps[|c.approvals|];
                    if !OpenTo(org, request, s, c.key, step, request.user.value) then Forbidden
                    else if c.byClient then Conflict(TimeNotReplaceable)
                    else if c.after.missingCheckOut == None then Conflict(AddsNoCheckOut)
                    else Conflict(CheckOutTimeInvalid))
  {
    if id in s.corrections && s.corrections[id].status.Undecided? {
      var c := s.corrections[id];
      NextStepIs(org, s, id);
      if c.policy.Some? && request.user.Some? && c.key in s.records {
        OpenExactly(org, request, s, c.key, s.policies[c.policy.value].steps[|c.approvals|], request.user.value);
      }
    }
    hide MachineSound, OpenTo, CanApprove, PendingStep, HasMoreSteps, StaffOf, CorrectedPunches, Applied, WithDecision;
  }

  lemma OpenExactly(org: Organization, request: Request, s: State, key: Key, step: PolicyStep, user: nat)
    requires key in s.records
    ensures var staff, branch := StaffOf(org, key.employee), s.records[key].branch;
            CanApprove(request.directory, user, staff.manager, step, if branch.Some? then branch else request.branch,
                       staff.user, request.now) <==>
              OpenTo(org, request, s, key, step, user)
  {
    var staff := StaffOf(org, key.employee);
    MayApproveExactly(request.directory, user, staff.manager, step, RoutingBranch(request, s.records[key]), staff.user,
                      request.now);
    hide CanApprove, Works, HasRole;
  }

  lemma DecidedApplies(request: Request, s: State, c: Correction, approve: bool, replacement: Replacement)
    requires c.key in s.records && request.user.Some? && PendingStep(StepsOf(s, c), c.approvals).Some?
    ensures CorrectedPunches(request, s, WithDecision(s, c, request.user.value, approve, replacement)).Ok? <==>
              Applies(request.now, s, c, DecidedSnapshot(c.after, replacement))
  {
    var d := WithDecision(s, c, request.user.value, approve, replacement);
    AskingIsEnough(request, s, d);
    SameToApply(request.now, s, s, d,
                Correction(c.key, c.policy, c.status, c.approvals, DecidedSnapshot(c.after, replacement), c.byClient));
    hide CanApply, CorrectedPunches, PendingStep, HasMoreSteps;
  }

  /**
   * A decision adds itself to the correction and keeps the rest of it, its snapshot included but for
   * a time the approver gave. Nothing else changes unless it was the last approval.
   */
  lemma DecisionLeaves(org: Organization, request: Request, s: State, id: nat, approve: bool, replacement: Replacement)
    requires MachineSound(org, s) && Decide(org, request, s, id, approve, replacement).Ok?
    ensures id in s.corrections && s.corrections[id].policy.Some? && s.corrections[id].policy.value in s.policies
    ensures var t, c := Decide(org, request, s, id, approve, replacement).value, s.corrections[id];
            var steps, k := s.policies[c.policy.value].steps, |c.approvals|;
            && k < |steps| && request.user.Some?
            && t.corrections == s.corrections[id := Correction(
                 c.key, c.policy, if !approve then Declined else if k + 1 == |steps| then Accepted else Undecided,
                 c.approvals + [Approval(steps[k].id, steps[k].number, request.user.value, approve)],
                 DecidedSnapshot(c.after, replacement), c.byClient)]
            && t.policies == s.policies && t.selections == s.selections && t.reviews == s.reviews
            && (!(approve && k + 1 == |steps|) ==>
                  t.records == s.records && t.runs == s.runs && t.nextId == s.nextId)
  {
    DecideSettlesNextStep(org, request, s, id, approve, replacement);
    var c := s.corrections[id];
    assert Sound(c, s.policies, StaffOf(org, c.key.employee).user);
    hide MachineSound, DecideRefusal, CorrectedPunches, Applied, PendingStep, HasMoreSteps;
  }

  /**
   * The time at which the first check-in or the first check-out of a day is put, and every other punch
   * where it was.
   */
  ghost function MovedTo(p: Punch, read: seq<Punch>, after: Snapshot): Punch {
    Punch(p.id, p.kind, Target(p, read, after))
  }

  ghost function AllMoved(punches: seq<Punch>, read: seq<Punch>, after: Snapshot): seq<Punch> {
    seq(|punches|, i requires 0 <= i < |punches| => MovedTo(punches[i], read, after))
  }

  /** What the last approval of a correction does to the record: its snapshot, and nothing it does not say. */
  lemma AcceptanceWrites(org: Organization, request: Request, s: State, id: nat, replacement: Replacement)
    requires MachineSound(org, s) && Decide(org, request, s, id, true, replacement).Ok?
    requires var t := Decide(org, request, s, id, true, replacement).value;
             id in t.corrections && t.corrections[id].status == Accepted
    requires id in s.corrections && s.corrections[id].key in s.records
    requires DistinctIds(ByTime(s.records[s.corrections[id].key].punches))
    ensures var t, c := Decide(org, request, s, id, true, replacement).value, s.corrections[id];
            var after, was := DecidedSnapshot(c.after, replacement), s.records[c.key];
            var adds := !c.byClient && after.missingCheckOut.Some?;
            && OtherRecordsStay(s, t, c.key) && RunsAreMarked(s, t, c.key.date)
            && t.nextId == s.nextId + (if adds then 1 else 0)
            && var r := t.records[c.key];
               && r.status == Corrected && r.branch == was.branch && r.version == was.version + 1
               && r.dayStatus == (if after.dayStatus.Some? then after.dayStatus.value else was.dayStatus)
               && r.punches == AllMoved(was.punches, ByTime(was.punches), after)
                    + (if adds then [Punch(s.nextId, Out, after.missingCheckOut.value)] else [])
               && r.worked == KeptMinutes(if adds then ByTime(r.punches)
                                          else AllMoved(ByTime(was.punches), ByTime(was.punches), after))
               && r.overtime == (if r.worked > org.standardDay then r.worked - org.standardDay else 0)
  {
    hide *;
    DecisionLeaves(org, request, s, id, true, replacement);
    UndecidedBefore(org, request, s, id, replacement);
    AcceptanceIsApplied(org, request, s, id, replacement);
    var c := AfterDecision(request, s, id, true, replacement);
    RecordWritten(request, s, c, org.standardDay);
    OneRecordChanged(s, Decide(org, request, s, id, true, replacement).value, c.key);
    WhetherItAdds(c);
  }

  lemma UndecidedBefore(org: Organization, request: Request, s: State, id: nat, replacement: Replacement)
    requires Decide(org, request, s, id, true, replacement).Ok?
    ensures id in s.corrections && s.corrections[id].status == Undecided
    ensures request.user.Some? && PendingStep(StepsOf(s, s.corrections[id]), s.corrections[id].approvals).Some?
  {
    hide CorrectedPunches, Applied, CanApprove;
  }

  lemma WhetherItAdds(c: Correction)
    ensures AddsCheckOut(c) <==> !c.byClient && c.after.missingCheckOut.Some?
  {
  }

  lemma OneRecordChanged(s: State, t: State, key: Key)
    requires key in t.records && t.records == s.records[key := t.records[key]]
    ensures OtherRecordsStay(s, t, key)
  {
  }

  lemma AcceptanceIsApplied(org: Organization, request: Request, s: State, id: nat, replacement: Replacement)
    requires Decide(org, request, s, id, true, replacement).Ok?
    requires var t := Decide(org, request, s, id, true, replacement).value;
             id in t.corrections && t.corrections[id].status == Accepted
    requires id in s.corrections && s.corrections[id].key in s.records && s.corrections[id].status == Undecided
    ensures var t, c := Decide(org, request, s, id, true, replacement).value,
                        AfterDecision(request, s, id, true, replacement);
            && t.corrections[id] == c && c.key == s.corrections[id].key && CorrectedPunches(request, s, c).Ok?
            && t.records == s.records[c.key :=
                 CorrectedRecord(s.records[c.key], CorrectedPunches(request, s, c).value, c.after, org.standardDay)]
            && RunsAreMarked(s, t, c.key.date) && t.nextId == s.nextId + if AddsCheckOut(c) then 1 else 0
  {
    var c := AfterDecision(request, s, id, true, replacement);
    Payroll.MarkedExactly(s.runs, c.key.date);
    hide DecideRefusal, CorrectedPunches, CorrectedRecord, PendingStep, HasMoreSteps, Payroll.MarkPayrollStale;
  }

  /** The record a correction writes, field by field. */
  lemma RecordWritten(request: Request, s: State, c: Correction, standardDay: nat)
    requires c.key in s.records && CorrectedPunches(request, s, c).Ok? && DistinctIds(ByTime(s.records[c.key].punches))
    ensures var was, adds := s.records[c.key], !c.byClient && c.after.missingCheckOut.Some?;
            var r := CorrectedRecord(was, CorrectedPunches(request, s, c).value, c.after, standardDay);
            && r.status == Corrected && r.branch == was.branch && r.version == was.version + 1
            && r.dayStatus == (if c.after.dayStatus.Some? then c.after.dayStatus.value else was.dayStatus)
            && r.punches == AllMoved(was.punches, ByTime(was.punches), c.after)
                 + (if adds then [Punch(s.nextId, Out, c.after.missingCheckOut.value)] else [])
            && r.worked == KeptMinutes(if adds then ByTime(r.punches)
                                       else AllMoved(ByTime(was.punches), ByTime(was.punches), c.after))
            && r.overtime == (if r.worked > standardDay then r.worked - standardDay else 0)
  {
    CorrectedListMoved(request, s, c);
    TotalsMean(CorrectedPunches(request, s, c).value.totalled, standardDay);
    hide CorrectedPunches, ByTime, Scan, KeptMinutes, AllMoved, DistinctIds;
  }

  lemma CorrectedListMoved(request: Request, s: State, c: Correction)
    requires c.key in s.records && CorrectedPunches(request, s, c).Ok? && DistinctIds(ByTime(s.records[c.key].punches))
    ensures var correcting, was := CorrectedPunches(request, s, c).value, s.records[c.key].punches;
            var read := ByTime(was);
            var out := if AddsCheckOut(c) then [Punch(s.nextId, Out, c.after.missingCheckOut.value)] else [];
            && correcting.punches == AllMoved(was, read, c.after) + out
            && correcting.totalled == if AddsCheckOut(c) then ByTime(correcting.punches)
                                      else AllMoved(read, read, c.after)
  {
    var was := s.records[c.key].punches;
    var read := ByTime(was);
    var updates := CorrectionPunchUpdates(read, c.after).value;
    CorrectionMovesFirstPunches(read, c.after);
    if AddsCheckOut(c) { AddedCheckOutIsReread(request, s, c); }
    forall i | 0 <= i < |was| ensures MovedPunch(was[i], updates) == MovedTo(was[i], read, c.after) {
      assert was[i] in was;
      Sorting.SortMembers(NotAfter, was, was[i]);
    }
    forall i | 0 <= i < |read| ensures MovedPunch(read[i], updates) == MovedTo(read[i], read, c.after) {
      assert read[i] in read;
    }
    hide ByTime, CorrectionPunchUpdates, MovedPunch, Target, AssertValidMissingCheckOut, NextPunchAfterOpenCheckIn;
    assert Move(was, updates) == AllMoved(was, read, c.after) && Move(read, updates) == AllMoved(read, read, c.after);
  }

  /**
   * The last approval of a missing check-out that moves no punch leaves the day as it was read with
   * the check-out behind it: at the approver's time if they gave one, else at the time proposed.
   */
  lemma AcceptanceCloses(org: Organization, request: Request, s: State, id: nat, replacement: Replacement)
    requires MachineSound(org, s) && Decide(org, request, s, id, true, replacement).Ok?
    requires var t := Decide(org, request, s, id, true, replacement).value;
             id in t.corrections && t.corrections[id].status == Accepted
    requires id in s.corrections && !s.corrections[id].byClient && s.corrections[id].after.missingCheckOut.Some?
    requires s.corrections[id].after.correctedCheckIn == Missing && s.corrections[id].after.correctedCheckOut == Missing
    ensures var t, key := Decide(org, request, s, id, true, replacement).value, s.corrections[id].key;
            var checkOut := if replacement.Instead? then replacement.checkOut
                            else s.corrections[id].after.missingCheckOut.value;
            && key in s.records && key in t.records
            && ByTime(t.records[key].punches) == ByTime(s.records[key].punches) + [Punch(s.nextId, Out, checkOut)]
            && t.records[key].worked == KeptMinutes(ByTime(t.records[key].punches))
  {
    DecisionLeaves(org, request, s, id, true, replacement);
    var t, key := Decide(org, request, s, id, true, replacement).value, s.corrections[id].key;
    var c := AfterDecision(request, s, id, true, replacement);
    assert t.corrections[id] == c && OnlyAddsCheckOut(c)
           && c.after == DecidedSnapshot(s.corrections[id].after, replacement);
    ApprovalAppends(org, request, s, id, replacement);
    assert DaysOf(t.records)[key] == ByTime(t.records[key].punches);
    assert DaysOf(s.records)[key] == ByTime(s.records[key].punches);
    TotalsAreKeptPairs(ByTime(t.records[key].punches));
    hide Decide, AfterDecision, MachineSound, ByTime, Scan, KeptMinutes;
  }

  /**
   * What a correction asks for can be done exactly when its times can be put where it says, and a
   * check-out it adds fits the day as it then reads.
   */
  lemma AppliesExactly(now: int, s: State, c: Correction)
    requires c.key in s.records && DistinctIds(ByTime(s.records[c.key].punches))
    ensures var was := s.records[c.key].punches;
            CanApply(now, s, c) <==>
              && CorrectionPunchUpdates(ByTime(was), c.after).Ok?
              && (!c.byClient && c.after.missingCheckOut.Some? ==>
                    Fits(DaysOf(s.records)[c.key := ByTime(AllMoved(was, ByTime(was), c.after))], c.key,
                         c.after.missingCheckOut.value, now))
  {
    var was := s.records[c.key].punches;
    var read := ByTime(was);
    if CorrectionPunchUpdates(read, c.after).Ok? {
      MovedRows(was, c.after);
      var days := DaysOf(s.records)[c.key := ByTime(AllMoved(was, read, c.after))];
      if c.after.missingCheckOut.Some? { CheckOutAcceptedExactly(days, c.key, c.after.missingCheckOut.value, now); }
    }
    hide ByTime, AllMoved, CorrectionPunchUpdates, AssertValidMissingCheckOut, NextPunchAfterOpenCheckIn, DistinctIds;
  }

  lemma MovedRows(punches: seq<Punch>, after: Snapshot)
    requires DistinctIds(ByTime(punches)) && CorrectionPunchUpdates(ByTime(punches), after).Ok?
    ensures Move(punches, CorrectionPunchUpdates(ByTime(punches), after).value)
         == AllMoved(punches, ByTime(punches), after)
  {
    var read := ByTime(punches);
    var updates := CorrectionPunchUpdates(read, after).value;
    CorrectionMovesFirstPunches(read, after);
    forall i | 0 <= i < |punches| ensures MovedPunch(punches[i], updates) == MovedTo(punches[i], read, after) {
      assert punches[i] in punches;
      Sorting.SortMembers(NotAfter, punches, punches[i]);
    }
    hide ByTime, CorrectionPunchUpdates, MovedPunch, Target;
  }

  // ---- Reviews of a worked holiday ----

  /** The day's conflict, as its record, its selection and its reviews have it. */
  ghost predicate Stands(s: State, key: Key, state: ConflictState) {
    && key in s.records && key in s.selections
    && key == s.selections[key].day && s.selections[key].optional
    && StandsAs(ConflictRecord(key, s.records[key].status, |s.records[key].punches|), s.selections[key], s.reviews,
                state)
  }

  lemma ConflictStands(s: State, key: Key, state: ConflictState)
    requires SelectionsPlaced(s)
    ensures ConflictFor(s, key) == Some(state) <==> Stands(s, key, state)
  {
    if key in s.records && key in s.selections {
      var r, selection := ConflictRecord(key, s.records[key].status, |s.records[key].punches|), s.selections[key];
      var of := OfRecord(s.reviews, key);
      var attached := AttachedReview(of, selection.id, state);
      NewestExactly(s.reviews, key, selection.id, if state.AwaitingDecision? then Pending else Approved, attached);
      ConflictExactly(r, selection, s.reviews, HolidayConflictRow(key, selection.id, state, attached));
      hide StandsAs, IsNewest, OfRecord, HolidayConflictState, FirstWith, ForSelection;
    }
  }

  /**
   * A review is asked for exactly on a record the request sees that awaits a reason. It is put first,
   * pending, under the user who asked, and nothing else changes.
   */
  lemma ReviewAskedExactly(request: Request, s: State, key: Key)
    requires SelectionsPlaced(s)
    ensures var asked := RequestReview(request, s, key);
            && (asked.Ok? <==> Sees(request, s, key) && Stands(s, key, AwaitingReason))
            && (asked.Err? && !Sees(request, s, key) ==> asked.error == NotFound)
            && (asked.Err? && Sees(request, s, key) ==>
                  asked.error == Conflict(if Stands(s, key, AwaitingDecision) then AlreadyAwaitingDecision
                                          else if Stands(s, key, HolidayKept) then HolidayAlreadyKept
                                          else NoGrantedHoliday))
            && (asked.Ok? ==>
                  && key in s.selections
                  && asked.value == State(
                       s.records, s.corrections, s.policies, s.selections,
                       [Review(s.nextId, key, s.selections[key].id, Pending, None, request.user)] + s.reviews,
                       s.runs, s.nextId + 1))
  {
    ConflictStands(s, key, AwaitingReason);
    ConflictStands(s, key, AwaitingDecision);
    ConflictStands(s, key, HolidayKept);
    ConflictStands(s, key, ConvertedToWorkingDay);
    hide ConflictFor, Stands, SelectionsPlaced;
    assert Stands(s, key, AwaitingReason) ==> key in s.records && key in s.selections;
  }

  /** A user may decide a review if some step of the policy is open to them and they did not ask for it. */
  ghost predicate DecidesReviews(org: Organization, request: Request, s: State, review: Review) {
    && request.user.Some? && review.requestedBy != request.user && review.record in s.records
    && exists policy :: Chosen(s.policies, AttendanceCorrection, Some(policy))
         && exists i :: 0 <= i < |s.policies[policy].steps|
              && OpenTo(org, request, s, review.record, s.policies[policy].steps[i], request.user.value)
  }

  lemma MayDecideExactly(org: Organization, request: Request, s: State, review: Review)
    requires OneDefault(s.policies) && request.user.Some? && review.record in s.records
    requires CorrectionPolicy(s.policies).Some?
    ensures MayDecide(org, request, s, s.policies[CorrectionPolicy(s.policies).value].steps, review) <==>
              DecidesReviews(org, request, s, review)
  {
    EngineChooses(s.policies);
    var steps := s.policies[CorrectionPolicy(s.policies).value].steps;
    forall i | 0 <= i < |steps|
      ensures steps[i] in steps
      ensures var staff, branch := StaffOf(org, review.record.employee), s.records[review.record].branch;
              CanApprove(request.directory, request.user.value, staff.manager, steps[i],
                         if branch.Some? then branch else request.branch, staff.user, request.now) <==>
                OpenTo(org, request, s, review.record, steps[i], request.user.value)
    {
      OpenExactly(org, request, s, review.record, steps[i], request.user.value);
    }
    forall step | step in steps ensures exists i :: 0 <= i < |steps| && steps[i] == step {}
    assert forall i :: 0 <= i < |steps| && OpenTo(org, request, s, review.record, steps[i], request.user.value) ==>
             StaffOf(org, review.record.employee).user != request.user;
    hide CanApprove, OpenTo, CorrectionPolicy, Chosen, StaffOf, UserOf, ManagerOf;
  }

  lemma {:induction false} FindsById(reviews: seq<Review>, id: nat)
    ensures match FindReview(reviews, id)
            case Some(r) => r in reviews && r.id == id
            case None => forall r :: r in reviews ==> r.id != id
  {
    if reviews != [] {
      FindsById(reviews[1..], id);
      assert forall r :: r in reviews <==> r == reviews[0] || r in reviews[1..];
    }
  }

  lemma TheReview(s: State, id: nat, r: Review)
    requires ReviewsPlaced(s)
    ensures FindReview(s.reviews, id) == Some(r) <==> r in s.reviews && r.id == id
  {
    FindsById(s.reviews, id);
    if r in s.reviews && r.id == id { SameIdSameReview(s, r, FindReview(s.reviews, id).value); }
  }

  /** A review is decided exactly while pending, on a record the request sees, by a user who may. */
  lemma ReviewDecidedExactly(org: Organization, request: Request, s: State, id: nat, outcome: HolidayConflict.Outcome,
      r: Review)
    requires OneDefault(s.policies) && ReviewsPlaced(s) && r in s.reviews && r.id == id
    ensures DecideReview(org, request, s, id, outcome).Ok? <==>
              Sees(request, s, r.record) && r.status == Pending && DecidesReviews(org, request, s, r)
    ensures var decided := DecideReview(org, request, s, id, outcome);
            decided.Err? ==>
              decided.error ==
                if request.user.None? then Conflict(HumanApproverRequired)
                else if !Sees(request, s, r.record) then NotFound
                else if r.status != Pending then Conflict(ReviewAlreadyDecided)
                else if Chosen(s.policies, AttendanceCorrection, None) then Conflict(NoPolicyForReviews)
                else Forbidden
  {
    TheReview(s, id, r);
    EngineChooses(s.policies);
    if request.user.Some? && r.record in s.records && CorrectionPolicy(s.policies).Some? {
      MayDecideExactly(org, request, s, r);
    }
    hide MayDecide, CorrectionPolicy, Chosen, OpenTo, FindReview, Settle, ReviewsPlaced, Payroll.MarkPayrollStale;
  }

  /** A review that nobody raised cannot be decided. */
  lemma NoSuchReview(org: Organization, request: Request, s: State, id: nat, outcome: HolidayConflict.Outcome)
    requires (forall r :: r in s.reviews ==> r.id != id) && request.user.Some?
    ensures DecideReview(org, request, s, id, outcome) == Err(NotFound)
  {
    FindsById(s.reviews, id);
  }

  /** Keeping a holiday still granted rejects the day's work; converting it withdraws the selection; else it lapses. */
  lemma ReviewLeaves(org: Organization, request: Request, s: State, id: nat, outcome: HolidayConflict.Outcome,
      r: Review)
    requires ReviewsPlaced(s) && r in s.reviews && r.id == id && DecideReview(org, request, s, id, outcome).Ok?
    ensures r.record in s.records && r.record in s.selections
    ensures var t, was, selection := DecideReview(org, request, s, id, outcome).value, s.records[r.record],
                                     s.selections[r.record];
            var granted := selection.status == Confirmed && selection.holidayActive;
            var kept, converted := granted && outcome == KeepHoliday, granted && outcome == ConvertToWorkingDay;
            && t.corrections == s.corrections && t.policies == s.policies && t.nextId == s.nextId
            && t.records == (if !kept then s.records else s.records[r.record := Record(
                 Rejected, was.dayStatus, 0, 0, was.version + 1, was.branch, was.punches)])
            && t.selections == (if converted
                 then s.selections[r.record := selection.(status := Withdrawn)] else s.selections)
            && (if kept || converted then RunsAreMarked(s, t, r.record.date) else t.runs == s.runs)
            && |t.reviews| == |s.reviews|
            && forall i :: 0 <= i < |s.reviews| ==>
                 t.reviews[i] == if s.reviews[i].id != id then s.reviews[i]
                                 else s.reviews[i].(status := if granted then Approved else Cancelled,
                                                    outcome := if granted then Some(outcome) else None)
  {
    TheReview(s, id, r);
    assert ReviewIsPlaced(s, r);
    Payroll.MarkedExactly(s.runs, r.record.date);
    hide MayDecide, CorrectionPolicy, FindReview, ReviewsPlaced, Payroll.MarkPayrollStale;
  }

  // ---- The holiday itself ----

  /** Selecting confirms the day's holiday, or its first selection; withdrawing needs a confirmed one. */
  lemma HolidayEdits(s: State, key: Key, active: bool)
    ensures SelectHoliday(s, key) ==
              if key !in s.selections then
                Ok(s.(selections := s.selections[key := Selection(s.nextId, key, Confirmed, true, true)],
                      nextId := s.nextId + 1))
              else if s.selections[key].holidayActive then
                Ok(s.(selections := s.selections[key := s.selections[key].(status := Confirmed)]))
              else Err(NotFound)
    ensures CancelSelection(s, key) ==
              if key !in s.selections then Err(NotFound)
              else if s.selections[key].status == Withdrawn then Err(Conflict(SelectionNotActive))
              else Ok(s.(selections := s.selections[key := s.selections[key].(status := Withdrawn)]))
    ensures SetHolidayActive(s, key, active) ==
              if key !in s.selections then Err(NotFound)
              else Ok(s.(selections := s.selections[key := s.selections[key].(holidayActive := active)]))
  {
  }

  // ---- Policies and payroll runs ----

  /** The approvals on record, of whatever correction, are what holds a step; and those of other workflows. */
  lemma HistoryExactly(corrections: map<nat, Correction>, elsewhere: set<nat>, step: nat)
    ensures step in History(corrections, elsewhere) <==>
              || step in elsewhere
              || exists id, i :: id in corrections && 0 <= i < |corrections[id].approvals|
                   && corrections[id].approvals[i].step == step
  {
  }

  /** An edit is the table's own, with ids not taken yet and every approval on record for history. */
  lemma PolicyEditExactly(org: Organization, s: State, edit: PolicyEdit)
    requires RowsInPlace(s)
    ensures var edited := match edit
              case NewPolicy(input) => Create(s.policies, input, org.names, s.nextId, s.nextId + 1)
              case ChangePolicy(id, patch, elsewhere) =>
                Update(s.policies, id, patch, org.names, History(s.corrections, elsewhere), s.nextId)
              case RetirePolicy(id) => Deactivate(s.policies, id)
              case RevivePolicy(id) => Reactivate(s.policies, id);
            && (EditPolicy(org, s, edit).Err? <==> edited.Err?)
            && (edited.Err? ==> EditPolicy(org, s, edit).error == edited.error)
            && (edited.Ok? ==>
                  var t := EditPolicy(org, s, edit).value;
                  && RowsInPlace(t)
                  && t == s.(policies := edited.value, nextId := s.nextId + match edit
                       case NewPolicy(input) => 1 + |input.steps|
                       case ChangePolicy(_, patch, _) => if patch.steps.Some? then |patch.steps.value| else 0
                       case _ => 0))
  {
    if EditPolicy(org, s, edit).Ok? { EditKeepsRows(org, s, edit); }
    hide Create, Update, Deactivate, Reactivate, History;
  }

  /** A run begins as an unmarked draft on nothing. */
  lemma RunsBegin(s: State, from: int, to: int)
    ensures CreateRun(s, from, to) ==
              Ok(s.(runs := s.runs[s.nextId := Payroll.PayrollRun(Payroll.Draft, false, from, to, None)],
                    nextId := s.nextId + 1))
  {
  }

  /** Calculating a run reads the records' own figures, and moving one along reads nothing. */
  lemma RunsMove(s: State, id: nat, target: Payroll.RunStatus)
    ensures match Payroll.Calculate(s.runs, InputsOf(s.records), id)
            case Ok(runs) => CalculateRun(s, id) == Ok(s.(runs := runs))
            case Err(refusal) => CalculateRun(s, id) == Err(refusal)
    ensures match Payroll.Advance(s.runs, id, target)
            case Ok(runs) => AdvanceRun(s, id, target) == Ok(s.(runs := runs))
            case Err(refusal) => AdvanceRun(s, id, target) == Err(refusal)
    ensures forall key :: (key in InputsOf(s.records) <==> key in s.records)
                          && (key in s.records ==>
                                InputsOf(s.records)[key] == Payroll.DayInput(
                                  s.records[key].worked, s.records[key].overtime, s.records[key].dayStatus))
  {
    hide Payroll.Calculate, Payroll.Advance;
  }

  // ---- What a sweep raises ----

  /** A correction the sweep raised: its day, left on a check-in and no night shift, and the cutoff that has passed. */
  ghost predicate RaisedBySweep(request: Request, s: State, closing: Closing, c: Correction) {
    && c.key in s.records && c.key !in closing.nightShifts
    && (exists policy: nat :: Chosen(s.policies, AttendanceCorrection, Some(policy)) && c.policy == Some(policy))
    && var read := ByTime(s.records[c.key].punches);
       && |read| > 0 && read[|read| - 1].kind == In
       && exists closeAt :: closeAt <= request.now
            && WallClock.InstantAtLocalTime(c.key.date, closing.hour, closing.minute, closing.zone) == Ok(closeAt)
            && c == Correction(c.key, c.policy, Undecided, [], Asking(s.records[c.key], Some(closeAt), true),
                               request.client)
  }

  lemma CloseDayRaisesThis(org: Organization, request: Request, s: State, key: Key, closing: Closing, id: nat)
    requires OneDefault(s.policies) && RowsInPlace(s) && ValidCutoff(closing)
    requires key in s.records && CloseAt(key, closing) <= request.now
    requires var t := CloseDay(org, request, s, key, closing).0; id in t.corrections && id !in s.corrections
    ensures RaisedBySweep(request, s, closing, CloseDay(org, request, s, key, closing).0.corrections[id])
  {
    var closeAt := CloseAt(key, closing);
    CloseAtIsInstant(key, closing);
    EngineChooses(s.policies);
    hide CloseAt, Chosen, CorrectionPolicy, FirstUnresolvable, ByTime;
    var c := CloseDay(org, request, s, key, closing).0.corrections[id];
    assert c.after == Asking(s.records[key], Some(closeAt), true);
  }

  /** Every correction a sweep adds is one for a day it read that is due and left on its check-in. */
  lemma {:induction false} SweepRaisesTheseOnly(org: Organization, request: Request, s: State, days: seq<Key>,
      closing: Closing, id: nat)
    requires OneDefault(s.policies) && RowsInPlace(s) && ValidCutoff(closing) && AllRecorded(s, days)
    requires var t := SweepDays(org, request, s, days, closing).0; id in t.corrections && id !in s.corrections
    ensures var c := SweepDays(org, request, s, days, closing).0.corrections[id];
            RaisedBySweep(request, s, closing, c) && c.key in days
  {
    SweepRaisesOnDaysRead(org, request, s, days, closing);
    var front, last := days[..|days| - 1], days[|days| - 1];
    var before := SweepDays(org, request, s, front, closing).0;
    SweepOnlyProposes(org, request, s, front, closing);
    if request.now >= CloseAt(last, closing) {
      CloseDayRaisesOn(org, request, before, last, closing);
      hide CloseDay;
      if id in before.corrections {
        SweepRaisesTheseOnly(org, request, s, front, closing, id);
      } else {
        CloseDayRaisesThis(org, request, before, last, closing, id);
        hide CloseAt, Chosen, ByTime;
      }
    } else {
      SweepRaisesTheseOnly(org, request, s, front, closing, id);
    }
  }
}
