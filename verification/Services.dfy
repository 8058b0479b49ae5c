/**
 * The services themselves, as methods that change rows one at a time inside a transaction.
 *
 * Each runs the steps of its source in their order, writes before it has finished checking where the
 * source does, and takes its writes back when it refuses. Each is held to the engine's account of it.
 */
module Services {
  import opened Common
  import opened Totals
  import opened PunchMoves
  import opened MissingCheckOut
  import opened Approvers
  import opened Policies
  import opened HolidayConflict
  import opened Engine
  import Payroll
  import Sorting
  import Sweep

  /** A transaction either ends in the state the engine gives, or reports its refusal and changes nothing. */
  ghost predicate Answers(expected: Result<State, Refusal>, before: State, refusal: Option<Refusal>, after: State) {
    match expected
    case Ok(t) => refusal == None && after == t
    case Err(e) => refusal == Some(e) && after == before
  }

  method ValidateEachStep(steps: seq<StepInput>) returns (refusal: Option<Refusal>)
    ensures refusal == ValidateSteps(steps)
  {
    if steps == [] {
      return Some(Conflict(PolicyWithoutSteps));
    }
    var stepNumbers := Members(Numbers(steps));
    if |stepNumbers| != |steps| {
      return Some(Conflict(StepNumbersRepeat));
    }
    for i := 0 to |steps|
      invariant forall j :: 0 <= j < i ==> Matches(steps[j])
    {
      if !Matches(steps[i]) {
        return Some(Conflict(ApproverTypeMismatch));
      }
    }
    refusal := None;
  }

  /** The interval rules, one after another. */
  method CheckInterval(existing: seq<Punch>, kind: PunchKind, multipleSessions: bool) returns (refusal: Option<Refusal>)
    ensures refusal == IntervalRefusal(existing, kind, multipleSessions)
    ensures refusal == None ==> (kind == In <==> !HasOpenPunch(existing))
  {
    var open := HasOpenPunch(existing);
    if kind == In && open {
      return Some(Conflict(IntervalAlreadyOpen));
    }
    if kind == Out && !open {
      return Some(Conflict(NoOpenInterval));
    }
    if kind == In && !multipleSessions && |existing| >= 2 {
      return Some(Conflict(SessionCompleted));
    }
    refusal := None;
  }

  /** The first step without an approval. */
  method FindPendingStep(steps: seq<PolicyStep>, approvals: seq<Approval>) returns (step: Option<PolicyStep>)
    ensures step == PendingStep(steps, approvals)
    ensures step.Some? ==> step.value in steps && forall a :: a in approvals ==> a.step != step.value.id
  {
    for i := 0 to |steps|
      invariant PendingStep(steps, approvals) == PendingStep(steps[i..], approvals)
    {
      assert steps[i..][1..] == steps[i + 1..];
      if !exists a :: a in approvals && a.step == steps[i].id {
        return Some(steps[i]);
      }
    }
    step := None;
  }

  /** The steps first, and then whom they name. */
  method ValidateInput(steps: seq<StepInput>, names: Names) returns (refusal: Option<Refusal>)
    ensures refusal == if ValidateSteps(steps).Some? then ValidateSteps(steps) else CheckNames(steps, names)
  {
    refusal := ValidateEachStep(steps);
    if refusal.None? {
      refusal := CheckNames(steps, names);
    }
  }

  lemma OneConflict(record: ConflictRecord, selections: seq<Selection>, reviews: seq<Review>)
    requires |selections| <= 1
    ensures var row := if selections == [] then None else ConflictOf(record, selections[0], reviews);
            Sorting.Sort(LaterDay, Joined([record], selections, reviews)) == if row.Some? then [row.value] else []
  {
    var rows := ConflictsOf(record, selections, reviews);
    assert [record][..0] == [];
    assert Joined([record], selections, reviews) == rows;
    assert selections != [] ==> selections[..0] == [] && ConflictsOf(record, selections[..0], reviews) == [];
    Sorting.SortOfOrdered(LaterDay, rows);
  }

  /** Writing the punch replaces the upserted row: nothing else is left of the upsert. */
  lemma UpsertDoesNotShow(s: State, upserted: State, key: Key, kind: PunchKind, at: int, standardDay: nat)
    requires key in upserted.records && upserted == s.(records := s.records[key := upserted.records[key]])
    ensures WithPunch(upserted, key, upserted.records[key], kind, at, standardDay)
         == WithPunch(s, key, upserted.records[key], kind, at, standardDay)
  {
    hide Punched, Payroll.MarkPayrollStale;
  }

  /** What creating a policy comes to: refused for its steps, its names or its code, or stored. */
  lemma CreatedRows(org: Organization, s: State, input: PolicyInput)
    requires s.nextId !in s.policies
    ensures var invalid, unknown := ValidateSteps(input.steps), CheckNames(input.steps, org.names);
            var makeDefault := input.isDefault == Some(true) || ActiveDefaults(s.policies, input.domain) == {};
            var cleared := if makeDefault then WithoutDefault(s.policies, input.domain, None) else s.policies;
            var row := Policy(input.domain, input.code, makeDefault, true, StoredSteps(input.steps, s.nextId + 1));
            EditPolicy(org, s, NewPolicy(input))
              == if invalid.Some? then Err(invalid.value)
                 else if unknown.Some? then Err(unknown.value)
                 else if CodeTaken(s.policies, input.domain, input.code, None) then
                   Err(Conflict(UniqueConstraintFailed))
                 else Ok(s.(policies := cleared[s.nextId := row], nextId := s.nextId + |input.steps| + 1))
  {
    hide ValidateSteps, CheckNames, StoredSteps, CodeTaken;
  }

  lemma ClearingKeepsCodes(policies: Table, domain: Domain, keep: Option<nat>, code: string, other: Option<nat>)
    ensures CodeTaken(WithoutDefault(policies, domain, keep), domain, code, other) <==>
              CodeTaken(policies, domain, code, other)
  {
  }

  class AttendanceDatabase {
    var records: map<Key, Record>
    var corrections: map<nat, Correction>
    var policies: Table
    var selections: map<Key, Selection>
    var reviews: seq<Review>
    var runs: map<nat, Payroll.PayrollRun>
    var nextId: nat

    function Rows(): State
      reads this
    {
      State(records, corrections, policies, selections, reviews, runs, nextId)
    }

    constructor ()
      ensures Rows() == EMPTY
    {
      records, corrections, policies, selections, reviews, runs, nextId := map[], map[], map[], map[], [], map[], 0;
    }

    method Rollback(saved: State)
      modifies this
      ensures Rows() == saved
    {
      records, corrections, policies, selections := saved.records, saved.corrections, saved.policies, saved.selections;
      reviews, runs, nextId := saved.reviews, saved.runs, saved.nextId;
    }

    // ---- attendance-punch.service ----

    method UpsertRecord(key: Key, dayStatus: Option<DayStatus>, branch: Option<nat>)
      modifies `records
      ensures records == old(records)[key := Upserted(old(Rows()), key, dayStatus, branch)]
    {
      if key in records {
        var r := records[key];
        r := r.(version := r.version + 1);
        if branch.Some? {
          r := r.(branch := branch);
        }
        if dayStatus.Some? {
          r := r.(dayStatus := dayStatus.value);
        }
        records := records[key := r];
      } else {
        var initial := if dayStatus.Some? then dayStatus.value else Present;
        records := records[key := Record(Open, initial, 0, 0, 1, branch, [])];
      }
    }

    /** Creates the punch, reads the day again, rewrites the record's summary and marks payroll. */
    method WritePunch(key: Key, kind: PunchKind, at: int, standardDay: nat)
      requires key in records
      modifies `records, `runs, `nextId
      ensures Rows() == WithPunch(old(Rows()), key, old(records)[key], kind, at, standardDay)
    {
      records := records[key := records[key].(punches := records[key].punches + [Totals.Punch(nextId, kind, at)])];
      nextId := nextId + 1;
      var totals := AttendanceTotals(ByTime(records[key].punches), standardDay);
      records := records[key := records[key].(status := if totals.completed then Completed else Open,
                                              worked := totals.worked, overtime := totals.overtime,
                                              version := records[key].version + 1)];
      runs := Payroll.MarkPayrollStale(runs, key.date, key.date);
    }

    /** A punch that needs review raises a correction that follows no policy. */
    method FlagForReview(key: Key, byClient: bool)
      modifies `corrections, `nextId
      ensures Rows() == Flagged(old(Rows()), key, byClient)
    {
      corrections := corrections[nextId := Correction(key, None, Undecided, [], UNCHANGED, byClient)];
      nextId := nextId + 1;
    }

    method Punch(org: Organization, request: Request, key: Key, kind: PunchKind, at: int, dayStatus: Option<DayStatus>,
        branch: Option<nat>, reviewRequired: bool) returns (refusal: Option<Refusal>)
      modifies this
      ensures Answers(PunchIn(org, request, old(Rows()), key, kind, at, dayStatus, branch, reviewRequired), old(Rows()),
                      refusal, Rows())
    {
      if dayStatus.Some? && dayStatus.value !in {Present, Late, HalfDay} {
        return Some(Conflict(StatusOfAnotherWorkflow));
      }
      var saved := Rows();
      UpsertRecord(key, dayStatus, branch);
      var existing := ByTime(records[key].punches);
      refusal := CheckInterval(existing, kind, org.multipleSessions);
      ghost var upserted := Upserted(saved, key, dayStatus, branch);
      assert refusal == PunchRefusal(existing, kind, dayStatus, org.multipleSessions);
      hide PunchRefusal, Upserted, ByTime, Flagged;
      if refusal.Some? {
        Rollback(saved);
        return;
      }
      UpsertDoesNotShow(saved, Rows(), key, kind, at, org.standardDay);
      hide WithPunch;
      WritePunch(key, kind, at, org.standardDay);
      if reviewRequired {
        FlagForReview(key, request.client);
      }
    }

    // ---- attendance-correction-create and attendance-corrections.service ----

    method CreateAttendanceCorrection(org: Organization, request: Request, key: Key,
        after: Snapshot) returns (refusal: Option<Refusal>)
      requires key in records
      modifies `corrections, `nextId
      ensures Answers(CreateCorrection(org, request, old(Rows()), key, after), old(Rows()), refusal, Rows())
    {
      var policy := CorrectionPolicy(policies);
      if policy.None? {
        return Some(Conflict(NoPolicyForCorrections));
      }
      var branch := if records[key].branch.Some? then records[key].branch else request.branch;
      if branch.None? {
        return Some(Conflict(BranchRequired));
      }
      var staff := StaffOf(org, key.employee);
      refusal := AssertResolvableApprovers(request.directory, branch.value, staff.manager, staff.user,
                                           policies[policy.value].steps, request.now);
      if refusal.None? {
        corrections := corrections[nextId := Correction(key, policy, Undecided, [], after, request.client)];
        nextId := nextId + 1;
      }
    }

    method RequestCorrectionOf(org: Organization, request: Request, key: Key,
        after: Option<Snapshot>) returns (refusal: Option<Refusal>)
      modifies `corrections, `nextId
      ensures Answers(RequestCorrection(org, request, old(Rows()), key, after), old(Rows()), refusal, Rows())
    {
      if !Visible(Rows(), key, request) {
        return Some(NotFound);
      }
      refusal := CreateAttendanceCorrection(org, request, key,
                                            if after.Some? then after.value else RecordSnapshot(records[key]));
    }

    method RequestMissingCheckOutOf(org: Organization, request: Request, key: Key,
        checkOut: int) returns (refusal: Option<Refusal>)
      modifies `corrections, `nextId
      ensures Answers(RequestMissingCheckOut(org, request, old(Rows()), key, checkOut), old(Rows()), refusal, Rows())
    {
      if !Visible(Rows(), key, request) {
        return Some(NotFound);
      }
      var punches := ByTime(records[key].punches);
      refusal := AssertValidMissingCheckOut(punches, checkOut, request.now,
                                            NextPunchAfterOpenCheckIn(DaysOf(records), key, punches));
      if refusal.Some? {
        return;
      }
      if MissingCheckOutPending(Rows(), key) {
        return Some(Conflict(CheckOutAlreadyProposed));
      }
      refusal := CreateAttendanceCorrection(org, request, key,
                                            RecordSnapshot(records[key]).(missingCheckOut := Some(checkOut)));
    }

    /** Adds the check-out a correction asks for, checked against the punches as they are now. */
    method AddMissingCheckOut(request: Request, correction: Correction) returns (refusal: Option<Refusal>,
        punches: Option<seq<Totals.Punch>>)
      requires correction.key in records
      modifies `records, `nextId
      ensures !AddsCheckOut(correction) ==> refusal == None && punches == None && Rows() == old(Rows())
      ensures AddsCheckOut(correction) ==>
                var key, checkOut := correction.key, correction.after.missingCheckOut.value;
                var read := ByTime(old(records)[key].punches);
                && refusal == AssertValidMissingCheckOut(read, checkOut, request.now,
                                                         NextPunchAfterOpenCheckIn(DaysOf(old(records)), key, read))
                && (refusal.None? ==>
                      && punches == Some(read + [Totals.Punch(old(nextId), Out, checkOut)])
                      && nextId == old(nextId) + 1
                      && records == old(records)[key := old(records)[key].(
                           punches := old(records)[key].punches + [Totals.Punch(old(nextId), Out, checkOut)])])
    {
      if correction.byClient || correction.after.missingCheckOut.None? {
        return None, None;
      }
      var key, checkOut := correction.key, correction.after.missingCheckOut.value;
      var read := ByTime(records[key].punches);
      refusal := AssertValidMissingCheckOut(read, checkOut, request.now,
                                            NextPunchAfterOpenCheckIn(DaysOf(records), key, read));
      if refusal.Some? {
        return refusal, None;
      }
      var out := Totals.Punch(nextId, Out, checkOut);
      records := records[key := records[key].(punches := records[key].punches + [out])];
      nextId := nextId + 1;
      punches := Some(read + [out]);
    }

    /** What a decision checks before it writes anything, and the step it is about. */
    method CheckDecision(org: Organization, request: Request, id: nat, replacement: Replacement)
        returns (refusal: Option<Refusal>, pendingStep: Option<PolicyStep>)
      ensures refusal == DecideRefusal(org, request, Rows(), id, replacement)
      ensures refusal.None? ==> pendingStep == PendingStep(StepsOf(Rows(), corrections[id]), corrections[id].approvals)
    {
      if id !in corrections || !Visible(Rows(), corrections[id].key, request) {
        return Some(NotFound), None;
      }
      var correction := corrections[id];
      if !correction.status.Undecided? {
        return Some(Conflict(CorrectionAlreadyDecided)), None;
      }
      if request.user.None? {
        return Some(Conflict(HumanApproverRequired)), None;
      }
      pendingStep := FindPendingStep(StepsOf(Rows(), correction), correction.approvals);
      if pendingStep.None? {
        return Some(Conflict(NothingPending)), None;
      }
      var record, staff := records[correction.key], StaffOf(org, correction.key.employee);
      if !CanApprove(request.directory, request.user.value, staff.manager, pendingStep.value,
                     if record.branch.Some? then record.branch else request.branch, staff.user, request.now) {
        return Some(Forbidden), None;
      }
      refusal := ReplaceRefusal(correction, replacement);
    }

    method DecideCorrection(org: Organization, request: Request, id: nat, approve: bool, replacement: Replacement)
        returns (refusal: Option<Refusal>)
      modifies this
      ensures Answers(Decide(org, request, old(Rows()), id, approve, replacement), old(Rows()), refusal, Rows())
    {
      var found;
      refusal, found := CheckDecision(org, request, id, replacement);
      hide CanApprove, ReplaceRefusal;
      if refusal.Some? {
        return;
      }
      var saved, correction, pendingStep := Rows(), corrections[id], found.value;
      var hasMoreSteps := HasMoreSteps(StepsOf(Rows(), correction), pendingStep.number);
      var finalStatus := if !approve then Declined else if hasMoreSteps then Undecided else Accepted;
      correction := correction.(
        after := Replaced(correction.after, replacement),
        approvals := correction.approvals + [Approval(pendingStep.id, pendingStep.number, request.user.value, approve)],
        status := finalStatus);
      assert correction == WithDecision(saved, saved.corrections[id], request.user.value, approve, replacement);
      assert correction.key in records;
      ghost var decided := saved.(corrections := saved.corrections[id := correction]);
      assert CorrectedPunches(request, saved, correction) == CorrectedPunches(request, decided, correction);
      hide WithDecision, DecideRefusal, PendingStep, HasMoreSteps, StepsOf, Replaced, CorrectedPunches, Applied;
      corrections := corrections[id := correction];
      if approve && !hasMoreSteps {
        refusal := ApplyCorrection(request, correction, org.standardDay);
        if refusal.Some? {
          Rollback(saved);
        }
      }
    }

    /** Moves the punches, and adds the missing check-out if there is one to add. */
    method CorrectPunches(request: Request, correction: Correction) returns (refusal: Option<Refusal>,
        totalled: seq<Totals.Punch>)
      requires correction.key in records
      modifies `records, `nextId
      ensures match CorrectedPunches(request, old(Rows()), correction)
              case Err(e) => refusal == Some(e)
              case Ok(correcting) =>
                var key := correction.key;
                && refusal == None && totalled == correcting.totalled
                && records == old(records)[key := old(records)[key].(punches := correcting.punches)]
                && nextId == old(nextId) + if AddsCheckOut(correction) then 1 else 0
    {
      var key := correction.key;
      var read := ByTime(records[key].punches);
      var updates := CorrectionPunchUpdates(read, correction.after);
      if updates.Err? {
        return Some(updates.error), [];
      }
      records := records[key := records[key].(punches := Move(records[key].punches, updates.value))];
      assert DaysOf(records) == DaysOf(old(records))[key := ByTime(records[key].punches)];
      hide ByTime, Move, CorrectionPunchUpdates, DaysOf, NextPunchAfterOpenCheckIn, AssertValidMissingCheckOut;
      var withAddedCheckOut;
      refusal, withAddedCheckOut := AddMissingCheckOut(request, correction);
      totalled := if withAddedCheckOut.Some? then withAddedCheckOut.value else Move(read, updates.value);
    }

    /** Rewrites the record's summary from the corrected punches and marks payroll. */
    method RewriteCorrected(correction: Correction, totalled: seq<Totals.Punch>, standardDay: nat)
      requires correction.key in records
      modifies `records, `runs
      ensures var key := correction.key;
              && records == old(records)[key :=
                   CorrectedRecord(old(records)[key], Correcting(old(records)[key].punches, totalled), correction.after,
                                   standardDay)]
              && runs == Payroll.MarkPayrollStale(old(runs), key.date, key.date)
    {
      var key := correction.key;
      var totals := AttendanceTotals(totalled, standardDay);
      var dayStatus := if correction.after.dayStatus.Some? then correction.after.dayStatus.value
                       else records[key].dayStatus;
      records := records[key := records[key].(status := Corrected, worked := totals.worked, overtime := totals.overtime,
                                              dayStatus := dayStatus, version := records[key].version + 1)];
      runs := Payroll.MarkPayrollStale(runs, key.date, key.date);
    }

    method ApplyCorrection(request: Request, correction: Correction, standardDay: nat)
        returns (refusal: Option<Refusal>)
      requires correction.key in records
      modifies `records, `runs, `nextId
      ensures match CorrectedPunches(request, old(Rows()), correction)
              case Err(e) => refusal == Some(e)
              case Ok(correcting) =>
                refusal == None && Rows() == Applied(old(Rows()), correction, correcting, standardDay)
    {
      hide CorrectedPunches, Payroll.MarkPayrollStale, TotalsOf;
      var totalled;
      refusal, totalled := CorrectPunches(request, correction);
      if refusal.None? {
        RewriteCorrected(correction, totalled, standardDay);
      }
    }

    // ---- attendance-holiday-review.service ----

    /** Loads the conflicts of one record, of which there is at most one. */
    method LoadConflictOf(key: Key) returns (state: Option<ConflictState>)
      requires key in records
      ensures state == ConflictFor(Rows(), key)
    {
      var granted := if key in selections then [selections[key]] else [];
      var conflicts := LoadHolidayConflicts([RecordRow(Rows(), key)], granted, reviews);
      OneConflict(RecordRow(Rows(), key), granted, reviews);
      state := if conflicts == [] then None else Some(conflicts[0].state);
    }

    method RequestReviewOf(request: Request, key: Key) returns (refusal: Option<Refusal>)
      modifies `reviews, `nextId
      ensures Answers(RequestReview(request, old(Rows()), key), old(Rows()), refusal, Rows())
    {
      if !Visible(Rows(), key, request) {
        return Some(NotFound);
      }
      var conflict := LoadConflictOf(key);
      if conflict.None? || conflict.value.ConvertedToWorkingDay? {
        return Some(Conflict(NoGrantedHoliday));
      }
      if conflict.value.AwaitingDecision? {
        return Some(Conflict(AlreadyAwaitingDecision));
      }
      if conflict.value.HolidayKept? {
        return Some(Conflict(HolidayAlreadyKept));
      }
      assert conflict == Some(AwaitingReason) && key in selections;
      hide ConflictFor;
      reviews := [Review(nextId, key, selections[key].id, ReviewStatus.Pending, None, request.user)] + reviews;
      nextId := nextId + 1;
      refusal := None;
    }

    method MayDecideReview(org: Organization, request: Request, steps: seq<PolicyStep>,
        review: Review) returns (may: bool)
      requires review.record in records && request.user.Some?
      ensures may == MayDecide(org, request, Rows(), steps, review)
    {
      var staff, branch := StaffOf(org, review.record.employee), records[review.record].branch;
      if staff.user == request.user || review.requestedBy == request.user {
        return false;
      }
      for i := 0 to |steps|
        invariant forall j :: 0 <= j < i ==>
                    !CanApprove(request.directory, request.user.value, staff.manager, steps[j],
                                if branch.Some? then branch else request.branch, staff.user, request.now)
      {
        if CanApprove(request.directory, request.user.value, staff.manager, steps[i],
                      if branch.Some? then branch else request.branch, staff.user, request.now) {
          assert steps[i] in steps;
          return true;
        }
      }
      may := false;
    }

    method DecideReviewOf(org: Organization, request: Request, id: nat,
        outcome: Outcome) returns (refusal: Option<Refusal>)
      modifies this
      ensures Answers(DecideReview(org, request, old(Rows()), id, outcome), old(Rows()), refusal, Rows())
    {
      if request.user.None? {
        return Some(Conflict(HumanApproverRequired));
      }
      var found := FindReview(reviews, id);
      if found.None? || !Visible(Rows(), found.value.record, request) {
        return Some(NotFound);
      }
      if !found.value.status.Pending? {
        return Some(Conflict(ReviewAlreadyDecided));
      }
      var policy := CorrectionPolicy(policies);
      if policy.None? {
        return Some(Conflict(NoPolicyForReviews));
      }
      var may := MayDecideReview(org, request, policies[policy.value].steps, found.value);
      if !may {
        return Some(Forbidden);
      }
      assert ReviewRefusal(org, request, Rows(), id) == None;
      hide ReviewRefusal, CorrectionPolicy, MayDecide, Payroll.MarkPayrollStale;
      refusal := None;
      var key := found.value.record;
      if !StillGranted(Rows(), key) {
        reviews := Settle(reviews, id, ReviewStatus.Cancelled, None);
        return;
      }
      if outcome.KeepHoliday? {
        records := records[key := records[key].(status := Rejected, worked := 0, overtime := 0,
                                                version := records[key].version + 1)];
      } else {
        selections := selections[key := selections[key].(status := Withdrawn)];
      }
      reviews := Settle(reviews, id, ReviewStatus.Approved, Some(outcome));
      runs := Payroll.MarkPayrollStale(runs, key.date, key.date);
    }

    // ---- approvals.service ----

    /** Takes the default from the others if need be, and inserts the policy unless its code is taken. */
    method InsertPolicy(input: PolicyInput) returns (refusal: Option<Refusal>)
      requires nextId !in policies
      modifies `policies, `nextId
      ensures CodeTaken(old(policies), input.domain, input.code, None) ==>
                refusal == Some(Conflict(UniqueConstraintFailed)) && policies == old(policies) && nextId == old(nextId)
      ensures !CodeTaken(old(policies), input.domain, input.code, None) ==>
                var makeDefault := input.isDefault == Some(true) || ActiveDefaults(old(policies), input.domain) == {};
                var cleared := if makeDefault then WithoutDefault(old(policies), input.domain, None) else old(policies);
                && refusal == None && nextId == old(nextId) + |input.steps| + 1
                && policies == cleared[old(nextId) :=
                     Policy(input.domain, input.code, makeDefault, true, StoredSteps(input.steps, old(nextId) + 1))]
    {
      ClearingKeepsCodes(policies, input.domain, None, input.code, None);
      hide StoredSteps, CodeTaken, ActiveDefaults, WithoutDefault;
      var saved, id := policies, nextId;
      var makeDefault := input.isDefault == Some(true) || ActiveDefaults(policies, input.domain) == {};
      if makeDefault {
        policies := WithoutDefault(policies, input.domain, None);
      }
      if CodeTaken(policies, input.domain, input.code, None) {
        policies := saved;
        return Some(Conflict(UniqueConstraintFailed));
      }
      policies := policies[id := Policy(input.domain, input.code, makeDefault, true, StoredSteps(input.steps, id + 1))];
      nextId := nextId + |input.steps| + 1;
      refusal := None;
    }

    method CreatePolicy(org: Organization, input: PolicyInput) returns (refusal: Option<Refusal>)
      requires nextId !in policies
      modifies `policies, `nextId
      ensures Answers(EditPolicy(org, old(Rows()), NewPolicy(input)), old(Rows()), refusal, Rows())
    {
      CreatedRows(org, Rows(), input);
      hide EditPolicy, ValidateSteps, CheckNames, StoredSteps, CodeTaken, ActiveDefaults, WithoutDefault;
      refusal := ValidateInput(input.steps, org.names);
      if refusal.Some? {
        return;
      }
      refusal := InsertPolicy(input);
    }

    method UpdatePolicy(org: Organization, id: nat, patch: PolicyPatch,
        elsewhere: set<nat>) returns (refusal: Option<Refusal>)
      modifies `policies, `nextId
      ensures Answers(EditPolicy(org, old(Rows()), ChangePolicy(id, patch, elsewhere)), old(Rows()), refusal, Rows())
    {
      refusal := None;
      if patch.steps.Some? {
        refusal := ValidateEachStep(patch.steps.value);
        if refusal.Some? {
          return;
        }
      }
      if id !in policies || !policies[id].isActive {
        return Some(NotFound);
      }
      hide ValidateSteps, CheckNames, StoredSteps, History, CodeTaken;
      if patch.code.Some? {
        ClearingKeepsCodes(policies, policies[id].domain, Some(id), patch.code.value, Some(id));
      }
      var saved, before := policies, policies[id];
      var makeDefault := BecomesDefault(policies, id, patch);
      if makeDefault {
        policies := WithoutDefault(policies, before.domain, Some(id));
      }
      if patch.steps.Some? {
        var history := History(corrections, elsewhere);
        if exists s :: s in before.steps && s.id in history {
          policies := saved;
          return Some(Conflict(StepsHaveHistory));
        }
        refusal := CheckNames(patch.steps.value, org.names);
        if refusal.Some? {
          policies := saved;
          return;
        }
      }
      if patch.code.Some? && CodeTaken(policies, before.domain, patch.code.value, Some(id)) {
        policies := saved;
        return Some(Conflict(UniqueConstraintFailed));
      }
      policies := policies[id := Patched(before, patch, makeDefault, nextId)];
      if patch.steps.Some? {
        nextId := nextId + |patch.steps.value|;
      }
    }

    method DeactivatePolicy(org: Organization, id: nat) returns (refusal: Option<Refusal>)
      modifies `policies
      ensures Answers(EditPolicy(org, old(Rows()), RetirePolicy(id)), old(Rows()), refusal, Rows())
    {
      if id !in policies || !policies[id].isActive {
        return Some(NotFound);
      }
      policies := policies[id := policies[id].(isActive := false, isDefault := false)];
      refusal := None;
    }

    method ReactivatePolicy(org: Organization, id: nat) returns (refusal: Option<Refusal>)
      modifies `policies
      ensures Answers(EditPolicy(org, old(Rows()), RevivePolicy(id)), old(Rows()), refusal, Rows())
    {
      if id !in policies || policies[id].isActive {
        return Some(NotFound);
      }
      var makeDefault := ActiveDefaults(policies, policies[id].domain) == {};
      policies := policies[id := policies[id].(isActive := true, isDefault := makeDefault)];
      refusal := None;
    }

    // ---- attendance-auto-checkout.service ----

    method CloseDay(org: Organization, request: Request, key: Key,
        closing: Sweep.Closing) returns (outcome: Sweep.Outcome)
      requires key in records
      modifies `corrections, `nextId
      ensures (Rows(), outcome) == Sweep.CloseDay(org, request, old(Rows()), key, closing)
    {
      outcome := Sweep.NOTHING;
      var punches := ByTime(records[key].punches);
      if punches == [] || punches[|punches| - 1].kind != In {
        return;
      }
      if key in closing.nightShifts {
        return outcome.(skippedNightShift := 1);
      }
      if MissingCheckOutPending(Rows(), key) {
        return outcome.(skippedAlreadyPending := 1);
      }
      hide ByTime, CreateCorrection;
      var refusal := CreateAttendanceCorrection(org, request, key,
                                                AutoCloseSnapshot(records[key], Sweep.CloseAt(key, closing)));
      outcome := if refusal.None? then outcome.(closed := 1) else outcome.(failed := 1);
    }

    /** Each day in its own transaction: one that cannot be routed does not roll back the rest. */
    method CloseOrganization(org: Organization, request: Request, days: seq<Key>,
        closing: Sweep.Closing) returns (outcome: Sweep.Outcome)
      requires Sweep.AllRecorded(Rows(), days)
      modifies `corrections, `nextId
      ensures (Rows(), outcome) == Sweep.SweepDays(org, request, old(Rows()), days, closing)
    {
      outcome := Sweep.NOTHING;
      for i := 0 to |days|
        invariant records == old(records)
        invariant (Rows(), outcome) == Sweep.SweepDays(org, request, old(Rows()), days[..i], closing)
      {
        assert days[..i + 1][..i] == days[..i];
        var closeAt := Sweep.CloseAt(days[i], closing);
        if closeAt <= request.now {
          var result := CloseDay(org, request, days[i], closing);
          outcome := Sweep.Add(outcome, result);
        }
      }
      assert days[..|days|] == days;
    }
  }
}
