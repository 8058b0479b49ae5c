/**
 * The attendance engine as one state: an organization's attendance records, the corrections and
 * approvals raised on them, the policies they follow, holiday selections and their reviews, and the
 * payroll runs calculated over them. Every operation is one transaction: it gives the next state, or
 * a refusal and no change.
 */
module Engine {
  import opened Common
  import opened Least
  import opened Totals
  import opened PunchMoves
  import opened MissingCheckOut
  import opened Approvers
  import opened Policies
  import opened HolidayConflict
  import Payroll

  datatype Record = Record(
    status: RecordStatus, dayStatus: DayStatus, worked: nat, overtime: nat, version: nat,
    branch: Option<nat>, punches: seq<Punch>)

  datatype CorrectionStatus = Undecided | Accepted | Declined

  datatype Approval = Approval(step: nat, number: int, approver: nat, approved: bool)

  /** A correction raised by a punch itself carries no policy. */
  datatype Correction = Correction(
    key: Key, policy: Option<nat>, status: CorrectionStatus, approvals: seq<Approval>, after: Snapshot, byClient: bool)

  datatype Staff = Staff(user: Option<nat>, manager: Option<nat>)

  /** What does not change over a run. */
  datatype Organization = Organization(standardDay: nat, multipleSessions: bool, staff: map<nat, Staff>, names: Names)

  /** What a request brings with it: the moment, who is asking, for which branch, and who holds what then. */
  datatype Request = Request(now: int, user: Option<nat>, client: bool, branch: Option<nat>, directory: Directory)

  datatype State = State(
    records: map<Key, Record>,
    corrections: map<nat, Correction>,
    policies: Table,
    selections: map<Key, Selection>,
    reviews: seq<Review>,
    runs: map<nat, Payroll.PayrollRun>,
    nextId: nat)

  const EMPTY := State(map[], map[], map[], map[], [], map[], 0)

  function StaffOf(org: Organization, employee: nat): Staff {
    if employee in org.staff then org.staff[employee] else Staff(None, None)
  }

  function DaysOf(records: map<Key, Record>): map<Key, seq<Punch>> {
    map key | key in records :: ByTime(records[key].punches)
  }

  function InputsOf(records: map<Key, Record>): map<Key, Payroll.DayInput> {
    map key | key in records :: Payroll.DayInput(records[key].worked, records[key].overtime, records[key].dayStatus)
  }

  function Visible(s: State, key: Key, request: Request): bool {
    key in s.records && (request.branch.None? || s.records[key].branch == request.branch)
  }

  // ---- Punching ----

  /** The record as the upsert leaves it, before its punches are read; a branch nobody names stays as it was. */
  function Upserted(s: State, key: Key, dayStatus: Option<DayStatus>, branch: Option<nat>): Record {
    if key in s.records then
      var r := s.records[key];
      r.(branch := if branch.Some? then branch else r.branch,
         dayStatus := if dayStatus.Some? then dayStatus.value else r.dayStatus, version := r.version + 1)
    else Record(Open, if dayStatus.Some? then dayStatus.value else Present, 0, 0, 1, branch, [])
  }

  function PunchRefusal(existing: seq<Punch>, kind: PunchKind, dayStatus: Option<DayStatus>,
      multipleSessions: bool): Option<Refusal> {
    if dayStatus.Some? && dayStatus.value !in {Present, Late, HalfDay} then Some(Conflict(StatusOfAnotherWorkflow))
    else IntervalRefusal(existing, kind, multipleSessions)
  }

  function Punched(r: Record, punch: Punch, standardDay: nat): Record {
    var punches := r.punches + [punch];
    var totals := TotalsOf(ByTime(punches), standardDay);
    r.(punches := punches, status := if totals.completed then Completed else Open,
       worked := totals.worked, overtime := totals.overtime, version := r.version + 1)
  }

  /** Replaces one record and marks the payroll runs over its date. */
  function Rewritten(s: State, key: Key, record: Record): State {
    s.(records := s.records[key := record], runs := Payroll.MarkPayrollStale(s.runs, key.date, key.date))
  }

  /** Of records and runs, only this day's record may differ, and the runs over its date are marked. */
  ghost predicate OnlyRewrites(s: State, t: State, key: Key) {
    && s.nextId <= t.nextId && t.runs == Payroll.MarkPayrollStale(s.runs, key.date, key.date)
    && (t.records == s.records || (key in t.records && t.records == s.records[key := t.records[key]]))
  }

  ghost predicate LeavesAttendance(s: State, t: State) {
    s.nextId <= t.nextId && t.records == s.records && t.runs == s.runs
  }

  /** Nothing but corrections changes: a proposal decides nothing. */
  ghost predicate OnlyProposes(s: State, t: State) {
    LeavesAttendance(s, t) && t == s.(corrections := t.corrections, nextId := t.nextId)
  }

  const UNCHANGED := Snapshot(Missing, Missing, None, false, None)

  /** The state once a punch is written on the upserted record. */
  function WithPunch(s: State, key: Key, upserted: Record, kind: PunchKind, at: int, standardDay: nat): (t: State)
    ensures OnlyRewrites(s, t, key) && t == s.(records := t.records, runs := t.runs, nextId := s.nextId + 1)
  {
    Rewritten(s, key, Punched(upserted, Punch(s.nextId, kind, at), standardDay)).(nextId := s.nextId + 1)
  }

  /** A punch that needs review raises a correction of its own, under no policy. */
  function Flagged(s: State, key: Key, byClient: bool): (t: State)
    ensures OnlyProposes(s, t)
  {
    s.(corrections := s.corrections[s.nextId := Correction(key, None, Undecided, [], UNCHANGED, byClient)],
       nextId := s.nextId + 1)
  }

  /** `reviewRequired` is the outcome of the geofence and biometric checks. */
  function PunchIn(org: Organization, request: Request, s: State, key: Key, kind: PunchKind, at: int,
      dayStatus: Option<DayStatus>, branch: Option<nat>, reviewRequired: bool): (r: Result<State, Refusal>)
    ensures r.Ok? ==>
              OnlyRewrites(s, r.value, key) && r.value.reviews == s.reviews && r.value.selections == s.selections
    ensures r.Ok? ==> r.value.policies == s.policies
  {
    var upserted := Upserted(s, key, dayStatus, branch);
    var refusal := PunchRefusal(ByTime(upserted.punches), kind, dayStatus, org.multipleSessions);
    if refusal.Some? then Err(refusal.value)
    else
      var t := WithPunch(s, key, upserted, kind, at, org.standardDay);
      Ok(if reviewRequired then Flagged(t, key, request.client) else t)
  }

  // ---- Raising corrections ----

  /** The policy corrections follow: the domain's default, else its only active policy. */
  function CorrectionPolicy(policies: Table): Option<nat> {
    var defaults := Earliest(ActiveDefaults(policies, AttendanceCorrection));
    if defaults.Some? then Some(defaults.value)
    else
      var one := Earliest(ActiveIn(policies, AttendanceCorrection));
      if one.Some? && |ActiveIn(policies, AttendanceCorrection)| == 1 then Some(one.value) else None
  }

  function RouteRefusal(org: Organization, request: Request, s: State, key: Key): Option<Refusal>
    requires key in s.records
  {
    var policy := CorrectionPolicy(s.policies);
    var branch := if s.records[key].branch.Some? then s.records[key].branch else request.branch;
    if policy.None? then
      Some(Conflict(NoPolicyForCorrections))
    else if branch.None? then Some(Conflict(BranchRequired))
    else
      var staff := StaffOf(org, key.employee);
      FirstUnresolvable(request.directory, branch.value, staff.manager, staff.user, s.policies[policy.value].steps,
                        request.now)
  }

  function CreateCorrection(org: Organization, request: Request, s: State, key: Key,
      after: Snapshot): (r: Result<State, Refusal>)
    requires key in s.records
    ensures r.Ok? ==> OnlyProposes(s, r.value)
  {
    var refusal := RouteRefusal(org, request, s, key);
    if refusal.Some? then Err(refusal.value)
    else Ok(s.(corrections := s.corrections[s.nextId :=
                 Correction(key, CorrectionPolicy(s.policies), Undecided, [], after, request.client)],
               nextId := s.nextId + 1))
  }

  /** A record's own JSON as a snapshot: of the keys anyone reads it has only the day status. */
  function RecordSnapshot(r: Record): Snapshot { UNCHANGED.(dayStatus := Some(r.dayStatus)) }

  function RequestCorrection(org: Organization, request: Request, s: State, key: Key,
      after: Option<Snapshot>): (r: Result<State, Refusal>)
    ensures r.Ok? ==> OnlyProposes(s, r.value)
  {
    if !Visible(s, key, request) then Err(NotFound)
    else CreateCorrection(org, request, s, key, if after.Some? then after.value else RecordSnapshot(s.records[key]))
  }

  /** This correction asks for a day's missing check-out and awaits a decision. */
  predicate Proposes(s: State, id: nat, key: Key) {
    && id in s.corrections && s.corrections[id].key == key
    && s.corrections[id].status.Undecided? && s.corrections[id].after.missingCheckOut.Some?
  }

  predicate MissingCheckOutPending(s: State, key: Key) {
    exists id :: id in s.corrections && Proposes(s, id, key)
  }

  function RequestMissingCheckOut(org: Organization, request: Request, s: State, key: Key,
      checkOut: int): (r: Result<State, Refusal>)
    ensures r.Ok? ==> OnlyProposes(s, r.value)
  {
    if !Visible(s, key, request) then Err(NotFound)
    else
      var punches := ByTime(s.records[key].punches);
      var nextPunchAt := NextPunchAfterOpenCheckIn(DaysOf(s.records), key, punches);
      var refusal := AssertValidMissingCheckOut(punches, checkOut, request.now, nextPunchAt);
      if refusal.Some? then Err(refusal.value)
      else if MissingCheckOutPending(s, key) then
        Err(Conflict(CheckOutAlreadyProposed))
      else CreateCorrection(org, request, s, key, RecordSnapshot(s.records[key]).(missingCheckOut := Some(checkOut)))
  }

  // ---- Deciding corrections ----

  function PendingStep(steps: seq<PolicyStep>, approvals: seq<Approval>): Option<PolicyStep> {
    if steps == [] then None
    else if !exists a :: a in approvals && a.step == steps[0].id then Some(steps[0])
    else PendingStep(steps[1..], approvals)
  }

  predicate HasMoreSteps(steps: seq<PolicyStep>, number: int) {
    exists s :: s in steps && s.number > number
  }

  /** The check-out time an approver gives in place of the proposed one, if any. */
  datatype Replacement = AsProposed | Unreadable | Instead(checkOut: int)

  function ReplaceRefusal(correction: Correction, replacement: Replacement): Option<Refusal> {
    if replacement.AsProposed? then None
    else if correction.byClient then Some(Conflict(TimeNotReplaceable))
    else if correction.after.missingCheckOut.None? then Some(Conflict(AddsNoCheckOut))
    else if replacement.Unreadable? then Some(Conflict(CheckOutTimeInvalid))
    else None
  }

  function Replaced(after: Snapshot, replacement: Replacement): Snapshot {
    if replacement.Instead? then after.(missingCheckOut := Some(replacement.checkOut)) else after
  }

  function StepsOf(s: State, correction: Correction): seq<PolicyStep> {
    if correction.policy.Some? && correction.policy.value in s.policies then s.policies[correction.policy.value].steps
    else []
  }

  function DecideRefusal(org: Organization, request: Request, s: State, id: nat,
      replacement: Replacement): Option<Refusal> {
    if id !in s.corrections || !Visible(s, s.corrections[id].key, request) then Some(NotFound)
    else
      var c := s.corrections[id];
      if !c.status.Undecided? then Some(Conflict(CorrectionAlreadyDecided))
      else if request.user.None? then Some(Conflict(HumanApproverRequired))
      else
        var step := PendingStep(StepsOf(s, c), c.approvals);
        if step.None? then Some(Conflict(NothingPending))
        else
          var r, staff := s.records[c.key], StaffOf(org, c.key.employee);
          var branch := if r.branch.Some? then r.branch else request.branch;
          if !CanApprove(request.directory, request.user.value, staff.manager, step.value, branch, staff.user,
                         request.now) then
            Some(Forbidden)
          else ReplaceRefusal(c, replacement)
  }

  /** The correction with the decision on its pending step added. */
  function WithDecision(s: State, c: Correction, approver: nat, approve: bool, replacement: Replacement): Correction
    requires PendingStep(StepsOf(s, c), c.approvals).Some?
  {
    var step := PendingStep(StepsOf(s, c), c.approvals).value;
    c.(approvals := c.approvals + [Approval(step.id, step.number, approver, approve)],
       after := Replaced(c.after, replacement),
       status := if !approve then Declined
                 else if HasMoreSteps(StepsOf(s, c), step.number) then Undecided
                 else Accepted)
  }

  predicate AddsCheckOut(c: Correction) { !c.byClient && c.after.missingCheckOut.Some? }

  /** The punches a correction leaves, and the list its totals are taken over. */
  datatype Correcting = Correcting(punches: seq<Punch>, totalled: seq<Punch>)

  function CorrectedPunches(request: Request, s: State, c: Correction): Result<Correcting, Refusal>
    requires c.key in s.records
  {
    var stored := s.records[c.key].punches;
    var updates := CorrectionPunchUpdates(ByTime(stored), c.after);
    if updates.Err? then Err(updates.error)
    else
      var moved := Move(stored, updates.value);
      if AddsCheckOut(c) then
        var reread, checkOut := ByTime(moved), c.after.missingCheckOut.value;
        var days := DaysOf(s.records)[c.key := reread];
        var refusal := AssertValidMissingCheckOut(reread, checkOut, request.now,
                                                  NextPunchAfterOpenCheckIn(days, c.key, reread));
        if refusal.Some? then Err(refusal.value)
        else
          var out := Punch(s.nextId, Out, checkOut);
          Ok(Correcting(moved + [out], reread + [out]))
      else Ok(Correcting(moved, Move(ByTime(stored), updates.value)))
  }

  function CorrectedRecord(r: Record, correcting: Correcting, after: Snapshot, standardDay: nat): Record {
    var totals := TotalsOf(correcting.totalled, standardDay);
    r.(status := Corrected, worked := totals.worked, overtime := totals.overtime, punches := correcting.punches,
       dayStatus := if after.dayStatus.Some? then after.dayStatus.value else r.dayStatus, version := r.version + 1)
  }

  /** The state once a correction has rewritten its record. */
  function Applied(s: State, c: Correction, correcting: Correcting, standardDay: nat): (t: State)
    requires c.key in s.records
    ensures OnlyRewrites(s, t, c.key) && t == s.(records := t.records, runs := t.runs, nextId := t.nextId)
  {
    Rewritten(s, c.key, CorrectedRecord(s.records[c.key], correcting, c.after, standardDay))
      .(nextId := s.nextId + if AddsCheckOut(c) then 1 else 0)
  }

  function Decide(org: Organization, request: Request, s: State, id: nat, approve: bool,
      replacement: Replacement): (r: Result<State, Refusal>)
    ensures r.Ok? ==>
              id in s.corrections && (LeavesAttendance(s, r.value) || OnlyRewrites(s, r.value, s.corrections[id].key))
    ensures r.Ok? ==>
              r.value.policies == s.policies && r.value.selections == s.selections && r.value.reviews == s.reviews
  {
    var refusal := DecideRefusal(org, request, s, id, replacement);
    if refusal.Some? then Err(refusal.value)
    else
      var c := WithDecision(s, s.corrections[id], request.user.value, approve, replacement);
      var decided := s.(corrections := s.corrections[id := c]);
      if !c.status.Accepted? then Ok(decided)
      else
        var correcting := CorrectedPunches(request, s, c);
        if correcting.Err? then Err(correcting.error)
        else Ok(Applied(decided, c, correcting.value, org.standardDay))
  }

  // ---- Holiday reviews ----

  function RecordRow(s: State, key: Key): ConflictRecord
    requires key in s.records
  {
    ConflictRecord(key, s.records[key].status, |s.records[key].punches|)
  }

  /** The conflict on one day, with the one selection the employee has for its date. */
  function ConflictFor(s: State, key: Key): Option<ConflictState> {
    if key !in s.records || key !in s.selections then None
    else HolidayConflictState(RecordRow(s, key), s.selections[key], OfRecord(s.reviews, key))
  }

  function RequestReview(request: Request, s: State, key: Key): (r: Result<State, Refusal>)
    ensures r.Ok? ==>
              LeavesAttendance(s, r.value) && r.value == s.(reviews := r.value.reviews, nextId := r.value.nextId)
  {
    if !Visible(s, key, request) then Err(NotFound)
    else match ConflictFor(s, key)
      case None => Err(Conflict(NoGrantedHoliday))
      case Some(ConvertedToWorkingDay) => Err(Conflict(NoGrantedHoliday))
      case Some(AwaitingDecision) => Err(Conflict(AlreadyAwaitingDecision))
      case Some(HolidayKept) => Err(Conflict(HolidayAlreadyKept))
      case Some(AwaitingReason) =>
        Ok(s.(reviews := [Review(s.nextId, key, s.selections[key].id, Pending, None, request.user)] + s.reviews,
              nextId := s.nextId + 1))
  }

  function FindReview(reviews: seq<Review>, id: nat): Option<Review> {
    if reviews == [] then None
    else if reviews[0].id == id then Some(reviews[0])
    else FindReview(reviews[1..], id)
  }

  function Settle(reviews: seq<Review>, id: nat, status: ReviewStatus, outcome: Option<Outcome>): seq<Review> {
    seq(|reviews|, i requires 0 <= i < |reviews| =>
      if reviews[i].id == id then reviews[i].(status := status, outcome := outcome) else reviews[i])
  }

  /** Any approver of any step of the correction policy may decide, but neither the employee nor the requester. */
  predicate MayDecide(org: Organization, request: Request, s: State, steps: seq<PolicyStep>, review: Review)
    requires review.record in s.records && request.user.Some?
  {
    var staff, branch := StaffOf(org, review.record.employee), s.records[review.record].branch;
    && staff.user != request.user && review.requestedBy != request.user
    && exists step :: step in steps
         && CanApprove(request.directory, request.user.value, staff.manager, step,
                       if branch.Some? then branch else request.branch, staff.user, request.now)
  }

  function ReviewRefusal(org: Organization, request: Request, s: State, id: nat): Option<Refusal> {
    var found := FindReview(s.reviews, id);
    if request.user.None? then Some(Conflict(HumanApproverRequired))
    else if found.None? || !Visible(s, found.value.record, request) then Some(NotFound)
    else if !found.value.status.Pending? then Some(Conflict(ReviewAlreadyDecided))
    else if CorrectionPolicy(s.policies).None? then
      Some(Conflict(NoPolicyForReviews))
    else if !MayDecide(org, request, s, s.policies[CorrectionPolicy(s.policies).value].steps, found.value) then
      Some(Forbidden)
    else None
  }

  predicate StillGranted(s: State, key: Key) {
    key in s.selections && s.selections[key].status.Confirmed? && s.selections[key].holidayActive
  }

  function DecideReview(org: Organization, request: Request, s: State, id: nat,
      outcome: Outcome): (r: Result<State, Refusal>)
    ensures r.Ok? ==> FindReview(s.reviews, id).Some?
    ensures r.Ok? ==> LeavesAttendance(s, r.value) || OnlyRewrites(s, r.value, FindReview(s.reviews, id).value.record)
    ensures r.Ok? ==>
              r.value.corrections == s.corrections && r.value.policies == s.policies && r.value.nextId == s.nextId
  {
    var refusal := ReviewRefusal(org, request, s, id);
    if refusal.Some? then Err(refusal.value)
    else
      var key := FindReview(s.reviews, id).value.record;
      if !StillGranted(s, key) then Ok(s.(reviews := Settle(s.reviews, id, ReviewStatus.Cancelled, None)))
      else
        var settled := s.(reviews := Settle(s.reviews, id, ReviewStatus.Approved, Some(outcome)));
        if outcome.KeepHoliday? then
          var r := s.records[key];
          Ok(Rewritten(settled, key, r.(status := Rejected, worked := 0, overtime := 0, version := r.version + 1)))
        else
          Ok(settled.(selections := s.selections[key := s.selections[key].(status := Withdrawn)],
                      runs := Payroll.MarkPayrollStale(s.runs, key.date, key.date)))
  }

  // ---- What employees and administrators do to the holiday itself ----

  function SelectHoliday(s: State, key: Key): (r: Result<State, Refusal>)
    ensures r.Ok? ==>
              LeavesAttendance(s, r.value) && r.value == s.(selections := r.value.selections, nextId := r.value.nextId)
  {
    if key in s.selections then
      if !s.selections[key].holidayActive then Err(NotFound)
      else Ok(s.(selections := s.selections[key := s.selections[key].(status := Confirmed)]))
    else
      Ok(s.(selections := s.selections[key := Selection(s.nextId, key, Confirmed, true, true)], nextId := s.nextId + 1))
  }

  function CancelSelection(s: State, key: Key): (r: Result<State, Refusal>)
    ensures r.Ok? ==>
              LeavesAttendance(s, r.value) && r.value == s.(selections := r.value.selections, nextId := r.value.nextId)
  {
    if key !in s.selections then Err(NotFound)
    else if !s.selections[key].status.Confirmed? then Err(Conflict(SelectionNotActive))
    else Ok(s.(selections := s.selections[key := s.selections[key].(status := Withdrawn)]))
  }

  function SetHolidayActive(s: State, key: Key, active: bool): (r: Result<State, Refusal>)
    ensures r.Ok? ==>
              LeavesAttendance(s, r.value) && r.value == s.(selections := r.value.selections, nextId := r.value.nextId)
  {
    if key !in s.selections then Err(NotFound)
    else Ok(s.(selections := s.selections[key := s.selections[key].(holidayActive := active)]))
  }

  // ---- Policies and payroll ----

  /** The steps some attendance approval refers to; `elsewhere` holds those of the other workflows. */
  function History(corrections: map<nat, Correction>, elsewhere: set<nat>): set<nat> {
    elsewhere
    + set id, i | id in corrections && 0 <= i < |corrections[id].approvals| :: corrections[id].approvals[i].step
  }

  datatype PolicyEdit =
    | NewPolicy(input: PolicyInput)
    | ChangePolicy(id: nat, patch: PolicyPatch, elsewhere: set<nat>)
    | RetirePolicy(id: nat)
    | RevivePolicy(id: nat)

  function EditOf(s: State, edit: PolicyEdit): Edit {
    match edit
    case NewPolicy(input) => CreatePolicy(input, s.nextId, s.nextId + 1)
    case ChangePolicy(id, patch, elsewhere) => UpdatePolicy(id, patch, History(s.corrections, elsewhere), s.nextId)
    case RetirePolicy(id) => DeactivatePolicy(id)
    case RevivePolicy(id) => ReactivatePolicy(id)
  }

  function IdsTaken(edit: PolicyEdit): nat {
    match edit
    case NewPolicy(input) => |input.steps| + 1
    case ChangePolicy(_, patch, _) => if patch.steps.Some? then |patch.steps.value| else 0
    case _ => 0
  }

  function EditPolicy(org: Organization, s: State, edit: PolicyEdit): (r: Result<State, Refusal>)
    ensures r.Ok? ==>
              LeavesAttendance(s, r.value) && r.value == s.(policies := r.value.policies, nextId := r.value.nextId)
  {
    if edit.NewPolicy? && s.nextId in s.policies then Err(Conflict(UniqueConstraintFailed))
    else
      match Edited(s.policies, EditOf(s, edit), org.names)
      case Ok(table) => Ok(s.(policies := table, nextId := s.nextId + IdsTaken(edit)))
      case Err(refusal) => Err(refusal)
  }

  function CreateRun(s: State, from: int, to: int): (r: Result<State, Refusal>)
    ensures r.Ok? ==> s.nextId <= r.value.nextId && r.value == s.(runs := r.value.runs, nextId := r.value.nextId)
  {
    Ok(s.(runs := s.runs[s.nextId := Payroll.PayrollRun(Payroll.Draft, false, from, to, None)], nextId := s.nextId + 1))
  }

  function CalculateRun(s: State, id: nat): (r: Result<State, Refusal>)
    ensures r.Ok? ==> s.nextId <= r.value.nextId && r.value == s.(runs := r.value.runs, nextId := r.value.nextId)
  {
    match Payroll.Calculate(s.runs, InputsOf(s.records), id)
    case Ok(runs) => Ok(s.(runs := runs))
    case Err(refusal) => Err(refusal)
  }

  function AdvanceRun(s: State, id: nat, target: Payroll.RunStatus): (r: Result<State, Refusal>)
    ensures r.Ok? ==> s.nextId <= r.value.nextId && r.value == s.(runs := r.value.runs, nextId := r.value.nextId)
  {
    match Payroll.Advance(s.runs, id, target)
    case Ok(runs) => Ok(s.(runs := runs))
    case Err(refusal) => Err(refusal)
  }

  // ---- Closing a day that was never checked out of ----

  function AutoCloseSnapshot(r: Record, closeAt: int): Snapshot {
    RecordSnapshot(r).(missingCheckOut := Some(closeAt), autoClosed := true)
  }

  // ---- One step of the machine ----

  datatype Action =
    | DoPunch(key: Key, kind: PunchKind, at: int, dayStatus: Option<DayStatus>, branch: Option<nat>,
              reviewRequired: bool)
    | DoRequestCorrection(key: Key, after: Option<Snapshot>)
    | DoRequestMissingCheckOut(key: Key, checkOut: int)
    | DoAutoClose(key: Key, closeAt: int)
    | DoDecide(id: nat, approve: bool, replacement: Replacement)
    | DoRequestReview(key: Key)
    | DoDecideReview(id: nat, outcome: Outcome)
    | DoSelectHoliday(key: Key)
    | DoCancelSelection(key: Key)
    | DoSetHolidayActive(key: Key, active: bool)
    | DoEditPolicy(edit: PolicyEdit)
    | DoCreateRun(from: int, to: int)
    | DoCalculate(id: nat)
    | DoAdvance(id: nat, target: Payroll.RunStatus)

  /** What the sweep does to one due day that ends on a check-in. */
  function AutoClose(org: Organization, request: Request, s: State, key: Key, closeAt: int): (r: Result<State, Refusal>)
    ensures r.Ok? ==> OnlyProposes(s, r.value)
  {
    if key !in s.records then Err(NotFound)
    else if MissingCheckOutPending(s, key) then Err(Conflict(CheckOutAlreadyProposed))
    else CreateCorrection(org, request, s, key, AutoCloseSnapshot(s.records[key], closeAt))
  }

  function Perform(org: Organization, request: Request, s: State, a: Action): Result<State, Refusal> {
    match a
    case DoPunch(key, kind, at, dayStatus, branch, reviewRequired) =>
      PunchIn(org, request, s, key, kind, at, dayStatus, branch, reviewRequired)
    case DoRequestCorrection(key, after) => RequestCorrection(org, request, s, key, after)
    case DoRequestMissingCheckOut(key, checkOut) => RequestMissingCheckOut(org, request, s, key, checkOut)
    case DoAutoClose(key, closeAt) => AutoClose(org, request, s, key, closeAt)
    case DoDecide(id, approve, replacement) => Decide(org, request, s, id, approve, replacement)
    case DoRequestReview(key) => RequestReview(request, s, key)
    case DoDecideReview(id, outcome) => DecideReview(org, request, s, id, outcome)
    case DoSelectHoliday(key) => SelectHoliday(s, key)
    case DoCancelSelection(key) => CancelSelection(s, key)
    case DoSetHolidayActive(key, active) => SetHolidayActive(s, key, active)
    case DoEditPolicy(edit) => EditPolicy(org, s, edit)
    case DoCreateRun(from, to) => CreateRun(s, from, to)
    case DoCalculate(id) => CalculateRun(s, id)
    case DoAdvance(id, target) => AdvanceRun(s, id, target)
  }
}
