/**
 * The stored minutes agree with the punches, and payroll knows when they changed.
 *
 * Four operations rewrite a record's summary; none of them recomputes it the same way.
 */
module RecordCache {
  import opened Common
  import opened Totals
  import opened PunchMoves
  import opened MissingCheckOut
  import opened HolidayConflict
  import opened Engine
  import opened Overtaking
  import Sorting
  import Payroll

  /** What a record stores is what its punches, read in time order, amount to; a kept holiday counts nothing. */
  ghost predicate Agrees(r: Record, standardDay: nat) {
    if r.status.Rejected? then r.worked == 0 && r.overtime == 0
    else
      var totals := TotalsOf(ByTime(r.punches), standardDay);
      r.worked == totals.worked && r.overtime == totals.overtime
  }

  ghost predicate AllAgree(s: State, standardDay: nat) {
    forall key :: key in s.records ==> Agrees(s.records[key], standardDay)
  }

  /** The correction a decision would leave. */
  ghost function AfterDecision(request: Request, s: State, id: nat, approve: bool, replacement: Replacement): Correction
    requires id in s.corrections && request.user.Some?
             && PendingStep(StepsOf(s, s.corrections[id]), s.corrections[id].approvals).Some?
  {
    WithDecision(s, s.corrections[id], request.user.value, approve, replacement)
  }

  /** Where a correction leaves a day's first check-in or check-out. */
  function CorrectedTime(field: DateField, punch: Punch): int { if field.At? then field.time else punch.at }

  /** The minutes a correction of a day that reads like this, alternating, counts beyond its punches. */
  function MiscountOf(read: seq<Punch>, after: Snapshot): int {
    if |read| < 2 then 0
    else
      var from, to := CorrectedTime(after.correctedCheckIn, read[0]), CorrectedTime(after.correctedCheckOut, read[1]);
      Miscount(from, to, read[2..])
  }

  ghost predicate SoundDay(read: seq<Punch>) { Alternating(read) && StrictlyInOrder(read) && DistinctIds(read) }

  /** No two punches end up at one instant; where the rows are in time order two may, and keep that order. */
  ghost predicate OrderSettled(stored: seq<Punch>, totalled: seq<Punch>) {
    InOrder(stored) || StrictlyInOrder(ByTime(totalled))
  }

  /**
   * A correction that adds no punch to a day that reads as alternating, in whatever order its rows
   * were made.
   */
  ghost predicate MovesSoundDay(request: Request, s: State, c: Correction) {
    && c.key in s.records && !AddsCheckOut(c) && CorrectedPunches(request, s, c).Ok?
    && SoundDay(ByTime(s.records[c.key].punches))
    && OrderSettled(s.records[c.key].punches, CorrectedPunches(request, s, c).value.totalled)
  }

  /**
   * A correction that adds no punch counts its punches as a later read does: it moves none, or leaves
   * them in order, or on an alternating day miscounts nothing.
   */
  ghost predicate CountsAsReread(request: Request, s: State, c: Correction)
    requires c.key in s.records && CorrectedPunches(request, s, c).Ok?
  {
    var stored, correcting := s.records[c.key].punches, CorrectedPunches(request, s, c).value;
    || CorrectionPunchUpdates(ByTime(stored), c.after) == Ok([])
    || StrictlyInOrder(correcting.totalled)
    || (InOrder(stored) && InOrder(correcting.punches))
    || (SoundDay(ByTime(stored)) && OrderSettled(stored, correcting.totalled)
        && MiscountOf(ByTime(stored), c.after) == 0)
  }

  /** A final approval that adds no punch miscounts none. */
  ghost predicate MovesKeepTotals(org: Organization, request: Request, s: State, a: Action) {
    a.DoDecide? && DecideRefusal(org, request, s, a.id, a.replacement).None? ==>
      var c := AfterDecision(request, s, a.id, a.approve, a.replacement);
      c.status.Accepted? && !AddsCheckOut(c) && CorrectedPunches(request, s, c).Ok? ==> CountsAsReread(request, s, c)
  }

  /** Adding a check-out totals the list a later read returns, whatever else the correction moved. */
  lemma AddedCheckOutIsReread(request: Request, s: State, c: Correction)
    requires c.key in s.records && AddsCheckOut(c) && CorrectedPunches(request, s, c).Ok?
    ensures var correcting := CorrectedPunches(request, s, c).value; ByTime(correcting.punches) == correcting.totalled
  {
  }

  /** What is read back of the moved rows is what is read back of the moved list. */
  lemma RowsReadLikeTheList(stored: seq<Punch>, updates: seq<PunchUpdate>)
    requires OrderSettled(stored, Move(ByTime(stored), updates))
    ensures ByTime(Move(stored, updates)) == ByTime(Move(ByTime(stored), updates))
  {
    if InOrder(stored) {
      ByTimeOfInOrder(stored);
    } else {
      var listed, rows := Move(ByTime(stored), updates), Move(stored, updates);
      MoveSort(stored, updates);
      Sorting.SortPermutes(NotAfter, listed);
      Sorting.SortPermutes(NotAfter, rows);
      ByTimeInOrder(rows);
      StrictOrderIsUnique(ByTime(listed), ByTime(rows));
    }
  }

  /** On a day that reads as alternating a correction stores `MiscountOf` minutes beyond what its punches amount to. */
  lemma CorrectionStoresBeyond(request: Request, s: State, c: Correction)
    requires MovesSoundDay(request, s, c)
    ensures var correcting := CorrectedPunches(request, s, c).value;
            Scan(correcting.totalled).worked ==
              Scan(ByTime(correcting.punches)).worked + MiscountOf(ByTime(s.records[c.key].punches), c.after)
  {
    var read := ByTime(s.records[c.key].punches);
    var updates := CorrectionPunchUpdates(read, c.after).value;
    hide Scan, ByTime, Miscount, Move, OrderSettled, Alternating, StrictlyInOrder, DistinctIds;
    RowsReadLikeTheList(s.records[c.key].punches, updates);
    if |read| < 2 {
      OnePunchCountsAlike(read, updates);
    } else {
      StoredBeyondReread(read, c.after);
      CheckInWhereAsked(read, c.after);
    }
  }

  lemma OrderlyMoveIsReread(stored: seq<Punch>, updates: seq<PunchUpdate>)
    requires || updates == [] || StrictlyInOrder(Move(ByTime(stored), updates))
             || (InOrder(stored) && InOrder(Move(stored, updates)))
    ensures ByTime(Move(stored, updates)) == Move(ByTime(stored), updates)
  {
    if updates == [] {
      assert Move(stored, []) == stored && Move(ByTime(stored), []) == ByTime(stored);
    } else if StrictlyInOrder(Move(ByTime(stored), updates)) {
      MovedListIsRereadList(stored, updates);
    } else {
      MovedListIsRereadListExactly(stored, updates);
    }
  }

  /** A correction counts what a later read counts, adding a check-out or moving without miscounting. */
  lemma CorrectionCountsReread(request: Request, s: State, c: Correction)
    requires c.key in s.records && CorrectedPunches(request, s, c).Ok?
    requires AddsCheckOut(c) || CountsAsReread(request, s, c)
    ensures var correcting := CorrectedPunches(request, s, c).value;
            Scan(correcting.totalled).worked == Scan(ByTime(correcting.punches)).worked
  {
    var stored := s.records[c.key].punches;
    if AddsCheckOut(c) {
      AddedCheckOutIsReread(request, s, c);
    } else if MovesSoundDay(request, s, c) && MiscountOf(ByTime(stored), c.after) == 0 {
      CorrectionStoresBeyond(request, s, c);
    } else {
      hide Scan, ByTime, Move, CorrectionPunchUpdates, InOrder, StrictlyInOrder, SoundDay, OrderSettled, MiscountOf;
      OrderlyMoveIsReread(stored, CorrectionPunchUpdates(ByTime(stored), c.after).value);
    }
  }

  lemma PunchKeepsAgreement(org: Organization, request: Request, s: State, key: Key, kind: PunchKind, at: int,
      dayStatus: Option<DayStatus>, branch: Option<nat>, reviewRequired: bool)
    requires AllAgree(s, org.standardDay)
             && PunchIn(org, request, s, key, kind, at, dayStatus, branch, reviewRequired).Ok?
    ensures AllAgree(PunchIn(org, request, s, key, kind, at, dayStatus, branch, reviewRequired).value, org.standardDay)
  {
  }

  lemma DecideKeepsAgreement(org: Organization, request: Request, s: State, id: nat, approve: bool,
      replacement: Replacement)
    requires AllAgree(s, org.standardDay) && Decide(org, request, s, id, approve, replacement).Ok?
    requires MovesKeepTotals(org, request, s, DoDecide(id, approve, replacement))
    ensures AllAgree(Decide(org, request, s, id, approve, replacement).value, org.standardDay)
  {
    var c := AfterDecision(request, s, id, approve, replacement);
    if c.status.Accepted? { CorrectionCountsReread(request, s, c); }
  }

  lemma DecideReviewKeepsAgreement(org: Organization, request: Request, s: State, id: nat, outcome: Outcome)
    requires AllAgree(s, org.standardDay) && DecideReview(org, request, s, id, outcome).Ok?
    ensures AllAgree(DecideReview(org, request, s, id, outcome).value, org.standardDay)
  {
  }

  /**
   * Every operation keeps the stored minutes equal to those of the punches: punching, a final
   * approval, an added check-out, a kept or converted holiday and everything that leaves records
   * alone. The one thing to ask is that an approved correction miscounts nothing it moves.
   */
  lemma PerformKeepsAgreement(org: Organization, request: Request, s: State, a: Action)
    requires AllAgree(s, org.standardDay) && Perform(org, request, s, a).Ok?
    requires MovesKeepTotals(org, request, s, a)
    ensures AllAgree(Perform(org, request, s, a).value, org.standardDay)
  {
    hide PunchIn, Decide, DecideReview, RequestCorrection, RequestMissingCheckOut, AutoClose, RequestReview;
    hide SelectHoliday, CancelSelection, SetHolidayActive, EditPolicy, CreateRun, CalculateRun, AdvanceRun;
    hide MovesKeepTotals, Agrees;
    match a
    case DoPunch(key, kind, at, dayStatus, branch, reviewRequired) =>
      PunchKeepsAgreement(org, request, s, key, kind, at, dayStatus, branch, reviewRequired);
    case DoDecide(id, approve, replacement) => DecideKeepsAgreement(org, request, s, id, approve, replacement);
    case DoDecideReview(id, outcome) => DecideReviewKeepsAgreement(org, request, s, id, outcome);
    case _ =>
  }

  /** A punch repairs whatever a disorderly correction left: it totals a fresh read. */
  lemma PunchRestoresAgreement(org: Organization, request: Request, s: State, key: Key, kind: PunchKind, at: int,
      dayStatus: Option<DayStatus>, branch: Option<nat>, reviewRequired: bool)
    requires PunchIn(org, request, s, key, kind, at, dayStatus, branch, reviewRequired).Ok?
    ensures var t := PunchIn(org, request, s, key, kind, at, dayStatus, branch, reviewRequired).value;
            key in t.records && Agrees(t.records[key], org.standardDay)
  {
  }

  /** A punched day counts as completed exactly when it is left closed and some minute was worked. */
  lemma CompletedExactly(org: Organization, request: Request, s: State, key: Key, kind: PunchKind, at: int,
      dayStatus: Option<DayStatus>, branch: Option<nat>, reviewRequired: bool)
    requires PunchIn(org, request, s, key, kind, at, dayStatus, branch, reviewRequired).Ok?
    ensures var t := PunchIn(org, request, s, key, kind, at, dayStatus, branch, reviewRequired).value;
            && key in t.records
            && var r := t.records[key];
               r.status == if !HasOpenPunch(ByTime(r.punches)) && r.worked > 0 then Completed else Open
  {
    var punches := Upserted(s, key, dayStatus, branch).punches + [Punch(s.nextId, kind, at)];
    OpenPunchIsScanState(ByTime(punches));
    assert PunchIn(org, request, s, key, kind, at, dayStatus, branch, reviewRequired).value.records[key].punches ==
             punches;
    hide ByTime, Scan, HasOpenPunch, Upserted, Payroll.MarkPayrollStale, PunchRefusal;
  }

  // ---- Branches ----

  /** The day an operation that reaches a record by its own id works on. */
  ghost function ReachedDay(s: State, a: Action): Option<Key> {
    match a
    case DoRequestCorrection(key, _) => Some(key)
    case DoRequestMissingCheckOut(key, _) => Some(key)
    case DoDecide(id, _, _) => if id in s.corrections then Some(s.corrections[id].key) else None
    case DoRequestReview(key) => Some(key)
    case DoDecideReview(id, _) =>
      if FindReview(s.reviews, id).Some? then Some(FindReview(s.reviews, id).value.record) else None
    case _ => None
  }

  /** A request confined to one branch reaches no record of another, and none that is not there. */
  lemma FilteredRequestsStayInBranch(org: Organization, request: Request, s: State, a: Action)
    requires Perform(org, request, s, a).Ok? && ReachedDay(s, a).Some?
    ensures var key := ReachedDay(s, a).value;
            key in s.records && (request.branch.Some? ==> s.records[key].branch == request.branch)
  {
    hide CreateCorrection, AssertValidMissingCheckOut, MissingCheckOutPending, CorrectedPunches, ConflictFor, MayDecide;
    hide Settle;
  }

  // ---- Versions ----

  /** A record that changes is a newer version, and none disappears. */
  ghost predicate VersionsGrow(s: State, t: State) {
    forall key :: key in s.records ==>
      key in t.records && (t.records[key] == s.records[key] || t.records[key].version > s.records[key].version)
  }

  lemma PunchGrowsVersion(org: Organization, request: Request, s: State, key: Key, kind: PunchKind, at: int,
      dayStatus: Option<DayStatus>, branch: Option<nat>, reviewRequired: bool)
    requires PunchIn(org, request, s, key, kind, at, dayStatus, branch, reviewRequired).Ok?
    ensures VersionsGrow(s, PunchIn(org, request, s, key, kind, at, dayStatus, branch, reviewRequired).value)
  {
  }

  lemma DecideGrowsVersion(org: Organization, request: Request, s: State, id: nat, approve: bool,
      replacement: Replacement)
    requires Decide(org, request, s, id, approve, replacement).Ok?
    ensures VersionsGrow(s, Decide(org, request, s, id, approve, replacement).value)
  {
  }

  lemma DecideReviewGrowsVersion(org: Organization, request: Request, s: State, id: nat, outcome: Outcome)
    requires DecideReview(org, request, s, id, outcome).Ok?
    ensures VersionsGrow(s, DecideReview(org, request, s, id, outcome).value)
  {
    hide Settle, Payroll.MarkPayrollStale, MayDecide;
  }

  /** Whatever is done, no record is lost and none changes without a newer version to show for it. */
  lemma PerformGrowsVersions(org: Organization, request: Request, s: State, a: Action)
    requires Perform(org, request, s, a).Ok?
    ensures VersionsGrow(s, Perform(org, request, s, a).value)
  {
    hide PunchIn, Decide, DecideReview, RequestCorrection, RequestMissingCheckOut, AutoClose, RequestReview;
    hide SelectHoliday, CancelSelection, SetHolidayActive, EditPolicy, CreateRun, CalculateRun, AdvanceRun;
    match a
    case DoPunch(key, kind, at, dayStatus, branch, reviewRequired) =>
      PunchGrowsVersion(org, request, s, key, kind, at, dayStatus, branch, reviewRequired);
    case DoDecide(id, approve, replacement) => DecideGrowsVersion(org, request, s, id, approve, replacement);
    case DoDecideReview(id, outcome) => DecideReviewGrowsVersion(org, request, s, id, outcome);
    case _ =>
  }

  /** For punches stored in time order, the list totalled is the list read back exactly when the moves keep order. */
  lemma CorrectedListIsRereadExactly(request: Request, s: State, c: Correction)
    requires c.key in s.records && InOrder(s.records[c.key].punches)
    requires !AddsCheckOut(c) && CorrectedPunches(request, s, c).Ok?
    ensures var correcting := CorrectedPunches(request, s, c).value;
            ByTime(correcting.punches) == correcting.totalled <==> InOrder(correcting.punches)
  {
    var stored := s.records[c.key].punches;
    MovedListIsRereadListExactly(stored, CorrectionPunchUpdates(ByTime(stored), c.after).value);
  }

  /**
   * The record an approved correction leaves on a day that reads as alternating agrees with its
   * punches, minutes and overtime, exactly when nothing is miscounted.
   */
  lemma CorrectionAgreesExactly(request: Request, s: State, c: Correction, standardDay: nat)
    requires MovesSoundDay(request, s, c)
    ensures var r := CorrectedRecord(s.records[c.key], CorrectedPunches(request, s, c).value, c.after, standardDay);
            Agrees(r, standardDay) <==> MiscountOf(ByTime(s.records[c.key].punches), c.after) == 0
  {
    CorrectionStoresBeyond(request, s, c);
    hide CorrectedPunches, Scan, ByTime, MiscountOf, SoundDay, OrderSettled;
  }

  /**
   * With the check-in left before the second one: up to three punches the record always agrees, and
   * from four on, if the second interval counts a minute, exactly when the first check-out does not
   * pass the second check-in.
   */
  lemma CorrectionAgreesUnlessOvertaking(request: Request, s: State, c: Correction, standardDay: nat)
    requires MovesSoundDay(request, s, c)
    requires var read := ByTime(s.records[c.key].punches);
             |read| > 2 ==> CorrectedTime(c.after.correctedCheckIn, read[0]) <= read[2].at
    ensures var read := ByTime(s.records[c.key].punches);
            var r := CorrectedRecord(s.records[c.key], CorrectedPunches(request, s, c).value, c.after, standardDay);
            && (|read| <= 3 ==> Agrees(r, standardDay))
            && (|read| >= 4 && Minutes(read[2].at, read[3].at) >= 1 ==>
                  (Agrees(r, standardDay) <==> CorrectedTime(c.after.correctedCheckOut, read[1]) <= read[2].at))
  {
    CorrectionAgreesExactly(request, s, c, standardDay);
    CorrectedInOrder(request, s, c);
    var read := ByTime(s.records[c.key].punches);
    if |read| >= 2 {
      TailAlternates(read);
      hide CorrectedPunches, CorrectedRecord, Agrees, Miscount, Minutes, ByTime, OrderSettled;
      var from := CorrectedTime(c.after.correctedCheckIn, read[0]);
      var to := CorrectedTime(c.after.correctedCheckOut, read[1]);
      MiscountOfOvertaking(from, to, read[2..]);
    }
  }

  /** An accepted correction leaves the check-out no earlier than the check-in. */
  lemma CorrectedInOrder(request: Request, s: State, c: Correction)
    requires c.key in s.records && CorrectedPunches(request, s, c).Ok? && SoundDay(ByTime(s.records[c.key].punches))
    ensures var read := ByTime(s.records[c.key].punches);
            |read| >= 2 ==>
              CorrectedTime(c.after.correctedCheckIn, read[0]) <= CorrectedTime(c.after.correctedCheckOut, read[1])
  {
    var read := ByTime(s.records[c.key].punches);
    if |read| >= 2 {
      MovedDay(read, c.after);
      CheckInWhereAsked(read, c.after);
    }
  }

  /**
   * Whatever is moved where: on a closed day of whole intervals the record agrees exactly when the
   * corrected interval fits between the others.
   */
  lemma CorrectionAgreesIfFitting(request: Request, s: State, c: Correction, standardDay: nat)
    requires MovesSoundDay(request, s, c)
    requires var read := ByTime(s.records[c.key].punches);
             && |read| >= 2
             && WholeIntervals(CorrectedTime(c.after.correctedCheckIn, read[0]),
                               CorrectedTime(c.after.correctedCheckOut, read[1]), read[2..])
    ensures var read := ByTime(s.records[c.key].punches);
            var r := CorrectedRecord(s.records[c.key], CorrectedPunches(request, s, c).value, c.after, standardDay);
            Agrees(r, standardDay) <==>
              FitsBetween(CorrectedTime(c.after.correctedCheckIn, read[0]),
                          CorrectedTime(c.after.correctedCheckOut, read[1]), read[2..])
  {
    CorrectionAgreesExactly(request, s, c, standardDay);
    CorrectedInOrder(request, s, c);
    var read := ByTime(s.records[c.key].punches);
    TailAlternates(read);
    hide CorrectedPunches, CorrectedRecord, Agrees, Miscount, Minutes, WholeIntervals, FitsBetween, ByTime;
    hide OrderSettled;
    var from, to := CorrectedTime(c.after.correctedCheckIn, read[0]), CorrectedTime(c.after.correctedCheckOut, read[1]);
    MiscountsUnlessFitting(from, to, read[2..]);
  }

  /** What a final approval moves, it moves on a day that reads as alternating. */
  ghost predicate DecidesSoundDay(request: Request, s: State, c: Correction) {
    c.status.Accepted? && !AddsCheckOut(c) ==> MovesSoundDay(request, s, c)
  }

  /** A decision on such a day keeps every record in agreement exactly when it miscounts nothing there. */
  lemma DecideAgreesExactly(org: Organization, request: Request, s: State, id: nat, approve: bool,
      replacement: Replacement)
    requires AllAgree(s, org.standardDay) && Decide(org, request, s, id, approve, replacement).Ok?
    requires DecidesSoundDay(request, s, AfterDecision(request, s, id, approve, replacement))
    ensures s.corrections[id].key in s.records
    ensures var c := AfterDecision(request, s, id, approve, replacement);
            AllAgree(Decide(org, request, s, id, approve, replacement).value, org.standardDay) <==>
              || !c.status.Accepted? || AddsCheckOut(c)
              || MiscountOf(ByTime(s.records[s.corrections[id].key].punches), c.after) == 0
  {
    var c := AfterDecision(request, s, id, approve, replacement);
    var t := Decide(org, request, s, id, approve, replacement).value;
    if c.status.Accepted? {
      var corrected := CorrectedRecord(s.records[c.key], CorrectedPunches(request, s, c).value, c.after,
                                       org.standardDay);
      assert t.records == s.records[c.key := corrected];
      if AddsCheckOut(c) {
        AddedCheckOutIsReread(request, s, c);
      } else {
        CorrectionAgreesExactly(request, s, c, org.standardDay);
        hide SoundDay, MiscountOf, OrderSettled, ByTime;
      }
      hide Decide, CorrectedPunches, DecideRefusal;
      assert AllAgree(t, org.standardDay) <==> Agrees(t.records[c.key], org.standardDay);
    } else {
      hide DecideRefusal, Agrees, MiscountOf, SoundDay, OrderSettled, ByTime;
    }
  }

  // ---- Payroll ----

  ghost predicate PayrollCurrent(s: State) { Payroll.AllCurrent(s.runs, InputsOf(s.records)) }

  ghost predicate DraftsAreFresh(s: State) {
    forall id :: id in s.runs && s.runs[id].status.Draft? ==> s.runs[id].basis == None && !s.runs[id].stale
  }

  ghost predicate RunIdsTaken(s: State) { forall id :: id in s.runs ==> id < s.nextId }

  lemma RewritingMarksPayroll(s: State, key: Key, r: Record)
    requires PayrollCurrent(s)
    ensures PayrollCurrent(Rewritten(s, key, r))
  {
    var input := Payroll.DayInput(r.worked, r.overtime, r.dayStatus);
    assert InputsOf(s.records[key := r]) == InputsOf(s.records)[key := input];
    Payroll.MarkingCoversTheChange(s.runs, InputsOf(s.records), key, input);
  }

  ghost predicate WorksOnRuns(a: Action) { a.DoCreateRun? || a.DoCalculate? || a.DoAdvance? }

  /**
   * An operation that is not about a run leaves records and runs alone, or rewrites at most the
   * record of one day and marks the runs over its date.
   */
  lemma HowRecordsChange(org: Organization, request: Request, s: State, a: Action) returns (key: Key)
    requires Perform(org, request, s, a).Ok?
    requires !WorksOnRuns(a)
    ensures var t := Perform(org, request, s, a).value; LeavesAttendance(s, t) || OnlyRewrites(s, t, key)
  {
    hide PunchIn, Decide, DecideReview, RequestCorrection, RequestMissingCheckOut, AutoClose, RequestReview;
    hide SelectHoliday, CancelSelection, SetHolidayActive, EditPolicy;
    key := Key(0, 0);
    match a
    case DoPunch(k, _, _, _, _, _) => key := k;
    case DoDecide(id, _, _) => key := s.corrections[id].key;
    case DoDecideReview(id, _) => key := FindReview(s.reviews, id).value.record;
    case _ =>
  }

  lemma MarkingAloneKeepsCurrent(runs: map<nat, Payroll.PayrollRun>, inputs: map<Key, Payroll.DayInput>, date: int)
    requires Payroll.AllCurrent(runs, inputs)
    ensures Payroll.AllCurrent(Payroll.MarkPayrollStale(runs, date, date), inputs)
  {
  }

  lemma OtherWorkKeepsPayrollCurrent(org: Organization, request: Request, s: State, a: Action)
    requires PayrollCurrent(s) && Perform(org, request, s, a).Ok? && !WorksOnRuns(a)
    ensures PayrollCurrent(Perform(org, request, s, a).value)
  {
    hide Perform;
    var t := Perform(org, request, s, a).value;
    var key := HowRecordsChange(org, request, s, a);
    if t.records != s.records {
      RewritingMarksPayroll(s, key, t.records[key]);
    } else if t.runs != s.runs {
      MarkingAloneKeepsCurrent(s.runs, InputsOf(s.records), key.date);
    }
  }

  lemma OtherWorkKeepsRunRows(org: Organization, request: Request, s: State, a: Action)
    requires DraftsAreFresh(s) && RunIdsTaken(s) && Perform(org, request, s, a).Ok? && !WorksOnRuns(a)
    ensures DraftsAreFresh(Perform(org, request, s, a).value) && RunIdsTaken(Perform(org, request, s, a).value)
  {
    hide Perform;
    var key := HowRecordsChange(org, request, s, a);
  }

  /**
   * Staleness marking is complete: no operation lets a calculated, unmarked run drift from the
   * attendance it was calculated from. The exception is an advance that declares a draft CALCULATED.
   */
  lemma PerformKeepsPayrollCurrent(org: Organization, request: Request, s: State, a: Action)
    requires PayrollCurrent(s) && DraftsAreFresh(s) && RunIdsTaken(s) && Perform(org, request, s, a).Ok?
    ensures PayrollCurrent(Perform(org, request, s, a).value) <==> !(a.DoAdvance? && a.target.Calculated?)
  {
    if WorksOnRuns(a) {
      RunWorkKeepsPayrollCurrent(org, request, s, a);
    } else {
      hide Perform;
      OtherWorkKeepsPayrollCurrent(org, request, s, a);
    }
  }

  lemma AdvanceRunKeepsCurrent(s: State, id: nat, target: Payroll.RunStatus)
    requires PayrollCurrent(s) && DraftsAreFresh(s) && AdvanceRun(s, id, target).Ok?
    ensures PayrollCurrent(AdvanceRun(s, id, target).value) <==> !target.Calculated?
  {
  }

  lemma CalculateRunKeepsCurrent(s: State, id: nat)
    requires PayrollCurrent(s) && CalculateRun(s, id).Ok?
    ensures PayrollCurrent(CalculateRun(s, id).value)
  {
  }

  lemma CreateRunKeepsCurrent(s: State, from: int, to: int)
    requires PayrollCurrent(s) && CreateRun(s, from, to).Ok?
    ensures PayrollCurrent(CreateRun(s, from, to).value)
  {
  }

  lemma RunWorkKeepsPayrollCurrent(org: Organization, request: Request, s: State, a: Action)
    requires PayrollCurrent(s) && DraftsAreFresh(s) && Perform(org, request, s, a).Ok? && WorksOnRuns(a)
    ensures PayrollCurrent(Perform(org, request, s, a).value) <==> !(a.DoAdvance? && a.target.Calculated?)
  {
    hide PunchIn, Decide, DecideReview, RequestCorrection, RequestMissingCheckOut, AutoClose, RequestReview;
    hide SelectHoliday, CancelSelection, SetHolidayActive, EditPolicy, CreateRun, CalculateRun, AdvanceRun;
    hide PayrollCurrent, DraftsAreFresh;
    match a
    case DoCreateRun(from, to) => CreateRunKeepsCurrent(s, from, to);
    case DoCalculate(id) => CalculateRunKeepsCurrent(s, id);
    case DoAdvance(id, target) => AdvanceRunKeepsCurrent(s, id, target);
  }

  lemma CreateRunKeepsRows(s: State, from: int, to: int)
    requires DraftsAreFresh(s) && RunIdsTaken(s)
    ensures DraftsAreFresh(CreateRun(s, from, to).value) && RunIdsTaken(CreateRun(s, from, to).value)
  {
  }

  lemma AdvanceRunKeepsRows(s: State, id: nat, target: Payroll.RunStatus)
    requires DraftsAreFresh(s) && RunIdsTaken(s) && AdvanceRun(s, id, target).Ok?
    ensures DraftsAreFresh(AdvanceRun(s, id, target).value) && RunIdsTaken(AdvanceRun(s, id, target).value)
  {
  }

  lemma CalculateRunKeepsRows(s: State, id: nat)
    requires DraftsAreFresh(s) && RunIdsTaken(s) && CalculateRun(s, id).Ok?
    ensures DraftsAreFresh(CalculateRun(s, id).value) && RunIdsTaken(CalculateRun(s, id).value)
  {
  }

  lemma RunWorkKeepsRunRows(org: Organization, request: Request, s: State, a: Action)
    requires DraftsAreFresh(s) && RunIdsTaken(s) && Perform(org, request, s, a).Ok? && WorksOnRuns(a)
    ensures DraftsAreFresh(Perform(org, request, s, a).value) && RunIdsTaken(Perform(org, request, s, a).value)
  {
    hide PunchIn, Decide, DecideReview, RequestCorrection, RequestMissingCheckOut, AutoClose, RequestReview;
    hide SelectHoliday, CancelSelection, SetHolidayActive, EditPolicy, CreateRun, CalculateRun, AdvanceRun;
    hide DraftsAreFresh, RunIdsTaken;
    match a
    case DoCreateRun(from, to) => CreateRunKeepsRows(s, from, to);
    case DoCalculate(id) => CalculateRunKeepsRows(s, id);
    case DoAdvance(id, target) => AdvanceRunKeepsRows(s, id, target);
  }

  lemma PerformKeepsRunRows(org: Organization, request: Request, s: State, a: Action)
    requires DraftsAreFresh(s) && RunIdsTaken(s) && Perform(org, request, s, a).Ok?
    ensures DraftsAreFresh(Perform(org, request, s, a).value) && RunIdsTaken(Perform(org, request, s, a).value)
  {
    hide Perform;
    if WorksOnRuns(a) {
      RunWorkKeepsRunRows(org, request, s, a);
    } else {
      OtherWorkKeepsRunRows(org, request, s, a);
    }
  }
}
