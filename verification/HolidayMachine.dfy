/**
 * The derived conflict state of a granted optional holiday, as the machine it amounts to.
 *
 * Nothing stores where a dispute stands. It is read off the record, the selection and the reviews,
 * and several operations write each of those. Here it is one labelled machine per day.
 */
module HolidayMachine {
  import opened Common
  import opened Totals
  import opened PunchMoves
  import opened MissingCheckOut
  import opened Approvers
  import opened Policies
  import opened HolidayConflict
  import opened Engine
  import Payroll

  // ---- The machine ----

  datatype Phase = Unpunched | Reason | Decision | Kept

  datatype Grant = NeverSelected | Selected(confirmed: bool, active: bool)

  /** `last` is the outcome of the latest decision a manager made. */
  datatype Dispute = Dispute(phase: Phase, grant: Grant, last: Option<Outcome>)

  datatype Event =
    | Elsewhere
    | Punches
    | Corrects
    | Asks
    | Decides(outcome: Outcome)
    | Selects
    | Withdraws
    | SetsHoliday(active: bool)

  const START := Dispute(Unpunched, NeverSelected, None)

  predicate Granted(d: Dispute) { d.grant.Selected? && d.grant.confirmed && d.grant.active }

  /** What is seen of a dispute. */
  function Shown(d: Dispute): Option<ConflictState> {
    if d.grant.NeverSelected? then None
    else if !d.grant.confirmed then if d.last == Some(ConvertToWorkingDay) then Some(ConvertedToWorkingDay) else None
    else if !d.grant.active then None
    else match d.phase
      case Unpunched => None
      case Reason => Some(AwaitingReason)
      case Decision => Some(AwaitingDecision)
      case Kept => Some(HolidayKept)
  }

  predicate Allowed(d: Dispute, e: Event) {
    match e
    case Corrects => !d.phase.Unpunched?
    case Asks => Shown(d) == Some(AwaitingReason)
    case Decides(_) => d.phase.Decision?
    case Selects => d.grant.Selected? ==> d.grant.active
    case Withdraws => d.grant.Selected? && d.grant.confirmed
    case SetsHoliday(_) => d.grant.Selected?
    case _ => true
  }

  /** Work on a day reopens it, unless a decision is awaited already. */
  function AfterWork(phase: Phase): Phase { if phase.Decision? then Decision else Reason }

  function Next(d: Dispute, e: Event): Dispute
    requires Allowed(d, e)
  {
    match e
    case Elsewhere => d
    case Punches => d.(phase := AfterWork(d.phase))
    case Corrects => d.(phase := AfterWork(d.phase))
    case Asks => d.(phase := Decision)
    case Decides(outcome) =>
      if !Granted(d) then d.(phase := Reason)
      else if outcome.KeepHoliday? then d.(phase := Kept, last := Some(outcome))
      else d.(phase := Reason, last := Some(outcome), grant := d.grant.(confirmed := false))
    case Selects => d.(grant := if d.grant.Selected? then d.grant.(confirmed := true) else Selected(true, true))
    case Withdraws => d.(grant := d.grant.(confirmed := false))
    case SetsHoliday(active) => d.(grant := d.grant.(active := active))
  }

  // ---- What is stored keeps to it ----

  function OutcomeOf(review: Option<Review>): Option<Outcome> {
    if review.Some? then review.value.outcome else None
  }

  function GrantOf(s: State, key: Key): Grant {
    if key in s.selections then Selected(s.selections[key].status.Confirmed?, s.selections[key].holidayActive)
    else NeverSelected
  }

  function DisputeOf(s: State, key: Key): Dispute {
    var mine := OfRecord(s.reviews, key);
    Dispute(
      if key !in s.records then Unpunched
      else if FirstWith(mine, ReviewStatus.Pending).Some? then Decision
      else if s.records[key].status.Rejected? then Kept
      else Reason,
      GrantOf(s, key),
      OutcomeOf(FirstWith(mine, ReviewStatus.Approved)))
  }

  /** Only the newest review of a day may be undecided, and a decision is made exactly by approving. */
  ghost predicate NewestFirst(mine: seq<Review>) {
    && (forall i :: 0 < i < |mine| ==> !mine[i].status.Pending?)
    && (forall i :: 0 <= i < |mine| ==> (mine[i].status.Approved? <==> mine[i].outcome.Some?))
  }

  /** A rejected record is a kept holiday, and nothing is pending on it. */
  ghost predicate RejectedIsKept(s: State, key: Key)
    requires key in s.records
  {
    var mine := OfRecord(s.reviews, key);
    s.records[key].status.Rejected? ==>
      FirstWith(mine, ReviewStatus.Pending).None?
      && OutcomeOf(FirstWith(mine, ReviewStatus.Approved)) == Some(KeepHoliday)
  }

  ghost predicate DayIsSound(s: State, key: Key) {
    && NewestFirst(OfRecord(s.reviews, key))
    && (key in s.records ==> s.records[key].punches != [] && RejectedIsKept(s, key))
  }

  ghost predicate ReviewIsPlaced(s: State, r: Review) {
    r.id < s.nextId && r.record in s.records && r.record in s.selections && r.selection == s.selections[r.record].id
  }

  ghost predicate SelectionsPlaced(s: State) {
    forall key :: key in s.selections ==> s.selections[key].day == key && s.selections[key].optional
  }

  ghost predicate ReviewsPlaced(s: State) {
    && (forall i :: 0 <= i < |s.reviews| ==> ReviewIsPlaced(s, s.reviews[i]))
    && (forall i, j :: 0 <= i < j < |s.reviews| ==> s.reviews[i].id != s.reviews[j].id)
  }

  ghost predicate HolidaySound(s: State) {
    SelectionsPlaced(s) && ReviewsPlaced(s) && forall key :: DayIsSound(s, key)
  }

  lemma StartIsSound()
    ensures HolidaySound(EMPTY) && forall key :: DisputeOf(EMPTY, key) == START
  {
  }

  // ---- The derived state is the machine's ----

  lemma {:induction false} AllOneSelection(reviews: seq<Review>, selection: nat)
    requires forall r :: r in reviews ==> r.selection == selection
    ensures ForSelection(reviews, selection) == reviews
  {
    if reviews != [] { AllOneSelection(reviews[1..], selection); }
  }

  lemma ReviewsOfDay(s: State, key: Key)
    requires ReviewsPlaced(s)
    ensures forall r :: r in OfRecord(s.reviews, key) ==> r in s.reviews && r.record == key && ReviewIsPlaced(s, r)
    ensures key in s.selections ==>
              ForSelection(OfRecord(s.reviews, key), s.selections[key].id) == OfRecord(s.reviews, key)
    ensures key !in s.records || key !in s.selections ==> OfRecord(s.reviews, key) == []
  {
    var mine := OfRecord(s.reviews, key);
    forall r | r in mine ensures r in s.reviews && r.record == key && ReviewIsPlaced(s, r) {
      OfRecordHolds(s.reviews, key, r);
    }
    if key in s.selections { AllOneSelection(mine, s.selections[key].id); }
    assert mine != [] ==> mine[0] in mine;
  }

  /** What the three tables are read as is what the machine shows. */
  lemma ConflictIsShown(s: State, key: Key)
    requires HolidaySound(s)
    ensures ConflictFor(s, key) == Shown(DisputeOf(s, key))
  {
    ReviewsOfDay(s, key);
    assert DayIsSound(s, key);
    hide ReviewsPlaced, OfRecord, ForSelection, FirstWith;
    if key in s.records && key in s.selections {
      DecidedOutcome(OfRecord(s.reviews, key));
    }
  }

  lemma DecidedOutcome(mine: seq<Review>)
    requires NewestFirst(mine)
    ensures FirstWith(mine, ReviewStatus.Approved).Some? ==> FirstWith(mine, ReviewStatus.Approved).value.outcome.Some?
  {
  }

  // ---- One step of the state is one event of the machine ----

  /** What an operation is to one day's dispute. */
  ghost function EventOf(s: State, a: Action, t: State, key: Key): Event {
    match a
    case DoPunch(k, _, _, _, _, _) => if k == key then Punches else Elsewhere
    case DoDecide(id, _, _) =>
      if id in s.corrections && s.corrections[id].key == key && id in t.corrections
         && t.corrections[id].status.Accepted?
      then Corrects else Elsewhere
    case DoRequestReview(k) => if k == key then Asks else Elsewhere
    case DoDecideReview(id, outcome) =>
      var review := FindReview(s.reviews, id);
      if review.Some? && review.value.record == key then Decides(outcome) else Elsewhere
    case DoSelectHoliday(k) => if k == key then Selects else Elsewhere
    case DoCancelSelection(k) => if k == key then Withdraws else Elsewhere
    case DoSetHolidayActive(k, active) => if k == key then SetsHoliday(active) else Elsewhere
    case _ => Elsewhere
  }

  ghost predicate Follows(s: State, t: State, key: Key, e: Event) {
    Allowed(DisputeOf(s, key), e) && DisputeOf(t, key) == Next(DisputeOf(s, key), e)
  }

  /** The next state is sound again, and every day's dispute moved as the machine says. */
  ghost predicate Refines(s: State, a: Action, t: State) {
    HolidaySound(t) && forall key :: Follows(s, t, key, EventOf(s, a, t, key))
  }

  /** A step that touches no record, selection or review is nothing to the machine. */
  lemma OtherTablesFollow(s: State, t: State)
    requires HolidaySound(s)
    requires t.records == s.records && t.selections == s.selections && t.reviews == s.reviews && s.nextId <= t.nextId
    ensures HolidaySound(t) && forall key :: Follows(s, t, key, Elsewhere)
  {
    forall key ensures DayIsSound(t, key) { assert DayIsSound(s, key); }
  }

  /** Rewriting a day's record to anything but a rejected one is work on that day. */
  lemma WorkFollows(s: State, t: State, key: Key)
    requires HolidaySound(s) && key in t.records && t.records == s.records[key := t.records[key]]
    requires t.selections == s.selections && t.reviews == s.reviews && s.nextId <= t.nextId
    requires t.records[key].punches != [] && !t.records[key].status.Rejected?
    ensures HolidaySound(t) && Follows(s, t, key, Punches) && forall k :: k != key ==> Follows(s, t, k, Elsewhere)
  {
    ReviewsOfDay(s, key);
    forall k ensures DayIsSound(t, k) { assert DayIsSound(s, k); }
  }

  lemma PunchRefines(org: Organization, request: Request, s: State, key: Key, kind: PunchKind, at: int,
      dayStatus: Option<DayStatus>, branch: Option<nat>, reviewRequired: bool)
    requires HolidaySound(s) && PunchIn(org, request, s, key, kind, at, dayStatus, branch, reviewRequired).Ok?
    ensures Refines(s, DoPunch(key, kind, at, dayStatus, branch, reviewRequired),
                    PunchIn(org, request, s, key, kind, at, dayStatus, branch, reviewRequired).value)
  {
    hide HolidaySound, Follows, TotalsOf, ByTime;
    WorkFollows(s, PunchIn(org, request, s, key, kind, at, dayStatus, branch, reviewRequired).value, key);
  }

  lemma RecordStaysPunched(org: Organization, request: Request, s: State, id: nat, approve: bool,
      replacement: Replacement)
    requires HolidaySound(s) && Decide(org, request, s, id, approve, replacement).Ok?
    requires id in Decide(org, request, s, id, approve, replacement).value.corrections
    requires Decide(org, request, s, id, approve, replacement).value.corrections[id].status.Accepted?
    ensures id in s.corrections
    ensures var t, key := Decide(org, request, s, id, approve, replacement).value, s.corrections[id].key;
            && key in s.records && key in t.records && t.records == s.records[key := t.records[key]]
            && t.records[key].punches != [] && !t.records[key].status.Rejected?
  {
    hide TotalsOf, ByTime, CorrectionPunchUpdates, AssertValidMissingCheckOut, StaffOf, CanApprove;
    assert DayIsSound(s, s.corrections[id].key);
    hide HolidaySound;
  }

  lemma DecideRefines(org: Organization, request: Request, s: State, id: nat, approve: bool, replacement: Replacement)
    requires HolidaySound(s) && Decide(org, request, s, id, approve, replacement).Ok?
    ensures Refines(s, DoDecide(id, approve, replacement), Decide(org, request, s, id, approve, replacement).value)
  {
    hide DecideRefusal, TotalsOf, ByTime, CorrectionPunchUpdates, AssertValidMissingCheckOut;
    var t := Decide(org, request, s, id, approve, replacement).value;
    var key := s.corrections[id].key;
    if t.corrections[id].status.Accepted? {
      RecordStaysPunched(org, request, s, id, approve, replacement);
      WorkFollows(s, t, key);
    } else {
      OtherTablesFollow(s, t);
    }
  }

  lemma RequestRefines(request: Request, s: State, key: Key)
    requires HolidaySound(s) && RequestReview(request, s, key).Ok?
    ensures Refines(s, DoRequestReview(key), RequestReview(request, s, key).value)
  {
    ConflictIsShown(s, key);
    var t := RequestReview(request, s, key).value;
    assert t.reviews[1..] == s.reviews;
    assert DayIsSound(s, key) && DisputeOf(s, key).phase.Reason?;
    FirstWithHolds(OfRecord(s.reviews, key), ReviewStatus.Pending);
    hide HolidayConflictState;
    assert OfRecord(t.reviews, key) == [t.reviews[0]] + OfRecord(s.reviews, key);
    forall k ensures DayIsSound(t, k) {
      assert DayIsSound(s, k);
      assert k != key ==> OfRecord(t.reviews, k) == OfRecord(s.reviews, k);
    }
    forall i | 0 <= i < |t.reviews| ensures ReviewIsPlaced(t, t.reviews[i]) {
      assert i > 0 ==> t.reviews[i] == s.reviews[i - 1];
    }
  }

  lemma SelectionsFollow(s: State, t: State, key: Key)
    requires HolidaySound(s) && key in t.selections && t.selections == s.selections[key := t.selections[key]]
    requires t.records == s.records && t.reviews == s.reviews && s.nextId <= t.nextId
    requires t.selections[key].day == key && t.selections[key].optional
    requires key in s.selections ==> t.selections[key].id == s.selections[key].id
    ensures HolidaySound(t) && DisputeOf(t, key) == DisputeOf(s, key).(grant := GrantOf(t, key))
    ensures forall k :: k != key ==> Follows(s, t, k, Elsewhere)
  {
    forall k ensures DayIsSound(t, k) { assert DayIsSound(s, k); }
  }

  lemma SelectRefines(s: State, key: Key)
    requires HolidaySound(s) && SelectHoliday(s, key).Ok?
    ensures Refines(s, DoSelectHoliday(key), SelectHoliday(s, key).value)
  {
    SelectionsFollow(s, SelectHoliday(s, key).value, key);
  }

  lemma CancelRefines(s: State, key: Key)
    requires HolidaySound(s) && CancelSelection(s, key).Ok?
    ensures Refines(s, DoCancelSelection(key), CancelSelection(s, key).value)
  {
    SelectionsFollow(s, CancelSelection(s, key).value, key);
  }

  lemma SetHolidayRefines(s: State, key: Key, active: bool)
    requires HolidaySound(s) && SetHolidayActive(s, key, active).Ok?
    ensures Refines(s, DoSetHolidayActive(key, active), SetHolidayActive(s, key, active).value)
  {
    SelectionsFollow(s, SetHolidayActive(s, key, active).value, key);
  }

  // ---- Settling a review ----

  lemma {:induction false} Found(reviews: seq<Review>, id: nat)
    requires FindReview(reviews, id).Some?
    ensures FindReview(reviews, id).value in reviews && FindReview(reviews, id).value.id == id
  {
    if reviews[0].id != id { Found(reviews[1..], id); }
  }

  lemma {:induction false} SettledDay(reviews: seq<Review>, id: nat, status: ReviewStatus, outcome: Option<Outcome>,
      key: Key)
    ensures OfRecord(Settle(reviews, id, status, outcome), key) == Settle(OfRecord(reviews, key), id, status, outcome)
  {
    if reviews != [] {
      SettledDay(reviews[1..], id, status, outcome, key);
      assert Settle(reviews, id, status, outcome)[1..] == Settle(reviews[1..], id, status, outcome);
    }
  }

  lemma SameIdSameReview(s: State, a: Review, b: Review)
    requires ReviewsPlaced(s) && a in s.reviews && b in s.reviews && a.id == b.id
    ensures a == b
  {
  }

  /** Only the newest review of its own day carries an undecided review's id. */
  lemma IdOfNewest(s: State, r: Review, key: Key)
    requires HolidaySound(s) && r in s.reviews && r.status.Pending?
    ensures var mine := OfRecord(s.reviews, key);
            && (key == r.record ==> mine != [] && mine[0] == r)
            && forall i :: 0 <= i < |mine| && mine[i].id == r.id ==> key == r.record && i == 0
  {
    var mine := OfRecord(s.reviews, key);
    OfRecordHolds(s.reviews, key, r);
    ReviewsOfDay(s, key);
    assert DayIsSound(s, key);
    if key == r.record {
      var j :| 0 <= j < |mine| && mine[j] == r;
      assert j == 0;
    }
    hide OfRecord, RejectedIsKept;
    forall i | 0 <= i < |mine| && mine[i].id == r.id ensures key == r.record && i == 0 {
      assert mine[i] in mine;
      SameIdSameReview(s, mine[i], r);
    }
  }

  /** Settling an undecided review rewrites the newest review of its own day and no other. */
  lemma SettlesNewest(s: State, r: Review, status: ReviewStatus, outcome: Option<Outcome>, key: Key)
    requires HolidaySound(s) && r in s.reviews && r.status.Pending?
    ensures var before, after := OfRecord(s.reviews, key), OfRecord(Settle(s.reviews, r.id, status, outcome), key);
            if key == r.record then
              before != [] && before[0] == r && after == [r.(status := status, outcome := outcome)] + before[1..]
            else after == before
  {
    IdOfNewest(s, r, key);
    SettledDay(s.reviews, r.id, status, outcome, key);
    hide HolidaySound, OfRecord;
    var before := OfRecord(s.reviews, key);
    assert key == r.record ==> before == [before[0]] + before[1..];
  }

  lemma SettleKeepsPlaces(s: State, t: State, id: nat, status: ReviewStatus, outcome: Option<Outcome>)
    requires ReviewsPlaced(s) && t.reviews == Settle(s.reviews, id, status, outcome) && t.nextId == s.nextId
    requires s.records.Keys <= t.records.Keys && s.selections.Keys <= t.selections.Keys
    requires forall key :: key in s.selections ==> t.selections[key].id == s.selections[key].id
    ensures ReviewsPlaced(t)
  {
  }

  lemma NothingPendingBelow(mine: seq<Review>)
    requires mine != [] && NewestFirst(mine)
    ensures FirstWith(mine[1..], ReviewStatus.Pending).None?
  {
    FirstWithHolds(mine[1..], ReviewStatus.Pending);
  }

  /** What a decision on review `r` did: settled it, and changed no other day. */
  ghost predicate Settled(s: State, t: State, r: Review, status: ReviewStatus, outcome: Option<Outcome>) {
    && r in s.reviews && r.status.Pending? && t.reviews == Settle(s.reviews, r.id, status, outcome)
    && t.nextId == s.nextId
    && r.record in s.records && r.record in t.records && t.records == s.records[r.record := t.records[r.record]]
    && t.records[r.record].punches == s.records[r.record].punches
    && r.record in s.selections && r.record in t.selections
    && t.selections == s.selections[r.record := t.selections[r.record]]
    && t.selections[r.record].(status := s.selections[r.record].status) == s.selections[r.record]
    && (status.Approved? <==> outcome.Some?) && !status.Pending?
  }

  lemma OtherDaysUnsettled(s: State, t: State, r: Review, status: ReviewStatus, outcome: Option<Outcome>, key: Key)
    requires HolidaySound(s) && Settled(s, t, r, status, outcome) && key != r.record
    ensures DayIsSound(t, key) && Follows(s, t, key, Elsewhere)
  {
    assert DayIsSound(s, key);
    SettlesNewest(s, r, status, outcome, key);
    hide HolidaySound, OfRecord, Settle;
  }

  lemma OwnDaySettled(s: State, t: State, r: Review, status: ReviewStatus, outcome: Option<Outcome>)
    requires HolidaySound(s) && Settled(s, t, r, status, outcome)
    requires t.records[r.record].status.Rejected? ==> outcome == Some(KeepHoliday)
    ensures DayIsSound(t, r.record) && DisputeOf(s, r.record).phase.Decision?
    ensures var before, after := DisputeOf(s, r.record), DisputeOf(t, r.record);
            && (after.phase == if t.records[r.record].status.Rejected? then Kept else Reason)
            && (after.last == if outcome.Some? then outcome else before.last)
  {
    assert DayIsSound(s, r.record);
    SettlesNewest(s, r, status, outcome, r.record);
    var mine := OfRecord(s.reviews, r.record);
    NothingPendingBelow(mine);
    hide HolidaySound, OfRecord, Settle;
    assert OfRecord(t.reviews, r.record)[1..] == mine[1..];
  }

  lemma UndecidedDay(s: State, r: Review)
    requires HolidaySound(s) && r in s.reviews && r.status.Pending?
    ensures r.record in s.records && r.record in s.selections && !s.records[r.record].status.Rejected?
  {
    assert ReviewIsPlaced(s, r);
    assert DayIsSound(s, r.record);
    IdOfNewest(s, r, r.record);
  }

  /** The decision's whole effect: kept, converted, or cancelled because the holiday is no longer granted. */
  ghost predicate DecidedAs(s: State, t: State, r: Review, outcome: Outcome) {
    && r.record in s.selections
    && var granted := StillGranted(s, r.record);
       && Settled(s, t, r, if granted then ReviewStatus.Approved else ReviewStatus.Cancelled,
                  if granted then Some(outcome) else None)
       && (t.records[r.record].status.Rejected? <==> granted && outcome.KeepHoliday?)
       && (t.selections[r.record].status.Confirmed? <==>
             s.selections[r.record].status.Confirmed? && !(granted && !outcome.KeepHoliday?))
  }

  lemma DecidableReview(org: Organization, request: Request, s: State, id: nat)
    requires ReviewRefusal(org, request, s, id).None?
    ensures var found := FindReview(s.reviews, id);
            && found.Some? && found.value in s.reviews && found.value.id == id
            && found.value.status.Pending? && found.value.record in s.records
  {
    hide MayDecide, CorrectionPolicy;
    Found(s.reviews, id);
  }

  lemma DecisionSettles(org: Organization, request: Request, s: State, id: nat, outcome: Outcome)
    requires HolidaySound(s) && DecideReview(org, request, s, id, outcome).Ok?
    ensures FindReview(s.reviews, id).Some? && FindReview(s.reviews, id).value.id == id
    ensures DecidedAs(s, DecideReview(org, request, s, id, outcome).value, FindReview(s.reviews, id).value, outcome)
  {
    hide ReviewRefusal, HolidaySound, Settle, Payroll.MarkPayrollStale;
    DecidableReview(org, request, s, id);
    UndecidedDay(s, FindReview(s.reviews, id).value);
  }

  lemma OwnDayFollows(s: State, t: State, r: Review, outcome: Outcome)
    requires HolidaySound(s) && DecidedAs(s, t, r, outcome)
    ensures DayIsSound(t, r.record) && Follows(s, t, r.record, Decides(outcome))
  {
    var granted := StillGranted(s, r.record);
    OwnDaySettled(s, t, r, if granted then ReviewStatus.Approved else ReviewStatus.Cancelled,
                  if granted then Some(outcome) else None);
    hide HolidaySound, DayIsSound, OfRecord, FirstWith, Settle;
  }

  lemma DecisionFollows(s: State, t: State, r: Review, outcome: Outcome)
    requires HolidaySound(s) && DecidedAs(s, t, r, outcome)
    requires FindReview(s.reviews, r.id) == Some(r)
    ensures Refines(s, DoDecideReview(r.id, outcome), t)
  {
    hide Settle, DayIsSound, Follows;
    var granted := StillGranted(s, r.record);
    var status := if granted then ReviewStatus.Approved else ReviewStatus.Cancelled;
    var settled := if granted then Some(outcome) else None;
    SettleKeepsPlaces(s, t, r.id, status, settled);
    OwnDayFollows(s, t, r, outcome);
    forall key | key != r.record ensures DayIsSound(t, key) && Follows(s, t, key, Elsewhere) {
      OtherDaysUnsettled(s, t, r, status, settled, key);
    }
    hide ReviewsPlaced, StillGranted;
  }

  /** A decided review leaves its day decided, and every other day as it was. */
  lemma DecideReviewRefines(org: Organization, request: Request, s: State, id: nat, outcome: Outcome)
    requires HolidaySound(s) && DecideReview(org, request, s, id, outcome).Ok?
    ensures Refines(s, DoDecideReview(id, outcome), DecideReview(org, request, s, id, outcome).value)
  {
    hide *;
    DecisionSettles(org, request, s, id, outcome);
    DecisionFollows(s, DecideReview(org, request, s, id, outcome).value, FindReview(s.reviews, id).value, outcome);
  }

  // ---- Every operation ----

  lemma PerformRefines(org: Organization, request: Request, s: State, a: Action)
    requires HolidaySound(s) && Perform(org, request, s, a).Ok?
    ensures Refines(s, a, Perform(org, request, s, a).value)
  {
    hide PunchIn, Decide, DecideReview, RequestCorrection, RequestMissingCheckOut, AutoClose, RequestReview;
    hide SelectHoliday, CancelSelection, SetHolidayActive, EditPolicy, CreateRun, CalculateRun, AdvanceRun;
    hide HolidaySound, Follows;
    match a
    case DoPunch(key, kind, at, dayStatus, branch, reviewRequired) =>
      PunchRefines(org, request, s, key, kind, at, dayStatus, branch, reviewRequired);
    case DoDecide(id, approve, replacement) => DecideRefines(org, request, s, id, approve, replacement);
    case DoRequestReview(key) => RequestRefines(request, s, key);
    case DoDecideReview(id, outcome) => DecideReviewRefines(org, request, s, id, outcome);
    case DoSelectHoliday(key) => SelectRefines(s, key);
    case DoCancelSelection(key) => CancelRefines(s, key);
    case DoSetHolidayActive(key, active) => SetHolidayRefines(s, key, active);
    case _ => OtherTablesFollow(s, Perform(org, request, s, a).value);
  }

  // ---- What follows for reviews and for what is shown ----

  /** A day has at most one undecided review, and a rejected day has none. */
  lemma OnePendingReview(s: State, a: Review, b: Review)
    requires HolidaySound(s) && a in s.reviews && b in s.reviews
    requires a.status.Pending? && b.status.Pending? && a.record == b.record
    ensures a == b && a.record in s.records && !s.records[a.record].status.Rejected?
  {
    IdOfNewest(s, a, a.record);
    IdOfNewest(s, b, a.record);
    UndecidedDay(s, a);
  }

  lemma SettlingKeepsDecided(s: State, id: nat, status: ReviewStatus, outcome: Option<Outcome>, r: Review)
    requires ReviewsPlaced(s) && FindReview(s.reviews, id).Some? && FindReview(s.reviews, id).value.status.Pending?
    requires r in s.reviews && !r.status.Pending?
    ensures r in Settle(s.reviews, id, status, outcome)
  {
    Found(s.reviews, id);
    var i :| 0 <= i < |s.reviews| && s.reviews[i] == r;
    if r.id == id { SameIdSameReview(s, r, FindReview(s.reviews, id).value); }
    assert Settle(s.reviews, id, status, outcome)[i] == r;
  }

  lemma ReviewsGrow(request: Request, s: State, key: Key, r: Review)
    requires RequestReview(request, s, key).Ok? && r in s.reviews
    ensures r in RequestReview(request, s, key).value.reviews
  {
  }

  lemma DecisionKeepsDecided(org: Organization, request: Request, s: State, id: nat, outcome: Outcome, r: Review)
    requires HolidaySound(s) && DecideReview(org, request, s, id, outcome).Ok? && r in s.reviews && !r.status.Pending?
    ensures r in DecideReview(org, request, s, id, outcome).value.reviews
  {
    hide *;
    DecisionSettles(org, request, s, id, outcome);
    SettledKeepsDecided(s, DecideReview(org, request, s, id, outcome).value, FindReview(s.reviews, id).value, outcome,
                        r);
  }

  lemma SettledKeepsDecided(s: State, t: State, decided: Review, outcome: Outcome, r: Review)
    requires HolidaySound(s) && DecidedAs(s, t, decided, outcome) && FindReview(s.reviews, decided.id) == Some(decided)
    requires r in s.reviews && !r.status.Pending?
    ensures r in t.reviews
  {
    hide Settle, DayIsSound;
    SettlingKeepsDecided(s, decided.id,
                         if StillGranted(s, decided.record) then ReviewStatus.Approved else ReviewStatus.Cancelled,
                         if StillGranted(s, decided.record) then Some(outcome) else None, r);
  }

  /** A review leaves PENDING once: decided, it never changes again. */
  lemma DecidedReviewsStay(org: Organization, request: Request, s: State, a: Action, r: Review)
    requires HolidaySound(s) && Perform(org, request, s, a).Ok? && r in s.reviews && !r.status.Pending?
    ensures r in Perform(org, request, s, a).value.reviews
  {
    hide PunchIn, Decide, DecideReview, RequestCorrection, RequestMissingCheckOut, AutoClose, RequestReview;
    hide SelectHoliday, CancelSelection, SetHolidayActive, EditPolicy, CreateRun, CalculateRun, AdvanceRun;
    hide HolidaySound;
    match a
    case DoRequestReview(key) => ReviewsGrow(request, s, key, r);
    case DoDecideReview(id, outcome) => DecisionKeepsDecided(org, request, s, id, outcome, r);
    case _ =>
  }

  /** How a granted day moves, as its parties see it. */
  ghost predicate PromisedMove(before: Option<ConflictState>, e: Event, after: Option<ConflictState>) {
    match before
    case Some(AwaitingReason) => e.Asks? ==> after == Some(AwaitingDecision)
    case Some(AwaitingDecision) =>
      && (e.Decides? ==> after == Some(if e.outcome.KeepHoliday? then HolidayKept else ConvertedToWorkingDay))
      && (e.Punches? || e.Corrects? ==> after == before)
    case Some(HolidayKept) => !e.Asks? && !e.Decides? && (e.Punches? || e.Corrects? ==> after == Some(AwaitingReason))
    case _ => !e.Asks?
  }

  lemma MachineMovesAsPromised(d: Dispute, e: Event)
    requires Allowed(d, e)
    ensures PromisedMove(Shown(d), e, Shown(Next(d, e))) && (e.Elsewhere? ==> Next(d, e) == d)
  {
  }

  lemma RefinedMovesAsPromised(s: State, a: Action, t: State, key: Key)
    requires HolidaySound(s) && Refines(s, a, t)
    ensures PromisedMove(ConflictFor(s, key), EventOf(s, a, t, key), ConflictFor(t, key))
    ensures EventOf(s, a, t, key).Elsewhere? ==> ConflictFor(t, key) == ConflictFor(s, key)
  {
    assert Follows(s, t, key, EventOf(s, a, t, key));
    hide HolidaySound, ConflictFor, DisputeOf, EventOf, PromisedMove, Shown;
    ConflictIsShown(s, key);
    ConflictIsShown(t, key);
    MachineMovesAsPromised(DisputeOf(s, key), EventOf(s, a, t, key));
  }

  /**
   * Asking moves a day from awaiting a reason to awaiting a decision; keeping and converting settle
   * it; and any later punch or approved correction on a kept day reopens it. Whatever does not touch
   * the day leaves what is seen of it alone.
   */
  lemma DaysMoveAsPromised(org: Organization, request: Request, s: State, a: Action, key: Key)
    requires HolidaySound(s) && Perform(org, request, s, a).Ok?
    ensures var t := Perform(org, request, s, a).value;
            && PromisedMove(ConflictFor(s, key), EventOf(s, a, t, key), ConflictFor(t, key))
            && (EventOf(s, a, t, key).Elsewhere? ==> ConflictFor(t, key) == ConflictFor(s, key))
  {
    hide *;
    PerformRefines(org, request, s, a);
    RefinedMovesAsPromised(s, a, Perform(org, request, s, a).value, key);
  }

  /** A review may be asked for exactly when the day can be seen and awaits a reason. */
  lemma ReviewRequestedExactly(request: Request, s: State, key: Key)
    requires HolidaySound(s)
    ensures RequestReview(request, s, key).Ok? <==>
              Engine.Visible(s, key, request) && Shown(DisputeOf(s, key)) == Some(AwaitingReason)
  {
    ConflictIsShown(s, key);
  }

  /** A review is decided by an approver of the correction policy, never by the employee nor by whoever asked. */
  lemma DecidedByAnother(org: Organization, request: Request, s: State, id: nat, outcome: Outcome)
    requires HolidaySound(s) && DecideReview(org, request, s, id, outcome).Ok?
    ensures FindReview(s.reviews, id).Some? && CorrectionPolicy(s.policies).Some? && request.user.Some?
    ensures var r := FindReview(s.reviews, id).value;
            var staff := StaffOf(org, r.record.employee);
            && r.status.Pending? && r.requestedBy != request.user && staff.user != request.user
            && CorrectionPolicy(s.policies).value in s.policies && r.record in s.records
            && exists step :: step in s.policies[CorrectionPolicy(s.policies).value].steps
                 && CanApprove(request.directory, request.user.value, staff.manager, step,
                               if s.records[r.record].branch.Some? then s.records[r.record].branch else request.branch,
                               staff.user, request.now)
  {
    hide HolidaySound, CanApprove, Settle, StaffOf;
    DecidableReview(org, request, s, id);
    assert CorrectionPolicy(s.policies).Some? ==> CorrectionPolicy(s.policies).value in s.policies;
    hide CorrectionPolicy;
  }
}
