/**
 * A check-in on a granted optional holiday: where its resolution stands.
 *
 * Nothing here is stored. The state is derived from the record, the selection and the reviews.
 */
module HolidayConflict {
  import opened Common
  import opened MissingCheckOut
  import Sorting

  datatype RecordStatus = Open | Completed | Corrected | Rejected

  datatype ReviewStatus = Pending | Approved | Cancelled

  datatype SelectionStatus = Confirmed | Withdrawn

  datatype Outcome = KeepHoliday | ConvertToWorkingDay

  datatype ConflictState = AwaitingReason | AwaitingDecision | HolidayKept | ConvertedToWorkingDay

  /** The holiday of a selection is carried on its row: its date is the key's date. */
  datatype Selection = Selection(id: nat, day: Key, status: SelectionStatus, optional: bool, holidayActive: bool)

  datatype Review =
    Review(id: nat, record: Key, selection: nat, status: ReviewStatus, outcome: Option<Outcome>,
           requestedBy: Option<nat>)

  datatype ConflictRecord = ConflictRecord(key: Key, status: RecordStatus, punchCount: nat)

  datatype HolidayConflictRow =
    HolidayConflictRow(record: Key, selection: nat, state: ConflictState, review: Option<Review>)

  function ForSelection(reviews: seq<Review>, selection: nat): seq<Review> {
    if reviews == [] then []
    else if reviews[0].selection == selection then [reviews[0]] + ForSelection(reviews[1..], selection)
    else ForSelection(reviews[1..], selection)
  }

  function FirstWith(reviews: seq<Review>, status: ReviewStatus): Option<Review> {
    if reviews == [] then None
    else if reviews[0].status == status then Some(reviews[0])
    else FirstWith(reviews[1..], status)
  }

  /** `reviews` are the record's reviews, newest first. */
  function HolidayConflictState(record: ConflictRecord, selection: Selection,
      reviews: seq<Review>): Option<ConflictState> {
    if record.key.employee != selection.day.employee then None
    else if record.key.date != selection.day.date then None
    else if !selection.optional then None
    else
      var mine := ForSelection(reviews, selection.id);
      var decided := FirstWith(mine, Approved);
      var outcome := if decided.Some? then decided.value.outcome else None;
      if selection.status.Withdrawn? then
        if outcome == Some(ConvertToWorkingDay) then Some(ConvertedToWorkingDay) else None
      else if !selection.holidayActive then None
      else if record.punchCount == 0 then None
      else if record.status.Rejected? && outcome == Some(KeepHoliday) then Some(HolidayKept)
      else if FirstWith(mine, Pending).Some? then Some(AwaitingDecision)
      else Some(AwaitingReason)
  }

  /** The review shown with a conflict: the pending one while a decision is awaited, else the decided one. */
  function AttachedReview(reviews: seq<Review>, selection: nat, state: ConflictState): Option<Review> {
    FirstWith(ForSelection(reviews, selection), if state.AwaitingDecision? then Pending else Approved)
  }

  function OfRecord(reviews: seq<Review>, record: Key): seq<Review> {
    if reviews == [] then []
    else if reviews[0].record == record then [reviews[0]] + OfRecord(reviews[1..], record)
    else OfRecord(reviews[1..], record)
  }

  function ConflictOf(record: ConflictRecord, selection: Selection, reviews: seq<Review>): Option<HolidayConflictRow> {
    var state := HolidayConflictState(record, selection, OfRecord(reviews, record.key));
    if state.None? then None
    else Some(HolidayConflictRow(record.key, selection.id, state.value,
                       AttachedReview(OfRecord(reviews, record.key), selection.id, state.value)))
  }

  predicate LaterDay(a: HolidayConflictRow, b: HolidayConflictRow) { a.record.date >= b.record.date }

  /** The join the loops compute, before it is sorted: record by record, then selection by selection. */
  function ConflictsOf(record: ConflictRecord, selections: seq<Selection>,
      reviews: seq<Review>): seq<HolidayConflictRow> {
    if selections == [] then []
    else
      var front, last := selections[..|selections| - 1], ConflictOf(record, selections[|selections| - 1], reviews);
      ConflictsOf(record, front, reviews) + if last.Some? then [last.value] else []
  }

  function Joined(records: seq<ConflictRecord>, selections: seq<Selection>,
      reviews: seq<Review>): seq<HolidayConflictRow> {
    if records == [] then []
    else Joined(records[..|records| - 1], selections, reviews)
         + ConflictsOf(records[|records| - 1], selections, reviews)
  }

  method LoadHolidayConflicts(records: seq<ConflictRecord>, selections: seq<Selection>, reviews: seq<Review>)
      returns (conflicts: seq<HolidayConflictRow>)
    ensures conflicts == Sorting.Sort(LaterDay, Joined(records, selections, reviews))
  {
    conflicts := [];
    for i := 0 to |records|
      invariant conflicts == Joined(records[..i], selections, reviews)
    {
      assert records[..i + 1][..i] == records[..i];
      var record := records[i];
      var recordReviews := OfRecord(reviews, record.key);
      var before := conflicts;
      for j := 0 to |selections|
        invariant conflicts == before + ConflictsOf(record, selections[..j], reviews)
      {
        assert selections[..j + 1][..j] == selections[..j];
        var selection := selections[j];
        var state := HolidayConflictState(record, selection, recordReviews);
        if state.Some? {
          var review := AttachedReview(recordReviews, selection.id, state.value);
          conflicts := conflicts + [HolidayConflictRow(record.key, selection.id, state.value, review)];
        }
      }
      assert selections[..|selections|] == selections;
    }
    assert records[..|records|] == records;
    conflicts := Sorting.Sort(LaterDay, conflicts);
  }

  // ---- What the join returns ----

  lemma {:induction false} ConflictsOfMembers(record: ConflictRecord, selections: seq<Selection>,
      reviews: seq<Review>, c: HolidayConflictRow)
    ensures c in ConflictsOf(record, selections, reviews)
       <==> exists s :: s in selections && ConflictOf(record, s, reviews) == Some(c)
  {
    if selections != [] {
      var front, last := selections[..|selections| - 1], selections[|selections| - 1];
      ConflictsOfMembers(record, front, reviews, c);
      assert forall s :: s in selections <==> s in front || s == last;
    }
  }

  lemma {:induction false} JoinedMembers(records: seq<ConflictRecord>, selections: seq<Selection>,
      reviews: seq<Review>, c: HolidayConflictRow)
    ensures c in Joined(records, selections, reviews)
       <==> exists r, s :: r in records && s in selections && ConflictOf(r, s, reviews) == Some(c)
  {
    if records != [] {
      var front, last := records[..|records| - 1], records[|records| - 1];
      JoinedMembers(front, selections, reviews, c);
      ConflictsOfMembers(last, selections, reviews, c);
      assert forall r :: r in records <==> r in front || r == last;
    }
  }

  lemma LaterDayIsTotal()
    ensures Sorting.TotalPreorder(LaterDay)
  {
  }

  /** Exactly the pairs in conflict are returned, latest day first. */
  lemma LoadedConflicts(records: seq<ConflictRecord>, selections: seq<Selection>, reviews: seq<Review>,
      c: HolidayConflictRow)
    ensures c in Sorting.Sort(LaterDay, Joined(records, selections, reviews))
       <==> exists r, s :: r in records && s in selections && ConflictOf(r, s, reviews) == Some(c)
    ensures Sorting.Ordered(LaterDay, Sorting.Sort(LaterDay, Joined(records, selections, reviews)))
  {
    JoinedMembers(records, selections, reviews, c);
    Sorting.SortMembers(LaterDay, Joined(records, selections, reviews), c);
    LaterDayIsTotal();
    Sorting.SortOrders(LaterDay, Joined(records, selections, reviews));
  }

  lemma {:induction false} FirstWithHolds(reviews: seq<Review>, status: ReviewStatus)
    ensures match FirstWith(reviews, status)
            case Some(r) => r in reviews && r.status == status
            case None => forall r :: r in reviews ==> r.status != status
  {
    if reviews != [] {
      FirstWithHolds(reviews[1..], status);
      assert forall r :: r in reviews <==> r == reviews[0] || r in reviews[1..];
    }
  }

  lemma {:induction false} ForSelectionHolds(reviews: seq<Review>, selection: nat, r: Review)
    ensures r in ForSelection(reviews, selection) <==> r in reviews && r.selection == selection
  {
    if reviews != [] { ForSelectionHolds(reviews[1..], selection, r); }
  }

  lemma {:induction false} OfRecordHolds(reviews: seq<Review>, record: Key, r: Review)
    ensures r in OfRecord(reviews, record) <==> r in reviews && r.record == record
  {
    if reviews != [] { OfRecordHolds(reviews[1..], record, r); }
  }

  /**
   * The review attached to a conflict is the one its state speaks of: a pending one while a decision
   * is awaited, the decision that kept or converted the day, and otherwise a decision if there is one.
   */
  lemma AttachedReviewMatchesState(record: ConflictRecord, selection: Selection, reviews: seq<Review>)
    requires ConflictOf(record, selection, reviews).Some?
    ensures var c := ConflictOf(record, selection, reviews).value;
            && (c.review.Some? ==> c.review.value in reviews && c.review.value.record == record.key
                                   && c.review.value.selection == selection.id)
            && match c.state
               case AwaitingDecision => c.review.Some? && c.review.value.status == Pending
               case HolidayKept =>
                 c.review.Some? && c.review.value.status == Approved && c.review.value.outcome == Some(KeepHoliday)
               case ConvertedToWorkingDay =>
                 c.review.Some? && c.review.value.status == Approved
                 && c.review.value.outcome == Some(ConvertToWorkingDay)
               case AwaitingReason =>
                 && (c.review.Some? ==> c.review.value.status == Approved)
                 && forall r :: r in reviews && r.record == record.key && r.selection == selection.id ==>
                      r.status != Pending
  {
    var c := ConflictOf(record, selection, reviews).value;
    var ofRecord := OfRecord(reviews, record.key);
    var mine := ForSelection(ofRecord, selection.id);
    FirstWithHolds(mine, Pending);
    FirstWithHolds(mine, Approved);
    forall r | r in reviews && r.record == record.key && r.selection == selection.id ensures r in mine {
      OfRecordHolds(reviews, record.key, r);
      ForSelectionHolds(ofRecord, selection.id, r);
    }
    if c.review.Some? {
      ForSelectionHolds(ofRecord, selection.id, c.review.value);
      OfRecordHolds(reviews, record.key, c.review.value);
    }
  }

  // ---- The conflicts, said without the functions that find them ----

  ghost predicate Concerns(v: Review, record: Key, selection: nat, status: ReviewStatus) {
    v.record == record && v.selection == selection && v.status == status
  }

  /** The newest review of this record and selection that has this status, if there is one. */
  ghost predicate IsNewest(reviews: seq<Review>, record: Key, selection: nat, status: ReviewStatus,
      found: Option<Review>) {
    match found
    case Some(v) =>
      exists i :: 0 <= i < |reviews| && reviews[i] == v && Concerns(v, record, selection, status)
        && forall j :: 0 <= j < i ==> !Concerns(reviews[j], record, selection, status)
    case None => forall i :: 0 <= i < |reviews| ==> !Concerns(reviews[i], record, selection, status)
  }

  ghost predicate LastDecided(reviews: seq<Review>, record: Key, selection: nat, outcome: Outcome) {
    exists v :: IsNewest(reviews, record, selection, Approved, Some(v)) && v.outcome == Some(outcome)
  }

  /** The employee worked on the holiday while it was granted. */
  ghost predicate WorkedOnHoliday(r: ConflictRecord, s: Selection) {
    s.status == Confirmed && s.holidayActive && r.punchCount > 0
  }

  /** What each of the four states asks of the day. */
  ghost predicate StandsAs(r: ConflictRecord, s: Selection, reviews: seq<Review>, state: ConflictState) {
    var kept := r.status == Rejected && LastDecided(reviews, r.key, s.id, KeepHoliday);
    var asked := !IsNewest(reviews, r.key, s.id, Pending, None);
    match state
    case ConvertedToWorkingDay => s.status == Withdrawn && LastDecided(reviews, r.key, s.id, ConvertToWorkingDay)
    case HolidayKept => WorkedOnHoliday(r, s) && kept
    case AwaitingDecision => WorkedOnHoliday(r, s) && !kept && asked
    case AwaitingReason => WorkedOnHoliday(r, s) && !kept && !asked
  }

  /** The row of a record and a selection of one employee and one date, of an optional holiday. */
  ghost predicate IsConflict(r: ConflictRecord, s: Selection, reviews: seq<Review>, c: HolidayConflictRow) {
    && r.key.employee == s.day.employee && r.key.date == s.day.date && s.optional
    && c.record == r.key && c.selection == s.id && StandsAs(r, s, reviews, c.state)
    && IsNewest(reviews, r.key, s.id, if c.state == AwaitingDecision then Pending else Approved, c.review)
  }

  lemma {:induction false} NewestIsFound(reviews: seq<Review>, record: Key, selection: nat, status: ReviewStatus)
    ensures IsNewest(reviews, record, selection, status,
                     FirstWith(ForSelection(OfRecord(reviews, record), selection), status))
  {
    if reviews != [] {
      var rest := reviews[1..];
      NewestIsFound(rest, record, selection, status);
      var found := FirstWith(ForSelection(OfRecord(reviews, record), selection), status);
      if Concerns(reviews[0], record, selection, status) {
        assert found == Some(reviews[0]);
      } else {
        assert found == FirstWith(ForSelection(OfRecord(rest, record), selection), status);
        NewestFurtherDown(reviews, record, selection, status, found);
      }
    }
  }

  lemma NewestFurtherDown(reviews: seq<Review>, record: Key, selection: nat, status: ReviewStatus,
      found: Option<Review>)
    requires reviews != [] && !Concerns(reviews[0], record, selection, status)
    requires IsNewest(reviews[1..], record, selection, status, found)
    ensures IsNewest(reviews, record, selection, status, found)
  {
    var rest := reviews[1..];
    if found.Some? {
      var i :| 0 <= i < |rest| && rest[i] == found.value && Concerns(found.value, record, selection, status)
        && forall j :: 0 <= j < i ==> !Concerns(rest[j], record, selection, status);
      forall j | 0 <= j < i + 1 ensures !Concerns(reviews[j], record, selection, status) {
        if j > 0 { assert reviews[j] == rest[j - 1]; }
      }
      assert reviews[i + 1] == found.value;
    } else {
      forall j | 0 <= j < |reviews| ensures !Concerns(reviews[j], record, selection, status) {
        if j > 0 { assert reviews[j] == rest[j - 1]; }
      }
    }
  }

  lemma OneNewest(reviews: seq<Review>, record: Key, selection: nat, status: ReviewStatus, a: Option<Review>,
      b: Option<Review>)
    requires IsNewest(reviews, record, selection, status, a) && IsNewest(reviews, record, selection, status, b)
    ensures a == b
  {
    if a.Some? && b.Some? {
      var i :| 0 <= i < |reviews| && reviews[i] == a.value && Concerns(a.value, record, selection, status)
        && forall j :: 0 <= j < i ==> !Concerns(reviews[j], record, selection, status);
      var k :| 0 <= k < |reviews| && reviews[k] == b.value && Concerns(b.value, record, selection, status)
        && forall j :: 0 <= j < k ==> !Concerns(reviews[j], record, selection, status);
      assert i == k;
    }
  }

  lemma NewestExactly(reviews: seq<Review>, record: Key, selection: nat, status: ReviewStatus, found: Option<Review>)
    ensures IsNewest(reviews, record, selection, status, found)
       <==> found == FirstWith(ForSelection(OfRecord(reviews, record), selection), status)
  {
    NewestIsFound(reviews, record, selection, status);
    hide FirstWith, ForSelection, OfRecord;
    if IsNewest(reviews, record, selection, status, found) {
      OneNewest(reviews, record, selection, status, found,
                FirstWith(ForSelection(OfRecord(reviews, record), selection), status));
    }
  }

  lemma LastDecidedExactly(reviews: seq<Review>, record: Key, selection: nat, outcome: Outcome)
    ensures LastDecided(reviews, record, selection, outcome) <==>
              var found := FirstWith(ForSelection(OfRecord(reviews, record), selection), Approved);
              found.Some? && found.value.outcome == Some(outcome)
  {
    var found := FirstWith(ForSelection(OfRecord(reviews, record), selection), Approved);
    hide FirstWith, ForSelection, OfRecord, IsNewest;
    forall v ensures IsNewest(reviews, record, selection, Approved, Some(v)) <==> found == Some(v) {
      NewestExactly(reviews, record, selection, Approved, Some(v));
    }
    if found.Some? { assert IsNewest(reviews, record, selection, Approved, Some(found.value)); }
  }

  /**
   * A pair is in conflict, with this row to show, exactly when the two are of one day and it stands as
   * the row says.
   */
  lemma ConflictExactly(r: ConflictRecord, s: Selection, reviews: seq<Review>, c: HolidayConflictRow)
    ensures ConflictOf(r, s, reviews) == Some(c) <==> IsConflict(r, s, reviews, c)
  {
    LastDecidedExactly(reviews, r.key, s.id, KeepHoliday);
    LastDecidedExactly(reviews, r.key, s.id, ConvertToWorkingDay);
    NewestExactly(reviews, r.key, s.id, Pending, None);
    NewestExactly(reviews, r.key, s.id, Pending, c.review);
    NewestExactly(reviews, r.key, s.id, Approved, c.review);
    hide FirstWith, ForSelection, OfRecord, IsNewest, LastDecided;
  }

  /**
   * What is loaded: exactly the records and selections of one employee and one date, of an optional
   * holiday, that stand as one of the four states, each with the review that state speaks of.
   */
  lemma LoadedExactly(records: seq<ConflictRecord>, selections: seq<Selection>, reviews: seq<Review>,
      c: HolidayConflictRow)
    ensures c in Sorting.Sort(LaterDay, Joined(records, selections, reviews))
       <==> exists r, s :: r in records && s in selections && IsConflict(r, s, reviews, c)
    ensures var loaded := Sorting.Sort(LaterDay, Joined(records, selections, reviews));
            forall i, j :: 0 <= i < j < |loaded| ==> loaded[i].record.date >= loaded[j].record.date
  {
    LoadedConflicts(records, selections, reviews, c);
    forall r, s ensures ConflictOf(r, s, reviews) == Some(c) <==> IsConflict(r, s, reviews, c) {
      ConflictExactly(r, s, reviews, c);
    }
    var loaded := Sorting.Sort(LaterDay, Joined(records, selections, reviews));
    hide ConflictOf, IsConflict, Joined;
    forall i, j | 0 <= i < j < |loaded| ensures loaded[i].record.date >= loaded[j].record.date {
      assert LaterDay(loaded[i], loaded[j]);
    }
  }

  /** With one record and one selection per employee and date, a record is shown once at most, for its own day. */
  lemma OneConflictADay(records: seq<ConflictRecord>, selections: seq<Selection>, reviews: seq<Review>,
      c: HolidayConflictRow, d: HolidayConflictRow)
    requires forall a, b :: a in records && b in records && a.key == b.key ==> a == b
    requires forall a, b :: a in selections && b in selections && a.day == b.day ==> a == b
    requires c in Sorting.Sort(LaterDay, Joined(records, selections, reviews))
    requires d in Sorting.Sort(LaterDay, Joined(records, selections, reviews))
    ensures exists s :: s in selections && s.day == c.record && s.id == c.selection
    ensures c.record == d.record ==> c == d
  {
    LoadedConflicts(records, selections, reviews, c);
    LoadedConflicts(records, selections, reviews, d);
    hide ConflictOf;
    var r, s :| r in records && s in selections && ConflictOf(r, s, reviews) == Some(c);
    var q, u :| q in records && u in selections && ConflictOf(q, u, reviews) == Some(d);
    ConflictExactly(r, s, reviews, c);
    ConflictExactly(q, u, reviews, d);
  }
}
