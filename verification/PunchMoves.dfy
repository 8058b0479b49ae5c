/** What a correction's after-snapshot asks for, and the punches it moves. */
module PunchMoves {
  import opened Common
  import opened Totals
  import Sorting

  datatype DayStatus = Present | Absent | Late | HalfDay | OnLeave

  /** A date field of a snapshot: not there, there but not a date, or an instant. */
  datatype DateField = Missing | Malformed | At(time: int)

  /**
   * The keys of an after-snapshot that any code reads. A `missingCheckOut` that is not a readable
   * date counts as no missing check-out, and a `dayStatus` outside the enumeration as none.
   */
  datatype Snapshot = Snapshot(
    correctedCheckIn: DateField,
    correctedCheckOut: DateField,
    missingCheckOut: Option<int>,
    autoClosed: bool,
    dayStatus: Option<DayStatus>
  )

  datatype PunchUpdate = PunchUpdate(id: nat, at: int)

  function FirstOf(kind: PunchKind, punches: seq<Punch>): Option<Punch> {
    if punches == [] then None
    else if punches[0].kind == kind then Some(punches[0])
    else FirstOf(kind, punches[1..])
  }

  function Effective(field: DateField, punch: Option<Punch>): Option<int> {
    if field.At? then Some(field.time) else if punch.Some? then Some(punch.value.at) else None
  }

  function CorrectionPunchUpdates(punches: seq<Punch>, snapshot: Snapshot): Result<seq<PunchUpdate>, Refusal> {
    var correctedIn, correctedOut := snapshot.correctedCheckIn, snapshot.correctedCheckOut;
    if correctedIn.Malformed? then Err(Conflict(CheckInNotADate))
    else if correctedOut.Malformed? then Err(Conflict(CheckOutNotADate))
    else
      var checkIn, checkOut := FirstOf(In, ByTime(punches)), FirstOf(Out, ByTime(punches));
      if correctedIn.At? && checkIn.None? then Err(Conflict(CheckInPunchMissing))
      else if correctedOut.At? && checkOut.None? then Err(Conflict(CheckOutPunchMissing))
      else
        var effectiveIn, effectiveOut := Effective(correctedIn, checkIn), Effective(correctedOut, checkOut);
        if effectiveIn.Some? && effectiveOut.Some? && effectiveOut.value < effectiveIn.value then
          Err(Conflict(CheckOutBeforeCheckIn))
        else
          Ok((if correctedIn.At? && checkIn.Some? then [PunchUpdate(checkIn.value.id, correctedIn.time)] else [])
             + (if correctedOut.At? && checkOut.Some? then [PunchUpdate(checkOut.value.id, correctedOut.time)] else []))
  }

  function MovedPunch(punch: Punch, updates: seq<PunchUpdate>): Punch {
    if updates == [] then punch
    else if updates[0].id == punch.id then punch.(at := updates[0].at)
    else MovedPunch(punch, updates[1..])
  }

  /** The punches with every update applied, in the order given: nothing is sorted again. */
  function Move(punches: seq<Punch>, updates: seq<PunchUpdate>): (moved: seq<Punch>)
    ensures |moved| == |punches|
    ensures forall i :: 0 <= i < |punches| ==> moved[i] == MovedPunch(punches[i], updates)
  {
    seq(|punches|, i requires 0 <= i < |punches| => MovedPunch(punches[i], updates))
  }

  ghost predicate DistinctIds(punches: seq<Punch>) {
    forall i, j :: 0 <= i < j < |punches| ==> punches[i].id != punches[j].id
  }

  // ---- Which punches move ----

  lemma {:induction false} FirstOfIsFirst(kind: PunchKind, punches: seq<Punch>) returns (k: nat)
    ensures FirstOf(kind, punches).Some? ==>
              k < |punches| && FirstOf(kind, punches) == Some(punches[k]) && punches[k].kind == kind
    ensures FirstOf(kind, punches).None? ==> k == |punches|
    ensures forall i :: 0 <= i < k && i < |punches| ==> punches[i].kind != kind
  {
    if punches == [] || punches[0].kind == kind {
      k := 0;
    } else {
      k := FirstOfIsFirst(kind, punches[1..]);
      k := k + 1;
    }
  }

  /** The check-in a correction speaks of is the earliest one, and there is none only if the day has none. */
  lemma FirstInTimeOrder(kind: PunchKind, punches: seq<Punch>)
    ensures var first := FirstOf(kind, ByTime(punches));
            && (first.Some? ==> first.value in punches && first.value.kind == kind)
            && (first.Some? ==> forall p :: p in punches && p.kind == kind ==> first.value.at <= p.at)
            && (first.None? ==> forall p :: p in punches ==> p.kind != kind)
  {
    var sorted := ByTime(punches);
    ByTimeInOrder(punches);
    var k := FirstOfIsFirst(kind, sorted);
    if k < |sorted| { Sorting.SortMembers(NotAfter, punches, sorted[k]); }
    forall p | p in punches && p.kind == kind ensures k < |sorted| && sorted[k].at <= p.at {
      Sorting.SortMembers(NotAfter, punches, p);
      var i :| 0 <= i < |sorted| && sorted[i] == p;
    }
  }

  /** Where a correction leaves one punch: only the day's first check-in and first check-out move. */
  ghost function Target(punch: Punch, punches: seq<Punch>, snapshot: Snapshot): int {
    if snapshot.correctedCheckIn.At? && FirstOf(In, ByTime(punches)) == Some(punch) then snapshot.correctedCheckIn.time
    else if snapshot.correctedCheckOut.At? && FirstOf(Out, ByTime(punches)) == Some(punch) then
      snapshot.correctedCheckOut.time
    else punch.at
  }

  lemma SameIdSamePunch(punches: seq<Punch>, p: Punch, q: Punch)
    requires DistinctIds(punches) && p in punches && q in punches && p.id == q.id
    ensures p == q
  {
  }

  /**
   * An accepted correction moves the first check-in and the first check-out in time order and no
   * other punch, each at most once, and never leaves that check-out before that check-in.
   */
  lemma CorrectionMovesFirstPunches(punches: seq<Punch>, snapshot: Snapshot)
    requires DistinctIds(punches)
    requires CorrectionPunchUpdates(punches, snapshot).Ok?
    ensures var updates := CorrectionPunchUpdates(punches, snapshot).value;
            && |updates| <= 2
            && (|updates| == 2 ==> updates[0].id != updates[1].id)
            && (forall p :: p in punches ==> MovedPunch(p, updates) == p.(at := Target(p, punches, snapshot)))
    ensures var checkIn, checkOut := FirstOf(In, ByTime(punches)), FirstOf(Out, ByTime(punches));
            checkIn.Some? && checkOut.Some? ==>
              Target(checkIn.value, punches, snapshot) <= Target(checkOut.value, punches, snapshot)
  {
    var updates := CorrectionPunchUpdates(punches, snapshot).value;
    FirstInTimeOrder(In, punches);
    FirstInTimeOrder(Out, punches);
    var first, second := FirstOf(In, ByTime(punches)), FirstOf(Out, ByTime(punches));
    assert first.Some? && second.Some? ==> first.value.id != second.value.id by {
      if first.Some? && second.Some? {
        var i :| 0 <= i < |punches| && punches[i] == first.value;
        var j :| 0 <= j < |punches| && punches[j] == second.value;
        assert i != j;
      }
    }
    forall p | p in punches ensures MovedPunch(p, updates) == p.(at := Target(p, punches, snapshot)) {
      if first.Some? && first.value.id == p.id { SameIdSamePunch(punches, first.value, p); }
      if second.Some? && second.value.id == p.id { SameIdSamePunch(punches, second.value, p); }
      MovedPunchUnfolds(p, updates);
    }
  }

  lemma MovedPunchUnfolds(punch: Punch, updates: seq<PunchUpdate>)
    requires |updates| <= 2
    ensures MovedPunch(punch, updates)
         == if |updates| > 0 && updates[0].id == punch.id then punch.(at := updates[0].at)
            else if |updates| > 1 && updates[1].id == punch.id then punch.(at := updates[1].at)
            else punch
  {
  }

  /** The corrected check-out would fall before the corrected check-in. */
  ghost predicate Reversed(checkIn: Punch, checkOut: Punch, snapshot: Snapshot) {
    (if snapshot.correctedCheckOut.At? then snapshot.correctedCheckOut.time else checkOut.at)
    < (if snapshot.correctedCheckIn.At? then snapshot.correctedCheckIn.time else checkIn.at)
  }

  /** Exactly when a correction of punch times is refused. */
  lemma CorrectionRefused(punches: seq<Punch>, snapshot: Snapshot)
    ensures CorrectionPunchUpdates(punches, snapshot).Err? <==>
              var checkIn, checkOut := snapshot.correctedCheckIn, snapshot.correctedCheckOut;
              || checkIn.Malformed? || checkOut.Malformed?
              || (checkIn.At? && forall p :: p in punches ==> p.kind != In)
              || (checkOut.At? && forall p :: p in punches ==> p.kind != Out)
              || (var i, o := FirstOf(In, ByTime(punches)), FirstOf(Out, ByTime(punches));
                  i.Some? && o.Some? && i.value in punches && o.value in punches
                  && Reversed(i.value, o.value, snapshot))
  {
    FirstInTimeOrder(In, punches);
    FirstInTimeOrder(Out, punches);
  }

  /** And what each refusal says. */
  lemma CorrectionRefusedFor(punches: seq<Punch>, snapshot: Snapshot)
    requires CorrectionPunchUpdates(punches, snapshot).Err?
    ensures CorrectionPunchUpdates(punches, snapshot).error.Conflict?
    ensures var checkIn, checkOut := snapshot.correctedCheckIn, snapshot.correctedCheckOut;
            match CorrectionPunchUpdates(punches, snapshot).error.reason
            case CheckInNotADate => checkIn == Malformed
            case CheckOutNotADate => checkOut == Malformed && checkIn != Malformed
            case CheckInPunchMissing => checkIn.At? && forall p :: p in punches ==> p.kind != In
            case CheckOutPunchMissing => checkOut.At? && forall p :: p in punches ==> p.kind != Out
            case CheckOutBeforeCheckIn =>
              && checkIn != Malformed && checkOut != Malformed
              && (exists p :: p in punches && p.kind == In) && exists p :: p in punches && p.kind == Out
            case _ => false
  {
    FirstInTimeOrder(In, punches);
    FirstInTimeOrder(Out, punches);
  }

  // ---- What a moved day totals ----

  /** On a day of one check-in and one check-out the corrected day counts exactly the corrected span. */
  lemma SingleIntervalCorrected(punches: seq<Punch>, snapshot: Snapshot)
    requires |punches| == 2 && Alternating(punches) && InOrder(punches) && DistinctIds(punches)
    requires CorrectionPunchUpdates(punches, snapshot).Ok?
    ensures var moved := Move(punches, CorrectionPunchUpdates(punches, snapshot).value);
            && InOrder(moved) && Alternating(moved)
            && moved[0].at == (if snapshot.correctedCheckIn.At? then snapshot.correctedCheckIn.time else punches[0].at)
            && moved[1].at ==
                 (if snapshot.correctedCheckOut.At? then snapshot.correctedCheckOut.time else punches[1].at)
            && Scan(moved) == Tally(None, (moved[1].at - moved[0].at) / MINUTE)
  {
    ByTimeOfInOrder(punches);
    CorrectionMovesFirstPunches(punches, snapshot);
    var moved := Move(punches, CorrectionPunchUpdates(punches, snapshot).value);
    assert punches[0].kind == In && punches[1].kind == Out;
    assert FirstOf(Out, punches) == FirstOf(Out, punches[1..]) == Some(punches[1]);
    assert moved[..1] == [moved[0]] && moved[..1][..0] == [];
    assert Scan(moved[..1]) == Count(Scan([]), moved[0]);
    assert Scan(moved) == Count(Scan(moved[..1]), moved[1]);
  }

  lemma {:induction false} MoveInsert(punches: seq<Punch>, punch: Punch, updates: seq<PunchUpdate>)
    ensures multiset(Move(Sorting.Insert(NotAfter, punches, punch), updates))
         == multiset(Move(punches, updates)) + multiset{MovedPunch(punch, updates)}
  {
    if punches == [] || NotAfter(punches[|punches| - 1], punch) {
      assert Move(punches + [punch], updates) == Move(punches, updates) + [MovedPunch(punch, updates)];
    } else {
      var front, last := punches[..|punches| - 1], punches[|punches| - 1];
      MoveInsert(front, punch, updates);
      var inserted := Sorting.Insert(NotAfter, front, punch);
      assert Move(inserted + [last], updates) == Move(inserted, updates) + [MovedPunch(last, updates)];
      assert punches == front + [last];
      assert Move(front + [last], updates) == Move(front, updates) + [MovedPunch(last, updates)];
    }
  }

  lemma {:induction false} MoveSort(punches: seq<Punch>, updates: seq<PunchUpdate>)
    ensures multiset(Move(ByTime(punches), updates)) == multiset(Move(punches, updates))
  {
    if punches != [] {
      var front, last := punches[..|punches| - 1], punches[|punches| - 1];
      MoveSort(front, updates);
      MoveInsert(ByTime(front), last, updates);
      assert punches == front + [last];
      assert Move(front + [last], updates) == Move(front, updates) + [MovedPunch(last, updates)];
    }
  }

  lemma LastInOrderIsLatest(punches: seq<Punch>, punch: Punch)
    requires InOrder(punches) && punch in punches
    ensures punch.at <= punches[|punches| - 1].at
  {
  }

  lemma LastStrictlyLatest(punches: seq<Punch>, punch: Punch)
    requires StrictlyInOrder(punches) && punch in punches
    ensures punch == punches[|punches| - 1] || punch.at < punches[|punches| - 1].at
  {
  }

  lemma SameMembers<T>(s: seq<T>, t: seq<T>)
    requires multiset(s) == multiset(t)
    ensures |s| == |t|
    ensures forall x :: x in s <==> x in t
  {
    assert |s| == |multiset(s)| && |t| == |multiset(t)|;
    forall x ensures x in s <==> x in t {
      assert x in multiset(s) <==> x in multiset(t);
    }
  }

  lemma SameMembersButLast<T>(s: seq<T>, t: seq<T>)
    requires s != [] && t != [] && s[|s| - 1] == t[|t| - 1] && multiset(s) == multiset(t)
    ensures multiset(s[..|s| - 1]) == multiset(t[..|t| - 1])
  {
    assert s == s[..|s| - 1] + [s[|s| - 1]];
    assert t == t[..|t| - 1] + [t[|t| - 1]];
    assert multiset(s[..|s| - 1]) == multiset(s) - multiset{s[|s| - 1]};
    assert multiset(t[..|t| - 1]) == multiset(t) - multiset{t[|t| - 1]};
  }

  lemma {:induction false} StrictOrderIsUnique(strict: seq<Punch>, other: seq<Punch>)
    requires StrictlyInOrder(strict) && InOrder(other) && multiset(strict) == multiset(other)
    ensures strict == other
  {
    SameMembers(strict, other);
    if strict != [] {
      var s, t := strict[|strict| - 1], other[|other| - 1];
      LastInOrderIsLatest(other, s);
      LastStrictlyLatest(strict, t);
      assert s == t;
      SameMembersButLast(strict, other);
      StrictOrderIsUnique(strict[..|strict| - 1], other[..|other| - 1]);
      assert strict == strict[..|strict| - 1] + [s];
      assert other == other[..|other| - 1] + [t];
    }
  }

  /**
   * The totals of a correction are taken over the old list with new times, not over a fresh read.
   * While the moved list is still strictly ordered the two are the same list.
   */
  lemma MovedListIsRereadList(punches: seq<Punch>, updates: seq<PunchUpdate>)
    requires StrictlyInOrder(Move(ByTime(punches), updates))
    ensures ByTime(Move(punches, updates)) == Move(ByTime(punches), updates)
  {
    MoveSort(punches, updates);
    Sorting.SortPermutes(NotAfter, Move(punches, updates));
    ByTimeInOrder(Move(punches, updates));
    StrictOrderIsUnique(Move(ByTime(punches), updates), ByTime(Move(punches, updates)));
  }

  /** For punches kept in time order the totalled list is the re-read list exactly when the move keeps order. */
  lemma MovedListIsRereadListExactly(punches: seq<Punch>, updates: seq<PunchUpdate>)
    requires InOrder(punches)
    ensures ByTime(Move(punches, updates)) == Move(ByTime(punches), updates) <==> InOrder(Move(punches, updates))
  {
    ByTimeOfInOrder(punches);
    ByTimeInOrder(Move(punches, updates));
    if InOrder(Move(punches, updates)) { ByTimeOfInOrder(Move(punches, updates)); }
  }

  /** On an alternating day a correction moves only the first two punches, and keeps those two in order. */
  lemma MovedDay(punches: seq<Punch>, snapshot: Snapshot)
    requires Alternating(punches) && StrictlyInOrder(punches) && DistinctIds(punches)
    requires CorrectionPunchUpdates(punches, snapshot).Ok?
    ensures var moved := Move(punches, CorrectionPunchUpdates(punches, snapshot).value);
            && (forall i :: 2 <= i < |punches| ==> moved[i] == punches[i])
            && (|punches| >= 2 ==> moved[0].at <= moved[1].at)
            && (|punches| >= 2 ==> Some(moved[1].at) == Effective(snapshot.correctedCheckOut, Some(punches[1])))
  {
    ByTimeOfInOrder(punches);
    CorrectionMovesFirstPunches(punches, snapshot);
    var updates := CorrectionPunchUpdates(punches, snapshot).value;
    if |punches| >= 2 {
      assert punches[0].kind == In && punches[1].kind == Out;
      assert FirstOf(Out, punches) == FirstOf(Out, punches[1..]) == Some(punches[1]);
      forall i | 0 <= i < |punches|
        ensures MovedPunch(punches[i], updates) == punches[i].(at := Target(punches[i], punches, snapshot))
      {
        assert punches[i] in punches;
      }
      forall i | 2 <= i < |punches| ensures Target(punches[i], punches, snapshot) == punches[i].at {
        assert punches[0].id != punches[i].id && punches[1].id != punches[i].id;
      }
    }
  }

  /**
   * On an alternating day an accepted correction keeps the list in order exactly when the first
   * check-out does not pass the second check-in. That is what a caller can check beforehand.
   */
  lemma MoveKeepsOrderExactly(punches: seq<Punch>, snapshot: Snapshot)
    requires Alternating(punches) && StrictlyInOrder(punches) && DistinctIds(punches)
    requires CorrectionPunchUpdates(punches, snapshot).Ok?
    ensures InOrder(Move(punches, CorrectionPunchUpdates(punches, snapshot).value)) <==>
              || |punches| <= 2
              || punches[2].at >=
                   if snapshot.correctedCheckOut.At? then snapshot.correctedCheckOut.time else punches[1].at
  {
    MovedDay(punches, snapshot);
    var moved := Move(punches, CorrectionPunchUpdates(punches, snapshot).value);
    if |punches| > 2 && moved[1].at > punches[2].at {
      assert !InOrder(moved);
    } else {
      forall i, j | 0 <= i < j < |moved| ensures moved[i].at <= moved[j].at {
        if i >= 2 {
          assert punches[i].at < punches[j].at;
        } else if j > 2 {
          assert punches[2].at < punches[j].at;
        }
      }
    }
  }

  lemma ScanOfFour(a: Punch, b: Punch, c: Punch, d: Punch)
    ensures Scan([a, b, c, d]) == Count(Count(Count(Count(Tally(None, 0), a), b), c), d)
  {
    assert [a][..0] == [];
    assert Scan([a]) == Count(Scan([]), a);
    assert [a, b][..1] == [a];
    assert Scan([a, b]) == Count(Scan([a]), b);
    assert [a, b, c][..2] == [a, b];
    assert Scan([a, b, c]) == Count(Scan([a, b]), c);
    assert [a, b, c, d][..3] == [a, b, c];
  }

  /** A last-but-one punch that overtook its successor is read back behind it. */
  lemma RereadSwaps(front: seq<Punch>, e: Punch, c: Punch, d: Punch)
    requires front != [] && InOrder(front + [e]) && front[|front| - 1].at < c.at < e.at < d.at
    ensures ByTime(front + [e] + [c] + [d]) == front + [c] + [e] + [d]
  {
    ByTimeOfInOrder(front + [e]);
    Sorting.SortAppend(NotAfter, front + [e], c);
    Sorting.SortAppend(NotAfter, front + [e] + [c], d);
    assert (front + [e])[..|front|] == front;
  }

  lemma OvertakenDay(punches: seq<Punch>, a: Punch, b: Punch, c: Punch, d: Punch, at: int)
    requires punches == [a, b, c, d] && DistinctIds(punches)
    requires a.kind == In && b.kind == Out && c.kind == In && d.kind == Out
    requires a.at < c.at < at < d.at
    ensures Scan(Move(punches, [PunchUpdate(b.id, at)])).worked == Minutes(a.at, at) + Minutes(c.at, d.at)
    ensures Scan(ByTime(Move(punches, [PunchUpdate(b.id, at)]))).worked == Minutes(a.at, at)
  {
    var e, updates := b.(at := at), [PunchUpdate(b.id, at)];
    assert punches[0] == a && punches[1] == b && punches[2] == c && punches[3] == d;
    MovedPunchUnfolds(a, updates);
    MovedPunchUnfolds(b, updates);
    MovedPunchUnfolds(c, updates);
    MovedPunchUnfolds(d, updates);
    assert Move(punches, updates) == [a] + [e] + [c] + [d] == [a, e, c, d];
    ScanOfFour(a, e, c, d);
    RereadSwaps([a], e, c, d);
    assert [a] + [c] + [e] + [d] == [a, c, e, d];
    ScanOfFour(a, c, e, d);
  }

  /**
   * The failing case: on an in/out/in/out day a check-out moved past the second check-in is
   * totalled in the old order, and the record stores 120 minutes where its punches amount to 60.
   */
  lemma MovedPastNextIntervalMiscounts(punches: seq<Punch>, a: Punch, b: Punch, c: Punch, d: Punch, snapshot: Snapshot)
    requires a == Punch(1, In, 0) && b == Punch(2, Out, MINUTE)
    requires c == Punch(3, In, 2 * MINUTE) && d == Punch(4, Out, 62 * MINUTE)
    requires punches == [a, b, c, d] && snapshot == Snapshot(Missing, At(60 * MINUTE), None, false, None)
    ensures Alternating(punches) && StrictlyInOrder(punches) && DistinctIds(punches)
    ensures CorrectionPunchUpdates(punches, snapshot) == Ok([PunchUpdate(2, 60 * MINUTE)])
    ensures var moved := Move(punches, [PunchUpdate(2, 60 * MINUTE)]);
            Scan(moved).worked == 120 && Scan(ByTime(moved)).worked == 60
  {
    assert CorrectionPunchUpdates(punches, snapshot) == Ok([PunchUpdate(2, 60 * MINUTE)]) by {
      ByTimeOfInOrder(punches);
      assert punches[0] == a && punches[1..][0] == b;
      assert FirstOf(Out, punches) == FirstOf(Out, punches[1..]) == Some(b);
      assert FirstOf(In, punches) == Some(a);
      var none: seq<PunchUpdate> := [];
      assert none + [PunchUpdate(2, 60 * MINUTE)] == [PunchUpdate(2, 60 * MINUTE)];
    }
    OvertakenDay(punches, a, b, c, d, 60 * MINUTE);
  }
}
