/**
 * A general correction reads the day's punches without a lock and writes its totals later. What a
 * punch committed in between is worth is not in them, and where the correction moves a punch past
 * another they may also count what the punches do not amount to.
 */
module StaleCorrections {
  import opened Common
  import opened Totals
  import opened PunchMoves
  import opened Overtaking
  import Sorting

  /** One record: its punches, and the minutes stored on it. */
  datatype Row = Row(punches: seq<Punch>, worked: nat)

  /** What the correction read, and the moves it works out from it. */
  datatype Reading = Reading(seen: seq<Punch>, updates: seq<PunchUpdate>)

  function Read(row: Row, after: Snapshot): Result<Reading, Refusal> {
    match CorrectionPunchUpdates(ByTime(row.punches), after)
    case Ok(updates) => Ok(Reading(ByTime(row.punches), updates))
    case Err(refusal) => Err(refusal)
  }

  /** A punch holds the record's lock while it reads the day again and stores its total. */
  function PunchCommits(row: Row, punch: Punch): Row {
    Row(row.punches + [punch], Scan(ByTime(row.punches + [punch])).worked)
  }

  function PunchesCommit(row: Row, added: seq<Punch>): Row {
    if added == [] then row else PunchCommits(PunchesCommit(row, added[..|added| - 1]), added[|added| - 1])
  }

  /** The moves go to the punches as they are, the total is that of the punches as they were read. */
  function CorrectionWrites(row: Row, reading: Reading): Row {
    Row(Move(row.punches, reading.updates), Scan(Move(reading.seen, reading.updates)).worked)
  }

  lemma {:induction false} PunchesAdded(row: Row, added: seq<Punch>)
    ensures PunchesCommit(row, added).punches == row.punches + added
  {
    hide Scan, ByTime;
    if added != [] {
      PunchesAdded(row, added[..|added| - 1]);
      assert added == added[..|added| - 1] + [added[|added| - 1]];
    }
  }

  ghost predicate Untouched(added: seq<Punch>, updates: seq<PunchUpdate>) {
    forall i, j :: 0 <= i < |added| && 0 <= j < |updates| ==> updates[j].id != added[i].id
  }

  lemma {:induction false} UntouchedStays(punch: Punch, updates: seq<PunchUpdate>)
    requires forall j :: 0 <= j < |updates| ==> updates[j].id != punch.id
    ensures MovedPunch(punch, updates) == punch
  {
    if updates != [] { UntouchedStays(punch, updates[1..]); }
  }

  lemma MoveAround(punches: seq<Punch>, added: seq<Punch>, updates: seq<PunchUpdate>)
    requires Untouched(added, updates)
    ensures Move(punches + added, updates) == Move(punches, updates) + added
  {
    forall i | 0 <= i < |added| ensures MovedPunch(added[i], updates) == added[i] { UntouchedStays(added[i], updates); }
  }

  lemma {:induction false} ScanGoesOn(punches: seq<Punch>, added: seq<Punch>)
    ensures Scan(punches + added) == Fold(Scan(punches), added)
  {
    if added == [] {
      assert punches + added == punches;
    } else {
      var front, last := added[..|added| - 1], added[|added| - 1];
      ScanGoesOn(punches, front);
      FoldAppend(Scan(punches), front, last);
      assert added == front + [last] && (punches + added)[..|punches + added| - 1] == punches + front;
    }
  }

  lemma RereadGoesOn(punches: seq<Punch>, updates: seq<PunchUpdate>, added: seq<Punch>)
    requires Untouched(added, updates) && InOrder(Move(punches, updates) + added)
    ensures Scan(ByTime(Move(punches + added, updates))).worked
         == Scan(Move(punches, updates)).worked + Worked(Scan(Move(punches, updates)).openAt, added)
  {
    MoveAround(punches, added, updates);
    var moved := Move(punches, updates);
    hide Move, Scan;
    ByTimeOfInOrder(moved + added);
    ScanGoesOn(moved, added);
    FoldAdds(Scan(moved), added);
  }

  lemma WhatIsWritten(row: Row, after: Snapshot, added: seq<Punch>)
    requires InOrder(row.punches) && Read(row, after).Ok?
    ensures var updates := Read(row, after).value.updates;
            CorrectionWrites(PunchesCommit(row, added), Read(row, after).value)
              == Row(Move(row.punches + added, updates), Scan(Move(row.punches, updates)).worked)
  {
    ByTimeOfInOrder(row.punches);
    PunchesAdded(row, added);
    hide Scan, ByTime, Move, PunchesCommit, CorrectionPunchUpdates;
  }

  /**
   * While the moved punches and those that commit between the read and the write are in order, ties
   * included, the record ends short by exactly what came in between is worth after the moves.
   */
  lemma StoredMissesWhatCameBetween(row: Row, after: Snapshot, added: seq<Punch>)
    requires InOrder(row.punches) && Read(row, after).Ok?
    requires Untouched(added, Read(row, after).value.updates)
    requires InOrder(Move(row.punches, Read(row, after).value.updates) + added)
    ensures var reading := Read(row, after).value;
            var end := CorrectionWrites(PunchesCommit(row, added), reading);
            var missed := Worked(Scan(Move(row.punches, reading.updates)).openAt, added);
            && Scan(ByTime(end.punches)).worked == end.worked + missed
            && (end.worked == Scan(ByTime(end.punches)).worked <==> missed == 0)
  {
    WhatIsWritten(row, after, added);
    hide Read, CorrectionWrites, PunchesCommit, Untouched, Scan, ByTime, Move;
    RereadGoesOn(row.punches, Read(row, after).value.updates, added);
  }

  // ---- Wherever the punches are moved ----

  /** What one more check-in does to the minutes of an alternating list. */
  function Lead(at: int, rest: seq<Punch>): int {
    if |rest| < 2 then 0
    else if at <= rest[0].at then Minutes(at, rest[1].at) - Minutes(rest[0].at, rest[1].at)
    else if at <= rest[1].at then 0
    else Lead(at, rest[2..])
  }

  lemma {:induction false} PlacedInCounts(checkIn: Punch, rest: seq<Punch>)
    requires checkIn.kind == In && Alternating(rest) && StrictlyInOrder(rest)
    ensures Worked(None, PlaceOut(checkIn, rest)) == Worked(None, rest) + Lead(checkIn.at, rest)
  {
    if |rest| < 2 {
      LoneCheckIns(checkIn, rest);
    } else {
      TailAlternates(rest);
      WorkedOfPair(rest);
      if checkIn.at <= rest[0].at {
        WorkedStep(None, checkIn, rest);
        WorkedStep(Some(checkIn.at), rest[0], rest[1..]);
        WorkedStep(Some(checkIn.at), rest[1], rest[2..]);
      } else {
        WorkedStep(None, rest[0], PlaceOut(checkIn, rest[1..]));
        if checkIn.at <= rest[1].at {
          WorkedStep(Some(rest[0].at), checkIn, rest[1..]);
          WorkedStep(Some(rest[0].at), rest[1], rest[2..]);
        } else {
          assert rest[1..][1..] == rest[2..];
          WorkedStep(Some(rest[0].at), rest[1], PlaceOut(checkIn, rest[2..]));
          PlacedInCounts(checkIn, rest[2..]);
        }
      }
    }
  }

  /** Check-ins alone count nothing. */
  lemma LoneCheckIns(checkIn: Punch, rest: seq<Punch>)
    requires checkIn.kind == In && Alternating(rest) && |rest| < 2
    ensures Worked(None, PlaceOut(checkIn, rest)) == 0 && Worked(None, rest) == 0
  {
    WorkedOfOne(checkIn);
    assert [checkIn] + [] == [checkIn];
    if rest != [] {
      assert rest == [rest[0]] && rest[1..] == [] && PlaceOut(checkIn, []) == [checkIn];
      WorkedOfOne(rest[0]);
      WorkedStep(None, checkIn, rest);
      WorkedStep(Some(checkIn.at), rest[0], []);
      WorkedStep(None, rest[0], [checkIn]);
      WorkedStep(Some(rest[0].at), checkIn, []);
      assert [rest[0]] + [] == [rest[0]];
    }
  }

  /** Reading the day back puts the one moved punch in among those that stayed. */
  lemma {:induction false} OneIsPlaced(punch: Punch, rest: seq<Punch>)
    requires StrictlyInOrder(rest)
    ensures ByTime([punch] + rest) == PlaceOut(punch, rest)
  {
    if rest == [] {
      assert [punch] + rest == [punch] && PlaceOut(punch, rest) == [punch];
      hide ByTime, PlaceOut;
      ByTimeOfInOrder([punch]);
    } else {
      var front, last := rest[..|rest| - 1], rest[|rest| - 1];
      assert rest == front + [last] && [punch] + rest == [punch] + front + [last];
      assert AllBefore(front, last) && StrictlyInOrder(front);
      OneIsPlaced(punch, front);
      InsertPlaceOut(punch, front, last);
      hide PlaceOut, StrictlyInOrder, AllBefore;
      Sorting.SortAppend(NotAfter, [punch] + front, last);
    }
  }

  /** How many minutes more the moved punches and the later ones count in the old order than read back. */
  function Miscounted(moved: seq<Punch>, later: seq<Punch>): int {
    if |moved| >= 2 then Miscount(moved[0].at, moved[1].at, moved[2..] + later)
    else if moved == [] || later == [] || moved[0].at <= later[0].at then 0
    else -Lead(moved[0].at, later[1..])
  }

  /** A check-in moved past the check-out that closed it in between leaves that one unpaired. */
  lemma CheckInMovedPastClose(checkIn: Punch, out: Punch, rest: seq<Punch>)
    requires checkIn.kind == In && out.kind == Out && out.at < checkIn.at
    requires StrictlyInOrder([out] + rest) && Alternating(rest) && StrictlyInOrder(rest)
    ensures Scan([checkIn] + ([out] + rest)).worked
         == Scan(ByTime([checkIn] + ([out] + rest))).worked - Lead(checkIn.at, rest)
  {
    var later := [out] + rest;
    assert later[1..] == rest && PlaceOut(checkIn, later) == [out] + PlaceOut(checkIn, rest);
    assert Minutes(checkIn.at, out.at) == 0;
    hide Scan, ByTime, PlaceOut, Lead, StrictlyInOrder, Minutes;
    OneIsPlaced(checkIn, later);
    ScanIsFold([checkIn] + later);
    ScanIsFold([out] + PlaceOut(checkIn, rest));
    WorkedStep(None, checkIn, later);
    WorkedStep(Some(checkIn.at), out, rest);
    WorkedStep(None, out, PlaceOut(checkIn, rest));
    PlacedInCounts(checkIn, rest);
  }

  /** A day of which the correction read one check-in only, wherever it moves it. */
  lemma LoneCheckInBeyondReread(checkIn: Punch, later: seq<Punch>, whole: seq<Punch>)
    requires checkIn.kind == In && |whole| == |later| + 1 && whole[1..] == later
    requires Alternating(whole) && StrictlyInOrder(whole)
    ensures Scan([checkIn] + later).worked == Scan(ByTime([checkIn] + later)).worked + Miscounted([checkIn], later)
  {
    if later == [] || checkIn.at <= later[0].at {
      assert InOrder([checkIn] + later) by {
        forall i | 1 <= i < |later| ensures later[0].at < later[i].at { assert whole[1].at < whole[i + 1].at; }
        forall i, j | 0 <= i < j < |later| ensures later[i].at < later[j].at {
          assert whole[i + 1].at < whole[j + 1].at;
        }
      }
      hide Alternating, StrictlyInOrder, Scan, ByTime, InOrder;
      ByTimeOfInOrder([checkIn] + later);
    } else {
      AlternatesAfterOut(whole, later);
      assert later == [later[0]] + later[1..];
      hide Alternating, StrictlyInOrder, Scan, ByTime;
      CheckInMovedPastClose(checkIn, later[0], later[1..]);
    }
  }

  lemma AlternatesAfterOut(whole: seq<Punch>, later: seq<Punch>)
    requires Alternating(whole) && StrictlyInOrder(whole) && |whole| == |later| + 1 && whole[1..] == later
             && later != []
    ensures later[0].kind == Out && Alternating(later[1..]) && StrictlyInOrder(later[1..]) && StrictlyInOrder(later)
  {
    forall i | 0 <= i < |later| ensures later[i] == whole[i + 1] {}
    forall i | 0 <= i < |later| - 1 ensures later[1..][i] == whole[i + 2] {}
  }

  lemma FrontIsSound(punches: seq<Punch>, added: seq<Punch>)
    requires Alternating(punches + added) && StrictlyInOrder(punches + added) && DistinctIds(punches + added)
    ensures Alternating(punches) && StrictlyInOrder(punches) && InOrder(punches) && DistinctIds(punches)
    ensures forall i, j :: 0 <= i < |punches| && 0 <= j < |added| ==> punches[i].id != added[j].id
  {
    var whole := punches + added;
    forall i | 0 <= i < |punches| ensures whole[i] == punches[i] {}
    forall j | 0 <= j < |added| ensures whole[|punches| + j] == added[j] {}
  }

  /** A day of which the correction read an interval at least. */
  lemma IntervalBeyondReread(punches: seq<Punch>, after: Snapshot, added: seq<Punch>)
    requires Alternating(punches + added) && StrictlyInOrder(punches + added) && |punches| >= 2
    requires Alternating(punches) && StrictlyInOrder(punches) && DistinctIds(punches)
    requires CorrectionPunchUpdates(punches, after).Ok?
    ensures var moved := Move(punches, CorrectionPunchUpdates(punches, after).value);
            Scan(moved + added).worked == Scan(ByTime(moved + added)).worked + Miscounted(moved, added)
  {
    var moved := Move(punches, CorrectionPunchUpdates(punches, after).value);
    var rest := punches[2..] + added;
    assert Miscounted(moved, added) == Miscount(moved[0].at, moved[1].at, moved[2..] + added);
    hide *;
    MovedIsIntervalAndRest(punches, after);
    LaterFollow(punches, added, moved);
    TailAlternates(punches + added);
    ListedBeyondReread(moved[0], moved[1], rest);
  }

  lemma LaterFollow(punches: seq<Punch>, added: seq<Punch>, moved: seq<Punch>)
    requires |punches| >= 2 && |moved| >= 2 && moved == [moved[0], moved[1]] + punches[2..]
    ensures (punches + added)[2..] == punches[2..] + added && moved[2..] == punches[2..]
    ensures moved + added == [moved[0], moved[1]] + (punches[2..] + added)
  {
  }

  /** The moved punches with the later ones behind them, as listed and as read back. */
  lemma MovedBeyondReread(punches: seq<Punch>, after: Snapshot, added: seq<Punch>)
    requires Alternating(punches + added) && StrictlyInOrder(punches + added) && DistinctIds(punches + added)
    requires CorrectionPunchUpdates(punches, after).Ok?
    ensures var moved := Move(punches, CorrectionPunchUpdates(punches, after).value);
            Scan(moved + added).worked == Scan(ByTime(moved + added)).worked + Miscounted(moved, added)
  {
    var updates := CorrectionPunchUpdates(punches, after).value;
    var moved := Move(punches, updates);
    FrontIsSound(punches, added);
    if |punches| >= 2 {
      hide *;
      IntervalBeyondReread(punches, after, added);
    } else if |punches| == 1 {
      assert |updates| <= 2 && punches[0].kind == In && |moved| == 1;
      hide Scan, ByTime, Move, Miscounted, CorrectionPunchUpdates, Alternating, StrictlyInOrder, DistinctIds;
      MoveKeepsKinds(punches, updates, 0);
      assert moved == [moved[0]] && (punches + added)[1..] == added;
      LoneCheckInBeyondReread(moved[0], added, punches + added);
    } else {
      assert moved + added == punches + added && InOrder(punches + added) && Miscounted(moved, added) == 0;
      hide Scan, ByTime, Move, CorrectionPunchUpdates, Alternating, StrictlyInOrder, DistinctIds;
      ByTimeOfInOrder(punches + added);
    }
  }

  /** A correction names punches it read, none that came later. */
  lemma NamesWhatItRead(punches: seq<Punch>, after: Snapshot, added: seq<Punch>)
    requires CorrectionPunchUpdates(punches, after).Ok?
    requires forall i, j :: 0 <= i < |punches| && 0 <= j < |added| ==> punches[i].id != added[j].id
    ensures Untouched(added, CorrectionPunchUpdates(punches, after).value)
  {
    FirstInTimeOrder(In, punches);
    FirstInTimeOrder(Out, punches);
    var updates := CorrectionPunchUpdates(punches, after).value;
    forall j | 0 <= j < |updates| ensures exists i :: 0 <= i < |punches| && punches[i].id == updates[j].id {}
  }

  /**
   * Whatever punches commit between the read and the write, and wherever the correction moves the
   * ones it read: what is stored and what came in between exceed what the punches amount to by
   * exactly the miscount of the moved list. The record agrees exactly when the two are the same.
   */
  lemma StaleCorrectionExactly(row: Row, after: Snapshot, added: seq<Punch>)
    requires Alternating(row.punches + added) && StrictlyInOrder(row.punches + added)
    requires DistinctIds(row.punches + added) && Read(row, after).Ok?
    ensures var reading := Read(row, after).value;
            var end, moved := CorrectionWrites(PunchesCommit(row, added), reading), Move(row.punches, reading.updates);
            var missed := Worked(Scan(moved).openAt, added);
            && end.worked + missed == Scan(ByTime(end.punches)).worked + Miscounted(moved, added)
            && (end.worked == Scan(ByTime(end.punches)).worked <==> missed == Miscounted(moved, added))
  {
    FrontIsSound(row.punches, added);
    ByTimeOfInOrder(row.punches);
    WhatIsWritten(row, after, added);
    var updates := Read(row, after).value.updates;
    assert CorrectionPunchUpdates(row.punches, after) == Ok(updates);
    hide CorrectionPunchUpdates, Scan, ByTime, Move, Alternating, StrictlyInOrder, DistinctIds, Miscounted, Untouched;
    hide Read, CorrectionWrites, PunchesCommit;
    NamesWhatItRead(row.punches, after, added);
    MovedBeyondReread(row.punches, after, added);
    MoveAround(row.punches, added, updates);
    var moved := Move(row.punches, updates);
    ScanGoesOn(moved, added);
    FoldAdds(Scan(moved), added);
  }

  /** What one punch is worth at the end of an alternating day. */
  lemma WorthOfOne(day: seq<Punch>, punch: Punch)
    requires Alternating(day) && (punch.kind == In <==> !HasOpenPunch(day))
    ensures Worked(Scan(day).openAt, [punch]) == if punch.kind == In then 0 else Minutes(day[|day| - 1].at, punch.at)
  {
    OpenPunchIsScanState(day);
    KeptWhole(day);
    KeptAlternates(day);
    hide Scan, Kept, Alternating, Minutes;
    WorkedStep(Scan(day).openAt, punch, []);
    assert [punch] + [] == [punch];
  }

  lemma MovedDayAlternates(punches: seq<Punch>, updates: seq<PunchUpdate>)
    requires Alternating(punches) && |updates| <= 2
    ensures var moved := Move(punches, updates);
            Alternating(moved) && |moved| == |punches| && (HasOpenPunch(moved) <==> HasOpenPunch(punches))
  {
    forall i | 0 <= i < |punches| ensures Move(punches, updates)[i].kind == punches[i].kind {
      MoveKeepsKinds(punches, updates, i);
    }
  }

  /**
   * One punch in between: after a check-in the record agrees exactly when nothing is miscounted,
   * after a check-out exactly when as many minutes are miscounted as it closes, none included.
   */
  lemma OnePunchBetween(row: Row, after: Snapshot, punch: Punch)
    requires Alternating(row.punches) && StrictlyInOrder(row.punches + [punch]) && DistinctIds(row.punches + [punch])
    requires Read(row, after).Ok? && (punch.kind == In <==> !HasOpenPunch(row.punches))
    ensures var end := CorrectionWrites(PunchCommits(row, punch), Read(row, after).value);
            var moved := Move(row.punches, Read(row, after).value.updates);
            && (punch.kind == Out ==> moved != [])
            && (end.worked == Scan(ByTime(end.punches)).worked <==>
                  Miscounted(moved, [punch]) ==
                    if punch.kind == In then 0 else Minutes(moved[|moved| - 1].at, punch.at))
  {
    OneCommits(row, punch);
    AtMostTwoMoves(row, after);
    AppendAlternates(row.punches, punch);
    assert punch.kind == Out ==> row.punches != [];
    hide *;
    var updates := Read(row, after).value.updates;
    StaleCorrectionExactly(row, after, [punch]);
    MovedDayAlternates(row.punches, updates);
    WorthOfOne(Move(row.punches, updates), punch);
  }

  lemma OneCommits(row: Row, punch: Punch)
    ensures PunchesCommit(row, [punch]) == PunchCommits(row, punch)
  {
    assert [punch][..0] == [];
    hide PunchCommits;
  }

  lemma AtMostTwoMoves(row: Row, after: Snapshot)
    requires Read(row, after).Ok?
    ensures |Read(row, after).value.updates| <= 2
  {
    hide ByTime, FirstOf;
  }

  /** A correction of the day's status alone, read before a check-out of sixty minutes, stores none of them. */
  lemma StaleCorrectionLosesTheCheckOut(row: Row, after: Snapshot, out: Punch)
    requires row == Row([Punch(1, In, 0)], 0) && out == Punch(2, Out, 60 * MINUTE)
    requires after == Snapshot(Missing, Missing, None, false, Some(Late))
    ensures Read(row, after).Ok?
    ensures var end := CorrectionWrites(PunchCommits(row, out), Read(row, after).value);
            end.worked == 0 && Scan(ByTime(end.punches)).worked == 60
  {
    NothingMoves(row, after);
    var updates: seq<PunchUpdate> := [];
    assert Read(row, after).value.updates == updates && Move(row.punches, updates) == row.punches;
    OneCommits(row, out);
    hide Read, CorrectionWrites, PunchesCommit, PunchCommits, ByTime, Move;
    WhatIsWritten(row, after, [out]);
    StoredMissesWhatCameBetween(row, after, [out]);
    WorthOfOne(row.punches, out);
    assert row.punches[..0] == [] && Scan(row.punches) == Count(Scan([]), row.punches[0]);
  }

  /**
   * Losing minutes need not show: with in at 0, out at 1 and in at 2, the first check-out corrected to
   * 3, a check-out at 62 in between is worth 60 minutes, and the record still agrees, 3 and 3.
   */
  lemma TwoErrorsCancel(row: Row, after: Snapshot, out: Punch)
    requires row.punches == [Punch(1, In, 0), Punch(2, Out, MINUTE), Punch(3, In, 2 * MINUTE)]
    requires after == Snapshot(Missing, At(3 * MINUTE), None, false, None) && out == Punch(4, Out, 62 * MINUTE)
    ensures Read(row, after).Ok?
    ensures var end := CorrectionWrites(PunchCommits(row, out), Read(row, after).value);
            && Worked(Scan(Move(row.punches, Read(row, after).value.updates)).openAt, [out]) == 60
            && end.worked == 3 && Scan(ByTime(end.punches)).worked == 3
  {
    MovesTheCheckOut(row, after);
    OneCommits(row, out);
    WhatIsWritten(row, after, [out]);
    AppendAlternates(row.punches, out);
    assert StrictlyInOrder(row.punches + [out]) && DistinctIds(row.punches + [out]);
    hide *;
    StaleCorrectionExactly(row, after, [out]);
    WhatTheTwoCount(Move(row.punches, Read(row, after).value.updates), out);
  }

  lemma WhatTheTwoCount(moved: seq<Punch>, out: Punch)
    requires moved == [Punch(1, In, 0), Punch(2, Out, 3 * MINUTE), Punch(3, In, 2 * MINUTE)]
    requires out == Punch(4, Out, 62 * MINUTE)
    ensures Scan(moved).worked == 3 && Worked(Scan(moved).openAt, [out]) == 60 && Miscounted(moved, [out]) == 60
  {
    assert moved == [moved[0], moved[1]] + [moved[2]] && moved[2..] + [out] == [moved[2], out];
    assert Miscount(0, 3 * MINUTE, [moved[2], out]) == 60;
    hide Scan, Worked, Miscount;
    WorthOfOne(moved, out);
    ListedCounts(moved[0], moved[1], [moved[2]]);
    WorkedOfOne(moved[2]);
  }

  lemma MovesTheCheckOut(row: Row, after: Snapshot)
    requires row.punches == [Punch(1, In, 0), Punch(2, Out, MINUTE), Punch(3, In, 2 * MINUTE)]
    requires after == Snapshot(Missing, At(3 * MINUTE), None, false, None)
    ensures Read(row, after) == Ok(Reading(row.punches, [PunchUpdate(2, 3 * MINUTE)]))
    ensures Move(row.punches, [PunchUpdate(2, 3 * MINUTE)])
         == [Punch(1, In, 0), Punch(2, Out, 3 * MINUTE), Punch(3, In, 2 * MINUTE)]
  {
    ByTimeOfInOrder(row.punches);
    assert row.punches[1..][0] == row.punches[1];
    assert FirstOf(Out, row.punches) == FirstOf(Out, row.punches[1..]) == Some(row.punches[1]);
    var none: seq<PunchUpdate> := [];
    assert none + [PunchUpdate(2, 3 * MINUTE)] == [PunchUpdate(2, 3 * MINUTE)];
    forall i | 0 <= i < 3 ensures Move(row.punches, [PunchUpdate(2, 3 * MINUTE)])[i]
                               == [Punch(1, In, 0), Punch(2, Out, 3 * MINUTE), Punch(3, In, 2 * MINUTE)][i]
    {
      MovedPunchUnfolds(row.punches[i], [PunchUpdate(2, 3 * MINUTE)]);
    }
  }

  lemma NothingMoves(row: Row, after: Snapshot)
    requires row.punches == [Punch(1, In, 0)] && after.correctedCheckIn.Missing? && after.correctedCheckOut.Missing?
    ensures Read(row, after) == Ok(Reading(row.punches, []))
  {
    ByTimeOfInOrder(row.punches);
    assert row.punches[1..] == [] && FirstOf(Out, row.punches) == FirstOf(Out, row.punches[1..]) == None;
    var none: seq<PunchUpdate> := [];
    assert none + none == none;
  }
}
