/**
 * What a moved interval does to a day's minutes.
 *
 * A correction totals the list as it was with new times in it. A later read sorts the punches first,
 * so an interval moved onto others is counted differently. Here is by how much, on every alternating
 * day, and when not at all.
 */
module Overtaking {
  import opened Common
  import opened Totals
  import opened PunchMoves
  import Sorting

  // ---- The fold from the front ----

  function Fold(tally: Tally, punches: seq<Punch>): Tally
    decreases |punches|
  {
    if punches == [] then tally else Fold(Count(tally, punches[0]), punches[1..])
  }

  /** The minutes counted from a list, starting with this check-in open. */
  function Worked(open: Option<int>, punches: seq<Punch>): nat { Fold(Tally(open, 0), punches).worked }

  lemma {:induction false} FoldAppend(tally: Tally, punches: seq<Punch>, punch: Punch)
    ensures Fold(tally, punches + [punch]) == Count(Fold(tally, punches), punch)
    decreases |punches|
  {
    if punches == [] {
      assert (punches + [punch])[1..] == [];
    } else {
      assert (punches + [punch])[1..] == punches[1..] + [punch];
      FoldAppend(Count(tally, punches[0]), punches[1..], punch);
    }
  }

  lemma {:induction false} ScanIsFold(punches: seq<Punch>)
    ensures Scan(punches) == Fold(Tally(None, 0), punches)
  {
    if punches != [] {
      var front, last := punches[..|punches| - 1], punches[|punches| - 1];
      ScanIsFold(front);
      FoldAppend(Tally(None, 0), front, last);
      assert punches == front + [last];
    }
  }

  lemma {:induction false} FoldAdds(tally: Tally, punches: seq<Punch>)
    ensures var counted := Fold(tally.(worked := 0), punches);
            Fold(tally, punches) == Tally(counted.openAt, tally.worked + counted.worked)
    decreases |punches|
  {
    if punches != [] {
      FoldAdds(Count(tally, punches[0]), punches[1..]);
      FoldAdds(Count(tally.(worked := 0), punches[0]), punches[1..]);
    }
  }

  /** One punch at the front. */
  lemma WorkedStep(open: Option<int>, punch: Punch, rest: seq<Punch>)
    ensures Worked(open, [punch] + rest)
         == match (punch.kind, open)
            case (In, None) => Worked(Some(punch.at), rest)
            case (Out, Some(at)) => Minutes(at, punch.at) + Worked(None, rest)
            case _ => Worked(open, rest)
  {
    assert ([punch] + rest)[1..] == rest;
    FoldAdds(Count(Tally(open, 0), punch), rest);
  }

  // ---- Where a read puts the moved interval ----

  function PlaceOut(checkOut: Punch, rest: seq<Punch>): seq<Punch> {
    if rest == [] || checkOut.at <= rest[0].at then [checkOut] + rest else [rest[0]] + PlaceOut(checkOut, rest[1..])
  }

  function PlaceBoth(checkIn: Punch, checkOut: Punch, rest: seq<Punch>): seq<Punch> {
    if rest == [] || checkIn.at <= rest[0].at then [checkIn] + PlaceOut(checkOut, rest)
    else [rest[0]] + PlaceBoth(checkIn, checkOut, rest[1..])
  }

  lemma {:induction false} InsertBehindHead(head: Punch, tail: seq<Punch>, punch: Punch)
    requires head.at <= punch.at
    ensures Sorting.Insert(NotAfter, [head] + tail, punch) == [head] + Sorting.Insert(NotAfter, tail, punch)
  {
    var list := [head] + tail;
    if tail != [] {
      assert list[|list| - 1] == tail[|tail| - 1];
      assert list[..|list| - 1] == [head] + tail[..|tail| - 1];
      InsertBehindHead(head, tail[..|tail| - 1], punch);
    }
  }

  lemma {:induction false} InsertAfterAll(list: seq<Punch>, punch: Punch)
    requires list != [] ==> list[|list| - 1].at <= punch.at
    ensures Sorting.Insert(NotAfter, list, punch) == list + [punch]
  {
  }

  ghost predicate AllBefore(rest: seq<Punch>, punch: Punch) { forall i :: 0 <= i < |rest| ==> rest[i].at < punch.at }

  lemma {:induction false} InsertPlaceOut(checkOut: Punch, rest: seq<Punch>, punch: Punch)
    requires AllBefore(rest, punch)
    ensures Sorting.Insert(NotAfter, PlaceOut(checkOut, rest), punch) == PlaceOut(checkOut, rest + [punch])
  {
    if rest == [] {
      assert [checkOut][..0] == [] && (rest + [punch])[1..] == [];
    } else if checkOut.at <= rest[0].at {
      assert ([checkOut] + rest)[|rest|] == rest[|rest| - 1];
      InsertAfterAll([checkOut] + rest, punch);
    } else {
      assert (rest + [punch])[1..] == rest[1..] + [punch];
      InsertPlaceOut(checkOut, rest[1..], punch);
      InsertBehindHead(rest[0], PlaceOut(checkOut, rest[1..]), punch);
    }
  }

  lemma InsertBeforeBoth(checkIn: Punch, checkOut: Punch, punch: Punch)
    requires punch.at < checkIn.at <= checkOut.at
    ensures Sorting.Insert(NotAfter, [checkIn, checkOut], punch) == PlaceBoth(checkIn, checkOut, [punch])
  {
    var one, both := [checkIn], [checkIn, checkOut];
    assert one[..0] == [] && both[..1] == one;
    assert Sorting.Insert(NotAfter, one, punch) == [punch] + [checkIn];
    assert Sorting.Insert(NotAfter, both, punch) == Sorting.Insert(NotAfter, one, punch) + [checkOut];
    assert [punch][1..] == [] && PlaceOut(checkOut, []) == [checkOut];
    assert PlaceBoth(checkIn, checkOut, []) == [checkIn] + [checkOut];
  }

  lemma {:induction false} InsertPlaceBoth(checkIn: Punch, checkOut: Punch, rest: seq<Punch>, punch: Punch)
    requires AllBefore(rest, punch) && checkIn.at <= checkOut.at
    ensures Sorting.Insert(NotAfter, PlaceBoth(checkIn, checkOut, rest), punch) ==
              PlaceBoth(checkIn, checkOut, rest + [punch])
  {
    if rest == [] {
      assert rest + [punch] == [punch] && [punch][1..] == [];
      if checkIn.at <= punch.at {
        InsertPlaceOut(checkOut, rest, punch);
        InsertBehindHead(checkIn, PlaceOut(checkOut, rest), punch);
      } else {
        assert PlaceBoth(checkIn, checkOut, rest) == [checkIn, checkOut];
        InsertBeforeBoth(checkIn, checkOut, punch);
      }
    } else if checkIn.at <= rest[0].at {
      InsertPlaceOut(checkOut, rest, punch);
      InsertBehindHead(checkIn, PlaceOut(checkOut, rest), punch);
    } else {
      assert (rest + [punch])[1..] == rest[1..] + [punch];
      InsertPlaceBoth(checkIn, checkOut, rest[1..], punch);
      InsertBehindHead(rest[0], PlaceBoth(checkIn, checkOut, rest[1..]), punch);
    }
  }

  /** Reading the day back puts the moved check-in and check-out in among the punches that stayed. */
  lemma {:induction false} RereadIsPlaced(checkIn: Punch, checkOut: Punch, rest: seq<Punch>)
    requires StrictlyInOrder(rest) && checkIn.at <= checkOut.at
    ensures ByTime([checkIn, checkOut] + rest) == PlaceBoth(checkIn, checkOut, rest)
  {
    if rest == [] {
      ByTimeOfInOrder([checkIn, checkOut]);
      assert [checkIn, checkOut] + rest == [checkIn, checkOut];
    } else {
      var front, last := rest[..|rest| - 1], rest[|rest| - 1];
      RereadIsPlaced(checkIn, checkOut, front);
      Sorting.SortAppend(NotAfter, [checkIn, checkOut] + front, last);
      assert [checkIn, checkOut] + rest == [checkIn, checkOut] + front + [last];
      InsertPlaceBoth(checkIn, checkOut, front, last);
      assert rest == front + [last];
    }
  }

  // ---- What each way of counting makes of it ----

  /** What one more check-out does to the minutes of an alternating list. */
  function Surplus(to: int, rest: seq<Punch>): int {
    if rest == [] || to <= rest[0].at then 0
    else if |rest| == 1 then Minutes(rest[0].at, to)
    else if to <= rest[1].at then Minutes(rest[0].at, to) - Minutes(rest[0].at, rest[1].at)
    else Surplus(to, rest[2..])
  }

  /**
   * How many minutes more the interval from `from` to `to` and the later punches count in the old
   * order than read back: none where it fits between them, the interval it runs into and the rest.
   */
  function Miscount(from: int, to: int, rest: seq<Punch>): int {
    if rest == [] || to <= rest[0].at then 0
    else if |rest| == 1 then
      if from <= rest[0].at then 0 else Minutes(from, to) - Minutes(rest[0].at, to)
    else
      var whole, next := Minutes(from, to), Minutes(rest[0].at, rest[1].at);
      if from <= rest[0].at then
        if to <= rest[1].at then next else whole + next - Minutes(from, rest[1].at) - Surplus(to, rest[2..])
      else if from <= rest[1].at then
        if to <= rest[1].at then whole + next - Minutes(rest[0].at, to) else whole - Surplus(to, rest[2..])
      else Miscount(from, to, rest[2..])
  }

  lemma TailAlternates(rest: seq<Punch>)
    requires Alternating(rest) && StrictlyInOrder(rest) && |rest| >= 2
    ensures rest[0].kind == In && rest[1].kind == Out && rest[0].at < rest[1].at
    ensures Alternating(rest[2..]) && StrictlyInOrder(rest[2..])
    ensures |rest| > 2 ==> rest[1].at < rest[2].at
    ensures rest == [rest[0]] + ([rest[1]] + rest[2..]) && rest[1..] == [rest[1]] + rest[2..]
  {
    forall i | 0 <= i < |rest[2..]| ensures rest[2..][i].kind == In <==> i % 2 == 0 {
      assert rest[2..][i] == rest[i + 2];
    }
  }

  lemma WorkedOfPair(rest: seq<Punch>)
    requires Alternating(rest) && StrictlyInOrder(rest) && |rest| >= 2
    ensures Worked(None, rest) == Minutes(rest[0].at, rest[1].at) + Worked(None, rest[2..])
  {
    TailAlternates(rest);
    WorkedStep(None, rest[0], [rest[1]] + rest[2..]);
    WorkedStep(Some(rest[0].at), rest[1], rest[2..]);
  }

  lemma WorkedOfOne(punch: Punch)
    requires punch.kind == In
    ensures Worked(None, [punch]) == 0
  {
    WorkedStep(None, punch, []);
    assert [punch] + [] == [punch];
  }

  lemma {:induction false} PlacedOutCounts(checkOut: Punch, rest: seq<Punch>)
    requires checkOut.kind == Out && Alternating(rest) && StrictlyInOrder(rest)
    ensures Worked(None, PlaceOut(checkOut, rest)) == Worked(None, rest) + Surplus(checkOut.at, rest)
  {
    if rest == [] || checkOut.at <= rest[0].at {
      WorkedStep(None, checkOut, rest);
    } else if |rest| == 1 {
      assert rest == [rest[0]] && PlaceOut(checkOut, rest[1..]) == [checkOut];
      WorkedOfOne(rest[0]);
      WorkedStep(None, rest[0], [checkOut]);
      ClosesAlone(rest[0].at, checkOut);
    } else {
      TailAlternates(rest);
      WorkedOfPair(rest);
      WorkedStep(None, rest[0], PlaceOut(checkOut, rest[1..]));
      if checkOut.at <= rest[1].at {
        WorkedStep(Some(rest[0].at), checkOut, rest[1..]);
        WorkedStep(None, rest[1], rest[2..]);
      } else {
        assert rest[1..][1..] == rest[2..];
        WorkedStep(Some(rest[0].at), rest[1], PlaceOut(checkOut, rest[2..]));
        PlacedOutCounts(checkOut, rest[2..]);
      }
    }
  }

  lemma ClosesAlone(open: int, checkOut: Punch)
    requires checkOut.kind == Out
    ensures Worked(Some(open), [checkOut]) == Minutes(open, checkOut.at)
  {
    WorkedStep(Some(open), checkOut, []);
    assert [checkOut] + [] == [checkOut];
  }

  /** Both ways of counting, and what lies between them. */
  lemma {:induction false} PlacedBothCounts(checkIn: Punch, checkOut: Punch, rest: seq<Punch>)
    requires checkIn.kind == In && checkOut.kind == Out && checkIn.at <= checkOut.at
    requires Alternating(rest) && StrictlyInOrder(rest)
    ensures Minutes(checkIn.at, checkOut.at) + Worked(None, rest)
         == Worked(None, PlaceBoth(checkIn, checkOut, rest)) + Miscount(checkIn.at, checkOut.at, rest)
  {
    if rest == [] || checkIn.at <= rest[0].at {
      FirstPlaced(checkIn, checkOut, rest);
    } else if |rest| == 1 {
      assert rest == [rest[0]] && rest[1..] == [] && PlaceBoth(checkIn, checkOut, []) == [checkIn] + [checkOut];
      WorkedOfOne(rest[0]);
      WorkedStep(None, rest[0], [checkIn] + [checkOut]);
      WorkedStep(Some(rest[0].at), checkIn, [checkOut]);
      ClosesAlone(rest[0].at, checkOut);
    } else {
      TailAlternates(rest);
      WorkedOfPair(rest);
      WorkedStep(None, rest[0], PlaceBoth(checkIn, checkOut, rest[1..]));
      if checkIn.at <= rest[1].at {
        SecondPlaced(checkIn, checkOut, rest);
      } else {
        assert rest[1..][1..] == rest[2..];
        WorkedStep(Some(rest[0].at), rest[1], PlaceBoth(checkIn, checkOut, rest[2..]));
        PlacedBothCounts(checkIn, checkOut, rest[2..]);
      }
    }
  }

  /** The check-in before all later punches. */
  lemma FirstPlaced(checkIn: Punch, checkOut: Punch, rest: seq<Punch>)
    requires checkIn.kind == In && checkOut.kind == Out && checkIn.at <= checkOut.at
    requires Alternating(rest) && StrictlyInOrder(rest) && (rest == [] || checkIn.at <= rest[0].at)
    ensures Minutes(checkIn.at, checkOut.at) + Worked(None, rest)
         == Worked(None, [checkIn] + PlaceOut(checkOut, rest)) + Miscount(checkIn.at, checkOut.at, rest)
  {
    WorkedStep(None, checkIn, PlaceOut(checkOut, rest));
    if rest == [] || checkOut.at <= rest[0].at {
      WorkedStep(Some(checkIn.at), checkOut, rest);
    } else {
      WorkedStep(Some(checkIn.at), rest[0], PlaceOut(checkOut, rest[1..]));
      if |rest| == 1 {
        assert rest == [rest[0]] && rest[1..] == [];
        WorkedOfOne(rest[0]);
        ClosesAlone(checkIn.at, checkOut);
      } else {
        TailAlternates(rest);
        WorkedOfPair(rest);
        RunsOn(checkIn.at, checkOut, rest);
      }
    }
  }

  /** From an interval open since `open`, the check-out comes before or after the next one read. */
  lemma RunsOn(open: int, checkOut: Punch, rest: seq<Punch>)
    requires checkOut.kind == Out && Alternating(rest) && StrictlyInOrder(rest) && |rest| >= 2
    ensures Worked(Some(open), PlaceOut(checkOut, rest[1..]))
         == if checkOut.at <= rest[1].at then Minutes(open, checkOut.at) + Worked(None, rest[2..])
            else Minutes(open, rest[1].at) + Worked(None, rest[2..]) + Surplus(checkOut.at, rest[2..])
  {
    TailAlternates(rest);
    if checkOut.at <= rest[1].at {
      WorkedStep(Some(open), checkOut, rest[1..]);
      WorkedStep(None, rest[1], rest[2..]);
    } else {
      assert rest[1..][1..] == rest[2..];
      WorkedStep(Some(open), rest[1], PlaceOut(checkOut, rest[2..]));
      PlacedOutCounts(checkOut, rest[2..]);
    }
  }

  /** The check-in inside the next interval, where it goes unnoticed. */
  lemma SecondPlaced(checkIn: Punch, checkOut: Punch, rest: seq<Punch>)
    requires checkIn.kind == In && checkOut.kind == Out && checkIn.at <= checkOut.at
    requires Alternating(rest) && StrictlyInOrder(rest) && |rest| >= 2 && rest[0].at < checkIn.at <= rest[1].at
    ensures Minutes(checkIn.at, checkOut.at) + Worked(None, rest)
         == Worked(Some(rest[0].at), PlaceBoth(checkIn, checkOut, rest[1..])) + Miscount(checkIn.at, checkOut.at, rest)
  {
    WorkedOfPair(rest);
    WorkedStep(Some(rest[0].at), checkIn, PlaceOut(checkOut, rest[1..]));
    RunsOn(rest[0].at, checkOut, rest);
  }

  // ---- What a correction stores, and what its punches amount to ----

  lemma MoveKeepsKinds(punches: seq<Punch>, updates: seq<PunchUpdate>, i: nat)
    requires i < |punches| && |updates| <= 2
    ensures Move(punches, updates)[i].kind == punches[i].kind
  {
    MovedPunchUnfolds(punches[i], updates);
  }

  /** As listed, an interval counts in full and the later punches after it. */
  lemma ListedCounts(checkIn: Punch, checkOut: Punch, rest: seq<Punch>)
    requires checkIn.kind == In && checkOut.kind == Out
    ensures Scan([checkIn, checkOut] + rest).worked == Minutes(checkIn.at, checkOut.at) + Worked(None, rest)
  {
    ScanIsFold([checkIn, checkOut] + rest);
    assert [checkIn, checkOut] + rest == [checkIn] + ([checkOut] + rest);
    hide Scan, Minutes;
    WorkedStep(None, checkIn, [checkOut] + rest);
    WorkedStep(Some(checkIn.at), checkOut, rest);
  }

  /** An interval followed by later punches, counted as listed and as read back. */
  lemma ListedBeyondReread(checkIn: Punch, checkOut: Punch, rest: seq<Punch>)
    requires checkIn.kind == In && checkOut.kind == Out && checkIn.at <= checkOut.at
    requires Alternating(rest) && StrictlyInOrder(rest)
    ensures Scan([checkIn, checkOut] + rest).worked
         == Scan(ByTime([checkIn, checkOut] + rest)).worked + Miscount(checkIn.at, checkOut.at, rest)
  {
    hide Scan, ByTime, PlaceBoth, Miscount, Minutes, Alternating, StrictlyInOrder;
    RereadIsPlaced(checkIn, checkOut, rest);
    PlacedBothCounts(checkIn, checkOut, rest);
    ListedCounts(checkIn, checkOut, rest);
    ScanIsFold(ByTime([checkIn, checkOut] + rest));
  }

  /** A moved alternating day is the moved interval, in order, and the later punches as they were. */
  lemma MovedIsIntervalAndRest(punches: seq<Punch>, snapshot: Snapshot)
    requires Alternating(punches) && StrictlyInOrder(punches) && DistinctIds(punches) && |punches| >= 2
    requires CorrectionPunchUpdates(punches, snapshot).Ok?
    ensures var moved := Move(punches, CorrectionPunchUpdates(punches, snapshot).value);
            && moved == [moved[0], moved[1]] + punches[2..]
            && moved[0].kind == In && moved[1].kind == Out && moved[0].at <= moved[1].at
  {
    var updates := CorrectionPunchUpdates(punches, snapshot).value;
    MovedDay(punches, snapshot);
    assert |updates| <= 2;
    assert punches[0].kind == In && punches[1].kind == Out;
    hide CorrectionPunchUpdates, MovedPunch, Alternating, StrictlyInOrder, DistinctIds;
    MoveKeepsKinds(punches, updates, 0);
    MoveKeepsKinds(punches, updates, 1);
  }

  /**
   * On every alternating day an accepted correction stores exactly `Miscount` minutes more than its
   * punches, read back, amount to.
   */
  lemma StoredBeyondReread(punches: seq<Punch>, snapshot: Snapshot)
    requires Alternating(punches) && StrictlyInOrder(punches) && DistinctIds(punches) && |punches| >= 2
    requires CorrectionPunchUpdates(punches, snapshot).Ok?
    ensures var moved := Move(punches, CorrectionPunchUpdates(punches, snapshot).value);
            Scan(moved).worked == Scan(ByTime(moved)).worked + Miscount(moved[0].at, moved[1].at, punches[2..])
  {
    TailAlternates(punches);
    hide *;
    MovedIsIntervalAndRest(punches, snapshot);
    var moved := Move(punches, CorrectionPunchUpdates(punches, snapshot).value);
    ListedBeyondReread(moved[0], moved[1], punches[2..]);
  }

  /** Moving the only punch of a day changes nothing that is counted. */
  lemma OnePunchCountsAlike(punches: seq<Punch>, updates: seq<PunchUpdate>)
    requires |punches| <= 1
    ensures ByTime(Move(punches, updates)) == Move(punches, updates)
  {
    ByTimeOfInOrder(Move(punches, updates));
  }

  // ---- When nothing is miscounted ----

  lemma MinutesAdd(a: int, b: int, c: int)
    requires a <= b <= c
    ensures Minutes(a, b) + Minutes(b, c) <= Minutes(a, c)
  {
  }

  /** One more check-out adds no more than the time since any moment before the list. */
  lemma {:induction false} SurplusFits(since: int, to: int, rest: seq<Punch>)
    requires Alternating(rest) && StrictlyInOrder(rest) && since <= to && (rest == [] || since <= rest[0].at)
    ensures Surplus(to, rest) <= Minutes(since, to)
    decreases |rest|
  {
    if rest != [] && rest[0].at < to {
      MinutesAdd(since, rest[0].at, to);
      if |rest| >= 2 {
        TailAlternates(rest);
        if to <= rest[1].at {
          MinutesAdd(rest[0].at, to, rest[1].at);
        } else {
          SurplusFits(rest[1].at, to, rest[2..]);
          MinutesAdd(since, rest[1].at, to);
        }
      }
    }
  }

  /**
   * While the check-in stays where it can be read first, running into the next interval counts at
   * least that interval twice; running only into an open check-in counts nothing twice.
   */
  lemma MiscountOfOvertaking(from: int, to: int, rest: seq<Punch>)
    requires Alternating(rest) && StrictlyInOrder(rest) && from <= to && (rest == [] || from <= rest[0].at)
    ensures |rest| <= 1 || to <= rest[0].at ==> Miscount(from, to, rest) == 0
    ensures |rest| >= 2 && rest[0].at < to ==> Miscount(from, to, rest) >= Minutes(rest[0].at, rest[1].at)
  {
    if |rest| >= 2 && rest[1].at < to {
      TailAlternates(rest);
      SurplusFits(rest[1].at, to, rest[2..]);
      MinutesAdd(from, rest[1].at, to);
    }
  }

  /** The moved interval meets no interval of the later punches. */
  ghost predicate FitsBetween(from: int, to: int, rest: seq<Punch>) {
    forall i | 0 <= i < |rest| && rest[i].kind == In :: to <= rest[i].at || (i + 1 < |rest| && rest[i + 1].at < from)
  }

  /** Every interval, the moved one included, lasts a minute, and the day is closed. */
  ghost predicate WholeIntervals(from: int, to: int, rest: seq<Punch>) {
    && Minutes(from, to) >= 1 && |rest| % 2 == 0
    && forall i | 0 <= i < |rest| - 1 && rest[i].kind == In :: Minutes(rest[i].at, rest[i + 1].at) >= 1
  }

  lemma {:induction false} ExtraCheckOutLosesMinutes(to: int, rest: seq<Punch>)
    requires Alternating(rest) && StrictlyInOrder(rest) && |rest| % 2 == 0
    ensures Surplus(to, rest) <= 0
  {
    if rest != [] {
      TailAlternates(rest);
      if rest[0].at < to <= rest[1].at { MinutesAdd(rest[0].at, to, rest[1].at); }
      ExtraCheckOutLosesMinutes(to, rest[2..]);
    }
  }

  lemma TailStillFits(from: int, to: int, rest: seq<Punch>)
    requires |rest| >= 2 && FitsBetween(from, to, rest)
    ensures FitsBetween(from, to, rest[2..])
  {
    forall i | 0 <= i < |rest[2..]| && rest[2..][i].kind == In
      ensures to <= rest[2..][i].at || (i + 1 < |rest[2..]| && rest[2..][i + 1].at < from)
    {
      assert rest[i + 2].kind == In;
    }
  }

  lemma TailFits(from: int, to: int, rest: seq<Punch>)
    requires Alternating(rest) && StrictlyInOrder(rest) && |rest| >= 2
    ensures FitsBetween(from, to, rest) <==> (to <= rest[0].at || rest[1].at < from) && FitsBetween(from, to, rest[2..])
  {
    assert rest[0].kind == In && rest[1].kind == Out;
    hide Alternating, StrictlyInOrder;
    if FitsBetween(from, to, rest) { TailStillFits(from, to, rest); }
    if (to <= rest[0].at || rest[1].at < from) && FitsBetween(from, to, rest[2..]) {
      forall i | 0 <= i < |rest| && rest[i].kind == In
        ensures to <= rest[i].at || (i + 1 < |rest| && rest[i + 1].at < from)
      {
        if i >= 2 { assert rest[2..][i - 2].kind == In; }
      }
    }
  }

  lemma TailStaysWhole(from: int, to: int, rest: seq<Punch>)
    requires Alternating(rest) && |rest| >= 2 && WholeIntervals(from, to, rest)
    ensures Minutes(rest[0].at, rest[1].at) >= 1 && WholeIntervals(from, to, rest[2..])
  {
    assert rest[0].kind == In;
    hide Minutes, Alternating;
    forall i | 0 <= i < |rest[2..]| - 1 && rest[2..][i].kind == In
      ensures Minutes(rest[2..][i].at, rest[2..][i + 1].at) >= 1
    {
      assert rest[i + 2].kind == In;
    }
  }

  /** A check-in inside the next closed interval goes unnoticed, so the moved interval is counted on top. */
  lemma MiscountInside(from: int, to: int, rest: seq<Punch>)
    requires Alternating(rest) && StrictlyInOrder(rest) && |rest| >= 2 && |rest| % 2 == 0
    requires rest[0].at < from <= rest[1].at && from <= to
    ensures Miscount(from, to, rest) >= Minutes(from, to)
  {
    TailAlternates(rest);
    ExtraCheckOutLosesMinutes(to, rest[2..]);
    if to <= rest[1].at { MinutesAdd(rest[0].at, to, rest[1].at); }
  }

  lemma MiscountElsewhere(from: int, to: int, rest: seq<Punch>)
    requires |rest| >= 2 && from <= to
    ensures to <= rest[0].at ==> Miscount(from, to, rest) == 0
    ensures rest[0].at < from && rest[1].at < from ==> Miscount(from, to, rest) == Miscount(from, to, rest[2..])
  {
  }

  /**
   * On a closed day of whole intervals nothing is miscounted exactly when the moved interval fits
   * between the others, wherever it was moved and however many there are.
   */
  lemma {:induction false} MiscountsUnlessFitting(from: int, to: int, rest: seq<Punch>)
    requires Alternating(rest) && StrictlyInOrder(rest) && from <= to && WholeIntervals(from, to, rest)
    ensures Miscount(from, to, rest) >= 0
    ensures Miscount(from, to, rest) == 0 <==> FitsBetween(from, to, rest)
  {
    if rest != [] {
      TailAlternates(rest);
      TailFits(from, to, rest);
      TailStaysWhole(from, to, rest);
      assert |rest| % 2 == 0 && Minutes(from, to) >= 1;
      hide FitsBetween, WholeIntervals, Alternating, StrictlyInOrder, Surplus, Minutes, Miscount;
      MiscountElsewhere(from, to, rest);
      if rest[0].at < to && from <= rest[0].at {
        MiscountOfOvertaking(from, to, rest);
      } else if rest[0].at < to && from <= rest[1].at {
        MiscountInside(from, to, rest);
      } else {
        MiscountsUnlessFitting(from, to, rest[2..]);
        if to <= rest[0].at { NothingBefore(from, to, rest); }
      }
    }
  }

  lemma NothingBefore(from: int, to: int, rest: seq<Punch>)
    requires StrictlyInOrder(rest) && rest != [] && to <= rest[0].at
    ensures FitsBetween(from, to, rest)
  {
    forall i | 0 <= i < |rest| ensures to <= rest[i].at {
      assert i > 0 ==> rest[0].at < rest[i].at;
    }
  }

  /** An interval moved behind all others of a closed day is counted alike, however short any of them is. */
  lemma {:induction false} MovedBehindAllAgrees(from: int, to: int, rest: seq<Punch>)
    requires Alternating(rest) && StrictlyInOrder(rest) && |rest| % 2 == 0 && from <= to
    requires rest != [] ==> rest[|rest| - 1].at < from
    ensures Miscount(from, to, rest) == 0
  {
    if rest != [] {
      TailAlternates(rest);
      if |rest| > 2 { assert rest[1].at < rest[|rest| - 1].at; }
      MovedBehindAllAgrees(from, to, rest[2..]);
    }
  }

  // ---- For whoever corrects a day ----

  /**
   * With the check-in left before the second one, a day of at most three punches is never miscounted,
   * and one whose second interval counts a minute is miscounted exactly when the first check-out
   * passes the second check-in.
   */
  lemma CheckOutMovedExactly(punches: seq<Punch>, snapshot: Snapshot)
    requires Alternating(punches) && StrictlyInOrder(punches) && DistinctIds(punches) && |punches| >= 2
    requires CorrectionPunchUpdates(punches, snapshot).Ok?
    requires |punches| > 2 && snapshot.correctedCheckIn.At? ==> snapshot.correctedCheckIn.time <= punches[2].at
    ensures var moved := Move(punches, CorrectionPunchUpdates(punches, snapshot).value);
            && (|punches| <= 3 ==> Scan(moved).worked == Scan(ByTime(moved)).worked)
            && (|punches| >= 4 ==>
                  && Scan(moved).worked >= Scan(ByTime(moved)).worked
                  && (moved[1].at > punches[2].at ==>
                        Scan(moved).worked >= Scan(ByTime(moved)).worked + Minutes(punches[2].at, punches[3].at))
                  && (Minutes(punches[2].at, punches[3].at) >= 1 ==>
                        (Scan(moved).worked == Scan(ByTime(moved)).worked <==> moved[1].at <= punches[2].at)))
  {
    var moved := Move(punches, CorrectionPunchUpdates(punches, snapshot).value);
    assert |punches| > 2 ==> punches[0].at < punches[2].at;
    hide *;
    StoredBeyondReread(punches, snapshot);
    MovedDay(punches, snapshot);
    CheckInWhereAsked(punches, snapshot);
    TailAlternates(punches);
    MiscountOfOvertaking(moved[0].at, moved[1].at, punches[2..]);
  }

  /** Where a correction leaves the first check-in and the first check-out of an alternating day. */
  lemma CheckInWhereAsked(punches: seq<Punch>, snapshot: Snapshot)
    requires Alternating(punches) && StrictlyInOrder(punches) && DistinctIds(punches) && |punches| >= 2
    requires CorrectionPunchUpdates(punches, snapshot).Ok?
    ensures var moved := Move(punches, CorrectionPunchUpdates(punches, snapshot).value);
            && moved[0].at == (if snapshot.correctedCheckIn.At? then snapshot.correctedCheckIn.time else punches[0].at)
            && moved[1].at ==
                 (if snapshot.correctedCheckOut.At? then snapshot.correctedCheckOut.time else punches[1].at)
  {
    ByTimeOfInOrder(punches);
    CorrectionMovesFirstPunches(punches, snapshot);
    var updates := CorrectionPunchUpdates(punches, snapshot).value;
    assert punches[0].kind == In && punches[1].kind == Out;
    assert FirstOf(Out, punches) == FirstOf(Out, punches[1..]) == Some(punches[1]);
    assert punches[0] in punches && punches[1] in punches;
    hide CorrectionPunchUpdates, ByTime;
    assert MovedPunch(punches[0], updates) == punches[0].(at := Target(punches[0], punches, snapshot));
    assert MovedPunch(punches[1], updates) == punches[1].(at := Target(punches[1], punches, snapshot));
  }

  /**
   * Whatever is moved where: on a closed day of whole intervals the stored minutes are those of the
   * punches exactly when the corrected interval fits between the others.
   */
  lemma IntervalMovedExactly(punches: seq<Punch>, snapshot: Snapshot)
    requires Alternating(punches) && StrictlyInOrder(punches) && DistinctIds(punches) && |punches| >= 2
    requires CorrectionPunchUpdates(punches, snapshot).Ok?
    requires var moved := Move(punches, CorrectionPunchUpdates(punches, snapshot).value);
             WholeIntervals(moved[0].at, moved[1].at, punches[2..])
    ensures var moved := Move(punches, CorrectionPunchUpdates(punches, snapshot).value);
            && Scan(moved).worked >= Scan(ByTime(moved)).worked
            && (Scan(moved).worked == Scan(ByTime(moved)).worked <==>
                  FitsBetween(moved[0].at, moved[1].at, punches[2..]))
  {
    var moved := Move(punches, CorrectionPunchUpdates(punches, snapshot).value);
    StoredBeyondReread(punches, snapshot);
    MovedDay(punches, snapshot);
    TailAlternates(punches);
    hide Scan, ByTime, Move, CorrectionPunchUpdates, Miscount, Minutes;
    MiscountsUnlessFitting(moved[0].at, moved[1].at, punches[2..]);
  }

  /** A corrected interval behind an open check-in is counted from that check-in when read back. */
  lemma BehindOpenCheckIn(checkIn: Punch, checkOut: Punch, open: Punch)
    requires checkIn.kind == In && checkOut.kind == Out && open.kind == In && open.at < checkIn.at <= checkOut.at
    ensures Scan([checkIn, checkOut] + [open]).worked == Minutes(checkIn.at, checkOut.at)
    ensures Scan(ByTime([checkIn, checkOut] + [open])).worked == Minutes(open.at, checkOut.at)
  {
    ListedCounts(checkIn, checkOut, [open]);
    WorkedOfOne(open);
    hide Scan, ByTime, Minutes;
    ListedBeyondReread(checkIn, checkOut, [open]);
  }

  /**
   * A check-in moved past the second one is another matter, even on a day of three punches: in at 0,
   * out at 1 and in at 2, corrected to 10 and 20, stores 10 minutes where the punches amount to 18.
   */
  lemma CheckInMovedPastMiscounts(punches: seq<Punch>, snapshot: Snapshot)
    requires punches == [Punch(1, In, 0), Punch(2, Out, MINUTE), Punch(3, In, 2 * MINUTE)]
    requires snapshot == Snapshot(At(10 * MINUTE), At(20 * MINUTE), None, false, None)
    ensures Alternating(punches) && StrictlyInOrder(punches) && DistinctIds(punches)
    ensures CorrectionPunchUpdates(punches, snapshot).Ok?
    ensures var moved := Move(punches, CorrectionPunchUpdates(punches, snapshot).value);
            Scan(moved).worked == 10 && Scan(ByTime(moved)).worked == 18
  {
    AcceptsMovedPast(punches, snapshot);
    var updates := CorrectionPunchUpdates(punches, snapshot).value;
    CheckInWhereAsked(punches, snapshot);
    MovedDay(punches, snapshot);
    CorrectionMovesFirstPunches(punches, snapshot);
    MoveKeepsKinds(punches, updates, 0);
    MoveKeepsKinds(punches, updates, 1);
    hide CorrectionPunchUpdates, Move, Scan, ByTime;
    var moved := Move(punches, updates);
    assert moved == [moved[0], moved[1]] + [moved[2]];
    BehindOpenCheckIn(moved[0], moved[1], moved[2]);
  }

  lemma AcceptsMovedPast(punches: seq<Punch>, snapshot: Snapshot)
    requires punches == [Punch(1, In, 0), Punch(2, Out, MINUTE), Punch(3, In, 2 * MINUTE)]
    requires snapshot == Snapshot(At(10 * MINUTE), At(20 * MINUTE), None, false, None)
    ensures CorrectionPunchUpdates(punches, snapshot).Ok?
  {
    ByTimeOfInOrder(punches);
    assert FirstOf(In, punches) == Some(punches[0]);
    assert FirstOf(Out, punches) == FirstOf(Out, punches[1..]) == Some(punches[1]);
    hide ByTime;
  }
}
