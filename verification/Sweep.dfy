/**
 * Closing the days nobody checked out of. The sweep proposes and never decides: for each due day it
 * raises the ordinary missing check-out, and a person does the rest.
 */
module Sweep {
  import opened Common
  import opened Totals
  import opened PunchMoves
  import opened MissingCheckOut
  import opened Policies
  import opened HolidayConflict
  import opened Engine
  import opened CorrectionMachine
  import WallClock

  /** No sweep reads more days than this, nor days longer ago. */
  const BATCH: nat := 200
  const LOOK_BACK_DAYS: int := 3

  datatype Outcome = Outcome(closed: nat, skippedNightShift: nat, skippedAlreadyPending: nat, failed: nat)

  const NOTHING := Outcome(0, 0, 0, 0)

  function Add(left: Outcome, right: Outcome): Outcome {
    Outcome(left.closed + right.closed, left.skippedNightShift + right.skippedNightShift,
            left.skippedAlreadyPending + right.skippedAlreadyPending, left.failed + right.failed)
  }

  /** The organization's cutoff on its own clock, and the days whose shift crosses midnight. */
  datatype Closing = Closing(hour: int, minute: int, zone: WallClock.Zone, nightShifts: set<Key>)

  ghost predicate ValidCutoff(closing: Closing) { 0 <= closing.hour < 24 && 0 <= closing.minute < 60 }

  function CloseAt(key: Key, closing: Closing): int {
    WallClock.TwoPass(WallClock.ClockTime(key.date, closing.hour, closing.minute), closing.zone)
  }

  /** A cutoff is always a readable time, so the close of a day always exists. */
  lemma CloseAtIsInstant(key: Key, closing: Closing)
    requires ValidCutoff(closing)
    ensures WallClock.InstantAtLocalTime(key.date, closing.hour, closing.minute, closing.zone) ==
              Ok(CloseAt(key, closing))
  {
  }

  predicate EndsOpen(s: State, key: Key) { key in s.records && HasOpenPunch(ByTime(s.records[key].punches)) }

  /** What one day comes to, in its own transaction: one that cannot be routed changes nothing. */
  function CloseDay(org: Organization, request: Request, s: State, key: Key, closing: Closing): (r: (State, Outcome))
    requires key in s.records
    ensures OnlyProposes(s, r.0)
  {
    if !EndsOpen(s, key) then (s, NOTHING)
    else if key in closing.nightShifts then (s, NOTHING.(skippedNightShift := 1))
    else if MissingCheckOutPending(s, key) then (s, NOTHING.(skippedAlreadyPending := 1))
    else
      match CreateCorrection(org, request, s, key, AutoCloseSnapshot(s.records[key], CloseAt(key, closing)))
      case Ok(t) => (t, NOTHING.(closed := 1))
      case Err(_) => (s, NOTHING.(failed := 1))
  }

  ghost predicate AllRecorded(s: State, days: seq<Key>) { forall i :: 0 <= i < |days| ==> days[i] in s.records }

  /** The days in the order read, each due one closed after those before it. */
  function SweepDays(org: Organization, request: Request, s: State, days: seq<Key>,
      closing: Closing): (r: (State, Outcome))
    requires AllRecorded(s, days)
    ensures OnlyProposes(s, r.0)
  {
    if days == [] then (s, NOTHING)
    else
      var before := SweepDays(org, request, s, days[..|days| - 1], closing);
      var key := days[|days| - 1];
      if request.now < CloseAt(key, closing) then before
      else
        var day := CloseDay(org, request, before.0, key, closing);
        (day.0, Add(before.1, day.1))
  }

  // ---- Which days are read ----

  predicate IsOpenDay(s: State, today: int, key: Key) {
    key in s.records && s.records[key].status.Open? && today - LOOK_BACK_DAYS <= key.date <= today
  }

  function OpenDays(s: State, today: int): set<Key> { set key | key in s.records && IsOpenDay(s, today, key) }

  /** The query: open days in the look-back window, oldest first, at most a batch of them. */
  ghost predicate ReadsOpenDays(s: State, today: int, days: seq<Key>) {
    && Distinct(days) && |days| <= BATCH
    && (forall i :: 0 <= i < |days| ==> IsOpenDay(s, today, days[i]))
    && (forall i, j :: 0 <= i < j < |days| ==> days[i].date <= days[j].date)
    && (forall key :: IsOpenDay(s, today, key) && key !in days ==> |days| == BATCH && days[BATCH - 1].date <= key.date)
  }

  /** No more than two hundred days are read, all of them OPEN and none more than three days old, oldest first. */
  lemma ReadsABatch(s: State, today: int, days: seq<Key>)
    requires ReadsOpenDays(s, today, days)
    ensures |days| <= 200 && forall i, j :: 0 <= i < j < |days| ==> days[i] != days[j] && days[i].date <= days[j].date
    ensures forall key :: key in days ==>
              key in s.records && s.records[key].status == Open && 0 <= today - key.date <= 3
  {
    forall key | key in days ensures IsOpenDay(s, today, key) {
      var i :| 0 <= i < |days| && days[i] == key;
    }
  }

  /** With no more open days than a batch holds, the query reads them all. */
  lemma AllOpenDaysAreRead(s: State, today: int, days: seq<Key>)
    requires ReadsOpenDays(s, today, days) && |OpenDays(s, today)| <= BATCH
    ensures forall key :: key in days <==> IsOpenDay(s, today, key)
  {
    MembersOfDistinct(days);
    SubsetSize(Members(days), OpenDays(s, today));
    forall key ensures key in days <==> IsOpenDay(s, today, key) {
      assert key in days <==> key in Members(days);
      if |days| == BATCH { assert key in OpenDays(s, today) <==> key in Members(days); }
    }
  }

  // ---- It proposes, and never decides ----

  /** Every correction that was there is as it was, and every new one awaits its first decision. */
  ghost predicate OnlyRaises(s: State, t: State) {
    && (forall id :: id in s.corrections ==> id in t.corrections && t.corrections[id] == s.corrections[id])
    && (forall id :: id in t.corrections && id !in s.corrections ==>
          t.corrections[id].status.Undecided? && t.corrections[id].approvals == [] && t.corrections[id].after.autoClosed
          && t.corrections[id].key in s.records && EndsOpen(s, t.corrections[id].key))
  }

  lemma CreateRaises(org: Organization, request: Request, s: State, key: Key, after: Snapshot)
    requires key in s.records && RowsInPlace(s) && EndsOpen(s, key) && after.autoClosed
    requires CreateCorrection(org, request, s, key, after).Ok?
    ensures var t := CreateCorrection(org, request, s, key, after).value;
            RowsInPlace(t) && OnlyRaises(s, t) && |t.corrections| == |s.corrections| + 1
  {
    hide RouteRefusal, EndsOpen, CorrectionPolicy;
    assert s.nextId !in s.corrections;
  }

  lemma RaisesNothing(s: State)
    ensures OnlyRaises(s, s)
  {
  }

  lemma RaisesTransitive(s: State, t: State, u: State)
    requires OnlyProposes(s, t) && OnlyRaises(s, t) && OnlyRaises(t, u)
    ensures OnlyRaises(s, u)
  {
  }

  /** Either the day was raised, or nothing happened to it. */
  lemma RaisedOrLeft(org: Organization, request: Request, s: State, key: Key, closing: Closing)
    requires key in s.records
    ensures var r := CloseDay(org, request, s, key, closing);
            var created := CreateCorrection(org, request, s, key,
                                            AutoCloseSnapshot(s.records[key], CloseAt(key, closing)));
            if r.1.closed == 0 then r.0 == s
            else r.1.closed == 1 && EndsOpen(s, key) && created.Ok? && r.0 == created.value
  {
  }

  lemma CloseDayRaises(org: Organization, request: Request, s: State, key: Key, closing: Closing)
    requires key in s.records && RowsInPlace(s)
    ensures var r := CloseDay(org, request, s, key, closing);
            && RowsInPlace(r.0) && OnlyRaises(s, r.0)
            && |r.0.corrections| == |s.corrections| + r.1.closed
  {
    hide CreateCorrection, RowsInPlace, EndsOpen, CloseAt, OnlyRaises, OnlyProposes, CloseDay;
    RaisesNothing(s);
    RaisedOrLeft(org, request, s, key, closing);
    if CloseDay(org, request, s, key, closing).1.closed == 1 {
      CreateRaises(org, request, s, key, AutoCloseSnapshot(s.records[key], CloseAt(key, closing)));
    }
  }

  /**
   * A sweep touches no punch, status, minutes, selection, review, policy or payroll run, and no
   * correction that was there; it raises as many new ones as it counts closed.
   */
  lemma {:induction false} SweepOnlyProposes(org: Organization, request: Request, s: State, days: seq<Key>,
      closing: Closing)
    requires AllRecorded(s, days) && RowsInPlace(s)
    ensures var r := SweepDays(org, request, s, days, closing);
            && r.0 == s.(corrections := r.0.corrections, nextId := r.0.nextId)
            && RowsInPlace(r.0) && OnlyRaises(s, r.0)
            && |r.0.corrections| == |s.corrections| + r.1.closed
  {
    if days != [] {
      SweepOnlyProposes(org, request, s, days[..|days| - 1], closing);
      hide CloseDay, CloseAt, RowsInPlace, OnlyRaises;
      var before, last := SweepDays(org, request, s, days[..|days| - 1], closing), days[|days| - 1];
      CloseDayRaises(org, request, before.0, last, closing);
      RaisesTransitive(s, before.0, CloseDay(org, request, before.0, last, closing).0);
    } else {
      RaisesNothing(s);
    }
  }

  // ---- Nothing due is missed, and everything is counted ----

  predicate Due(s: State, now: int, key: Key, closing: Closing) { CloseAt(key, closing) <= now && EndsOpen(s, key) }

  ghost function DueDays(s: State, now: int, days: seq<Key>, closing: Closing): nat {
    if days == [] then 0
    else DueDays(s, now, days[..|days| - 1], closing) + if Due(s, now, days[|days| - 1], closing) then 1 else 0
  }

  /** The four counters add up to the due days whose last punch is a check-in. */
  lemma {:induction false} CountersCoverDueDays(org: Organization, request: Request, s: State, days: seq<Key>,
      closing: Closing)
    requires AllRecorded(s, days)
    ensures var o := SweepDays(org, request, s, days, closing).1;
            o.closed + o.skippedNightShift + o.skippedAlreadyPending + o.failed ==
              DueDays(s, request.now, days, closing)
  {
    if days != [] {
      CountersCoverDueDays(org, request, s, days[..|days| - 1], closing);
      hide ByTime, CreateCorrection, MissingCheckOutPending;
    }
  }

  lemma StillPending(s: State, t: State, key: Key)
    requires OnlyRaises(s, t) && MissingCheckOutPending(s, key)
    ensures MissingCheckOutPending(t, key)
  {
  }

  lemma ClosedIsPending(org: Organization, request: Request, s: State, key: Key, closing: Closing)
    requires key in s.records && EndsOpen(s, key) && key !in closing.nightShifts
    ensures var r := CloseDay(org, request, s, key, closing); r.1.failed == 0 ==> MissingCheckOutPending(r.0, key)
  {
    var r := CloseDay(org, request, s, key, closing);
    if r.1.closed == 1 {
      assert Proposes(r.0, s.nextId, key);
    }
  }

  /** A day a sweep is done with: nothing is due on it, or its check-out is proposed, or it cannot be routed. */
  ghost predicate NothingLeft(org: Organization, request: Request, s: State, key: Key, closing: Closing) {
    && key in s.records
    && (Due(s, request.now, key, closing) && key !in closing.nightShifts && !MissingCheckOutPending(s, key) ==>
          RouteRefusal(org, request, s, key).Some?)
  }

  lemma CloseDayLeavesNothing(org: Organization, request: Request, s: State, key: Key, closing: Closing)
    requires key in s.records
    ensures NothingLeft(org, request, CloseDay(org, request, s, key, closing).0, key, closing)
  {
    if EndsOpen(s, key) && key !in closing.nightShifts { ClosedIsPending(org, request, s, key, closing); }
    hide ByTime, CloseAt, MissingCheckOutPending;
  }

  lemma NothingLeftStays(org: Organization, request: Request, s: State, t: State, key: Key, closing: Closing)
    requires NothingLeft(org, request, s, key, closing) && OnlyProposes(s, t) && OnlyRaises(s, t)
    ensures NothingLeft(org, request, t, key, closing)
  {
  }

  /** One more day leaves nothing for itself, and nothing more for the days before it. */
  lemma OneMoreDayLeavesNothing(org: Organization, request: Request, s: State, front: seq<Key>, last: Key,
      closing: Closing)
    requires RowsInPlace(s) && last in s.records
    requires forall i :: 0 <= i < |front| ==> NothingLeft(org, request, s, front[i], closing)
    ensures forall i :: 0 <= i < |front| ==>
              NothingLeft(org, request, CloseDay(org, request, s, last, closing).0, front[i], closing)
    ensures NothingLeft(org, request, CloseDay(org, request, s, last, closing).0, last, closing)
  {
    CloseDayRaises(org, request, s, last, closing);
    CloseDayLeavesNothing(org, request, s, last, closing);
    hide CloseDay, NothingLeft, OnlyRaises;
    forall i | 0 <= i < |front|
      ensures NothingLeft(org, request, CloseDay(org, request, s, last, closing).0, front[i], closing)
    {
      NothingLeftStays(org, request, s, CloseDay(org, request, s, last, closing).0, front[i], closing);
    }
  }

  lemma {:induction false} SweepLeavesNothing(org: Organization, request: Request, s: State, days: seq<Key>,
      closing: Closing)
    requires AllRecorded(s, days) && RowsInPlace(s)
    ensures forall i :: 0 <= i < |days| ==>
              NothingLeft(org, request, SweepDays(org, request, s, days, closing).0, days[i], closing)
  {
    if days != [] {
      var front, last := days[..|days| - 1], days[|days| - 1];
      var before := SweepDays(org, request, s, front, closing);
      var after := SweepDays(org, request, s, days, closing).0;
      assert request.now >= CloseAt(last, closing) ==> after == CloseDay(org, request, before.0, last, closing).0;
      assert request.now < CloseAt(last, closing) ==> after == before.0;
      hide SweepDays, CloseDay;
      SweepLeavesNothing(org, request, s, front, closing);
      SweepOnlyProposes(org, request, s, front, closing);
      assert request.now < CloseAt(last, closing) ==> NothingLeft(org, request, before.0, last, closing);
      hide CloseAt, OnlyProposes, NothingLeft, OnlyRaises, RowsInPlace;
      OneMoreDayLeavesNothing(org, request, before.0, front, last, closing);
      forall i | 0 <= i < |days| ensures NothingLeft(org, request, after, days[i], closing) {
        assert days[i] == if i < |front| then front[i] else last;
      }
    }
  }

  /** What is new after a sweep lies on the days it read. */
  ghost predicate RaisesOn(s: State, t: State, days: seq<Key>) {
    forall id :: id in t.corrections && id !in s.corrections ==> t.corrections[id].key in days
  }

  /** The corrections there were are still there as they were. */
  ghost predicate KeepsCorrections(s: State, t: State) {
    forall id :: id in s.corrections ==> id in t.corrections && t.corrections[id] == s.corrections[id]
  }

  lemma CloseDayRaisesOn(org: Organization, request: Request, s: State, key: Key, closing: Closing)
    requires key in s.records && RowsInPlace(s)
    ensures RaisesOn(s, CloseDay(org, request, s, key, closing).0, [key])
    ensures KeepsCorrections(s, CloseDay(org, request, s, key, closing).0)
  {
    RaisedOrLeft(org, request, s, key, closing);
    CloseDayRaises(org, request, s, key, closing);
    hide CloseDay, RouteRefusal, EndsOpen, CloseAt, OnlyProposes;
  }

  lemma RaisesOnMore(s: State, t: State, u: State, front: seq<Key>, last: Key)
    requires RaisesOn(s, t, front) && RaisesOn(t, u, [last])
    requires KeepsCorrections(t, u)
    ensures RaisesOn(s, u, front + [last]) && RaisesOn(s, t, front + [last])
  {
  }

  lemma {:induction false} SweepRaisesOnDaysRead(org: Organization, request: Request, s: State, days: seq<Key>,
      closing: Closing)
    requires AllRecorded(s, days) && RowsInPlace(s)
    ensures RaisesOn(s, SweepDays(org, request, s, days, closing).0, days)
  {
    if days != [] {
      var front, last := days[..|days| - 1], days[|days| - 1];
      var before, after := SweepDays(org, request, s, front, closing).0, SweepDays(org, request, s, days, closing).0;
      var closed := CloseDay(org, request, before, last, closing).0;
      assert after == before || after == closed;
      assert days == front + [last] && AllRecorded(s, front) && last in s.records;
      hide SweepDays, CloseDay, CloseAt, AllRecorded;
      SweepRaisesOnDaysRead(org, request, s, front, closing);
      SweepOnlyProposes(org, request, s, front, closing);
      hide OnlyProposes, OnlyRaises, RaisesOn, KeepsCorrections, RowsInPlace;
      CloseDayRaisesOn(org, request, before, last, closing);
      RaisesOnMore(s, before, closed, front, last);
    }
  }

  /** No correction is raised but on a day that can be routed. */
  ghost predicate RaisesRouted(org: Organization, request: Request, s: State, t: State) {
    forall id :: id in t.corrections && id !in s.corrections ==>
      t.corrections[id].key in s.records && RouteRefusal(org, request, s, t.corrections[id].key) == None
  }

  lemma CloseDayRaisesRouted(org: Organization, request: Request, s: State, key: Key, closing: Closing)
    requires key in s.records && RowsInPlace(s)
    ensures RaisesRouted(org, request, s, CloseDay(org, request, s, key, closing).0)
  {
    RaisedOrLeft(org, request, s, key, closing);
    CloseDayRaises(org, request, s, key, closing);
    hide CloseDay, RouteRefusal, EndsOpen, CloseAt, OnlyProposes, OnlyRaises;
  }

  lemma RoutesAlike(org: Organization, request: Request, s: State, t: State, key: Key)
    requires OnlyProposes(s, t) && key in s.records
    ensures RouteRefusal(org, request, t, key) == RouteRefusal(org, request, s, key)
  {
    hide CorrectionPolicy;
  }

  lemma RaisesRoutedMore(org: Organization, request: Request, s: State, t: State, u: State)
    requires OnlyProposes(s, t) && RaisesRouted(org, request, s, t) && RaisesRouted(org, request, t, u)
    requires KeepsCorrections(t, u)
    ensures RaisesRouted(org, request, s, u)
  {
    forall key | key in s.records ensures RouteRefusal(org, request, t, key) == RouteRefusal(org, request, s, key) {
      RoutesAlike(org, request, s, t, key);
    }
    hide RouteRefusal;
  }

  lemma {:induction false} SweepRaisesRouted(org: Organization, request: Request, s: State, days: seq<Key>,
      closing: Closing)
    requires AllRecorded(s, days) && RowsInPlace(s)
    ensures RaisesRouted(org, request, s, SweepDays(org, request, s, days, closing).0)
  {
    if days != [] {
      var front, last := days[..|days| - 1], days[|days| - 1];
      var before, after := SweepDays(org, request, s, front, closing).0, SweepDays(org, request, s, days, closing).0;
      var closed := CloseDay(org, request, before, last, closing).0;
      assert after == before || after == closed;
      assert AllRecorded(s, front) && last in s.records;
      hide SweepDays, CloseDay, CloseAt, AllRecorded, RouteRefusal;
      SweepRaisesRouted(org, request, s, front, closing);
      SweepOnlyProposes(org, request, s, front, closing);
      hide OnlyRaises, RaisesRouted, KeepsCorrections, RowsInPlace;
      CloseDayRaisesOn(org, request, before, last, closing);
      CloseDayRaisesRouted(org, request, before, last, closing);
      RaisesRoutedMore(org, request, s, before, closed);
    }
  }

  /**
   * Exactly which days are proposed, however many there are and whatever fails: a due day-shift day
   * left open has a check-out pending after the sweep exactly when it had one before, or was read and
   * can be routed.
   */
  lemma ProposedIfRead(org: Organization, request: Request, s: State, days: seq<Key>, closing: Closing, key: Key)
    requires RowsInPlace(s) && AllRecorded(s, days)
    requires Due(s, request.now, key, closing) && key !in closing.nightShifts
    ensures MissingCheckOutPending(SweepDays(org, request, s, days, closing).0, key) <==>
              || MissingCheckOutPending(s, key)
              || (key in days && RouteRefusal(org, request, s, key) == None)
  {
    var t := SweepDays(org, request, s, days, closing).0;
    SweepOnlyProposes(org, request, s, days, closing);
    SweepRaisesOnDaysRead(org, request, s, days, closing);
    SweepRaisesRouted(org, request, s, days, closing);
    SweepLeavesNothing(org, request, s, days, closing);
    RoutesAlike(org, request, s, t, key);
    assert key in days ==> NothingLeft(org, request, t, key, closing);
    hide SweepDays, RowsInPlace, RouteRefusal, CloseAt, ByTime;
    if MissingCheckOutPending(s, key) { StillPending(s, t, key); }
    if MissingCheckOutPending(t, key) && !MissingCheckOutPending(s, key) {
      var id :| id in t.corrections && Proposes(t, id, key);
      assert id in s.corrections ==> Proposes(s, id, key);
    }
  }

  /**
   * With at most a batch of open days in the look-back window, every due day shift that ends on a
   * check-in and can be routed has a missing check-out awaiting a decision after the sweep.
   */
  lemma EveryDueDayIsProposed(org: Organization, request: Request, s: State, today: int, days: seq<Key>,
      closing: Closing)
    requires RowsInPlace(s) && ReadsOpenDays(s, today, days) && |OpenDays(s, today)| <= 200
    ensures forall key :: IsOpenDay(s, today, key) && Due(s, request.now, key, closing)
                          && key !in closing.nightShifts && RouteRefusal(org, request, s, key) == None ==>
                            MissingCheckOutPending(SweepDays(org, request, s, days, closing).0, key)
  {
    AllOpenDaysAreRead(s, today, days);
    hide SweepDays, MissingCheckOutPending, Due, RouteRefusal;
    forall key | IsOpenDay(s, today, key) && Due(s, request.now, key, closing)
                 && key !in closing.nightShifts && RouteRefusal(org, request, s, key) == None
      ensures MissingCheckOutPending(SweepDays(org, request, s, days, closing).0, key)
    {
      ProposedIfRead(org, request, s, days, closing, key);
    }
  }

  /**
   * So with at most a batch of open days in the window, a day that can be routed is proposed exactly
   * when its status is OPEN, which an approved correction takes away from a day still left on its
   * check-in.
   */
  lemma ProposedIfOpen(org: Organization, request: Request, s: State, today: int, days: seq<Key>, closing: Closing,
      key: Key)
    requires RowsInPlace(s) && ReadsOpenDays(s, today, days) && |OpenDays(s, today)| <= 200
    requires today - 3 <= key.date <= today && Due(s, request.now, key, closing) && key !in closing.nightShifts
    ensures key in s.records
    ensures MissingCheckOutPending(SweepDays(org, request, s, days, closing).0, key) <==>
              || MissingCheckOutPending(s, key)
              || (s.records[key].status == Open && RouteRefusal(org, request, s, key) == None)
  {
    AllOpenDaysAreRead(s, today, days);
    ProposedIfRead(org, request, s, days, closing, key);
  }

  // ---- A second sweep ----

  lemma {:induction false} NothingLeftNothingDone(org: Organization, request: Request, s: State, days: seq<Key>,
      closing: Closing)
    requires forall i :: 0 <= i < |days| ==> NothingLeft(org, request, s, days[i], closing)
    ensures AllRecorded(s, days)
    ensures SweepDays(org, request, s, days, closing).0 == s && SweepDays(org, request, s, days, closing).1.closed == 0
  {
    if days != [] {
      NothingLeftNothingDone(org, request, s, days[..|days| - 1], closing);
      assert NothingLeft(org, request, s, days[|days| - 1], closing);
      hide ByTime, CloseAt, MissingCheckOutPending, RouteRefusal;
    }
  }

  /** A second sweep over any of the same days, in any order, raises nothing and changes nothing, failures or not. */
  lemma SecondSweepDoesNothing(org: Organization, request: Request, s: State, days: seq<Key>, again: seq<Key>,
      closing: Closing)
    requires AllRecorded(s, days) && RowsInPlace(s) && forall key :: key in again ==> key in days
    ensures var first := SweepDays(org, request, s, days, closing);
            && AllRecorded(first.0, again)
            && SweepDays(org, request, first.0, again, closing).0 == first.0
            && SweepDays(org, request, first.0, again, closing).1.closed == 0
  {
    var t := SweepDays(org, request, s, days, closing).0;
    SweepLeavesNothing(org, request, s, days, closing);
    hide SweepDays, NothingLeft;
    forall i | 0 <= i < |again| ensures NothingLeft(org, request, t, again[i], closing) {
      assert again[i] in days;
    }
    NothingLeftNothingDone(org, request, t, again, closing);
  }

  /** With at most a batch of open days, that holds of whatever the second sweep reads. */
  lemma RereadSweepDoesNothing(org: Organization, request: Request, s: State, today: int, days: seq<Key>,
      again: seq<Key>, closing: Closing)
    requires RowsInPlace(s) && ReadsOpenDays(s, today, days) && |OpenDays(s, today)| <= BATCH
    requires ReadsOpenDays(SweepDays(org, request, s, days, closing).0, today, again)
    ensures var first := SweepDays(org, request, s, days, closing);
            && AllRecorded(first.0, again)
            && SweepDays(org, request, first.0, again, closing).0 == first.0
            && SweepDays(org, request, first.0, again, closing).1.closed == 0
  {
    AllOpenDaysAreRead(s, today, days);
    forall key | key in again ensures key in days {
      var i :| 0 <= i < |again| && again[i] == key;
      assert IsOpenDay(SweepDays(org, request, s, days, closing).0, today, again[i]);
      assert IsOpenDay(s, today, key);
    }
    SecondSweepDoesNothing(org, request, s, days, again, closing);
  }

  // ---- One proposal a day ----

  ghost predicate OneProposal(s: State) {
    forall a, b, key :: Proposes(s, a, key) && Proposes(s, b, key) ==> a == b
  }

  /** A general correction that smuggles in a check-out where one is pending already. */
  predicate DoublesProposal(s: State, a: Action) {
    a.DoRequestCorrection? && a.after.Some? && a.after.value.missingCheckOut.Some? && MissingCheckOutPending(s, a.key)
  }

  lemma CreatedProposal(org: Organization, request: Request, s: State, key: Key, after: Snapshot)
    requires RowsInPlace(s) && OneProposal(s) && key in s.records && CreateCorrection(org, request, s, key, after).Ok?
    ensures OneProposal(CreateCorrection(org, request, s, key, after).value)
       <==> !(after.missingCheckOut.Some? && MissingCheckOutPending(s, key))
  {
    hide RouteRefusal, CorrectionPolicy;
    var t := CreateCorrection(org, request, s, key, after).value;
    forall id, k ensures Proposes(t, id, k) <==>
        Proposes(s, id, k) || (id == s.nextId && k == key && after.missingCheckOut.Some?) {}
    if after.missingCheckOut.Some? && MissingCheckOutPending(s, key) {
      var id :| id in s.corrections && Proposes(s, id, key);
      assert Proposes(t, id, key) && Proposes(t, s.nextId, key);
    }
    assert forall id :: Proposes(s, id, key) ==> MissingCheckOutPending(s, key);
  }

  /** A step that raises no new proposal keeps at most one. */
  lemma NoNewProposal(s: State, t: State)
    requires OneProposal(s) && forall id, key :: Proposes(t, id, key) ==> Proposes(s, id, key)
    ensures OneProposal(t)
  {
  }

  lemma DecideRaisesNone(org: Organization, request: Request, s: State, id: nat, approve: bool,
      replacement: Replacement, other: nat, key: Key)
    requires Decide(org, request, s, id, approve, replacement).Ok?
    requires Proposes(Decide(org, request, s, id, approve, replacement).value, other, key)
    ensures Proposes(s, other, key)
  {
    hide CorrectedPunches, Payroll.MarkPayrollStale;
  }

  lemma PunchRaisesNone(org: Organization, request: Request, s: State, day: Key, kind: PunchKind, at: int,
      dayStatus: Option<DayStatus>, branch: Option<nat>, reviewRequired: bool, other: nat, key: Key)
    requires PunchIn(org, request, s, day, kind, at, dayStatus, branch, reviewRequired).Ok?
    requires Proposes(PunchIn(org, request, s, day, kind, at, dayStatus, branch, reviewRequired).value, other, key)
    ensures Proposes(s, other, key)
  {
  }

  /**
   * At most one missing check-out is pending for a day, exactly as long as no general correction
   * carries one for a day that has one pending: that path does not look.
   */
  lemma OneProposalKeptExactly(org: Organization, request: Request, s: State, a: Action)
    requires RowsInPlace(s) && OneProposal(s) && Perform(org, request, s, a).Ok?
    ensures OneProposal(Perform(org, request, s, a).value) <==> !DoublesProposal(s, a)
  {
    hide PunchIn, Decide, DecideReview, RequestReview, CreateCorrection;
    hide SelectHoliday, CancelSelection, SetHolidayActive, EditPolicy, CreateRun, CalculateRun, AdvanceRun;
    hide RowsInPlace, OneProposal, AssertValidMissingCheckOut, NextPunchAfterOpenCheckIn, DaysOf, ByTime;
    hide MissingCheckOutPending;
    var t := Perform(org, request, s, a).value;
    match a
    case DoRequestCorrection(key, after) =>
      CreatedProposal(org, request, s, key, if after.Some? then after.value else RecordSnapshot(s.records[key]));
    case DoRequestMissingCheckOut(key, checkOut) =>
      CreatedProposal(org, request, s, key, RecordSnapshot(s.records[key]).(missingCheckOut := Some(checkOut)));
    case DoAutoClose(key, closeAt) => CreatedProposal(org, request, s, key, AutoCloseSnapshot(s.records[key], closeAt));
    case DoPunch(day, kind, at, dayStatus, branch, reviewRequired) =>
      forall id, key | Proposes(t, id, key) ensures Proposes(s, id, key) {
        PunchRaisesNone(org, request, s, day, kind, at, dayStatus, branch, reviewRequired, id, key);
      }
      NoNewProposal(s, t);
    case DoDecide(id, approve, replacement) =>
      forall other, key | Proposes(t, other, key) ensures Proposes(s, other, key) {
        DecideRaisesNone(org, request, s, id, approve, replacement, other, key);
      }
      NoNewProposal(s, t);
    case _ => NoNewProposal(s, t);
  }

  // ---- What the counters and the proposals mean ----

  ghost function DueNightShifts(s: State, now: int, days: seq<Key>, closing: Closing): nat {
    if days == [] then 0
    else
      var last := days[|days| - 1];
      DueNightShifts(s, now, days[..|days| - 1], closing)
      + if Due(s, now, last, closing) && last in closing.nightShifts then 1 else 0
  }

  /** Night shifts are left to a person: every due one is counted as such, and no other day. */
  lemma {:induction false} NightShiftsAreLeftAlone(org: Organization, request: Request, s: State, days: seq<Key>,
      closing: Closing)
    requires AllRecorded(s, days)
    ensures SweepDays(org, request, s, days, closing).1.skippedNightShift ==
              DueNightShifts(s, request.now, days, closing)
  {
    if days != [] {
      NightShiftsAreLeftAlone(org, request, s, days[..|days| - 1], closing);
      hide ByTime, CreateCorrection, MissingCheckOutPending;
    }
  }

  /** A day the sweep would propose: due, of a day shift, and with nothing pending. */
  ghost predicate Unproposed(s: State, now: int, key: Key, closing: Closing) {
    Due(s, now, key, closing) && key !in closing.nightShifts && !MissingCheckOutPending(s, key)
  }

  /** Due day-shift days with a check-out pending already when the sweep gets to them. */
  ghost function PendingWhenReached(org: Organization, request: Request, s: State, days: seq<Key>,
      closing: Closing): nat
    requires AllRecorded(s, days)
  {
    if days == [] then 0
    else
      var front, last := days[..|days| - 1], days[|days| - 1];
      PendingWhenReached(org, request, s, front, closing)
      + if Due(s, request.now, last, closing) && last !in closing.nightShifts
           && MissingCheckOutPending(SweepDays(org, request, s, front, closing).0, last)
        then 1 else 0
  }

  /** Due day-shift days with none pending by then, that cannot be routed. */
  ghost function RefusedWhenReached(org: Organization, request: Request, s: State, days: seq<Key>,
      closing: Closing): nat
    requires AllRecorded(s, days)
  {
    if days == [] then 0
    else
      var front, last := days[..|days| - 1], days[|days| - 1];
      RefusedWhenReached(org, request, s, front, closing)
      + if Unproposed(SweepDays(org, request, s, front, closing).0, request.now, last, closing)
           && RouteRefusal(org, request, s, last).Some?
        then 1 else 0
  }

  /** What one more day does to each counter. */
  lemma OneMoreCounted(org: Organization, request: Request, s: State, days: seq<Key>, closing: Closing)
    requires AllRecorded(s, days) && days != []
    ensures var front, last := days[..|days| - 1], days[|days| - 1];
            var before, after := SweepDays(org, request, s, front, closing), SweepDays(org, request, s, days, closing);
            var due := Due(s, request.now, last, closing) && last !in closing.nightShifts;
            var pending := MissingCheckOutPending(before.0, last);
            var refused := RouteRefusal(org, request, s, last).Some?;
            && after.1.skippedAlreadyPending == before.1.skippedAlreadyPending + (if due && pending then 1 else 0)
            && after.1.failed == before.1.failed + (if due && !pending && refused then 1 else 0)
            && after.1.closed == before.1.closed + (if due && !pending && !refused then 1 else 0)
            && (Due(before.0, request.now, last, closing) <==> Due(s, request.now, last, closing))
  {
    var front, last := days[..|days| - 1], days[|days| - 1];
    var before := SweepDays(org, request, s, front, closing);
    RoutesAlike(org, request, s, before.0, last);
    hide ByTime, MissingCheckOutPending, RouteRefusal, CloseAt;
  }

  /** Days found pending are counted as pending, and days that cannot be routed as failed, and nothing else is. */
  lemma {:induction false} SkippedAndFailedCounted(org: Organization, request: Request, s: State, days: seq<Key>,
      closing: Closing)
    requires AllRecorded(s, days)
    ensures var o := SweepDays(org, request, s, days, closing).1;
            && o.skippedAlreadyPending == PendingWhenReached(org, request, s, days, closing)
            && o.failed == RefusedWhenReached(org, request, s, days, closing)
  {
    if days != [] {
      SkippedAndFailedCounted(org, request, s, days[..|days| - 1], closing);
      OneMoreCounted(org, request, s, days, closing);
      hide SweepDays, MissingCheckOutPending, RouteRefusal, Due;
    }
  }

  /** How many of these days are as this test says. */
  ghost function Number(days: seq<Key>, test: Key -> bool): nat {
    if days == [] then 0 else Number(days[..|days| - 1], test) + if test(days[|days| - 1]) then 1 else 0
  }

  lemma PendingElsewhere(org: Organization, request: Request, s: State, days: seq<Key>, closing: Closing, key: Key)
    requires AllRecorded(s, days) && RowsInPlace(s) && key !in days
    ensures MissingCheckOutPending(SweepDays(org, request, s, days, closing).0, key) <==> MissingCheckOutPending(s, key)
  {
    var t := SweepDays(org, request, s, days, closing).0;
    SweepOnlyProposes(org, request, s, days, closing);
    SweepRaisesOnDaysRead(org, request, s, days, closing);
    hide SweepDays, RowsInPlace;
    if MissingCheckOutPending(s, key) { StillPending(s, t, key); }
    if MissingCheckOutPending(t, key) {
      var id :| id in t.corrections && Proposes(t, id, key);
      assert Proposes(s, id, key);
    }
  }

  /**
   * Read once each, as the query reads them, the days count as they stood before the sweep: pending
   * where a check-out was pending, failed where none was and routing refuses, closed where it does not.
   */
  lemma {:induction false} CountersReadOff(org: Organization, request: Request, s: State, days: seq<Key>,
      closing: Closing)
    requires AllRecorded(s, days) && RowsInPlace(s) && Distinct(days)
    ensures var o := SweepDays(org, request, s, days, closing).1;
            && o.skippedAlreadyPending == Number(days, key => Due(s, request.now, key, closing)
                 && key !in closing.nightShifts && MissingCheckOutPending(s, key))
            && o.failed == Number(days, key => key in s.records && Unproposed(s, request.now, key, closing)
                 && RouteRefusal(org, request, s, key).Some?)
            && o.closed == Number(days, key => key in s.records && Unproposed(s, request.now, key, closing)
                 && RouteRefusal(org, request, s, key).None?)
  {
    if days != [] {
      var front, last := days[..|days| - 1], days[|days| - 1];
      forall i | 0 <= i < |front| ensures front[i] != last { assert days[i] != days[|days| - 1]; }
      assert Distinct(front) && AllRecorded(s, front) && last in s.records;
      CountersReadOff(org, request, s, front, closing);
      OneMoreCounted(org, request, s, days, closing);
      PendingElsewhere(org, request, s, front, closing, last);
      hide SweepDays, MissingCheckOutPending, RouteRefusal, Due, AllRecorded, RowsInPlace;
    }
  }

  /** No day fails exactly when every due day-shift day read that had nothing pending can be routed. */
  lemma NoFailureExactly(org: Organization, request: Request, s: State, days: seq<Key>, closing: Closing)
    requires AllRecorded(s, days) && RowsInPlace(s) && Distinct(days)
    ensures SweepDays(org, request, s, days, closing).1.failed == 0 <==>
              forall key :: key in days && Unproposed(s, request.now, key, closing) ==>
                RouteRefusal(org, request, s, key) == None
  {
    CountersReadOff(org, request, s, days, closing);
    var fails := key => key in s.records && Unproposed(s, request.now, key, closing)
                        && RouteRefusal(org, request, s, key).Some?;
    NumberIsZero(days, fails);
    hide SweepDays, Unproposed, RouteRefusal, RowsInPlace;
    forall key | key in days ensures key in s.records {}
    if SweepDays(org, request, s, days, closing).1.failed == 0 {
      forall key | key in days && Unproposed(s, request.now, key, closing)
        ensures RouteRefusal(org, request, s, key) == None
      {
        assert !fails(key);
      }
    }
  }

  lemma {:induction false} NumberIsZero(days: seq<Key>, test: Key -> bool)
    ensures Number(days, test) == 0 <==> forall key :: key in days ==> !test(key)
  {
    if days != [] {
      NumberIsZero(days[..|days| - 1], test);
      assert forall key :: key in days <==> key in days[..|days| - 1] || key == days[|days| - 1];
    }
  }
}
