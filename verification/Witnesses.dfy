/**
 * Concrete days on which a property reported as conditional does fail: one employee, one branch, and
 * a correction policy of a single step that the user 7 approves.
 */
module Witnesses {
  import opened Common
  import opened Totals
  import opened PunchMoves
  import opened MissingCheckOut
  import opened Approvers
  import opened Policies
  import opened HolidayConflict
  import opened Engine
  import opened CorrectionMachine
  import opened Sweep
  import opened AddedCheckOut
  import Sorting
  import WallClock

  const DAY: Key := Key(1, 0)
  const STEP: PolicyStep := PolicyStep(1, 1, ByUser, None, Some(7))
  const POLICY: Policy := Policy(AttendanceCorrection, "A", true, true, [STEP])
  const MANAGER: Member := Member(Some(7), true, true, Some(1), [])
  const DIRECTORY: Directory := Directory([MANAGER], [])
  const ORG: Organization := Organization(480, true, map[], Names({}, {7}))

  /** The day is open since `checkIn`, and these corrections have been raised. */
  function Opened(checkIn: int, corrections: map<nat, Correction>): State {
    State(map[DAY := Record(Open, Present, 0, 0, 1, Some(1), [Punch(2, In, checkIn)])], corrections, map[0 := POLICY],
          map[], [], map[], 10)
  }

  function AskedAt(now: int): Request { Request(now, Some(7), false, None, DIRECTORY) }

  lemma ManagerIsMember(now: int)
    ensures ActiveMember(DIRECTORY, 7) && ActiveMemberOfBranch(DIRECTORY, 7, 1, now)
  {
    assert MANAGER in DIRECTORY.members;
  }

  lemma PolicyIsChosen()
    ensures CorrectionPolicy(map[0 := POLICY]) == Some(0)
  {
    assert ActiveDefaults(map[0 := POLICY], AttendanceCorrection) == {0};
  }

  lemma StartsReadAsOne(checkIn: int)
    ensures ByTime([Punch(2, In, checkIn)]) == [Punch(2, In, checkIn)]
    ensures HasOpenPunch(ByTime([Punch(2, In, checkIn)])) && !OutFirst(ByTime([Punch(2, In, checkIn)]))
  {
    ByTimeOfInOrder([Punch(2, In, checkIn)]);
    AlternatingIsNotOutFirst([Punch(2, In, checkIn)]);
  }

  /** Any correction of that day is routed. */
  lemma IsRouted(now: int, checkIn: int, corrections: map<nat, Correction>)
    ensures RouteRefusal(ORG, AskedAt(now), Opened(checkIn, corrections), DAY) == None
  {
    PolicyIsChosen();
    ManagerIsMember(now);
    assert Unresolvable(DIRECTORY, 1, None, None, STEP, now) == None;
    ResolvableStepByStep(DIRECTORY, 1, None, None, [STEP], now);
    hide CorrectionPolicy, FirstUnresolvable, Unresolvable;
    assert StaffOf(ORG, 1) == Staff(None, None) && Opened(checkIn, corrections).policies[0].steps == [STEP];
  }

  // ---- A corrected day the sweep never reads ----

  lemma ApprovalIsInOrder(now: int, checkIn: int, c: Correction)
    requires c == Correction(DAY, Some(0), Undecided, [], UNCHANGED, false)
    ensures DecideRefusal(ORG, AskedAt(now), Opened(checkIn, map[3 := c]), 3, AsProposed) == None
    ensures PendingStep([STEP], []) == Some(STEP) && !HasMoreSteps([STEP], 1)
  {
    ManagerIsMember(now);
  }

  /**
   * A correction that changes no time, approved on a day left on its check-in, leaves it on its
   * check-in and takes its OPEN status away, so no sweep reads the day again.
   */
  lemma CorrectedOpenDayIsNotRead(now: int, checkIn: int, c: Correction)
    requires c == Correction(DAY, Some(0), Undecided, [], UNCHANGED, false)
    ensures var s := Opened(checkIn, map[3 := c]);
            var decided := Decide(ORG, AskedAt(now), s, 3, true, AsProposed);
            && IsOpenDay(s, 0, DAY) && decided.Ok?
            && EndsOpen(decided.value, DAY) && !MissingCheckOutPending(decided.value, DAY)
            && (forall today :: !IsOpenDay(decided.value, today, DAY))
            && (forall today, days :: ReadsOpenDays(decided.value, today, days) ==> days == [])
  {
    var s := Opened(checkIn, map[3 := c]);
    ApprovalIsInOrder(now, checkIn, c);
    StartsReadAsOne(checkIn);
    NothingToMove(s.records[DAY].punches, UNCHANGED);
    hide DecideRefusal, PendingStep, HasMoreSteps, ByTime, CorrectionPunchUpdates, Move, OutFirst;
    var t := Decide(ORG, AskedAt(now), s, 3, true, AsProposed).value;
    assert t.records[DAY].punches == s.records[DAY].punches && t.records[DAY].status == Corrected;
    forall today, days | ReadsOpenDays(t, today, days) ensures days == [] {
      assert |days| > 0 ==> IsOpenDay(t, today, days[0]);
    }
  }

  // ---- A second proposal ----

  /** A general correction may carry a check-out for a day that has one pending: it is accepted. */
  lemma SecondProposalIsAccepted(now: int, first: Correction, second: Snapshot)
    requires first == Correction(DAY, Some(0), Undecided, [], UNCHANGED.(missingCheckOut := Some(50)), false)
    requires second == UNCHANGED.(missingCheckOut := Some(60))
    ensures var s := Opened(0, map[3 := first]);
            var raised := Perform(ORG, AskedAt(now), s, DoRequestCorrection(DAY, Some(second)));
            RowsInPlace(s) && OneProposal(s) && raised.Ok? && !OneProposal(raised.value)
  {
    var s := Opened(0, map[3 := first]);
    IsRouted(now, 0, map[3 := first]);
    hide RouteRefusal;
    var t := RequestCorrection(ORG, AskedAt(now), s, DAY, Some(second)).value;
    assert Proposes(t, 3, DAY) && Proposes(t, 10, DAY);
  }

  // ---- A proposal nobody can accept ----

  /** With the cutoff at six in the evening and a check-in at eight, what the sweep proposes cannot be applied. */
  lemma SweptBeforeTheCheckIn(closing: Closing)
    requires closing.hour == 18 && closing.minute == 0 && closing.nightShifts == {}
             && forall at :: closing.zone(at) == 0
    ensures var s, request := Opened(20 * WallClock.HOUR, map[]), AskedAt(30 * WallClock.HOUR);
            var swept := CloseDay(ORG, request, s, DAY, closing);
            && Due(s, request.now, DAY, closing) && swept.1.closed == 1
            && 10 in swept.0.corrections && swept.0.corrections[10].key in swept.0.records
            && !CanApply(request.now, swept.0, swept.0.corrections[10])
  {
    var s, request := Opened(20 * WallClock.HOUR, map[]), AskedAt(30 * WallClock.HOUR);
    assert CloseAt(DAY, closing) == 18 * WallClock.HOUR;
    IsRouted(request.now, 20 * WallClock.HOUR, map[]);
    StartsReadAsOne(20 * WallClock.HOUR);
    hide RouteRefusal, ByTime, CloseAt, CanApply, OutFirst;
    assert !MissingCheckOutPending(s, DAY);
    SweptIsApplicableExactly(ORG, request, s, DAY, closing);
  }

  // ---- A request accepted and never possible ----

  /** Checked in at 20, then out back-dated to 10: the day reads the check-out first. */
  function OutBeforeIn(): seq<Punch> { [Punch(2, In, 20), Punch(10, Out, 10)] }

  lemma ReadsOutFirst()
    ensures ByTime(OutBeforeIn()) == [Punch(10, Out, 10), Punch(2, In, 20)] && OutFirst(ByTime(OutBeforeIn()))
    ensures HasOpenPunch(ByTime(OutBeforeIn())) && OutBeforeIn() == [Punch(2, In, 20)] + [Punch(10, Out, 10)]
  {
    StartsReadAsOne(20);
    var both := [Punch(10, Out, 10), Punch(2, In, 20)];
    Sorting.SortAppend(NotAfter, [Punch(2, In, 20)], Punch(10, Out, 10));
    assert OutBeforeIn() == [Punch(2, In, 20)] + [Punch(10, Out, 10)];
    assert [Punch(2, In, 20)][..0] == [];
    assert Sorting.Insert(NotAfter, [Punch(2, In, 20)], Punch(10, Out, 10)) == both;
    assert both[1..] == [Punch(2, In, 20)];
    assert FirstOf(In, both) == FirstOf(In, both[1..]) == Some(Punch(2, In, 20));
  }

  /**
   * After a back-dated check-out the employee's request for a missing check-out is accepted, and at
   * no moment can what was accepted be applied.
   */
  lemma BackDatedDayIsNeverClosed(later: int)
    ensures var punched := PunchIn(ORG, AskedAt(15), Opened(20, map[]), DAY, Out, 10, None, None, false);
            && punched.Ok? && DAY in punched.value.records && punched.value.records[DAY].punches == OutBeforeIn()
            && var asked := RequestMissingCheckOut(ORG, AskedAt(60), punched.value, DAY, 50);
               && asked.Ok? && 11 in asked.value.corrections && asked.value.corrections[11].key in asked.value.records
               && !CanApply(later, asked.value, asked.value.corrections[11])
  {
    StartsReadAsOne(20);
    ReadsOutFirst();
    hide ByTime, OutFirst;
    var t := PunchIn(ORG, AskedAt(15), Opened(20, map[]), DAY, Out, 10, None, None, false).value;
    assert t.records[DAY].punches == OutBeforeIn();
    CheckOutAcceptedExactly(DaysOf(t.records), DAY, 50, 60);
    assert DaysOf(t.records)[DAY] == ByTime(OutBeforeIn());
    IsRouted(60, 20, map[]);
    hide RouteRefusal, PunchIn, CanApply, AssertValidMissingCheckOut, NextPunchAfterOpenCheckIn;
    var asked := RequestMissingCheckOut(ORG, AskedAt(60), t, DAY, 50).value;
    ApplicableExactly(later, asked, asked.corrections[11]);
  }
}
