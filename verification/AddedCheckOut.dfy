/** What the final approval of a missing check-out does to the employee's days. */
module AddedCheckOut {
  import opened Common
  import opened Totals
  import opened PunchMoves
  import opened MissingCheckOut
  import opened Engine
  import opened RecordCache
  import opened CorrectionMachine
  import opened Sweep
  import Payroll

  /** The correction asks for a check-out and moves no punch. */
  predicate OnlyAddsCheckOut(c: Correction) {
    AddsCheckOut(c) && c.after.correctedCheckIn.Missing? && c.after.correctedCheckOut.Missing?
  }

  lemma MoveNothing(punches: seq<Punch>)
    ensures Move(punches, []) == punches
  {
  }

  /** The guard was asked again, about the punches as they are now, and let the check-out through. */
  lemma GuardedAgain(request: Request, s: State, c: Correction)
    requires c.key in s.records && OnlyAddsCheckOut(c) && CorrectedPunches(request, s, c).Ok?
    ensures var days, checkOut := DaysOf(s.records), c.after.missingCheckOut.value;
            && AssertValidMissingCheckOut(days[c.key], checkOut, request.now,
                                          NextPunchAfterOpenCheckIn(days, c.key, days[c.key])) == None
            && CorrectedPunches(request, s, c).value.totalled == days[c.key] + [Punch(s.nextId, Out, checkOut)]
  {
    var stored := s.records[c.key].punches;
    MoveNothing(stored);
    assert DaysOf(s.records)[c.key := ByTime(stored)] == DaysOf(s.records);
    hide ByTime, AssertValidMissingCheckOut, NextPunchAfterOpenCheckIn;
  }

  /** Approving it puts exactly that check-out at the end of the day, and changes no other day. */
  lemma ApprovalAppends(org: Organization, request: Request, s: State, id: nat, replacement: Replacement)
    requires Decide(org, request, s, id, true, replacement).Ok?
    requires var c := AfterDecision(request, s, id, true, replacement); c.status.Accepted? && OnlyAddsCheckOut(c)
    ensures var c := AfterDecision(request, s, id, true, replacement);
            var t := Decide(org, request, s, id, true, replacement).value;
            var out := Punch(s.nextId, Out, c.after.missingCheckOut.value);
            && c.key in s.records && c.key in t.records
            && DaysOf(t.records) == DaysOf(s.records)[c.key := DaysOf(s.records)[c.key] + [out]]
            && t.records[c.key].worked == Scan(DaysOf(s.records)[c.key] + [out]).worked
  {
    var c := AfterDecision(request, s, id, true, replacement);
    GuardedAgain(request, s, c);
    AddedCheckOutIsReread(request, s, c);
    hide ByTime, CorrectedPunches, Payroll.MarkPayrollStale;
  }

  /**
   * The final approval of a missing check-out leaves the day sorted, alternating and closed, adds
   * exactly the whole minutes of the new interval, at most a day's, and overlaps no other day of the
   * employee: exactly when no other day stands open since the very same instant.
   */
  lemma ApprovedCheckOutOverlapsNothing(org: Organization, request: Request, s: State, id: nat,
      replacement: Replacement)
    requires Decide(org, request, s, id, true, replacement).Ok?
    requires var c := AfterDecision(request, s, id, true, replacement); c.status.Accepted? && OnlyAddsCheckOut(c)
    requires Proper(DaysOf(s.records)) && Clear(DaysOf(s.records))
    ensures var c := AfterDecision(request, s, id, true, replacement);
            var t := Decide(org, request, s, id, true, replacement).value;
            var days, after := DaysOf(s.records), DaysOf(t.records);
            && c.key in days && c.key in after && days[c.key] != [] && Proper(after) && !HasOpenPunch(after[c.key])
            && var minutes := (c.after.missingCheckOut.value - days[c.key][|days[c.key]| - 1].at) / MINUTE;
               && t.records[c.key].worked == Scan(days[c.key]).worked + minutes && minutes <= 1440
               && (Clear(after) <==> forall other :: other in days ==> !TwinOpen(days, c.key, other))
  {
    var c := AfterDecision(request, s, id, true, replacement);
    ApprovalAppends(org, request, s, id, replacement);
    assert CorrectedPunches(request, s, c).Ok?;
    GuardedAgain(request, s, c);
    hide Decide, CorrectedPunches, AfterDecision, DaysOf;
    var out := Punch(s.nextId, Out, c.after.missingCheckOut.value);
    AcceptedCheckOutClosesDay(DaysOf(s.records), c.key, out, request.now);
    AcceptedCheckOutStaysClear(DaysOf(s.records), c.key, out, request.now);
    hide Proper, Clear, NextPunchAfterOpenCheckIn, TwinOpen;
  }

  // ---- Proposing what can be applied ----

  /** The day reads a check-out before its first check-in: any correction of it that moves neither is refused. */
  predicate OutFirst(read: seq<Punch>) {
    var checkIn, checkOut := FirstOf(In, read), FirstOf(Out, read);
    checkIn.Some? && checkOut.Some? && checkOut.value.at < checkIn.value.at
  }

  /** An alternating day never does. */
  lemma AlternatingIsNotOutFirst(read: seq<Punch>)
    requires Alternating(read) && InOrder(read)
    ensures !OutFirst(read)
  {
    if read != [] {
      var k := FirstOfIsFirst(Out, read);
      assert read[0].kind == In && FirstOf(In, read) == Some(read[0]);
    }
  }

  /** A correction that moves nothing is refused exactly on a day that reads a check-out first. */
  lemma NothingToMove(stored: seq<Punch>, after: Snapshot)
    requires after.correctedCheckIn.Missing? && after.correctedCheckOut.Missing?
    ensures CorrectionPunchUpdates(ByTime(stored), after)
         == if OutFirst(ByTime(stored)) then Err(Conflict(CheckOutBeforeCheckIn)) else Ok([])
    ensures Move(stored, []) == stored
  {
    var read := ByTime(stored);
    ByTimeInOrder(stored);
    ByTimeOfInOrder(read);
    var none: seq<PunchUpdate> := [];
    assert none + none == none;
  }

  /**
   * Adding a check-out can be applied exactly when the guard, asked now, lets it through and the day
   * reads no check-out first.
   */
  lemma ApplicableExactly(now: int, s: State, c: Correction)
    requires c.key in s.records && OnlyAddsCheckOut(c)
    ensures var days := DaysOf(s.records);
            CanApply(now, s, c) <==>
              && !OutFirst(days[c.key])
              && AssertValidMissingCheckOut(days[c.key], c.after.missingCheckOut.value, now,
                                            NextPunchAfterOpenCheckIn(days, c.key, days[c.key])) == None
  {
    var stored := s.records[c.key].punches;
    NothingToMove(stored, c.after);
    assert DaysOf(s.records)[c.key := ByTime(stored)] == DaysOf(s.records);
    hide ByTime, AssertValidMissingCheckOut, NextPunchAfterOpenCheckIn, CorrectionPunchUpdates, Move, OutFirst;
  }

  /**
   * A missing check-out that an employee's request got accepted for could be applied there and then
   * exactly when the day reads no check-out first, which the request does not ask.
   */
  lemma RequestedIsApplicable(org: Organization, request: Request, s: State, key: Key, checkOut: int)
    requires RequestMissingCheckOut(org, request, s, key, checkOut).Ok? && !request.client
    ensures key in s.records && s.records[key].branch.Some?
    ensures var t := RequestMissingCheckOut(org, request, s, key, checkOut).value;
            && t == CreateCorrection(org, request, s, key,
                      RecordSnapshot(s.records[key]).(missingCheckOut := Some(checkOut))).value
            && s.nextId in t.corrections && t.corrections[s.nextId].key in t.records
            && (CanApply(request.now, t, t.corrections[s.nextId]) <==> !OutFirst(ByTime(s.records[key].punches)))
  {
    var t := RequestMissingCheckOut(org, request, s, key, checkOut).value;
    hide ByTime, AssertValidMissingCheckOut, NextPunchAfterOpenCheckIn, MissingCheckOutPending, OutFirst;
    ApplicableExactly(request.now, t, t.corrections[s.nextId]);
  }

  /**
   * So a missing check-out that was accepted as a request can be carried to the end, some approvals,
   * one for each step of the policy, closing the day with the very check-out asked for, exactly when
   * the day reads no check-out before its first check-in; on an alternating day it always can.
   */
  lemma RequestedCheckOutFinishes(org: Organization, request: Request, s: State, key: Key, checkOut: int)
      returns (users: seq<nat>)
    requires MachineSound(org, s) && RequestMissingCheckOut(org, request, s, key, checkOut).Ok? && !request.client
    ensures var t := RequestMissingCheckOut(org, request, s, key, checkOut).value;
            var end := ApproveInTurn(org, request.now, request.directory, t, s.nextId, users);
            && s.nextId in t.corrections && |users| == |StepsOf(t, t.corrections[s.nextId])|
            && key in s.records && (end.Ok? <==> !OutFirst(ByTime(s.records[key].punches)))
            && (Alternating(ByTime(s.records[key].punches)) ==> end.Ok?)
            && (end.Ok? ==> s.nextId in end.value.corrections && end.value.corrections[s.nextId].status.Accepted?)
  {
    RequestedIsApplicable(org, request, s, key, checkOut);
    var after := RecordSnapshot(s.records[key]).(missingCheckOut := Some(checkOut));
    assert CreateCorrection(org, request, s, key, after).Ok?;
    hide *;
    ByTimeInOrder(s.records[key].punches);
    if Alternating(ByTime(s.records[key].punches)) { AlternatingIsNotOutFirst(ByTime(s.records[key].punches)); }
    users := CreatedCorrectionFinishes(org, request, s, key, after);
  }

  /**
   * What the sweep proposes need not be possible: it proposes the cutoff whatever the punches say.
   * The proposal can be applied as it stands exactly when the day reads no check-out first, its last
   * check-in is before the cutoff, no more than a day before it, and no later punch of the employee
   * on another day precedes it.
   */
  lemma SweptIsApplicableExactly(org: Organization, request: Request, s: State, key: Key, closing: Closing)
    requires key in s.records && !request.client
    requires Due(s, request.now, key, closing) && Sweep.CloseDay(org, request, s, key, closing).1.closed == 1
    ensures var t, days := Sweep.CloseDay(org, request, s, key, closing).0, DaysOf(s.records);
            && s.nextId in t.corrections && t.corrections[s.nextId].key == key && key in t.records && days[key] != []
            && var openAt, closeAt := days[key][|days[key]| - 1].at, CloseAt(key, closing);
               CanApply(request.now, t, t.corrections[s.nextId]) <==>
                 && !OutFirst(days[key]) && openAt < closeAt <= openAt + 1440 * 60_000
                 && forall k, i | k in days && k != key && k.employee == key.employee && 0 <= i < |days[k]| ::
                      days[k][i].at > openAt ==> closeAt < days[k][i].at
  {
    var t := Sweep.CloseDay(org, request, s, key, closing).0;
    RaisedOrLeft(org, request, s, key, closing);
    hide ByTime, Sweep.CloseDay, AssertValidMissingCheckOut, NextPunchAfterOpenCheckIn, RouteRefusal, CanApply, CloseAt;
    hide OutFirst;
    ApplicableExactly(request.now, t, t.corrections[s.nextId]);
    CheckOutAcceptedExactly(DaysOf(s.records), key, CloseAt(key, closing), request.now);
  }
}
