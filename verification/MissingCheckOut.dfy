/**
 * The guard on a check-out added to a day that never had one, and what it protects: an employee's
 * days never overlap.
 */
module MissingCheckOut {
  import opened Common
  import opened Least
  import opened Totals
  import WallClock

  /** A shift fits in a day. */
  const MAX_SHIFT: int := 1440 * MINUTE

  /** A record is found by employee and work date; dates are counted in days. */
  datatype Key = Key(employee: nat, date: int)

  function AssertValidMissingCheckOut(punches: seq<Punch>, checkOut: int, now: int,
      nextPunchAt: Option<int>): Option<Refusal> {
    if punches == [] then Some(Conflict(DayWithoutCheckIn))
    else
      var last := punches[|punches| - 1];
      if last.kind != In then Some(Conflict(DayAlreadyCheckedOut))
      else if checkOut <= last.at then Some(Conflict(CheckOutNotAfterCheckIn))
      else if checkOut > now then Some(Conflict(CheckOutInTheFuture))
      else if checkOut - last.at > MAX_SHIFT then Some(Conflict(CheckOutBeyondADay))
      else if nextPunchAt.Some? && checkOut >= nextPunchAt.value then
        Some(Conflict(CheckOutPastNextPunch))
      else None
  }

  /** When the employee's punches on other days fall after `at`. */
  function LaterPunches(days: map<Key, seq<Punch>>, key: Key, at: int): set<int> {
    set k, i | k in days && k.employee == key.employee && k != key && 0 <= i < |days[k]| && days[k][i].at > at
      :: days[k][i].at
  }

  /** The employee's first punch after this day's last one, on any other day. */
  function NextPunchAfterOpenCheckIn(days: map<Key, seq<Punch>>, key: Key, punches: seq<Punch>): Option<int> {
    if punches == [] then None else Earliest(LaterPunches(days, key, punches[|punches| - 1].at))
  }

  // ---- An employee's days ----

  function DayOf(days: map<Key, seq<Punch>>, key: Key): seq<Punch> {
    if key in days then days[key] else []
  }

  ghost predicate Proper(days: map<Key, seq<Punch>>) {
    forall k :: k in days ==> Alternating(days[k]) && StrictlyInOrder(days[k])
  }

  /** Punch `i` of day `k` closes an interval that holds the check-in `j` of day `other`. */
  ghost predicate Covers(days: map<Key, seq<Punch>>, k: Key, i: int, other: Key, j: int)
    requires k in days && other in days
  {
    && 0 < i < |days[k]| && days[k][i].kind == Out
    && 0 <= j < |days[other]| && days[other][j].kind == In
    && days[k][i - 1].at <= days[other][j].at < days[k][i].at
  }

  /** No day's interval, half open, holds another day's check-in. */
  ghost predicate Clear(days: map<Key, seq<Punch>>) {
    forall k, i, other, j ::
      k in days && other in days && k != other && k.employee == other.employee ==> !Covers(days, k, i, other, j)
  }

  /** The intervals closed by punch `i` of day `k` and punch `j` of day `other` share an instant. */
  ghost predicate Overlap(days: map<Key, seq<Punch>>, k: Key, i: int, other: Key, j: int)
    requires k in days && other in days
  {
    && 0 < i < |days[k]| && days[k][i].kind == Out
    && 0 < j < |days[other]| && days[other][j].kind == Out
    && days[k][i - 1].at < days[other][j].at && days[other][j - 1].at < days[k][i].at
  }

  /** The interval closed by punch `i` of day `k` holds the check-in day `other` is left open on. */
  ghost predicate HoldsOpen(days: map<Key, seq<Punch>>, k: Key, i: int, other: Key)
    requires k in days && other in days
  {
    HasOpenPunch(days[other]) && Covers(days, k, i, other, |days[other]| - 1)
  }

  /** What being clear means: closed intervals are pairwise disjoint and no open check-in lies inside one. */
  lemma ClearMeansDisjoint(days: map<Key, seq<Punch>>)
    requires Proper(days)
    ensures Clear(days) <==>
              && (forall k, i, other, j ::
                    k in days && other in days && k != other && k.employee == other.employee ==>
                      !Overlap(days, k, i, other, j))
              && (forall k, i, other ::
                    k in days && other in days && k != other && k.employee == other.employee ==>
                      !HoldsOpen(days, k, i, other))
  {
    forall k, i, other, j | k in days && other in days && Overlap(days, k, i, other, j)
      ensures Covers(days, k, i, other, j - 1) || Covers(days, other, j, k, i - 1)
    {
    }
    forall k, i, other, j | k in days && other in days && Covers(days, k, i, other, j)
      ensures Overlap(days, k, i, other, j + 1) || HoldsOpen(days, k, i, other)
    {
      assert j % 2 == 0;
    }
    forall k, i, other | k in days && other in days && HoldsOpen(days, k, i, other)
      ensures Covers(days, k, i, other, |days[other]| - 1)
    {
    }
  }

  /**
   * Exactly which check-outs are accepted: after the check-in the day is left on, within a day of it,
   * not in the future, and before every later punch the employee made on another day.
   */
  lemma CheckOutAcceptedExactly(days: map<Key, seq<Punch>>, key: Key, checkOut: int, now: int)
    requires key in days
    ensures AssertValidMissingCheckOut(days[key], checkOut, now,
                                       NextPunchAfterOpenCheckIn(days, key, days[key])) == None <==>
              && HasOpenPunch(days[key])
              && var openAt := days[key][|days[key]| - 1].at;
                 && openAt < checkOut <= now && checkOut - openAt <= 1440 * 60_000
                 && forall k, i | k in days && k != key && k.employee == key.employee && 0 <= i < |days[k]| ::
                      days[k][i].at > openAt ==> checkOut < days[k][i].at
  {
    if HasOpenPunch(days[key]) {
      var openAt := days[key][|days[key]| - 1].at;
      forall k, i | k in days && k != key && k.employee == key.employee && 0 <= i < |days[k]| && days[k][i].at > openAt
        ensures days[k][i].at in LaterPunches(days, key, openAt)
      {
      }
    }
  }

  /** What each refusal says of the day and the time asked for. */
  lemma CheckOutRefusedFor(punches: seq<Punch>, checkOut: int, now: int, nextPunchAt: Option<int>)
    requires AssertValidMissingCheckOut(punches, checkOut, now, nextPunchAt).Some?
    ensures AssertValidMissingCheckOut(punches, checkOut, now, nextPunchAt).value.Conflict?
    ensures match AssertValidMissingCheckOut(punches, checkOut, now, nextPunchAt).value.reason
            case DayWithoutCheckIn => |punches| == 0
            case DayAlreadyCheckedOut => |punches| > 0 && punches[|punches| - 1].kind == Out
            case CheckOutNotAfterCheckIn => HasOpenPunch(punches) && checkOut <= punches[|punches| - 1].at
            case CheckOutInTheFuture => HasOpenPunch(punches) && now < checkOut
            case CheckOutBeyondADay =>
              HasOpenPunch(punches) && checkOut <= now && checkOut > punches[|punches| - 1].at + 1440 * 60_000
            case CheckOutPastNextPunch =>
              && HasOpenPunch(punches) && checkOut <= now && checkOut <= punches[|punches| - 1].at + 1440 * 60_000
              && nextPunchAt.Some? && nextPunchAt.value <= checkOut
            case _ => false
  {
  }

  /** Nothing accepted by the guard lies past a later punch of another day. */
  lemma AcceptedBeforeLaterPunches(days: map<Key, seq<Punch>>, key: Key, checkOut: int, now: int)
    requires key in days && days[key] != []
    requires AssertValidMissingCheckOut(days[key], checkOut, now,
                                        NextPunchAfterOpenCheckIn(days, key, days[key])) == None
    ensures forall k, i | k in days && k != key && k.employee == key.employee && 0 <= i < |days[k]| ::
              days[k][i].at > days[key][|days[key]| - 1].at ==> checkOut < days[k][i].at
  {
    var openAt := days[key][|days[key]| - 1].at;
    forall k, i | k in days && k != key && k.employee == key.employee && 0 <= i < |days[k]| && days[k][i].at > openAt
      ensures checkOut < days[k][i].at
    {
      assert days[k][i].at in LaterPunches(days, key, openAt);
    }
  }

  ghost predicate TwinOpen(days: map<Key, seq<Punch>>, key: Key, other: Key)
    requires key in days && days[key] != [] && other in days
  {
    && other != key && other.employee == key.employee && HasOpenPunch(days[other])
    && days[other][|days[other]| - 1].at == days[key][|days[key]| - 1].at
  }

  /**
   * An accepted missing check-out keeps the day alternating and sorted, closes it, and adds exactly
   * the whole minutes of the new interval, at most a day's.
   */
  lemma AcceptedCheckOutClosesDay(days: map<Key, seq<Punch>>, key: Key, out: Punch, now: int)
    requires Proper(days) && key in days && out.kind == Out
    requires AssertValidMissingCheckOut(days[key], out.at, now, NextPunchAfterOpenCheckIn(days, key, days[key])) == None
    ensures var closed := days[key] + [out];
            && Proper(days[key := closed])
            && !HasOpenPunch(closed)
            && Scan(closed).worked == Scan(days[key]).worked + (out.at - days[key][|days[key]| - 1].at) / MINUTE
            && (out.at - days[key][|days[key]| - 1].at) / MINUTE <= 1440
  {
    ClosingAddsInterval(days[key], out);
    AppendAlternates(days[key], out);
  }

  /**
   * And it never overlaps another day. The days stay clear exactly when no other day of the
   * employee is left open since the very same instant, the one punch the guard does not look at.
   */
  lemma AcceptedCheckOutStaysClear(days: map<Key, seq<Punch>>, key: Key, out: Punch, now: int)
    requires Proper(days) && Clear(days) && key in days && out.kind == Out
    requires AssertValidMissingCheckOut(days[key], out.at, now, NextPunchAfterOpenCheckIn(days, key, days[key])) == None
    ensures Clear(days[key := days[key] + [out]]) <==> forall other :: other in days ==> !TwinOpen(days, key, other)
  {
    var closed := days[key] + [out];
    var after := days[key := closed];
    var n := |days[key]| - 1;
    AcceptedBeforeLaterPunches(days, key, out.at, now);
    forall other | other in days && TwinOpen(days, key, other)
      ensures !Clear(after)
    {
      assert Covers(after, key, n + 1, other, |days[other]| - 1);
    }
    if forall other :: other in days ==> !TwinOpen(days, key, other) {
      forall k, i, other, j | k in after && other in after && k != other && k.employee == other.employee
        ensures !Covers(after, k, i, other, j)
      {
        if Covers(after, k, i, other, j) {
          if k == key && i == n + 1 {
            NoClosedTwin(days, key, other, j);
          } else {
            CoveredBefore(days, key, out, k, i, other, j);
          }
        }
      }
    }
  }

  /** Only the interval the new check-out closes can cover something it did not before. */
  lemma CoveredBefore(days: map<Key, seq<Punch>>, key: Key, out: Punch, k: Key, i: int, other: Key, j: int)
    requires key in days && k in days && other in days && out.kind == Out && !(k == key && i == |days[key]|)
    requires Covers(days[key := days[key] + [out]], k, i, other, j)
    ensures Covers(days, k, i, other, j)
  {
  }

  /** A closed check-in at the instant this day opened would already cover this day's check-in. */
  lemma NoClosedTwin(days: map<Key, seq<Punch>>, key: Key, other: Key, j: int)
    requires Proper(days) && Clear(days) && key in days && other in days && key != other
             && key.employee == other.employee
    requires HasOpenPunch(days[key]) && 0 <= j < |days[other]| && days[other][j].kind == In
    requires days[other][j].at == days[key][|days[key]| - 1].at
    ensures TwinOpen(days, key, other)
  {
    if j < |days[other]| - 1 {
      assert j % 2 == 0;
      assert Covers(days, other, j + 1, key, |days[key]| - 1);
    }
  }

  /** Two days open since one instant: the guard lets a check-out through that covers the other check-in. */
  lemma TwinOpenOverlaps(days: map<Key, seq<Punch>>, today: Key, tomorrow: Key, out: Punch)
    requires today == Key(1, 0) && tomorrow == Key(1, 1) && out == Punch(3, Out, 10)
    requires days == map[today := [Punch(1, In, 0)], tomorrow := [Punch(2, In, 0)]]
    ensures Proper(days) && Clear(days)
    ensures AssertValidMissingCheckOut(days[today], out.at, 20,
                                       NextPunchAfterOpenCheckIn(days, today, days[today])) == None
    ensures !Clear(days[today := days[today] + [out]])
  {
    CheckOutAcceptedExactly(days, today, out.at, 20);
    assert TwinOpen(days, today, tomorrow);
    AcceptedCheckOutStaysClear(days, today, out, 20);
  }

  // ---- Punches on other days between the guard and the write ----

  /** Other days may have gained punches, this one has not: its record is locked. */
  ghost predicate OthersPunched(days: map<Key, seq<Punch>>, later: map<Key, seq<Punch>>, key: Key) {
    && key in days && key in later && later[key] == days[key]
    && forall k :: k in days ==> k in later && days[k] <= later[k]
  }

  /** A check-in gained on another day falls into the interval about to be closed. */
  ghost predicate CheckedInMeanwhile(days: map<Key, seq<Punch>>, later: map<Key, seq<Punch>>, key: Key, checkOut: int)
    requires key in days && days[key] != []
  {
    exists k, i ::
      && k in later && k != key && k.employee == key.employee && |DayOf(days, k)| <= i < |later[k]|
      && later[k][i].kind == In && days[key][|days[key]| - 1].at <= later[k][i].at < checkOut
  }

  /**
   * The guard looks at the employee's other days without locking them. When they gain punches before
   * the check-out is written, the days stay clear exactly when none of these is a check-in inside the
   * new interval and no day was open since the very same instant.
   */
  lemma WrittenLaterStaysClear(days: map<Key, seq<Punch>>, later: map<Key, seq<Punch>>, key: Key, out: Punch, now: int)
    requires OthersPunched(days, later, key) && Proper(later) && Clear(later) && Proper(days) && Clear(days)
    requires out.kind == Out
    requires AssertValidMissingCheckOut(days[key], out.at, now, NextPunchAfterOpenCheckIn(days, key, days[key])) == None
    ensures Clear(later[key := later[key] + [out]]) <==>
              && !CheckedInMeanwhile(days, later, key, out.at)
              && forall other :: other in days ==> !TwinOpen(days, key, other)
  {
    var after, n := later[key := later[key] + [out]], |days[key]|;
    AcceptedBeforeLaterPunches(days, key, out.at, now);
    hide AssertValidMissingCheckOut, NextPunchAfterOpenCheckIn;
    if CheckedInMeanwhile(days, later, key, out.at) {
      var k, i :| && k in later && k != key && k.employee == key.employee && |DayOf(days, k)| <= i < |later[k]|
                  && later[k][i].kind == In && days[key][|days[key]| - 1].at <= later[k][i].at < out.at;
      assert Covers(after, key, n, k, i);
    } else if exists other :: other in days && TwinOpen(days, key, other) {
      var other :| other in days && TwinOpen(days, key, other);
      assert later[other][|days[other]| - 1] == days[other][|days[other]| - 1];
      assert Covers(after, key, n, other, |days[other]| - 1);
    } else {
      hide Proper, Clear, CheckedInMeanwhile, TwinOpen;
      NothingElseIsCovered(days, later, key, out);
    }
  }

  lemma NothingElseIsCovered(days: map<Key, seq<Punch>>, later: map<Key, seq<Punch>>, key: Key, out: Punch)
    requires OthersPunched(days, later, key) && Clear(later) && Proper(days) && Clear(days)
    requires out.kind == Out && HasOpenPunch(days[key]) && !CheckedInMeanwhile(days, later, key, out.at)
    requires forall other :: other in days ==> !TwinOpen(days, key, other)
    requires forall k, i | k in days && k != key && k.employee == key.employee && 0 <= i < |days[k]| ::
               days[k][i].at > days[key][|days[key]| - 1].at ==> out.at < days[k][i].at
    ensures Clear(later[key := later[key] + [out]])
  {
    var after, n := later[key := later[key] + [out]], |days[key]|;
    forall k, i, other, j | k in after && other in after && k != other && k.employee == other.employee
      ensures !Covers(after, k, i, other, j)
    {
      if Covers(after, k, i, other, j) {
        if k != key || i != n {
          CoveredBefore(later, key, out, k, i, other, j);
        } else if j < |DayOf(days, other)| {
          assert later[other][j] == days[other][j];
          NoClosedTwin(days, key, other, j);
        }
      }
    }
  }

  /** Punches that read the clock no earlier than the approval did cannot do that. */
  lemma LaterClocksStayOut(days: map<Key, seq<Punch>>, later: map<Key, seq<Punch>>, key: Key, checkOut: int, now: int)
    requires OthersPunched(days, later, key)
    requires AssertValidMissingCheckOut(days[key], checkOut, now,
                                        NextPunchAfterOpenCheckIn(days, key, days[key])) == None
    requires forall k, i :: k in later && |DayOf(days, k)| <= i < |later[k]| ==> now <= later[k][i].at
    ensures !CheckedInMeanwhile(days, later, key, checkOut)
  {
  }

  /** A check-in at five, on the next day, that commits after the guard looked: the check-out at ten covers it. */
  lemma CheckedInMeanwhileOverlaps(today: Key, tomorrow: Key, out: Punch)
    requires today == Key(1, 0) && tomorrow == Key(1, 1) && out == Punch(3, Out, 10)
    ensures var days := map[today := [Punch(1, In, 0)]];
            var later := days[tomorrow := [Punch(2, In, 5)]];
            && AssertValidMissingCheckOut(days[today], out.at, 20,
                                          NextPunchAfterOpenCheckIn(days, today, days[today])) == None
            && Proper(days) && Clear(days) && Proper(later) && Clear(later) && OthersPunched(days, later, today)
            && !Clear(later[today := later[today] + [out]])
  {
    var days := map[today := [Punch(1, In, 0)]];
    var later := days[tomorrow := [Punch(2, In, 5)]];
    CheckOutAcceptedExactly(days, today, out.at, 20);
    assert Covers(later[today := later[today] + [out]], today, 1, tomorrow, 0);
  }

  // ---- Every run of one employee's own punches and added check-outs ----

  datatype TimelineStep =
    | PunchNow(kind: PunchKind, at: int, id: nat)
    | AddCheckOut(key: Key, checkOut: int, now: int, id: nat)

  datatype Timeline = Timeline(days: map<Key, seq<Punch>>, clock: int)

  /** One step. The clock only moves forward, and a punch belongs to the calendar day it happens on. */
  ghost predicate Takes(s: Timeline, step: TimelineStep, t: Timeline, employee: nat, workDate: int -> int) {
    match step
    case PunchNow(kind, at, id) =>
      var key := Key(employee, workDate(at));
      var punches := DayOf(s.days, key);
      && s.clock < at && (kind == In <==> !HasOpenPunch(punches))
      && t == Timeline(s.days[key := punches + [Punch(id, kind, at)]], at)
    case AddCheckOut(key, checkOut, now, id) =>
      && s.clock <= now && key in s.days && key.employee == employee
      && AssertValidMissingCheckOut(s.days[key], checkOut, now,
                                    NextPunchAfterOpenCheckIn(s.days, key, s.days[key])) == None
      && t == Timeline(s.days[key := s.days[key] + [Punch(id, Out, checkOut)]], now)
  }

  /** A date, once over, does not come back. */
  ghost predicate NoDateComesBack(workDate: int -> int) {
    forall a, b, c :: a < b < c && workDate(a) == workDate(c) ==> workDate(b) == workDate(a)
  }

  /** No punch lies in the future, and every check-in lies on its record's own date. */
  ghost predicate Dated(s: Timeline, employee: nat, workDate: int -> int) {
    && (forall k :: k in s.days ==> k.employee == employee)
    && (forall k, i | k in s.days && 0 <= i < |s.days[k]| ::
          s.days[k][i].at <= s.clock && (s.days[k][i].kind == In ==> workDate(s.days[k][i].at) == k.date))
  }

  ghost predicate TimelineInvariant(s: Timeline, employee: nat, workDate: int -> int) {
    Proper(s.days) && Clear(s.days) && Dated(s, employee, workDate)
  }

  /** A day appended to holds its old punches and the new one. */
  lemma OldOrAppended(days: map<Key, seq<Punch>>, key: Key, punch: Punch, k: Key, i: int)
    requires k in days[key := DayOf(days, key) + [punch]] && 0 <= i < |days[key := DayOf(days, key) + [punch]][k]|
    ensures var p := days[key := DayOf(days, key) + [punch]][k][i];
            (k in days && i < |days[k]| && p == days[k][i]) || (k == key && p == punch)
  {
  }

  lemma StepStaysDated(s: Timeline, step: TimelineStep, t: Timeline, employee: nat, workDate: int -> int)
    requires TimelineInvariant(s, employee, workDate) && Takes(s, step, t, employee, workDate)
    ensures Dated(t, employee, workDate)
  {
    var key := if step.PunchNow? then Key(employee, workDate(step.at)) else step.key;
    var punch := if step.PunchNow? then Punch(step.id, step.kind, step.at) else Punch(step.id, Out, step.checkOut);
    assert t.days == s.days[key := DayOf(s.days, key) + [punch]] && punch.at <= t.clock && s.clock <= t.clock;
    assert key.employee == employee && (punch.kind == In ==> workDate(punch.at) == key.date);
    forall k, i | k in t.days && 0 <= i < |t.days[k]|
      ensures t.days[k][i].at <= t.clock && (t.days[k][i].kind == In ==> workDate(t.days[k][i].at) == k.date)
    {
      OldOrAppended(s.days, key, punch, k, i);
    }
  }

  lemma PunchNowStaysClear(s: Timeline, kind: PunchKind, at: int, id: nat, t: Timeline, employee: nat,
      workDate: int -> int)
    requires NoDateComesBack(workDate) && TimelineInvariant(s, employee, workDate)
    requires Takes(s, PunchNow(kind, at, id), t, employee, workDate)
    ensures TimelineInvariant(t, employee, workDate)
  {
    var key := Key(employee, workDate(at));
    var punches := DayOf(s.days, key);
    var n := |punches|;
    AppendAlternates(punches, Punch(id, kind, at));
    StepStaysDated(s, PunchNow(kind, at, id), t, employee, workDate);
    if HasOpenPunch(punches) { SpanIsOneDay(punches[n - 1].at, at, workDate); }
    forall k, i, other, j | k in t.days && other in t.days && k != other && k.employee == other.employee
      ensures !Covers(t.days, k, i, other, j)
    {
      if k == key && i == n {
        assert 0 <= j < |t.days[other]| ==> t.days[other][j] == s.days[other][j];
      } else if other == key && j == n {
        assert 0 <= i < |t.days[k]| ==> t.days[k][i] == s.days[k][i];
      } else if Covers(t.days, k, i, other, j) {
        CoveredByOldPunches(s.days, key, Punch(id, kind, at), k, i, other, j);
      }
    }
  }

  lemma CoveredByOldPunches(days: map<Key, seq<Punch>>, key: Key, punch: Punch, k: Key, i: int, other: Key, j: int)
    requires var after := days[key := DayOf(days, key) + [punch]];
             k in after && other in after && Covers(after, k, i, other, j)
    requires !(k == key && i == |DayOf(days, key)|) && !(other == key && j == |DayOf(days, key)|)
    ensures k in days && other in days && Covers(days, k, i, other, j)
  {
  }

  /** Whatever lies between two moments of one date is on that date. */
  lemma SpanIsOneDay(a: int, c: int, workDate: int -> int)
    requires NoDateComesBack(workDate) && workDate(a) == workDate(c)
    ensures forall b :: a <= b <= c ==> workDate(b) == workDate(a)
  {
    forall b | a <= b <= c ensures workDate(b) == workDate(a) {
      if a < b < c { assert workDate(b) == workDate(a); }
    }
  }

  lemma AddCheckOutStaysClear(s: Timeline, step: TimelineStep, t: Timeline, employee: nat, workDate: int -> int)
    requires step.AddCheckOut? && TimelineInvariant(s, employee, workDate)
    requires Takes(s, step, t, employee, workDate)
    ensures TimelineInvariant(t, employee, workDate)
  {
    var out := Punch(step.id, Out, step.checkOut);
    AcceptedCheckOutClosesDay(s.days, step.key, out, step.now);
    forall other | other in s.days ensures !TwinOpen(s.days, step.key, other) {}
    AcceptedCheckOutStaysClear(s.days, step.key, out, step.now);
    StepStaysDated(s, step, t, employee, workDate);
  }

  /** A run of one employee's own punches and accepted missing check-outs, in any order, from no days at all. */
  ghost predicate TimelineRun(states: seq<Timeline>, steps: seq<TimelineStep>, employee: nat, workDate: int -> int) {
    && |states| == |steps| + 1 && states[0].days == map[]
    && forall n :: 0 <= n < |steps| ==> Takes(states[n], steps[n], states[n + 1], employee, workDate)
  }

  /** Over every run every day alternates and no two of the employee's intervals ever overlap. */
  lemma {:induction false} DaysNeverOverlap(states: seq<Timeline>, steps: seq<TimelineStep>, employee: nat,
      workDate: int -> int)
    requires NoDateComesBack(workDate) && TimelineRun(states, steps, employee, workDate)
    ensures TimelineInvariant(states[|steps|], employee, workDate)
  {
    if steps != [] {
      var n := |steps| - 1;
      DaysNeverOverlap(states[..n + 1], steps[..n], employee, workDate);
      var step := steps[n];
      if step.PunchNow? {
        PunchNowStaysClear(states[n], step.kind, step.at, step.id, states[n + 1], employee, workDate);
      } else {
        AddCheckOutStaysClear(states[n], step, states[n + 1], employee, workDate);
      }
    }
  }

  /**
   * Where a date comes back they do not: an employee who checks in on it, checks in on the date
   * between, and checks out when it is back, has two days of which the one covers the other.
   */
  lemma DateComingBackOverlaps(x: int, y: int, z: int, employee: nat, workDate: int -> int)
      returns (states: seq<Timeline>, steps: seq<TimelineStep>)
    requires x < y < z && workDate(x) == workDate(z) && workDate(y) != workDate(x)
    ensures TimelineRun(states, steps, employee, workDate) && !Clear(states[|steps|].days)
  {
    var first, second := Key(employee, workDate(x)), Key(employee, workDate(y));
    var a, b, c := Punch(1, In, x), Punch(2, In, y), Punch(3, Out, z);
    steps := [PunchNow(In, x, 1), PunchNow(In, y, 2), PunchNow(Out, z, 3)];
    states := [Timeline(map[], x - 1), Timeline(map[first := [a]], x), Timeline(map[first := [a], second := [b]], y),
               Timeline(map[first := [a, c], second := [b]], z)];
    assert [a] + [c] == [a, c] && [] + [a] == [a] && [] + [b] == [b];
    assert Takes(states[0], steps[0], states[1], employee, workDate);
    assert Takes(states[1], steps[1], states[2], employee, workDate);
    assert Takes(states[2], steps[2], states[3], employee, workDate);
    assert Covers(states[3].days, first, 1, second, 0);
  }

  ghost predicate EveryRunStaysClear(employee: nat, workDate: int -> int) {
    forall states: seq<Timeline>, steps: seq<TimelineStep> ::
      TimelineRun(states, steps, employee, workDate) ==> Clear(states[|steps|].days)
  }

  /** In any calendar whatever, an employee's days never overlap exactly when no date comes back. */
  lemma DaysNeverOverlapExactly(employee: nat, workDate: int -> int)
    ensures EveryRunStaysClear(employee, workDate) <==> NoDateComesBack(workDate)
  {
    if NoDateComesBack(workDate) {
      forall states: seq<Timeline>, steps: seq<TimelineStep> | TimelineRun(states, steps, employee, workDate)
        ensures Clear(states[|steps|].days)
      {
        DaysNeverOverlap(states, steps, employee, workDate);
      }
    } else {
      var x, y, z :| x < y < z && workDate(x) == workDate(z) && workDate(y) != workDate(x);
      var states, steps := DateComingBackOverlaps(x, y, z, employee, workDate);
    }
  }

  /**
   * In a zone with one clock change dates come back, and days can overlap, exactly when it turns the
   * clock back across a local midnight.
   */
  lemma DaysNeverOverlapInZone(employee: nat, zone: WallClock.Zone, change: int, before: int, after: int)
    requires forall at :: zone(at) == if at < change then before else after
    ensures EveryRunStaysClear(employee, at => WallClock.WorkDateInTimeZone(at, zone))
       <==> (change - 1 + before) / WallClock.DAY <= (change + after) / WallClock.DAY
  {
    var workDate := at => WallClock.WorkDateInTimeZone(at, zone);
    WallClock.DatesMoveForwardExactly(zone, change, before, after);
    if WallClock.DatesMoveForward(zone) {
      assert NoDateComesBack(workDate);
    } else {
      var z := WallClock.ComesBack(zone, change, before, after);
      assert change - 1 < change < z && workDate(change - 1) == workDate(z) && workDate(change) != workDate(z);
    }
    DaysNeverOverlapExactly(employee, workDate);
  }

  /**
   * With the clock turned back from half past midnight to half past eleven, an employee who checks in
   * before and after has two days open, and closing the first covers the second.
   */
  lemma TurnedBackAcrossMidnightOverlaps(zone: WallClock.Zone, employee: nat)
      returns (states: seq<Timeline>, steps: seq<TimelineStep>)
    requires forall at :: zone(at) == if at < 0 then WallClock.HOUR / 2 else -(WallClock.HOUR / 2)
    ensures TimelineRun(states, steps, employee, at => WallClock.WorkDateInTimeZone(at, zone))
    ensures !Clear(states[|steps|].days)
  {
    var workDate := at => WallClock.WorkDateInTimeZone(at, zone);
    assert workDate(-1) == 0 && workDate(0) == -1 && workDate(WallClock.HOUR) == 0;
    states, steps := DateComingBackOverlaps(-1, 0, WallClock.HOUR, employee, workDate);
  }
}
