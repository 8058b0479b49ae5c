/**
 * The instant at which a wall-clock time falls on a date, in a zone whose offset may change.
 *
 * A zone is the function from an instant to how far local time is ahead of UTC there, both in
 * milliseconds. A calendar date is a number of days, as its midnight would be counted in UTC.
 */
module WallClock {
  import opened Common

  const HOUR: int := 3_600_000
  const DAY: int := 86_400_000

  type Zone = int -> int

  /** The clock face at an instant, read as if it were UTC. */
  function Local(at: int, zone: Zone): int { at + zone(at) }

  /** The calendar date a moment falls on. */
  function WorkDateInTimeZone(at: int, zone: Zone): int { Local(at, zone) / DAY }

  function ClockTime(dateKey: int, hour: int, minute: int): int {
    dateKey * DAY + hour * HOUR + minute * 60_000
  }

  /** A clock face the date parser accepts; it also reads 24:00 as the next midnight. */
  predicate ReadableTime(hour: int, minute: int) {
    (0 <= hour < 24 && 0 <= minute < 60) || (hour == 24 && minute == 0)
  }

  /** A clock face counts its minutes of sixty seconds since the first midnight of dates. */
  lemma ClockTimeInMinutes(dateKey: int, hour: int, minute: int)
    ensures ClockTime(dateKey, hour, minute) == ((dateKey * 24 + hour) * 60 + minute) * 60_000
  {
  }

  /** A moment lies in the twenty-four local hours of its work date. */
  lemma WorkDateHoldsTheMoment(at: int, zone: Zone)
    ensures ClockTime(WorkDateInTimeZone(at, zone), 0, 0) <= at + zone(at)
    ensures at + zone(at) < ClockTime(WorkDateInTimeZone(at, zone), 24, 0)
  {
  }

  /** The offset is read at the guess, applied, and read again at the corrected instant. */
  function TwoPass(guess: int, zone: Zone): int {
    var first := guess - zone(guess);
    guess - zone(first)
  }

  function InstantAtLocalTime(dateKey: int, hour: int, minute: int, zone: Zone): Result<int, Refusal> {
    if !ReadableTime(hour, minute) then Err(Conflict(InvalidCloseTime))
    else Ok(TwoPass(ClockTime(dateKey, hour, minute), zone))
  }

  /** A time is read up to and including the midnight that ends the day; nothing else is refused. */
  lemma TimesOfTheDayAreRead(dateKey: int, hour: int, minute: int, zone: Zone)
    ensures InstantAtLocalTime(dateKey, hour, minute, zone).Ok? <==> 0 <= minute < 60 && 0 <= hour * 60 + minute <= 1440
    ensures InstantAtLocalTime(dateKey, hour, minute, zone).Err? ==>
              InstantAtLocalTime(dateKey, hour, minute, zone).error == Conflict(InvalidCloseTime)
  {
  }

  /**
   * The zone's offset is `before` until `change` and `after` from then on, as far as `reach` either side
   * of `around`.
   */
  ghost predicate OneChange(zone: Zone, around: int, reach: int, change: int, before: int, after: int) {
    && (forall at :: -reach <= zone(at) <= reach)
    && -reach <= before <= reach && -reach <= after <= reach
    && (forall at :: around - reach <= at <= around + reach ==> zone(at) == if at < change then before else after)
  }

  /** Local times the clock jumps over: it reads `change + before` and shows `change + after`. */
  ghost predicate Skipped(local: int, change: int, before: int, after: int) {
    change + before <= local < change + after
  }

  ghost predicate Repeated(local: int, change: int, before: int, after: int) {
    change + after <= local < change + before
  }

  /** Whatever the zone does, the result shows the time asked for exactly when the second reading agrees at it. */
  lemma ExactWhenSettled(guess: int, zone: Zone)
    ensures Local(TwoPass(guess, zone), zone) == guess
       <==> zone(TwoPass(guess, zone)) == zone(guess - zone(guess))
  {
  }

  /** With one change nearby, a clock face exists at some instant exactly when it is not skipped. */
  lemma ExistsUnlessSkipped(guess: int, zone: Zone, reach: int, change: int, before: int, after: int)
    requires OneChange(zone, guess, reach, change, before, after)
    ensures (exists at :: Local(at, zone) == guess) <==> !Skipped(guess, change, before, after)
  {
    if Skipped(guess, change, before, after) {
      forall at ensures Local(at, zone) != guess {}
    } else if guess - before < change {
      assert Local(guess - before, zone) == guess;
    } else {
      assert Local(guess - after, zone) == guess;
    }
  }

  /**
   * The conversion is exact wherever an exact answer exists: outside a skipped hour the result shows
   * the very time asked for, in a repeated hour too.
   */
  lemma ExactOutsideGaps(guess: int, zone: Zone, reach: int, change: int, before: int, after: int)
    requires OneChange(zone, guess, reach, change, before, after)
    ensures Local(TwoPass(guess, zone), zone) == guess <==> exists at :: Local(at, zone) == guess
  {
  }

  /** In a repeated hour the first reading is chosen when the guess lies before the change, else the second. */
  lemma RepeatedHourReading(guess: int, zone: Zone, reach: int, change: int, before: int, after: int)
    requires OneChange(zone, guess, reach, change, before, after) && Repeated(guess, change, before, after)
    ensures TwoPass(guess, zone) == if guess < change then guess - before else guess - after
    ensures TwoPass(guess, zone) < change <==> guess < change
  {
  }

  /**
   * In a skipped hour no instant shows the time asked for. The result misses it by exactly the size
   * of the jump: early when the guess lies before the change, late when it lies after.
   */
  lemma SkippedHourMissesByTheJump(guess: int, zone: Zone, reach: int, change: int, before: int, after: int)
    requires OneChange(zone, guess, reach, change, before, after) && Skipped(guess, change, before, after)
    ensures Local(TwoPass(guess, zone), zone)
         == if guess < change then guess - (after - before) else guess + (after - before)
  {
  }

  lemma DateOfClockTime(dateKey: int, hour: int, minute: int)
    requires 0 <= hour < 24 && 0 <= minute < 60
    ensures ClockTime(dateKey, hour, minute) / DAY == dateKey
  {
    var rest := hour * HOUR + minute * 60_000;
    assert 0 <= rest < DAY;
    assert ClockTime(dateKey, hour, minute) == DAY * dateKey + rest;
  }

  /** Outside a skipped hour a close lands on the calendar date it was asked for. */
  lemma ClosesOnItsOwnDate(dateKey: int, hour: int, minute: int, zone: Zone, reach: int, change: int, before: int,
      after: int)
    requires 0 <= hour < 24 && 0 <= minute < 60
    requires OneChange(zone, ClockTime(dateKey, hour, minute), reach, change, before, after)
    requires !Skipped(ClockTime(dateKey, hour, minute), change, before, after)
    ensures InstantAtLocalTime(dateKey, hour, minute, zone).Ok?
    ensures WorkDateInTimeZone(InstantAtLocalTime(dateKey, hour, minute, zone).value, zone) == dateKey
  {
    ExactOutsideGaps(ClockTime(dateKey, hour, minute), zone, reach, change, before, after);
    DateOfClockTime(dateKey, hour, minute);
  }

  /**
   * Inside one it need not: where the clock jumps from midnight to one, west of UTC, a close at
   * 00:30 lands at 23:30 on the day before.
   */
  lemma SkippedMidnightClosesTheDayBefore(zone: Zone)
    requires forall at :: zone(at) == if at < 3 * HOUR then -3 * HOUR else -2 * HOUR
    ensures InstantAtLocalTime(0, 0, 30, zone).Ok?
    ensures WorkDateInTimeZone(InstantAtLocalTime(0, 0, 30, zone).value, zone) == -1
  {
  }

  /**
   * Inside a gap the close keeps its date exactly when the miss does not carry it over a midnight:
   * early by the jump it must not start before its day, late by the jump not end after it.
   */
  lemma SkippedHourKeepsItsDateExactly(dateKey: int, hour: int, minute: int, zone: Zone, reach: int, change: int,
      before: int, after: int)
    requires 0 <= hour < 24 && 0 <= minute < 60 && after - before <= DAY
    requires OneChange(zone, ClockTime(dateKey, hour, minute), reach, change, before, after)
    requires Skipped(ClockTime(dateKey, hour, minute), change, before, after)
    ensures InstantAtLocalTime(dateKey, hour, minute, zone).Ok?
    ensures var rest := hour * HOUR + minute * 60_000;
            WorkDateInTimeZone(InstantAtLocalTime(dateKey, hour, minute, zone).value, zone) == dateKey <==>
              (if ClockTime(dateKey, hour, minute) < change then rest >= after - before
               else rest + (after - before) < DAY)
  {
    var guess, rest, jump := ClockTime(dateKey, hour, minute), hour * HOUR + minute * 60_000, after - before;
    SkippedHourMissesByTheJump(guess, zone, reach, change, before, after);
    assert 0 <= rest < DAY && guess == DAY * dateKey + rest;
    DateOf(dateKey, if guess < change then rest - jump else rest + jump);
  }

  lemma DateOf(dateKey: int, rest: int)
    ensures (DAY * dateKey + rest) / DAY == dateKey <==> 0 <= rest < DAY
  {
  }

  /** Dates never run backwards. */
  ghost predicate DatesMoveForward(zone: Zone) {
    forall a, b :: a <= b ==> WorkDateInTimeZone(a, zone) <= WorkDateInTimeZone(b, zone)
  }

  /** In a zone with one clock change they do exactly when turning the clock back crosses no local midnight. */
  lemma DatesMoveForwardExactly(zone: Zone, change: int, before: int, after: int)
    requires forall at :: zone(at) == if at < change then before else after
    ensures DatesMoveForward(zone) <==> (change - 1 + before) / DAY <= (change + after) / DAY
  {
    DividesForward();
    assert Local(change - 1, zone) == change - 1 + before && Local(change, zone) == change + after;
    if (change - 1 + before) / DAY <= (change + after) / DAY {
      forall a, b | a <= b ensures WorkDateInTimeZone(a, zone) <= WorkDateInTimeZone(b, zone) {
        if a < change <= b {
          assert WorkDateInTimeZone(a, zone) <= (change - 1 + before) / DAY;
          assert (change + after) / DAY <= WorkDateInTimeZone(b, zone);
        }
      }
    } else {
      assert WorkDateInTimeZone(change - 1, zone) > WorkDateInTimeZone(change, zone);
    }
  }

  /** Otherwise the date the clock was turned back from begins again, at its midnight. */
  lemma ComesBack(zone: Zone, change: int, before: int, after: int) returns (again: int)
    requires forall at :: zone(at) == if at < change then before else after
    requires (change - 1 + before) / DAY > (change + after) / DAY
    ensures change < again && WorkDateInTimeZone(again, zone) == WorkDateInTimeZone(change - 1, zone)
    ensures WorkDateInTimeZone(change, zone) < WorkDateInTimeZone(again, zone)
  {
    var date := (change - 1 + before) / DAY;
    again := date * DAY - after;
    assert change + after < date * DAY;
    assert Local(again, zone) == DAY * date;
  }

  lemma DividesForward()
    ensures forall a: int, b: int :: a <= b ==> a / DAY <= b / DAY
  {
  }
}
