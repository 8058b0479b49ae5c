/**
 * The minutes a day's punches amount to.
 *
 * A record's stored minutes are a summary of its punch list. This module gives the loop that
 * computes the summary, the fold it is specified by, and a second, loop-free account of the same
 * number: the minutes of the intervals of the alternating list the loop keeps.
 */
module Totals {
  import opened Common
  import Sorting

  const MINUTE: int := 60_000

  datatype PunchKind = In | Out
  datatype Punch = Punch(id: nat, kind: PunchKind, at: int)
  datatype DayTotals = DayTotals(worked: nat, overtime: nat, completed: bool)

  /** Where the loop stands: the check-in it has open, and the minutes it has counted. */
  datatype Tally = Tally(openAt: Option<int>, worked: nat)

  predicate NotAfter(a: Punch, b: Punch) { a.at <= b.at }

  /** The punches as every query reads them back: oldest first, ties in the order they were made. */
  function ByTime(punches: seq<Punch>): seq<Punch> { Sorting.Sort(NotAfter, punches) }

  ghost predicate InOrder(punches: seq<Punch>) {
    forall i, j :: 0 <= i < j < |punches| ==> punches[i].at <= punches[j].at
  }

  ghost predicate StrictlyInOrder(punches: seq<Punch>) {
    forall i, j :: 0 <= i < j < |punches| ==> punches[i].at < punches[j].at
  }

  /** In, out, in, out, and so on from a check-in. */
  ghost predicate Alternating(punches: seq<Punch>) {
    forall i :: 0 <= i < |punches| ==> (punches[i].kind == In <==> i % 2 == 0)
  }

  predicate HasOpenPunch(punches: seq<Punch>) {
    punches != [] && punches[|punches| - 1].kind == In
  }

  /** Why a punch is refused, given the day's punches as they are. */
  function IntervalRefusal(existing: seq<Punch>, kind: PunchKind, multipleSessions: bool): Option<Refusal> {
    if kind == In && HasOpenPunch(existing) then Some(Conflict(IntervalAlreadyOpen))
    else if kind == Out && !HasOpenPunch(existing) then Some(Conflict(NoOpenInterval))
    else if kind == In && !multipleSessions && |existing| >= 2 then Some(Conflict(SessionCompleted))
    else None
  }

  function Minutes(from: int, to: int): nat {
    if to - from < 0 then 0 else (to - from) / MINUTE
  }

  function Overtime(worked: nat, standardDay: nat): nat {
    if worked < standardDay then 0 else worked - standardDay
  }

  function Count(tally: Tally, punch: Punch): Tally {
    match (punch.kind, tally.openAt)
    case (In, None) => tally.(openAt := Some(punch.at))
    case (Out, Some(openAt)) => Tally(None, tally.worked + Minutes(openAt, punch.at))
    case _ => tally
  }

  function Scan(punches: seq<Punch>): Tally {
    if punches == [] then Tally(None, 0)
    else Count(Scan(punches[..|punches| - 1]), punches[|punches| - 1])
  }

  function TotalsOf(punches: seq<Punch>, standardDay: nat): DayTotals {
    var tally := Scan(punches);
    DayTotals(tally.worked, Overtime(tally.worked, standardDay), tally.worked > 0 && tally.openAt.None?)
  }

  method AttendanceTotals(punches: seq<Punch>, standardDay: nat) returns (totals: DayTotals)
    ensures totals == TotalsOf(punches, standardDay)
  {
    var openAt: Option<int> := None;
    var worked: nat := 0;
    for i := 0 to |punches|
      invariant Tally(openAt, worked) == Scan(punches[..i])
    {
      assert punches[..i + 1][..i] == punches[..i];
      var punch := punches[i];
      if punch.kind == In && openAt.None? {
        openAt := Some(punch.at);
      }
      if punch.kind == Out && openAt.Some? {
        worked := worked + Minutes(openAt.value, punch.at);
        openAt := None;
      }
    }
    assert punches[..|punches|] == punches;
    totals := DayTotals(worked, Overtime(worked, standardDay), worked > 0 && openAt.None?);
  }

  /** Whole minutes of sixty seconds, rounded down, and none where the end comes first. */
  lemma MinutesAreWhole(from: int, to: int)
    ensures from <= to ==> Minutes(from, to) * 60_000 <= to - from < (Minutes(from, to) + 1) * 60_000
    ensures to < from ==> Minutes(from, to) == 0
  {
  }

  // ---- What the loop keeps ----

  /** The punches the loop acts on: a check-in while nothing is open, a check-out while something is. */
  ghost function Kept(punches: seq<Punch>): seq<Punch> {
    if punches == [] then []
    else
      var front, last := punches[..|punches| - 1], punches[|punches| - 1];
      if (last.kind == In) == Scan(front).openAt.None? then Kept(front) + [last] else Kept(front)
  }

  /** The whole minutes of the first `n` in/out pairs; a trailing check-in counts nothing. */
  ghost function PairMinutes(pairs: seq<Punch>, n: nat): nat
    requires 2 * n <= |pairs|
  {
    if n == 0 then 0 else PairMinutes(pairs, n - 1) + Minutes(pairs[2 * n - 2].at, pairs[2 * n - 1].at)
  }

  /** The same pairs to the millisecond. */
  ghost function PairMilliseconds(pairs: seq<Punch>, n: nat): int
    requires 2 * n <= |pairs|
  {
    if n == 0 then 0 else PairMilliseconds(pairs, n - 1) + pairs[2 * n - 1].at - pairs[2 * n - 2].at
  }

  ghost function KeptMinutes(punches: seq<Punch>): nat {
    PairMinutes(Kept(punches), |Kept(punches)| / 2)
  }

  ghost function KeptMilliseconds(punches: seq<Punch>): int {
    PairMilliseconds(Kept(punches), |Kept(punches)| / 2)
  }

  /**
   * For every punch list, well formed or not: the last punch alone decides whether the loop ends
   * with an interval open.
   */
  lemma OpenPunchIsScanState(punches: seq<Punch>)
    ensures HasOpenPunch(punches) <==> Scan(punches).openAt.Some?
  {
  }

  lemma {:induction false} KeptAlternates(punches: seq<Punch>)
    ensures Alternating(Kept(punches))
    ensures |Kept(punches)| % 2 == 1 <==> Scan(punches).openAt.Some?
    ensures Scan(punches).openAt.Some? ==>
              Scan(punches).openAt.value == Kept(punches)[|Kept(punches)| - 1].at
  {
    if punches != [] {
      KeptAlternates(punches[..|punches| - 1]);
    }
  }

  lemma {:induction false} PairsOfLonger(pairs: seq<Punch>, punch: Punch, n: nat)
    requires 2 * n <= |pairs|
    ensures PairMinutes(pairs + [punch], n) == PairMinutes(pairs, n)
    ensures PairMilliseconds(pairs + [punch], n) == PairMilliseconds(pairs, n)
  {
    if n > 0 { PairsOfLonger(pairs, punch, n - 1); }
  }

  /** A punch at the end of a list either waits for its pair or completes one. */
  lemma PairsAppended(pairs: seq<Punch>, punch: Punch)
    ensures var n, longer := |pairs| / 2, pairs + [punch];
            if |pairs| % 2 == 1 then
              var open := pairs[|pairs| - 1];
              && |longer| / 2 == n + 1
              && PairMinutes(longer, n + 1) == PairMinutes(pairs, n) + Minutes(open.at, punch.at)
              && PairMilliseconds(longer, n + 1) == PairMilliseconds(pairs, n) + punch.at - open.at
            else
              && |longer| / 2 == n
              && PairMinutes(longer, n) == PairMinutes(pairs, n)
              && PairMilliseconds(longer, n) == PairMilliseconds(pairs, n)
  {
    PairsOfLonger(pairs, punch, |pairs| / 2);
    hide Minutes;
  }

  /** One more punch opens an interval, closes one and counts it, or changes nothing. */
  lemma KeptStep(punches: seq<Punch>)
    requires punches != []
    ensures var front, last := punches[..|punches| - 1], punches[|punches| - 1];
            var open := Scan(front).openAt;
            if last.kind == Out && open.Some? then
              && KeptMinutes(punches) == KeptMinutes(front) + Minutes(open.value, last.at)
              && KeptMilliseconds(punches) == KeptMilliseconds(front) + last.at - open.value
            else KeptMinutes(punches) == KeptMinutes(front) && KeptMilliseconds(punches) == KeptMilliseconds(front)
  {
    var front, last := punches[..|punches| - 1], punches[|punches| - 1];
    KeptAlternates(front);
    PairsAppended(Kept(front), last);
    hide Alternating, PairMinutes, PairMilliseconds, Minutes, Scan;
  }

  /** The minutes of any list are those of the alternating sublist it keeps, pair by pair. */
  lemma {:induction false} TotalsAreKeptPairs(punches: seq<Punch>)
    ensures Scan(punches).worked == KeptMinutes(punches)
  {
    if punches != [] {
      TotalsAreKeptPairs(punches[..|punches| - 1]);
      KeptStep(punches);
      hide KeptMinutes, KeptMilliseconds, Minutes;
    }
  }

  /** What the three figures mean, for any list at all. */
  lemma TotalsMean(punches: seq<Punch>, standardDay: nat)
    ensures var totals := TotalsOf(punches, standardDay);
            && totals.worked == KeptMinutes(punches)
            && totals.worked <= standardDay + totals.overtime
            && (totals.overtime > 0 ==> totals.worked == standardDay + totals.overtime)
            && (totals.completed <==> totals.worked > 0 && !HasOpenPunch(punches))
  {
    TotalsAreKeptPairs(punches);
    OpenPunchIsScanState(punches);
  }

  /** A list is kept whole exactly when it alternates from a check-in. */
  lemma {:induction false} KeptWhole(punches: seq<Punch>)
    ensures Kept(punches) == punches <==> Alternating(punches)
  {
    KeptAlternates(punches);
    if punches != [] && Alternating(punches) {
      var front := punches[..|punches| - 1];
      KeptWhole(front);
      KeptAlternates(front);
    }
  }

  lemma {:induction false} PairsBounds(pairs: seq<Punch>, n: nat)
    requires InOrder(pairs) && 2 * n <= |pairs|
    ensures PairMinutes(pairs, n) * MINUTE <= PairMilliseconds(pairs, n)
    ensures PairMilliseconds(pairs, n) <= PairMinutes(pairs, n) * MINUTE + n * (MINUTE - 1)
  {
    if n > 0 { PairsBounds(pairs, n - 1); }
  }

  lemma {:induction false} KeptInOrder(punches: seq<Punch>)
    requires InOrder(punches)
    ensures InOrder(Kept(punches))
    ensures forall p :: p in Kept(punches) ==> punches != [] && p.at <= punches[|punches| - 1].at
  {
    if punches != [] {
      KeptInOrder(punches[..|punches| - 1]);
      if |punches| > 1 { assert punches[|punches| - 2].at <= punches[|punches| - 1].at; }
    }
  }

  lemma {:induction false} KeptSpan(punches: seq<Punch>)
    requires punches != [] && InOrder(punches)
    ensures KeptMilliseconds(punches)
         <= (if Scan(punches).openAt.Some? then Scan(punches).openAt.value
             else punches[|punches| - 1].at) - punches[0].at
    ensures Scan(punches).openAt.Some? ==> Scan(punches).openAt.value <= punches[|punches| - 1].at
  {
    var front, last := punches[..|punches| - 1], punches[|punches| - 1];
    KeptStep(punches);
    if front == [] {
      assert Scan(front) == Tally(None, 0) && Kept(front) == [];
    } else {
      KeptSpan(front);
      hide KeptMinutes, KeptMilliseconds;
      assert Scan(punches) == Count(Scan(front), last);
      assert front[|front| - 1].at <= last.at;
    }
  }

  /**
   * On a time-ordered day the stored minutes never exceed the span from first to last punch, and
   * lose less than one minute for each interval against the exact time worked.
   */
  lemma WorkedWithinSpan(punches: seq<Punch>)
    requires punches != [] && InOrder(punches)
    ensures Scan(punches).worked <= (punches[|punches| - 1].at - punches[0].at) / MINUTE
    ensures Scan(punches).worked * MINUTE <= KeptMilliseconds(punches)
    ensures KeptMilliseconds(punches) - Scan(punches).worked * MINUTE
         <= (|Kept(punches)| / 2) * (MINUTE - 1)
  {
    TotalsAreKeptPairs(punches);
    KeptSpan(punches);
    KeptInOrder(punches);
    PairsBounds(Kept(punches), |Kept(punches)| / 2);
  }

  // ---- Adding one punch ----

  /** With one session a day, punching alone never gets an alternating day past one interval. */
  lemma SingleSessionIsOneInterval(existing: seq<Punch>, kind: PunchKind)
    requires Alternating(existing) && |existing| <= 2 && IntervalRefusal(existing, kind, false) == None
    ensures |existing| < 2 && (kind == Out <==> |existing| == 1)
  {
  }

  lemma NotAfterIsTotal()
    ensures Sorting.TotalPreorder(NotAfter)
  {
  }

  lemma ByTimeInOrder(punches: seq<Punch>)
    ensures InOrder(ByTime(punches))
  {
    NotAfterIsTotal();
    Sorting.SortOrders(NotAfter, punches);
    var sorted := ByTime(punches);
    forall i, j | 0 <= i < j < |sorted| ensures sorted[i].at <= sorted[j].at {
      assert NotAfter(sorted[i], sorted[j]);
    }
  }

  /** A list already in time order is read back as it stands. */
  lemma ByTimeOfInOrder(punches: seq<Punch>)
    requires InOrder(punches)
    ensures ByTime(punches) == punches
  {
    forall i, j | 0 <= i < j < |punches| ensures NotAfter(punches[i], punches[j]) {}
    Sorting.SortOfOrdered(NotAfter, punches);
  }

  lemma LastReadIsLatest(punches: seq<Punch>, punch: Punch)
    requires punch in punches
    ensures ByTime(punches) != [] && punch.at <= ByTime(punches)[|ByTime(punches)| - 1].at
  {
    Sorting.SortMembers(NotAfter, punches, punch);
    ByTimeInOrder(punches);
    var i :| 0 <= i < |ByTime(punches)| && ByTime(punches)[i] == punch;
  }

  lemma {:induction false} InsertPosition(punches: seq<Punch>, punch: Punch) returns (k: nat)
    ensures k <= |punches|
    ensures Sorting.Insert(NotAfter, punches, punch) == punches[..k] + [punch] + punches[k..]
    ensures k == |punches| <==> punches == [] || punches[|punches| - 1].at <= punch.at
  {
    if punches == [] || NotAfter(punches[|punches| - 1], punch) {
      k := |punches|;
    } else {
      var front, last := punches[..|punches| - 1], punches[|punches| - 1];
      k := InsertPosition(front, punch);
      assert punches == front + [last];
      assert punches[..k] == front[..k] && punches[k..] == front[k..] + [last];
    }
  }

  lemma AppendAlternates(punches: seq<Punch>, punch: Punch)
    requires Alternating(punches) && (punch.kind == In <==> !HasOpenPunch(punches))
    ensures Alternating(punches + [punch])
  {
    if punches != [] {
      assert punches[|punches| - 1].kind == In <==> (|punches| - 1) % 2 == 0;
    }
  }

  /**
   * Exactly when an accepted punch keeps the day alternating: when it is not back-dated. A punch
   * placed anywhere but last breaks the alternation, whatever its kind.
   */
  lemma AcceptedPunchAlternates(punches: seq<Punch>, punch: Punch)
    requires Alternating(ByTime(punches))
    requires punch.kind == In <==> !HasOpenPunch(ByTime(punches))
    ensures Alternating(ByTime(punches + [punch]))
       <==> (ByTime(punches) == [] || ByTime(punches)[|ByTime(punches)| - 1].at <= punch.at)
  {
    var before := ByTime(punches);
    Sorting.SortAppend(NotAfter, punches, punch);
    var k := InsertPosition(before, punch);
    var after := ByTime(punches + [punch]);
    if k < |before| {
      assert after[k + 1] == before[k];
      assert before[k].kind == In <==> k % 2 == 0;
      assert (k + 1) % 2 == 0 <==> k % 2 != 0;
    } else {
      assert after == before + [punch];
      AppendAlternates(before, punch);
    }
  }

  /** Closing an alternating day's open check-in adds exactly the minutes of the new interval. */
  lemma ClosingAddsInterval(punches: seq<Punch>, punch: Punch)
    requires HasOpenPunch(punches) && Alternating(punches) && punch.kind == Out
    ensures Scan(punches + [punch]).openAt.None?
    ensures Scan(punches + [punch]).worked
         == Scan(punches).worked + Minutes(punches[|punches| - 1].at, punch.at)
  {
    OpenPunchIsScanState(punches);
    KeptWhole(punches);
    KeptAlternates(punches);
    assert (punches + [punch])[..|punches|] == punches;
  }
}
