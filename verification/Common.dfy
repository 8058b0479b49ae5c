/** Outcomes of an operation, and the reasons the services give for refusing one. */
module Common {

  datatype Option<+T> = None | Some(value: T)

  datatype Result<+T, +E> = Ok(value: T) | Err(error: E)

  /** A refusal. The transaction around it rolls back, so a refused operation changes nothing. */
  datatype Refusal =
    | NotFound
    | Conflict(reason: Reason)
    | Forbidden

  /** One constructor for each message of a conflict. */
  datatype Reason =
    // punching
    | StatusOfAnotherWorkflow
    | IntervalAlreadyOpen
    | NoOpenInterval
    | SessionCompleted
    // moving a punch
    | CheckInNotADate
    | CheckOutNotADate
    | CheckInPunchMissing
    | CheckOutPunchMissing
    | CheckOutBeforeCheckIn
    // a missing check-out
    | DayWithoutCheckIn
    | DayAlreadyCheckedOut
    | CheckOutNotAfterCheckIn
    | CheckOutInTheFuture
    | CheckOutBeyondADay
    | CheckOutPastNextPunch
    | CheckOutAlreadyProposed
    | CheckOutTimeInvalid
    | TimeNotReplaceable
    | AddsNoCheckOut
    | InvalidCloseTime
    // routing
    | NoPolicyForCorrections
    | BranchRequired
    | NoReportingManager
    | OwnRequest
    | DirectApproverMissing
    | DirectApproverOutsideBranch
    | ApprovalRoleMissing
    | NoMemberOfRole
    // deciding
    | HumanApproverRequired
    | CorrectionAlreadyDecided
    | NothingPending
    // holiday reviews
    | NoGrantedHoliday
    | AlreadyAwaitingDecision
    | HolidayAlreadyKept
    | ReviewAlreadyDecided
    | NoPolicyForReviews
    | SelectionNotActive
    // policies
    | PolicyWithoutSteps
    | StepNumbersRepeat
    | ApproverTypeMismatch
    | StepsHaveHistory
    | UniqueConstraintFailed
    // payroll
    | InvalidPayrollTransition
    | RunNotCalculable
    | RunIsStale
    // listing and work locations
    | OnlyOwnRecords
    | LocationNamesRepeat
    | LocationInvalid
    | LocationOfAnotherScope
}

/** Stable ordering: what `ORDER BY` and `Array.prototype.sort` do with a consistent comparator. */
module Sorting {

  ghost predicate TotalPreorder<T(!new)>(le: (T, T) -> bool) {
    && (forall a, b :: le(a, b) || le(b, a))
    && (forall a, b, c :: le(a, b) && le(b, c) ==> le(a, c))
  }

  ghost predicate Ordered<T>(le: (T, T) -> bool, s: seq<T>) {
    forall i, j :: 0 <= i < j < |s| ==> le(s[i], s[j])
  }

  /** Puts `x` behind every trailing element that may precede it, so equal elements keep their order. */
  function Insert<T>(le: (T, T) -> bool, s: seq<T>, x: T): (r: seq<T>)
    ensures |r| == |s| + 1
  {
    if s == [] || le(s[|s| - 1], x) then s + [x]
    else Insert(le, s[..|s| - 1], x) + [s[|s| - 1]]
  }

  function Sort<T>(le: (T, T) -> bool, s: seq<T>): (r: seq<T>)
    ensures |r| == |s|
  {
    if s == [] then [] else Insert(le, Sort(le, s[..|s| - 1]), s[|s| - 1])
  }

  lemma {:induction false} InsertPermutes<T>(le: (T, T) -> bool, s: seq<T>, x: T)
    ensures multiset(Insert(le, s, x)) == multiset(s) + multiset{x}
  {
    if s != [] && !le(s[|s| - 1], x) {
      InsertPermutes(le, s[..|s| - 1], x);
      assert s == s[..|s| - 1] + [s[|s| - 1]];
    }
  }

  lemma {:induction false} SortPermutes<T>(le: (T, T) -> bool, s: seq<T>)
    ensures multiset(Sort(le, s)) == multiset(s)
  {
    if s != [] {
      SortPermutes(le, s[..|s| - 1]);
      InsertPermutes(le, Sort(le, s[..|s| - 1]), s[|s| - 1]);
      assert s == s[..|s| - 1] + [s[|s| - 1]];
    }
  }

  lemma {:induction false} InsertOrders<T(!new)>(le: (T, T) -> bool, s: seq<T>, x: T)
    requires TotalPreorder(le) && Ordered(le, s)
    ensures Ordered(le, Insert(le, s, x))
  {
    if s != [] {
      var last := s[|s| - 1];
      if le(last, x) {
        forall i | 0 <= i < |s| ensures le(s[i], x) {
          assert i < |s| - 1 ==> le(s[i], last);
        }
      } else {
        var front := s[..|s| - 1];
        InsertOrders(le, front, x);
        InsertPermutes(le, front, x);
        var r := Insert(le, front, x);
        forall i | 0 <= i < |r| ensures le(r[i], last) {
          assert r[i] in multiset(front) + multiset{x};
        }
      }
    }
  }

  lemma {:induction false} SortOrders<T(!new)>(le: (T, T) -> bool, s: seq<T>)
    requires TotalPreorder(le)
    ensures Ordered(le, Sort(le, s))
  {
    if s != [] {
      SortOrders(le, s[..|s| - 1]);
      InsertOrders(le, Sort(le, s[..|s| - 1]), s[|s| - 1]);
    }
  }

  lemma {:induction false} SortOfOrdered<T>(le: (T, T) -> bool, s: seq<T>)
    requires Ordered(le, s)
    ensures Sort(le, s) == s
  {
    if s != [] {
      SortOfOrdered(le, s[..|s| - 1]);
      if |s| > 1 { assert le(s[|s| - 2], s[|s| - 1]); }
    }
  }

  lemma SortAppend<T>(le: (T, T) -> bool, s: seq<T>, x: T)
    ensures Sort(le, s + [x]) == Insert(le, Sort(le, s), x)
  {
  }

  lemma SortMembers<T>(le: (T, T) -> bool, s: seq<T>, x: T)
    ensures x in Sort(le, s) <==> x in s
  {
    SortPermutes(le, s);
    assert x in multiset(Sort(le, s)) <==> x in multiset(s);
  }
}

/** The least member of a finite set of integers. */
module Least {
  import opened Common

  lemma EmptyOrInhabited(times: set<int>)
    ensures times == {} || exists t: int :: t in times
  {
    if forall t: int :: t !in times { assert times == {}; }
  }

  lemma {:induction false} LeastOf(times: set<int>) returns (m: int)
    requires times != {}
    ensures m in times && forall t :: t in times ==> m <= t
  {
    EmptyOrInhabited(times);
    var one: int :| one in times;
    var rest := times - {one};
    m := one;
    if rest != {} {
      var n := LeastOf(rest);
      m := if n <= one then n else one;
    }
    forall t | t in times ensures m <= t {
      if t != one { assert t in rest; }
    }
  }

  function Earliest(times: set<int>): (m: Option<int>)
    ensures m.None? <==> times == {}
    ensures m.Some? ==> m.value in times && forall t :: t in times ==> m.value <= t
  {
    if times == {} then None
    else
      assert exists m :: m in times && forall t :: t in times ==> m <= t by { var m := LeastOf(times); }
      var m :| m in times && forall t :: t in times ==> m <= t;
      Some(m)
  }
}

/** Strings, as far as trimming, case and searching go. */
module Text {

  predicate IsSpace(c: char) {
    || c in {'\t', '\n', '\U{0B}', '\U{0C}', '\r', ' ', '\U{A0}', '\U{1680}'} || '\U{2000}' <= c <= '\U{200A}'
    || c in {'\U{2028}', '\U{2029}', '\U{202F}', '\U{205F}', '\U{3000}', '\U{FEFF}'}
  }

  function TrimStart(s: string): string {
    if s != [] && IsSpace(s[0]) then TrimStart(s[1..]) else s
  }

  function TrimEnd(s: string): string {
    if s != [] && IsSpace(s[|s| - 1]) then TrimEnd(s[..|s| - 1]) else s
  }

  function Trim(s: string): string { TrimEnd(TrimStart(s)) }

  function Lowered(s: string, fold: char -> char): string { seq(|s|, i requires 0 <= i < |s| => fold(s[i])) }

  predicate Includes(s: string, needle: string) {
    exists i :: 0 <= i <= |s| && needle <= s[i..]
  }

  ghost predicate Blank(s: string) { forall i :: 0 <= i < |s| ==> IsSpace(s[i]) }

  lemma {:induction false} TrimStartExactly(s: string)
    ensures TrimStart(s) == [] <==> Blank(s)
    ensures TrimStart(s) != [] ==> !IsSpace(TrimStart(s)[0])
  {
    if s != [] && IsSpace(s[0]) {
      TrimStartExactly(s[1..]);
      if Blank(s[1..]) {
        forall i | 0 <= i < |s| ensures IsSpace(s[i]) { assert i > 0 ==> s[i] == s[1..][i - 1]; }
      }
    }
  }

  lemma {:induction false} TrimEndKeeps(s: string)
    requires s != [] && !IsSpace(s[0])
    ensures TrimEnd(s) != []
  {
    if IsSpace(s[|s| - 1]) { TrimEndKeeps(s[..|s| - 1]); }
  }

  /** Nothing is left of a string exactly when it is blank. */
  lemma TrimmedAwayExactly(s: string)
    ensures Trim(s) == [] <==> Blank(s)
  {
    TrimStartExactly(s);
    if TrimStart(s) != [] { TrimEndKeeps(TrimStart(s)); }
  }

  // ---- Said of the text itself ----

  /** The white space and line terminators of ECMAScript, by code point. */
  lemma SpacesByCode(c: char)
    ensures IsSpace(c) <==>
              || 9 <= c as int <= 13 || c as int in {32, 160, 5760} || 8192 <= c as int <= 8202
              || c as int in {8232, 8233, 8239, 8287, 12288, 65279}
  {
  }

  lemma {:induction false} StartCutOff(s: string) returns (k: nat)
    ensures k <= |s| && TrimStart(s) == s[k..] && Blank(s[..k]) && (k < |s| ==> !IsSpace(s[k]))
  {
    if s != [] && IsSpace(s[0]) {
      k := StartCutOff(s[1..]);
      assert s[1..][k..] == s[k + 1..];
      forall i | 0 <= i < k + 1 ensures IsSpace(s[i]) { assert i > 0 ==> s[i] == s[1..][..k][i - 1]; }
      k := k + 1;
    } else {
      k := 0;
    }
  }

  lemma {:induction false} EndCutOff(s: string) returns (k: nat)
    ensures k <= |s| && TrimEnd(s) == s[..k] && Blank(s[k..]) && (k > 0 ==> !IsSpace(s[k - 1]))
  {
    if s != [] && IsSpace(s[|s| - 1]) {
      var front := s[..|s| - 1];
      k := EndCutOff(front);
      assert front[..k] == s[..k];
      forall i | k <= i < |s| ensures IsSpace(s[i]) { assert i < |s| - 1 ==> s[i] == front[k..][i - k]; }
    } else {
      k := |s|;
    }
  }

  /** Trimming takes white space off both ends, and all of it: what is left begins and ends with none. */
  lemma TrimCutsOffBlanks(s: string) returns (before: string, after: string)
    ensures s == before + Trim(s) + after && Blank(before) && Blank(after)
    ensures Trim(s) != [] ==> !IsSpace(Trim(s)[0]) && !IsSpace(Trim(s)[|Trim(s)| - 1])
  {
    var k := StartCutOff(s);
    var m := EndCutOff(TrimStart(s));
    before, after := s[..k], TrimStart(s)[m..];
    assert s == s[..k] + s[k..] && s[k..] == s[k..][..m] + s[k..][m..];
  }

  /** A text includes another exactly when it is that other with something before and something behind it. */
  lemma IncludesExactly(s: string, needle: string)
    ensures Includes(s, needle) <==> exists before, after :: s == before + needle + after
  {
    if Includes(s, needle) {
      var i :| 0 <= i <= |s| && needle <= s[i..];
      assert s[i..] == needle + s[i..][|needle|..];
      assert s == s[..i] + needle + s[i..][|needle|..];
    }
    if before, after :| s == before + needle + after {
      assert s[|before|..] == needle + after && needle <= s[|before|..];
    }
  }
}
