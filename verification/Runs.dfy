/** Whole runs of the engine: what holds in every state an organization can reach. */
module Runs {
  import opened Common
  import opened MissingCheckOut
  import opened HolidayConflict
  import opened Approvers
  import opened Engine
  import opened RecordCache
  import opened CorrectionMachine
  import opened HolidayMachine
  import opened Sweep
  import Payroll

  /** The state after one operation; a refused one changes nothing. */
  function After(org: Organization, request: Request, s: State, a: Action): State {
    match Perform(org, request, s, a)
    case Ok(t) => t
    case Err(_) => s
  }

  /** Any operations by anyone, at any moment and in any order, from an organization with no data. */
  ghost predicate Run(org: Organization, states: seq<State>, requests: seq<Request>, actions: seq<Action>) {
    && |states| == |actions| + 1 && |requests| == |actions| && states[0] == EMPTY
    && forall n :: 0 <= n < |actions| ==> states[n + 1] == After(org, requests[n], states[n], actions[n])
  }

  lemma Shorter(org: Organization, states: seq<State>, requests: seq<Request>, actions: seq<Action>)
    requires Run(org, states, requests, actions) && actions != []
    ensures var n := |actions| - 1; Run(org, states[..n + 1], requests[..n], actions[..n])
  {
  }

  ghost predicate Sound(org: Organization, s: State) {
    MachineSound(org, s) && HolidaySound(s) && DraftsAreFresh(s) && RunIdsTaken(s)
  }

  lemma AfterIsSound(org: Organization, request: Request, s: State, a: Action)
    requires Sound(org, s)
    ensures Sound(org, After(org, request, s, a))
  {
    hide Perform, MachineSound, HolidaySound, DraftsAreFresh, RunIdsTaken;
    if Perform(org, request, s, a).Ok? {
      PerformKeepsMachine(org, request, s, a);
      PerformRefines(org, request, s, a);
      PerformKeepsRunRows(org, request, s, a);
    }
  }

  lemma StartsSound(org: Organization)
    ensures Sound(org, EMPTY)
  {
  }

  /** Every reachable state keeps approvals, holiday reviews and payroll rows sound. */
  lemma {:induction false} EveryStateIsSound(org: Organization, states: seq<State>, requests: seq<Request>,
      actions: seq<Action>)
    requires Run(org, states, requests, actions)
    ensures Sound(org, states[|actions|])
  {
    hide Sound;
    StartsSound(org);
    if actions != [] {
      var n := |actions| - 1;
      Shorter(org, states, requests, actions);
      hide Perform, After;
      EveryStateIsSound(org, states[..n + 1], requests[..n], actions[..n]);
      AfterIsSound(org, requests[n], states[n], actions[n]);
    }
  }

  // ---- Stored minutes ----

  /**
   * In every reachable state the stored minutes are those of the punches, and a kept holiday counts
   * none, as long as no approved correction miscounts the punches it moves.
   */
  lemma {:induction false} StoredMinutesAlwaysAgree(org: Organization, states: seq<State>, requests: seq<Request>,
      actions: seq<Action>)
    requires Run(org, states, requests, actions)
    requires forall n :: 0 <= n < |actions| ==> MovesKeepTotals(org, requests[n], states[n], actions[n])
    ensures AllAgree(states[|actions|], org.standardDay)
  {
    if actions != [] {
      var n := |actions| - 1;
      Shorter(org, states, requests, actions);
      hide Perform, AllAgree, MovesKeepTotals;
      forall m | 0 <= m < n ensures MovesKeepTotals(org, requests[..n][m], states[..n + 1][m], actions[..n][m]) {
        assert MovesKeepTotals(org, requests[m], states[m], actions[m]);
      }
      StoredMinutesAlwaysAgree(org, states[..n + 1], requests[..n], actions[..n]);
      assert MovesKeepTotals(org, requests[n], states[n], actions[n]);
      if Perform(org, requests[n], states[n], actions[n]).Ok? {
        PerformKeepsAgreement(org, requests[n], states[n], actions[n]);
      }
    }
  }

  /** Nothing is ever lost: a record, once there, is there in every later state, never at an older version. */
  lemma {:induction false} RecordsOnlyMoveOn(org: Organization, states: seq<State>, requests: seq<Request>,
      actions: seq<Action>, m: nat, key: Key)
    requires Run(org, states, requests, actions) && m <= |actions| && key in states[m].records
    ensures var s := states[|actions|];
            key in s.records && s.records[key].version >= states[m].records[key].version
            && (s.records[key].version == states[m].records[key].version ==> s.records[key] == states[m].records[key])
  {
    if m < |actions| {
      var n := |actions| - 1;
      Shorter(org, states, requests, actions);
      RecordsOnlyMoveOn(org, states[..n + 1], requests[..n], actions[..n], m, key);
      hide Perform;
      if Perform(org, requests[n], states[n], actions[n]).Ok? {
        PerformGrowsVersions(org, requests[n], states[n], actions[n]);
      }
    }
  }

  // ---- Payroll ----

  /**
   * In every reachable state a calculated run without a mark stands on the attendance as it is, so a
   * run offered for approval does; the one way out is advancing a draft to CALCULATED by hand.
   */
  lemma {:induction false} PayrollIsAlwaysCurrent(org: Organization, states: seq<State>, requests: seq<Request>,
      actions: seq<Action>)
    requires Run(org, states, requests, actions)
    requires forall n :: 0 <= n < |actions| ==> !(actions[n].DoAdvance? && actions[n].target.Calculated?)
    ensures PayrollCurrent(states[|actions|])
    ensures var s := states[|actions|];
            forall id :: id in s.runs && Payroll.NextRunTransition(s.runs[id]) == Some(Payroll.Approved) ==>
              s.runs[id].basis == Some(Payroll.InputsOver(InputsOf(s.records), s.runs[id].from, s.runs[id].to))
  {
    if actions != [] {
      var n := |actions| - 1;
      Shorter(org, states, requests, actions);
      EveryStateIsSound(org, states[..n + 1], requests[..n], actions[..n]);
      assert PayrollCurrent(states[n + 1]) by {
        hide Perform, PayrollCurrent;
        PayrollIsAlwaysCurrent(org, states[..n + 1], requests[..n], actions[..n]);
        if Perform(org, requests[n], states[n], actions[n]).Ok? {
          PerformKeepsPayrollCurrent(org, requests[n], states[n], actions[n]);
        }
      }
    }
  }

  // ---- Corrections ----

  /** How often a decision on this correction changed attendance records. */
  ghost function Rewrites(states: seq<State>, actions: seq<Action>, id: nat): nat
    requires |states| == |actions| + 1
  {
    if actions == [] then 0
    else
      var n := |actions| - 1;
      Rewrites(states[..n + 1], actions[..n], id)
      + if actions[n].DoDecide? && actions[n].id == id && states[n + 1].records != states[n].records then 1 else 0
  }

  /** One decision counts when it accepts the correction, which it can do only while undecided. */
  lemma RewriteCounts(org: Organization, request: Request, s: State, a: Action, id: nat)
    requires Sound(org, s)
    ensures var t := After(org, request, s, a);
            var counts := a.DoDecide? && a.id == id && t.records != s.records;
            && (counts ==> id in s.corrections && s.corrections[id].status.Undecided? && id in t.corrections)
            && (id in s.corrections ==>
                  && id in t.corrections
                  && (counts <==>
                        s.corrections[id].status != t.corrections[id].status && t.corrections[id].status.Accepted?)
                  && (!s.corrections[id].status.Undecided? ==> t.corrections[id] == s.corrections[id]))
            && (id in t.corrections && id !in s.corrections ==> t.corrections[id].status.Undecided?)
  {
    hide After, Sound;
    if a.DoDecide? && a.id == id {
      DecidingThis(org, request, s, a, id);
    } else {
      LeavingOthers(org, request, s, a, id);
    }
  }

  lemma DecidingThis(org: Organization, request: Request, s: State, a: Action, id: nat)
    requires Sound(org, s) && a.DoDecide? && a.id == id
    ensures var t := After(org, request, s, a);
            var counts := t.records != s.records;
            && (counts ==> id in s.corrections && s.corrections[id].status.Undecided? && id in t.corrections)
            && (id in t.corrections <==> id in s.corrections)
            && (id in s.corrections ==>
                  && (counts <==>
                        s.corrections[id].status != t.corrections[id].status && t.corrections[id].status.Accepted?)
                  && (!s.corrections[id].status.Undecided? ==> t.corrections[id] == s.corrections[id]))
  {
    if Perform(org, request, s, a).Ok? {
      DecideSettlesNextStep(org, request, s, id, a.approve, a.replacement);
      hide Decide, Perform;
    }
  }

  lemma LeavingOthers(org: Organization, request: Request, s: State, a: Action, id: nat)
    requires Sound(org, s) && !(a.DoDecide? && a.id == id)
    ensures var t := After(org, request, s, a);
            && (id in s.corrections ==> id in t.corrections && t.corrections[id] == s.corrections[id])
            && (id in t.corrections && id !in s.corrections ==> t.corrections[id].status.Undecided?)
  {
    assert RowsInPlace(s);
    hide Sound, Perform, RowsInPlace;
    if Perform(org, request, s, a).Ok? {
      OthersLeaveCorrection(org, request, s, a, id);
    }
  }

  /**
   * Over every run, decisions on a correction change records exactly once if it ends accepted and
   * never otherwise: not before the last step, not after a rejection, and not twice.
   */
  lemma {:induction false} RewrittenOnceIfAccepted(org: Organization, states: seq<State>, requests: seq<Request>,
      actions: seq<Action>, id: nat)
    requires Run(org, states, requests, actions)
    ensures var s := states[|actions|];
            Rewrites(states, actions, id) == if id in s.corrections && s.corrections[id].status.Accepted? then 1 else 0
  {
    if actions != [] {
      var n := |actions| - 1;
      Shorter(org, states, requests, actions);
      EveryStateIsSound(org, states[..n + 1], requests[..n], actions[..n]);
      RewrittenOnceIfAccepted(org, states[..n + 1], requests[..n], actions[..n], id);
      RewriteCounts(org, requests[n], states[n], actions[n], id);
      hide After, Sound;
    }
  }

  /**
   * In every reachable state, sweeps running as the system, a correction under a policy is on a record
   * that has a branch.
   */
  lemma {:induction false} RoutedAlwaysHaveBranch(org: Organization, states: seq<State>, requests: seq<Request>,
      actions: seq<Action>)
    requires Run(org, states, requests, actions)
    requires forall n :: 0 <= n < |actions| ==> SystemNamesNoBranch(requests[n], actions[n])
    ensures RoutedHaveBranch(states[|actions|])
  {
    if actions != [] {
      var n := |actions| - 1;
      Shorter(org, states, requests, actions);
      hide Perform, RoutedHaveBranch;
      forall m | 0 <= m < n ensures SystemNamesNoBranch(requests[..n][m], actions[..n][m]) {
        assert SystemNamesNoBranch(requests[m], actions[m]);
      }
      RoutedAlwaysHaveBranch(org, states[..n + 1], requests[..n], actions[..n]);
      assert SystemNamesNoBranch(requests[n], actions[n]);
      if Perform(org, requests[n], states[n], actions[n]).Ok? {
        PerformKeepsBranches(org, requests[n], states[n], actions[n]);
      }
    }
  }

  /**
   * So in every reachable state an undecided correction under a policy whose steps all have an
   * approver can be carried to the end, by one approval for each step left, exactly when what it asks
   * for can be applied to the record.
   */
  lemma UndecidedCanAlwaysFinish(org: Organization, states: seq<State>, requests: seq<Request>, actions: seq<Action>,
      id: nat, now: int, directory: Directory) returns (users: seq<nat>)
    requires Run(org, states, requests, actions)
    requires forall n :: 0 <= n < |actions| ==> SystemNamesNoBranch(requests[n], actions[n])
    requires var s := states[|actions|];
             id in s.corrections && s.corrections[id].status.Undecided? && s.corrections[id].policy.Some?
    ensures var s := states[|actions|];
            var c, end := s.corrections[id], ApproveInTurn(org, now, directory, s, id, users);
            && HasBranch(s, c.key)
            && (Resolvable(org, now, directory, s, c) ==>
                  && |users| == |StepsOf(s, c)| - |c.approvals|
                  && (end.Ok? <==> CanApply(now, s, c))
                  && (end.Ok? ==> id in end.value.corrections && end.value.corrections[id].status.Accepted?))
  {
    EveryStateIsSound(org, states, requests, actions);
    RoutedAlwaysHaveBranch(org, states, requests, actions);
    var s := states[|actions|];
    assert HasBranch(s, s.corrections[id].key) && MachineSound(org, s);
    hide Run, Sound, MachineSound, RoutedHaveBranch, Resolvable, CanApply, ApproveInTurn, StepsOf, SystemNamesNoBranch;
    users := [];
    if Resolvable(org, now, directory, s, s.corrections[id]) {
      users := RoutedCorrectionFinishes(org, now, directory, s, id);
    }
  }

  /** Over every run a day has at most one missing check-out pending, unless a general correction carried a second. */
  lemma {:induction false} OneProposalADay(org: Organization, states: seq<State>, requests: seq<Request>,
      actions: seq<Action>)
    requires Run(org, states, requests, actions)
    requires forall n :: 0 <= n < |actions| ==> !DoublesProposal(states[n], actions[n])
    ensures OneProposal(states[|actions|])
  {
    if actions != [] {
      var n := |actions| - 1;
      Shorter(org, states, requests, actions);
      forall m | 0 <= m < n ensures !DoublesProposal(states[..n + 1][m], actions[..n][m]) {
        assert !DoublesProposal(states[m], actions[m]);
      }
      EveryStateIsSound(org, states[..n + 1], requests[..n], actions[..n]);
      assert RowsInPlace(states[n]);
      hide Perform, Sound, RowsInPlace, OneProposal;
      OneProposalADay(org, states[..n + 1], requests[..n], actions[..n]);
      assert !DoublesProposal(states[n], actions[n]);
      if Perform(org, requests[n], states[n], actions[n]).Ok? {
        OneProposalKeptExactly(org, requests[n], states[n], actions[n]);
      }
    }
  }

  // ---- Holiday disputes ----

  /**
   * Over every run each day's dispute, as read from the tables, moves exactly as the machine does
   * and shows what the machine shows.
   */
  lemma {:induction false} DisputesFollowTheMachine(org: Organization, states: seq<State>, requests: seq<Request>,
      actions: seq<Action>, key: Key)
    requires Run(org, states, requests, actions)
    ensures DisputeOf(states[0], key) == START
    ensures ConflictFor(states[|actions|], key) == Shown(DisputeOf(states[|actions|], key))
    ensures forall n :: 0 <= n < |actions| ==>
              if Perform(org, requests[n], states[n], actions[n]).Ok?
              then Follows(states[n], states[n + 1], key, EventOf(states[n], actions[n], states[n + 1], key))
              else states[n + 1] == states[n]
  {
    StartIsSound();
    EveryStateIsSound(org, states, requests, actions);
    hide Perform;
    ConflictIsShown(states[|actions|], key);
    hide MachineSound, HolidaySound;
    forall n | 0 <= n < |actions| && Perform(org, requests[n], states[n], actions[n]).Ok?
      ensures Follows(states[n], states[n + 1], key, EventOf(states[n], actions[n], states[n + 1], key))
    {
      Prefix(org, states, requests, actions, n);
      EveryStateIsSound(org, states[..n + 1], requests[..n], actions[..n]);
      PerformRefines(org, requests[n], states[n], actions[n]);
    }
  }

  lemma Prefix(org: Organization, states: seq<State>, requests: seq<Request>, actions: seq<Action>, n: nat)
    requires Run(org, states, requests, actions) && n <= |actions|
    ensures Run(org, states[..n + 1], requests[..n], actions[..n])
  {
  }

  /** Once decided, a review is the same in every later state. */
  lemma {:induction false} ReviewsAreDecidedOnce(org: Organization, states: seq<State>, requests: seq<Request>,
      actions: seq<Action>, m: nat, r: Review)
    requires Run(org, states, requests, actions) && m <= |actions|
    requires r in states[m].reviews && !r.status.Pending?
    ensures r in states[|actions|].reviews
  {
    if m < |actions| {
      var n := |actions| - 1;
      Shorter(org, states, requests, actions);
      EveryStateIsSound(org, states[..n + 1], requests[..n], actions[..n]);
      ReviewsAreDecidedOnce(org, states[..n + 1], requests[..n], actions[..n], m, r);
      hide Perform;
      if Perform(org, requests[n], states[n], actions[n]).Ok? {
        DecidedReviewsStay(org, requests[n], states[n], actions[n], r);
      }
    }
  }
}
