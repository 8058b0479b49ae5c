/**
 * Punches and final approvals of missing check-outs racing on one attendance record.
 *
 * Each transaction is split where others can get in between: it starts with the time it means to
 * write, waits for the record's row lock, reads the punches again under it, checks, and commits.
 * Reads see committed punches only. A punch takes the lock through its upsert, an approval through
 * its `FOR UPDATE`.
 */
module Interleaving {
  import opened Common
  import opened Totals
  import opened MissingCheckOut
  import Sorting

  datatype Order =
    | PunchOrder(kind: PunchKind, at: int)
    | CloseOrder(at: int)

  datatype Phase =
    | Waiting
    | Locked
    | Reread(seen: seq<Punch>, now: int, nextPunchAt: Option<int>)
    | Checked(seen: seq<Punch>)
    | Committed
    | Refused

  datatype Transaction = Transaction(order: Order, phase: Phase)

  /** `stored` is the summary on the record's row; a committed punch carries its transaction's number. */
  datatype World = World(
    punches: seq<Punch>,
    stored: DayTotals,
    lock: Option<nat>,
    transactions: map<nat, Transaction>,
    clock: int
  )

  datatype Rules = Rules(standardDay: nat, multipleSessions: bool)

  /** What another day may hold after this one is read when the check runs, so it is part of the action. */
  datatype Action =
    | BeginSelfPunch(pid: nat, kind: PunchKind, at: int)
    | BeginPunchFor(pid: nat, kind: PunchKind, at: int)
    | BeginClose(pid: nat, at: int)
    | Lock(pid: nat)
    | ReadAgain(pid: nat, now: int, nextPunchAt: Option<int>)
    | Check(pid: nat)
    | Commit(pid: nat)

  function WrittenPunch(pid: nat, order: Order): Punch {
    Punch(pid, if order.PunchOrder? then order.kind else Out, order.at)
  }

  predicate Passes(order: Order, seen: seq<Punch>, now: int, nextPunchAt: Option<int>, rules: Rules) {
    match order
    case PunchOrder(kind, _) => IntervalRefusal(seen, kind, rules.multipleSessions) == None
    case CloseOrder(at) => AssertValidMissingCheckOut(seen, at, now, nextPunchAt) == None
  }

  /** A punch totals a fresh read that includes it; an approval totals what it read plus its check-out. */
  function TotalledList(w: World, pid: nat, order: Order, seen: seq<Punch>): seq<Punch> {
    if order.PunchOrder? then ByTime(w.punches + [WrittenPunch(pid, order)]) else seen + [WrittenPunch(pid, order)]
  }

  predicate Enabled(w: World, a: Action) {
    match a
    case BeginSelfPunch(pid, _, at) => pid !in w.transactions && w.clock <= at
    case BeginPunchFor(pid, _, _) => pid !in w.transactions
    case BeginClose(pid, _) => pid !in w.transactions
    case Lock(pid) => pid in w.transactions && w.transactions[pid].phase == Waiting && w.lock == None
    case ReadAgain(pid, now, _) => pid in w.transactions && w.transactions[pid].phase == Locked && w.clock <= now
    case Check(pid) => pid in w.transactions && w.transactions[pid].phase.Reread?
    case Commit(pid) => pid in w.transactions && w.transactions[pid].phase.Checked?
  }

  function Moved(w: World, pid: nat, phase: Phase): World
    requires pid in w.transactions
  {
    w.(transactions := w.transactions[pid := w.transactions[pid].(phase := phase)])
  }

  function Begun(w: World, pid: nat, order: Order): World {
    w.(transactions := w.transactions[pid := Transaction(order, Waiting)])
  }

  function Step(w: World, a: Action, rules: Rules): World
    requires Enabled(w, a)
  {
    match a
    case BeginSelfPunch(pid, kind, at) => Begun(w, pid, PunchOrder(kind, at)).(clock := at)
    case BeginPunchFor(pid, kind, at) => Begun(w, pid, PunchOrder(kind, at))
    case BeginClose(pid, at) => Begun(w, pid, CloseOrder(at))
    case Lock(pid) => Moved(w, pid, Locked).(lock := Some(pid))
    case ReadAgain(pid, now, nextPunchAt) => Moved(w, pid, Reread(ByTime(w.punches), now, nextPunchAt)).(clock := now)
    case Check(pid) =>
      var t := w.transactions[pid];
      if Passes(t.order, t.phase.seen, t.phase.now, t.phase.nextPunchAt, rules) then
        Moved(w, pid, Checked(t.phase.seen))
      else Moved(w, pid, Refused).(lock := None)
    case Commit(pid) =>
      var t := w.transactions[pid];
      Moved(w, pid, Committed).(
        punches := w.punches + [WrittenPunch(pid, t.order)],
        stored := TotalsOf(TotalledList(w, pid, t.order, t.phase.seen), rules.standardDay),
        lock := None)
  }

  /** The punch is not back-dated: when its transaction commits it is later than the day's punches. */
  ghost predicate Timely(w: World, a: Action) {
    a.Commit? && a.pid in w.transactions && w.transactions[a.pid].order.PunchOrder? ==>
      forall p :: p in w.punches ==> p.at < w.transactions[a.pid].order.at
  }

  // ---- What every interleaving keeps ----

  ghost predicate InCriticalSection(phase: Phase) { phase.Locked? || phase.Reread? || phase.Checked? }

  /** What a transaction saw under the lock is still what is committed, and its check still holds. */
  ghost predicate ReadIsCurrent(punches: seq<Punch>, pid: nat, t: Transaction) {
    && (t.phase.Reread? || t.phase.Checked? ==> t.phase.seen == punches)
    && (t.phase.Checked? ==> (WrittenPunch(pid, t.order).kind == In <==> !HasOpenPunch(punches)))
    && (t.phase.Checked? && t.order.CloseOrder? ==> punches != [] && punches[|punches| - 1].at < t.order.at)
  }

  /** Only the lock holder is past its lock, and what it read is current. */
  ghost predicate TransactionsAreSound(w: World) {
    forall pid :: pid in w.transactions ==>
      && (InCriticalSection(w.transactions[pid].phase) ==> w.lock == Some(pid))
      && ReadIsCurrent(w.punches, pid, w.transactions[pid])
  }

  ghost predicate DayIsSound(w: World, rules: Rules) {
    Alternating(w.punches) && StrictlyInOrder(w.punches) && w.stored == TotalsOf(w.punches, rules.standardDay)
  }

  /** Every punch was written by one committed transaction, and every committed one wrote one punch. */
  ghost predicate PunchesAreCommitted(w: World) {
    && (forall i :: 0 <= i < |w.punches| ==>
          var pid := w.punches[i].id;
          pid in w.transactions && w.transactions[pid].phase.Committed?
          && w.punches[i] == WrittenPunch(pid, w.transactions[pid].order))
    && (forall pid :: pid in w.transactions && w.transactions[pid].phase.Committed? ==>
          WrittenPunch(pid, w.transactions[pid].order) in w.punches)
  }

  ghost predicate Invariant(w: World, rules: Rules) {
    TransactionsAreSound(w) && DayIsSound(w, rules) && PunchesAreCommitted(w)
  }

  lemma SoundDayReadsInOrder(w: World, rules: Rules)
    requires DayIsSound(w, rules)
    ensures ByTime(w.punches) == w.punches
  {
    ByTimeOfInOrder(w.punches);
  }

  /** The punch about to be committed is later than the day's, and fits its end. */
  lemma CommitFits(w: World, pid: nat, rules: Rules)
    requires Invariant(w, rules) && Enabled(w, Commit(pid)) && Timely(w, Commit(pid))
    ensures var punch := WrittenPunch(pid, w.transactions[pid].order);
            && w.transactions[pid].phase.seen == w.punches
            && (punch.kind == In <==> !HasOpenPunch(w.punches))
            && StrictlyInOrder(w.punches + [punch])
  {
  }

  lemma CommitKeepsDaySound(w: World, pid: nat, rules: Rules)
    requires Invariant(w, rules) && Enabled(w, Commit(pid)) && Timely(w, Commit(pid))
    ensures DayIsSound(Step(w, Commit(pid), rules), rules)
    ensures WrittenPunch(pid, w.transactions[pid].order).kind == Out ==> HasOpenPunch(w.punches)
  {
    CommitFits(w, pid, rules);
    assert Alternating(w.punches);
    hide Invariant, Timely, ByTime, TotalsOf;
    var punch := WrittenPunch(pid, w.transactions[pid].order);
    AppendAlternates(w.punches, punch);
    ByTimeOfInOrder(w.punches + [punch]);
  }

  /** Any move short of a commit leaves the day alone, so only the moving transaction needs looking at. */
  lemma UncommittedMoveKeepsInvariant(w: World, v: World, pid: nat, t: Transaction, rules: Rules)
    requires Invariant(w, rules)
    requires pid in w.transactions ==> !w.transactions[pid].phase.Committed?
    requires v.punches == w.punches && v.stored == w.stored && v.transactions == w.transactions[pid := t]
    requires !t.phase.Committed? && (InCriticalSection(t.phase) ==> v.lock == Some(pid))
    requires v.lock == w.lock || w.lock == None || w.lock == Some(pid)
    requires ReadIsCurrent(w.punches, pid, t)
    ensures Invariant(v, rules)
  {
  }

  lemma CheckStaysCurrent(w: World, pid: nat, rules: Rules)
    requires TransactionsAreSound(w) && Enabled(w, Check(pid))
    ensures ReadIsCurrent(w.punches, pid, Step(w, Check(pid), rules).transactions[pid])
  {
  }

  lemma ReadsStayCurrent(w: World, a: Action, rules: Rules)
    requires Invariant(w, rules) && Enabled(w, a) && !a.Commit?
    ensures ReadIsCurrent(w.punches, a.pid, Step(w, a, rules).transactions[a.pid])
  {
    if a.Check? {
      CheckStaysCurrent(w, a.pid, rules);
    } else {
      SoundDayReadsInOrder(w, rules);
      hide Invariant, ByTime, TotalsOf, WrittenPunch, HasOpenPunch, Passes;
    }
  }

  lemma StepKeepsInvariant(w: World, a: Action, rules: Rules)
    requires Invariant(w, rules) && Enabled(w, a) && Timely(w, a)
    ensures Invariant(Step(w, a, rules), rules)
  {
    var v := Step(w, a, rules);
    SoundDayReadsInOrder(w, rules);
    if a.Commit? {
      CommitKeepsDaySound(w, a.pid, rules);
      CommitReleasesTheLock(w, a.pid, rules);
      CommitRecordsItsPunch(w, a.pid, rules);
    } else {
      ReadsStayCurrent(w, a, rules);
      UncommittedMoveKeepsInvariant(w, v, a.pid, v.transactions[a.pid], rules);
    }
  }

  /** While one transaction holds the lock nobody else relies on what was read, so it may change. */
  lemma OthersRelyOnNothing(w: World, v: World, pid: nat, t: Transaction)
    requires TransactionsAreSound(w) && w.lock == Some(pid)
    requires v.transactions == w.transactions[pid := t] && t.phase.Committed?
    ensures TransactionsAreSound(v)
  {
    hide WrittenPunch, HasOpenPunch;
    forall q | q in v.transactions && q != pid
      ensures v.transactions[q] == w.transactions[q] && !InCriticalSection(v.transactions[q].phase)
    {
    }
  }

  lemma CommitReleasesTheLock(w: World, pid: nat, rules: Rules)
    requires Invariant(w, rules) && Enabled(w, Commit(pid))
    ensures TransactionsAreSound(Step(w, Commit(pid), rules))
  {
    assert w.lock == Some(pid);
    OthersRelyOnNothing(w, Step(w, Commit(pid), rules), pid, w.transactions[pid].(phase := Committed));
    hide TransactionsAreSound, DayIsSound, PunchesAreCommitted, TotalledList, TotalsOf;
  }

  /** One more punch and the transaction that wrote it. */
  lemma OneMoreCommitted(w: World, v: World, pid: nat, t: Transaction)
    requires PunchesAreCommitted(w) && pid in w.transactions && !w.transactions[pid].phase.Committed?
    requires t.phase.Committed? && v.transactions == w.transactions[pid := t]
    requires v.punches == w.punches + [WrittenPunch(pid, t.order)] && WrittenPunch(pid, t.order).id == pid
    ensures PunchesAreCommitted(v)
  {
    var punch := WrittenPunch(pid, t.order);
    assert v.punches[|w.punches|] == punch;
    hide WrittenPunch;
    forall q | q in v.transactions && v.transactions[q].phase.Committed?
      ensures WrittenPunch(q, v.transactions[q].order) in v.punches
    {
      if q != pid { assert WrittenPunch(q, w.transactions[q].order) in w.punches; }
    }
    forall i | 0 <= i < |w.punches|
      ensures v.punches[i] == w.punches[i] && v.transactions[w.punches[i].id] == w.transactions[w.punches[i].id]
    {
      assert w.punches[i].id != pid;
    }
  }

  lemma CommitRecordsItsPunch(w: World, pid: nat, rules: Rules)
    requires Invariant(w, rules) && Enabled(w, Commit(pid))
    ensures PunchesAreCommitted(Step(w, Commit(pid), rules))
  {
    var v := Step(w, Commit(pid), rules);
    hide TotalsOf, TotalledList, Alternating, StrictlyInOrder, TransactionsAreSound, PunchesAreCommitted;
    OneMoreCommitted(w, v, pid, w.transactions[pid].(phase := Committed));
  }

  // ---- Whole runs ----

  ghost predicate Starts(w: World, rules: Rules) {
    w.punches == [] && w.stored == TotalsOf([], rules.standardDay) && w.lock == None && w.transactions == map[]
  }

  ghost predicate Run(worlds: seq<World>, actions: seq<Action>, rules: Rules) {
    && |worlds| == |actions| + 1 && Starts(worlds[0], rules)
    && forall n :: 0 <= n < |actions| ==>
         Enabled(worlds[n], actions[n]) && worlds[n + 1] == Step(worlds[n], actions[n], rules)
  }

  ghost predicate NotBackDated(worlds: seq<World>, actions: seq<Action>)
    requires |worlds| == |actions| + 1
  {
    forall n :: 0 <= n < |actions| ==> Timely(worlds[n], actions[n])
  }

  /** Whatever the interleaving, with no back-dated punch every reachable day is sound. */
  lemma {:induction false} EveryInterleavingIsSound(worlds: seq<World>, actions: seq<Action>, rules: Rules)
    requires Run(worlds, actions, rules) && NotBackDated(worlds, actions)
    ensures Invariant(worlds[|actions|], rules)
  {
    if actions != [] {
      var n := |actions| - 1;
      assert Run(worlds[..n + 1], actions[..n], rules);
      forall m | 0 <= m < n ensures Timely(worlds[..n + 1][m], actions[..n][m]) {
        assert Timely(worlds[m], actions[m]);
      }
      EveryInterleavingIsSound(worlds[..n + 1], actions[..n], rules);
      assert Timely(worlds[n], actions[n]);
      StepKeepsInvariant(worlds[n], actions[n], rules);
    }
  }

  // ---- Whatever races, back-dated punches too ----

  /**
   * Only the lock holder is past its lock, what it read is still what is stored, and a checked close is
   * later than all of it.
   */
  ghost predicate ReadsHold(w: World) {
    forall pid :: pid in w.transactions ==>
      var t := w.transactions[pid];
      && (InCriticalSection(t.phase) ==> w.lock == Some(pid))
      && (t.phase.Reread? || t.phase.Checked? ==> t.phase.seen == ByTime(w.punches))
      && (t.phase.Checked? && t.order.CloseOrder? ==>
            t.phase.seen != [] && t.phase.seen[|t.phase.seen| - 1].at < t.order.at)
  }

  ghost predicate CommitsAreWritten(w: World) {
    forall pid :: pid in w.transactions && w.transactions[pid].phase.Committed? ==>
      WrittenPunch(pid, w.transactions[pid].order) in w.punches
  }

  ghost predicate Closed(w: World, pid: nat) {
    pid in w.transactions && w.transactions[pid].phase.Committed? && w.transactions[pid].order.CloseOrder?
  }

  ghost predicate ClosesDiffer(w: World) {
    forall p, q :: Closed(w, p) && Closed(w, q) && p != q ==> w.transactions[p].order.at != w.transactions[q].order.at
  }

  lemma StepKeepsReads(w: World, a: Action, rules: Rules)
    requires ReadsHold(w) && Enabled(w, a)
    ensures ReadsHold(Step(w, a, rules))
  {
    if a.Check? {
      var t := w.transactions[a.pid];
      PassedCloseIsLater(t.order, t.phase.seen, t.phase.now, t.phase.nextPunchAt, rules);
    }
    hide ByTime, TotalsOf, TotalledList, WrittenPunch, Passes;
  }

  lemma PassedCloseIsLater(order: Order, seen: seq<Punch>, now: int, nextPunchAt: Option<int>, rules: Rules)
    ensures order.CloseOrder? && Passes(order, seen, now, nextPunchAt, rules) ==>
              seen != [] && seen[|seen| - 1].at < order.at
  {
  }

  lemma StepKeepsWritten(w: World, a: Action, rules: Rules)
    requires CommitsAreWritten(w) && Enabled(w, a)
    ensures CommitsAreWritten(Step(w, a, rules))
  {
    hide ByTime, TotalsOf, TotalledList, Passes;
    var v := Step(w, a, rules);
    assert forall p :: p in w.punches ==> p in v.punches;
    if a.Commit? { assert v.punches[|w.punches|] == WrittenPunch(a.pid, w.transactions[a.pid].order); }
  }

  /** A close about to be committed is later than everything committed before it. */
  lemma CloseIsLatest(w: World, pid: nat, q: nat)
    requires ReadsHold(w) && CommitsAreWritten(w) && Enabled(w, Commit(pid)) && w.transactions[pid].order.CloseOrder?
    requires q in w.transactions && w.transactions[q].phase.Committed?
    ensures w.transactions[q].order.at < w.transactions[pid].order.at
  {
    LastReadIsLatest(w.punches, WrittenPunch(q, w.transactions[q].order));
    assert w.transactions[pid].phase.seen == ByTime(w.punches);
  }

  lemma StepKeepsCloses(w: World, a: Action, rules: Rules)
    requires ReadsHold(w) && CommitsAreWritten(w) && ClosesDiffer(w) && Enabled(w, a)
    ensures ClosesDiffer(Step(w, a, rules))
  {
    var v := Step(w, a, rules);
    hide ByTime, TotalsOf, TotalledList, Passes, WrittenPunch, ReadsHold, CommitsAreWritten;
    forall p, q | Closed(v, p) && Closed(v, q) && p != q
      ensures v.transactions[p].order.at != v.transactions[q].order.at
    {
      if a.Commit? && p == a.pid {
        CloseIsLatest(w, p, q);
      } else if a.Commit? && q == a.pid {
        CloseIsLatest(w, q, p);
      } else {
        assert Closed(w, p) && Closed(w, q);
      }
    }
  }

  lemma {:induction false} RacesKeepClosesApart(worlds: seq<World>, actions: seq<Action>, rules: Rules)
    requires Run(worlds, actions, rules)
    ensures var w := worlds[|actions|]; ReadsHold(w) && CommitsAreWritten(w) && ClosesDiffer(w)
  {
    if actions != [] {
      var n := |actions| - 1;
      assert Run(worlds[..n + 1], actions[..n], rules);
      RacesKeepClosesApart(worlds[..n + 1], actions[..n], rules);
      hide Step, Enabled, ReadsHold, CommitsAreWritten, ClosesDiffer;
      StepKeepsReads(worlds[n], actions[n], rules);
      StepKeepsWritten(worlds[n], actions[n], rules);
      StepKeepsCloses(worlds[n], actions[n], rules);
    }
  }

  /**
   * However many approvers race, with whatever punches, back-dated or not, and however stale their
   * proposals: no two committed approvals ever wrote the same check-out time.
   */
  lemma NoCheckOutIsWrittenTwice(worlds: seq<World>, actions: seq<Action>, rules: Rules, p: nat, q: nat)
    requires Run(worlds, actions, rules) && Closed(worlds[|actions|], p) && Closed(worlds[|actions|], q) && p != q
    ensures worlds[|actions|].transactions[p].order.at != worlds[|actions|].transactions[q].order.at
  {
    RacesKeepClosesApart(worlds, actions, rules);
  }

  lemma StepKeepsStored(w: World, a: Action, rules: Rules)
    requires ReadsHold(w) && Enabled(w, a) && w.stored == TotalsOf(ByTime(w.punches), rules.standardDay)
    ensures var v := Step(w, a, rules); v.stored == TotalsOf(ByTime(v.punches), rules.standardDay)
  {
    if a.Commit? && w.transactions[a.pid].order.CloseOrder? {
      var punch := WrittenPunch(a.pid, w.transactions[a.pid].order);
      var read := w.transactions[a.pid].phase.seen;
      assert read == ByTime(w.punches) && read[|read| - 1].at < punch.at;
      Sorting.SortAppend(NotAfter, w.punches, punch);
    }
    hide TotalsOf, ReadsHold, Passes;
  }

  /**
   * However they race, back-dated punches included, the stored summary is always that of the punches
   * as they are read: a punch reads them again, and an approval knows it comes last.
   */
  lemma {:induction false} StoredIsAlwaysReread(worlds: seq<World>, actions: seq<Action>, rules: Rules)
    requires Run(worlds, actions, rules)
    ensures var w := worlds[|actions|]; w.stored == TotalsOf(ByTime(w.punches), rules.standardDay)
  {
    if actions != [] {
      var n := |actions| - 1;
      assert Run(worlds[..n + 1], actions[..n], rules);
      StoredIsAlwaysReread(worlds[..n + 1], actions[..n], rules);
      RacesKeepClosesApart(worlds[..n + 1], actions[..n], rules);
      hide Step, Enabled, ReadsHold, CommitsAreWritten, ClosesDiffer;
      StepKeepsStored(worlds[n], actions[n], rules);
    }
  }

  /** Without back-dated punches no two transactions of any kind wrote the same time. */
  lemma NoTimeIsWrittenTwice(worlds: seq<World>, actions: seq<Action>, rules: Rules, p: nat, q: nat)
    requires Run(worlds, actions, rules) && NotBackDated(worlds, actions)
    requires var w := worlds[|actions|];
             && p in w.transactions && q in w.transactions && p != q
             && w.transactions[p].phase.Committed? && w.transactions[q].phase.Committed?
    ensures worlds[|actions|].transactions[p].order.at != worlds[|actions|].transactions[q].order.at
  {
    EveryInterleavingIsSound(worlds, actions, rules);
    var w := worlds[|actions|];
    var i :| 0 <= i < |w.punches| && w.punches[i] == WrittenPunch(p, w.transactions[p].order);
    var j :| 0 <= j < |w.punches| && w.punches[j] == WrittenPunch(q, w.transactions[q].order);
    assert i != j;
  }

  /** The last of two approvals to reach the lock finds the day closed and is refused. */
  lemma SecondApprovalIsRefused(w: World, pid: nat, rules: Rules)
    requires Invariant(w, rules) && Enabled(w, Check(pid)) && w.transactions[pid].order.CloseOrder?
    requires !HasOpenPunch(w.punches)
    ensures Step(w, Check(pid), rules).transactions[pid].phase == Refused
    ensures Step(w, Check(pid), rules).punches == w.punches && Step(w, Check(pid), rules).lock == None
  {
  }

  // ---- Exactly where it fails ----

  /**
   * A commit keeps the day alternating exactly when its punch is not earlier than the punches the
   * transaction saw. For an approval the check itself ensures that; for a punch nothing does.
   */
  lemma CommitAlternatesExactly(w: World, pid: nat, rules: Rules)
    requires Invariant(w, rules) && Enabled(w, Commit(pid))
    ensures Alternating(ByTime(Step(w, Commit(pid), rules).punches)) <==>
              || w.punches == []
              || w.punches[|w.punches| - 1].at <= w.transactions[pid].order.at
    ensures w.transactions[pid].order.CloseOrder? ==> Alternating(ByTime(Step(w, Commit(pid), rules).punches))
  {
    SoundDayReadsInOrder(w, rules);
    AcceptedPunchAlternates(w.punches, WrittenPunch(pid, w.transactions[pid].order));
  }

  ghost predicate OnlySelfPunches(actions: seq<Action>) {
    forall n :: 0 <= n < |actions| ==> !actions[n].BeginPunchFor? && !actions[n].BeginClose?
  }

  lemma Extend(worlds: seq<World>, actions: seq<Action>, a: Action, rules: Rules) returns (longer: seq<World>)
    requires Run(worlds, actions, rules) && Enabled(worlds[|actions|], a)
    ensures Run(longer, actions + [a], rules) && |longer| == |actions| + 2
    ensures longer[|actions| + 1] == Step(worlds[|actions|], a, rules)
    ensures OnlySelfPunches(actions) && !a.BeginPunchFor? && !a.BeginClose? ==> OnlySelfPunches(actions + [a])
  {
    longer := worlds + [Step(worlds[|actions|], a, rules)];
    forall n | 0 <= n < |actions + [a]|
      ensures Enabled(longer[n], (actions + [a])[n]) && longer[n + 1] == Step(longer[n], (actions + [a])[n], rules)
    {
      assert longer[n] == worlds[n];
    }
  }

  ghost predicate Chained(reached: seq<World>, steps: seq<Action>, rules: Rules) {
    && |reached| == |steps| + 1
    && forall n :: 0 <= n < |steps| ==>
         Enabled(reached[n], steps[n]) && reached[n + 1] == Step(reached[n], steps[n], rules)
  }

  /** A run goes on with any steps that follow one another from where it stands. */
  lemma ExtendAll(worlds: seq<World>, actions: seq<Action>, reached: seq<World>, steps: seq<Action>, rules: Rules)
      returns (longer: seq<World>)
    requires Run(worlds, actions, rules) && Chained(reached, steps, rules) && reached[0] == worlds[|actions|]
    ensures Run(longer, actions + steps, rules) && longer[|actions + steps|] == reached[|steps|]
  {
    hide Enabled, Step;
    longer := worlds + reached[1..];
    forall n | 0 <= n < |actions + steps|
      ensures Enabled(longer[n], (actions + steps)[n]) && longer[n + 1] == Step(longer[n], (actions + steps)[n], rules)
    {
      assert longer[n] == if n <= |actions| then worlds[n] else reached[n - |actions|];
      assert longer[n + 1] == if n < |actions| then worlds[n + 1] else reached[n + 1 - |actions|];
    }
  }

  /** The four steps of a punch that nothing interrupts. */
  lemma Uninterrupted(w: World, pid: nat, rules: Rules) returns (steps: seq<Action>, reached: seq<World>)
    requires Enabled(w, Lock(pid)) && w.transactions[pid].order.PunchOrder?
    requires IntervalRefusal(ByTime(w.punches), w.transactions[pid].order.kind, rules.multipleSessions) == None
    ensures steps == [Lock(pid), ReadAgain(pid, w.clock, None), Check(pid), Commit(pid)]
    ensures Chained(reached, steps, rules) && reached[0] == w
    ensures var v := reached[4];
            && v.punches == w.punches + [WrittenPunch(pid, w.transactions[pid].order)]
            && v.lock == None && v.transactions == w.transactions[pid := w.transactions[pid].(phase := Committed)]
  {
    hide ByTime, TotalsOf, IntervalRefusal;
    steps := [Lock(pid), ReadAgain(pid, w.clock, None), Check(pid), Commit(pid)];
    var a := Step(w, steps[0], rules);
    var b := Step(a, steps[1], rules);
    var c := Step(b, steps[2], rules);
    var d := Step(c, steps[3], rules);
    reached := [w, a, b, c, d];
    assert d.transactions == w.transactions[pid := w.transactions[pid].(phase := Committed)];
    assert Enabled(w, steps[0]) && Enabled(a, steps[1]) && Enabled(b, steps[2]) && Enabled(c, steps[3]);
    hide Enabled, Step;
  }

  /** A punch that reaches the lock with nothing in its way is written. */
  lemma RunsThrough(worlds: seq<World>, actions: seq<Action>, pid: nat, rules: Rules)
      returns (longer: seq<World>, further: seq<Action>)
    requires Run(worlds, actions, rules) && OnlySelfPunches(actions)
    requires var w := worlds[|actions|];
             && Enabled(w, Lock(pid)) && w.transactions[pid].order.PunchOrder?
             && IntervalRefusal(ByTime(w.punches), w.transactions[pid].order.kind, rules.multipleSessions) == None
    ensures Run(longer, further, rules) && OnlySelfPunches(further)
    ensures var w, v := worlds[|actions|], longer[|further|];
            && v.punches == w.punches + [WrittenPunch(pid, w.transactions[pid].order)]
            && v.lock == None && v.transactions == w.transactions[pid := w.transactions[pid].(phase := Committed)]
  {
    var steps, reached := Uninterrupted(worlds[|actions|], pid, rules);
    further := actions + steps;
    longer := ExtendAll(worlds, actions, reached, steps, rules);
  }

  /**
   * The server's own clock does not rule the failure out, because a punch reads it before it waits
   * for the lock. A check-out that read the clock first and got the lock second is written before
   * the check-in it closes.
   */
  lemma ClockReadBeforeLockCanReorder(rules: Rules, start: World) returns (worlds: seq<World>, actions: seq<Action>)
    requires Starts(start, rules) && start.clock == 0
    ensures Run(worlds, actions, rules) && OnlySelfPunches(actions)
    ensures ByTime(worlds[|actions|].punches) == [Punch(1, Out, 10), Punch(2, In, 20)]
    ensures !Alternating(ByTime(worlds[|actions|].punches))
  {
    worlds, actions := [start], [];
    worlds := Extend(worlds, actions, BeginSelfPunch(1, Out, 10), rules);
    actions := actions + [BeginSelfPunch(1, Out, 10)];
    worlds := Extend(worlds, actions, BeginSelfPunch(2, In, 20), rules);
    actions := actions + [BeginSelfPunch(2, In, 20)];
    ByTimeOfInOrder([]);
    worlds, actions := RunsThrough(worlds, actions, 2, rules);
    ByTimeOfInOrder([Punch(2, In, 20)]);
    worlds, actions := RunsThrough(worlds, actions, 1, rules);
    EarlierPunchReadsFirst(Punch(2, In, 20), Punch(1, Out, 10));
    assert ByTime(worlds[|actions|].punches)[0].kind == Out;
  }

  lemma EarlierPunchReadsFirst(late: Punch, early: Punch)
    requires early.at < late.at
    ensures ByTime([late] + [early]) == [early, late]
  {
    ByTimeOfInOrder([late]);
    Sorting.SortAppend(NotAfter, [late], early);
    assert [late][..0] == [];
  }
}
