/** Who may approve a step: the question a decision asks, and the one routing asks beforehand. */
module Approvers {
  import opened Common

  datatype ApproverType = ByRole | ByUser | ByManager

  datatype PolicyStep = PolicyStep(id: nat, number: int, approver: ApproverType, role: Option<nat>, user: Option<nat>)

  datatype Assignment = Assignment(branch: nat, startsOn: int, ended: bool)

  /** An employee row with the standing of its user account. */
  datatype Member =
    Member(user: Option<nat>, active: bool, userActive: bool, primaryBranch: Option<nat>, assignments: seq<Assignment>)

  datatype Grant =
    Grant(user: nat, role: nat, branch: Option<nat>, startsAt: int, endsAt: Option<int>, userActive: bool)

  datatype Directory = Directory(members: seq<Member>, grants: seq<Grant>)

  predicate ActiveMember(directory: Directory, user: nat) {
    exists m :: m in directory.members && m.user == Some(user) && m.active && m.userActive
  }

  predicate BelongsTo(m: Member, branch: nat, now: int) {
    || m.primaryBranch == Some(branch)
    || exists a :: a in m.assignments && a.branch == branch && a.startsOn <= now && !a.ended
  }

  predicate ActiveMemberOfBranch(directory: Directory, user: nat, branch: nat, now: int) {
    exists m :: m in directory.members && m.user == Some(user) && m.active && m.userActive && BelongsTo(m, branch, now)
  }

  predicate Holds(grant: Grant, role: nat, branch: Option<nat>, now: int) {
    && grant.role == role && grant.userActive && grant.startsAt <= now
    && (grant.endsAt.None? || grant.endsAt.value > now)
    && (grant.branch.None? || grant.branch == branch)
  }

  /** The one user a step names, directly or as the requester's manager. */
  function Named(step: PolicyStep, manager: Option<nat>): Option<nat> {
    if step.approver.ByUser? then step.user else manager
  }

  /** May this user approve this step, here and now? Nobody approves their own request. */
  predicate CanApprove(directory: Directory, user: nat, manager: Option<nat>, step: PolicyStep,
      branch: Option<nat>, requester: Option<nat>, now: int)
  {
    if requester == Some(user) then false
    else if step.approver.ByUser? || step.approver.ByManager? then
      Named(step, manager) == Some(user) && ActiveMember(directory, user)
    else if step.role.None? then false
    else exists g :: g in directory.grants && g.user == user && Holds(g, step.role.value, branch, now)
  }

  /** The refusal one step raises when a correction is routed, if any. */
  function Unresolvable(directory: Directory, branch: nat, manager: Option<nat>, requester: Option<nat>,
      step: PolicyStep, now: int): Option<Refusal>
  {
    match step.approver
    case ByManager =>
      if manager.None? then Some(Conflict(NoReportingManager))
      else if manager == requester then Some(Conflict(OwnRequest))
      else if !ActiveMember(directory, manager.value) then
        Some(Conflict(NoReportingManager))
      else None
    case ByUser =>
      if step.user.None? then Some(Conflict(DirectApproverMissing))
      else if step.user == requester then Some(Conflict(OwnRequest))
      else if !ActiveMemberOfBranch(directory, step.user.value, branch, now) then
        Some(Conflict(DirectApproverOutsideBranch))
      else None
    case ByRole =>
      if step.role.None? then Some(Conflict(ApprovalRoleMissing))
      else if !exists g :: g in directory.grants && Some(g.user) != requester
                             && Holds(g, step.role.value, Some(branch), now) then
        Some(Conflict(NoMemberOfRole))
      else None
  }

  function FirstUnresolvable(directory: Directory, branch: nat, manager: Option<nat>, requester: Option<nat>,
      steps: seq<PolicyStep>, now: int): Option<Refusal>
  {
    if steps == [] then None
    else
      var refusal := Unresolvable(directory, branch, manager, requester, steps[0], now);
      if refusal.Some? then refusal else FirstUnresolvable(directory, branch, manager, requester, steps[1..], now)
  }

  method AssertResolvableApprovers(directory: Directory, branch: nat, manager: Option<nat>, requester: Option<nat>,
      steps: seq<PolicyStep>, now: int) returns (refusal: Option<Refusal>)
    ensures refusal == FirstUnresolvable(directory, branch, manager, requester, steps, now)
    ensures refusal == None <==>
              forall s :: s in steps ==> Unresolvable(directory, branch, manager, requester, s, now) == None
  {
    for i := 0 to |steps|
      invariant FirstUnresolvable(directory, branch, manager, requester, steps, now)
             == FirstUnresolvable(directory, branch, manager, requester, steps[i..], now)
      invariant forall j :: 0 <= j < i ==> Unresolvable(directory, branch, manager, requester, steps[j], now) == None
    {
      assert steps[i..][1..] == steps[i + 1..];
      refusal := Unresolvable(directory, branch, manager, requester, steps[i], now);
      if refusal.Some? {
        return;
      }
    }
    refusal := None;
  }

  lemma {:induction false} ResolvableStepByStep(directory: Directory, branch: nat, manager: Option<nat>,
      requester: Option<nat>,
      steps: seq<PolicyStep>, now: int)
    ensures FirstUnresolvable(directory, branch, manager, requester, steps, now) == None
       <==> forall s :: s in steps ==> Unresolvable(directory, branch, manager, requester, s, now) == None
  {
    if steps != [] {
      ResolvableStepByStep(directory, branch, manager, requester, steps[1..], now);
      assert forall s :: s in steps <==> s == steps[0] || s in steps[1..];
    }
  }

  ghost predicate SomeoneCanApprove(directory: Directory, manager: Option<nat>, step: PolicyStep,
      branch: nat, requester: Option<nat>, now: int)
  {
    exists user :: CanApprove(directory, user, manager, step, Some(branch), requester, now)
  }

  /**
   * The two views agree: a step resolves exactly when somebody could approve it at that moment and,
   * for a named user, that user also belongs to the branch, which a decision does not ask.
   */
  lemma ResolvableExactly(directory: Directory, branch: nat, manager: Option<nat>, requester: Option<nat>,
      step: PolicyStep, now: int)
    ensures Unresolvable(directory, branch, manager, requester, step, now) == None
       <==> && SomeoneCanApprove(directory, manager, step, branch, requester, now)
            && (step.approver.ByUser? ==> ActiveMemberOfBranch(directory, step.user.value, branch, now))
  {
    match step.approver
    case ByManager =>
      OnlyNamedUser(directory, manager, step, branch, requester, now);
    case ByUser =>
      OnlyNamedUser(directory, manager, step, branch, requester, now);
      if step.user.Some? { BranchMemberIsActive(directory, step.user.value, branch, now); }
    case ByRole =>
      AnyHolder(directory, manager, step, branch, requester, now);
  }

  lemma BranchMemberIsActive(directory: Directory, user: nat, branch: nat, now: int)
    ensures ActiveMemberOfBranch(directory, user, branch, now) ==> ActiveMember(directory, user)
  {
  }

  /** A step for the manager or a named user has that one candidate. */
  lemma OnlyNamedUser(directory: Directory, manager: Option<nat>, step: PolicyStep, branch: nat,
      requester: Option<nat>, now: int)
    requires !step.approver.ByRole?
    ensures SomeoneCanApprove(directory, manager, step, branch, requester, now)
       <==> && Named(step, manager).Some? && Named(step, manager) != requester
            && ActiveMember(directory, Named(step, manager).value)
  {
    var named := Named(step, manager);
    if named.Some? && named != requester && ActiveMember(directory, named.value) {
      assert CanApprove(directory, named.value, manager, step, Some(branch), requester, now);
    }
  }

  /** A step for a role has every current holder of it but the requester. */
  lemma AnyHolder(directory: Directory, manager: Option<nat>, step: PolicyStep, branch: nat, requester: Option<nat>,
      now: int)
    requires step.approver.ByRole?
    ensures SomeoneCanApprove(directory, manager, step, branch, requester, now)
       <==> && step.role.Some?
            && exists g :: g in directory.grants && Some(g.user) != requester
                 && Holds(g, step.role.value, Some(branch), now)
  {
    forall g | g in directory.grants && step.role.Some? && Some(g.user) != requester
               && Holds(g, step.role.value, Some(branch), now)
      ensures CanApprove(directory, g.user, manager, step, Some(branch), requester, now)
    {
    }
  }

  /** If routing accepts a step list, every step has somebody who may approve it. */
  lemma RoutedStepsHaveApprovers(directory: Directory, branch: nat, manager: Option<nat>, requester: Option<nat>,
      steps: seq<PolicyStep>, now: int)
    requires FirstUnresolvable(directory, branch, manager, requester, steps, now) == None
    ensures forall s :: s in steps ==> SomeoneCanApprove(directory, manager, s, branch, requester, now)
  {
    ResolvableStepByStep(directory, branch, manager, requester, steps, now);
    forall s | s in steps ensures SomeoneCanApprove(directory, manager, s, branch, requester, now) {
      ResolvableExactly(directory, branch, manager, requester, s, now);
    }
  }

  /** A grant held only in another branch passes one view and not the other: the branch must be the same. */
  lemma BranchMatters(directory: Directory, step: PolicyStep, here: nat, there: nat, now: int)
    requires here != there && step.approver.ByRole? && step.role == Some(1)
    requires directory.grants == [Grant(7, 1, Some(here), now, None, true)]
    ensures Unresolvable(directory, here, None, None, step, now) == None
    ensures !SomeoneCanApprove(directory, None, step, there, None, now)
  {
  }

  // ---- Who that is, said of the directory itself ----

  /** Employed, and with an account that works. */
  ghost predicate Works(directory: Directory, user: nat) {
    exists i :: 0 <= i < |directory.members| && directory.members[i].user == Some(user)
      && directory.members[i].active && directory.members[i].userActive
  }

  /** And of this branch: by their own row, or by an assignment that has begun and not ended. */
  ghost predicate WorksIn(directory: Directory, user: nat, branch: nat, now: int) {
    exists i :: 0 <= i < |directory.members|
      && var m := directory.members[i];
         && m.user == Some(user) && m.active && m.userActive
         && (m.primaryBranch == Some(branch)
             || exists j :: 0 <= j < |m.assignments| && m.assignments[j].branch == branch
                  && m.assignments[j].startsOn <= now && m.assignments[j].ended == false)
  }

  /** Holds the role from the moment its grant starts until it ends, everywhere or in this branch. */
  ghost predicate HasRole(directory: Directory, user: nat, role: nat, branch: Option<nat>, now: int) {
    exists i :: 0 <= i < |directory.grants|
      && var g := directory.grants[i];
         && g.user == user && g.userActive && g.role == role && (g.branch == None || g.branch == branch)
         && g.startsAt <= now && (g.endsAt.Some? ==> now < g.endsAt.value)
  }

  /** A decision is open to the named user, the manager, or a holder of the role, unless it is about themselves. */
  lemma MayApproveExactly(directory: Directory, user: nat, manager: Option<nat>, step: PolicyStep,
      branch: Option<nat>, requester: Option<nat>, now: int)
    ensures CanApprove(directory, user, manager, step, branch, requester, now) <==>
              && requester != Some(user)
              && match step.approver
                 case ByRole => step.role.Some? && HasRole(directory, user, step.role.value, branch, now)
                 case ByUser => step.user == Some(user) && Works(directory, user)
                 case ByManager => manager == Some(user) && Works(directory, user)
  {
    WorksExactly(directory, user);
    if step.role.Some? { HasRoleExactly(directory, user, step.role.value, branch, now); }
    hide Works, HasRole, Holds;
  }

  lemma WorksExactly(directory: Directory, user: nat)
    ensures ActiveMember(directory, user) <==> Works(directory, user)
  {
    forall i | 0 <= i < |directory.members| ensures directory.members[i] in directory.members {}
  }

  lemma WorksInExactly(directory: Directory, user: nat, branch: nat, now: int)
    ensures ActiveMemberOfBranch(directory, user, branch, now) <==> WorksIn(directory, user, branch, now)
  {
    forall i | 0 <= i < |directory.members| ensures directory.members[i] in directory.members {}
    forall m: Member
      ensures BelongsTo(m, branch, now) <==>
                (m.primaryBranch == Some(branch)
                 || exists j :: 0 <= j < |m.assignments| && m.assignments[j].branch == branch
                      && m.assignments[j].startsOn <= now && m.assignments[j].ended == false)
    {
      forall j | 0 <= j < |m.assignments| ensures m.assignments[j] in m.assignments {}
    }
  }

  lemma HasRoleExactly(directory: Directory, user: nat, role: nat, branch: Option<nat>, now: int)
    ensures (exists g :: g in directory.grants && g.user == user && Holds(g, role, branch, now))
       <==> HasRole(directory, user, role, branch, now)
  {
    forall i | 0 <= i < |directory.grants| ensures directory.grants[i] in directory.grants {}
  }

  /** Why routing refuses a step, if it does. */
  lemma UnresolvedFor(directory: Directory, branch: nat, manager: Option<nat>, requester: Option<nat>,
      step: PolicyStep, now: int)
    ensures var refusal := Unresolvable(directory, branch, manager, requester, step, now);
            match step.approver
            case ByRole =>
              if step.role == None then refusal == Some(Conflict(ApprovalRoleMissing))
              else if exists user: nat ::
                        requester != Some(user) && HasRole(directory, user, step.role.value, Some(branch), now)
              then refusal == None
              else refusal == Some(Conflict(NoMemberOfRole))
            case ByUser =>
              if step.user == None then refusal == Some(Conflict(DirectApproverMissing))
              else if requester == step.user then refusal == Some(Conflict(OwnRequest))
              else if WorksIn(directory, step.user.value, branch, now) then refusal == None
              else refusal == Some(Conflict(DirectApproverOutsideBranch))
            case ByManager =>
              if manager.Some? && requester == manager then refusal == Some(Conflict(OwnRequest))
              else if manager.Some? && Works(directory, manager.value) then refusal == None
              else refusal == Some(Conflict(NoReportingManager))
  {
    match step.approver
    case ByRole =>
      if step.role.Some? {
        forall user: nat ensures (exists g :: g in directory.grants && g.user == user
                                           && Holds(g, step.role.value, Some(branch), now))
                       <==> HasRole(directory, user, step.role.value, Some(branch), now)
        {
          HasRoleExactly(directory, user, step.role.value, Some(branch), now);
        }
        hide HasRole, Holds;
        if g :| g in directory.grants && Some(g.user) != requester && Holds(g, step.role.value, Some(branch), now) {
          assert requester != Some(g.user) && HasRole(directory, g.user, step.role.value, Some(branch), now);
        }
      }
    case ByUser => if step.user.Some? { WorksInExactly(directory, step.user.value, branch, now); }
    case ByManager => if manager.Some? { WorksExactly(directory, manager.value); }
  }
}
