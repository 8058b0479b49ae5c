/** Approval policies: their steps, and the default each domain routes to. */
module Policies {
  import opened Common
  import opened Approvers
  import Sorting

  datatype Domain = Leave | AttendanceCorrection | Timesheet | Payroll

  /** Policies are numbered in order of creation; steps are kept in ascending step number. */
  datatype Policy = Policy(domain: Domain, code: string, isDefault: bool, isActive: bool, steps: seq<PolicyStep>)

  type Table = map<nat, Policy>

  datatype StepInput = StepInput(number: int, approver: ApproverType, role: Option<nat>, user: Option<nat>)

  datatype PolicyInput = PolicyInput(domain: Domain, code: string, isDefault: Option<bool>, steps: seq<StepInput>)

  datatype PolicyPatch = PolicyPatch(code: Option<string>, isDefault: Option<bool>, steps: Option<seq<StepInput>>)

  /** What may be named in a step: the organization's roles and active users. */
  datatype Names = Names(roles: set<nat>, users: set<nat>)

  ghost predicate Distinct<T>(s: seq<T>) { forall i, j :: 0 <= i < j < |s| ==> s[i] != s[j] }

  function Members<T>(s: seq<T>): set<T> { set x | x in s }

  predicate Matches(step: StepInput) {
    match step.approver
    case ByRole => step.role.Some? && step.user.None?
    case ByUser => step.user.Some? && step.role.None?
    case ByManager => step.role.None? && step.user.None?
  }

  function Numbers(steps: seq<StepInput>): seq<int> { seq(|steps|, i requires 0 <= i < |steps| => steps[i].number) }

  function ValidateSteps(steps: seq<StepInput>): Option<Refusal> {
    if steps == [] then Some(Conflict(PolicyWithoutSteps))
    else if |Members(Numbers(steps))| != |steps| then Some(Conflict(StepNumbersRepeat))
    else if exists s :: s in steps && !Matches(s) then Some(Conflict(ApproverTypeMismatch))
    else None
  }

  function RolesOf(steps: seq<StepInput>): seq<nat> {
    if steps == [] then []
    else RolesOf(steps[..|steps| - 1]) + match steps[|steps| - 1].role case Some(r) => [r] case None => []
  }

  function UsersOf(steps: seq<StepInput>): seq<nat> {
    if steps == [] then []
    else UsersOf(steps[..|steps| - 1]) + match steps[|steps| - 1].user case Some(u) => [u] case None => []
  }

  /** The rows found by `id IN (...)` are as many as the ids asked for. */
  predicate AllFound(ids: seq<nat>, known: set<nat>) { |Members(ids) * known| == |ids| }

  function CheckNames(steps: seq<StepInput>, names: Names): Option<Refusal> {
    if !AllFound(RolesOf(steps), names.roles) then Some(NotFound)
    else if !AllFound(UsersOf(steps), names.users) then Some(NotFound)
    else None
  }

  predicate LowerNumber(a: PolicyStep, b: PolicyStep) { a.number <= b.number }

  function Numbered(steps: seq<StepInput>, firstId: nat): seq<PolicyStep> {
    seq(|steps|, i requires 0 <= i < |steps| =>
      PolicyStep(firstId + i, steps[i].number, steps[i].approver, steps[i].role, steps[i].user))
  }

  /** The rows a policy's steps become, as every query reads them: in ascending step number. */
  function StoredSteps(steps: seq<StepInput>, firstId: nat): seq<PolicyStep> {
    Sorting.Sort(LowerNumber, Numbered(steps, firstId))
  }

  predicate ActiveDefault(p: Policy, domain: Domain) { p.domain == domain && p.isActive && p.isDefault }

  function ActiveDefaults(policies: Table, domain: Domain): set<nat> {
    set id | id in policies && ActiveDefault(policies[id], domain)
  }

  function ActiveIn(policies: Table, domain: Domain): set<nat> {
    set id | id in policies && policies[id].domain == domain && policies[id].isActive
  }

  /** Takes the default away from every other policy of the domain. */
  function WithoutDefault(policies: Table, domain: Domain, keep: Option<nat>): Table {
    map id | id in policies ::
      if policies[id].domain == domain && Some(id) != keep then policies[id].(isDefault := false) else policies[id]
  }

  predicate CodeTaken(policies: Table, domain: Domain, code: string, other: Option<nat>) {
    exists id :: id in policies && Some(id) != other && policies[id].domain == domain && policies[id].code == code
  }

  function CreateRefusal(policies: Table, input: PolicyInput, names: Names): Option<Refusal> {
    var invalid := ValidateSteps(input.steps);
    if invalid.Some? then invalid
    else
      var unknown := CheckNames(input.steps, names);
      if unknown.Some? then unknown
      else if CodeTaken(policies, input.domain, input.code, None) then Some(Conflict(UniqueConstraintFailed))
      else None
  }

  function Create(policies: Table, input: PolicyInput, names: Names, id: nat, firstStep: nat): Result<Table, Refusal>
    requires id !in policies
  {
    var refusal := CreateRefusal(policies, input, names);
    if refusal.Some? then Err(refusal.value)
    else
      var makeDefault := input.isDefault == Some(true) || ActiveDefaults(policies, input.domain) == {};
      var cleared := if makeDefault then WithoutDefault(policies, input.domain, None) else policies;
      Ok(cleared[id := Policy(input.domain, input.code, makeDefault, true, StoredSteps(input.steps, firstStep))])
  }

  /** `history` holds the steps some approval, of any workflow, refers to. */
  function UpdateRefusal(policies: Table, id: nat, patch: PolicyPatch, names: Names,
      history: set<nat>): Option<Refusal> {
    var invalid := if patch.steps.Some? then ValidateSteps(patch.steps.value) else None;
    if invalid.Some? then invalid
    else if id !in policies || !policies[id].isActive then Some(NotFound)
    else if patch.steps.Some? && exists s :: s in policies[id].steps && s.id in history then
      Some(Conflict(StepsHaveHistory))
    else
      var unknown := if patch.steps.Some? then CheckNames(patch.steps.value, names) else None;
      if unknown.Some? then unknown
      else if patch.code.Some? && CodeTaken(policies, policies[id].domain, patch.code.value, Some(id)) then
        Some(Conflict(UniqueConstraintFailed))
      else None
  }

  predicate BecomesDefault(policies: Table, id: nat, patch: PolicyPatch)
    requires id in policies
  {
    || patch.isDefault == Some(true)
    || (patch.isDefault != Some(false) && policies[id].isDefault)
    || ActiveDefaults(policies, policies[id].domain) - {id} == {}
  }

  function Patched(before: Policy, patch: PolicyPatch, makeDefault: bool, firstStep: nat): Policy {
    before.(
      code := if patch.code.Some? then patch.code.value else before.code,
      isDefault := makeDefault,
      steps := if patch.steps.Some? then StoredSteps(patch.steps.value, firstStep) else before.steps)
  }

  function Update(policies: Table, id: nat, patch: PolicyPatch, names: Names, history: set<nat>,
      firstStep: nat): Result<Table, Refusal> {
    var refusal := UpdateRefusal(policies, id, patch, names, history);
    if refusal.Some? then Err(refusal.value)
    else
      var makeDefault := BecomesDefault(policies, id, patch);
      var cleared := if makeDefault then WithoutDefault(policies, policies[id].domain, Some(id)) else policies;
      Ok(cleared[id := Patched(policies[id], patch, makeDefault, firstStep)])
  }

  function Deactivate(policies: Table, id: nat): Result<Table, Refusal> {
    if id !in policies || !policies[id].isActive then Err(NotFound)
    else Ok(policies[id := policies[id].(isActive := false, isDefault := false)])
  }

  function Reactivate(policies: Table, id: nat): Result<Table, Refusal> {
    if id !in policies || policies[id].isActive then Err(NotFound)
    else
      var makeDefault := ActiveDefaults(policies, policies[id].domain) == {};
      Ok(policies[id := policies[id].(isActive := true, isDefault := makeDefault)])
  }

  /** The first default in the order read, else the only policy there is. */
  function FirstDefault(policies: Table, ids: seq<nat>): Option<nat> {
    if ids == [] then None
    else if ids[0] in policies && policies[ids[0]].isDefault then Some(ids[0])
    else FirstDefault(policies, ids[1..])
  }

  function ChooseFrom(policies: Table, active: seq<nat>): Option<nat> {
    var chosen := FirstDefault(policies, active);
    if chosen.Some? then chosen else if |active| == 1 then Some(active[0]) else None
  }

  // ---- One default per domain ----

  ghost predicate OneDefault(policies: Table) {
    && (forall id :: id in policies && policies[id].isDefault ==> policies[id].isActive)
    && (forall a, b | a in policies && b in policies && policies[a].isDefault && policies[b].isDefault ::
          policies[a].domain == policies[b].domain ==> a == b)
  }

  ghost predicate HasDefault(policies: Table, domain: Domain) {
    exists id :: id in policies && ActiveDefault(policies[id], domain)
  }

  lemma CreateKeepsOneDefault(policies: Table, input: PolicyInput, names: Names, id: nat, firstStep: nat)
    requires OneDefault(policies) && id !in policies && Create(policies, input, names, id, firstStep).Ok?
    ensures OneDefault(Create(policies, input, names, id, firstStep).value)
    ensures HasDefault(Create(policies, input, names, id, firstStep).value, input.domain)
  {
    var after := Create(policies, input, names, id, firstStep).value;
    if after[id].isDefault {
      assert ActiveDefault(after[id], input.domain);
    } else {
      var other :| other in ActiveDefaults(policies, input.domain);
      assert ActiveDefault(after[other], input.domain);
    }
  }

  lemma UpdateKeepsOneDefault(policies: Table, id: nat, patch: PolicyPatch, names: Names, history: set<nat>,
      firstStep: nat)
    requires OneDefault(policies) && Update(policies, id, patch, names, history, firstStep).Ok?
    ensures OneDefault(Update(policies, id, patch, names, history, firstStep).value)
    ensures HasDefault(Update(policies, id, patch, names, history, firstStep).value, policies[id].domain)
  {
    var after := Update(policies, id, patch, names, history, firstStep).value;
    if after[id].isDefault {
      assert ActiveDefault(after[id], policies[id].domain);
    } else {
      var other :| other in ActiveDefaults(policies, policies[id].domain) - {id};
      assert ActiveDefault(after[other], policies[id].domain);
    }
  }

  lemma DeactivateKeepsOneDefault(policies: Table, id: nat)
    requires OneDefault(policies) && Deactivate(policies, id).Ok?
    ensures OneDefault(Deactivate(policies, id).value)
  {
  }

  lemma ReactivateKeepsOneDefault(policies: Table, id: nat)
    requires OneDefault(policies) && Reactivate(policies, id).Ok?
    ensures OneDefault(Reactivate(policies, id).value)
    ensures HasDefault(Reactivate(policies, id).value, policies[id].domain)
  {
    var after := Reactivate(policies, id).value;
    if after[id].isDefault {
      forall other | other in policies && policies[other].isDefault
        ensures policies[other].domain == policies[id].domain ==> other in ActiveDefaults(policies, policies[id].domain)
      {
      }
      assert ActiveDefault(after[id], policies[id].domain);
    } else {
      var other :| other in ActiveDefaults(policies, policies[id].domain);
      assert ActiveDefault(after[other], policies[id].domain);
    }
  }

  /** Asking a domain's only default to stop being the default is granted without effect. */
  lemma LastDefaultCannotStepDown(policies: Table, id: nat, patch: PolicyPatch, names: Names, history: set<nat>,
      firstStep: nat)
    requires OneDefault(policies) && id in policies && policies[id].isDefault
    requires patch.isDefault == Some(false) && Update(policies, id, patch, names, history, firstStep).Ok?
    ensures Update(policies, id, patch, names, history, firstStep).value[id].isDefault
  {
  }

  // ---- What an edit makes of each policy ----

  /** Some other policy of the domain is active and its default. */
  ghost predicate OtherDefault(policies: Table, id: nat, domain: Domain) {
    exists other :: other in policies && other != id
      && policies[other].domain == domain && policies[other].isActive && policies[other].isDefault
  }

  lemma DefaultElsewhere(policies: Table, id: nat, domain: Domain)
    ensures ActiveDefaults(policies, domain) - {id} == {} <==> !OtherDefault(policies, id, domain)
  {
    var others := ActiveDefaults(policies, domain) - {id};
    if OtherDefault(policies, id, domain) {
      var other :| other in policies && other != id
        && policies[other].domain == domain && policies[other].isActive && policies[other].isDefault;
      assert other in others;
    }
    if others != {} {
      var other :| other in others;
      assert other in policies && other != id && ActiveDefault(policies[other], domain);
    }
  }

  /**
   * A policy asked to be the default is; one asked not to be is only if no other is; one not asked
   * stays it, or becomes it for want of another. The policies that were default before it then are
   * not, and otherwise every other policy is as it was.
   */
  lemma UpdateGivesTheDefault(policies: Table, id: nat, patch: PolicyPatch, names: Names, history: set<nat>,
      firstStep: nat)
    requires Update(policies, id, patch, names, history, firstStep).Ok?
    ensures id in policies
    ensures var after, before := Update(policies, id, patch, names, history, firstStep).value, policies[id];
            && after.Keys == policies.Keys
            && (after[id].isDefault <==>
                  match patch.isDefault
                  case Some(true) => true
                  case Some(false) => !OtherDefault(policies, id, before.domain)
                  case None => before.isDefault || !OtherDefault(policies, id, before.domain))
            && (forall other :: other in policies && other != id ==>
                  after[other] == if after[id].isDefault && policies[other].domain == before.domain
                                  then policies[other].(isDefault := false) else policies[other])
            && after[id].domain == before.domain && after[id].isActive
            && after[id].code == (if patch.code.Some? then patch.code.value else before.code)
  {
    DefaultElsewhere(policies, id, policies[id].domain);
    hide UpdateRefusal, StoredSteps, ActiveDefaults, OtherDefault;
  }

  /** A new policy is the default if that was asked or the domain had none, and then the only one. */
  lemma CreateGivesTheDefault(policies: Table, input: PolicyInput, names: Names, id: nat, firstStep: nat)
    requires id !in policies && Create(policies, input, names, id, firstStep).Ok?
    ensures var after := Create(policies, input, names, id, firstStep).value;
            && after.Keys == policies.Keys + {id}
            && (after[id].isDefault <==> input.isDefault == Some(true) || !OtherDefault(policies, id, input.domain))
            && (forall other :: other in policies ==>
                  after[other] == if after[id].isDefault && policies[other].domain == input.domain
                                  then policies[other].(isDefault := false) else policies[other])
            && after[id].domain == input.domain && after[id].isActive && after[id].code == input.code
  {
    DefaultElsewhere(policies, id, input.domain);
    assert ActiveDefaults(policies, input.domain) - {id} == ActiveDefaults(policies, input.domain);
    hide CreateRefusal, StoredSteps, ActiveDefaults, OtherDefault;
  }

  /** Deactivating takes the default along; a policy brought back is the default only for want of another. */
  lemma SwitchingGivesTheDefault(policies: Table, id: nat)
    ensures Deactivate(policies, id) == if id in policies && policies[id].isActive
                                        then Ok(policies[id := policies[id].(isActive := false, isDefault := false)])
                                        else Err(NotFound)
    ensures Reactivate(policies, id).Ok? <==> id in policies && !policies[id].isActive
    ensures Reactivate(policies, id).Err? ==> Reactivate(policies, id).error == NotFound
    ensures Reactivate(policies, id).Ok? ==>
              Reactivate(policies, id).value == policies[id := policies[id].(
                isActive := true, isDefault := !OtherDefault(policies, id, policies[id].domain))]
  {
    if id in policies && !policies[id].isActive {
      var domain := policies[id].domain;
      DefaultElsewhere(policies, id, domain);
      assert ActiveDefaults(policies, domain) - {id} == ActiveDefaults(policies, domain);
      hide ActiveDefaults, OtherDefault;
    }
  }

  // ---- When an edit is accepted ----

  /** Two different steps name this role, or this user. */
  ghost predicate NamedTwice(steps: seq<StepInput>) {
    exists i, j :: 0 <= i < j < |steps|
      && ((steps[i].role.Some? && steps[i].role == steps[j].role)
          || (steps[i].user.Some? && steps[i].user == steps[j].user))
  }

  /** There are steps, their numbers differ, and each names who its approver type calls for and nobody else. */
  ghost predicate WellFormed(steps: seq<StepInput>) {
    && |steps| > 0
    && (forall i, j :: 0 <= i < j < |steps| ==> steps[i].number != steps[j].number)
    && (forall i :: 0 <= i < |steps| ==>
          && (steps[i].role.Some? <==> steps[i].approver == ByRole)
          && (steps[i].user.Some? <==> steps[i].approver == ByUser))
  }

  /** Whoever the steps name exists, and is named once. */
  ghost predicate Addressed(steps: seq<StepInput>, names: Names) {
    && !NamedTwice(steps)
    && (forall i :: 0 <= i < |steps| ==>
          && (steps[i].role.Some? ==> steps[i].role.value in names.roles)
          && (steps[i].user.Some? ==> steps[i].user.value in names.users))
  }

  /** Some other policy of the domain has this code already. */
  ghost predicate CodeInUse(policies: Table, domain: Domain, code: string, id: nat) {
    exists other :: other in policies && other != id && policies[other].domain == domain && policies[other].code == code
  }

  /** Why steps that are not well formed are refused. */
  ghost function Malformed(steps: seq<StepInput>): Refusal {
    if |steps| == 0 then Conflict(PolicyWithoutSteps)
    else if exists i, j :: 0 <= i < j < |steps| && steps[i].number == steps[j].number then Conflict(StepNumbersRepeat)
    else Conflict(ApproverTypeMismatch)
  }

  lemma ValidExactly(steps: seq<StepInput>)
    ensures ValidateSteps(steps) == if WellFormed(steps) then None else Some(Malformed(steps))
  {
    MembersOfDistinct(Numbers(steps));
    assert Distinct(Numbers(steps)) <==> forall i, j :: 0 <= i < j < |steps| ==> steps[i].number != steps[j].number by {
      if Distinct(Numbers(steps)) {
        forall i, j | 0 <= i < j < |steps| ensures steps[i].number != steps[j].number {
          assert Numbers(steps)[i] != Numbers(steps)[j];
        }
      }
    }
    if WellFormed(steps) {
      forall s | s in steps ensures Matches(s) {
        var i :| 0 <= i < |steps| && steps[i] == s;
      }
    } else if ValidateSteps(steps) == None {
      forall i | 0 <= i < |steps| ensures Matches(steps[i]) { assert steps[i] in steps; }
    }
  }

  lemma {:induction false} RolesFound(steps: seq<StepInput>, x: nat)
    ensures x in RolesOf(steps) <==> exists i :: 0 <= i < |steps| && steps[i].role == Some(x)
  {
    if steps != [] {
      var front, last := steps[..|steps| - 1], steps[|steps| - 1];
      RolesFound(front, x);
      assert forall i :: 0 <= i < |front| ==> front[i] == steps[i];
    }
  }

  lemma {:induction false} RolesRepeat(steps: seq<StepInput>)
    ensures Distinct(RolesOf(steps)) <==>
              forall i, j :: 0 <= i < j < |steps| && steps[i].role.Some? ==> steps[i].role != steps[j].role
  {
    if steps != [] {
      var front, last := steps[..|steps| - 1], steps[|steps| - 1];
      RolesRepeat(front);
      if last.role.Some? {
        DistinctAppend(RolesOf(front), last.role.value);
        RolesFound(front, last.role.value);
      } else {
        assert RolesOf(steps) == RolesOf(front);
      }
      hide RolesOf, Distinct;
      assert forall i :: 0 <= i < |front| ==> front[i] == steps[i];
    }
  }

  lemma {:induction false} UsersFound(steps: seq<StepInput>, x: nat)
    ensures x in UsersOf(steps) <==> exists i :: 0 <= i < |steps| && steps[i].user == Some(x)
  {
    if steps != [] {
      var front, last := steps[..|steps| - 1], steps[|steps| - 1];
      UsersFound(front, x);
      assert forall i :: 0 <= i < |front| ==> front[i] == steps[i];
    }
  }

  lemma {:induction false} UsersRepeat(steps: seq<StepInput>)
    ensures Distinct(UsersOf(steps)) <==>
              forall i, j :: 0 <= i < j < |steps| && steps[i].user.Some? ==> steps[i].user != steps[j].user
  {
    if steps != [] {
      var front, last := steps[..|steps| - 1], steps[|steps| - 1];
      UsersRepeat(front);
      if last.user.Some? {
        DistinctAppend(UsersOf(front), last.user.value);
        UsersFound(front, last.user.value);
      } else {
        assert UsersOf(steps) == UsersOf(front);
      }
      hide UsersOf, Distinct;
      assert forall i :: 0 <= i < |front| ==> front[i] == steps[i];
    }
  }

  lemma DistinctAppend(s: seq<nat>, x: nat)
    ensures Distinct(s + [x]) <==> Distinct(s) && x !in s
  {
    var longer := s + [x];
    if Distinct(longer) {
      forall i, j | 0 <= i < j < |s| ensures s[i] != s[j] { assert longer[i] != longer[j]; }
      forall i | 0 <= i < |s| ensures s[i] != x { assert longer[i] != longer[|s|]; }
    }
  }

  lemma NamesCheckedExactly(steps: seq<StepInput>, names: Names)
    ensures CheckNames(steps, names) == if Addressed(steps, names) then None else Some(NotFound)
  {
    RolesRepeat(steps);
    UsersRepeat(steps);
    AllFoundExactly(RolesOf(steps), names.roles);
    AllFoundExactly(UsersOf(steps), names.users);
    forall x ensures x in RolesOf(steps) <==> exists i :: 0 <= i < |steps| && steps[i].role == Some(x) {
      RolesFound(steps, x);
    }
    forall x ensures x in UsersOf(steps) <==> exists i :: 0 <= i < |steps| && steps[i].user == Some(x) {
      UsersFound(steps, x);
    }
    hide RolesOf, UsersOf, AllFound, Distinct;
  }

  /** A policy can be created exactly from well-formed steps naming existing roles and users once, under a free code. */
  lemma CreateAcceptedExactly(policies: Table, input: PolicyInput, names: Names, id: nat, firstStep: nat)
    requires id !in policies
    ensures Create(policies, input, names, id, firstStep).Ok? <==>
              && WellFormed(input.steps) && Addressed(input.steps, names)
              && !CodeInUse(policies, input.domain, input.code, id)
    ensures Create(policies, input, names, id, firstStep).Err? ==>
              Create(policies, input, names, id, firstStep).error ==
                if !WellFormed(input.steps) then Malformed(input.steps)
                else if !Addressed(input.steps, names) then NotFound
                else Conflict(UniqueConstraintFailed)
  {
    ValidExactly(input.steps);
    NamesCheckedExactly(input.steps, names);
    hide ValidateSteps, CheckNames, WellFormed, Addressed, Malformed;
  }

  /** And updated exactly while active, to such steps if none of its present ones has been used, and to a free code. */
  lemma UpdateAcceptedExactly(policies: Table, id: nat, patch: PolicyPatch, names: Names, history: set<nat>,
      firstStep: nat)
    ensures Update(policies, id, patch, names, history, firstStep).Ok? <==>
              && id in policies && policies[id].isActive
              && (patch.steps.Some? ==>
                    && WellFormed(patch.steps.value) && Addressed(patch.steps.value, names)
                    && forall i :: 0 <= i < |policies[id].steps| ==> policies[id].steps[i].id !in history)
              && (patch.code.Some? ==> !CodeInUse(policies, policies[id].domain, patch.code.value, id))
    ensures Update(policies, id, patch, names, history, firstStep).Err? ==>
              Update(policies, id, patch, names, history, firstStep).error ==
                if patch.steps.Some? && !WellFormed(patch.steps.value) then Malformed(patch.steps.value)
                else if id !in policies || !policies[id].isActive then NotFound
                else if patch.steps.Some? && exists s :: s in policies[id].steps && s.id in history then
                  Conflict(StepsHaveHistory)
                else if patch.steps.Some? && !Addressed(patch.steps.value, names) then NotFound
                else Conflict(UniqueConstraintFailed)
  {
    if patch.steps.Some? {
      ValidExactly(patch.steps.value);
      NamesCheckedExactly(patch.steps.value, names);
    }
    hide ValidateSteps, CheckNames, WellFormed, Addressed, Malformed;
    if id in policies {
      forall s | s in policies[id].steps
        ensures exists i :: 0 <= i < |policies[id].steps| && policies[id].steps[i] == s
      {
      }
      forall i | 0 <= i < |policies[id].steps| ensures policies[id].steps[i] in policies[id].steps {}
    }
  }

  // ---- Which policy is chosen ----

  /** The active policies of the domain in some order, each once. */
  ghost predicate ListsActive(policies: Table, domain: Domain, ids: seq<nat>) {
    && Distinct(ids)
    && forall id :: id in ids <==> id in policies && policies[id].domain == domain && policies[id].isActive
  }

  /** An active policy of the domain that is its default, or with no default the only active one. */
  ghost predicate IsChoice(policies: Table, domain: Domain, id: nat) {
    && id in policies && policies[id].domain == domain && policies[id].isActive
    && (policies[id].isDefault
        || forall other :: other in policies && policies[other].domain == domain && policies[other].isActive ==>
             other == id)
  }

  /** The choice as a property of the table alone. */
  ghost predicate Chosen(policies: Table, domain: Domain, choice: Option<nat>) {
    match choice
    case Some(id) => IsChoice(policies, domain, id)
    case None => forall id :: !IsChoice(policies, domain, id)
  }

  lemma {:induction false} FirstDefaultFinds(policies: Table, ids: seq<nat>)
    ensures match FirstDefault(policies, ids)
            case Some(id) => id in ids && id in policies && policies[id].isDefault
            case None => forall id :: id in ids && id in policies ==> !policies[id].isDefault
  {
    if ids != [] {
      FirstDefaultFinds(policies, ids[1..]);
      assert forall id :: id in ids <==> id == ids[0] || id in ids[1..];
    }
  }

  lemma ChoiceIsChosen(policies: Table, domain: Domain, ids: seq<nat>)
    requires ListsActive(policies, domain, ids)
    ensures Chosen(policies, domain, ChooseFrom(policies, ids))
  {
    FirstDefaultFinds(policies, ids);
    if FirstDefault(policies, ids).None? {
      if |ids| == 1 {
        assert ids[0] in ids && ids == [ids[0]];
      } else {
        forall id ensures !IsChoice(policies, domain, id) {
          if id in ids {
            var other := if ids[0] == id then ids[1] else ids[0];
            assert other in ids && other != id;
          }
        }
      }
    }
  }

  /**
   * Correction routing and holiday review each list the active policies for themselves. In whatever
   * order they come, both choose the same policy or both find none.
   */
  lemma SamePolicyIsChosen(policies: Table, domain: Domain, routing: seq<nat>, reviewing: seq<nat>)
    requires OneDefault(policies)
    requires ListsActive(policies, domain, routing) && ListsActive(policies, domain, reviewing)
    ensures ChooseFrom(policies, routing) == ChooseFrom(policies, reviewing)
  {
    ChoiceIsChosen(policies, domain, routing);
    ChoiceIsChosen(policies, domain, reviewing);
    var a, b := ChooseFrom(policies, routing), ChooseFrom(policies, reviewing);
    if a.Some? && policies[a.value].isDefault { assert ActiveDefault(policies[a.value], domain); }
    if b.Some? && policies[b.value].isDefault { assert ActiveDefault(policies[b.value], domain); }
  }

  // ---- Every sequence of edits ----

  datatype Edit =
    | CreatePolicy(input: PolicyInput, id: nat, firstStep: nat)
    | UpdatePolicy(id: nat, patch: PolicyPatch, history: set<nat>, firstStep: nat)
    | DeactivatePolicy(id: nat)
    | ReactivatePolicy(id: nat)

  /** A refused edit leaves the table as it was. */
  function Edited(policies: Table, edit: Edit, names: Names): Result<Table, Refusal>
    requires edit.CreatePolicy? ==> edit.id !in policies
  {
    match edit
    case CreatePolicy(input, id, firstStep) => Create(policies, input, names, id, firstStep)
    case UpdatePolicy(id, patch, history, firstStep) => Update(policies, id, patch, names, history, firstStep)
    case DeactivatePolicy(id) => Deactivate(policies, id)
    case ReactivatePolicy(id) => Reactivate(policies, id)
  }

  /** The steps an edit gives its policy, when it gives any. */
  function NewSteps(edit: Edit): Option<(seq<StepInput>, nat)> {
    match edit
    case CreatePolicy(input, _, firstStep) => Some((input.steps, firstStep))
    case UpdatePolicy(_, patch, _, firstStep) =>
      if patch.steps.Some? then Some((patch.steps.value, firstStep)) else None
    case _ => None
  }

  /** An edit rewrites the steps of its own policy or of none, and never steps that have history. */
  lemma EditedStepsOnly(policies: Table, edit: Edit, names: Names)
    requires (edit.CreatePolicy? ==> edit.id !in policies) && Edited(policies, edit, names).Ok?
    ensures Edited(policies, edit, names).value.Keys == policies.Keys + {edit.id}
    ensures forall p :: p in policies && (p != edit.id || NewSteps(edit).None?) ==>
                          Edited(policies, edit, names).value[p].steps == policies[p].steps
    ensures NewSteps(edit).None? ==> edit.id in policies
    ensures NewSteps(edit).Some? ==>
              && ValidateSteps(NewSteps(edit).value.0) == None
              && Edited(policies, edit, names).value[edit.id].steps ==
                   StoredSteps(NewSteps(edit).value.0, NewSteps(edit).value.1)
    ensures NewSteps(edit).Some? && edit.UpdatePolicy? ==>
              edit.id in policies && forall s :: s in policies[edit.id].steps ==> s.id !in edit.history
  {
  }

  ghost predicate EditRun(tables: seq<Table>, edits: seq<Edit>, names: Names) {
    && |tables| == |edits| + 1 && tables[0] == map[]
    && forall n :: 0 <= n < |edits| ==>
         && (edits[n].CreatePolicy? ==> edits[n].id !in tables[n])
         && tables[n + 1] == match Edited(tables[n], edits[n], names) case Ok(t) => t case Err(_) => tables[n]
  }

  lemma EditKeepsOneDefault(policies: Table, edit: Edit, names: Names)
    requires OneDefault(policies) && (edit.CreatePolicy? ==> edit.id !in policies) && Edited(policies, edit, names).Ok?
    ensures OneDefault(Edited(policies, edit, names).value)
    ensures !edit.DeactivatePolicy? ==>
              edit.id in Edited(policies, edit, names).value
              && HasDefault(Edited(policies, edit, names).value, Edited(policies, edit, names).value[edit.id].domain)
  {
    match edit
    case CreatePolicy(input, id, firstStep) => CreateKeepsOneDefault(policies, input, names, id, firstStep);
    case UpdatePolicy(id, patch, history, firstStep) =>
      UpdateKeepsOneDefault(policies, id, patch, names, history, firstStep);
    case DeactivatePolicy(id) => DeactivateKeepsOneDefault(policies, id);
    case ReactivatePolicy(id) => ReactivateKeepsOneDefault(policies, id);
  }

  /**
   * Over every sequence of creations, updates, deactivations and reactivations a domain has at most
   * one default and a default is active; right after an accepted create, update or reactivate its
   * domain has exactly one.
   */
  lemma {:induction false} EveryEditKeepsOneDefault(tables: seq<Table>, edits: seq<Edit>, names: Names)
    requires EditRun(tables, edits, names)
    ensures OneDefault(tables[|edits|])
    ensures edits != [] && !edits[|edits| - 1].DeactivatePolicy?
            && Edited(tables[|edits| - 1], edits[|edits| - 1], names).Ok? ==>
              var id := edits[|edits| - 1].id;
              id in tables[|edits|] && HasDefault(tables[|edits|], tables[|edits|][id].domain)
  {
    if edits != [] {
      var n := |edits| - 1;
      EveryEditKeepsOneDefault(tables[..n + 1], edits[..n], names);
      if Edited(tables[n], edits[n], names).Ok? {
        EditKeepsOneDefault(tables[n], edits[n], names);
      }
    }
  }

  // ---- Steps ----

  lemma {:induction false} MembersOfDistinct<T>(s: seq<T>)
    ensures |Members(s)| <= |s|
    ensures |Members(s)| == |s| <==> Distinct(s)
  {
    if s != [] {
      var front, last := s[..|s| - 1], s[|s| - 1];
      MembersOfDistinct(front);
      assert Members(s) == Members(front) + {last};
      if Distinct(front) && last !in front {
        forall i, j | 0 <= i < j < |s| ensures s[i] != s[j] {
          assert s[i] in front;
        }
      }
      if last in Members(front) {
        assert Members(s) == Members(front);
        var i :| 0 <= i < |front| && front[i] == last;
        assert s[i] == s[|s| - 1];
      }
      if !Distinct(front) {
        var i, j :| 0 <= i < j < |front| && front[i] == front[j];
        assert s[i] == s[j];
      }
    }
  }

  /**
   * The existence check counts rows, so it passes exactly when every id is known and none is named
   * twice: a policy naming one role, or one user, in two steps is always refused.
   */
  lemma AllFoundExactly(ids: seq<nat>, known: set<nat>)
    ensures AllFound(ids, known) <==> Distinct(ids) && forall id :: id in ids ==> id in known
  {
    MembersOfDistinct(ids);
    var both := Members(ids) * known;
    SubsetSize(both, Members(ids));
    if AllFound(ids, known) {
      forall id | id in ids ensures id in known { assert id in Members(ids); }
    } else if forall id :: id in ids ==> id in known {
      assert both == Members(ids);
    }
  }

  lemma SubsetSize<T>(a: set<T>, b: set<T>)
    requires a <= b
    ensures |a| <= |b|
    ensures |a| == |b| ==> a == b
  {
    assert b == a + (b - a);
    assert |b| == |a| + |b - a|;
  }

  lemma {:induction false} NamedInSteps(steps: seq<StepInput>, i: nat)
    requires i < |steps|
    ensures steps[i].role.Some? ==> steps[i].role.value in RolesOf(steps)
    ensures steps[i].user.Some? ==> steps[i].user.value in UsersOf(steps)
  {
    if i < |steps| - 1 { NamedInSteps(steps[..|steps| - 1], i); }
  }

  /** Every stored step of an accepted list names who it should, and only roles and users that exist. */
  lemma AcceptedStepsAreAddressed(steps: seq<StepInput>, names: Names, firstId: nat, s: PolicyStep)
    requires ValidateSteps(steps) == None && CheckNames(steps, names) == None && s in StoredSteps(steps, firstId)
    ensures match s.approver
            case ByRole => s.role.Some? && s.role.value in names.roles && s.user.None?
            case ByUser => s.user.Some? && s.user.value in names.users && s.role.None?
            case ByManager => s.role.None? && s.user.None?
  {
    StoredRows(steps, firstId);
    var i :| 0 <= i < |steps| && Numbered(steps, firstId)[i] == s;
    assert steps[i] in steps && Matches(steps[i]);
    NamedInSteps(steps, i);
    AllFoundExactly(RolesOf(steps), names.roles);
    AllFoundExactly(UsersOf(steps), names.users);
  }

  lemma LowerNumberIsTotal()
    ensures Sorting.TotalPreorder(LowerNumber)
  {
  }

  ghost predicate Ascending(steps: seq<PolicyStep>) {
    forall i, j :: 0 <= i < j < |steps| ==> steps[i].number < steps[j].number && steps[i].id != steps[j].id
  }

  lemma StoredRows(steps: seq<StepInput>, firstId: nat)
    ensures |StoredSteps(steps, firstId)| == |steps|
    ensures forall s :: s in StoredSteps(steps, firstId) <==> s in Numbered(steps, firstId)
    ensures Distinct(StoredSteps(steps, firstId))
    ensures forall i, j :: 0 <= i < j < |steps| ==>
              StoredSteps(steps, firstId)[i].number <= StoredSteps(steps, firstId)[j].number
  {
    var rows, stored := Numbered(steps, firstId), StoredSteps(steps, firstId);
    LowerNumberIsTotal();
    Sorting.SortOrders(LowerNumber, rows);
    Sorting.SortPermutes(LowerNumber, rows);
    forall s ensures s in stored <==> s in rows { Sorting.SortMembers(LowerNumber, rows, s); }
    DistinctRows(steps, firstId);
    DistinctUnderPermutation(rows, stored);
    forall i, j | 0 <= i < j < |stored| ensures stored[i].number <= stored[j].number {
      assert LowerNumber(stored[i], stored[j]);
    }
  }

  /** Rows of accepted inputs differ in step number and in id. */
  lemma RowsDiffer(steps: seq<StepInput>, firstId: nat, s: PolicyStep, t: PolicyStep)
    requires ValidateSteps(steps) == None
    requires s in Numbered(steps, firstId) && t in Numbered(steps, firstId) && s != t
    ensures s.number != t.number && s.id != t.id
  {
    MembersOfDistinct(Numbers(steps));
    var rows := Numbered(steps, firstId);
    var a :| 0 <= a < |rows| && rows[a] == s;
    var b :| 0 <= b < |rows| && rows[b] == t;
    assert Numbers(steps)[a] == s.number && Numbers(steps)[b] == t.number;
  }

  /** Accepted steps are read back in strictly ascending step number, each input once. */
  lemma StoredStepsAscend(steps: seq<StepInput>, firstId: nat)
    requires ValidateSteps(steps) == None
    ensures Ascending(StoredSteps(steps, firstId)) && |StoredSteps(steps, firstId)| == |steps|
    ensures forall s :: s in StoredSteps(steps, firstId) ==> firstId <= s.id < firstId + |steps|
    ensures forall i :: 0 <= i < |steps| ==> Numbered(steps, firstId)[i] in StoredSteps(steps, firstId)
  {
    StoredRows(steps, firstId);
    var stored := StoredSteps(steps, firstId);
    forall i, j | 0 <= i < j < |stored| ensures stored[i].number < stored[j].number && stored[i].id != stored[j].id {
      RowsDiffer(steps, firstId, stored[i], stored[j]);
    }
  }

  /** Each input becomes the row it asks for, under the id its place gives it. */
  lemma EachStepIsStored(steps: seq<StepInput>, firstId: nat, i: nat)
    requires i < |steps|
    ensures PolicyStep(firstId + i, steps[i].number, steps[i].approver, steps[i].role, steps[i].user)
            in StoredSteps(steps, firstId)
  {
    StoredRows(steps, firstId);
    assert Numbered(steps, firstId)[i] in Numbered(steps, firstId);
  }

  lemma DistinctRows(steps: seq<StepInput>, firstId: nat)
    ensures Distinct(Numbered(steps, firstId))
  {
  }

  lemma DistinctUnderPermutation<T>(s: seq<T>, t: seq<T>)
    requires multiset(s) == multiset(t) && Distinct(s)
    ensures Distinct(t)
  {
    MembersOfDistinct(s);
    MembersOfDistinct(t);
    assert |s| == |multiset(s)| && |t| == |multiset(t)|;
    forall x ensures x in Members(s) <==> x in Members(t) {
      assert x in multiset(s) <==> x in multiset(t);
    }
    assert Members(s) == Members(t);
  }
}
