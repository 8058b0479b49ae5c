/** Payroll runs, and the mark that keeps one from being approved over changed attendance. */
module Payroll {
  import opened Common
  import opened PunchMoves
  import opened MissingCheckOut

  datatype RunStatus = Draft | Calculated | Approved | Released | Locked | CorrectedRun | Voided

  /** What a calculation reads of one day. */
  datatype DayInput = DayInput(worked: nat, overtime: nat, dayStatus: DayStatus)

  /** `basis` is the attendance the run was calculated from, if it ever was. */
  datatype PayrollRun =
    PayrollRun(status: RunStatus, stale: bool, from: int, to: int, basis: Option<map<Key, DayInput>>)

  predicate IsCalculationStale(run: PayrollRun) { run.status.Calculated? && run.stale }

  /** The next status a run is offered, or none when it is finished or not ready. */
  function NextRunTransition(run: PayrollRun): Option<RunStatus> {
    if IsCalculationStale(run) then None
    else match run.status
      case Draft => Some(Calculated)
      case Calculated => Some(Approved)
      case Approved => Some(Released)
      case Released => Some(Locked)
      case _ => None
  }

  predicate ValidTransition(current: RunStatus, target: RunStatus) {
    match current
    case Draft => target.Calculated? || target.Voided?
    case Calculated => target.Approved? || target.Voided?
    case Approved => target.Released?
    case Released => target.Locked? || target.CorrectedRun?
    case Locked => target.CorrectedRun?
    case _ => false
  }

  predicate CoversDate(run: PayrollRun, from: int, to: int) { run.from <= to && from <= run.to }

  /** Marks every calculated, unmarked run that covers a changed date. */
  function MarkPayrollStale(runs: map<nat, PayrollRun>, from: int, to: int): map<nat, PayrollRun> {
    map id | id in runs ::
      if runs[id].status.Calculated? && !runs[id].stale && CoversDate(runs[id], from, to) then runs[id].(stale := true)
      else runs[id]
  }

  /** The attendance a calculation over these dates would read now. */
  function InputsOver(inputs: map<Key, DayInput>, from: int, to: int): map<Key, DayInput> {
    map key | key in inputs && from <= key.date <= to :: inputs[key]
  }

  /** A calculated run with no mark still stands on the attendance as it is. */
  ghost predicate Current(run: PayrollRun, inputs: map<Key, DayInput>) {
    run.status.Calculated? && !run.stale ==> run.basis == Some(InputsOver(inputs, run.from, run.to))
  }

  ghost predicate AllCurrent(runs: map<nat, PayrollRun>, inputs: map<Key, DayInput>) {
    forall id :: id in runs ==> Current(runs[id], inputs)
  }

  /** Changing one day and marking its date leaves no unmarked run behind. */
  lemma MarkingCoversTheChange(runs: map<nat, PayrollRun>, inputs: map<Key, DayInput>, key: Key, input: DayInput)
    requires AllCurrent(runs, inputs)
    ensures AllCurrent(MarkPayrollStale(runs, key.date, key.date), inputs[key := input])
  {
    var marked := MarkPayrollStale(runs, key.date, key.date);
    forall id | id in marked ensures Current(marked[id], inputs[key := input]) {
      var run := runs[id];
      if !(run.from <= key.date <= run.to) {
        assert InputsOver(inputs[key := input], run.from, run.to) == InputsOver(inputs, run.from, run.to);
      }
    }
  }

  function Calculate(runs: map<nat, PayrollRun>, inputs: map<Key, DayInput>,
      id: nat): (r: Result<map<nat, PayrollRun>, Refusal>)
    ensures r.Ok? ==> id in runs && id in r.value && r.value == runs[id := r.value[id]] && !r.value[id].status.Draft?
  {
    if id in runs && (runs[id].status.Draft? || (runs[id].status.Calculated? && runs[id].stale)) then
      var run := runs[id];
      Ok(runs[id := run.(status := Calculated, stale := false, basis := Some(InputsOver(inputs, run.from, run.to)))])
    else Err(Conflict(RunNotCalculable))
  }

  function Advance(runs: map<nat, PayrollRun>, id: nat, target: RunStatus): (r: Result<map<nat, PayrollRun>, Refusal>)
    ensures r.Ok? ==> id in runs && id in r.value && r.value == runs[id := r.value[id]] && !r.value[id].status.Draft?
  {
    if id !in runs || !ValidTransition(runs[id].status, target) then Err(Conflict(InvalidPayrollTransition))
    else if runs[id].stale then
      Err(Conflict(RunIsStale))
    else Ok(runs[id := runs[id].(status := target)])
  }

  /**
   * Moving a run along keeps every run current, with one exception: the advance accepts a draft as
   * CALCULATED without calculating it.
   */
  lemma AdvanceKeepsCurrentExactly(runs: map<nat, PayrollRun>, inputs: map<Key, DayInput>, id: nat, target: RunStatus)
    requires AllCurrent(runs, inputs) && Advance(runs, id, target).Ok?
    requires forall r :: r in runs && runs[r].status.Draft? ==> runs[r].basis == None
    ensures AllCurrent(Advance(runs, id, target).value, inputs) <==> !target.Calculated?
  {
  }

  /** A draft declared CALCULATED stands on nothing. */
  lemma DeclaredDraftIsNotCurrent(runs: map<nat, PayrollRun>, inputs: map<Key, DayInput>)
    requires runs == map[0 := PayrollRun(Draft, false, 0, 0, None)]
    ensures AllCurrent(runs, inputs) && Advance(runs, 0, Calculated).Ok?
    ensures !AllCurrent(Advance(runs, 0, Calculated).value, inputs)
    ensures NextRunTransition(Advance(runs, 0, Calculated).value[0]) == Some(Approved)
  {
    assert !Current(Advance(runs, 0, Calculated).value[0], inputs);
  }

  /**
   * The move a run is offered is accepted exactly when no input changed; a stale calculation is offered
   * and allowed none.
   */
  lemma OfferMatchesGuard(runs: map<nat, PayrollRun>, id: nat, target: RunStatus)
    requires id in runs
    ensures NextRunTransition(runs[id]) == Some(target) ==> (Advance(runs, id, target).Ok? <==> !runs[id].stale)
    ensures IsCalculationStale(runs[id]) ==> NextRunTransition(runs[id]) == None && Advance(runs, id, target).Err?
  {
  }

  /** So what is offered for approval was calculated from the present attendance. */
  lemma OfferedForApprovalIsCurrent(run: PayrollRun, inputs: map<Key, DayInput>)
    requires Current(run, inputs) && NextRunTransition(run) == Some(Approved)
    ensures run.basis == Some(InputsOver(inputs, run.from, run.to))
  {
  }

  // ---- The table of moves ----

  /** The moves there are, one step at a time, with voiding before approval and correcting after release. */
  ghost const MOVES: set<(RunStatus, RunStatus)> :=
    {(Draft, Calculated), (Calculated, Approved), (Approved, Released), (Released, Locked),
     (Draft, Voided), (Calculated, Voided), (Released, CorrectedRun), (Locked, CorrectedRun)}

  /** A run moves along the table unless it is marked, and only its status changes. */
  lemma AdvanceExactly(runs: map<nat, PayrollRun>, id: nat, target: RunStatus)
    ensures Advance(runs, id, target) ==
              if id !in runs || (runs[id].status, target) !in MOVES then Err(Conflict(InvalidPayrollTransition))
              else if runs[id].stale then Err(Conflict(RunIsStale))
              else Ok(runs[id := PayrollRun(target, false, runs[id].from, runs[id].to, runs[id].basis)])
  {
  }

  /** What is offered is the one forward move of the first four, and nothing while a calculation is stale. */
  lemma OfferedExactly(run: PayrollRun, target: RunStatus)
    ensures NextRunTransition(run) == Some(target) <==>
              && (run.status, target) in MOVES && target != Voided && target != CorrectedRun
              && !(run.status == Calculated && run.stale)
  {
  }

  /** A draft or a stale calculation can be calculated, and then stands on the days it covers as they are. */
  lemma CalculateExactly(runs: map<nat, PayrollRun>, inputs: map<Key, DayInput>, id: nat)
    ensures Calculate(runs, inputs, id).Ok? <==>
              id in runs && (runs[id].status == Draft || (runs[id].status == Calculated && runs[id].stale))
    ensures Calculate(runs, inputs, id).Err? ==> Calculate(runs, inputs, id).error == Conflict(RunNotCalculable)
    ensures Calculate(runs, inputs, id).Ok? ==>
              var after := Calculate(runs, inputs, id).value;
              && after == runs[id := runs[id].(status := Calculated, stale := false, basis := after[id].basis)]
              && after[id].basis.Some?
              && forall key :: (key in after[id].basis.value <==>
                                  key in inputs && runs[id].from <= key.date <= runs[id].to)
                               && (key in after[id].basis.value ==> after[id].basis.value[key] == inputs[key])
  {
  }

  /** A change on one date marks exactly the calculated runs that cover it, and nothing else of any run. */
  lemma MarkedExactly(runs: map<nat, PayrollRun>, date: int)
    ensures var marked := MarkPayrollStale(runs, date, date);
            && marked.Keys == runs.Keys
            && (forall id :: id in runs ==> marked[id] == runs[id].(stale := marked[id].stale))
            && (forall id :: id in runs ==>
                  (marked[id].stale <==>
                     runs[id].stale || (runs[id].status == Calculated && runs[id].from <= date <= runs[id].to)))
  {
  }
}
