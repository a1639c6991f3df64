/** What executions say about a candidate (`jitgen-core/src/classify.rs`). */
module Classify {
  datatype ExecOutcome = Passed | Failed | BuildError | Timeout | Errored
  datatype ExecResult = ExecResult(outcome: ExecOutcome, stdout: string, stderr: string)
  datatype CatchClass = HardenPass | WeakCatch | NoCatch | Broken | Flaky

  predicate Unusable(o: ExecOutcome) {
    o.BuildError? || o.Errored? || o.Timeout?
  }

  /** `CatchClass::from_single`. */
  function FromSingle(r: ExecResult): CatchClass {
    match r.outcome
    case Passed => HardenPass
    case Failed => NoCatch
    case _ => Broken
  }

  /** `CatchClass::from_catch`. */
  function FromCatch(base: ExecResult, head: ExecResult): CatchClass {
    if Unusable(base.outcome) || Unusable(head.outcome) then Broken
    else if base.outcome.Passed? && head.outcome.Failed? then WeakCatch
    else NoCatch
  }
}
