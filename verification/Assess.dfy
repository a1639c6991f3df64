/**
 The assessor of weak catches (`assess/mod.rs`, `assess/rules.rs`): a deterministic rule gate, and a judge that
 is an oracle.  The judge is a language model that reads untrusted text, so what counts is what holds for
 every answer it may give.
 */
module Assess {
  import opened Wrappers
  import opened Classify

  datatype Decision = StrongCatch | StrictlyWeak | Uncertain

  datatype Thresholds = Thresholds(strong: real, weak: real)

  datatype Assessment = Assessment(probability: real, decision: Decision)

  const ENV_MARKERS := [
    "command not found", "no such file", "modulenotfounderror", "cannot find module", "importerror",
    "could not compile", "connection refused", "permission denied", "name or service not known",
    "network is unreachable"]

  const ASSERTION_MARKERS := [
    "assert", "assertion", "panicked", "expected", "to equal", "to be", "expect(", "should be", "did not"]

  const GATE_HEAD_SIGNAL_MIN := 1.0
  const NEUTRAL_SCORE := 1.0

  function Clamp(x: real): real {
    if x < 0.0 then 0.0 else if x > 1.0 then 1.0 else x
  }

  /** `to_ascii_lowercase`. */
  function Lower(s: string): string {
    seq(|s|, i requires 0 <= i < |s| => if 'A' <= s[i] <= 'Z' then (s[i] as int + 32) as char else s[i])
  }

  predicate Occurs(m: string, s: string) {
    exists i :: 0 <= i <= |s| && m <= s[i..]
  }

  predicate AnyOccurs(markers: seq<string>, s: string) {
    exists m :: m in markers && Occurs(m, s)
  }

  function Blob(head: ExecResult): string {
    Lower(head.stdout) + "\n" + Lower(head.stderr)
  }

  /** `head_signal`: an environment problem wins over an assertion. */
  function HeadSignal(head: ExecResult): real {
    if AnyOccurs(ENV_MARKERS, Blob(head)) then 0.2
    else if AnyOccurs(ASSERTION_MARKERS, Blob(head)) then 1.0
    else 0.5
  }

  /** The head output reads like a failed assertion and not like a problem of the environment. */
  predicate LooksGenuine(head: ExecResult) {
    AnyOccurs(ASSERTION_MARKERS, Blob(head)) && !AnyOccurs(ENV_MARKERS, Blob(head))
  }

  /** `evidence_clean`. */
  predicate EvidenceClean(base: ExecResult, head: ExecResult) {
    base.outcome.Passed? && head.outcome.Failed?
  }

  datatype Rules = Rules(gate: bool, probability: real)

  /** `assess_rules`. */
  function AssessRules(base: ExecResult, head: ExecResult, stable: bool): Rules {
    var evidence := if EvidenceClean(base, head) then 1.0 else 0.0;
    var stability := if stable then 1.0 else 0.0;
    var signal := HeadSignal(head);
    Rules(EvidenceClean(base, head) && stable && signal >= GATE_HEAD_SIGNAL_MIN, evidence * stability * signal)
  }

  /** The judge's score: the probability it names, or neutral when it is not asked, fails or names none. */
  function Score(judge: Option<real>): real {
    match judge
    case None => NEUTRAL_SCORE
    case Some(p) => Clamp(p)
  }

  function Min(x: real, y: real): real {
    if x <= y then x else y
  }

  /** `assess`. */
  function Assess(base: ExecResult, head: ExecResult, stable: bool, judge: Option<real>, cfg: Thresholds): Assessment {
    var rules := AssessRules(base, head, stable);
    var combined := Clamp(Min(rules.probability, Score(judge)));
    var decision :=
      if rules.gate && combined >= Clamp(cfg.strong) then StrongCatch
      else if combined <= Clamp(cfg.weak) then StrictlyWeak
      else Uncertain;
    Assessment(combined, decision)
  }

  /** The evidence the rules call clean is exactly a pair of runs that classifies as a weak catch. */
  lemma CleanIsWeak(base: ExecResult, head: ExecResult)
    ensures EvidenceClean(base, head) <==> FromCatch(base, head) == WeakCatch
  {}

  /** What the rules conclude, case by case. */
  lemma RulesExact(base: ExecResult, head: ExecResult, stable: bool)
    ensures var r := AssessRules(base, head, stable);
      && 0.0 <= r.probability <= 1.0
      && (r.gate <==> EvidenceClean(base, head) && stable && LooksGenuine(head))
      && (r.gate ==> r.probability == 1.0)
      && (r.probability == 0.0 <==> !(EvidenceClean(base, head) && stable))
  {}

  /**
   EXACT: a strong catch is decided if and only if the pair is a weak catch, it was stable, its head output reads
   like a failed assertion, and the judge's score does not fall below the threshold.
   */
  lemma StrongExact(base: ExecResult, head: ExecResult, stable: bool, judge: Option<real>, cfg: Thresholds)
    ensures Assess(base, head, stable, judge, cfg).decision == StrongCatch <==>
      && FromCatch(base, head) == WeakCatch && stable && LooksGenuine(head)
      && Score(judge) >= Clamp(cfg.strong)
  {
    CleanIsWeak(base, head);
    RulesExact(base, head, stable);
  }

  /** Whatever the judge answers and whatever the thresholds, a pair that is no weak catch is refuted. */
  lemma NoWeakCatchIsRefuted(base: ExecResult, head: ExecResult, stable: bool, judge: Option<real>, cfg: Thresholds)
    requires FromCatch(base, head) != WeakCatch || !stable
    ensures Assess(base, head, stable, judge, cfg) == Assessment(0.0, StrictlyWeak)
  {
    CleanIsWeak(base, head);
    RulesExact(base, head, stable);
  }

  function Rank(d: Decision): nat {
    match d
    case StrictlyWeak => 0
    case Uncertain => 1
    case StrongCatch => 2
  }

  /** A lower score of the judge never raises the probability or the decision. */
  lemma ScoreIsMonotone(base: ExecResult, head: ExecResult, stable: bool, low: Option<real>, high: Option<real>,
                        cfg: Thresholds)
    requires Score(low) <= Score(high)
    ensures var a, b := Assess(base, head, stable, low, cfg), Assess(base, head, stable, high, cfg);
      a.probability <= b.probability && Rank(a.decision) <= Rank(b.decision)
  {
    RulesExact(base, head, stable);
  }

  /** The judge can only lower: no answer decides more than the rules alone do. */
  lemma JudgeOnlyLowers(base: ExecResult, head: ExecResult, stable: bool, judge: Option<real>, cfg: Thresholds)
    ensures var with, alone := Assess(base, head, stable, judge, cfg), Assess(base, head, stable, None, cfg);
      && with.probability <= alone.probability == AssessRules(base, head, stable).probability
      && Rank(with.decision) <= Rank(alone.decision)
  {
    RulesExact(base, head, stable);
    ScoreIsMonotone(base, head, stable, judge, None, cfg);
  }
}
