/**
 Processing one target (`process.rs`) with its repair loop (`repair.rs`), flake filters (`flake.rs`)
 and the assessment of catches (`assess/mod.rs`).

 Executor, provider, judge, static validation and redaction are oracles; executor, provider and judge may answer
 differently on every call.  `trace` records every execution that returned, so that what ends up in
 the outcome can be held against what was really observed.
 */
module Pipeline {
  import opened Wrappers
  import opened Sequences
  import opened Classify
  import opened Assess
  import E = Escape
  import P = PatchApply

  datatype Mode = Harden | Catch
  datatype Variant = Base | Head
  datatype Candidate = Candidate(target: string, relPath: string, source: string, attempt: nat)

  predicate GoalReached(mode: Mode, class_: CatchClass) {
    match mode case Harden => class_.HardenPass? case Catch => class_.WeakCatch?
  }

  // ---- the outside world ----

  /** One execution that returned a result; `gated` marks candidates that went through repair. */
  datatype Run = Run(candidate: Candidate, variant: Variant, result: ExecResult, gated: bool)

  /** What a repair prompt is given: static issues, or the runs of the previous attempt. */
  datatype Feedback = NoFeedback | Issues(source: string) | Observed(runs: seq<ExecResult>)

  datatype Redaction = Redaction(text: string, redacted: bool)

  datatype Oracles = Oracles(
    exec: (Candidate, Variant, nat) -> Option<ExecResult>,
    generate: (Feedback, nat, nat) -> Option<string>,
    validate: string -> bool,
    redact: string -> Redaction,
    judge: (ExecResult, ExecResult, nat) -> Option<real>,
    thresholds: Thresholds)

  /** The executor returns a result on every call, and the provider a candidate. */
  ghost predicate Executes(o: Oracles) {
    forall c, v, n :: o.exec(c, v, n).Some?
  }

  ghost predicate Answers(o: Oracles) {
    Executes(o) && forall f, attempt, n :: o.generate(f, attempt, n).Some?
  }

  datatype RepairOutcome = Accepted | Exhausted | Rejected
  datatype RepairReport = RepairReport(outcome: RepairOutcome, candidate: Candidate, class_: CatchClass, attempts: nat)

  datatype FlakeReport = FlakeReport(stable: bool, observed: seq<CatchClass>) {
    /** `FlakeReport::class`. */
    function Class(): CatchClass {
      if stable && observed != [] then observed[0] else Flaky
    }
  }

  /** `report`. */
  function FlakeReportOf(observed: seq<CatchClass>): FlakeReport {
    FlakeReport(forall c :: c in observed ==> c == observed[0], observed)
  }

  datatype AcceptedTest = AcceptedTest(path: string, source: string)
  datatype CatchReport = CatchReport(path: string, source: string, assessment: Assessment)

  /** Stands in for the second pair of a candidate that has none. */
  const NOTHING_SEEN := Second(ExecResult(Errored, "", ""), ExecResult(Errored, "", ""), None)

  /** What a catch is assessed on: the results of one more pair of runs, and the judge's answer. */
  datatype Second = Second(base: ExecResult, head: ExecResult, judge: Option<real>)

  /** The fixed reason texts of the source. */
  datatype Reason =
    | RepairExhausted | FailedValidation | FlakyAcrossReruns | OffGoal | ReplayNotWeak | NotReproduced
    | EmptySource | SecretInSource | SecretInPath | ControlsInSource | ControlsInPath

  datatype RejectedCandidate = RejectedCandidate(path: string, reason: Reason, class_: CatchClass)
  datatype Outcome = Outcome(accepted: seq<AcceptedTest>, catches: seq<CatchReport>, rejected: seq<RejectedCandidate>,
    generated: nat)

  /** A catch found by the intent-aware strategy, with the class of its replay. */
  datatype Harvest = Harvest(candidate: Candidate, class_: CatchClass)

  // ---- evidence in a trace ----

  /** All executions of `c` on head, all passing. */
  ghost predicate AllPassHead(runs: seq<Run>, c: Candidate) {
    forall i :: 0 <= i < |runs| ==> runs[i].candidate == c && runs[i].variant.Head? && runs[i].result.outcome.Passed?
  }

  /** `n` pairs in a row: `c` passes on base, then fails on head. */
  ghost predicate AllWeakPairs(runs: seq<Run>, c: Candidate, n: nat) {
    |runs| == 2 * n &&
    (n > 0 ==>
      && runs[2 * n - 2].candidate == c && runs[2 * n - 2].variant.Base? && runs[2 * n - 2].result.outcome.Passed?
      && runs[2 * n - 1].candidate == c && runs[2 * n - 1].variant.Head? && runs[2 * n - 1].result.outcome.Failed?
      && AllWeakPairs(runs[..2 * n - 2], c, n - 1))
  }

  ghost predicate HeadPasses(trace: seq<Run>, p: nat, c: Candidate, n: nat) {
    p + n <= |trace| && AllPassHead(trace[p..p + n], c)
  }

  ghost predicate WeakPairs(trace: seq<Run>, p: nat, c: Candidate, n: nat) {
    p + 2 * n <= |trace| && AllWeakPairs(trace[p..p + 2 * n], c, n)
  }

  /** An accepted test is a validated candidate with `trials` passing head runs, unaltered and landable. */
  ghost predicate Earned(o: Oracles, trace: seq<Run>, trials: nat, t: AcceptedTest) {
    exists p: nat, c :: HeadPasses(trace, p, c, trials) && t == AcceptedTest(c.relPath, c.source)
      && o.validate(c.source) && Landable(o, c)
  }

  /** The pair of runs at `q` in the trace is what the assessor was given. */
  ghost predicate SecondAt(trace: seq<Run>, q: nat, c: Candidate, s: Second) {
    && q + 2 <= |trace|
    && trace[q].candidate == c && trace[q].variant.Base? && trace[q].result == s.base
    && trace[q + 1].candidate == c && trace[q + 1].variant.Head? && trace[q + 1].result == s.head
  }

  /** A reported catch passed base and failed head `trials` times in a row, and is assessed on the next pair. */
  ghost predicate Confirmed(o: Oracles, trace: seq<Run>, trials: nat, r: CatchReport) {
    exists p: nat, c, s :: ConfirmedAt(o, trace, trials, r, p, c, s)
  }

  ghost predicate ConfirmedAt(o: Oracles, trace: seq<Run>, trials: nat, r: CatchReport, p: nat, c: Candidate, s: Second)
  {
    WeakPairs(trace, p, c, trials) && SecondAt(trace, p + 2 * trials, c, s) && r == ReportOf(o, c, s)
  }

  /** ... and it did so once more, with an output that reads like a failed assertion. */
  ghost predicate ConfirmedAgain(o: Oracles, trace: seq<Run>, trials: nat, r: CatchReport) {
    exists p: nat, c :: AgainAt(o, trace, trials, r, p, c)
  }

  ghost predicate StrongAgain(o: Oracles, trace: seq<Run>, trials: nat, catches: seq<CatchReport>) {
    forall r :: r in catches && r.assessment.decision == StrongCatch ==> ConfirmedAgain(o, trace, trials, r)
  }

  ghost predicate AgainAt(o: Oracles, trace: seq<Run>, trials: nat, r: CatchReport, p: nat, c: Candidate) {
    && WeakPairs(trace, p, c, trials + 1) && LooksGenuine(trace[p + 2 * trials + 1].result)
    && r.path == o.redact(c.relPath).text && r.source == o.redact(c.source).text
  }

  /** Candidates that went through repair are only ever executed after static validation. */
  ghost predicate OnlyValidated(o: Oracles, trace: seq<Run>) {
    forall i :: 0 <= i < |trace| && trace[i].gated ==> o.validate(trace[i].candidate.source)
  }

  ghost predicate Justified(o: Oracles, mode: Mode, trials: nat, trace: seq<Run>, out: Outcome) {
    && (out.accepted != [] ==> mode.Harden?)
    && (forall t :: t in out.accepted ==> Earned(o, trace, trials, t))
    && (forall r :: r in out.catches ==> Confirmed(o, trace, trials, r))
  }

  function Size(out: Outcome): nat {
    |out.accepted| + |out.catches| + |out.rejected|
  }

  function ReportOf(o: Oracles, c: Candidate, s: Second): CatchReport {
    var assessment := Assess.Assess(s.base, s.head, true, s.judge, o.thresholds);
    CatchReport(o.redact(c.relPath).text, o.redact(c.source).text, assessment)
  }

  function RejectOf(o: Oracles, path: string, reason: Reason, class_: CatchClass): RejectedCandidate {
    RejectedCandidate(o.redact(path).text, reason, class_)
  }

  /** `path_is_landable`. */
  predicate PathIsLandable(p: string) {
    E.Strip(p) == p && '\n' !in p && '\t' !in p && (p == "" || p[0] != '/')
  }

  /** When `accept_landable` accepts. */
  predicate Landable(o: Oracles, c: Candidate) {
    && (exists x :: x in c.source && !P.IsWhite(x))
    && !o.redact(c.source).redacted && !o.redact(c.relPath).redacted
    && E.Strip(c.source) == c.source && PathIsLandable(c.relPath)
  }

  /** `accept_landable`: the test, or the reason it must not land. */
  function AcceptLandable(o: Oracles, c: Candidate): (r: Result<AcceptedTest, Reason>)
    ensures r.Ok? <==> Landable(o, c)
    ensures r.Ok? ==> r.value == AcceptedTest(c.relPath, c.source)
  {
    if forall x :: x in c.source ==> P.IsWhite(x) then Err(EmptySource)
    else if o.redact(c.source).redacted then Err(SecretInSource)
    else if o.redact(c.relPath).redacted then Err(SecretInPath)
    else if E.Strip(c.source) != c.source then Err(ControlsInSource)
    else if !PathIsLandable(c.relPath) then Err(ControlsInPath)
    else Ok(AcceptedTest(c.relPath, c.source))
  }

  /** A landable test has no control characters, and its path stays on one line. */
  lemma LandableIsInert(o: Oracles, c: Candidate)
    ensures Landable(o, c) ==>
      E.AllHarmless(c.source) && E.AllHarmless(c.relPath) && '\n' !in c.relPath && c.source != ""
  {
    E.StripFixpoint(c.source);
    E.StripFixpoint(c.relPath);
  }

  lemma PassesLast(trace: seq<Run>, more: seq<Run>, p: nat, c: Candidate, n: nat)
    requires trace <= more && HeadPasses(trace, p, c, n)
    ensures HeadPasses(more, p, c, n)
  {
    assert more[p..p + n] == trace[p..p + n];
  }

  lemma PairsLast(trace: seq<Run>, more: seq<Run>, p: nat, c: Candidate, n: nat)
    requires trace <= more && WeakPairs(trace, p, c, n)
    ensures WeakPairs(more, p, c, n)
  {
    assert more[p..p + 2 * n] == trace[p..p + 2 * n];
  }

  /** Evidence survives whatever is executed later. */
  lemma EvidenceLasts(o: Oracles, mode: Mode, trials: nat, trace: seq<Run>, more: seq<Run>, out: Outcome)
    requires trace <= more && Justified(o, mode, trials, trace, out)
    ensures Justified(o, mode, trials, more, out)
  {
    forall t | t in out.accepted ensures Earned(o, more, trials, t) { EarnedLasts(o, trials, trace, more, t); }
    forall r | r in out.catches ensures Confirmed(o, more, trials, r) { ConfirmedLasts(o, trials, trace, more, r); }
  }

  lemma EarnedLasts(o: Oracles, trials: nat, trace: seq<Run>, more: seq<Run>, t: AcceptedTest)
    requires trace <= more && Earned(o, trace, trials, t)
    ensures Earned(o, more, trials, t)
  {
    var p: nat, c :| HeadPasses(trace, p, c, trials) && t == AcceptedTest(c.relPath, c.source)
      && o.validate(c.source) && Landable(o, c);
    PassesLast(trace, more, p, c, trials);
  }

  lemma ConfirmedLasts(o: Oracles, trials: nat, trace: seq<Run>, more: seq<Run>, r: CatchReport)
    requires trace <= more && Confirmed(o, trace, trials, r)
    ensures Confirmed(o, more, trials, r)
  {
    var p: nat, c, s :| ConfirmedAt(o, trace, trials, r, p, c, s);
    PairsLast(trace, more, p, c, trials);
    assert ConfirmedAt(o, more, trials, r, p, c, s);
  }

  /**
   WHATEVER THE JUDGE ANSWERS, a strong catch passed base and failed head in all of its flake trials and once more,
   with an output that reads like a failed assertion.
   */
  lemma StrongIsConfirmedAgain(o: Oracles, mode: Mode, trials: nat, trace: seq<Run>, out: Outcome)
    requires Justified(o, mode, trials, trace, out)
    ensures StrongAgain(o, trace, trials, out.catches)
  {
    forall r | r in out.catches && r.assessment.decision == StrongCatch ensures ConfirmedAgain(o, trace, trials, r) {
      var p: nat, c, s :| ConfirmedAt(o, trace, trials, r, p, c, s);
      StrongExact(s.base, s.head, true, s.judge, o.thresholds);
      OneMorePair(trace, p, c, trials, s);
      assert AgainAt(o, trace, trials, r, p, c);
    }
  }

  lemma OneMorePair(trace: seq<Run>, p: nat, c: Candidate, n: nat, s: Second)
    requires WeakPairs(trace, p, c, n) && SecondAt(trace, p + 2 * n, c, s) && FromCatch(s.base, s.head) == WeakCatch
    ensures WeakPairs(trace, p, c, n + 1)
  {
    var runs := trace[p..p + 2 * (n + 1)];
    assert runs[..2 * n] == trace[p..p + 2 * n];
  }

  /** A catch whose second pair is no weak catch is reported, but as refuted, whatever the judge answers. */
  lemma OtherwiseRefuted(o: Oracles, c: Candidate, s: Second)
    requires FromCatch(s.base, s.head) != WeakCatch
    ensures ReportOf(o, c, s).assessment == Assessment(0.0, StrictlyWeak)
  {
    NoWeakCatchIsRefuted(s.base, s.head, true, s.judge, o.thresholds);
  }

  /** Executions of one candidate only. */
  ghost predicate RunsOf(before: seq<Run>, after: seq<Run>, c: Candidate, gated: bool) {
    before <= after && forall i :: |before| <= i < |after| ==> after[i].candidate == c && after[i].gated == gated
  }

  /** The class a trial reads off its one or two runs. */
  function ClassOf(mode: Mode, runs: seq<Run>): CatchClass
    requires |runs| == if mode.Harden? then 1 else 2
  {
    if mode.Harden? then FromSingle(runs[0].result) else FromCatch(runs[0].result, runs[1].result)
  }

  function Results(runs: seq<Run>): seq<ExecResult> {
    seq(|runs|, i requires 0 <= i < |runs| => runs[i].result)
  }

  function RunsPerTrial(mode: Mode): nat {
    if mode.Harden? then 1 else 2
  }

  /** The classes of consecutive trials. */
  function TrialClasses(mode: Mode, runs: seq<Run>): seq<CatchClass> {
    if mode.Harden? then SingleClasses(runs) else PairClasses(runs)
  }

  function SingleClasses(runs: seq<Run>): seq<CatchClass> {
    if runs == [] then [] else SingleClasses(runs[..|runs| - 1]) + [FromSingle(runs[|runs| - 1].result)]
  }

  function PairClasses(runs: seq<Run>): seq<CatchClass> {
    if |runs| < 2 then []
    else PairClasses(runs[..|runs| - 2]) + [FromCatch(runs[|runs| - 2].result, runs[|runs| - 1].result)]
  }

  /** `flake` is the report on the `trials` trials that start at `at` in the trace. */
  ghost predicate ReportsOn(flake: FlakeReport, mode: Mode, trace: seq<Run>, at: nat, trials: nat) {
    && at + RunsIn(mode, trials) <= |trace| && |flake.observed| == trials
    && flake == FlakeReportOf(TrialClasses(mode, trace[at..at + RunsIn(mode, trials)]))
  }

  function RunsIn(mode: Mode, trials: nat): nat {
    if mode.Harden? then trials else 2 * trials
  }

  /** The most executions a generated candidate costs: its repair, the flake filter, and the second pair of a catch. */
  function CandidateRuns(mode: Mode, maxAttempts: nat, reruns: nat): nat {
    RunsIn(mode, maxAttempts) + RunsIn(mode, reruns + 2)
  }

  /** ... and a harvested one. */
  function HarvestRuns(reruns: nat): nat {
    2 * (reruns + 2)
  }

  /** What one candidate adds to an outcome. */
  datatype Entry = Accept(test: AcceptedTest) | Surface(report: CatchReport) | Refuse(reject: RejectedCandidate)

  function Add(out: Outcome, e: Entry): Outcome {
    match e
    case Accept(t) => out.(accepted := out.accepted + [t])
    case Surface(r) => out.(catches := out.catches + [r])
    case Refuse(x) => out.(rejected := out.rejected + [x])
  }

  /** `classify_stable`: dispatch on mode and class. */
  function ClassifiedEntry(o: Oracles, mode: Mode, c: Candidate, class_: CatchClass, s: Second): Entry {
    if mode.Harden? && class_.HardenPass? then
      var landed := AcceptLandable(o, c);
      if landed.Ok? then Accept(landed.value) else Refuse(RejectOf(o, c.relPath, landed.error, HardenPass))
    else if mode.Catch? && class_.WeakCatch? then Surface(ReportOf(o, c, s))
    else Refuse(RejectOf(o, c.relPath, OffGoal, class_))
  }

  /** What becomes of a candidate, given its repair report, its flake report and its second pair. */
  function CandidateEntry(o: Oracles, mode: Mode, report: RepairReport, flake: FlakeReport, s: Second): Entry {
    var path := report.candidate.relPath;
    if report.outcome.Exhausted? then Refuse(RejectOf(o, path, RepairExhausted, report.class_))
    else if report.outcome.Rejected? then Refuse(RejectOf(o, path, FailedValidation, report.class_))
    else StableEntry(o, mode, report.candidate, flake, s)
  }

  /** ... once it is repaired. */
  function StableEntry(o: Oracles, mode: Mode, c: Candidate, flake: FlakeReport, s: Second): Entry {
    if !flake.stable then Refuse(RejectOf(o, c.relPath, FlakyAcrossReruns, Flaky))
    else ClassifiedEntry(o, mode, c, flake.Class(), s)
  }

  /** What becomes of a harvested catch. */
  function HarvestEntry(o: Oracles, h: Harvest, flake: FlakeReport, s: Second): Entry {
    var path := h.candidate.relPath;
    if !h.class_.WeakCatch? then Refuse(RejectOf(o, path, ReplayNotWeak, h.class_))
    else if !(flake.stable && flake.Class().WeakCatch?) then
      Refuse(RejectOf(o, path, NotReproduced, if flake.stable then flake.Class() else Flaky))
    else Surface(ReportOf(o, h.candidate, s))
  }

  /** An entry is backed by evidence. */
  ghost predicate Backed(o: Oracles, mode: Mode, trials: nat, trace: seq<Run>, e: Entry) {
    match e
    case Accept(t) => mode.Harden? && Earned(o, trace, trials, t)
    case Surface(r) => Confirmed(o, trace, trials, r)
    case Refuse(_) => true
  }

  lemma AddJustified(o: Oracles, mode: Mode, trials: nat, trace: seq<Run>, more: seq<Run>, out: Outcome, e: Entry)
    requires trace <= more && Justified(o, mode, trials, trace, out) && Backed(o, mode, trials, more, e)
    ensures Justified(o, mode, trials, more, Add(out, e)) && Size(Add(out, e)) == Size(out) + 1
  {
    EvidenceLasts(o, mode, trials, trace, more, out);
  }

  /** What the executor answers for a base run and a head run from this tick on. */
  function PairAt(o: Oracles, c: Candidate, tick: nat, gated: bool): Option<seq<Run>> {
    var base, head := o.exec(c, Base, tick), o.exec(c, Head, tick + 1);
    if base.Some? && head.Some? then Some([Run(c, Base, base.value, gated), Run(c, Head, head.value, gated)]) else None
  }

  class Session {
    const o: Oracles
    var tick: nat
    ghost var trace: seq<Run>
    /** What each repair prompt was given, and how many executions had been made by then. */
    ghost var prompts: seq<(Feedback, nat)>

    constructor (o: Oracles)
      ensures this.o == o && tick == 0 && trace == [] && prompts == []
    {
      this.o, tick, trace, prompts := o, 0, [], [];
    }

    /** `Executor::run_candidate`. */
    method RunCandidate(c: Candidate, v: Variant, ghost gated: bool) returns (r: Option<ExecResult>)
      modifies `tick, `trace
      ensures r == o.exec(c, v, old(tick)) && tick == old(tick) + 1
      ensures trace == old(trace) + (if r.Some? then [Run(c, v, r.value, gated)] else [])
    {
      r := o.exec(c, v, tick);
      tick := tick + 1;
      if r.Some? { trace := trace + [Run(c, v, r.value, gated)]; }
    }

    /** One base run and one head run. */
    method RunPair(c: Candidate, ghost gated: bool) returns (r: Option<(ExecResult, ExecResult)>)
      modifies `tick, `trace
      ensures RunsOf(old(trace), trace, c, gated) && |trace| <= |old(trace)| + 2
      ensures r.Some? ==> trace == old(trace) + [Run(c, Base, r.value.0, gated), Run(c, Head, r.value.1, gated)]
      ensures var pair := PairAt(o, c, old(tick), gated);
        (r.Some? <==> pair.Some?) && (r.Some? ==> trace == old(trace) + pair.value)
    {
      var base := RunCandidate(c, Base, gated);
      if base.None? { return None; }
      var head := RunCandidate(c, Head, gated);
      if head.None? { return None; }
      r := Some((base.value, head.value));
    }

    /** `trial`: the observed class and the runs behind it. */
    method Trial(c: Candidate, mode: Mode) returns (r: Option<(CatchClass, Feedback)>)
      modifies `tick, `trace
      ensures RunsOf(old(trace), trace, c, true) && |trace| <= |old(trace)| + RunsPerTrial(mode)
      ensures r.Some? ==>
        && |trace| == |old(trace)| + RunsPerTrial(mode)
        && r.value.0 == ClassOf(mode, trace[|old(trace)|..])
      ensures r.Some? ==> r.value.1 == Observed(Results(trace[|old(trace)|..]))
      ensures Executes(o) ==> r.Some?
    {
      if mode.Harden? {
        var head := RunCandidate(c, Head, true);
        if head.None? { return None; }
        return Some((FromSingle(head.value), Observed([head.value])));
      } else {
        var pair := RunPair(c, true);
        if pair.None? { return None; }
        return Some((FromCatch(pair.value.0, pair.value.1), Observed([pair.value.0, pair.value.1])));
      }
    }

    /** `flake_filter_single` on head. */
    method FlakeFilterSingle(c: Candidate, reruns: nat, ghost gated: bool) returns (r: Option<FlakeReport>)
      modifies this
      ensures RunsOf(old(trace), trace, c, gated) && |trace| <= |old(trace)| + reruns + 1
      ensures Executes(o) ==> r.Some?
      ensures r.Some? ==>
        && |trace| == |old(trace)| + reruns + 1
        && ReportsOn(r.value, Harden, trace, |old(trace)|, reruns + 1)
      ensures r.Some? ==> (r.value.stable && r.value.Class().HardenPass? <==>
        HeadPasses(trace, |old(trace)|, c, reruns + 1))
    {
      var observed: seq<CatchClass> := [];
      ghost var runs: seq<Run> := [];
      for i := 0 to reruns + 1
        invariant |runs| == i && trace == old(trace) + runs && HeadRuns(runs, c, gated)
        invariant observed == SingleClasses(runs)
      {
        var one := RunCandidate(c, Head, gated);
        if one.None? { return None; }
        MoreHeadRuns(runs, c, gated, one.value);
        runs := runs + [Run(c, Head, one.value, gated)];
        observed := observed + [FromSingle(one.value)];
      }
      SingleFiltered(old(trace), runs, c, gated, reruns + 1);
      r := Some(FlakeReportOf(observed));
    }

    /** `flake_filter_catch`. */
    method FlakeFilterCatch(c: Candidate, reruns: nat, ghost gated: bool) returns (r: Option<FlakeReport>)
      modifies this
      ensures RunsOf(old(trace), trace, c, gated) && |trace| <= |old(trace)| + 2 * (reruns + 1)
      ensures Executes(o) ==> r.Some?
      ensures r.Some? ==>
        && |trace| == |old(trace)| + 2 * (reruns + 1)
        && ReportsOn(r.value, Catch, trace, |old(trace)|, reruns + 1)
      ensures r.Some? ==> (r.value.stable && r.value.Class().WeakCatch? <==>
        WeakPairs(trace, |old(trace)|, c, reruns + 1))
    {
      var observed: seq<CatchClass> := [];
      ghost var runs: seq<Run> := [];
      for i := 0 to reruns + 1
        invariant trace == old(trace) + runs && PairRuns(runs, c, i) && RunsOf(old(trace), trace, c, gated)
        invariant observed == PairClasses(runs)
      {
        var pair := RunPair(c, gated);
        if pair.None? { return None; }
        ghost var two := [Run(c, Base, pair.value.0, gated), Run(c, Head, pair.value.1, gated)];
        MorePairRuns(runs, c, i, two);
        Associative(old(trace), runs, two);
        runs := runs + two;
        observed := observed + [FromCatch(pair.value.0, pair.value.1)];
      }
      CatchFiltered(old(trace), runs, c, reruns + 1);
      r := Some(FlakeReportOf(observed));
    }

    /** `repair_loop`. */
    method RepairLoop(initial: Candidate, mode: Mode, maxAttempts: nat) returns (r: Option<RepairReport>)
      modifies this
      ensures old(trace) <= trace && (OnlyValidated(o, old(trace)) ==> OnlyValidated(o, trace))
      ensures |trace| <= |old(trace)| + RunsIn(mode, maxAttempts)
      ensures maxAttempts == 0 ==> r.None?
      ensures Answers(o) && maxAttempts >= 1 ==> r.Some?
      ensures r.Some? ==> Reported(o, mode, maxAttempts, initial, old(trace), trace, r.value)
      ensures old(prompts) <= prompts && Truthful(o, mode, trace, prompts, |old(prompts)|)
      ensures r.Some? ==> |prompts| == |old(prompts)| + r.value.attempts - 1
    {
      if maxAttempts == 0 { return None; }
      var candidate := initial;
      var lastClass: Option<CatchClass> := None;
      var lastFeedback := NoFeedback;
      NoTrialYet(mode, trace);
      for attempt := 0 to maxAttempts
        invariant OnlyValidated(o, old(trace)) ==> OnlyValidated(o, trace)
        invariant TrialsSoFar(o, mode, old(trace), trace, initial, candidate, lastClass, attempt)
        invariant PromptsSoFar(o, mode, trace, old(prompts), prompts, lastFeedback, attempt)
        invariant attempt == maxAttempts ==> lastClass.Some?
      {
        if attempt > 0 {
          var source := Regenerate(mode, lastFeedback, attempt, old(prompts));
          if source.None? { return None; }
          candidate := Candidate(initial.target, initial.relPath, source.value, attempt);
        }
        var failed;
        r, failed, lastClass, lastFeedback := Attempt(candidate, initial, mode, attempt, maxAttempts, old(trace),
          old(prompts));
        if failed || r.Some? { return; }
      }
      r := Some(RepairReport(Exhausted, candidate, lastClass.value, maxAttempts));
    }

    /** Validate, try, decide: `r` ends the loop, `failed` is an executor error. */
    method Attempt(c: Candidate, ghost initial: Candidate, mode: Mode, attempt: nat, maxAttempts: nat,
                   ghost start: seq<Run>, ghost asked: seq<(Feedback, nat)>)
      returns (r: Option<RepairReport>, failed: bool, lastClass: Option<CatchClass>, feedback: Feedback)
      requires attempt < maxAttempts && SameTest(c, initial, attempt + 1)
      requires start <= trace && |trace| <= |start| + RunsIn(mode, attempt) && NoGoalBefore(mode, start, trace, 0)
      requires Truthful(o, mode, trace, prompts, |asked|)
      modifies `tick, `trace
      ensures start <= trace && |trace| <= |start| + RunsIn(mode, attempt + 1)
      ensures OnlyValidated(o, old(trace)) ==> OnlyValidated(o, trace)
      ensures Truthful(o, mode, trace, prompts, |asked|)
      ensures failed ==> !Executes(o)
      ensures r.Some? ==>
        && Reported(o, mode, maxAttempts, initial, start, trace, r.value)
        && r.value.attempts == attempt + 1
      ensures !failed && r.None? ==>
                && TrialsSoFar(o, mode, start, trace, initial, c, lastClass, attempt + 1)
                && FeedbackFits(o, mode, trace, feedback, |trace|)
                && (attempt + 1 == maxAttempts ==> lastClass.Some?)
    {
      r, failed := None, false;
      if !o.validate(c.source) {
        feedback, lastClass := Issues(c.source), None;
        if attempt + 1 == maxAttempts { r := Some(RepairReport(Rejected, c, Broken, attempt + 1)); }
      } else {
        var trial := OneTrial(c, mode, attempt, start, |asked|);
        if trial.None? { return None, true, None, NoFeedback; }
        lastClass, feedback := Some(trial.value.0), trial.value.1;
        if GoalReached(mode, trial.value.0) { r := Some(RepairReport(Accepted, c, trial.value.0, attempt + 1)); }
      }
    }

    /** The part of an attempt that executes a validated candidate. */
    method OneTrial(c: Candidate, mode: Mode, ghost attempt: nat, ghost start: seq<Run>, ghost from: nat)
      returns (r: Option<(CatchClass, Feedback)>)
      requires o.validate(c.source) && start <= trace && |trace| <= |start| + RunsIn(mode, attempt)
      requires NoGoalBefore(mode, start, trace, 0) && Truthful(o, mode, trace, prompts, from)
      modifies `tick, `trace
      ensures start <= trace && |trace| <= |start| + RunsIn(mode, attempt + 1)
      ensures OnlyValidated(o, old(trace)) ==> OnlyValidated(o, trace)
      ensures Truthful(o, mode, trace, prompts, from)
      ensures Executes(o) ==> r.Some?
      ensures r.Some? ==>
                && LastTrial(o, mode, start, trace, c, r.value.0) && FeedbackFits(o, mode, trace, r.value.1, |trace|)
                && NoGoalBefore(mode, start, trace, if GoalReached(mode, r.value.0) then RunsPerTrial(mode) else 0)
    {
      ghost var before := trace;
      r := TrialOfValid(c, mode, start);
      TruthLasts(o, mode, before, trace, prompts, from);
      if r.Some? { OneMoreTrial(mode, start, before, trace); }
    }

    /** `provider.generate` with the feedback of the previous attempt. */
    method Regenerate(mode: Mode, feedback: Feedback, attempt: nat, ghost before: seq<(Feedback, nat)>)
      returns (source: Option<string>)
      requires attempt > 0 && PromptsSoFar(o, mode, trace, before, prompts, feedback, attempt)
      modifies `tick, `prompts
      ensures before <= prompts && |prompts| == |before| + attempt && Truthful(o, mode, trace, prompts, |before|)
      ensures source == o.generate(feedback, attempt, old(tick))
    {
      prompts := prompts + [(feedback, |trace|)];
      source := o.generate(feedback, attempt, tick);
      tick := tick + 1;
    }

    /** The trial of a candidate that passed static validation. */
    method TrialOfValid(c: Candidate, mode: Mode, ghost start: seq<Run>) returns (r: Option<(CatchClass, Feedback)>)
      requires o.validate(c.source) && start <= trace
      modifies `tick, `trace
      ensures old(trace) <= trace && (OnlyValidated(o, old(trace)) ==> OnlyValidated(o, trace))
      ensures |trace| <= |old(trace)| + RunsPerTrial(mode)
      ensures r.Some? ==> |trace| == |old(trace)| + RunsPerTrial(mode) && LastTrial(o, mode, start, trace, c, r.value.0)
      ensures r.Some? ==> FeedbackFits(o, mode, trace, r.value.1, |trace|)
      ensures Executes(o) ==> r.Some?
    {
      r := Trial(c, mode);
      if r.Some? { assert trace[|trace| - RunsPerTrial(mode)..] == trace[|old(trace)|..]; }
    }

    /** `Pipeline::candidate`: repair, flake filter, classify. */
    method CandidateStep(c: Candidate, mode: Mode, maxAttempts: nat, reruns: nat, out: Outcome)
      returns (r: Option<Outcome>, ghost report: RepairReport, ghost flake: FlakeReport, ghost at: nat, ghost s: Second)
      requires Justified(o, mode, reruns + 1, trace, out) && OnlyValidated(o, trace)
      modifies this
      ensures old(trace) <= trace && OnlyValidated(o, trace)
      ensures |trace| <= |old(trace)| + CandidateRuns(mode, maxAttempts, reruns)
      ensures Answers(o) && maxAttempts >= 1 ==> r.Some?
      ensures r.Some? ==>
                && Justified(o, mode, reruns + 1, trace, r.value) && Size(r.value) == Size(out) + 1
                && Decided(o, mode, maxAttempts, reruns, old(trace), trace, c, report, flake, at, s)
                && r.value == Add(out, CandidateEntry(o, mode, report, flake, s))
    {
      r, report, flake, at, s := RepairAndClassify(c, mode, maxAttempts, reruns, out);
      if r.Some? {
        AddJustified(o, mode, reruns + 1, old(trace), trace, out, CandidateEntry(o, mode, report, flake, s));
      }
    }

    /** The same, entry and evidence only. */
    method RepairAndClassify(c: Candidate, mode: Mode, maxAttempts: nat, reruns: nat, out: Outcome)
      returns (r: Option<Outcome>, ghost report: RepairReport, ghost flake: FlakeReport, ghost at: nat, ghost s: Second)
      requires OnlyValidated(o, trace)
      modifies this
      ensures old(trace) <= trace && OnlyValidated(o, trace)
      ensures |trace| <= |old(trace)| + CandidateRuns(mode, maxAttempts, reruns)
      ensures Answers(o) && maxAttempts >= 1 ==> r.Some?
      ensures r.Some? ==>
                && Decided(o, mode, maxAttempts, reruns, old(trace), trace, c, report, flake, at, s)
                && Backed(o, mode, reruns + 1, trace, CandidateEntry(o, mode, report, flake, s))
                && r.value == Add(out, CandidateEntry(o, mode, report, flake, s))
    {
      report, flake, at, s := RepairReport(Rejected, c, Broken, 1), FlakeReport(false, []), 0, NOTHING_SEEN;
      var repaired := RepairLoop(c, mode, maxAttempts);
      if repaired.None? { return None, report, flake, at, s; }
      report, at := repaired.value, |trace|;
      ghost var upTo := trace;
      r, flake, s := Conclude(repaired.value, mode, reruns, out);
      if r.Some? { DecidedNow(o, mode, maxAttempts, reruns, old(trace), upTo, trace, c, report, flake, at, s); }
    }

    /** What follows from the repair report. */
    method Conclude(report: RepairReport, mode: Mode, reruns: nat, out: Outcome)
      returns (r: Option<Outcome>, ghost flake: FlakeReport, ghost s: Second)
      requires OnlyValidated(o, trace) && (report.outcome.Accepted? ==> o.validate(report.candidate.source))
      modifies this
      ensures old(trace) <= trace && OnlyValidated(o, trace)
      ensures |trace| <= |old(trace)| + RunsIn(mode, reruns + 2)
      ensures Executes(o) ==> r.Some?
      ensures r.Some? && report.outcome.Accepted? ==> ReportsOn(flake, mode, trace, |old(trace)|, reruns + 1)
      ensures r.Some? && report.outcome.Accepted? && Surfaces(mode, flake) ==>
                SecondAt(trace, |old(trace)| + RunsIn(mode, reruns + 1), report.candidate, s)
      ensures r.Some? ==>
                && Backed(o, mode, reruns + 1, trace, CandidateEntry(o, mode, report, flake, s))
                && r.value == Add(out, CandidateEntry(o, mode, report, flake, s))
    {
      flake, s := FlakeReport(false, []), NOTHING_SEEN;
      if report.outcome.Accepted? {
        r, flake, s := AfterRepair(report.candidate, mode, reruns, out);
      } else {
        var reason := if report.outcome.Exhausted? then RepairExhausted else FailedValidation;
        r := Some(Add(out, Refuse(RejectOf(o, report.candidate.relPath, reason, report.class_))));
      }
    }

    /** What becomes of a repaired candidate. */
    method AfterRepair(best: Candidate, mode: Mode, reruns: nat, out: Outcome)
      returns (r: Option<Outcome>, ghost flake: FlakeReport, ghost s: Second)
      requires OnlyValidated(o, trace) && o.validate(best.source)
      modifies this
      ensures old(trace) <= trace && OnlyValidated(o, trace)
      ensures |trace| <= |old(trace)| + RunsIn(mode, reruns + 2)
      ensures Executes(o) ==> r.Some?
      ensures r.Some? ==>
                && ReportsOn(flake, mode, trace, |old(trace)|, reruns + 1)
                && (Surfaces(mode, flake) ==> SecondAt(trace, |old(trace)| + RunsIn(mode, reruns + 1), best, s))
                && Backed(o, mode, reruns + 1, trace, StableEntry(o, mode, best, flake, s))
                && r.value == Add(out, StableEntry(o, mode, best, flake, s))
    {
      flake, s := FlakeReport(false, []), NOTHING_SEEN;
      var stable := Confirm(best, mode, reruns);
      GatedKeeps(o, old(trace), trace, best);
      if stable.None? { return None, flake, s; }
      flake := stable.value;
      ghost var confirmed := trace;
      r, s := Settle(best, mode, stable.value, out);
      GatedKeeps(o, confirmed, trace, best);
      if r.Some? { RepairSettled(o, mode, reruns + 1, confirmed, trace, |old(trace)|, best, flake, s); }
    }

    /** What the flake report decides. */
    method Settle(best: Candidate, mode: Mode, stable: FlakeReport, out: Outcome)
      returns (r: Option<Outcome>, ghost s: Second)
      modifies this
      ensures RunsOf(old(trace), trace, best, true) && |trace| <= |old(trace)| + (if mode.Catch? then 2 else 0)
      ensures Executes(o) ==> r.Some?
      ensures r.Some? ==> r.value == Add(out, StableEntry(o, mode, best, stable, s))
      ensures r.Some? && Surfaces(mode, stable) ==> SecondAt(trace, |old(trace)|, best, s)
    {
      s := NOTHING_SEEN;
      if !stable.stable {
        r := Some(Add(out, Refuse(RejectOf(o, best.relPath, FlakyAcrossReruns, Flaky))));
      } else {
        r, s := ClassifyStable(best, mode, stable.Class(), out);
      }
    }

    /** The flake filter of the mode. */
    method Confirm(best: Candidate, mode: Mode, reruns: nat) returns (r: Option<FlakeReport>)
      modifies this
      ensures RunsOf(old(trace), trace, best, true) && |trace| <= |old(trace)| + RunsIn(mode, reruns + 1)
      ensures Executes(o) ==> r.Some?
      ensures r.Some? ==>
                && |trace| == |old(trace)| + RunsIn(mode, reruns + 1)
                && ReportsOn(r.value, mode, trace, |old(trace)|, reruns + 1)
                && GoalConfirmed(mode, reruns + 1, trace, |old(trace)|, best, r.value)
    {
      if mode.Harden? {
        r := FlakeFilterSingle(best, reruns, true);
      } else {
        r := FlakeFilterCatch(best, reruns, true);
      }
    }

    /** One more pair of runs, and `assess` on it. */
    method SecondLook(c: Candidate, ghost gated: bool) returns (r: Option<CatchReport>, ghost s: Second)
      modifies `tick, `trace
      ensures RunsOf(old(trace), trace, c, gated) && |trace| <= |old(trace)| + 2
      ensures r.Some? <==> PairAt(o, c, old(tick), gated).Some?
      ensures r.Some? ==> trace == old(trace) + PairAt(o, c, old(tick), gated).value
      ensures r.Some? ==> r.value == ReportOf(o, c, s) && SecondAt(trace, |old(trace)|, c, s)
    {
      s := NOTHING_SEEN;
      var pair := RunPair(c, gated);
      if pair.None? { return None, s; }
      var judge := o.judge(pair.value.0, pair.value.1, tick);
      tick := tick + 1;
      s := Second(pair.value.0, pair.value.1, judge);
      r := Some(CatchReport(o.redact(c.relPath).text, o.redact(c.source).text,
        Assess.Assess(pair.value.0, pair.value.1, true, judge, o.thresholds)));
    }

    /** `Pipeline::classify_stable`; a weak catch is executed once more on base and head, for the assessor. */
    method ClassifyStable(c: Candidate, mode: Mode, class_: CatchClass, out: Outcome)
      returns (r: Option<Outcome>, ghost s: Second)
      modifies this
      ensures RunsOf(old(trace), trace, c, true)
      ensures r.Some? ==> r.value == Add(out, ClassifiedEntry(o, mode, c, class_, s))
      ensures var pair := PairAt(o, c, old(tick), true);
        if mode.Catch? && class_.WeakCatch? then
          && |trace| <= |old(trace)| + 2 && (r.Some? <==> pair.Some?)
          && (r.Some? ==> trace == old(trace) + pair.value && SecondAt(trace, |old(trace)|, c, s))
        else r.Some? && trace == old(trace)
    {
      s := NOTHING_SEEN;
      if mode.Harden? && class_.HardenPass? {
        var landed := AcceptLandable(o, c);
        match landed {
          case Ok(t) => return Some(out.(accepted := out.accepted + [t])), s;
          case Err(reason) => return Some(Add(out, Refuse(RejectOf(o, c.relPath, reason, HardenPass)))), s;
        }
      } else if mode.Catch? && class_.WeakCatch? {
        var report;
        report, s := SecondLook(c, true);
        if report.None? { return None, s; }
        return Some(out.(catches := out.catches + [report.value])), s;
      }
      return Some(Add(out, Refuse(RejectOf(o, c.relPath, OffGoal, class_)))), s;
    }

    /** `Pipeline::harvested`: a replayed catch must be confirmed, and is then executed once more. */
    method HarvestStep(h: Harvest, mode: Mode, reruns: nat, out: Outcome)
      returns (r: Option<Outcome>, ghost flake: FlakeReport, ghost s: Second)
      requires Justified(o, mode, reruns + 1, trace, out) && OnlyValidated(o, trace)
      modifies this
      ensures old(trace) <= trace && OnlyValidated(o, trace) && |trace| <= |old(trace)| + HarvestRuns(reruns)
      ensures Executes(o) ==> r.Some?
      ensures r.Some? ==>
                && Justified(o, mode, reruns + 1, trace, r.value) && Size(r.value) == Size(out) + 1
                && (h.class_.WeakCatch? ==> ReportsOn(flake, Catch, trace, |old(trace)|, reruns + 1))
                && (h.class_.WeakCatch? && Surfaces(Catch, flake) ==>
                     SecondAt(trace, |old(trace)| + 2 * (reruns + 1), h.candidate, s))
                && r.value == Add(out, HarvestEntry(o, h, flake, s))
    {
      flake, s := FlakeReport(false, []), NOTHING_SEEN;
      if h.class_.WeakCatch? {
        r, flake, s := HarvestWeak(h, mode, reruns, out);
      } else {
        r := Some(Add(out, Refuse(RejectOf(o, h.candidate.relPath, ReplayNotWeak, h.class_))));
      }
      if r.Some? { AddJustified(o, mode, reruns + 1, old(trace), trace, out, HarvestEntry(o, h, flake, s)); }
    }

    method HarvestWeak(h: Harvest, ghost mode: Mode, reruns: nat, out: Outcome)
      returns (r: Option<Outcome>, ghost flake: FlakeReport, ghost s: Second)
      requires OnlyValidated(o, trace) && h.class_.WeakCatch?
      modifies this
      ensures old(trace) <= trace && OnlyValidated(o, trace) && |trace| <= |old(trace)| + HarvestRuns(reruns)
      ensures Executes(o) ==> r.Some?
      ensures r.Some? ==>
                && ReportsOn(flake, Catch, trace, |old(trace)|, reruns + 1)
                && (Surfaces(Catch, flake) ==> SecondAt(trace, |old(trace)| + 2 * (reruns + 1), h.candidate, s))
                && Backed(o, mode, reruns + 1, trace, HarvestEntry(o, h, flake, s))
                && r.value == Add(out, HarvestEntry(o, h, flake, s))
    {
      flake, s := FlakeReport(false, []), NOTHING_SEEN;
      var stable := FlakeFilterCatch(h.candidate, reruns, false);
      UngatedKeeps(o, old(trace), trace, h.candidate);
      if stable.None? { return None, flake, s; }
      flake := stable.value;
      ghost var confirmed := trace;
      r, s := HarvestConfirmed(h, stable.value, out);
      UngatedKeeps(o, confirmed, trace, h.candidate);
      if r.Some? { HarvestSettled(o, mode, reruns + 1, confirmed, trace, |old(trace)|, h, flake, s); }
    }

    /** `harvested` past the flake filter. */
    method HarvestConfirmed(h: Harvest, stable: FlakeReport, out: Outcome)
      returns (r: Option<Outcome>, ghost s: Second)
      requires h.class_.WeakCatch?
      modifies this
      ensures RunsOf(old(trace), trace, h.candidate, false)
      ensures r.Some? ==> r.value == Add(out, HarvestEntry(o, h, stable, s))
      ensures var pair := PairAt(o, h.candidate, old(tick), false);
        if Surfaces(Catch, stable) then
          && |trace| <= |old(trace)| + 2 && (r.Some? <==> pair.Some?)
          && (r.Some? ==> trace == old(trace) + pair.value && SecondAt(trace, |old(trace)|, h.candidate, s))
        else r.Some? && trace == old(trace)
    {
      s := NOTHING_SEEN;
      if !(stable.stable && stable.Class().WeakCatch?) {
        var class_ := if stable.stable then stable.Class() else Flaky;
        r := Some(Add(out, Refuse(RejectOf(o, h.candidate.relPath, NotReproduced, class_))));
      } else {
        var report;
        report, s := SecondLook(h.candidate, false);
        if report.None? { return None, s; }
        r := Some(out.(catches := out.catches + [report.value]));
      }
    }

    /** `process_target`, given what the strategies generated. */
    method ProcessTarget(candidates: seq<Candidate>, harvests: seq<Harvest>, mode: Mode, maxAttempts: nat, reruns: nat)
      returns (r: Option<Outcome>)
      requires OnlyValidated(o, trace)
      modifies this
      ensures old(trace) <= trace && OnlyValidated(o, trace)
      ensures |trace| <= |old(trace)| + |candidates| * CandidateRuns(mode, maxAttempts, reruns)
                                      + |harvests| * HarvestRuns(reruns)
      ensures Answers(o) && (maxAttempts >= 1 || candidates == []) ==> r.Some?
      ensures r.Some? ==>
                && r.value.generated == |candidates| + |harvests| == Size(r.value)
                && Justified(o, mode, reruns + 1, trace, r.value)
      ensures r.Some? ==> StrongAgain(o, trace, reruns + 1, r.value.catches)
    {
      var out := Outcome([], [], [], |candidates| + |harvests|);
      r := Candidates(candidates, mode, maxAttempts, reruns, out);
      if r.None? { return; }
      r := Harvests(harvests, mode, reruns, r.value);
      if r.Some? { StrongIsConfirmedAgain(o, mode, reruns + 1, trace, r.value); }
    }

    /** The loop over the generated candidates. */
    method Candidates(candidates: seq<Candidate>, mode: Mode, maxAttempts: nat, reruns: nat, out0: Outcome)
      returns (r: Option<Outcome>)
      requires Justified(o, mode, reruns + 1, trace, out0) && OnlyValidated(o, trace)
      modifies this
      ensures old(trace) <= trace && OnlyValidated(o, trace)
      ensures |trace| <= |old(trace)| + |candidates| * CandidateRuns(mode, maxAttempts, reruns)
      ensures Answers(o) && (maxAttempts >= 1 || candidates == []) ==> r.Some?
      ensures r.Some? ==>
                && Justified(o, mode, reruns + 1, trace, r.value)
                && Size(r.value) == Size(out0) + |candidates| && r.value.generated == out0.generated
    {
      var out := out0;
      ghost var cost := CandidateRuns(mode, maxAttempts, reruns);
      for i := 0 to |candidates|
        invariant old(trace) <= trace && OnlyValidated(o, trace) && |trace| <= |old(trace)| + i * cost
        invariant Justified(o, mode, reruns + 1, trace, out)
        invariant Size(out) == Size(out0) + i && out.generated == out0.generated
      {
        Scaled(i, |candidates|, cost);
        ghost var report, flake, at, s;
        var next;
        next, report, flake, at, s := CandidateStep(candidates[i], mode, maxAttempts, reruns, out);
        if next.None? { return None; }
        out := next.value;
      }
      r := Some(out);
    }

    /** The loop over the harvested catches. */
    method Harvests(harvests: seq<Harvest>, mode: Mode, reruns: nat, out0: Outcome) returns (r: Option<Outcome>)
      requires Justified(o, mode, reruns + 1, trace, out0) && OnlyValidated(o, trace)
      modifies this
      ensures old(trace) <= trace && OnlyValidated(o, trace)
      ensures |trace| <= |old(trace)| + |harvests| * HarvestRuns(reruns)
      ensures Executes(o) ==> r.Some?
      ensures r.Some? ==>
                && Justified(o, mode, reruns + 1, trace, r.value)
                && Size(r.value) == Size(out0) + |harvests| && r.value.generated == out0.generated
    {
      var out := out0;
      ghost var cost := HarvestRuns(reruns);
      for i := 0 to |harvests|
        invariant old(trace) <= trace && OnlyValidated(o, trace) && |trace| <= |old(trace)| + i * cost
        invariant Justified(o, mode, reruns + 1, trace, out)
        invariant Size(out) == Size(out0) + i && out.generated == out0.generated
      {
        Scaled(i, |harvests|, cost);
        ghost var flake, s;
        var next;
        next, flake, s := HarvestStep(harvests[i], mode, reruns, out);
        if next.None? { return None; }
        out := next.value;
      }
      r := Some(out);
    }
  }

  lemma Scaled(i: nat, n: nat, k: nat)
    requires i < n
    ensures (i + 1) * k == i * k + k && 0 <= i * k && (i + 1) * k <= n * k
  {}

  /** Head runs of one candidate. */
  ghost predicate HeadRuns(runs: seq<Run>, c: Candidate, gated: bool) {
    forall i :: 0 <= i < |runs| ==> runs[i].candidate == c && runs[i].gated == gated && runs[i].variant.Head?
  }

  lemma MoreHeadRuns(runs: seq<Run>, c: Candidate, gated: bool, one: ExecResult)
    requires HeadRuns(runs, c, gated)
    ensures var more := runs + [Run(c, Head, one, gated)];
      HeadRuns(more, c, gated) && SingleClasses(more) == SingleClasses(runs) + [FromSingle(one)]
  {
    assert (runs + [Run(c, Head, one, gated)])[..|runs|] == runs;
  }

  lemma {:induction false} SinglesPass(runs: seq<Run>, c: Candidate, gated: bool)
    requires HeadRuns(runs, c, gated)
    ensures |SingleClasses(runs)| == |runs|
    ensures AllAre(SingleClasses(runs), HardenPass) <==> AllPassHead(runs, c)
  {
    if runs == [] {
    } else {
      var init, last := runs[..|runs| - 1], runs[|runs| - 1];
      SinglesPass(init, c, gated);
      AllAppend(SingleClasses(init), FromSingle(last.result), HardenPass);
      assert AllPassHead(runs, c) <==> AllPassHead(init, c) && last.result.outcome.Passed? by {
        assert forall i :: 0 <= i < |init| ==> runs[i] == init[i];
      }
    }
  }

  /** Base and head runs of one candidate, in turns. */
  ghost predicate PairRuns(runs: seq<Run>, c: Candidate, n: nat) {
    |runs| == 2 * n && (n > 0 ==>
      && runs[2 * n - 2].candidate == c && runs[2 * n - 2].variant.Base?
      && runs[2 * n - 1].candidate == c && runs[2 * n - 1].variant.Head?
      && PairRuns(runs[..2 * n - 2], c, n - 1))
  }

  lemma MorePairRuns(runs: seq<Run>, c: Candidate, n: nat, two: seq<Run>)
    requires PairRuns(runs, c, n)
    requires |two| == 2 && two[0].candidate == two[1].candidate == c && two[0].variant.Base? && two[1].variant.Head?
    ensures PairRuns(runs + two, c, n + 1)
    ensures PairClasses(runs + two) == PairClasses(runs) + [FromCatch(two[0].result, two[1].result)]
  {
    assert (runs + two)[..2 * n] == runs;
  }

  lemma {:induction false} PairsWeak(runs: seq<Run>, c: Candidate, n: nat)
    requires PairRuns(runs, c, n)
    ensures |PairClasses(runs)| == n
    ensures AllAre(PairClasses(runs), WeakCatch) <==> AllWeakPairs(runs, c, n)
  {
    if n == 0 {
    } else {
      var init := runs[..2 * n - 2];
      PairsWeak(init, c, n - 1);
      AllAppend(PairClasses(init), FromCatch(runs[2 * n - 2].result, runs[2 * n - 1].result), WeakCatch);
    }
  }

  /** A flake filter's report is the report on its own runs. */
  lemma FilterReport(start: seq<Run>, runs: seq<Run>, mode: Mode, trials: nat)
    requires |runs| == RunsIn(mode, trials) && |TrialClasses(mode, runs)| == trials
    ensures ReportsOn(FlakeReportOf(TrialClasses(mode, runs)), mode, start + runs, |start|, trials)
    ensures (start + runs)[|start|..|start| + RunsIn(mode, trials)] == runs
  {
    Suffix(start, runs);
  }

  /** What the single filter concludes from its head runs. */
  lemma SingleFiltered(start: seq<Run>, runs: seq<Run>, c: Candidate, gated: bool, n: nat)
    requires HeadRuns(runs, c, gated) && |runs| == n > 0
    ensures var r := FlakeReportOf(SingleClasses(runs));
      && ReportsOn(r, Harden, start + runs, |start|, n)
      && (r.stable && r.Class().HardenPass? <==> HeadPasses(start + runs, |start|, c, n))
  {
    SinglesPass(runs, c, gated);
    StableClass(SingleClasses(runs), HardenPass);
    FilterReport(start, runs, Harden, n);
  }

  /** What the catch filter concludes from its pairs. */
  lemma CatchFiltered(start: seq<Run>, runs: seq<Run>, c: Candidate, n: nat)
    requires PairRuns(runs, c, n) && n > 0
    ensures var r := FlakeReportOf(PairClasses(runs));
      && ReportsOn(r, Catch, start + runs, |start|, n)
      && (r.stable && r.Class().WeakCatch? <==> WeakPairs(start + runs, |start|, c, n))
  {
    PairsWeak(runs, c, n);
    StableClass(PairClasses(runs), WeakCatch);
    FilterReport(start, runs, Catch, n);
  }

  lemma Suffix<T>(a: seq<T>, b: seq<T>)
    ensures (a + b)[|a|..|a| + |b|] == b
  {}

  lemma ReportLasts(flake: FlakeReport, mode: Mode, trace: seq<Run>, more: seq<Run>, at: nat, trials: nat)
    requires trace <= more && ReportsOn(flake, mode, trace, at, trials)
    ensures ReportsOn(flake, mode, more, at, trials)
  {
    var to := at + RunsIn(mode, trials);
    assert more[at..to] == trace[at..to];
  }

  /** Runs of a validated candidate keep the gate. */
  lemma GatedKeeps(o: Oracles, before: seq<Run>, after: seq<Run>, c: Candidate)
    requires RunsOf(before, after, c, true) && o.validate(c.source) && OnlyValidated(o, before)
    ensures OnlyValidated(o, after)
  {
    forall i | 0 <= i < |after| && after[i].gated ensures o.validate(after[i].candidate.source) {
      if i < |before| { assert after[i] == before[i]; }
    }
  }

  lemma UngatedKeeps(o: Oracles, before: seq<Run>, after: seq<Run>, c: Candidate)
    requires RunsOf(before, after, c, false) && OnlyValidated(o, before)
    ensures OnlyValidated(o, after)
  {
    forall i | 0 <= i < |after| && after[i].gated ensures o.validate(after[i].candidate.source) {
      assert after[i] == before[i];
    }
  }

  /** A filtered harvest is backed by the filter's runs and its second pair. */
  lemma HarvestSettled(o: Oracles, mode: Mode, trials: nat, confirmed: seq<Run>, trace: seq<Run>, p: nat, h: Harvest,
                       flake: FlakeReport, s: Second)
    requires confirmed <= trace && ReportsOn(flake, Catch, confirmed, p, trials)
    requires Surfaces(Catch, flake) ==>
      && WeakPairs(confirmed, p, h.candidate, trials)
      && SecondAt(trace, p + 2 * trials, h.candidate, s)
    ensures ReportsOn(flake, Catch, trace, p, trials)
    ensures Backed(o, mode, trials, trace, HarvestEntry(o, h, flake, s))
  {
    ReportLasts(flake, Catch, confirmed, trace, p, trials);
    if Surfaces(Catch, flake) {
      PairsLast(confirmed, trace, p, h.candidate, trials);
      assert ConfirmedAt(o, trace, trials, ReportOf(o, h.candidate, s), p, h.candidate, s);
    }
  }

  /** A filtered repair is backed by the filter's runs, and a catch by its second pair as well. */
  lemma RepairSettled(o: Oracles, mode: Mode, trials: nat, confirmed: seq<Run>, trace: seq<Run>, p: nat, c: Candidate,
                      flake: FlakeReport, s: Second)
    requires confirmed <= trace && o.validate(c.source) && ReportsOn(flake, mode, confirmed, p, trials)
    requires GoalConfirmed(mode, trials, confirmed, p, c, flake)
    requires Surfaces(mode, flake) ==> SecondAt(trace, p + RunsIn(mode, trials), c, s)
    ensures ReportsOn(flake, mode, trace, p, trials)
    ensures Backed(o, mode, trials, trace, StableEntry(o, mode, c, flake, s))
  {
    ReportLasts(flake, mode, confirmed, trace, p, trials);
    GoalLasts(mode, trials, confirmed, trace, p, c, flake);
    if Surfaces(mode, flake) { assert ConfirmedAt(o, trace, trials, ReportOf(o, c, s), p, c, s); }
  }

  /** A stable catch in catch mode is surfaced. */
  predicate Surfaces(mode: Mode, flake: FlakeReport) {
    mode.Catch? && flake.stable && flake.Class().WeakCatch?
  }

  /** A stable report of the goal class is right about the runs at `p`. */
  ghost predicate GoalConfirmed(mode: Mode, trials: nat, trace: seq<Run>, p: nat, c: Candidate, flake: FlakeReport) {
    && (mode.Harden? && flake.stable && flake.Class().HardenPass? ==> HeadPasses(trace, p, c, trials))
    && (Surfaces(mode, flake) ==> WeakPairs(trace, p, c, trials))
  }

  lemma GoalLasts(mode: Mode, trials: nat, trace: seq<Run>, more: seq<Run>, p: nat, c: Candidate, flake: FlakeReport)
    requires trace <= more && GoalConfirmed(mode, trials, trace, p, c, flake)
    ensures GoalConfirmed(mode, trials, more, p, c, flake)
  {
    if HeadPasses(trace, p, c, trials) { PassesLast(trace, more, p, c, trials); }
    if WeakPairs(trace, p, c, trials) { PairsLast(trace, more, p, c, trials); }
  }

  /** The class was read off the last runs of the trace, which are runs of this validated candidate. */
  ghost predicate LastTrial(o: Oracles, mode: Mode, start: seq<Run>, trace: seq<Run>, c: Candidate, class_: CatchClass)
  {
    && o.validate(c.source)
    && |trace| >= |start| + RunsPerTrial(mode)
    && (forall i :: |trace| - RunsPerTrial(mode) <= i < |trace| ==> trace[i].candidate == c)
    && class_ == ClassOf(mode, trace[|trace| - RunsPerTrial(mode)..])
  }

  /**
   How a candidate's entry was decided: a sound repair report, its class read off the runs before `at`, and
   for an accepted repair the flake report on the runs from `at` on, and the second pair of a catch after those.
   */
  ghost predicate Decided(o: Oracles, mode: Mode, maxAttempts: nat, reruns: nat, start: seq<Run>, trace: seq<Run>,
                          c: Candidate, report: RepairReport, flake: FlakeReport, at: nat, s: Second)
  {
    && |start| <= at <= |trace| && Reported(o, mode, maxAttempts, c, start, trace[..at], report)
    && (report.outcome.Accepted? ==> ReportsOn(flake, mode, trace, at, reruns + 1))
    && (report.outcome.Accepted? && Surfaces(mode, flake) ==>
         SecondAt(trace, at + RunsIn(mode, reruns + 1), report.candidate, s))
  }

  lemma DecidedNow(o: Oracles, mode: Mode, maxAttempts: nat, reruns: nat, start: seq<Run>, upTo: seq<Run>,
                   trace: seq<Run>, c: Candidate, report: RepairReport, flake: FlakeReport, at: nat, s: Second)
    requires start <= upTo <= trace && at == |upTo| && Reported(o, mode, maxAttempts, c, start, upTo, report)
    requires report.outcome.Accepted? ==> ReportsOn(flake, mode, trace, at, reruns + 1)
    requires report.outcome.Accepted? && Surfaces(mode, flake) ==>
      SecondAt(trace, at + RunsIn(mode, reruns + 1), report.candidate, s)
    ensures Decided(o, mode, maxAttempts, reruns, start, trace, c, report, flake, at, s)
  {
    assert trace[..at] == upTo;
  }

  /** What a repair report may say. */
  ghost predicate RepairSound(o: Oracles, mode: Mode, maxAttempts: nat, initial: Candidate, r: RepairReport) {
    && 1 <= r.attempts <= maxAttempts
    && r.candidate.relPath == initial.relPath && r.candidate.target == initial.target
    && (r.attempts == 1 ==> r.candidate == initial)
    && (!r.outcome.Accepted? ==> r.attempts == maxAttempts)
    && (r.outcome.Rejected? <==> !o.validate(r.candidate.source))
    && (r.outcome.Rejected? ==> r.class_.Broken?)
    && (r.outcome.Accepted? <==> !r.outcome.Rejected? && GoalReached(mode, r.class_))
  }

  /** Apart from the last `spare` runs, no trial since `start` reached the goal. */
  ghost predicate NoGoalBefore(mode: Mode, start: seq<Run>, trace: seq<Run>, spare: nat) {
    && |start| + spare <= |trace|
    && (mode.Catch? ==> (|trace| - spare - |start|) % 2 == 0)
    && NoneReached(mode, TrialClasses(mode, trace[|start|..|trace| - spare]))
  }

  ghost predicate NoneReached(mode: Mode, classes: seq<CatchClass>) {
    forall c :: c in classes ==> !GoalReached(mode, c)
  }

  /** After `attempts` attempts a candidate is still for the same target and path; the first is the initial one. */
  ghost predicate SameTest(c: Candidate, initial: Candidate, attempts: nat) {
    c.relPath == initial.relPath && c.target == initial.target && (attempts <= 1 ==> c == initial)
  }

  /** What the repair loop knows of its trials after `attempt` attempts. */
  ghost predicate TrialsSoFar(o: Oracles, mode: Mode, start: seq<Run>, trace: seq<Run>, initial: Candidate,
                              candidate: Candidate, lastClass: Option<CatchClass>, attempt: nat)
  {
    && start <= trace && |trace| <= |start| + RunsIn(mode, attempt) && SameTest(candidate, initial, attempt)
    && (lastClass.Some? ==>
      && !GoalReached(mode, lastClass.value)
      && LastTrial(o, mode, start, trace, candidate, lastClass.value))
    && NoGoalBefore(mode, start, trace, 0)
  }

  /** What a finished repair loop reports, held against its runs. */
  ghost predicate Reported(o: Oracles, mode: Mode, maxAttempts: nat, initial: Candidate, start: seq<Run>,
                           trace: seq<Run>, r: RepairReport)
  {
    && RepairSound(o, mode, maxAttempts, initial, r)
    && (!r.outcome.Rejected? ==> LastTrial(o, mode, start, trace, r.candidate, r.class_))
    && NoGoalBefore(mode, start, trace, if r.outcome.Accepted? then RunsPerTrial(mode) else 0)
  }

  /** ... and of the prompts it has sent. */
  ghost predicate PromptsSoFar(o: Oracles, mode: Mode, trace: seq<Run>, before: seq<(Feedback, nat)>,
                               prompts: seq<(Feedback, nat)>, feedback: Feedback, attempt: nat)
  {
    && before <= prompts && Truthful(o, mode, trace, prompts, |before|)
    && |prompts| == |before| + (if attempt == 0 then 0 else attempt - 1)
    && (attempt > 0 ==> FeedbackFits(o, mode, trace, feedback, |trace|))
  }

  lemma NoTrialYet(mode: Mode, trace: seq<Run>)
    ensures NoGoalBefore(mode, trace, trace, 0)
  {
    assert trace[|trace|..|trace|] == [];
  }

  /** One more trial: what went before is untouched, and the new class is added. */
  lemma OneMoreTrial(mode: Mode, start: seq<Run>, before: seq<Run>, trace: seq<Run>)
    requires start <= before <= trace && NoGoalBefore(mode, start, before, 0)
      && |trace| == |before| + RunsPerTrial(mode)
    ensures NoGoalBefore(mode, start, trace, RunsPerTrial(mode))
    ensures !GoalReached(mode, ClassOf(mode, trace[|before|..])) ==> NoGoalBefore(mode, start, trace, 0)
  {
    var runs, more := before[|start|..], trace[|before|..];
    Cuts(before, trace, |start|);
    ClassesAppend(mode, runs, more);
    NoneReachedAppend(mode, TrialClasses(mode, runs), ClassOf(mode, more));
  }

  lemma NoneReachedAppend(mode: Mode, classes: seq<CatchClass>, class_: CatchClass)
    requires NoneReached(mode, classes)
    ensures !GoalReached(mode, class_) ==> NoneReached(mode, classes + [class_])
  {}

  lemma Cuts<T>(before: seq<T>, trace: seq<T>, from: nat)
    requires before <= trace && from <= |before|
    ensures before[from..|before|] == before[from..] && trace[from..|before|] == before[from..]
    ensures trace[from..|trace|] == before[from..] + trace[|before|..]
  {}

  lemma ClassesAppend(mode: Mode, runs: seq<Run>, more: seq<Run>)
    requires (mode.Catch? ==> |runs| % 2 == 0) && |more| == RunsPerTrial(mode)
    ensures TrialClasses(mode, runs + more) == TrialClasses(mode, runs) + [ClassOf(mode, more)]
  {
    var all := runs + more;
    assert all[..|all| - |more|] == runs;
  }

  /** Feedback tells the truth: issues of a refused source, or exactly the latest runs among the first `at`. */
  ghost predicate FeedbackFits(o: Oracles, mode: Mode, trace: seq<Run>, f: Feedback, at: nat) {
    match f
    case NoFeedback => false
    case Issues(source) => !o.validate(source)
    case Observed(results) =>
      && RunsPerTrial(mode) <= at <= |trace|
      && results == Results(trace[at - RunsPerTrial(mode)..at])
  }

  ghost predicate Truthful(o: Oracles, mode: Mode, trace: seq<Run>, prompts: seq<(Feedback, nat)>, from: nat) {
    forall k :: from <= k < |prompts| ==> FeedbackFits(o, mode, trace, prompts[k].0, prompts[k].1)
  }

  lemma TruthLasts(o: Oracles, mode: Mode, trace: seq<Run>, more: seq<Run>, prompts: seq<(Feedback, nat)>, from: nat)
    requires trace <= more && Truthful(o, mode, trace, prompts, from)
    ensures Truthful(o, mode, more, prompts, from)
  {
    forall k | from <= k < |prompts| ensures FeedbackFits(o, mode, more, prompts[k].0, prompts[k].1) {
      var at := prompts[k].1;
      if prompts[k].0.Observed? { assert more[at - RunsPerTrial(mode)..at] == trace[at - RunsPerTrial(mode)..at]; }
    }
  }

  ghost predicate AllAre(observed: seq<CatchClass>, x: CatchClass) {
    forall j :: 0 <= j < |observed| ==> observed[j] == x
  }

  lemma AllAppend(observed: seq<CatchClass>, y: CatchClass, x: CatchClass)
    ensures AllAre(observed + [y], x) <==> AllAre(observed, x) && y == x
  {
    if AllAre(observed + [y], x) {
      assert (observed + [y])[|observed|] == y;
      forall j | 0 <= j < |observed| ensures observed[j] == x { assert (observed + [y])[j] == observed[j]; }
    }
  }

  /** A report is stable with class `x` exactly when every trial observed `x`. */
  lemma StableClass(observed: seq<CatchClass>, x: CatchClass)
    requires observed != [] && x != Flaky
    ensures var r := FlakeReportOf(observed);
            r.stable && r.Class() == x <==> AllAre(observed, x)
  {
    if FlakeReportOf(observed).stable {
      forall j | 0 <= j < |observed| ensures observed[j] == observed[0] { assert observed[j] in observed; }
    }
  }
}
