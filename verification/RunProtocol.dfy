/**
 Resumable runs (`run.rs`) over the durable store (`jitgen-state/src/store.rs`).

 One object is the durable state of one run id.  `fuel` is the number of store operations left before
 the process dies or the store fails; every operation is all-or-nothing, and publishing an artifact is
 two of them (the rename of the file, then its index row).  `rank` and `process` are oracles: which
 targets a configuration selects, and what the pipeline makes of a target on its n-th call.
 */
module RunProtocol {
  import opened Wrappers
  import opened Decimal

  /** A target; `rest` is everything the input hash covers besides the id. */
  datatype Target = Target(id: string, rest: string)

  /** The serialised trusted configuration. */
  type Config = string

  datatype Status = Pending | Running | Succeeded | Failed | Skipped {
    predicate Done() { Succeeded? || Skipped? }
  }

  /** Step ids `setup`, `report` and `target-<fragment>`. */
  datatype StepId = Setup | ReportStep | TargetStep(fragment: string)

  /** Artifact files `config.json`, `report.json` and `targets/<fragment>.json`. */
  datatype File = ConfigJson | ReportJson | TargetJson(fragment: string)

  datatype Report = Report(outcomes: seq<string>)

  datatype Content = ConfigFile(config: Config) | ReportFile(report: Report) | OutcomeFile(outcome: string)

  /** Input hashes, as what they are injective in. */
  datatype Hash =
    | ConfigHash(config: Config)
    | ReportHash(report: Report)
    | TargetHash(target: Target, fingerprint: Config)

  datatype Step = Step(order: int, kind: string, hash: Hash, status: Status) {
    predicate For(order: int, kind: string, hash: Hash) {
      this.order == order && this.kind == kind && this.hash == hash
    }
  }

  datatype RunStatus = RunRunning | RunCompleted

  const REPORT_ORDER := 0x7fff_ffff_ffff_ffff

  // ---- the store operations, on tables ----

  /** At most the step `id` differs. */
  ghost predicate OnlyStep(id: StepId, s: map<StepId, Step>, s': map<StepId, Step>) {
    forall x :: x != id ==> (x in s <==> x in s') && (x in s ==> s[x] == s'[x])
  }

  /** `begin_step` and `finish_step`: set the status of a known step. */
  function WithStatus(steps: map<StepId, Step>, id: StepId, status: Status): map<StepId, Step>
    requires id in steps
  {
    steps[id := steps[id].(status := status)]
  }

  function AsciiLower(c: char): char {
    if 'A' <= c <= 'Z' then (c as int + 32) as char else c
  }

  function SanitizeChar(c: char): char {
    var l := AsciiLower(c);
    if 'a' <= l <= 'z' || '0' <= l <= '9' || l == '_' || l == '-' then l else '-'
  }

  /** `sanitize_id`. */
  function SanitizeId(s: string): string {
    seq(if |s| < 64 then |s| else 64, i requires 0 <= i < |s| => SanitizeChar(s[i]))
  }

  function Fragment(t: Target): string {
    SanitizeId(t.id)
  }

  // ---- what a run owes ----

  type Oracle = (Target, Config, nat) -> Option<string>

  /** Some call of the pipeline on this target under this configuration produced the outcome. */
  ghost predicate Produced(process: Oracle, t: Target, config: Config, outcome: string) {
    exists n :: process(t, config, n) == Some(outcome)
  }

  ghost predicate Fulfils(process: Oracle, ranked: seq<Target>, config: Config, outcomes: seq<string>) {
    |outcomes| == |ranked| && forall i :: 0 <= i < |ranked| ==> Produced(process, ranked[i], config, outcomes[i])
  }

  /** The pipeline always produces something for these targets. */
  ghost predicate Total(process: Oracle, ranked: seq<Target>, config: Config) {
    forall t, n :: t in ranked ==> process(t, config, n).Some?
  }

  /** A finished target step never lies about its artifact. */
  ghost predicate Sound(process: Oracle, steps: map<StepId, Step>, files: map<File, Content>) {
    forall f :: TargetStep(f) in steps ==> SoundAt(process, steps[TargetStep(f)], f, files)
  }

  ghost predicate SoundAt(process: Oracle, step: Step, f: string, files: map<File, Content>) {
    && step.hash.TargetHash?
    && (step.status.Done() && TargetJson(f) in files ==>
        && files[TargetJson(f)].OutcomeFile?
        && Produced(process, step.hash.target, step.hash.fingerprint, files[TargetJson(f)].outcome))
  }

  /** The files of the run itself, as opposed to those of its targets. */
  function Others(files: map<File, Content>): map<File, Content> {
    map f | f in files && !f.TargetJson? :: files[f]
  }

  /** The `i`-th target is finished under `config` and its artifact is there. */
  predicate DoneAt(steps: map<StepId, Step>, files: map<File, Content>, ranked: seq<Target>, config: Config, i: nat)
    requires i < |ranked|
  {
    var id := TargetStep(Fragment(ranked[i]));
    && id in steps && steps[id].order == i && steps[id].kind == "target"
    && steps[id].hash == TargetHash(ranked[i], config)
    && steps[id].status.Done() && TargetJson(Fragment(ranked[i])) in files
  }

  /** How many of the first `n` targets are finished. */
  function DoneCount(steps: map<StepId, Step>, files: map<File, Content>, ranked: seq<Target>, config: Config,
                     n: nat): (r: nat)
    requires n <= |ranked|
    ensures r <= n
  {
    if n == 0 then 0
    else DoneCount(steps, files, ranked, config, n - 1) + (if DoneAt(steps, files, ranked, config, n - 1) then 1 else 0)
  }

  ghost predicate DistinctFragments(ranked: seq<Target>) {
    forall i, j :: 0 <= i < j < |ranked| ==> Fragment(ranked[i]) != Fragment(ranked[j])
  }

  /** Changing the state of one target only changes the count by that target. */
  lemma {:induction false} CountMoves(s: map<StepId, Step>, f: map<File, Content>, s': map<StepId, Step>,
                                      f': map<File, Content>, ranked: seq<Target>, config: Config, n: nat, k: nat)
    requires n <= |ranked| && k < |ranked|
    requires forall i :: 0 <= i < n && i != k ==>
      (DoneAt(s, f, ranked, config, i) <==> DoneAt(s', f', ranked, config, i))
    ensures var d, d' := DoneCount(s, f, ranked, config, n), DoneCount(s', f', ranked, config, n);
            d' == d + (if k < n && DoneAt(s', f', ranked, config, k) then 1 else 0)
                    - (if k < n && DoneAt(s, f, ranked, config, k) then 1 else 0)
  {
    if n == 0 {
    } else {
      CountMoves(s, f, s', f', ranked, config, n - 1, k);
    }
  }

  /** Nothing changed but the step and the file of one fragment. */
  ghost predicate OnlyFragment(x: string, s: map<StepId, Step>, f: map<File, Content>, s': map<StepId, Step>,
                               f': map<File, Content>)
  {
    && (forall id :: id != TargetStep(x) ==> (id in s <==> id in s') && (id in s ==> s[id] == s'[id]))
    && (forall y :: y != TargetJson(x) ==> (y in f <==> y in f') && (y in f ==> f[y] == f'[y]))
  }

  lemma OnlyFragmentSound(process: Oracle, x: string, s: map<StepId, Step>, f: map<File, Content>,
                          s': map<StepId, Step>, f': map<File, Content>)
    requires Sound(process, s, f) && OnlyFragment(x, s, f, s', f')
    requires TargetStep(x) in s' ==> SoundAt(process, s'[TargetStep(x)], x, f')
    ensures Sound(process, s', f')
  {
    forall y | TargetStep(y) in s' ensures SoundAt(process, s'[TargetStep(y)], y, f') {
      if y != x { assert TargetStep(y) in s && SoundAt(process, s[TargetStep(y)], y, f); }
    }
  }

  lemma OtherFiles(x: string, s: map<StepId, Step>, f: map<File, Content>, s': map<StepId, Step>,
                   f': map<File, Content>)
    requires OnlyFragment(x, s, f, s', f')
    ensures Others(f') == Others(f)
  {}

  /** Touching one fragment leaves every other target as it was. */
  lemma OthersKeep(s: map<StepId, Step>, f: map<File, Content>, s': map<StepId, Step>, f': map<File, Content>,
                   ranked: seq<Target>, config: Config, k: nat)
    requires k < |ranked| && DistinctFragments(ranked) && OnlyFragment(Fragment(ranked[k]), s, f, s', f')
    ensures var d, d' := DoneCount(s, f, ranked, config, |ranked|), DoneCount(s', f', ranked, config, |ranked|);
            d' == d + (if DoneAt(s', f', ranked, config, k) then 1 else 0)
                    - (if DoneAt(s, f, ranked, config, k) then 1 else 0)
  {
    forall i | 0 <= i < |ranked| && i != k
      ensures DoneAt(s, f, ranked, config, i) <==> DoneAt(s', f', ranked, config, i)
    {
      assert Fragment(ranked[i]) != Fragment(ranked[k]) by {
        if i < k {
          assert Fragment(ranked[i]) != Fragment(ranked[k]);
        } else {
          assert Fragment(ranked[k]) != Fragment(ranked[i]);
        }
      }
    }
    CountMoves(s, f, s', f', ranked, config, |ranked|, k);
  }

  /** The count depends on target steps and target files only. */
  lemma {:induction false} SameTargets(s: map<StepId, Step>, f: map<File, Content>, s': map<StepId, Step>,
                                       f': map<File, Content>, ranked: seq<Target>, config: Config, n: nat)
    requires n <= |ranked|
    requires forall x ::
      && (TargetStep(x) in s <==> TargetStep(x) in s')
      && (TargetStep(x) in s ==> s[TargetStep(x)] == s'[TargetStep(x)])
    requires forall x :: TargetJson(x) in f <==> TargetJson(x) in f'
    ensures DoneCount(s, f, ranked, config, n) == DoneCount(s', f', ranked, config, n)
  {
    if n == 0 {
    } else {
      SameTargets(s, f, s', f', ranked, config, n - 1);
    }
  }

  /** The steps and files of all targets are the same. */
  ghost predicate SameTargetPart(s: map<StepId, Step>, f: map<File, Content>, s': map<StepId, Step>,
                                 f': map<File, Content>)
  {
    && (forall x ::
      && (TargetStep(x) in s <==> TargetStep(x) in s')
      && (TargetStep(x) in s ==> s[TargetStep(x)] == s'[TargetStep(x)]))
    && (forall x ::
      && (TargetJson(x) in f <==> TargetJson(x) in f')
      && (TargetJson(x) in f ==> f[TargetJson(x)] == f'[TargetJson(x)]))
  }

  /** A step and a file of the run itself may change. */
  lemma PersistElsewhere(s: map<StepId, Step>, f: map<File, Content>, s': map<StepId, Step>, f': map<File, Content>,
                         id: StepId, file: File)
    requires !id.TargetStep? && !file.TargetJson? && OnlyStep(id, s, s')
    requires f' == f || (file in f' && f' == f[file := f'[file]])
    ensures SameTargetPart(s, f, s', f')
  {}

  lemma CountElsewhere(s: map<StepId, Step>, f: map<File, Content>, s': map<StepId, Step>, f': map<File, Content>)
    requires SameTargetPart(s, f, s', f')
    ensures forall ranked, config ::
              DoneCount(s, f, ranked, config, |ranked|) == DoneCount(s', f', ranked, config, |ranked|)
  {
    forall ranked, config
      ensures DoneCount(s, f, ranked, config, |ranked|) == DoneCount(s', f', ranked, config, |ranked|)
    {
      SameTargets(s, f, s', f', ranked, config, |ranked|);
    }
  }

  lemma SoundElsewhere(process: Oracle, s: map<StepId, Step>, f: map<File, Content>, s': map<StepId, Step>,
                       f': map<File, Content>)
    requires Sound(process, s, f) && SameTargetPart(s, f, s', f')
    ensures Sound(process, s', f')
  {
    forall x | TargetStep(x) in s' ensures SoundAt(process, s'[TargetStep(x)], x, f') {
      assert SoundAt(process, s[TargetStep(x)], x, f);
    }
  }

  /** The durable state of one run id, and the passes over it. */
  class RunState {
    const rank: Config -> seq<Target>
    const process: Oracle
    var row: Option<RunStatus>
    var steps: map<StepId, Step>
    var files: map<File, Content>
    var fuel: nat
    var calls: nat
    /** The configuration of the latest pass to mark the run as running, and the report it returned. */
    ghost var current: Option<Config>
    ghost var latest: Option<Report>

    constructor (rank: Config -> seq<Target>, process: Oracle)
      ensures this.rank == rank && this.process == process && Valid()
      ensures row.None? && steps == map[] && files == map[] && calls == 0 && current.None? && latest.None?
    {
      this.rank, this.process := rank, process;
      row, steps, files, fuel, calls, current, latest := None, map[], map[], 0, 0, None, None;
    }

    /** Kept by every operation of every pass. */
    ghost predicate Valid()
      reads this
    {
      && Sound(process, steps, files)
      && (ConfigJson in files ==> files[ConfigJson].ConfigFile?)
      && (ReportJson in files ==> files[ReportJson].ReportFile?)
      && (row == Some(RunCompleted) <==> latest.Some?)
      && (row == Some(RunCompleted) ==>
          && current.Some?
          && Fulfils(process, rank(current.value), current.value, latest.value.outcomes)
          && (ReportJson in files ==> files[ReportJson] == ReportFile(latest.value)))
    }

    /** Finished targets of a configuration. */
    function Finished(config: Config): nat
      reads this
    {
      DoneCount(steps, files, rank(config), config, |rank(config)|)
    }

    /** One more store operation, unless the process is gone. */
    method Spend() returns (ok: bool)
      modifies `fuel
      ensures ok == (old(fuel) > 0)
      ensures fuel == if ok then old(fuel) - 1 else 0
    {
      ok := fuel > 0;
      if ok { fuel := fuel - 1; }
    }

    /** `record_step`: a step that was finished stays so only for the very same order, kind and input hash. */
    method RecordStep(id: StepId, order: int, kind: string, hash: Hash) returns (ok: bool)
      modifies `fuel, `steps
      ensures ok == (old(fuel) > 0) && fuel == (if ok then old(fuel) - 1 else 0)
      ensures !ok ==> steps == old(steps)
      ensures ok ==> id in steps && steps[id].For(order, kind, hash) && OnlyStep(id, old(steps), steps)
      ensures ok && old(id in steps && steps[id].For(order, kind, hash)) ==> steps == old(steps)
      ensures ok && !old(id in steps && steps[id].For(order, kind, hash)) ==> steps[id].status == Pending
      ensures ok && steps[id].status.Done() ==> id in old(steps) && steps[id] == old(steps)[id]
    {
      ok := Spend();
      if ok && !(id in steps && steps[id].For(order, kind, hash)) {
        steps := steps[id := Step(order, kind, hash, Pending)];
      }
    }

    method SetStatus(id: StepId, status: Status) returns (ok: bool)
      requires id in steps
      modifies `fuel, `steps
      ensures ok == (old(fuel) > 0) && fuel == (if ok then old(fuel) - 1 else 0)
      ensures steps == if ok then WithStatus(old(steps), id, status) else old(steps)
    {
      ok := Spend();
      if ok { steps := WithStatus(steps, id, status); }
    }

    /** `publish_artifact`: the file is in place even if its index row is not. */
    method Publish(file: File, content: Content) returns (ok: bool)
      modifies `fuel, `files
      ensures ok == (old(fuel) > 1) && fuel == (if ok then old(fuel) - 2 else 0)
      ensures files == if old(fuel) > 0 then old(files)[file := content] else old(files)
    {
      ok := Spend();
      if ok {
        files := files[file := content];
        ok := Spend();
      }
    }

    /** `record_step` and `begin_step`. */
    method OpenStep(id: StepId, order: int, kind: string, hash: Hash) returns (ok: bool)
      modifies `fuel, `steps
      ensures ok == (old(fuel) >= 2) && fuel == (if ok then old(fuel) - 2 else 0)
      ensures OnlyStep(id, old(steps), steps) && (ok ==> id in steps)
    {
      ok := RecordStep(id, order, kind, hash);
      if ok { ok := SetStatus(id, Running); }
    }

    /** `publish_artifact` and `finish_step`. */
    method CloseStep(id: StepId, file: File, content: Content) returns (ok: bool)
      requires id in steps
      modifies `fuel, `steps, `files
      ensures ok == (old(fuel) >= 3) && fuel == (if ok then old(fuel) - 3 else 0)
      ensures files == if old(fuel) > 0 then old(files)[file := content] else old(files)
      ensures OnlyStep(id, old(steps), steps)
    {
      ok := Publish(file, content);
      if ok { ok := SetStatus(id, Succeeded); }
    }

    /** A step that only wraps the publication of one file: `persist_trusted` and `persist_report`. */
    method PersistStep(id: StepId, order: int, kind: string, hash: Hash, file: File, content: Content)
      returns (ok: bool)
      requires Valid() && !id.TargetStep? && !file.TargetJson? && row != Some(RunCompleted)
      requires content.ConfigFile? <==> file.ConfigJson?
      requires content.ReportFile? <==> file.ReportJson?
      modifies `fuel, `steps, `files
      ensures Valid() && ok == (old(fuel) >= 5) && fuel == (if ok then old(fuel) - 5 else 0)
      ensures files == if old(fuel) >= 3 then old(files)[file := content] else old(files)
      ensures forall config :: Finished(config) == old(Finished(config))
    {
      ghost var s0, f0 := steps, files;
      ok := OpenStep(id, order, kind, hash);
      if ok { ok := CloseStep(id, file, content); }
      PersistElsewhere(s0, f0, steps, files, id, file);
      SoundElsewhere(process, s0, f0, steps, files);
      CountElsewhere(s0, f0, steps, files);
    }

    /** The part of an iteration that calls the pipeline: begin, process, publish, finish. */
    method Attempt(t: Target, config: Config) returns (r: Option<string>)
      requires TargetStep(Fragment(t)) in steps
      requires !steps[TargetStep(Fragment(t))].status.Done() || TargetJson(Fragment(t)) !in files
      modifies `fuel, `steps, `files, `calls
      ensures calls <= old(calls) + 1
      ensures var id, file := TargetStep(Fragment(t)), TargetJson(Fragment(t));
              if r.Some? then
                && Produced(process, t, config, r.value)
                && steps == WithStatus(old(steps), id, Succeeded) && files == old(files)[file := OutcomeFile(r.value)]
              else
                && id in steps && steps == WithStatus(old(steps), id, steps[id].status)
                && (!steps[id].status.Done() || file !in files)
                && (files == old(files) || exists o :: files == old(files)[file := OutcomeFile(o)])
      ensures (forall n :: process(t, config, n).Some?) && old(fuel) >= 4 ==> r.Some? && fuel >= old(fuel) - 4
    {
      var id, file := TargetStep(Fragment(t)), TargetJson(Fragment(t));
      var ok := SetStatus(id, Running);
      if !ok {
        assert steps == WithStatus(steps, id, steps[id].status);
        return None;
      }
      var outcome := process(t, config, calls);
      calls := calls + 1;
      if outcome.None? {
        ok := SetStatus(id, Failed);
        return None;
      }
      ok := Publish(file, OutcomeFile(outcome.value));
      if !ok { return None; }
      ok := SetStatus(id, Succeeded);
      if !ok { return None; }
      return outcome;
    }

    /** One iteration of the loop of `drive_targets`. */
    method DriveOne(ranked: seq<Target>, i: nat, config: Config) returns (r: Option<string>)
      requires Valid() && row != Some(RunCompleted) && i < |ranked|
      modifies `fuel, `steps, `files, `calls
      ensures Valid()
      ensures r.Some? ==> Produced(process, ranked[i], config, r.value)
      ensures (forall n :: process(ranked[i], config, n).Some?) && old(fuel) >= 5 ==> r.Some? && fuel >= old(fuel) - 5
      ensures OnlyFragment(Fragment(ranked[i]), old(steps), old(files), steps, files)
      ensures calls - old(calls) <= (if DoneAt(steps, files, ranked, config, i) then 1 else 0)
                                    - (if old(DoneAt(steps, files, ranked, config, i)) then 1 else 0)
                                    + (if r.Some? then 0 else 1)
    {
      var f := Fragment(ranked[i]);
      var id := TargetStep(f);
      var ok := RecordStep(id, i, "target", TargetHash(ranked[i], config));
      if !ok { return None; }
      if steps[id].status.Done() && TargetJson(f) in files {
        assert SoundAt(process, steps[id], f, files);
        r := Some(files[TargetJson(f)].outcome);
      } else {
        // new or changed inputs, an interrupted or failed step, or a finished one whose artifact is gone
        r := Attempt(ranked[i], config);
      }
      OnlyFragmentSound(process, f, old(steps), old(files), steps, files);
    }

    /** `drive_targets`. */
    method DriveTargets(ranked: seq<Target>, config: Config) returns (r: Option<seq<string>>)
      requires Valid() && row != Some(RunCompleted)
      modifies `fuel, `steps, `files, `calls
      ensures Valid()
      ensures r.Some? ==> Fulfils(process, ranked, config, r.value)
      ensures Total(process, ranked, config) && old(fuel) >= 5 * |ranked| ==>
                r.Some? && fuel >= old(fuel) - 5 * |ranked|
      ensures Others(files) == old(Others(files))
      ensures DistinctFragments(ranked) ==>
                calls - old(calls) <= DoneCount(steps, files, ranked, config, |ranked|)
                                      - old(DoneCount(steps, files, ranked, config, |ranked|))
                                      + (if r.Some? then 0 else 1)
    {
      var outcomes: seq<string> := [];
      for i := 0 to |ranked|
        invariant Valid() && |outcomes| == i
        invariant forall j :: 0 <= j < i ==> Produced(process, ranked[j], config, outcomes[j])
        invariant Total(process, ranked, config) && old(fuel) >= 5 * |ranked| ==> fuel >= old(fuel) - 5 * i
        invariant Others(files) == old(Others(files))
        invariant DistinctFragments(ranked) ==>
                    calls - old(calls) <= DoneCount(steps, files, ranked, config, |ranked|)
                                          - old(DoneCount(steps, files, ranked, config, |ranked|))
      {
        assert ranked[i] in ranked;
        ghost var s, f := steps, files;
        var one := DriveOne(ranked, i, config);
        OtherFiles(Fragment(ranked[i]), s, f, steps, files);
        if DistinctFragments(ranked) { OthersKeep(s, f, steps, files, ranked, config, i); }
        if one.None? { return None; }
        outcomes := outcomes + [one.value];
      }
      r := Some(outcomes);
    }

    /** `set_run_status(.., "running")`: the point where a pass starts. */
    method Start(config: Config) returns (ok: bool)
      requires Valid()
      modifies `fuel, `row, `current, `latest
      ensures Valid() && ok == (old(fuel) > 0) && fuel == (if ok then old(fuel) - 1 else 0)
      ensures if ok then row == Some(RunRunning) && current == Some(config) && latest.None?
              else row == old(row) && current == old(current) && latest == old(latest)
    {
      ok := Spend();
      if ok { row, current, latest := Some(RunRunning), Some(config), None; }
    }

    /** `drive_run` and the final `set_run_status(.., "completed")`. */
    method Drive(config: Config) returns (r: Option<Report>)
      requires Valid() && row == Some(RunRunning) && current == Some(config)
      modifies `fuel, `row, `latest, `steps, `files, `calls
      ensures Valid() && latest == r
      ensures row == Some(if r.Some? then RunCompleted else RunRunning)
      ensures r.Some? ==> ReportJson in files
      ensures ConfigJson in files <==> ConfigJson in old(files)
      ensures ConfigJson in files ==> files[ConfigJson] == old(files)[ConfigJson]
      ensures Total(process, rank(config), config) && old(fuel) >= 6 + 5 * |rank(config)| ==> r.Some?
      ensures DistinctFragments(rank(config)) ==>
                calls - old(calls) <= Finished(config) - old(Finished(config)) + (if r.Some? then 0 else 1)
    {
      var outcomes := DriveTargets(rank(config), config);
      assert ConfigJson in files <==> ConfigJson in Others(files);
      if outcomes.None? { return None; }
      var report := Report(outcomes.value);
      ghost var finished := Finished(config);
      var ok := PersistStep(ReportStep, REPORT_ORDER, "report", ReportHash(report), ReportJson, ReportFile(report));
      assert Finished(config) == finished;
      if !ok { return None; }
      ok := Spend();
      if !ok { return None; }
      row, latest := Some(RunCompleted), Some(report);
      return Some(report);
    }

    /** `run_jit_generation_inner` on a store that survives `ops` operations. */
    method Run(config: Config, ops: nat) returns (r: Option<Report>)
      requires Valid()
      modifies this
      ensures Valid()
      ensures row.Some? <==> old(row).Some? || ops >= 1
      ensures current == if ops >= 2 then Some(config) else old(current)
      ensures latest == if ops >= 2 then r else old(latest)
      ensures Stored() == if ops >= 5 then Some(config) else old(Stored())
      ensures r.Some? ==> ops >= 2 && ReportJson in files
      ensures ops < 2 ==> files == old(files) && steps == old(steps) && calls == old(calls)
      ensures Total(process, rank(config), config) && ops >= 13 + 5 * |rank(config)| ==> r.Some?
      ensures DistinctFragments(rank(config)) ==>
                calls - old(calls) <= Finished(config) - old(Finished(config)) + (if r.Some? then 0 else 1)
    {
      fuel := ops;
      var ok := Spend();
      if !ok { return None; }
      if row.None? { row := Some(RunRunning); }
      ok := Start(config);
      if !ok { return None; }
      ghost var finished := Finished(config);
      ok := PersistStep(Setup, -1, "setup", ConfigHash(config), ConfigJson, ConfigFile(config));
      assert Finished(config) == finished;
      if !ok { return None; }
      r := Drive(config);
    }

    /** What `load_trusted` reads. */
    function Stored(): Option<Config>
      requires Valid()
      reads this
    {
      if ConfigJson in files then Some(files[ConfigJson].config) else None
    }

    /** `resume_run`. */
    method Resume(ops: nat) returns (r: Option<Report>)
      requires Valid()
      modifies this
      ensures Valid()
      ensures row.Some? <==> old(row).Some?
      ensures Stored() == old(Stored())
      ensures var starts := old(row).Some? && old(Stored()).Some? && ops >= 1;
              && current == (if starts then old(Stored()) else old(current))
              && latest == (if starts then r else old(latest))
              && (r.Some? ==> starts && ReportJson in files)
              && (!starts ==> files == old(files) && steps == old(steps) && calls == old(calls))
      ensures old(row).Some? && old(Stored()).Some? ==>
                var config := old(Stored()).value;
                Total(process, rank(config), config) && ops >= 7 + 5 * |rank(config)| ==> r.Some?
      ensures old(Stored()).Some? && DistinctFragments(rank(old(Stored()).value)) ==>
                var config := old(Stored()).value;
                calls - old(calls) <= Finished(config) - old(Finished(config)) + (if r.Some? then 0 else 1)
    {
      if row.None? || ConfigJson !in files { return None; }
      var config := files[ConfigJson].config;
      fuel := ops;
      var ok := Start(config);
      if !ok { return None; }
      r := Drive(config);
    }

    /** `load_report`. */
    method LoadReport() returns (r: Option<Report>)
      requires Valid()
      ensures r == if row == Some(RunCompleted) && ReportJson in files then latest else None
      ensures unchanged(this)
    {
      if row != Some(RunCompleted) || ReportJson !in files { return None; }
      return Some(files[ReportJson].report);
    }

    /** A file of the run directory disappears from outside. */
    method Lose(file: File)
      requires Valid()
      modifies `files
      ensures Valid() && files == old(files) - {file}
      ensures forall config :: DistinctFragments(rank(config)) ==>
                Finished(config) >= old(Finished(config)) - (if file.TargetJson? then 1 else 0)
    {
      files := files - {file};
      forall config | DistinctFragments(rank(config))
        ensures Finished(config) >= old(Finished(config)) - (if file.TargetJson? then 1 else 0)
      {
        LoseOne(steps, old(files), file, rank(config), config);
      }
    }
  }

  lemma LoseOne(s: map<StepId, Step>, f: map<File, Content>, file: File, ranked: seq<Target>, config: Config)
    requires DistinctFragments(ranked)
    ensures DoneCount(s, f - {file}, ranked, config, |ranked|) >=
      DoneCount(s, f, ranked, config, |ranked|) - (if file.TargetJson? then 1 else 0)
  {
    if k :| 0 <= k < |ranked| && file == TargetJson(Fragment(ranked[k])) {
      OthersKeep(s, f, s, f - {file}, ranked, config, k);
    } else {
      LoseNone(s, f, file, ranked, config, |ranked|);
    }
  }

  lemma {:induction false} LoseNone(s: map<StepId, Step>, f: map<File, Content>, file: File, ranked: seq<Target>,
                                    config: Config, n: nat)
    requires n <= |ranked| && forall k :: 0 <= k < |ranked| ==> file != TargetJson(Fragment(ranked[k]))
    ensures DoneCount(s, f - {file}, ranked, config, n) == DoneCount(s, f, ranked, config, n)
  {
    if n == 0 {
    } else {
      LoseNone(s, f, file, ranked, config, n - 1);
    }
  }

  // ---- any history of passes ----

  /** A pass that dies after `ops` store operations (or has enough), or a file lost between passes. */
  datatype Event = RunPass(config: Config, ops: nat) | ResumePass(ops: nat) | LoseFile(file: File)

  /** The configuration a resume would read after these events. */
  function StoredAfter(events: seq<Event>): Option<Config> {
    if events == [] then None
    else
      var before := StoredAfter(events[..|events| - 1]);
      match events[|events| - 1]
      case RunPass(config, ops) => if ops >= 5 then Some(config) else before
      case ResumePass(_) => before
      case LoseFile(file) => if file == ConfigJson then None else before
  }

  predicate RowAfter(events: seq<Event>) {
    exists i :: 0 <= i < |events| && events[i].RunPass? && events[i].ops >= 1
  }

  /** The configuration under which event `k` starts a pass, if it starts one. */
  function StartedAt(events: seq<Event>, k: nat): Option<Config>
    requires k < |events|
  {
    match events[k]
    case RunPass(config, ops) => if ops >= 2 then Some(config) else None
    case ResumePass(ops) => if RowAfter(events[..k]) && ops >= 1 then StoredAfter(events[..k]) else None
    case LoseFile(_) => None
  }

  /** The latest event to start a pass. */
  function LatestStart(events: seq<Event>, n: nat): (r: Option<nat>)
    requires n <= |events|
    ensures r.Some? ==> r.value < n && StartedAt(events, r.value).Some?
  {
    if n == 0 then None
    else if StartedAt(events, n - 1).Some? then Some(n - 1)
    else LatestStart(events, n - 1)
  }

  /** Event `k` costs a call: a pass that started and failed, or the loss of a target's file. */
  predicate Setback(events: seq<Event>, k: nat, result: Option<Report>)
    requires k < |events|
  {
    (StartedAt(events, k).Some? && result.None?) || (events[k].LoseFile? && events[k].file.TargetJson?)
  }

  /** The started passes that failed and the target files that were lost, among the first `n` events. */
  function Setbacks(events: seq<Event>, results: seq<Option<Report>>, n: nat): nat
    requires n <= |events| && n <= |results|
  {
    if n == 0 then 0
    else Setbacks(events, results, n - 1) + (if Setback(events, n - 1, results[n - 1]) then 1 else 0)
  }

  lemma {:induction false} SetbacksKeep(events: seq<Event>, results: seq<Option<Report>>, r: Option<Report>, n: nat)
    requires n <= |events| && n <= |results|
    ensures Setbacks(events, results + [r], n) == Setbacks(events, results, n)
  {
    if n == 0 {
    } else {
      SetbacksKeep(events, results, r, n - 1);
    }
  }

  predicate ReportLost(events: seq<Event>, from: nat, n: nat)
    requires n <= |events|
  {
    exists i :: from < i < n && events[i] == LoseFile(ReportJson)
  }

  /** Enough operations for a pass over `n` targets. */
  predicate Enough(e: Event, n: nat) {
    (e.RunPass? && e.ops >= 13 + 5 * n) || (e.ResumePass? && e.ops >= 7 + 5 * n)
  }

  /** A stored configuration was stored by some run. */
  lemma {:induction false} StoredComesFromRun(events: seq<Event>)
    requires StoredAfter(events).Some?
    ensures exists e :: e in events && e.RunPass? && StoredAfter(events) == Some(e.config)
  {
    var last := events[|events| - 1];
    if StoredAfter(events) == StoredAfter(events[..|events| - 1]) {
      StoredComesFromRun(events[..|events| - 1]);
      var e :| e in events[..|events| - 1] && e.RunPass? && StoredAfter(events) == Some(e.config);
      assert e in events;
    } else {
      assert last in events;
    }
  }

  ghost predicate OnlyRuns(events: seq<Event>, config: Config) {
    forall e :: e in events && e.RunPass? ==> e.config == config
  }

  /** What `load_report` should answer after the first `n` events, given what the passes returned. */
  function Loadable(events: seq<Event>, results: seq<Option<Report>>, n: nat): Option<Report>
    requires n <= |events| && n <= |results|
  {
    var k := LatestStart(events, n);
    if k.None? || ReportLost(events, k.value, n) then None else results[k.value]
  }

  lemma RowStep(before: seq<Event>, e: Event)
    ensures RowAfter(before + [e]) <==> RowAfter(before) || (e.RunPass? && e.ops >= 1)
  {
    var after := before + [e];
    if i :| 0 <= i < |before| && before[i].RunPass? && before[i].ops >= 1 { assert after[i] == before[i]; }
    if e.RunPass? && e.ops >= 1 { assert after[|before|] == e; }
    if i :| 0 <= i < |after| && after[i].RunPass? && after[i].ops >= 1 {
      assert i < |before| ==> after[i] == before[i];
    }
  }

  lemma RunsOnly(before: seq<Event>, e: Event, config: Config)
    requires OnlyRuns(before + [e], config)
    ensures OnlyRuns(before, config) && (e.RunPass? ==> e.config == config)
    ensures StoredAfter(before).Some? ==> StoredAfter(before) == Some(config)
  {
    assert e in before + [e];
    assert forall x :: x in before ==> x in before + [e];
    if StoredAfter(before).Some? { StoredComesFromRun(before); }
  }

  /** One event of a history, on the durable state it finds. */
  method Play(s: RunState, before: seq<Event>, e: Event) returns (r: Option<Report>)
    requires s.Valid() && (s.row.Some? <==> RowAfter(before)) && s.Stored() == StoredAfter(before)
    modifies s
    ensures s.Valid() && (s.row.Some? <==> RowAfter(before + [e])) && s.Stored() == StoredAfter(before + [e])
    ensures var started := StartedAt(before + [e], |before|);
            && s.latest == (if started.Some? then r else old(s.latest))
            && (r.Some? ==> && started.Some? && ReportJson in s.files
                            && Fulfils(s.process, s.rank(started.value), started.value, r.value.outcomes))
            && (started.None? ==> s.files == (if e.LoseFile? then old(s.files) - {e.file} else old(s.files)))
            && (started.Some? ==>
                  var ranked := s.rank(started.value);
                  Total(s.process, ranked, started.value) && Enough(e, |ranked|) ==> r.Some?)
    ensures forall config :: DistinctFragments(s.rank(config)) && OnlyRuns(before + [e], config) ==>
              s.calls - old(s.calls) <= s.Finished(config) - old(s.Finished(config))
                                        + (if Setback(before + [e], |before|, r) then 1 else 0)
  {
    assert (before + [e])[..|before|] == before && (before + [e])[|before|] == e;
    RowStep(before, e);
    forall config | OnlyRuns(before + [e], config)
      ensures (e.RunPass? ==> e.config == config) && (StoredAfter(before).Some? ==> StoredAfter(before) == Some(config))
    {
      RunsOnly(before, e, config);
    }
    match e {
      case RunPass(config, ops) => r := s.Run(config, ops);
      case ResumePass(ops) => r := s.Resume(ops);
      case LoseFile(file) => s.Lose(file); r := None;
    }
  }

  /** What holds of the state and the results after the first `j` events. */
  ghost predicate Tracked(rank: Config -> seq<Target>, process: Oracle, events: seq<Event>, j: nat,
                          results: seq<Option<Report>>, latest: Option<Report>, files: map<File, Content>)
    requires j <= |events|
  {
    && |results| == j
    && (forall k :: 0 <= k < j ==> Honest(rank, process, events, k, results[k]))
    && (var k := LatestStart(events, j);
        && latest == (if k.None? then None else results[k.value])
        && (latest.Some? ==> (ReportJson in files <==> !ReportLost(events, k.value, j))))
  }

  /** The result of event `k`: nothing wrong if it succeeded, and success if nothing got in the way. */
  ghost predicate Honest(rank: Config -> seq<Target>, process: Oracle, events: seq<Event>, k: nat,
                         result: Option<Report>)
    requires k < |events|
  {
    var config := StartedAt(events, k);
    && (result.Some? ==> config.Some? && Fulfils(process, rank(config.value), config.value, result.value.outcomes))
    && (config.Some? && Total(process, rank(config.value), config.value) && Enough(events[k], |rank(config.value)|) ==>
      result.Some?)
  }

  lemma TrackOn(rank: Config -> seq<Target>, process: Oracle, events: seq<Event>, j: nat, results: seq<Option<Report>>,
                r: Option<Report>,
                latest: Option<Report>, files: map<File, Content>, latest': Option<Report>, files': map<File, Content>)
    requires j < |events| && Tracked(rank, process, events, j, results, latest, files)
    requires Honest(rank, process, events, j, r)
    requires latest' == if StartedAt(events, j).Some? then r else latest
    requires r.Some? ==> StartedAt(events, j).Some? && ReportJson in files'
    requires StartedAt(events, j).None? ==> files' == if events[j].LoseFile? then files - {events[j].file} else files
    ensures Tracked(rank, process, events, j + 1, results + [r], latest', files')
  {
    var k := LatestStart(events, j);
    if StartedAt(events, j).None? && k.Some? {
      assert ReportLost(events, k.value, j + 1) <==>
        ReportLost(events, k.value, j) || events[j] == LoseFile(ReportJson) by {
        if events[j] == LoseFile(ReportJson) { assert k.value < j < j + 1; }
      }
    }
  }

  /** Under the only configuration of a history: no more calls than finished targets and setbacks so far. */
  ghost predicate CallsBounded(s: RunState, events: seq<Event>, j: nat, results: seq<Option<Report>>)
    requires s.Valid() && j <= |events| && j <= |results|
    reads s
  {
    forall config :: DistinctFragments(s.rank(config)) && OnlyRuns(events, config) ==>
      s.calls <= s.Finished(config) + Setbacks(events, results, j)
  }

  lemma OnlyRunsEarlier(events: seq<Event>, j: nat, config: Config)
    requires j <= |events| && OnlyRuns(events, config)
    ensures OnlyRuns(events[..j], config)
  {}

  /** The pipeline answers the same on every call. */
  ghost predicate CallFree(process: Oracle) {
    forall t, c, n, m :: process(t, c, n) == process(t, c, m)
  }

  /** Each outcome is what the pipeline makes of its target on a first call. */
  ghost predicate Undisturbed(process: Oracle, ranked: seq<Target>, config: Config, outcomes: seq<string>) {
    |outcomes| == |ranked| && forall i :: 0 <= i < |ranked| ==> process(ranked[i], config, 0) == Some(outcomes[i])
  }

  lemma FulfilsUndisturbed(process: Oracle, ranked: seq<Target>, config: Config, outcomes: seq<string>)
    requires CallFree(process) && Fulfils(process, ranked, config, outcomes)
    ensures Undisturbed(process, ranked, config, outcomes) && Total(process, ranked, config)
  {
    forall i | 0 <= i < |ranked| ensures process(ranked[i], config, 0) == Some(outcomes[i]) {
      var n :| process(ranked[i], config, n) == Some(outcomes[i]);
    }
    forall t, n: nat | t in ranked ensures process(t, config, n).Some? {
      var i :| 0 <= i < |ranked| && ranked[i] == t;
      assert process(t, config, n) == process(t, config, 0);
    }
  }

  lemma AllUndisturbed(rank: Config -> seq<Target>, process: Oracle, events: seq<Event>, results: seq<Option<Report>>)
    requires |results| == |events| && forall k :: 0 <= k < |events| ==> Honest(rank, process, events, k, results[k])
    requires CallFree(process)
    ensures forall k :: 0 <= k < |events| && results[k].Some? ==>
      UndisturbedAt(rank, process, events, k, results[k].value)
  {
    forall k | 0 <= k < |events| && results[k].Some? ensures UndisturbedAt(rank, process, events, k, results[k].value) {
      var config := StartedAt(events, k).value;
      FulfilsUndisturbed(process, rank(config), config, results[k].value.outcomes);
    }
  }

  /** The report of event `k` is the one a pass without any crash would give under the same configuration. */
  ghost predicate UndisturbedAt(rank: Config -> seq<Target>, process: Oracle, events: seq<Event>, k: nat,
                                report: Report)
    requires k < |events|
  {
    var config := StartedAt(events, k);
    config.Some? && Undisturbed(process, rank(config.value), config.value, report.outcomes)
  }

  /** EVERY HISTORY: passes under any configurations, dying anywhere, resumed or not, with files lost in between. */
  method History(rank: Config -> seq<Target>, process: Oracle, events: seq<Event>)
    returns (s: RunState, results: seq<Option<Report>>, loaded: Option<Report>)
    ensures fresh(s) && s.Valid() && |results| == |events|
    ensures forall k :: 0 <= k < |events| ==> Honest(rank, process, events, k, results[k])
    ensures CallFree(process) ==>
              forall k :: 0 <= k < |events| && results[k].Some? ==>
                UndisturbedAt(rank, process, events, k, results[k].value)
    ensures loaded == Loadable(events, results, |events|)
    ensures forall config :: DistinctFragments(rank(config)) && OnlyRuns(events, config) ==>
              s.calls <= |rank(config)| + Setbacks(events, results, |events|)
  {
    s := new RunState(rank, process);
    results := [];
    NothingYet(rank, process, events, s.files);
    for j := 0 to |events|
      invariant fresh(s) && s.rank == rank && s.process == process && s.Valid() && Upto(s, events, j, results)
    {
      var r := Advance(s, events, j, results);
      results := results + [r];
    }
    assert events[..|events|] == events;
    LoadableNow(rank, process, events, results, s.latest, s.files);
    loaded := s.LoadReport();
    if CallFree(process) { AllUndisturbed(rank, process, events, results); }
  }

  /** Everything known after the first `j` events. */
  ghost predicate Upto(s: RunState, events: seq<Event>, j: nat, results: seq<Option<Report>>)
    requires j <= |events| && s.Valid()
    reads s
  {
    && (s.row.Some? <==> RowAfter(events[..j])) && s.Stored() == StoredAfter(events[..j])
    && Tracked(s.rank, s.process, events, j, results, s.latest, s.files)
    && CallsBounded(s, events, j, results)
  }

  lemma NothingYet(rank: Config -> seq<Target>, process: Oracle, events: seq<Event>, files: map<File, Content>)
    ensures Tracked(rank, process, events, 0, [], None, files)
    ensures events[..0] == [] && !RowAfter([]) && StoredAfter([]) == None
  {}

  lemma LoadableNow(rank: Config -> seq<Target>, process: Oracle, events: seq<Event>, results: seq<Option<Report>>,
                    latest: Option<Report>, files: map<File, Content>)
    requires Tracked(rank, process, events, |events|, results, latest, files)
    ensures (if latest.Some? && ReportJson in files then latest else None) == Loadable(events, results, |events|)
  {}

  method Advance(s: RunState, events: seq<Event>, j: nat, ghost results: seq<Option<Report>>)
    returns (r: Option<Report>)
    requires j < |events| && s.Valid() && Upto(s, events, j, results)
    modifies s
    ensures s.Valid() && Upto(s, events, j + 1, results + [r])
  {
    assert events[..j] + [events[j]] == events[..j + 1];
    assert StartedAt(events[..j + 1], j) == StartedAt(events, j) by { assert events[..j + 1][..j] == events[..j]; }
    ghost var latest, files := s.latest, s.files;
    r := Play(s, events[..j], events[j]);
    TrackOn(s.rank, s.process, events, j, results, r, latest, files, s.latest, s.files);
    SetbacksKeep(events, results, r, j);
    assert Setback(events[..j + 1], j, r) <==> Setback(events, j, r);
    forall config | DistinctFragments(s.rank(config)) && OnlyRuns(events, config)
      ensures s.calls <= s.Finished(config) + Setbacks(events, results + [r], j + 1)
    {
      OnlyRunsEarlier(events, j + 1, config);
    }
  }

  /**
   Crashes leave no trace: whatever history led to it, a report that a pass returns is the one that a single
   pass with enough operations, on a store without any past, returns under the same configuration.
   */
  lemma CrashesLeaveNoTrace(rank: Config -> seq<Target>, process: Oracle, events: seq<Event>, k: nat, report: Report,
                            ops: nat, alone: Option<Report>)
    requires CallFree(process) && k < |events| && Honest(rank, process, events, k, Some(report))
    requires ops >= 13 + 5 * |rank(StartedAt(events, k).value)|
    requires Honest(rank, process, [RunPass(StartedAt(events, k).value, ops)], 0, alone)
    ensures alone == Some(report)
  {
    var config := StartedAt(events, k).value;
    var single := [RunPass(config, ops)];
    FulfilsUndisturbed(process, rank(config), config, report.outcomes);
    assert StartedAt(single, 0) == Some(config) && Enough(single[0], |rank(config)|);
    FulfilsUndisturbed(process, rank(config), config, alone.value.outcomes);
    forall i | 0 <= i < |rank(config)| ensures report.outcomes[i] == alone.value.outcomes[i] {
      assert process(rank(config)[i], config, 0) == Some(report.outcomes[i]);
    }
    assert report.outcomes == alone.value.outcomes;
  }

  /** The targets of a run: each one of the renumbered targets, no number twice. */
  ghost predicate Numbered(ranked: seq<Target>, picks: seq<nat>) {
    && |picks| == |ranked|
    && (forall i :: 0 <= i < |ranked| ==> picks[i] < USIZE_LIMIT && ranked[i].id == "t" + Show(picks[i]))
    && (forall i, j :: 0 <= i < j < |ranked| ==> picks[i] != picks[j])
  }

  /** Targets picked from a renumbered list have steps and files of their own. */
  lemma NumberedFragments(ranked: seq<Target>, picks: seq<nat>)
    requires Numbered(ranked, picks)
    ensures DistinctFragments(ranked)
  {
    forall i, j | 0 <= i < j < |ranked| ensures Fragment(ranked[i]) != Fragment(ranked[j]) {
      RenumberedFragment(picks[i]);
      RenumberedFragment(picks[j]);
      NumbersDiffer(picks[i], picks[j]);
    }
  }

  lemma NumbersDiffer(m: nat, n: nat)
    requires m != n
    ensures "t" + Show(m) != "t" + Show(n)
  {
    if Show(m) == Show(n) { ShowInjective(m, n); }
    assert ("t" + Show(m))[1..] == Show(m) && ("t" + Show(n))[1..] == Show(n);
  }

  /** The ids given by renumbering pass through `sanitize_id` unchanged. */
  lemma RenumberedFragment(k: nat)
    requires k < USIZE_LIMIT
    ensures SanitizeId("t" + Show(k)) == "t" + Show(k)
  {
    UsizeLength(k);
    var s := "t" + Show(k);
    forall i | 0 <= i < |s| ensures SanitizeChar(s[i]) == s[i] {
      if i > 0 { assert s[i] == Show(k)[i - 1] && s[i] in Show(k); }
    }
  }
}
