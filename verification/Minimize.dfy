/** Greedy line-by-line test minimisation under a probe budget (`minimize.rs`). */
module Minimize {
  import opened Wrappers
  import opened Text
  import opened Sequences

  datatype Candidate = Candidate(target: string, relPath: string, source: string, testName: Option<string>,
    attempt: nat)

  /** A predicate on its `n`-th evaluation; `None` is an error. */
  type Probe<!X> = (X, nat) -> Option<bool>

  type Answers = seq<Option<bool>>

  /** `with_source` on re-joined lines. */
  function Reduced(c: Candidate, lines: seq<string>): Candidate {
    c.(source := Join(lines, '\n'))
  }

  /** The caller's predicate, seen as a question about lines. */
  function OnLines(c: Candidate, interesting: Probe<Candidate>): Probe<seq<string>> {
    (lines: seq<string>, n: nat) => interesting(Reduced(c, lines), n)
  }

  lemma OnLinesDeterministic(c: Candidate, interesting: Probe<Candidate>)
    requires Deterministic(interesting)
    ensures Deterministic(OnLines(c, interesting))
  {
    forall lines, m, n ensures OnLines(c, interesting)(lines, m) == OnLines(c, interesting)(lines, n) {
      assert interesting(Reduced(c, lines), m) == interesting(Reduced(c, lines), n);
    }
  }

  /** 1 + 2 + ... + n. */
  function Triangle(n: nat): (r: nat)
    ensures 2 * r == n * (n + 1) && r >= n
  {
    if n == 0 then 0 else n + Triangle(n - 1)
  }

  lemma {:induction false} TriangleGrows(m: nat, n: nat)
    requires m <= n
    ensures Triangle(m) <= Triangle(n)
  {
    if m == n {
    } else {
      TriangleGrows(m, n - 1);
    }
  }

  function Trues(answers: Answers): nat {
    if answers == [] then 0
    else Trues(answers[..|answers| - 1]) + (if answers[|answers| - 1] == Some(true) then 1 else 0)
  }

  lemma TruesAppend(answers: Answers, a: Option<bool>)
    ensures Trues(answers + [a]) == Trues(answers) + (if a == Some(true) then 1 else 0)
  {
    assert (answers + [a])[..|answers|] == answers;
  }

  /** Answer `last` is the latest `true`, and it was given for exactly these lines. */
  ghost predicate LastTrue<T>(probe: Probe<seq<T>>, lines: seq<T>, answers: Answers, last: nat) {
    && last < |answers| && probe(lines, last) == answers[last] == Some(true)
    && Some(true) !in answers[last + 1..]
  }

  /** What holds of the lines kept after these answers; `last` is the latest `true`. */
  ghost predicate Progress<T>(probe: Probe<seq<T>>, all: seq<T>, lines: seq<T>, answers: Answers, last: nat) {
    && Subsequence(lines, all) && |lines| + Trues(answers) == |all| && None !in answers
    && (if Some(true) in answers then LastTrue(probe, lines, answers, last) else lines == all)
  }

  lemma Kept<T>(probe: Probe<seq<T>>, all: seq<T>, lines: seq<T>, answers: Answers, last: nat)
    requires Progress(probe, all, lines, answers, last)
    ensures Progress(probe, all, lines, answers + [Some(false)], last)
  {
    TruesAppend(answers, Some(false));
    var more := answers + [Some(false)];
    if Some(true) in answers { assert more[last + 1..] == answers[last + 1..] + [Some(false)]; }
  }

  lemma Dropped<T>(probe: Probe<seq<T>>, all: seq<T>, lines: seq<T>, answers: Answers, last: nat, i: nat)
    requires Progress(probe, all, lines, answers, last) && i < |lines|
    requires probe(Without(lines, i), |answers|) == Some(true)
    ensures Progress(probe, all, Without(lines, i), answers + [Some(true)], |answers|)
  {
    TruesAppend(answers, Some(true));
    DropKeepsSubsequence(lines, all, i);
    assert (answers + [Some(true)])[|answers|] == Some(true);
  }

  ghost predicate Deterministic<X(!new)>(probe: Probe<X>) {
    forall x, m, n :: probe(x, m) == probe(x, n)
  }

  /** The first `i` single-line drops are uninteresting, whenever asked. */
  ghost predicate Refused<T>(probe: Probe<seq<T>>, lines: seq<T>, i: nat)
    requires i <= |lines|
  {
    forall j, n :: 0 <= j < i ==> probe(Without(lines, j), n) == Some(false)
  }

  ghost predicate OneMinimal<T>(probe: Probe<seq<T>>, lines: seq<T>) {
    Refused(probe, lines, |lines|)
  }

  lemma OneMoreRefused<T(!new)>(probe: Probe<seq<T>>, lines: seq<T>, i: nat, n: nat)
    requires i < |lines| && Deterministic(probe) && Refused(probe, lines, i)
      && probe(Without(lines, i), n) == Some(false)
    ensures Refused(probe, lines, i + 1)
  {}

  /** Of a prefix of `all`, only the last line can go. */
  ghost predicate LastOnly<T>(probe: Probe<seq<T>>, all: seq<T>) {
    forall k, i, n :: 0 <= i < k <= |all| ==> probe(Without(all[..k], i), n) == Some(i == k - 1)
  }

  lemma LastGoes<T(!new)>(probe: Probe<seq<T>>, all: seq<T>, lines: seq<T>, i: nat, n: nat)
    requires LastOnly(probe, all) && lines <= all && i < |lines|
    ensures probe(Without(lines, i), n) == Some(i == |lines| - 1)
    ensures i == |lines| - 1 ==> Without(lines, i) <= all
  {
    assert lines == all[..|lines|];
  }

  /** One pass of the inner loop. */
  method Pass<T(!new, ==)>(probe: Probe<seq<T>>, maxProbes: nat, ghost all: seq<T>, lines0: seq<T>, answers0: Answers,
                           ghost last0: nat)
    returns (lines: seq<T>, answers: Answers, changed: bool, failed: bool, ghost last: nat)
    requires Progress(probe, all, lines0, answers0, last0) && |answers0| < maxProbes
    ensures |answers0| <= |answers| <= |answers0| + |lines0| && |answers| <= maxProbes
    ensures failed ==> answers != [] && answers[|answers| - 1] == None && None !in answers[..|answers| - 1]
    ensures !failed ==>
      && Progress(probe, all, lines, answers, last) && (changed <==> |lines| < |lines0|)
      && |lines| <= |lines0|
    ensures !failed && Deterministic(probe) && |answers0| + |lines0| <= maxProbes && !changed ==>
      OneMinimal(probe, lines)
    ensures lines0 == [] ==> !failed
    ensures LastOnly(probe, all) && lines0 != [] && lines0 <= all && |answers0| + |lines0| <= maxProbes ==>
              !failed && lines <= all && |lines| == |lines0| - 1 && |answers| == |answers0| + |lines0|
  {
    lines, answers, changed, failed, last := lines0, answers0, false, false, last0;
    var i := 0;
    while i < |lines|
      invariant 0 <= i <= |lines| <= |lines0| && |answers| == |answers0| + i + (|lines0| - |lines|) <= maxProbes
      invariant Progress(probe, all, lines, answers, last)
      invariant changed <==> |lines| < |lines0|
      invariant Deterministic(probe) ==> changed || Refused(probe, lines, i)
      invariant LastOnly(probe, all) && lines0 <= all ==>
                  lines <= all && (changed ==> i == |lines| == |lines0| - 1)
                    && (!changed ==> i < |lines| || lines == [])
      decreases |lines| - i
    {
      if |answers| >= maxProbes { break; }
      var trial := Without(lines, i);
      var answer := probe(trial, |answers|);
      if LastOnly(probe, all) && lines0 <= all { LastGoes(probe, all, lines, i, |answers|); }
      match answer {
        case None =>
          answers, failed := answers + [None], true;
          return;
        case Some(true) =>
          Dropped(probe, all, lines, answers, last, i);
          last := |answers|;
          lines, answers, changed := trial, answers + [answer], true;
        case Some(false) =>
          Kept(probe, all, lines, answers, last);
          if Deterministic(probe) && !changed { OneMoreRefused(probe, lines, i, |answers|); }
          answers := answers + [answer];
          i := i + 1;
      }
    }
  }

  /**
   The loops of `minimize`.  `answers` are the predicate's answers in order; `None` ends the search.
   */
  method Shrink<T(!new, ==)>(probe: Probe<seq<T>>, maxProbes: nat, all: seq<T>)
    returns (lines: seq<T>, answers: Answers, anyRemoved: bool, failed: bool, ghost last: nat)
    ensures |answers| <= maxProbes && |answers| <= Triangle(|all|)
    ensures failed ==> answers != [] && answers[|answers| - 1] == None && None !in answers[..|answers| - 1]
    ensures !failed ==> Progress(probe, all, lines, answers, last) && (anyRemoved <==> |lines| < |all|)
    ensures !failed && Deterministic(probe) && maxProbes >= Triangle(|all|) ==> OneMinimal(probe, lines)
    ensures LastOnly(probe, all) && maxProbes >= Triangle(|all|) ==> !failed && |answers| == Triangle(|all|)
  {
    lines, answers, anyRemoved, failed, last := all, [], false, false, 0;
    WholeIsSubsequence(all);
    var changed := true;
    while changed && |answers| < maxProbes
      invariant |answers| <= maxProbes && Progress(probe, all, lines, answers, last)
      invariant anyRemoved <==> |lines| < |all|
      invariant |answers| + (if changed then Triangle(|lines|) else 0) <= Triangle(|all|)
      invariant !changed && Deterministic(probe) && maxProbes >= Triangle(|all|) ==> OneMinimal(probe, lines)
      invariant LastOnly(probe, all) && maxProbes >= Triangle(|all|) ==>
                  lines <= all && |answers| + Triangle(|lines|) == Triangle(|all|) && (changed || lines == [])
      decreases |lines| + (if changed then 1 else 0)
    {
      ghost var n := |lines|;
      lines, answers, changed, failed, last := Pass(probe, maxProbes, all, lines, answers, last);
      if failed { return; }
      if changed {
        anyRemoved := true;
        TriangleGrows(|lines|, n - 1);
      }
    }
    // With the full budget the loop cannot stop early on lines that could still be dropped.
    if changed && maxProbes >= Triangle(|all|) { assert |lines| == 0; }
  }

  /**
   `minimize`.  The result is the original untouched, or the lines of the last probe that answered `true`,
   a subsequence of the original's; with the full quadratic budget no single line of it can go.
   */
  method Minimize(c: Candidate, interesting: Probe<Candidate>, maxProbes: nat)
    returns (r: Option<Candidate>, answers: Answers, ghost kept: seq<string>, ghost last: nat)
    ensures |answers| <= maxProbes && |answers| <= Triangle(|Lines(c.source)|)
    ensures r.None? <==> None in answers
    ensures r.None? ==> None !in answers[..|answers| - 1]
    ensures r.Some? ==>
              && Subsequence(kept, Lines(c.source)) && |kept| + Trues(answers) == |Lines(c.source)|
              && (if Some(true) in answers
                  then r == Some(Reduced(c, kept)) && LastTrue(OnLines(c, interesting), kept, answers, last)
                  else r == Some(c) && kept == Lines(c.source))
    ensures r.Some? && Deterministic(interesting) && maxProbes >= Triangle(|Lines(c.source)|) ==>
              OneMinimal(OnLines(c, interesting), kept)
    ensures LastOnly(OnLines(c, interesting), Lines(c.source)) && maxProbes >= Triangle(|Lines(c.source)|) ==>
              |answers| == Triangle(|Lines(c.source)|)
  {
    var probe := OnLines(c, interesting);
    var lines, anyRemoved, failed;
    lines, answers, anyRemoved, failed, last := Shrink(probe, maxProbes, Lines(c.source));
    kept := lines;
    if Deterministic(interesting) { OnLinesDeterministic(c, interesting); }
    if failed { return None, answers, kept, last; }
    TruesPresent(answers);
    r := if anyRemoved then Some(Reduced(c, lines)) else Some(c);
  }

  lemma {:induction false} TruesPresent(answers: Answers)
    ensures Trues(answers) > 0 <==> Some(true) in answers
  {
    if answers == [] {
    } else {
      TruesPresent(answers[..|answers| - 1]);
    }
  }

  // ---- the bound is reached ----

  /** Interesting is what is left of these lines when at least one is dropped from the end. */
  function PrefixesOnly(lines: seq<string>): Probe<Candidate> {
    (x: Candidate, n: nat) => Some(exists k :: 0 <= k < |lines| && x.source == Join(lines[..k], '\n'))
  }

  ghost predicate DistinctLines(lines: seq<string>) {
    && (forall i :: 0 <= i < |lines| ==> lines[i] != "" && '\n' !in lines[i])
    && (forall i, j :: 0 <= i < j < |lines| ==> lines[i] != lines[j])
  }

  /** Dropping an inner line leaves no prefix. */
  lemma InnerDropStands(lines: seq<string>, k: nat, i: nat, m: nat)
    requires DistinctLines(lines) && i + 1 < k <= |lines| && m < |lines|
    ensures Join(Without(lines[..k], i), '\n') != Join(lines[..m], '\n')
  {
    var trial := Without(lines[..k], i);
    SplitJoin(trial, '\n');
    if m == 0 {
      assert Split("", '\n') == [""] && trial[0] != "";
    } else {
      SplitJoin(lines[..m], '\n');
      assert trial[i] == lines[i + 1];
    }
  }

  /**
   The bound on the probes is tight: for any candidate whose lines are distinct and not empty there is a
   predicate with which `minimize` makes all of the n(n + 1)/2 probes, given the budget.
   */
  method ReachesBound(c: Candidate, maxProbes: nat) returns (r: Option<Candidate>, answers: Answers)
    requires DistinctLines(Lines(c.source)) && maxProbes >= Triangle(|Lines(c.source)|)
    ensures |answers| == Triangle(|Lines(c.source)|)
  {
    PrefixesGo(c);
    ghost var kept, last;
    r, answers, kept, last := Minimize(c, PrefixesOnly(Lines(c.source)), maxProbes);
  }

  lemma PrefixesGo(c: Candidate)
    requires DistinctLines(Lines(c.source))
    ensures LastOnly(OnLines(c, PrefixesOnly(Lines(c.source))), Lines(c.source))
  {
    var lines := Lines(c.source);
    forall k, i, n: nat | 0 <= i < k <= |lines|
      ensures OnLines(c, PrefixesOnly(lines))(Without(lines[..k], i), n) == Some(i == k - 1)
    {
      PrefixAnswer(c, lines, k, i, n);
    }
  }

  lemma PrefixAnswer(c: Candidate, lines: seq<string>, k: nat, i: nat, n: nat)
    requires DistinctLines(lines) && i < k <= |lines|
    ensures OnLines(c, PrefixesOnly(lines))(Without(lines[..k], i), n) == Some(i == k - 1)
  {
    var left := Reduced(c, Without(lines[..k], i)).source;
    if i == k - 1 {
      assert Without(lines[..k], i) == lines[..i];
      assert left == Join(lines[..i], '\n');
    } else {
      forall m | 0 <= m < |lines| ensures left != Join(lines[..m], '\n') { InnerDropStands(lines, k, i, m); }
    }
  }
}
