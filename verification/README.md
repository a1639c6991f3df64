# jitgen in Dafny

jitgen reads a code change, asks a language model for tests of the changed code, runs them in a sandbox
and reports what it found. This project models the parts of it that carry an algorithm or a protocol and
proves what they promise, for every input, every run and every reachable state.

| file | what it models |
|---|---|
| `Wildcard.dfy`, `Glob.dfy` | the two nested single-backtrack matching loops, against a recursive match relation |
| `PatchApply.dfy`, `PatchLaws.dfy` | the unified-diff applier, what any success is, how its counts are read, and its printer |
| `PatchPosix.dfy`, `PatchCr.dfy`, `PatchSwap.dfy` | the applier against the POSIX meaning of a diff, its carriage returns, and the swapped diff as its inverse |
| `RunProtocol.dfy` | the durable, resumable run: record, begin, process, publish, finish, with a crash after any store operation |
| `Prompt.dfy` | the fenced prompt and a parser that gives its blocks back |
| `Escape.dfy` | the control stripper as an automaton, capping, and four escapers with their decoders |
| `Minimize.dfy` | greedy line-by-line reduction under a probe budget |
| `Classify.dfy`, `Assess.dfy` | observed classes, and the assessor: a rule gate and a judge that may answer anything |
| `Pipeline.dfy` | one target: repair loop, flake filters, second looks, what is accepted, reported or rejected |
| `Overlay.dfy`, `Checkout.dfy` | writing into an overlay over an abstract file system, every intermediate state kept |
| `Symbols.dfy` | the explicit-stack search for the innermost declaration, and targets for every hunk |
| `Intake.dfy` | attributing the hunks of a diff walk to files, under two caps |
| `Placement.dfy`, `Discovery.dfy` | test paths for five conventions, and deduplication over adapters |
| `Text.dfy`, `Decimal.dfy`, `Paths.dfy`, `Sequences.dfy`, `Targets.dfy`, `Wrappers.dfy` | shared strings, numerals, paths, sequences and records |

Loops and mutable objects of the source are methods with loops and classes with fields, each proved against
a function or a predicate; the laws are lemmas about those. `dafny verify dfyconfig.toml` checks everything.

What each method may assume of the world is explicit: executors, providers, judges, store operations, file-system
operations and diff callbacks are oracles that may fail or answer differently on every call.

## Where the code is not what one might expect

- `glob.rs:60` tests literal equality before the star, so a pattern star is consumed by a literal `*` in the
  subject. The matcher is sound on all inputs, and `Glob.SegmentExact`, `Glob.PathExact` and, under the length
  caps, `Glob.GlobExact` show that it answers every pattern correctly if and only if the subject has no literal `*`.
- The comments at `glob.rs:22-24` and `glob.rs:51` call both loops linear. The bound proved on all inputs is a
  product of the two lengths, and `Glob.SegmentNotLinear` and `Glob.PathNotLinear` give the inputs that need as
  many steps as a product: `*` and m wildcards before a mismatch, on n equal elements, take at least
  (n - m)(m + 1) steps.
- `patchapply.rs:29` places an insertion-only hunk at old line k before line k; POSIX `diff` ("Diff -u or -U
  Output Format") means after it. `PatchPosix.OneHunkExact` says exactly when the two agree on one hunk. Lists can
  differ in two more ways: an insertion right behind a hunk that touches line k is refused as out of order
  (`PatchPosix.InsertionRefused`), and hunks that overlap for POSIX are applied, because the insertion was put too
  early (`PatchPosix.OverlapApplied`). `PatchPosix.ListExact` is the exact condition for lists that have a POSIX
  meaning, `PatchPosix.ReachExact` for lists the code applies, and `PatchPosix.ListAgrees` joins them for all lists.
- `patchapply.rs:18` reads the diff with `lines()`, which drops a CR at each line's end; `patchapply.rs:158-165` keeps
  it in the original. A line that ends in CR is therefore not found by a diff that names it (`PatchCr.CrLineNotFound`),
  and an inserted one loses its CR; `PatchCr.CrExact` says exactly when a printed diff gives the edited text.
- `patchapply.rs:143` calls the marker for a missing newline without effect. Between the lines of a body it is; behind
  the last counted line it makes the whole diff fail (`PatchLaws.MarkersExact`).
- `patchapply.rs:107` promises that a body consumes exactly the header's counts. `patchapply.rs:120` lets one count
  overshoot while the other is awaited (`PatchLaws.CountsCanOvershoot`, on a whole text); `PatchLaws.BodyExact` says
  exactly when the counts are met.
- `patchapply.rs:56-59` drops the trailing newline of an output that is one empty line, so the empty diff changes
  the text of a single newline and no other text (`PatchSwap.EmptyDiffIdentity`). An empty last line that a text
  without trailing newline cannot show is also lost, and then the swapped diff does not bring the original back;
  `PatchSwap.SwappedDiffUndoes` says exactly when it does.
- The visit budget of `symbols.rs:134-139` is decremented before it is compared with zero, so 9999 nodes are
  examined, not 10000; `Symbols.BudgetExact` says on which trees that is enough for every set of declaring kinds.
- `process.rs:277-278` says that the fresh pair of runs made for the assessor matches the confirmation before it.
  Nothing forces the executor to repeat itself, but the rule gate looks at that pair again: whatever the judge
  answers, a pair that is no weak catch is reported as refuted (`Assess.NoWeakCatchIsRefuted`), and a strong catch
  failed once more (`Pipeline.StrongIsConfirmedAgain`).
- `escape.rs:220-222` claims that stripping satisfies the character rules of XML 1.0. It leaves U+FFFE and U+FFFF,
  which section 2.2 excludes (`Escape.NoncharacterPasses`); they are the only two (`Escape.HarmlessIsXml`).

## Model

| member | source | states |
|---|---|---|
| `Glob.SegmentMatch` | crates/jitgen-adapters/src/glob.rs:53-79 | the character loop answers true only for a match of `*`/`?`, for every match when the segment has no literal star, with the steps of its run and fewer than (pattern+1)(segment+1) of them on every input |
| `Glob.MatchSegments` | crates/jitgen-adapters/src/glob.rs:25-49 | the same for `**` over path segments |
| `Glob.GlobMatch` | crates/jitgen-adapters/src/glob.rs:13-20 | within the two length caps it answers what the segment loop answers, beyond them never true; a match implies the recursive meaning, and without literal stars it is equivalent to the meaning |
| `Wildcard.ScanSound` | crates/jitgen-adapters/src/glob.rs:25-79 | a two-pointer run that answers true has found a match, whatever the subject contains |
| `Wildcard.NewStarLosesNothing` | crates/jitgen-adapters/src/glob.rs:63-66 | when a new star is remembered, every match the old star could still reach is reached from the new one |
| `Wildcard.MismatchRulesOut` | crates/jitgen-adapters/src/glob.rs:67-70 | a mismatch rules out the current position of the remembered star, so moving its mark loses no match |
| `Wildcard.ScanComplete` | crates/jitgen-adapters/src/glob.rs:25-79 | although only the latest star is remembered, the run finds every match when stars cannot be taken for subject elements |
| `Wildcard.ScanDecides` | crates/jitgen-adapters/src/glob.rs:25-79 | both directions from the start of a run |
| `Wildcard.OneMove` | crates/jitgen-adapters/src/glob.rs:29-44 | one iteration of either loop leaves the answer still to come unchanged and uses up work; giving up means the answer is no |
| `Wildcard.PotentialDrops` | crates/jitgen-adapters/src/glob.rs:59-74 | the termination measure of both loops: each iteration lowers it |
| `Glob.SegmentExact` | crates/jitgen-adapters/src/glob.rs:57-73 | all patterns are answered as they mean if and only if the segment has no literal star |
| `Glob.PathExact` | crates/jitgen-adapters/src/glob.rs:25-79 | all path patterns are answered as they mean if and only if no segment has a literal star |
| `Glob.GlobExact` | crates/jitgen-adapters/src/glob.rs:13-49 | for `glob_match` itself: on a path of fewer characters than a pattern may have bytes, every pattern within its cap is answered as it means if and only if the path has no literal star |
| `Glob.SegmentNotLinear` | crates/jitgen-adapters/src/glob.rs:51-74 | one star and m matching characters before a mismatch, on n characters: at least (n - m)(m + 1) iterations |
| `Glob.PathNotLinear` | crates/jitgen-adapters/src/glob.rs:22-44 | the same for `**` over path segments |
| `Wildcard.SlowRun` | crates/jitgen-adapters/src/glob.rs:25-74 | the family behind both, for either loop |
| `Glob.StarRejectsLiteralStar` | crates/jitgen-adapters/src/glob.rs:60-66 | the smallest failing input: `*` means a match of `*ab` and the loop rejects it |
| `PatchApply.ApplyUnifiedDiff` | crates/jitgen-orchestrator/src/patchapply.rs:12-61 | the cursor-driven loop succeeds exactly when parsing the whole diff and replaying it on the lines succeeds, with that result |
| `PatchApply.OneHunk` | crates/jitgen-orchestrator/src/patchapply.rs:21-42 | one header line: the position check, the copied lines and the body advance the replay by exactly one hunk, or settle its failure |
| `PatchApply.ApplyHunk` | crates/jitgen-orchestrator/src/patchapply.rs:108-149 | the body loop reads what the body parser reads, checks each old line at the cursor and emits the new side; it fails only if no body can be read and matched |
| `PatchApply.CopyAndApply` | crates/jitgen-orchestrator/src/patchapply.rs:29-41 | once the header fits, copying up to it and applying its body advance the replay by exactly one hunk, or settle its failure |
| `PatchLaws.AnySuccessIsAnEdit` | crates/jitgen-orchestrator/src/patchapply.rs:20-61 | whatever the counts say, a success is the original with some lines removed and some inserted, each original line consumed once and in order, and the lengths balance |
| `PatchLaws.ScriptExplains` | crates/jitgen-orchestrator/src/patchapply.rs:108-156 | the consumed side of the whole edit script is the original line by line, the produced side is the output |
| `PatchLaws.CountsAreLowerBounds` | crates/jitgen-orchestrator/src/patchapply.rs:120-147 | a body meets both header counts, and none of its proper prefixes does |
| `PatchLaws.BodyExact` | crates/jitgen-orchestrator/src/patchapply.rs:107-147 | a body is read with exactly the header's counts if and only if the lines begin with body lines of exactly those counts |
| `PatchLaws.CountsCanOvershoot` | crates/jitgen-orchestrator/src/patchapply.rs:107-123 | on a whole text: under `@@ -1,1 +1,2 @@` the lines ` a`, ` b` are read as two old lines, and the diff applies to the text of the lines a and b |
| `PatchLaws.HeaderReadsBack` | crates/jitgen-orchestrator/src/patchapply.rs:70-105 | a printed hunk header parses to the same start and counts |
| `PatchLaws.BodyReadsBack` | crates/jitgen-orchestrator/src/patchapply.rs:108-149 | a printed body is read up to exactly its own end, whatever follows |
| `PatchLaws.DiffReadsBack` | crates/jitgen-orchestrator/src/patchapply.rs:20-61 | a printed list of hunks parses to itself |
| `PatchLaws.PrintedTextReadsBack` | crates/jitgen-orchestrator/src/patchapply.rs:17-21 | hunks printed as text are read back with one trailing CR dropped from each of their lines |
| `PatchLaws.MarkersExact` | crates/jitgen-orchestrator/src/patchapply.rs:120-147 | a printed hunk with markers between its lines is read back, whatever follows, unless a marker stands behind its last counted line; then the whole diff is rejected |
| `PatchPosix.PrintThenApply` | crates/jitgen-orchestrator/src/patchapply.rs:12-165 | printing hunks as text and applying it to any original gives what POSIX says of the hunks as they are read back, that is without a trailing CR of their lines: for anchored hunks always, in success and in failure; for others if and only if a list with a meaning is placed and a list the code applies is in reach |
| `PatchPosix.AnchoredMeetsPosix` | crates/jitgen-orchestrator/src/patchapply.rs:23-41 | for hunks with old lines or at position zero the code's placement is the POSIX one |
| `PatchPosix.OneHunkExact` | crates/jitgen-orchestrator/src/patchapply.rs:23-41 | the code agrees with POSIX on a single hunk if and only if it is anchored, out of reach for both, or inserts copies of the line before it |
| `PatchPosix.InsertionMisplaced` | crates/jitgen-orchestrator/src/patchapply.rs:29 | the smallest misplaced insertion |
| `PatchPosix.ListExact` | crates/jitgen-orchestrator/src/patchapply.rs:23-41 | for a list of hunks that has a POSIX meaning: the code yields it if and only if every hunk is anchored, or inserts copies of the line before it and that line is not yet behind the cursor |
| `PatchPosix.ReachExact` | crates/jitgen-orchestrator/src/patchapply.rs:23-41 | for a list of hunks that the code applies: POSIX gives it a meaning if and only if every hunk starts behind where POSIX stands and ends within the original |
| `PatchPosix.ListAgrees` | crates/jitgen-orchestrator/src/patchapply.rs:23-41 | for all lists and originals: the code and POSIX agree, in success and in failure, if and only if both conditions hold where they apply |
| `PatchPosix.InsertionRefused` | crates/jitgen-orchestrator/src/patchapply.rs:29-36 | the second way to fail: an insertion right behind a hunk that touches its line has a POSIX meaning and is refused |
| `PatchPosix.OverlapApplied` | crates/jitgen-orchestrator/src/patchapply.rs:29-36 | the third way to fail: a list whose hunks overlap for POSIX is applied |
| `PatchCr.CrExact` | crates/jitgen-orchestrator/src/patchapply.rs:12-165 | anchored hunks with a meaning, printed as text, give the edited text if and only if no operation's line ends in CR |
| `PatchCr.StripShortens` | crates/jitgen-orchestrator/src/patchapply.rs:12-165 | where hunks keep a meaning without the trailing CRs, the result has as many lines and one character less for each inserted line that ended in CR |
| `PatchCr.CrLineNotFound` | crates/jitgen-orchestrator/src/patchapply.rs:151-165 | the smallest failing input: a diff does not find the line of a CRLF file that it names |
| `PatchSwap.FlipUndoes` | crates/jitgen-orchestrator/src/patchapply.rs:12-149 | replaying the swapped hunks on the output gives back the original lines |
| `PatchSwap.SwappedDiffUndoes` | crates/jitgen-orchestrator/src/patchapply.rs:12-165 | text to text, for correctly numbered hunks with two non-empty sides: where the diff applies, the swapped diff applied to the result returns the original if and only if the original is not a lone newline and the last hunk, as it is read back, leaves no empty end |
| `PatchSwap.FlipStrip` | crates/jitgen-orchestrator/src/patchapply.rs:17-21 | swapping the sides of hunks and dropping the trailing CRs of their lines can be done in either order |
| `PatchSwap.LostEnd` | crates/jitgen-orchestrator/src/patchapply.rs:49-61 | the lines of a result survive its text exactly when the last hunk does not reach the end and leave an empty last line there, or nothing but one where a trailing newline is given back |
| `PatchSwap.EmptyLineLost` | crates/jitgen-orchestrator/src/patchapply.rs:49-61 | the smallest text that does not come back: its only line replaced by an empty one |
| `PatchSwap.RenderOfSplit` | crates/jitgen-orchestrator/src/patchapply.rs:49-61 | splitting and rendering gives a text back if and only if it is not a single newline |
| `PatchSwap.RenderReadsBack` | crates/jitgen-orchestrator/src/patchapply.rs:49-61 | exactly when an output's lines and newline flag survive rendering and splitting |
| `PatchSwap.EmptyDiffIdentity` | crates/jitgen-orchestrator/src/patchapply.rs:56-59 | the empty diff is the identity on a text if and only if the text is not a single newline |
| `RunProtocol.RunState.PersistStep` | crates/jitgen-orchestrator/src/run.rs:301-315 | publish precedes finish: after any number of store operations the invariant holds and no target's state has moved |
| `RunProtocol.RunState.RecordStep` | crates/jitgen-state/src/store.rs:241-279 | recorded: the step has the given sequence, kind and input hash and every other step is as before; unchanged inputs leave the table as it was, changed or new ones make the step pending, so a step found finished is still the one that finished |
| `RunProtocol.RunState.Publish` | crates/jitgen-state/src/store.rs:355-379 | the artifact file is in place before its index row; a crash between leaves the file |
| `RunProtocol.RunState.Attempt` | crates/jitgen-orchestrator/src/run.rs:352-368 | begin, process, publish, finish, with at most one `process` call: success leaves the step finished and its outcome published, anything less leaves the step unfinished or its artifact missing |
| `RunProtocol.RunState.DriveOne` | crates/jitgen-orchestrator/src/run.rs:330-369 | one iteration touches one target only, returns an outcome `process` gave for this target and configuration, and calls `process` only if it ends finished or fails |
| `RunProtocol.RunState.DriveTargets` | crates/jitgen-orchestrator/src/run.rs:317-371 | a pass that returns has, for every target, an outcome `process` produced under this configuration; it calls `process` at most once for each target it newly finishes, and once more if it fails |
| `RunProtocol.RunState.Drive` | crates/jitgen-orchestrator/src/run.rs:165-299 | the report is published before the run is marked completed |
| `RunProtocol.RunState.Run` | crates/jitgen-orchestrator/src/run.rs:77-121 | a run that dies after any number of store operations keeps the invariant; with enough operations and an answering pipeline it succeeds |
| `RunProtocol.RunState.Resume` | crates/jitgen-orchestrator/src/run.rs:124-157 | a resume uses the configuration stored by the run, or does nothing at all |
| `RunProtocol.RunState.LoadReport` | crates/jitgen-orchestrator/src/run.rs:462-493 | a report is returned only for a completed run, and it is the one the latest pass to start returned |
| `RunProtocol.CountMoves` | crates/jitgen-orchestrator/src/run.rs:320-371 | changing the state of one target moves the number of finished targets by that target only |
| `RunProtocol.OnlyFragmentSound` | crates/jitgen-orchestrator/src/run.rs:330-369 | the invariant "a finished step tells the truth about its artifact" survives any change confined to one target |
| `RunProtocol.Play` | crates/jitgen-orchestrator/src/run.rs:77-157 | one event of a history against the durable state it finds |
| `RunProtocol.History` | crates/jitgen-orchestrator/src/run.rs:77-157 | over every sequence of runs, resumes, crashes and lost files under changing configurations: every success is honest, and for a pipeline that answers the same on every call its outcomes are the undisturbed ones; `load_report` answers the latest pass to start; with one configuration the calls are at most the targets plus the started passes that failed and the target files that were lost |
| `RunProtocol.CrashesLeaveNoTrace` | crates/jitgen-orchestrator/src/run.rs:77-157 | with such a pipeline, a report that any pass of any history returns is the report of one pass with enough operations on a store without a past |
| `RunProtocol.RenumberedFragment` | crates/jitgen-orchestrator/src/run.rs:679-691 | the identifiers of one run pass through `sanitize_id` unchanged |
| `RunProtocol.NumberedFragments` | crates/jitgen-orchestrator/src/run.rs:679-691 | targets with different numbers as identifiers have steps and artifact files of their own |
| `Prompt.RenderPrompt` | crates/jitgen-context/src/prompt.rs:108-136 | for all inputs the begin and end markers alternate, once per item and per kept hint, and splitting on them returns each kind, slugged path and neutralised content |
| `Prompt.SanitizeRemoves` | crates/jitgen-context/src/prompt.rs:48-58 | neutralised text contains neither marker |
| `Prompt.ReplaceRemoves` | crates/jitgen-context/src/prompt.rs:48-58 | neither replacement creates the other marker, nor one across the boundary of a stand-in |
| `Prompt.BlocksAreQuiet` | crates/jitgen-context/src/prompt.rs:60-136 | every block of a message has a plain kind, a plain path and marker-free content |
| `Prompt.FencesMarks` | crates/jitgen-context/src/prompt.rs:79-85 | the markers of any list of quiet blocks alternate |
| `Prompt.FencesReadBack` | crates/jitgen-context/src/prompt.rs:79-85 | the fences of any list of quiet blocks parse back to the list |
| `Prompt.MessageReadsBack` | crates/jitgen-context/src/prompt.rs:108-136 | both together, behind any line without angle brackets |
| `Escape.StripControls` | crates/jitgen-report/src/escape.rs:36-49 | the iterator loop equals the five-mode automaton |
| `Escape.ConsumeEscape` | crates/jitgen-report/src/escape.rs:70-85 | consuming after an escape character brings the automaton back to ground |
| `Escape.ConsumeCsiBody` | crates/jitgen-report/src/escape.rs:88-94 | the same for a CSI body |
| `Escape.ConsumeOscBody` | crates/jitgen-report/src/escape.rs:97-110 | the same for an OSC body, including an escape that does not end it |
| `Escape.StripsToHarmless` | crates/jitgen-report/src/escape.rs:36-66 | from every mode, the output is a control-free subsequence of the input |
| `Escape.StripFixpoint` | crates/jitgen-report/src/escape.rs:36-66 | a text is left alone if and only if it is control-free, and stripping is idempotent |
| `Escape.StripFilters` | crates/jitgen-report/src/escape.rs:36-66 | without sequence introducers exactly the control characters are dropped |
| `Escape.SliceAtBoundary` | crates/jitgen-report/src/escape.rs:119-131 | walking back to a character boundary keeps the longest whole-character prefix that fits |
| `Escape.FittingIsLongest` | crates/jitgen-report/src/escape.rs:119-131 | no longer prefix fits the byte budget |
| `Escape.Cap` | crates/jitgen-report/src/escape.rs:115-131 | the loops of `cap` compute the capped text |
| `Escape.CutIsTight` | crates/jitgen-report/src/escape.rs:126-130 | a cut text is its longest prefix that leaves room for the marker, followed by the marker |
| `Escape.SanitizeSettles` | crates/jitgen-report/src/escape.rs:115-136 | sanitised text is control-free, within the byte cap, and a fixpoint of `sanitize` at that cap |
| `Escape.XmlText` | crates/jitgen-report/src/escape.rs:242-254 | decoding gives the sanitised text back, no angle bracket is left, and all characters are XML characters if and only if the sanitised text has neither U+FFFE nor U+FFFF |
| `Escape.XmlAttr` | crates/jitgen-report/src/escape.rs:223-238 | decoding gives the sanitised text with line ends and tabs as spaces; no quote, angle bracket or line end is left; all characters are XML characters under the same condition |
| `Escape.MdInline` | crates/jitgen-report/src/escape.rs:152-172 | reading the backslash escapes and entities gives the sanitised text with line ends as spaces, and every character active in Markdown stands behind a backslash that is not itself escaped |
| `Escape.HarmlessIsXml` | crates/jitgen-report/src/escape.rs:54-66 | of the characters the stripper lets through, all but U+FFFE and U+FFFF are XML characters |
| `Escape.NoncharacterPasses` | crates/jitgen-report/src/escape.rs:220-222 | the failing input for the claim: U+FFFE passes the stripper and is no XML character |
| `Escape.MdCodeBlock` | crates/jitgen-report/src/escape.rs:178-218 | no run of three backticks or tildes is left, stripping gives the sanitised text back, and text without such runs is unchanged |
| `Escape.CodeChar` | crates/jitgen-report/src/escape.rs:198-214 | one iteration keeps the pending-run invariant |
| `Escape.FlushKeeps` | crates/jitgen-report/src/escape.rs:184-197 | writing out a pending run keeps the output free of fences and loses nothing |
| `Minimize.Minimize` | crates/jitgen-feedback/src/minimize.rs:38-80 | at most min(budget, n(n+1)/2) probes; the result is the untouched original or a subsequence of its lines on which the last `true` was answered; with the full budget and a deterministic predicate it is 1-minimal |
| `Minimize.Pass` | crates/jitgen-feedback/src/minimize.rs:52-71 | one pass makes at most one probe per line, and a pass that changes nothing has refused every single-line drop; where only the last line can go, it probes every line and drops that one |
| `Minimize.Shrink` | crates/jitgen-feedback/src/minimize.rs:50-71 | the fixpoint loop stays within the quadratic bound, and reaches it when only the last line can ever go |
| `Minimize.ReachesBound` | crates/jitgen-feedback/src/minimize.rs:50-71 | the bound is tight: for any source of distinct non-empty lines some predicate makes all n(n+1)/2 probes |
| `Minimize.PrefixesGo` | crates/jitgen-feedback/src/minimize.rs:56-66 | the predicate that does so: of a prefix of the lines, exactly the drop of the last one is interesting |
| `Sequences.DropKeepsSubsequence` | crates/jitgen-feedback/src/minimize.rs:58-66 | dropping one more line keeps a subsequence of the original |
| `Pipeline.Session.ProcessTarget` | crates/jitgen-orchestrator/src/process.rs:71-122 | accepted, caught and rejected add up to the generated candidates; every accepted test and every catch is backed by `reruns + 1` executions in the trace, every strong catch by one more pair; repaired candidates run only after validation; with collaborators that answer and at least one attempt it returns an outcome; in any case the executions are at most those of each candidate's repair, filter and second look |
| `Pipeline.StrongIsConfirmedAgain` | crates/jitgen-orchestrator/src/process.rs:297-312 | whatever the judge answers, a strong catch passed base and failed head in all of its flake trials and in the pair after them, with an output that reads like a failed assertion |
| `Pipeline.OtherwiseRefuted` | crates/jitgen-orchestrator/src/process.rs:277-288 | a catch whose second pair is no weak catch is reported with probability zero and as strictly weak |
| `Pipeline.Session.SecondLook` | crates/jitgen-orchestrator/src/process.rs:224-229 | one more base and head run of the candidate, and the assessment of exactly those |
| `Pipeline.Session.CandidateStep` | crates/jitgen-orchestrator/src/process.rs:139-199 | one entry is added, the one the observed trial, the observed flake runs and the second look decide; with answering collaborators and at least one attempt it returns, and its executions are bounded |
| `Pipeline.Session.AfterRepair` | crates/jitgen-orchestrator/src/process.rs:178-198 | the flake report is that of the executions just made, and with the second look of a catch decides the entry; it returns whenever the executor does |
| `Pipeline.Session.ClassifyStable` | crates/jitgen-orchestrator/src/process.rs:203-241 | accept, surface or refuse by mode and class; a surfaced catch adds exactly one base run and one head run to the trace and is assessed on those; anything else adds none |
| `Pipeline.Session.HarvestConfirmed` | crates/jitgen-orchestrator/src/process.rs:259-288 | past the flake filter a harvested catch is surfaced, assessed on one more pair of runs, exactly when the filter found a stable weak catch |
| `Pipeline.Session.HarvestStep` | crates/jitgen-orchestrator/src/process.rs:244-289 | a harvested catch is surfaced only after `reruns + 1` fresh weak pairs, on the assessment of the next one; it returns whenever the executor does, within `2(reruns + 2)` executions |
| `Pipeline.AcceptLandable` | crates/jitgen-orchestrator/src/process.rs:394-428 | accepts, unaltered, exactly the candidates that are non-blank, free of secrets and of controls |
| `Pipeline.LandableIsInert` | crates/jitgen-orchestrator/src/process.rs:408-418 | a landable source and path are control-free and the path stays on one line |
| `Pipeline.Session.RepairLoop` | crates/jitgen-feedback/src/repair.rs:119-198 | within `max_attempts` trials; with answering collaborators and at least one attempt there is a report; the reported class was read off the last runs of the reported, validated candidate; accepted exactly when that class is the goal, rejected exactly when validation failed; no earlier trial reached the goal; each repair prompt is given the issues of a refused source or exactly the latest runs |
| `Pipeline.Session.Attempt` | crates/jitgen-feedback/src/repair.rs:149-186 | one attempt: refused sources are not executed; an executed one either ends the loop at the goal or leaves its class and its feedback for the next |
| `Pipeline.OneMoreTrial` | crates/jitgen-feedback/src/repair.rs:140-187 | a further trial leaves earlier ones off goal and adds exactly its own class |
| `Pipeline.Session.Trial` | crates/jitgen-feedback/src/repair.rs:96-114 | the class of a trial is read off its own one or two runs, and there is one whenever the executor answers |
| `Pipeline.Session.FlakeFilterSingle` | crates/jitgen-feedback/src/flake.rs:54-67 | stable with the harden class exactly when all `reruns + 1` head runs passed; there is a report whenever the executor answers |
| `Pipeline.Session.FlakeFilterCatch` | crates/jitgen-feedback/src/flake.rs:70-83 | stable as a weak catch exactly when `reruns + 1` pairs in a row passed base and failed head; there is a report whenever the executor answers |
| `Pipeline.StableClass` | crates/jitgen-feedback/src/flake.rs:35-51 | a report is stable with a class exactly when every trial observed it |
| `Pipeline.SinglesPass` | crates/jitgen-core/src/classify.rs:37-46 | head runs all classify as the harden goal exactly when all of them passed |
| `Pipeline.PairsWeak` | crates/jitgen-core/src/classify.rs:49-60 | run pairs all classify as weak catches exactly when each passed base and failed head |
| `Assess.StrongExact` | crates/jitgen-feedback/src/assess/mod.rs:75-98 | a strong catch is decided if and only if the pair is a weak catch, the filter found it stable, the head output reads like a failed assertion and not like a problem of the environment, and the judge's score reaches the threshold |
| `Assess.NoWeakCatchIsRefuted` | crates/jitgen-feedback/src/assess/mod.rs:70-98 | whatever the judge answers and whatever the thresholds, a pair that is no weak catch has probability zero and is strictly weak |
| `Assess.ScoreIsMonotone` | crates/jitgen-feedback/src/assess/mod.rs:87-98 | a lower score of the judge never raises the probability or the decision |
| `Assess.JudgeOnlyLowers` | crates/jitgen-feedback/src/assess/mod.rs:3-10 | no answer of the judge decides more than the rules alone do |
| `Assess.RulesExact` | crates/jitgen-feedback/src/assess/rules.rs:67-103 | the gate passes exactly for clean, stable evidence with a genuine-looking failure, and then the probability is one; it is zero exactly without clean, stable evidence |
| `Assess.CleanIsWeak` | crates/jitgen-feedback/src/assess/rules.rs:61-65 | the evidence the rules call clean is exactly what classifies as a weak catch |
| `Pipeline.EvidenceLasts` | crates/jitgen-orchestrator/src/process.rs:111-121 | evidence for earlier entries survives whatever is executed later |
| `Overlay.ValidateRel` | crates/jitgen-materialize/src/overlay.rs:136-171 | a validated path is one to 64 ordinary names |
| `Overlay.Disk.Materialize` | crates/jitgen-materialize/src/overlay.rs:70-89 | at every intermediate state nothing is lost or changed and the destination is absent, as before or complete; success means exactly the parents and the file; doing it again changes nothing; without faults it succeeds exactly when the way is clear and the destination free or identical |
| `Overlay.Disk.CreateParents` | crates/jitgen-materialize/src/overlay.rs:93-130 | each missing ancestor is made, nothing else; refused exactly when an ancestor is not a directory; every operation below real directories |
| `Overlay.Disk.Install` | crates/jitgen-materialize/src/overlay.rs:179-224 | an existing destination is never changed; each error says what stood there |
| `Overlay.Disk.WriteUniqueTemp` | crates/jitgen-materialize/src/overlay.rs:232-256 | a temporary is a fresh name and complete; without faults it fails only when all 128 names are taken |
| `Overlay.Disk.MoveIn` | crates/jitgen-materialize/src/overlay.rs:212-223 | renaming leaves the destination complete and no temporary |
| `Overlay.ParentsGround` | crates/jitgen-materialize/src/overlay.rs:93-130 | once missing parents are made, every ancestor is a real directory |
| `Overlay.InstalledSettled` | crates/jitgen-materialize/src/overlay.rs:186-197 | where the bytes already stand there is nothing left to make |
| `Overlay.Disk.WriteConfined` | crates/jitgen-orchestrator/src/checkout.rs:247-268 | the same confinement for an overwriting write: only a regular file at the destination may change, torn states show a prefix of the new bytes, links and directories are never replaced |
| `Checkout.CheckoutRevision` | crates/jitgen-orchestrator/src/checkout.rs:145-202 | success means both byte caps hold, the count is right and every readable blob stands at its path; without faults, where no blob lies below another and the root has nothing in their way, it succeeds exactly when the caps hold; a cap error comes at the first path that breaks a cap; at every state only blob paths and directories leading to them have changed |
| `Checkout.RoomStays` | crates/jitgen-orchestrator/src/checkout.rs:166-200 | what a checkout has written is never in the way of a later blob |
| `Checkout.Charge` | crates/jitgen-orchestrator/src/checkout.rs:171-194 | the running total is the capped size so far, and a blob is refused exactly when it breaks a cap |
| `Checkout.InstalledLasts` | crates/jitgen-orchestrator/src/checkout.rs:247-268 | a confined write elsewhere leaves an installed file installed |
| `Checkout.ConfinedWithin` | crates/jitgen-orchestrator/src/checkout.rs:166-200 | a confined write, seen from before the checkout, stays within the checkout's footprint |
| `Symbols.Enclosing` | crates/jitgen-adapters/src/symbols.rs:121-161 | on every tree, the first strictly shortest declaration among the nodes examined within the budget |
| `Symbols.PopOrderReaches` | crates/jitgen-adapters/src/symbols.rs:132-159 | the stack visits exactly the nodes reached through row-containing nodes, and no more of them than the tree has |
| `Symbols.SmallestEnclosing` | crates/jitgen-adapters/src/symbols.rs:117-161 | on a tree of any size, where fewer nodes are visited than the budget allows, the search finds a declaration of least length among all nodes reached through row-containing nodes, and finds one whenever there is one |
| `Symbols.BudgetExact` | crates/jitgen-adapters/src/symbols.rs:117-161 | on every tree: the search is right for all declaring kinds if and only if each reached node has, among the nodes examined within the budget, one of the same kind that is no longer |
| `Symbols.PopOrderVisits` | crates/jitgen-adapters/src/symbols.rs:132-159 | how many nodes a search visits is known from the tree and the row alone |
| `Symbols.BudgetReaches` | crates/jitgen-adapters/src/symbols.rs:132-139 | an instance: a declaration below n other nodes is found if and only if n is less than 9999 |
| `Symbols.FoundContains` | crates/jitgen-adapters/src/symbols.rs:117-161 | on any tree what is found contains the row |
| `Symbols.MatchHunk` | crates/jitgen-adapters/src/symbols.rs:84-108 | one hunk adds the span found for it once, or is left unmatched exactly when none is found |
| `Symbols.SymbolsHold` | crates/jitgen-adapters/src/symbols.rs:84-113 | the symbol targets after any number of hunks: one for each span found, explained by its hunk, numbered consecutively, spans pairwise different |
| `Symbols.ExtractWithGrammar` | crates/jitgen-adapters/src/symbols.rs:48-115 | one symbol target per span found, spans pairwise distinct, then a target for each unmatched or over-cap hunk in order; every hunk is covered |
| `Symbols.EveryHunkCovered` | crates/jitgen-adapters/src/symbols.rs:84-113 | every hunk starts inside a target's span or is a target of its own |
| `Symbols.ExtractTargets` | crates/jitgen-adapters/src/symbols.rs:29-46 | identifiers are consecutive, there are no more targets than hunks, and without a tree each hunk is its own target |
| `Symbols.SymbolRisk` | crates/jitgen-adapters/src/symbols.rs:183-195 | the summing loop computes the clamped ratio |
| `Symbols.ChangedCounts` | crates/jitgen-adapters/src/symbols.rs:183-195 | for disjoint hunks the sum is the number of changed lines of the span, never more than the span has |
| `Symbols.RiskIsFraction` | crates/jitgen-adapters/src/symbols.rs:182-195 | for disjoint hunks the risk is the changed fraction, at least a twentieth and at most one |
| `Intake.CollectFileChanges` | crates/jitgen-gitintake/src/intake.rs:555-615 | the walk succeeds exactly when the hunk callbacks and every file's hunks are within their caps and the walk has no fault, and then each file has exactly its hunks in order |
| `Intake.HunkCallback` | crates/jitgen-gitintake/src/intake.rs:576-606 | one hunk callback: counted before it is filtered, refused exactly when a cap would be passed, attributed as a scan would |
| `Intake.FileCallback` | crates/jitgen-gitintake/src/intake.rs:566-575 | one file callback: the index still answers what a first-match scan answers |
| `Intake.OwnerIsFinal` | crates/jitgen-gitintake/src/intake.rs:571-593 | a kept hunk belongs to the first file of its path among all files of the walk |
| `Intake.HunksConserved` | crates/jitgen-gitintake/src/intake.rs:587-605 | every kept hunk lands in exactly one file |
| `Intake.AcceptedEarlier` | crates/jitgen-gitintake/src/intake.rs:577-600 | a walk refused early would be refused in the end |
| `Placement.SanitizeFragment` | crates/jitgen-materialize/src/placement.rs:19-43 | the fused loop equals fold, collapse, cut, trim |
| `Placement.FragmentFixpoint` | crates/jitgen-materialize/src/placement.rs:17-43 | exactly the clean fragments are left unchanged, and sanitising is idempotent |
| `Placement.FragmentClean` | crates/jitgen-materialize/src/placement.rs:17-43 | a fragment has 1 to 64 characters of `[A-Za-z0-9_]`, no doubled underscore and none at its ends |
| `Placement.FindJavaDirs` | crates/jitgen-materialize/src/placement.rs:150-176 | the search mirrors the first `src/main/java` |
| `Placement.KeepsPackage` | crates/jitgen-materialize/src/placement.rs:143-171 | a Java source below a first `src/main/java` gets its test in the same package with `main` replaced by `test`, module prefix and package kept |
| `Placement.BesideSource` | crates/jitgen-materialize/src/placement.rs:106-117 | Python and TypeScript tests are placed in the directory of their source |
| `Placement.TestPathConfined` | crates/jitgen-materialize/src/placement.rs:55-121 | for every target path, identifier and adapter the result is relative and all its components are ordinary names |
| `Placement.NameDecides` | crates/jitgen-materialize/src/placement.rs:91-121 | equal file names come from equal rules and equal identifiers |
| `Placement.TestPathInjective` | crates/jitgen-materialize/src/placement.rs:91-176 | two targets of one run never share a test path, whatever their paths and across all five rules |
| `Discovery.Analyze` | crates/jitgen-adapters/src/discovery.rs:68-110 | collect, keep by mask, renumber: exactly the targets of each path's first reporter, in order, with fresh identifiers |
| `Discovery.KeepMask` | crates/jitgen-adapters/src/discovery.rs:89-99 | the mask keeps a target exactly when its adapter reported its path first |
| `Discovery.OneOwnerPerPath` | crates/jitgen-adapters/src/discovery.rs:76-105 | all kept targets of a path share one adapter, and no reported path is lost |
| `Discovery.KeptInOrder` | crates/jitgen-adapters/src/discovery.rs:100-105 | what is kept is a subsequence of what was reported |
| `Discovery.RunPathsDistinct` | crates/jitgen-adapters/src/discovery.rs:106-109 | after renumbering no two targets of a run share a test path |
| `Discovery.RunStepsDistinct` | crates/jitgen-adapters/src/discovery.rs:106-109 | targets selected from the renumbered ones, each at most once, have steps and artifact files of their own in the run |

## Left out

- The command line, terminal output, doctor checks and demo: user interface.
- libgit2, tree-sitter, HTTP, SQLite and the sandbox: diff callbacks, trees, store operations and executions are inputs.
- Secret redaction (`redact.rs`), ignore rules and `reject_unsafe_rel`: opaque functions wherever they are called.
- The strategies that generate candidates, the exporters and the findings gate: what the first produce is an arbitrary input.
- The judge's prompt and the parsing of its answer: the answer is an arbitrary number or none; rationales and signals of an assessment are not modelled.
- sha256: input hashes and content digests are what they are computed from, that is, injective.
- Serialised artifacts: encoding and decoding are the identity on their contents; a lost file is modelled, a corrupted one is not.
- Artifact index rows, retry counts, timestamps and error texts of the store: no decision of the modelled code reads them.
- The fallback of `config_fingerprint` for a configuration that does not serialise: such a configuration is not modelled.
- Parse deadlines and source-size limits before parsing: a tree that is not available is `None`.
- Floating point: risk ratios, probabilities and thresholds are reals, so no threshold is NaN.
- Machine integers: sums and counters are unbounded except where the source parses, saturates or caps them.
- Glob.GlobExact: for paths of at least 512 characters only the half in `Glob.GlobMatch` is stated; the failing pattern
  built here is as long as the path and would exceed its own cap.
- What the operating system makes of a path that ends in `/` or `/.`: paths are lists of components.
- Concurrent writers to an overlay and durability of directory entries: a crash keeps the operations done so far, in order.
- The tree walk that selects blob paths and the ordering of a checkout against libgit2's object cache.
- Detail texts of errors: which error is returned is kept where a caller can tell the difference.
- The system prompt text and the wording of repair feedback (`fenced_feedback`, `describe_single`, `describe_catch`): prose around the results that are modelled.
- Symbol names taken from neighbouring nodes (`node_name`): an opaque function of the node.
