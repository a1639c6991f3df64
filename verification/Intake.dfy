/** Collecting changed files and hunks from a diff walk (`intake.rs`). */
module Intake {
  import opened Wrappers
  import opened Targets

  const MAX_TOTAL_HUNKS := 100_000
  const MAX_HUNKS_PER_FILE := 1000

  datatype Status = Added | Copied | Untracked | Deleted | Renamed | Modified | OtherStatus

  /** A delta with the paths git reports, where they are valid text. */
  datatype Delta = Delta(status: Status, oldPath: Option<string>, newPath: Option<string>)

  /** What the walk calls back with; `Fault` is a failure of the walk itself. */
  datatype Event = OnFile(delta: Delta) | OnHunk(delta: Delta, newStart: nat, newLines: nat) | Fault

  datatype ChangeKind = KindAdded | KindDeleted | KindRenamed | KindModified

  datatype FileChange = FileChange(path: string, oldPath: Option<string>, kind: ChangeKind, hunks: seq<LineRange>)

  datatype IntakeError = TooManyHunks | TooManyInFile(path: string) | WalkFailed

  /** The path policies, both opaque here. */
  datatype Policy = Policy(ignored: string -> bool, unsafePath: string -> bool)

  /** `delta_head_path`. */
  function HeadPath(d: Delta, policy: Policy): Option<string> {
    var p := if d.status == Deleted then d.oldPath else d.newPath;
    if p.Some? && !policy.ignored(p.value) then p else None
  }

  /** `file_change_from_delta`. */
  function ChangeOf(d: Delta, policy: Policy): Option<FileChange> {
    var kind := match d.status
      case Added | Copied | Untracked => KindAdded
      case Deleted => KindDeleted
      case Renamed => KindRenamed
      case _ => KindModified;
    var path := if d.status == Deleted then d.oldPath else d.newPath;
    if path.None? || policy.ignored(path.value) || policy.unsafePath(path.value) then None
    else if d.status == Renamed && d.oldPath.Some? then
      if policy.unsafePath(d.oldPath.value) then None
      else Some(FileChange(path.value, if policy.ignored(d.oldPath.value) then None else d.oldPath, kind, []))
    else Some(FileChange(path.value, None, kind, []))
  }

  // ---- attribution by scanning ----

  /** The files collected from the first `n` events, without their hunks. */
  function Files(events: seq<Event>, n: nat, policy: Policy): seq<FileChange>
    requires n <= |events|
  {
    if n == 0 then []
    else if events[n - 1].OnFile? && ChangeOf(events[n - 1].delta, policy).Some?
    then Files(events, n - 1, policy) + [ChangeOf(events[n - 1].delta, policy).value]
    else Files(events, n - 1, policy)
  }

  /** The first file with this path. */
  function Scan(files: seq<FileChange>, path: string): (r: Option<nat>)
    ensures match r
      case Some(i) => i < |files| && files[i].path == path && forall j :: 0 <= j < i ==> files[j].path != path
      case None => forall j :: 0 <= j < |files| ==> files[j].path != path
  {
    if files == [] then None
    else
      var r := Scan(files[..|files| - 1], path);
      if r.Some? then r
      else if files[|files| - 1].path == path then Some(|files| - 1)
      else None
  }

  /** The range of a hunk with head-side lines. */
  function RangeOf(e: Event): Option<LineRange> {
    if e.OnHunk? && e.newLines > 0 then NewRange(e.newStart, e.newStart + e.newLines - 1) else None
  }

  /** The file the `k`-th event's hunk belongs to, if it is a hunk that is kept. */
  function Owner(events: seq<Event>, k: nat, policy: Policy): Option<nat>
    requires k < |events|
  {
    if RangeOf(events[k]).Some? && HeadPath(events[k].delta, policy).Some?
    then Scan(Files(events, k, policy), HeadPath(events[k].delta, policy).value)
    else None
  }

  /** The hunks of file `i` among the first `n` events, in order. */
  function HunksOf(events: seq<Event>, n: nat, i: nat, policy: Policy): seq<LineRange>
    requires n <= |events|
  {
    if n == 0 then []
    else if Owner(events, n - 1, policy) == Some(i)
    then HunksOf(events, n - 1, i, policy) + [RangeOf(events[n - 1]).value]
    else HunksOf(events, n - 1, i, policy)
  }

  function HunkCount(events: seq<Event>, n: nat): nat
    requires n <= |events|
  {
    if n == 0 then 0 else HunkCount(events, n - 1) + if events[n - 1].OnHunk? then 1 else 0
  }

  /** The walk may go on past the first `n` events. */
  ghost predicate Accepted(events: seq<Event>, n: nat, policy: Policy)
    requires n <= |events|
  {
    && HunkCount(events, n) <= MAX_TOTAL_HUNKS
    && (forall i :: 0 <= i < |Files(events, n, policy)| ==> |HunksOf(events, n, i, policy)| <= MAX_HUNKS_PER_FILE)
    && Fault !in events[..n]
  }

  ghost function Collected(events: seq<Event>, n: nat, policy: Policy): seq<FileChange>
    requires n <= |events|
  {
    var files := Files(events, n, policy);
    seq(|files|, i requires 0 <= i < |files| => files[i].(hunks := HunksOf(events, n, i, policy)))
  }

  // ---- facts ----

  lemma {:induction false} FilesGrow(events: seq<Event>, m: nat, n: nat, policy: Policy)
    requires m <= n <= |events|
    ensures Files(events, m, policy) <= Files(events, n, policy)
  {
    if m == n {
    } else {
      FilesGrow(events, m, n - 1, policy);
    }
  }

  lemma {:induction false} OwnersExist(events: seq<Event>, n: nat, i: nat, policy: Policy)
    requires n <= |events| && i >= |Files(events, n, policy)|
    ensures HunksOf(events, n, i, policy) == []
  {
    if n == 0 {
    } else {
      FilesGrow(events, n - 1, n, policy);
      OwnersExist(events, n - 1, i, policy);
    }
  }

  lemma {:induction false} HunksGrow(events: seq<Event>, m: nat, n: nat, i: nat, policy: Policy)
    requires m <= n <= |events|
    ensures HunksOf(events, m, i, policy) <= HunksOf(events, n, i, policy)
    ensures HunkCount(events, m) <= HunkCount(events, n)
  {
    if m == n {
    } else {
      HunksGrow(events, m, n - 1, i, policy);
    }
  }

  /** The walk stops for good: what is refused early stays refused. */
  lemma AcceptedEarlier(events: seq<Event>, m: nat, n: nat, policy: Policy)
    requires m <= n <= |events| && Accepted(events, n, policy)
    ensures Accepted(events, m, policy)
  {
    FilesGrow(events, m, n, policy);
    forall i | 0 <= i < |Files(events, m, policy)| ensures |HunksOf(events, m, i, policy)| <= MAX_HUNKS_PER_FILE {
      HunksGrow(events, m, n, i, policy);
    }
    HunksGrow(events, m, n, 0, policy);
  }

  /** A later file with the same path never takes over. */
  lemma ScanStable(files: seq<FileChange>, more: seq<FileChange>, path: string)
    requires files <= more && Scan(files, path).Some?
    ensures Scan(more, path) == Scan(files, path)
  {}

  /** A kept hunk belongs to the first file of its path among all files collected in the end. */
  lemma OwnerIsFinal(events: seq<Event>, k: nat, policy: Policy)
    requires k < |events| && Owner(events, k, policy).Some?
    ensures Scan(Files(events, |events|, policy), HeadPath(events[k].delta, policy).value) == Owner(events, k, policy)
  {
    FilesGrow(events, k, |events|, policy);
    ScanStable(Files(events, k, policy), Files(events, |events|, policy), HeadPath(events[k].delta, policy).value);
  }

  function KeptCount(events: seq<Event>, n: nat, policy: Policy): nat
    requires n <= |events|
  {
    if n == 0 then 0 else KeptCount(events, n - 1, policy) + if Owner(events, n - 1, policy).Some? then 1 else 0
  }

  function SumOf(events: seq<Event>, n: nat, files: nat, policy: Policy): nat
    requires n <= |events|
  {
    if files == 0 then 0 else SumOf(events, n, files - 1, policy) + |HunksOf(events, n, files - 1, policy)|
  }

  lemma {:induction false} SumStep(events: seq<Event>, n: nat, files: nat, policy: Policy)
    requires n < |events|
    ensures var owner := Owner(events, n, policy);
      SumOf(events, n + 1, files, policy) ==
        SumOf(events, n, files, policy) + if owner.Some? && owner.value < files then 1 else 0
  {
    if files == 0 {
    } else {
      SumStep(events, n, files - 1, policy);
    }
  }

  lemma {:induction false} SumOfNone(events: seq<Event>, files: nat, policy: Policy)
    ensures SumOf(events, 0, files, policy) == 0
  {
    if files == 0 {
    } else {
      SumOfNone(events, files - 1, policy);
    }
  }

  /** Every kept hunk lands in exactly one file. */
  lemma {:induction false} HunksConserved(events: seq<Event>, n: nat, files: nat, policy: Policy)
    requires n <= |events| && files >= |Files(events, n, policy)|
    ensures SumOf(events, n, files, policy) == KeptCount(events, n, policy)
  {
    if n == 0 {
      SumOfNone(events, files, policy);
    } else {
      var m := n - 1;
      FilesGrow(events, m, n, policy);
      HunksConserved(events, m, files, policy);
      SumStep(events, m, files, policy);
      assert Owner(events, m, policy).Some? ==> Owner(events, m, policy).value < |Files(events, m, policy)|;
    }
  }

  // ---- the walk ----

  /** What `index` holds: for each path collected its first position. */
  ghost predicate IndexFits(index: map<string, nat>, files: seq<FileChange>) {
    forall p :: match Scan(files, p)
      case Some(i) => p in index && index[p] == i
      case None => p !in index
  }

  lemma IndexStep(index: map<string, nat>, files: seq<FileChange>, fc: FileChange)
    requires IndexFits(index, files)
    ensures IndexFits(if fc.path in index then index else index[fc.path := |files|], files + [fc])
  {
    var more := files + [fc];
    var index' := if fc.path in index then index else index[fc.path := |files|];
    forall p ensures match Scan(more, p) case Some(i) => p in index' && index'[p] == i case None => p !in index' {
      assert more[..|more| - 1] == files;
      assert Scan(more, p) == if Scan(files, p).Some? then Scan(files, p)
        else if fc.path == p then Some(|files|) else None;
    }
  }

  lemma FileStep(events: seq<Event>, n: nat, policy: Policy)
    requires n < |events| && events[n].OnFile?
    ensures var fc := ChangeOf(events[n].delta, policy);
      && Files(events, n + 1, policy) == Files(events, n, policy) + (if fc.Some? then [fc.value] else [])
      && Collected(events, n + 1, policy) == Collected(events, n, policy) + (if fc.Some? then [fc.value] else [])
  {
    var fc := ChangeOf(events[n].delta, policy);
    if fc.Some? { OwnersExist(events, n, |Files(events, n, policy)|, policy); }
  }

  lemma HunkStep(events: seq<Event>, n: nat, policy: Policy)
    requires n < |events| && events[n].OnHunk?
    ensures Files(events, n + 1, policy) == Files(events, n, policy)
    ensures match Owner(events, n, policy)
      case None => Collected(events, n + 1, policy) == Collected(events, n, policy)
      case Some(i) =>
        var before := Collected(events, n, policy);
        i < |before| && Collected(events, n + 1, policy) ==
          before[i := before[i].(hunks := before[i].hunks + [RangeOf(events[n]).value])]
  {}

  lemma AcceptedFile(events: seq<Event>, n: nat, policy: Policy)
    requires n < |events| && events[n].OnFile? && Accepted(events, n, policy)
    ensures Accepted(events, n + 1, policy)
  {
    FileStep(events, n, policy);
    assert events[..n + 1] == events[..n] + [events[n]];
    var m := n + 1;
    forall i | 0 <= i < |Files(events, m, policy)| ensures |HunksOf(events, m, i, policy)| <= MAX_HUNKS_PER_FILE {
      assert HunksOf(events, m, i, policy) == HunksOf(events, n, i, policy);
      if i >= |Files(events, n, policy)| { OwnersExist(events, n, i, policy); }
    }
  }

  lemma AcceptedHunk(events: seq<Event>, n: nat, policy: Policy)
    requires n < |events| && events[n].OnHunk? && Accepted(events, n, policy)
    ensures Accepted(events, n + 1, policy) <==>
              && HunkCount(events, n) < MAX_TOTAL_HUNKS
              && (Owner(events, n, policy).Some? ==>
                |HunksOf(events, n, Owner(events, n, policy).value, policy)| < MAX_HUNKS_PER_FILE)
  {
    assert events[..n + 1] == events[..n] + [events[n]];
    var owner := Owner(events, n, policy);
    HunkStep(events, n, policy);
    var m := n + 1;
    forall i: nat
      ensures |HunksOf(events, m, i, policy)| == |HunksOf(events, n, i, policy)| + (if owner == Some(i) then 1 else 0)
    {}
    assert owner.Some? ==> owner.value < |Files(events, m, policy)|;
  }

  /** A step that is refused refuses the whole walk. */
  lemma Refused(events: seq<Event>, n: nat, policy: Policy)
    requires n < |events| && !Accepted(events, n + 1, policy)
    ensures !Accepted(events, |events|, policy)
  {
    if Accepted(events, |events|, policy) { AcceptedEarlier(events, n + 1, |events|, policy); }
  }

  /** The file callback. */
  method FileCallback(events: seq<Event>, n: nat, policy: Policy, acc: seq<FileChange>, index: map<string, nat>)
    returns (acc': seq<FileChange>, index': map<string, nat>)
    requires n < |events| && events[n].OnFile? && Accepted(events, n, policy)
    requires acc == Collected(events, n, policy) && IndexFits(index, Files(events, n, policy))
    ensures acc' == Collected(events, n + 1, policy) && IndexFits(index', Files(events, n + 1, policy))
    ensures Accepted(events, n + 1, policy)
  {
    acc', index' := acc, index;
    FileStep(events, n, policy);
    AcceptedFile(events, n, policy);
    var fc := ChangeOf(events[n].delta, policy);
    if fc.Some? {
      IndexStep(index, Files(events, n, policy), fc.value);
      if fc.value.path !in index { index' := index[fc.value.path := |acc|]; }
      acc' := acc + [fc.value];
    }
  }

  /** The hunk callback; the error is the cap it trips. */
  method HunkCallback(events: seq<Event>, n: nat, policy: Policy, acc: seq<FileChange>, index: map<string, nat>,
                      total: nat)
    returns (r: Result<seq<FileChange>, IntakeError>)
    requires n < |events| && events[n].OnHunk? && Accepted(events, n, policy) && total == HunkCount(events, n)
    requires acc == Collected(events, n, policy) && IndexFits(index, Files(events, n, policy))
    ensures r.Ok? <==> Accepted(events, n + 1, policy)
    ensures r.Ok? ==>
      && r.value == Collected(events, n + 1, policy)
      && Files(events, n + 1, policy) == Files(events, n, policy)
  {
    HunkStep(events, n, policy);
    AcceptedHunk(events, n, policy);
    if total + 1 > MAX_TOTAL_HUNKS { return Err(TooManyHunks); }
    r := Ok(acc);
    var OnHunk(delta, newStart, newLines) := events[n];
    if newLines == 0 { return; }
    var path := HeadPath(delta, policy);
    if path.Some? {
      var range := NewRange(newStart, newStart + newLines - 1);
      if range.Some? && path.value in index {
        var i := index[path.value];
        if |acc[i].hunks| >= MAX_HUNKS_PER_FILE { return Err(TooManyInFile(path.value)); }
        r := Ok(acc[i := acc[i].(hunks := acc[i].hunks + [range.value])]);
      }
    }
  }

  /** `collect_file_changes`. */
  method CollectFileChanges(events: seq<Event>, policy: Policy) returns (r: Result<seq<FileChange>, IntakeError>)
    ensures r.Ok? <==> Accepted(events, |events|, policy)
    ensures r.Ok? ==> r.value == Collected(events, |events|, policy)
  {
    var acc: seq<FileChange> := [];
    var index: map<string, nat> := map[];
    var total := 0;
    for n := 0 to |events|
      invariant acc == Collected(events, n, policy) && total == HunkCount(events, n)
      invariant IndexFits(index, Files(events, n, policy)) && Accepted(events, n, policy)
    {
      if !Accepted(events, n + 1, policy) { Refused(events, n, policy); }
      match events[n] {
        case OnFile(_) =>
          acc, index := FileCallback(events, n, policy, acc, index);
        case OnHunk(_, _, _) =>
          var more := HunkCallback(events, n, policy, acc, index, total);
          if more.Err? { return Err(more.error); }
          acc, total := more.value, total + 1;
        case Fault =>
          assert events[..n + 1][n] == Fault;
          return Err(WalkFailed);
      }
    }
    assert events[..|events|] == events;
    r := Ok(acc);
  }
}
