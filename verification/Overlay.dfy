/**
 Writing files into an overlay (`overlay.rs`) and checking a revision out into one (`checkout.rs`).

 The file system is a map from paths below the overlay root to what stands there.  Every primitive
 requires that all proper ancestors of its path are real directories, so a verified body is one that
 never passes through a symbolic link and never leaves the root.  Any primitive may fail (`fails`), and
 `states` keeps every file system a crash could leave behind.
 */
module Overlay {
  import opened Wrappers
  import opened Text
  import opened Decimal
  import opened Paths

  newtype byte = x: int | 0 <= x < 256

  datatype Node = Directory | File(content: seq<byte>) | Symlink(target: string) | Special

  type Fs = map<Path, Node>

  const MAX_SOURCE_BYTES := 1024 * 1024
  const MAX_REL_BYTES := 4096
  const MAX_REL_COMPONENTS := 64
  const MAX_TEMP_ATTEMPTS := 128

  datatype Failure = TooLarge | UnsafePath | SymlinkComponent | NotADirectory | NotRegularFile | Conflict | Io

  // ---- paths ----

  predicate IsAsciiLetter(c: char) { 'a' <= c <= 'z' || 'A' <= c <= 'Z' }

  /** `validate_rel`: the components of a confined relative path. */
  function ValidateRel(rel: string): (r: Result<Path, Failure>)
    ensures r.Ok? ==> r.value != [] && |r.value| <= MAX_REL_COMPONENTS
    ensures r.Ok? ==> forall x :: x in r.value ==> x != "" && x != "." && x != ".." && '/' !in x && '\\' !in x
  {
    if rel == "" || '\\' in rel then Err(UnsafePath)
    else if Bytes(rel) > MAX_REL_BYTES then Err(TooLarge)
    else if |rel| >= 2 && rel[1] == ':' && IsAsciiLetter(rel[0]) then Err(UnsafePath)
    else
      var path := Components(Split(rel, '/'));
      if rel[0] == '/' || ".." in path then Err(UnsafePath)
      else if |path| > MAX_REL_COMPONENTS then Err(TooLarge)
      else if path == [] then Err(UnsafePath)
      else
        ComponentsAreNames(rel, '/');
        Ok(path)
  }

  /** `temp_sibling`. */
  function TempName(name: string, pid: nat, n: nat): (r: string)
    ensures r != name
  {
    var r := "." + name + ".jitgen-tmp." + Show(pid) + "." + Show(n);
    assert |r| > |name|;
    r
  }

  function Sibling(p: Path, name: string): Path
    requires p != []
  {
    Parent(p) + [name]
  }

  function TempPath(dest: Path, pid: nat, n: nat): (r: Path)
    requires dest != []
    ensures |r| == |dest| && r != dest && Parent(r) == Parent(dest)
  {
    var r := Sibling(dest, TempName(dest[|dest| - 1], pid, n));
    assert r[|dest| - 1] != dest[|dest| - 1];
    assert Parent(r) == Parent(dest);
    r
  }

  // ---- what the proofs are about ----

  ghost predicate IsDirectory(fs: Fs, p: Path) {
    p in fs && fs[p].Directory?
  }

  /** All proper ancestors of `p` (the root is one of ours) are directories, not links. */
  ghost predicate Grounded(fs: Fs, p: Path) {
    forall n :: 1 <= n < |p| ==> IsDirectory(fs, p[..n])
  }

  /** No proper ancestor of `p` is taken by anything but a directory. */
  ghost predicate ClearWay(fs: Fs, p: Path) {
    ClearTo(fs, p, |p|)
  }

  ghost predicate ClearTo(fs: Fs, p: Path, n: nat)
    requires n <= |p|
  {
    forall m :: 1 <= m < n && p[..m] in fs ==> fs[p[..m]].Directory?
  }

  ghost predicate LinkOnTheWay(fs: Fs, p: Path) {
    exists n :: 1 <= n < |p| && p[..n] in fs && fs[p[..n]].Symlink?
  }

  ghost function Ancestors(p: Path, n: nat): set<Path>
    requires n <= |p|
  {
    set m | 1 <= m < n :: p[..m]
  }

  /** `fs` with the first ancestors of `p` made where they are missing. */
  ghost function WithParents(fs: Fs, p: Path, n: nat): Fs
    requires n <= |p|
  {
    map q | q in fs.Keys + Ancestors(p, n) :: if q in fs then fs[q] else Directory
  }

  ghost predicate IsTemp(dest: Path, pid: nat, p: Path) {
    dest != [] && exists n :: p == TempPath(dest, pid, n)
  }

  /** One of the names `write_unique_temp` will try is free. */
  ghost predicate SomeTempFree(fs: Fs, dest: Path, pid: nat, counter: nat)
    requires dest != []
  {
    !TempsTaken(fs, dest, pid, counter, MAX_TEMP_ATTEMPTS)
  }

  ghost predicate TempsTaken(fs: Fs, dest: Path, pid: nat, counter: nat, k: nat)
    requires dest != []
  {
    forall n :: counter <= n < counter + k ==> TempPath(dest, pid, n) in fs
  }

  /** When `materialize` succeeds if nothing fails. */
  ghost predicate Accepts(fs: Fs, dest: Path, bytes: seq<byte>, pid: nat, counter: nat)
    requires dest != []
  {
    ClearWay(fs, dest) && if dest in fs then fs[dest] == File(bytes) else SomeTempFree(fs, dest, pid, counter)
  }

  /** What each error of `install` says about the destination it found. */
  ghost predicate ErrorFits(e: Failure, fs: Fs, dest: Path, bytes: seq<byte>) {
    match e
    case Conflict => dest in fs && fs[dest].File? && fs[dest].content != bytes
    case SymlinkComponent => dest in fs && fs[dest].Symlink?
    case NotRegularFile => dest in fs && (fs[dest].Directory? || fs[dest].Special?)
    case Io => true
    case _ => false
  }

  /**
   A state a crash may leave: nothing lost or changed; what is new is a directory on the way to `dest`, a
   temporary sibling, or `dest` itself with all its bytes.
   */
  ghost predicate SafeState(before: Fs, s: Fs, dest: Path, bytes: seq<byte>, pid: nat) {
    && (forall p :: p in before ==> p in s && s[p] == before[p])
    && (forall p :: p in s && p !in before ==>
          || (p in Ancestors(dest, |dest|) && s[p].Directory?)
          || IsTemp(dest, pid, p)
          || (p == dest && s[p] == File(bytes)))
  }

  ghost predicate SafeSince(before: Fs, states: seq<Fs>, from: nat, dest: Path, bytes: seq<byte>, pid: nat) {
    from <= |states| && forall i :: from <= i < |states| ==> SafeState(before, states[i], dest, bytes, pid)
  }

  /** As `SafeState` for `write_confined`: no temporaries, but a file at `dest` may be overwritten or torn. */
  ghost predicate ConfinedState(before: Fs, s: Fs, dest: Path, bytes: seq<byte>) {
    && (forall p :: p in before ==> p in s && (s[p] == before[p] || (p == dest && before[p].File?)))
    && (forall p :: p in s && p !in before ==> p == dest || (p in Ancestors(dest, |dest|) && s[p].Directory?))
    && (dest in s ==> (dest in before && s[dest] == before[dest]) || (s[dest].File? && s[dest].content <= bytes))
  }

  ghost predicate ConfinedSince(before: Fs, states: seq<Fs>, from: nat, dest: Path, bytes: seq<byte>) {
    from <= |states| && forall i :: from <= i < |states| ==> ConfinedState(before, states[i], dest, bytes)
  }

  ghost predicate Installed(fs: Fs, dest: Path, bytes: seq<byte>) {
    Grounded(fs, dest) && dest in fs && fs[dest] == File(bytes)
  }

  // ---- facts about states ----

  lemma ParentStep(fs: Fs, p: Path, n: nat)
    requires 1 <= n < |p|
    ensures p[..n] !in fs ==> WithParents(fs, p, n + 1) == WithParents(fs, p, n)[p[..n] := Directory]
    ensures p[..n] in fs ==> WithParents(fs, p, n + 1) == WithParents(fs, p, n)
    ensures p[..n] in WithParents(fs, p, n) <==> p[..n] in fs
  {
    assert Ancestors(p, n + 1) == Ancestors(p, n) + {p[..n]};
    forall q | q in Ancestors(p, n) ensures q != p[..n] {
      var m :| 1 <= m < n && q == p[..m];
      assert |q| == m;
    }
  }

  lemma ParentsGround(fs: Fs, p: Path, n: nat)
    requires 1 <= n <= |p| && ClearTo(fs, p, n)
    ensures Grounded(WithParents(fs, p, n), p[..n])
  {
    forall m | 1 <= m < n ensures IsDirectory(WithParents(fs, p, n), p[..n][..m]) {
      assert p[..n][..m] == p[..m] && p[..m] in Ancestors(p, n);
    }
  }

  /** Making parents touches neither `dest` nor its siblings, and only adds. */
  lemma ParentsSafe(fs: Fs, p: Path, n: nat, bytes: seq<byte>, pid: nat)
    requires n <= |p|
    ensures SafeState(fs, WithParents(fs, p, n), p, bytes, pid) && ConfinedState(fs, WithParents(fs, p, n), p, bytes)
    ensures forall q :: |q| >= |p| && q in WithParents(fs, p, n) ==> q in fs
  {
    forall q | q in Ancestors(p, n) ensures |q| < |p| && q in Ancestors(p, |p|) {
      var m :| 1 <= m < n && q == p[..m];
    }
  }

  lemma NoParents(fs: Fs, p: Path, bytes: seq<byte>, pid: nat)
    requires p != []
    ensures WithParents(fs, p, 1) == fs && SafeState(fs, fs, p, bytes, pid) && ConfinedState(fs, fs, p, bytes)
  {}

  lemma AllParents(fs: Fs, p: Path)
    requires p != [] && ClearWay(fs, p)
    ensures Grounded(WithParents(fs, p, |p|), p)
  {
    ParentsGround(fs, p, |p|);
    assert p[..|p|] == p;
  }

  lemma ParentsPresent(fs: Fs, p: Path)
    requires Grounded(fs, p)
    ensures WithParents(fs, p, |p|) == fs
  {
    forall q | q in Ancestors(p, |p|) ensures q in fs {
      var m :| 1 <= m < |p| && q == p[..m];
      assert IsDirectory(fs, p[..m]);
    }
  }

  lemma TempSafe(before: Fs, s: Fs, dest: Path, bytes: seq<byte>, pid: nat, n: nat, content: seq<byte>)
    requires SafeState(before, s, dest, bytes, pid) && dest != []
    requires TempPath(dest, pid, n) !in before
    ensures SafeState(before, s[TempPath(dest, pid, n) := File(content)], dest, bytes, pid)
    ensures SafeState(before, s - {TempPath(dest, pid, n)}, dest, bytes, pid)
  {}

  lemma TakenTemp(fs: Fs, dest: Path, pid: nat, counter: nat, k: nat)
    requires dest != [] && TempsTaken(fs, dest, pid, counter, k) && TempPath(dest, pid, counter + k) in fs
    ensures TempsTaken(fs, dest, pid, counter, k + 1)
  {}

  lemma FreeTemp(fs: Fs, dest: Path, pid: nat, counter: nat, k: nat, n: nat)
    requires dest != [] && counter <= n < counter + k && TempPath(dest, pid, n) !in fs
    ensures !TempsTaken(fs, dest, pid, counter, k)
  {}

  /** Ancestors are shorter, so changing `q` leaves them alone. */
  lemma GroundedBeside(s: Fs, p: Path, q: Path, node: Node)
    requires Grounded(s, p) && |q| >= |p|
    ensures Grounded(s[q := node], p) && Grounded(s - {q}, p)
  {
    forall n | 1 <= n < |p| ensures IsDirectory(s[q := node], p[..n]) && IsDirectory(s - {q}, p[..n]) {
      assert IsDirectory(s, p[..n]);
    }
  }

  lemma SiblingGrounded(s: Fs, p: Path, q: Path)
    requires p != [] && q != [] && Parent(p) == Parent(q) && Grounded(s, p)
    ensures Grounded(s, q)
  {
    forall m | 1 <= m < |q| ensures IsDirectory(s, q[..m]) {
      assert |Parent(p)| == |Parent(q)|;
      assert q[..m] == Parent(q)[..m] && p[..m] == Parent(p)[..m];
      assert IsDirectory(s, p[..m]);
    }
  }

  lemma TempGrounded(s: Fs, dest: Path, pid: nat, n: nat)
    requires dest != [] && Grounded(s, dest)
    ensures Grounded(s, TempPath(dest, pid, n))
  {
    SiblingGrounded(s, dest, TempPath(dest, pid, n));
  }

  lemma TempReady(s: Fs, dest: Path, pid: nat, n: nat)
    requires dest != [] && Grounded(s, dest)
    ensures Grounded(s, TempPath(dest, pid, n))
      && Grounded(s[TempPath(dest, pid, n) := File([])], TempPath(dest, pid, n))
  {
    TempGrounded(s, dest, pid, n);
    GroundedBeside(s, TempPath(dest, pid, n), TempPath(dest, pid, n), File([]));
  }

  /** Writing a fresh temporary and renaming it over `dest` amounts to writing `dest`. */
  lemma RenameResult(s: Fs, temp: Path, dest: Path, node: Node)
    requires temp !in s && temp != dest
    ensures (s[temp := node] - {temp})[dest := node] == s[dest := node]
    ensures s[temp := node] - {temp} == s
  {}

  lemma InstallSafe(before: Fs, s: Fs, dest: Path, bytes: seq<byte>, pid: nat)
    requires SafeState(before, s, dest, bytes, pid) && dest !in s
    ensures SafeState(before, s[dest := File(bytes)], dest, bytes, pid)
  {}

  lemma AcceptsThroughParents(fs: Fs, dest: Path, bytes: seq<byte>, pid: nat, counter: nat)
    requires dest != [] && ClearWay(fs, dest)
    ensures var mid := WithParents(fs, dest, |dest|);
      && (dest in mid <==> dest in fs) && (dest in fs ==> mid[dest] == fs[dest])
      && (SomeTempFree(mid, dest, pid, counter) <==> SomeTempFree(fs, dest, pid, counter))
  {
    var mid := WithParents(fs, dest, |dest|);
    ParentsSafe(fs, dest, |dest|, bytes, pid);
    forall n ensures TempPath(dest, pid, n) in mid <==> TempPath(dest, pid, n) in fs {
      assert |TempPath(dest, pid, n)| >= |dest|;
    }
  }

  /** Where `bytes` already stand at `dest`, all parents do too. */
  lemma InstalledSettled(fs: Fs, dest: Path, bytes: seq<byte>)
    requires Installed(fs, dest, bytes)
    ensures ClearWay(fs, dest) && WithParents(fs, dest, |dest|)[dest := File(bytes)] == fs
  {
    ParentsPresent(fs, dest);
    forall n | 1 <= n < |dest| ensures IsDirectory(fs, dest[..n]) {}
  }

  lemma MoreSafe(before: Fs, states: seq<Fs>, from: nat, dest: Path, bytes: seq<byte>, pid: nat, s: Fs)
    requires SafeSince(before, states, from, dest, bytes, pid) && SafeState(before, s, dest, bytes, pid)
    ensures SafeSince(before, states + [s], from, dest, bytes, pid)
  {}

  lemma AfterCreate(before: Fs, states: seq<Fs>, from: nat, dest: Path, bytes: seq<byte>, pid: nat, n: nat, s0: Fs,
                    s: Fs)
    requires dest != [] && SafeSince(before, states, from, dest, bytes, pid) && SafeState(before, s0, dest, bytes, pid)
    requires s == s0 || (TempPath(dest, pid, n) !in s0 && s == s0[TempPath(dest, pid, n) := File([])])
    ensures SafeState(before, s, dest, bytes, pid) && SafeSince(before, states + [s], from, dest, bytes, pid)
  {
    if s != s0 { TempSafe(before, s0, dest, bytes, pid, n, []); }
    MoreSafe(before, states, from, dest, bytes, pid, s);
  }

  /** Both states of filling temporary `n` of `s0` are safe. */
  lemma Filled(before: Fs, states: seq<Fs>, from: nat, dest: Path, bytes: seq<byte>, pid: nat, n: nat, s0: Fs,
               part: seq<byte>, ok: bool)
    requires dest != [] && SafeSince(before, states, from, dest, bytes, pid) && SafeState(before, s0, dest, bytes, pid)
    requires TempPath(dest, pid, n) !in s0
    ensures var temp := TempPath(dest, pid, n); var s1 := s0[temp := File([])];
      var fs := s1[temp := File(if ok then bytes else part)];
      && fs == s0[temp := File(if ok then bytes else part)] && SafeState(before, fs, dest, bytes, pid)
      && SafeSince(before, states + [s1[temp := File(part)], fs], from, dest, bytes, pid)
  {
    var temp := TempPath(dest, pid, n);
    var s1 := s0[temp := File([])];
    var torn := s1[temp := File(part)];
    var fs := s1[temp := File(if ok then bytes else part)];
    assert torn == s0[temp := File(part)];
    assert fs == s0[temp := File(if ok then bytes else part)];
    TempSafe(before, s0, dest, bytes, pid, n, part);
    TempSafe(before, s0, dest, bytes, pid, n, bytes);
    MoreSafe(before, states, from, dest, bytes, pid, torn);
    MoreSafe(before, states + [torn], from, dest, bytes, pid, fs);
    assert states + [torn, fs] == states + [torn] + [fs];
  }

  /** Overwriting a file, or making one where nothing was. */
  lemma WrittenConfined(before: Fs, s: Fs, dest: Path, bytes: seq<byte>, part: seq<byte>)
    requires ConfinedState(before, s, dest, bytes) && (dest in s ==> s[dest].File?) && part <= bytes
    ensures ConfinedState(before, s[dest := File(part)], dest, bytes)
  {}

  lemma MoreConfined(before: Fs, states: seq<Fs>, from: nat, dest: Path, bytes: seq<byte>, s: Fs)
    requires ConfinedSince(before, states, from, dest, bytes) && ConfinedState(before, s, dest, bytes)
    ensures ConfinedSince(before, states + [s], from, dest, bytes)
  {}

  class Disk {
    const fails: nat -> bool
    /** How much of an interrupted write reaches the disk. */
    const torn: nat -> nat
    const pid: nat
    var tick: nat
    /** The process-wide temporary-name counter. */
    var counter: nat
    var fs: Fs
    ghost var states: seq<Fs>

    constructor (fs: Fs, pid: nat, counter: nat, fails: nat -> bool, torn: nat -> nat)
      ensures this.fs == fs && this.pid == pid && this.counter == counter
      ensures this.fails == fails && this.torn == torn && states == []
    {
      this.fs, this.pid, this.counter, this.fails, this.torn, tick, states := fs, pid, counter, fails, torn, 0, [];
    }

    ghost predicate Reliable() {
      forall n :: !fails(n)
    }

    /** Since `from`, every state was safe with respect to `before`. */
    ghost predicate Safe(before: Fs, from: nat, dest: Path, bytes: seq<byte>)
      reads this
    {
      SafeState(before, fs, dest, bytes, pid) && SafeSince(before, states, from, dest, bytes, pid)
    }

    ghost predicate Confined(before: Fs, from: nat, dest: Path, bytes: seq<byte>)
      reads this
    {
      ConfinedState(before, fs, dest, bytes) && ConfinedSince(before, states, from, dest, bytes)
    }

    /** Whether the next primitive works. */
    method Works() returns (ok: bool)
      modifies `tick
      ensures Reliable() ==> ok
    {
      ok := !fails(tick);
      tick := tick + 1;
    }

    /** `symlink_metadata`; `None` inside `Ok` is "not found". */
    method Stat(p: Path) returns (r: Result<Option<Node>, Failure>)
      requires Grounded(fs, p)
      modifies `tick
      ensures r.Ok? ==> r.value == if p in fs then Some(fs[p]) else None
      ensures r.Err? ==> r.error == Io && !Reliable()
    {
      var ok := Works();
      r := if !ok then Err(Io) else Ok(if p in fs then Some(fs[p]) else None);
    }

    /** `read` of a regular file. */
    method Read(p: Path) returns (r: Result<seq<byte>, Failure>)
      requires Grounded(fs, p) && p in fs && fs[p].File?
      modifies `tick
      ensures r.Ok? ==> r.value == fs[p].content
      ensures r.Err? ==> r.error == Io && !Reliable()
    {
      var ok := Works();
      r := if !ok then Err(Io) else Ok(fs[p].content);
    }

    /** `create_dir`. */
    method CreateDir(p: Path) returns (ok: bool)
      requires Grounded(fs, p) && p !in fs
      modifies `tick, `fs, `states
      ensures fs == (if ok then old(fs)[p := Directory] else old(fs)) && states == old(states) + [fs]
      ensures Reliable() ==> ok
    {
      ok := Works();
      if ok { fs := fs[p := Directory]; }
      states := states + [fs];
    }

    /** `open` with `create_new`: fails on anything that exists, a link included. */
    method CreateNew(p: Path) returns (r: Result<bool, Failure>)
      requires Grounded(fs, p)
      modifies `tick, `fs, `states
      ensures r.Ok? ==> (r.value <==> p !in old(fs))
      ensures r.Err? ==> r.error == Io && !Reliable()
      ensures fs == (if r == Ok(true) then old(fs)[p := File([])] else old(fs)) && states == old(states) + [fs]
    {
      var ok := Works();
      if !ok {
        r := Err(Io);
      } else if p in fs {
        r := Ok(false);
      } else {
        fs := fs[p := File([])];
        r := Ok(true);
      }
      states := states + [fs];
    }

    /** `write_all` and `sync_all` on a file of ours: any prefix may be on disk before it is done or if it fails. */
    method WriteAll(p: Path, bytes: seq<byte>) returns (ok: bool, ghost part: seq<byte>)
      requires Grounded(fs, p) && (p in fs ==> fs[p].File?)
      modifies `tick, `fs, `states
      ensures part <= bytes && fs == old(fs)[p := File(if ok then bytes else part)]
      ensures states == old(states) + [old(fs)[p := File(part)], fs]
      ensures Reliable() ==> ok
    {
      part := if torn(tick) < |bytes| then bytes[..torn(tick)] else bytes;
      fs := fs[p := File(if torn(tick) < |bytes| then bytes[..torn(tick)] else bytes)];
      states := states + [fs];
      ok := Works();
      if ok { fs := fs[p := File(bytes)]; }
      states := states + [fs];
    }

    /** `rename`. */
    method Rename(from: Path, to: Path) returns (ok: bool)
      requires Grounded(fs, from) && Grounded(fs, to) && from in fs && fs[from].File? && from != to
      modifies `tick, `fs, `states
      ensures fs == (if ok then (old(fs) - {from})[to := old(fs)[from]] else old(fs)) && states == old(states) + [fs]
      ensures Reliable() ==> ok
    {
      ok := Works();
      if ok { fs := (fs - {from})[to := fs[from]]; }
      states := states + [fs];
    }

    /** `remove_file`, result ignored. */
    method Remove(p: Path)
      requires Grounded(fs, p) && p in fs && fs[p].File?
      modifies `tick, `fs, `states
      ensures fs == old(fs) - {p} || fs == old(fs)
      ensures states == old(states) + [fs]
    {
      var ok := Works();
      if ok { fs := fs - {p}; }
      states := states + [fs];
    }

    /** One component of `create_parents`. */
    method OneParent(dest: Path, n: nat, ghost was: Fs, ghost from: nat, ghost bytes: seq<byte>)
      returns (r: Result<(), Failure>)
      requires 1 <= n < |dest| && fs == WithParents(was, dest, n) && Grounded(fs, dest[..n])
      requires Safe(was, from, dest, bytes) && Confined(was, from, dest, bytes)
      modifies `tick, `fs, `states
      ensures Safe(was, from, dest, bytes) && Confined(was, from, dest, bytes)
      ensures r.Ok? ==> fs == WithParents(was, dest, n + 1) && (dest[..n] in was ==> was[dest[..n]].Directory?)
      ensures Reliable() && (dest[..n] in was ==> was[dest[..n]].Directory?) ==> r.Ok?
      ensures r == Err(SymlinkComponent) ==> dest[..n] in was && was[dest[..n]].Symlink?
      ensures old(states) <= states && (IsDirectory(was, dest[..n]) ==> states == old(states))
      ensures r.Err? ==> r.error in {Io, SymlinkComponent, NotADirectory}
    {
      ParentStep(was, dest, n);
      var node := Stat(dest[..n]);
      match node {
        case Err(e) => r := Err(e);
        case Ok(None) =>
          ghost var upTo := states;
          var made := CreateDir(dest[..n]);
          ParentsSafe(was, dest, n + 1, bytes, pid);
          MoreSafe(was, upTo, from, dest, bytes, pid, fs);
          MoreConfined(was, upTo, from, dest, bytes, fs);
          r := if made then Ok(()) else Err(Io);
        case Ok(Some(Directory)) => r := Ok(());
        case Ok(Some(Symlink(_))) => r := Err(SymlinkComponent);
        case Ok(Some(_)) => r := Err(NotADirectory);
      }
    }

    /** `create_parents`, the same in both files. */
    method CreateParents(dest: Path, ghost bytes: seq<byte>) returns (r: Result<(), Failure>)
      requires dest != []
      modifies `tick, `fs, `states
      ensures Safe(old(fs), |old(states)|, dest, bytes) && Confined(old(fs), |old(states)|, dest, bytes)
        && old(states) <= states
      ensures r.Ok? ==> ClearWay(old(fs), dest) && fs == WithParents(old(fs), dest, |dest|) && Grounded(fs, dest)
      ensures Reliable() && ClearWay(old(fs), dest) ==> r.Ok?
      ensures r == Err(SymlinkComponent) ==> LinkOnTheWay(old(fs), dest)
      ensures Grounded(old(fs), dest) ==> states == old(states)
      ensures r.Err? ==> r.error in {Io, SymlinkComponent, NotADirectory}
    {
      ghost var was, from := fs, |states|;
      NoParents(was, dest, bytes, pid);
      for n := 1 to |dest|
        invariant fs == WithParents(was, dest, n)
        invariant Safe(was, from, dest, bytes) && Confined(was, from, dest, bytes)
        invariant ClearTo(was, dest, n)
        invariant old(states) <= states && (Grounded(was, dest) ==> states == old(states))
      {
        ParentsGround(was, dest, n);
        r := OneParent(dest, n, was, from, bytes);
        if r.Err? { return; }
      }
      AllParents(was, dest);
      r := Ok(());
    }

    /** One attempt of `write_unique_temp`: `Ok(false)` is a name collision. */
    method TryTemp(dest: Path, bytes: seq<byte>, ghost was: Fs, ghost from: nat)
      returns (r: Result<bool, Failure>, n: nat)
      requires dest != [] && Grounded(fs, dest) && Safe(was, from, dest, bytes)
      modifies `tick, `counter, `fs, `states
      ensures Safe(was, from, dest, bytes) && n == old(counter) && counter == n + 1
      ensures r.Ok? ==> (r.value <==> TempPath(dest, pid, n) !in old(fs))
      ensures r.Ok? ==> fs == if r.value then old(fs)[TempPath(dest, pid, n) := File(bytes)] else old(fs)
      ensures r.Err? ==> !Reliable() && r.error == Io
    {
      ghost var s0 := fs;
      r, n := CreateTemp(dest, bytes, was, from);
      if r == Ok(true) {
        var written := FillTemp(TempPath(dest, pid, n), dest, bytes, n, s0, was, from);
        r := if written then Ok(true) else Err(Io);
      }
    }

    /** `temp_sibling` and the exclusive creation of that file. */
    method CreateTemp(dest: Path, ghost bytes: seq<byte>, ghost was: Fs, ghost from: nat)
      returns (r: Result<bool, Failure>, n: nat)
      requires dest != [] && Grounded(fs, dest) && Safe(was, from, dest, bytes)
      modifies `tick, `counter, `fs, `states
      ensures Safe(was, from, dest, bytes) && n == old(counter) && counter == n + 1
      ensures r.Ok? ==> (r.value <==> TempPath(dest, pid, n) !in old(fs))
      ensures fs == if r == Ok(true) then old(fs)[TempPath(dest, pid, n) := File([])] else old(fs)
      ensures r == Ok(true) ==> Grounded(fs, TempPath(dest, pid, n))
      ensures r.Err? ==> !Reliable() && r.error == Io
    {
      n := counter;
      counter := counter + 1;
      var temp := TempPath(dest, pid, n);
      ghost var s0, l0 := fs, states;
      TempReady(s0, dest, pid, n);
      r := CreateNew(temp);
      AfterCreate(was, l0, from, dest, bytes, pid, n, s0, fs);
    }

    /** Fill the temporary just created; on failure take it away again. */
    method FillTemp(temp: Path, dest: Path, bytes: seq<byte>, ghost n: nat, ghost s0: Fs, ghost was: Fs,
                    ghost from: nat)
      returns (ok: bool)
      requires dest != [] && temp == TempPath(dest, pid, n) && temp !in s0 && fs == s0[temp := File([])]
        && Grounded(fs, temp)
      requires Safe(was, from, dest, bytes) && SafeState(was, s0, dest, bytes, pid)
      modifies `tick, `fs, `states
      ensures Safe(was, from, dest, bytes)
      ensures ok ==> fs == s0[temp := File(bytes)]
      ensures Reliable() ==> ok
    {
      ghost var l0 := states;
      ghost var part;
      ok, part := WriteAll(temp, bytes);
      Filled(was, l0, from, dest, bytes, pid, n, s0, part, ok);
      if !ok { DropTemp(temp, dest, bytes, n, s0, was, from); }
    }

    method DropTemp(temp: Path, dest: Path, ghost bytes: seq<byte>, ghost n: nat, ghost s0: Fs, ghost was: Fs,
                    ghost from: nat)
      requires dest != [] && temp == TempPath(dest, pid, n) && temp !in s0 && temp in fs && fs[temp].File?
      requires fs == s0[temp := fs[temp]] && Grounded(s0, temp)
      requires Safe(was, from, dest, bytes) && SafeState(was, s0, dest, bytes, pid)
      modifies `tick, `fs, `states
      ensures Safe(was, from, dest, bytes)
    {
      ghost var l0 := states;
      GroundedBeside(s0, temp, temp, fs[temp]);
      RenameResult(s0, temp, dest, fs[temp]);
      Remove(temp);
      MoreSafe(was, l0, from, dest, bytes, pid, fs);
    }

    /** `write_unique_temp`. */
    method WriteUniqueTemp(dest: Path, bytes: seq<byte>, ghost was: Fs, ghost from: nat)
      returns (r: Result<nat, Failure>)
      requires dest != [] && Grounded(fs, dest) && Safe(was, from, dest, bytes)
      modifies `tick, `counter, `fs, `states
      ensures Safe(was, from, dest, bytes)
      ensures r.Ok? ==>
        && TempPath(dest, pid, r.value) !in old(fs)
        && fs == old(fs)[TempPath(dest, pid, r.value) := File(bytes)]
      ensures Reliable() ==> (r.Ok? <==> SomeTempFree(old(fs), dest, pid, old(counter)))
      ensures r.Err? ==> r.error == Io
    {
      ghost var s0, c0 := fs, counter;
      for k := 0 to MAX_TEMP_ATTEMPTS
        invariant fs == s0 && counter == c0 + k && Safe(was, from, dest, bytes)
        invariant TempsTaken(s0, dest, pid, c0, k)
      {
        var made, n := TryTemp(dest, bytes, was, from);
        match made {
          case Ok(true) =>
            FreeTemp(s0, dest, pid, c0, MAX_TEMP_ATTEMPTS, n);
            return Ok(n);
          case Ok(false) => TakenTemp(s0, dest, pid, c0, k);
          case Err(e) => return Err(e);
        }
      }
      r := Err(Io);
    }

    /** `install`. */
    method Install(dest: Path, bytes: seq<byte>, ghost was: Fs, ghost from: nat) returns (r: Result<(), Failure>)
      requires dest != [] && Grounded(fs, dest) && Safe(was, from, dest, bytes)
      modifies `tick, `counter, `fs, `states
      ensures Safe(was, from, dest, bytes)
      ensures r.Ok? ==> fs == old(fs)[dest := File(bytes)]
      ensures dest in old(fs) ==> fs == old(fs) && states == old(states)
      ensures Reliable() ==> (r.Ok? <==>
                if dest in old(fs) then old(fs)[dest] == File(bytes)
                else SomeTempFree(old(fs), dest, pid, old(counter)))
      ensures r.Err? ==> ErrorFits(r.error, old(fs), dest, bytes)
    {
      var node := Stat(dest);
      match node {
        case Err(e) => r := Err(e);
        case Ok(Some(File(content))) =>
          if |content| != |bytes| { return Err(Conflict); }
          r := Existing(dest, bytes);
        case Ok(Some(Symlink(_))) => r := Err(SymlinkComponent);
        case Ok(Some(_)) => r := Err(NotRegularFile);
        case Ok(None) => r := InstallNew(dest, bytes, was, from);
      }
    }

    /** `read_regular` and the comparison; equal digests mean equal contents. */
    method Existing(dest: Path, bytes: seq<byte>) returns (r: Result<(), Failure>)
      requires Grounded(fs, dest) && dest in fs && fs[dest].File?
      modifies `tick
      ensures r.Ok? ==> fs[dest] == File(bytes)
      ensures r.Err? ==> (r.error == Conflict && fs[dest] != File(bytes)) || (r.error == Io && !Reliable())
    {
      var again := Stat(dest);
      if again.Err? { return Err(again.error); }
      var existing := Read(dest);
      if existing.Err? { return Err(existing.error); }
      r := if existing.value != bytes then Err(Conflict) else Ok(());
    }

    /** The part of `install` past the existing-file cases. */
    method InstallNew(dest: Path, bytes: seq<byte>, ghost was: Fs, ghost from: nat) returns (r: Result<(), Failure>)
      requires dest != [] && dest !in fs && Grounded(fs, dest) && Safe(was, from, dest, bytes)
      modifies `tick, `counter, `fs, `states
      ensures Safe(was, from, dest, bytes)
      ensures r.Ok? ==> fs == old(fs)[dest := File(bytes)]
      ensures Reliable() ==> (r.Ok? <==> SomeTempFree(old(fs), dest, pid, old(counter)))
      ensures r.Err? ==> r.error == Io
    {
      ghost var s0 := fs;
      var made := WriteUniqueTemp(dest, bytes, was, from);
      if made.Err? { return Err(made.error); }
      r := MoveIn(made.value, dest, bytes, s0, was, from);
    }

    method MoveIn(n: nat, dest: Path, bytes: seq<byte>, ghost s0: Fs, ghost was: Fs, ghost from: nat)
      returns (r: Result<(), Failure>)
      requires dest != [] && dest !in s0 && Grounded(s0, dest) && TempPath(dest, pid, n) !in s0
      requires fs == s0[TempPath(dest, pid, n) := File(bytes)]
      requires SafeState(was, s0, dest, bytes, pid) && Safe(was, from, dest, bytes)
      modifies `tick, `fs, `states
      ensures Safe(was, from, dest, bytes)
      ensures r.Ok? ==> fs == s0[dest := File(bytes)]
      ensures r.Err? ==> r.error == Io && !Reliable()
    {
      var temp := TempPath(dest, pid, n);
      ghost var l0 := states;
      TempGrounded(s0, dest, pid, n);
      GroundedBeside(s0, dest, temp, File(bytes));
      GroundedBeside(s0, temp, temp, File(bytes));
      RenameResult(s0, temp, dest, File(bytes));
      InstallSafe(was, s0, dest, bytes, pid);
      var moved := Rename(temp, dest);
      MoreSafe(was, l0, from, dest, bytes, pid, fs);
      if moved {
        r := Ok(());
      } else {
        DropTemp(temp, dest, bytes, n, s0, was, from);
        r := Err(Io);
      }
    }

    /** `Overlay::materialize` for a candidate at `rel`. */
    method Materialize(rel: string, bytes: seq<byte>) returns (r: Result<Path, Failure>)
      modifies `tick, `counter, `fs, `states
      ensures |bytes| > MAX_SOURCE_BYTES || ValidateRel(rel).Err? ==> r.Err? && fs == old(fs) && states == old(states)
      ensures |bytes| <= MAX_SOURCE_BYTES && ValidateRel(rel).Ok? ==>
                && Safe(old(fs), |old(states)|, ValidateRel(rel).value, bytes)
                && (Reliable() ==> (r.Ok? <==> Accepts(old(fs), ValidateRel(rel).value, bytes, pid, old(counter))))
                && (Installed(old(fs), ValidateRel(rel).value, bytes) ==> fs == old(fs) && states == old(states))
      ensures r.Ok? ==>
                && ValidateRel(rel) == r && Installed(fs, r.value, bytes)
                && fs == WithParents(old(fs), r.value, |r.value|)[r.value := File(bytes)]
      ensures r == Err(Conflict) ==>
                && ValidateRel(rel).Ok? && ValidateRel(rel).value in old(fs)
                && old(fs)[ValidateRel(rel).value].File? && old(fs)[ValidateRel(rel).value].content != bytes
    {
      if |bytes| > MAX_SOURCE_BYTES { return Err(TooLarge); }
      r := ValidateRel(rel);
      if r.Err? { return; }
      var placed := Place(r.value, bytes);
      if placed.Err? { r := Err(placed.error); }
    }

    /** `materialize` past the lexical checks. */
    method Place(dest: Path, bytes: seq<byte>) returns (r: Result<(), Failure>)
      requires dest != []
      modifies `tick, `counter, `fs, `states
      ensures Safe(old(fs), |old(states)|, dest, bytes)
      ensures Reliable() ==> (r.Ok? <==> Accepts(old(fs), dest, bytes, pid, old(counter)))
      ensures Installed(old(fs), dest, bytes) ==> fs == old(fs) && states == old(states)
      ensures r.Ok? ==> Installed(fs, dest, bytes) && fs == WithParents(old(fs), dest, |dest|)[dest := File(bytes)]
      ensures r == Err(Conflict) ==> dest in old(fs) && old(fs)[dest].File? && old(fs)[dest].content != bytes
    {
      ghost var was, from := fs, |states|;
      r := CreateParents(dest, bytes);
      if r.Err? {
        if Installed(was, dest, bytes) { ParentsPresent(was, dest); }
        return;
      }
      AcceptsThroughParents(was, dest, bytes, pid, counter);
      ghost var mid := fs;
      if Installed(was, dest, bytes) { ParentsPresent(was, dest); }
      r := Install(dest, bytes, was, from);
      GroundedBeside(mid, dest, dest, File(bytes));
    }

    /** `write_confined`. */
    method WriteConfined(dest: Path, bytes: seq<byte>) returns (r: Result<(), Failure>)
      requires dest != []
      modifies `tick, `fs, `states
      ensures Confined(old(fs), |old(states)|, dest, bytes) && old(states) <= states
      ensures r.Ok? ==> Installed(fs, dest, bytes) && fs == WithParents(old(fs), dest, |dest|)[dest := File(bytes)]
      ensures Reliable() ==> (r.Ok? <==> ClearWay(old(fs), dest) && (dest in old(fs) ==> old(fs)[dest].File?))
      ensures Installed(old(fs), dest, bytes) ==> fs == old(fs) && states == old(states)
      ensures r.Err? ==> r.error in {Io, SymlinkComponent, NotADirectory, NotRegularFile}
    {
      ghost var was, from := fs, |states|;
      if Installed(was, dest, bytes) { InstalledSettled(was, dest, bytes); }
      r := CreateParents(dest, bytes);
      if r.Err? { return; }
      AcceptsThroughParents(was, dest, bytes, pid, counter);
      var node := Stat(dest);
      match node {
        case Err(e) => return Err(e);
        case Ok(None) =>
        case Ok(Some(File(content))) =>
          if |content| == |bytes| {
            var existing := Read(dest);
            if existing.Err? { return Err(existing.error); }
            if existing.value == bytes { return Ok(()); }
          }
        case Ok(Some(Symlink(_))) => return Err(SymlinkComponent);
        case Ok(Some(_)) => return Err(NotRegularFile);
      }
      r := Overwrite(dest, bytes, was, from);
    }

    /** `fs::write`: truncate, then write. */
    method Overwrite(dest: Path, bytes: seq<byte>, ghost was: Fs, ghost from: nat) returns (r: Result<(), Failure>)
      requires dest != [] && Grounded(fs, dest) && (dest in fs ==> fs[dest].File?) && Confined(was, from, dest, bytes)
      modifies `tick, `fs, `states
      ensures Confined(was, from, dest, bytes) && old(states) <= states
      ensures r.Ok? ==> fs == old(fs)[dest := File(bytes)] && Installed(fs, dest, bytes)
      ensures r.Err? ==> r.error == Io && !Reliable()
    {
      ghost var s0, l0 := fs, states;
      ghost var part;
      var ok;
      GroundedBeside(s0, dest, dest, File(bytes));
      ok, part := WriteAll(dest, bytes);
      WrittenConfined(was, s0, dest, bytes, part);
      WrittenConfined(was, s0, dest, bytes, bytes);
      MoreConfined(was, l0, from, dest, bytes, s0[dest := File(part)]);
      MoreConfined(was, l0 + [s0[dest := File(part)]], from, dest, bytes, fs);
      assert l0 + [s0[dest := File(part)], fs] == l0 + [s0[dest := File(part)]] + [fs];
      r := if ok then Ok(()) else Err(Io);
    }
  }
}
