/** Checking out a revision's blobs into an overlay under byte caps (`checkout.rs`). */
module Checkout {
  import opened Wrappers
  import opened Overlay
  import opened Paths

  const U64_MAX := 0xffff_ffff_ffff_ffff

  /** What the object database says of one path: its header size, and its bytes when they can be read. */
  datatype Blob = Blob(path: Path, size: Option<nat>, bytes: Option<seq<byte>>)

  datatype Caps = Caps(perFile: nat, total: nat)

  datatype CheckoutError = OverFile(i: nat) | OverTotal(i: nat) | Blocked(i: nat, cause: Failure)

  function Saturated(n: nat): nat {
    if n <= U64_MAX then n else U64_MAX
  }

  function SizeOf(b: Blob): nat {
    if b.size.Some? then b.size.value else 0
  }

  function TotalSize(blobs: seq<Blob>): nat {
    if blobs == [] then 0 else TotalSize(blobs[..|blobs| - 1]) + SizeOf(blobs[|blobs| - 1])
  }

  /** The blob is there and readable, so it is written. */
  predicate Loaded(b: Blob) {
    b.size.Some? && b.bytes.Some?
  }

  function LoadedCount(blobs: seq<Blob>): nat {
    if blobs == [] then 0
    else LoadedCount(blobs[..|blobs| - 1]) + if Loaded(blobs[|blobs| - 1]) then 1 else 0
  }

  predicate WithinCaps(blobs: seq<Blob>, caps: Caps) {
    && (forall i :: 0 <= i < |blobs| ==> SizeOf(blobs[i]) <= caps.perFile)
    && Saturated(TotalSize(blobs)) <= caps.total
  }

  ghost predicate OnSomeWay(p: Path, blobs: seq<Blob>) {
    exists b :: b in blobs && p in Ancestors(b.path, |b.path|)
  }

  ghost predicate IsBlobPath(p: Path, blobs: seq<Blob>) {
    exists b :: b in blobs && p == b.path
  }

  /** Nothing is lost, only files at blob paths change, only blobs and directories leading to them appear. */
  ghost predicate CheckoutState(before: Fs, s: Fs, blobs: seq<Blob>) {
    && (forall p :: p in before ==>
      p in s && (s[p] == before[p] || (IsBlobPath(p, blobs) && before[p].File? && s[p].File?)))
    && (forall p :: p in s && p !in before ==>
          (IsBlobPath(p, blobs) && s[p].File?) || (OnSomeWay(p, blobs) && s[p].Directory?))
  }

  ghost predicate CheckoutSince(before: Fs, states: seq<Fs>, from: nat, blobs: seq<Blob>) {
    from <= |states| && forall i :: from <= i < |states| ==> CheckoutState(before, states[i], blobs)
  }

  ghost predicate AllInstalled(fs: Fs, blobs: seq<Blob>, n: nat)
    requires n <= |blobs|
  {
    forall i :: 0 <= i < n && Loaded(blobs[i]) ==> Installed(fs, blobs[i].path, blobs[i].bytes.value)
  }

  /** A tree lists each path once. */
  ghost predicate DistinctPaths(blobs: seq<Blob>) {
    forall i, j :: 0 <= i < j < |blobs| ==> blobs[i].path != blobs[j].path
  }

  lemma {:induction false} TotalGrows(blobs: seq<Blob>, n: nat)
    requires n <= |blobs|
    ensures TotalSize(blobs[..n]) <= TotalSize(blobs)
  {
    if n < |blobs| {
      TotalGrows(blobs[..|blobs| - 1], n);
      assert blobs[..|blobs| - 1][..n] == blobs[..n];
    } else {
      assert blobs[..n] == blobs;
    }
  }

  lemma TotalStep(blobs: seq<Blob>, n: nat)
    requires n < |blobs|
    ensures TotalSize(blobs[..n + 1]) == TotalSize(blobs[..n]) + SizeOf(blobs[n])
    ensures LoadedCount(blobs[..n + 1]) == LoadedCount(blobs[..n]) + if Loaded(blobs[n]) then 1 else 0
    ensures TotalSize(blobs[..n + 1]) <= TotalSize(blobs)
  {
    assert blobs[..n + 1][..n] == blobs[..n];
    TotalGrows(blobs, n + 1);
  }

  /** One confined write, seen from before the whole checkout. */
  lemma ConfinedWithin(before: Fs, mid: Fs, s: Fs, blobs: seq<Blob>, b: Blob, bytes: seq<byte>)
    requires CheckoutState(before, mid, blobs) && b in blobs && ConfinedState(mid, s, b.path, bytes)
    ensures CheckoutState(before, s, blobs)
  {
    assert IsBlobPath(b.path, blobs);
    forall p | p in s && p !in mid && p != b.path ensures OnSomeWay(p, blobs) && s[p].Directory? {}
  }

  lemma StatesWithin(before: Fs, mid: Fs, states: seq<Fs>, k: nat, from: nat, blobs: seq<Blob>, b: Blob,
                     bytes: seq<byte>)
    requires k <= |states| && CheckoutSince(before, states[..k], from, blobs)
    requires CheckoutState(before, mid, blobs) && b in blobs && ConfinedSince(mid, states, k, b.path, bytes)
    ensures CheckoutSince(before, states, from, blobs)
  {
    forall i | from <= i < |states| ensures CheckoutState(before, states[i], blobs) {
      if i < k { assert states[..k][i] == states[i]; } else { ConfinedWithin(before, mid, states[i], blobs, b, bytes); }
    }
  }

  /** A confined write elsewhere leaves an installed file installed. */
  lemma InstalledLasts(mid: Fs, s: Fs, dest: Path, bytes: seq<byte>, other: Path, content: seq<byte>)
    requires ConfinedState(mid, s, dest, bytes) && Installed(mid, other, content) && other != dest
    ensures Installed(s, other, content)
  {
    forall n | 1 <= n < |other| ensures IsDirectory(s, other[..n]) {
      assert IsDirectory(mid, other[..n]);
    }
  }

  lemma AllLast(mid: Fs, s: Fs, blobs: seq<Blob>, n: nat, bytes: seq<byte>)
    requires n < |blobs| && DistinctPaths(blobs) && AllInstalled(mid, blobs, n)
    requires ConfinedState(mid, s, blobs[n].path, bytes)
    ensures AllInstalled(s, blobs, n)
  {
    forall i | 0 <= i < n && Loaded(blobs[i]) ensures Installed(s, blobs[i].path, blobs[i].bytes.value) {
      InstalledLasts(mid, s, blobs[n].path, bytes, blobs[i].path, blobs[i].bytes.value);
    }
  }

  /** A tree has no entry below a file. */
  ghost predicate PrefixFree(blobs: seq<Blob>) {
    forall b :: b in blobs ==> !OnSomeWay(b.path, blobs)
  }

  /** Nothing in the root is in the way of a blob; an empty root is never. */
  ghost predicate RootFits(fs: Fs, blobs: seq<Blob>) {
    forall b :: b in blobs ==> RoomFor(fs, b.path)
  }

  /** What a confined write needs. */
  ghost predicate RoomFor(fs: Fs, p: Path) {
    ClearWay(fs, p) && (p in fs ==> fs[p].File?)
  }

  /** What a checkout has written so far is never in the way of what is left. */
  lemma RoomStays(before: Fs, s: Fs, blobs: seq<Blob>, b: Blob)
    requires CheckoutState(before, s, blobs) && b in blobs
    requires PrefixFree(blobs) && RootFits(before, blobs)
    ensures RoomFor(s, b.path)
  {
    forall m | 1 <= m < |b.path| && b.path[..m] in s ensures s[b.path[..m]].Directory? {
      assert b.path[..m] in Ancestors(b.path, |b.path|);
      assert OnSomeWay(b.path[..m], blobs);
      assert !IsBlobPath(b.path[..m], blobs);
      if b.path[..m] in before { assert ClearTo(before, b.path, |b.path|); }
    }
    assert !OnSomeWay(b.path, blobs);
  }

  lemma CapsGrow(blobs: seq<Blob>, n: nat, caps: Caps)
    requires n <= |blobs| && WithinCaps(blobs, caps)
    ensures WithinCaps(blobs[..n], caps)
  {
    TotalGrows(blobs, n);
  }

  method WriteBlob(disk: Disk, blobs: seq<Blob>, i: nat, ghost before: Fs, ghost from: nat)
    returns (r: Result<(), Failure>)
    requires i < |blobs| && Loaded(blobs[i]) && blobs[i].path != []
    requires Upto(disk.fs, disk.states, before, from, blobs, i)
    modifies disk`tick, disk`fs, disk`states
    ensures Upto(disk.fs, disk.states, before, from, blobs, if r.Ok? then i + 1 else i)
    ensures disk.Reliable() && PrefixFree(blobs) && RootFits(before, blobs) ==> r.Ok?
  {
    var b := blobs[i];
    ghost var mid, l0 := disk.fs, disk.states;
    if PrefixFree(blobs) && RootFits(before, blobs) { RoomStays(before, mid, blobs, b); }
    r := disk.WriteConfined(b.path, b.bytes.value);
    assert disk.states[..|l0|] == l0;
    ConfinedWithin(before, mid, disk.fs, blobs, b, b.bytes.value);
    StatesWithin(before, mid, disk.states, |l0|, from, blobs, b, b.bytes.value);
    if DistinctPaths(blobs) { AllLast(mid, disk.fs, blobs, i, b.bytes.value); }
  }

  /** Counting one blob's size against the caps. */
  method Charge(blobs: seq<Blob>, i: nat, caps: Caps, total: nat) returns (r: Result<nat, CheckoutError>)
    requires i < |blobs| && total == Saturated(TotalSize(blobs[..i])) && WithinCaps(blobs[..i], caps)
    ensures r.Ok? <==> WithinCaps(blobs[..i + 1], caps)
    ensures r.Ok? ==> r.value == Saturated(TotalSize(blobs[..i + 1]))
    ensures r.Err? ==> !r.error.Blocked? && r.error.i == i && !WithinCaps(blobs, caps)
  {
    TotalStep(blobs, i);
    CapsStep(blobs, i, caps);
    if WithinCaps(blobs, caps) { CapsGrow(blobs, i + 1, caps); }
    if blobs[i].size.None? { return Ok(total); }
    if blobs[i].size.value > caps.perFile { return Err(OverFile(i)); }
    r := Ok(Saturated(total + blobs[i].size.value));
    if r.value > caps.total { return Err(OverTotal(i)); }
  }

  /** The loop of `checkout_revision_with_caps` over the collected paths; `r` counts the files written. */
  method CheckoutRevision(disk: Disk, blobs: seq<Blob>, caps: Caps) returns (r: Result<nat, CheckoutError>)
    requires forall b :: b in blobs ==> b.path != []
    modifies disk`tick, disk`fs, disk`states
    ensures CheckoutState(old(disk.fs), disk.fs, blobs)
    ensures CheckoutSince(old(disk.fs), disk.states, |old(disk.states)|, blobs)
    ensures r.Ok? ==> r.value == LoadedCount(blobs) && WithinCaps(blobs, caps)
    ensures r.Ok? && DistinctPaths(blobs) ==> AllInstalled(disk.fs, blobs, |blobs|)
    ensures disk.Reliable() && PrefixFree(blobs) && RootFits(old(disk.fs), blobs) ==>
      (r.Ok? <==> WithinCaps(blobs, caps))
    ensures r.Err? && !r.error.Blocked? ==>
      r.error.i < |blobs| && !WithinCaps(blobs[..r.error.i + 1], caps) && WithinCaps(blobs[..r.error.i], caps)
  {
    ghost var before, from := disk.fs, |disk.states|;
    var written, total: nat := 0, 0;
    for i := 0 to |blobs|
      invariant written == LoadedCount(blobs[..i]) && total == Saturated(TotalSize(blobs[..i]))
        && WithinCaps(blobs[..i], caps)
      invariant Upto(disk.fs, disk.states, before, from, blobs, i)
    {
      TotalStep(blobs, i);
      var charged := Charge(blobs, i, caps, total);
      if charged.Err? { return charged; }
      total := charged.value;
      if blobs[i].size.Some? && blobs[i].bytes.Some? {
        var wrote := WriteBlob(disk, blobs, i, before, from);
        if wrote.Err? { return Err(Blocked(i, wrote.error)); }
        written := written + 1;
      }
    }
    assert blobs[..|blobs|] == blobs;
    r := Ok(written);
  }

  /** The state after the first `n` blobs. */
  ghost predicate Upto(fs: Fs, states: seq<Fs>, before: Fs, from: nat, blobs: seq<Blob>, n: nat)
    requires n <= |blobs|
  {
    && CheckoutState(before, fs, blobs) && CheckoutSince(before, states, from, blobs)
    && (DistinctPaths(blobs) ==> AllInstalled(fs, blobs, n))
  }

  lemma CapsStep(blobs: seq<Blob>, n: nat, caps: Caps)
    requires n < |blobs| && WithinCaps(blobs[..n], caps)
    ensures WithinCaps(blobs[..n + 1], caps) <==>
              SizeOf(blobs[n]) <= caps.perFile
                && Saturated(Saturated(TotalSize(blobs[..n])) + SizeOf(blobs[n])) <= caps.total
  {
    TotalStep(blobs, n);
    var more := blobs[..n + 1];
    assert more[n] == blobs[n] && forall i :: 0 <= i < n ==> more[i] == blobs[..n][i];
  }
}
