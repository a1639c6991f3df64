/** Collecting the targets of all adapters (`discovery.rs`). */
module Discovery {
  import opened Decimal
  import opened Placement
  import opened Sequences
  import opened Targets
  import RunProtocol

  /** The registry's adapters in order, each with the targets it reports for the change set. */
  datatype Report = Report(adapter: string, targets: seq<Target>)

  function Flatten(reports: seq<Report>): seq<Target> {
    if reports == [] then [] else Flatten(reports[..|reports| - 1]) + reports[|reports| - 1].targets
  }

  ghost predicate FirstWith(all: seq<Target>, k: int, p: string) {
    0 <= k < |all| && all[k].path == p && forall j :: 0 <= j < k ==> all[j].path != p
  }

  /** `t` is one of the targets of the adapter that reported `t.path` first. */
  ghost predicate Owned(all: seq<Target>, t: Target) {
    exists k :: FirstWith(all, k, t.path) && all[k].adapter == t.adapter
  }

  /** The elements whose mask entry is set, among the first `n`. */
  function Select<T>(all: seq<T>, keep: seq<bool>, n: nat): seq<T>
    requires n <= |all| == |keep|
  {
    if n == 0 then [] else if keep[n - 1] then Select(all, keep, n - 1) + [all[n - 1]] else Select(all, keep, n - 1)
  }

  /** For each target, whether its adapter reported its path first. */
  ghost function OwnedMask(all: seq<Target>): (m: seq<bool>)
    ensures |m| == |all|
  {
    seq(|all|, k requires 0 <= k < |all| => Owned(all, all[k]))
  }

  /** The targets of each path's first reporter, in order. */
  ghost function Kept(all: seq<Target>): seq<Target> {
    Select(all, OwnedMask(all), |all|)
  }

  function Renumbered(ts: seq<Target>): (r: seq<Target>)
    ensures |r| == |ts|
  {
    seq(|ts|, i requires 0 <= i < |ts| => ts[i].(id := RunId(i)))
  }

  /** What `path_owner` holds once the first `n` targets have been seen. */
  ghost predicate OwnersOf(owner: map<string, string>, all: seq<Target>, n: nat)
    requires n <= |all|
  {
    && (forall k :: 0 <= k < n ==> all[k].path in owner)
    && forall p :: p in owner ==> exists k :: FirstWith(all, k, p) && k < n && all[k].adapter == owner[p]
  }

  lemma OwnerMeansOwned(owner: map<string, string>, all: seq<Target>, n: nat)
    requires n < |all| && OwnersOf(owner, all, n)
    ensures all[n].path in owner ==> (owner[all[n].path] == all[n].adapter <==> Owned(all, all[n]))
    ensures all[n].path !in owner ==> Owned(all, all[n]) && OwnersOf(owner[all[n].path := all[n].adapter], all, n + 1)
    ensures all[n].path in owner ==> OwnersOf(owner, all, n + 1)
  {
    if all[n].path in owner {
      var k :| FirstWith(all, k, all[n].path) && k < n && all[k].adapter == owner[all[n].path];
      if Owned(all, all[n]) {
        var m :| FirstWith(all, m, all[n].path) && all[m].adapter == all[n].adapter;
        assert m == k;
      }
    } else {
      var owner' := owner[all[n].path := all[n].adapter];
      assert FirstWith(all, n, all[n].path);
      forall p | p in owner' ensures exists k :: FirstWith(all, k, p) && k < n + 1 && all[k].adapter == owner'[p] {
        if p != all[n].path {
          var k :| FirstWith(all, k, p) && k < n && all[k].adapter == owner[p];
        }
      }
    }
  }

  /** `AdapterRegistry::analyze`. */
  method Analyze(reports: seq<Report>) returns (targets: seq<Target>)
    ensures targets == Renumbered(Kept(Flatten(reports)))
  {
    targets := [];
    for a := 0 to |reports|
      invariant targets == Flatten(reports[..a])
    {
      assert reports[..a + 1][..a] == reports[..a];
      targets := targets + reports[a].targets;
    }
    assert reports[..|reports|] == reports;
    var keep := KeepMask(targets);
    ghost var all := targets;
    targets := Retain(targets, keep);
    ghost var kept := targets;
    for i := 0 to |targets|
      invariant |targets| == |kept|
      invariant forall k :: 0 <= k < i ==> targets[k] == kept[k].(id := RunId(k))
      invariant forall k :: i <= k < |kept| ==> targets[k] == kept[k]
    {
      targets := targets[i := targets[i].(id := RunId(i))];
    }
    assert targets == Renumbered(kept);
  }

  method KeepMask(all: seq<Target>) returns (keep: seq<bool>)
    ensures keep == OwnedMask(all)
  {
    var owner: map<string, string> := map[];
    ghost var mask := OwnedMask(all);
    keep := [];
    for n := 0 to |all|
      invariant |keep| == n && OwnersOf(owner, all, n) && keep <= mask
    {
      var mine;
      mine, owner := Claim(all, n, owner, mask);
      PrefixStep(keep, mask, mine);
      keep := keep + [mine];
    }
  }

  lemma PrefixStep<T>(a: seq<T>, m: seq<T>, x: T)
    requires a <= m && |a| < |m| && x == m[|a|]
    ensures a + [x] <= m
  {}

  /** One entry of the mask: look the path up, or claim it. */
  method Claim(all: seq<Target>, n: nat, owner: map<string, string>, ghost mask: seq<bool>)
    returns (mine: bool, owners: map<string, string>)
    requires n < |all| && OwnersOf(owner, all, n) && mask == OwnedMask(all)
    ensures OwnersOf(owners, all, n + 1) && mine == mask[n]
  {
    var t := all[n];
    OwnerMeansOwned(owner, all, n);
    if t.path in owner {
      mine, owners := owner[t.path] == t.adapter, owner;
    } else {
      mine, owners := true, owner[t.path := t.adapter];
    }
  }

  /** `retain` with the mask as its predicate. */
  method Retain<T>(all: seq<T>, keep: seq<bool>) returns (kept: seq<T>)
    requires |keep| == |all|
    ensures kept == Select(all, keep, |all|)
  {
    kept := [];
    for n := 0 to |all|
      invariant kept == Select(all, keep, n)
    {
      if keep[n] { kept := kept + [all[n]]; }
    }
  }

  // ---- what the deduplication promises ----

  lemma LastOut<T>(all: seq<T>, n: nat)
    requires 0 < n <= |all|
    ensures all[..n] == all[..n - 1] + [all[n - 1]]
  {}

  lemma {:induction false} Selected<T>(all: seq<T>, keep: seq<bool>, n: nat, x: T)
    requires n <= |all| == |keep|
    ensures x in Select(all, keep, n) <==> exists k :: 0 <= k < n && keep[k] && all[k] == x
  {
    if n == 0 {
    } else {
      Selected(all, keep, n - 1, x);
    }
  }

  lemma KeptOwned(all: seq<Target>, t: Target)
    ensures t in Kept(all) <==> t in all && Owned(all, t)
  {
    Selected(all, OwnedMask(all), |all|, t);
    if t in all {
      var k :| 0 <= k < |all| && all[k] == t;
      assert OwnedMask(all)[k] <==> Owned(all, t);
    }
  }

  /** One adapter per path, and no path an adapter reported is lost. */
  lemma OneOwnerPerPath(all: seq<Target>)
    ensures forall t, u :: t in Kept(all) && u in Kept(all) && t.path == u.path ==> t.adapter == u.adapter
    ensures forall t :: t in all ==> exists u :: u in Kept(all) && u.path == t.path
    ensures forall t :: t in all && Owned(all, t) ==> t in Kept(all)
  {
    forall t ensures t in Kept(all) <==> t in all && Owned(all, t) { KeptOwned(all, t); }
    forall t, u | t in Kept(all) && u in Kept(all) && t.path == u.path ensures t.adapter == u.adapter {
      OwnersAgree(all, t, u);
    }
    forall t | t in all ensures exists u :: u in Kept(all) && u.path == t.path {
      var k := FirstIndex(all, t);
      assert all[k] in Kept(all);
    }
  }

  lemma OwnersAgree(all: seq<Target>, t: Target, u: Target)
    requires Owned(all, t) && Owned(all, u) && t.path == u.path
    ensures t.adapter == u.adapter
  {
    var j :| FirstWith(all, j, t.path) && all[j].adapter == t.adapter;
    var k :| FirstWith(all, k, u.path) && all[k].adapter == u.adapter;
    assert j == k;
  }

  lemma {:induction false} FirstIndexFrom(all: seq<Target>, p: string, from: nat) returns (k: nat)
    requires from < |all| && (forall j :: 0 <= j < from ==> all[j].path != p)
    requires exists m :: from <= m < |all| && all[m].path == p
    ensures FirstWith(all, k, p)
    decreases |all| - from
  {
    if all[from].path == p { k := from; } else { k := FirstIndexFrom(all, p, from + 1); }
  }

  lemma FirstIndex(all: seq<Target>, t: Target) returns (k: nat)
    requires t in all
    ensures k < |all| && all[k].path == t.path && Owned(all, all[k])
  {
    k := FirstIndexFrom(all, t.path, 0);
  }

  lemma {:induction false} SelectInOrder<T>(all: seq<T>, keep: seq<bool>, n: nat)
    requires n <= |all| == |keep|
    ensures Subsequence(Select(all, keep, n), all[..n])
  {
    if n == 0 {
    } else {
      SelectInOrder(all, keep, n - 1);
      LastOut(all, n);
      SubsequenceAppend(Select(all, keep, n - 1), all[..n - 1], all[n - 1]);
    }
  }

  /** What is kept keeps its order. */
  lemma KeptInOrder(all: seq<Target>)
    ensures Subsequence(Kept(all), all)
  {
    SelectInOrder(all, OwnedMask(all), |all|);
    assert all[..|all|] == all;
  }

  /** No two targets of a run share a test path: two of them with their own adapters' rules. */
  lemma RunPathsDistinct(all: seq<Target>, i: nat, j: nat)
    requires i < j < |Renumbered(Kept(all))| <= USIZE_LIMIT
    ensures var r := Renumbered(Kept(all));
      TestPath(r[i], r[i].adapter) != TestPath(r[j], r[j].adapter)
  {
    var r := Renumbered(Kept(all));
    TestPathInjective(Kept(all)[i], r[i].adapter, i, Kept(all)[j], r[j].adapter, j);
  }

  /** Targets selected for a run, each at most once, have steps and artifact files of their own. */
  lemma RunStepsDistinct(all: seq<Target>, picks: seq<nat>, ranked: seq<RunProtocol.Target>)
    requires |Kept(all)| <= USIZE_LIMIT && |picks| == |ranked|
    requires forall i :: 0 <= i < |picks| ==>
      picks[i] < |Kept(all)| && ranked[i].id == Renumbered(Kept(all))[picks[i]].id
    requires forall i, j :: 0 <= i < j < |picks| ==> picks[i] != picks[j]
    ensures RunProtocol.DistinctFragments(ranked)
  {
    RunProtocol.NumberedFragments(ranked, picks);
  }
}
