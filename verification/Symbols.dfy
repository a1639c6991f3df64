/** From changed lines to the innermost enclosing declaration (`symbols.rs`). */
module Symbols {
  import opened Wrappers
  import opened Decimal
  import opened Targets
  import opened Placement
  import opened Sequences

  const MAX_HUNKS := 1000
  const MAX_DESCENT := 10_000
  const USIZE_MAX := USIZE_LIMIT - 1

  /** A syntax tree node with its zero-based rows and byte range. */
  datatype Tree = Node(kind: string, startRow: nat, endRow: nat, startByte: nat, endByte: nat, children: seq<Tree>)

  /** Node kinds that declare a symbol, with the symbol kind of each. */
  type Kinds = seq<(string, SymbolKind)>

  predicate Contains(t: Tree, row: nat) {
    t.startRow <= row <= t.endRow
  }

  function KindOf(kinds: Kinds, kind: string): Option<SymbolKind> {
    if kinds == [] then None
    else if kinds[0].0 == kind then Some(kinds[0].1)
    else KindOf(kinds[1..], kind)
  }

  function Length(t: Tree): nat {
    if t.endByte >= t.startByte then t.endByte - t.startByte else 0
  }

  // ---- the order of the search ----

  function Size(t: Tree): (n: nat)
    ensures n >= 1
  {
    1 + SizeAll(t.children)
  }

  function SizeAll(ts: seq<Tree>): nat {
    if ts == [] then 0 else Size(ts[0]) + SizeAll(ts[1..])
  }

  function Inside(ts: seq<Tree>, row: nat): (r: seq<Tree>)
    ensures forall t :: t in r <==> t in ts && Contains(t, row)
    ensures SizeAll(r) <= SizeAll(ts)
  {
    if ts == [] then []
    else if Contains(ts[0], row) then [ts[0]] + Inside(ts[1..], row)
    else Inside(ts[1..], row)
  }

  lemma {:induction false} SizeAllConcat(a: seq<Tree>, b: seq<Tree>)
    ensures SizeAll(a + b) == SizeAll(a) + SizeAll(b)
  {
    if a == [] {
      assert a + b == b;
    } else {
      assert (a + b)[1..] == a[1..] + b;
      SizeAllConcat(a[1..], b);
    }
  }

  /** Replacing the top of the stack by its row-containing children makes the stack smaller. */
  lemma PopShrinks(stack: seq<Tree>, row: nat)
    requires stack != []
    ensures SizeAll(Popped(stack, row)) < SizeAll(stack)
  {
    var t := stack[|stack| - 1];
    var rest := stack[..|stack| - 1];
    assert stack == rest + [t];
    SizeAllConcat(rest, [t]);
    SizeAllConcat(rest, Inside(t.children, row));
    assert SizeAll([t]) == Size(t) + SizeAll([]);
  }

  function Popped(stack: seq<Tree>, row: nat): seq<Tree>
    requires stack != []
  {
    stack[..|stack| - 1] + Inside(stack[|stack| - 1].children, row)
  }

  /** The nodes in the order an unbounded search pops them. */
  function PopOrder(stack: seq<Tree>, row: nat): seq<Tree>
    decreases SizeAll(stack)
  {
    if stack == [] then []
    else
      PopShrinks(stack, row);
      [stack[|stack| - 1]] + PopOrder(Popped(stack, row), row)
  }

  /** The first strictly shortest declaration among these nodes. */
  function Best(seen: seq<Tree>, kinds: Kinds): Option<Tree> {
    if seen == [] then None
    else Better(Best(seen[..|seen| - 1], kinds), seen[|seen| - 1], kinds)
  }

  function Better(best: Option<Tree>, t: Tree, kinds: Kinds): Option<Tree> {
    var shortest := if best.Some? then Length(best.value) else USIZE_MAX;
    if KindOf(kinds, t.kind).Some? && Length(t) < shortest then Some(t) else best
  }

  /** The nodes an interrupted search has examined. */
  function Examined(root: Tree, row: nat): seq<Tree> {
    var order := PopOrder([root], row);
    if |order| < MAX_DESCENT then order else order[..MAX_DESCENT - 1]
  }

  /** `enclosing`. */
  method Enclosing(root: Tree, row: nat, kinds: Kinds) returns (r: Option<(Tree, SymbolKind)>)
    ensures r.Some? ==> Contains(root, row) && Best(Examined(root, row), kinds) == Some(r.value.0)
                        && KindOf(kinds, r.value.0.kind) == Some(r.value.1)
    ensures r.None? ==> !Contains(root, row) || Best(Examined(root, row), kinds) == None
  {
    if !Contains(root, row) { return None; }
    r := None;
    var bestLen: nat := USIZE_MAX;
    var stack := [root];
    var budget := MAX_DESCENT;
    ghost var seen: seq<Tree> := [];
    while stack != []
      invariant PopOrder([root], row) == seen + PopOrder(stack, row)
      invariant budget == MAX_DESCENT - |seen| && budget > 0
      invariant Holds(r, bestLen, seen, kinds)
      decreases SizeAll(stack)
    {
      PopShrinks(stack, row);
      var node := stack[|stack| - 1];
      budget := budget - 1;
      if budget == 0 {
        assert seen == PopOrder([root], row)[..MAX_DESCENT - 1];
        return;
      }
      assert (seen + [node])[..|seen|] == seen;
      Associative(seen, [node], PopOrder(Popped(stack, row), row));
      var kind := KindOf(kinds, node.kind);
      if kind.Some? {
        if Length(node) < bestLen {
          r, bestLen := Some((node, kind.value)), Length(node);
        }
      }
      stack := Popped(stack, row);
      seen := seen + [node];
    }
    assert seen + [] == seen;
  }

  ghost predicate Holds(r: Option<(Tree, SymbolKind)>, bestLen: nat, seen: seq<Tree>, kinds: Kinds) {
    match r
    case None => Best(seen, kinds) == None && bestLen == USIZE_MAX
    case Some(found) =>
      && Best(seen, kinds) == Some(found.0) && bestLen == Length(found.0)
      && KindOf(kinds, found.0.kind) == Some(found.1)
  }

  // ---- what it finds ----

  /** `n` is `t` or is reached from it through children that contain the row. */
  ghost predicate Reaches(t: Tree, row: nat, n: Tree)
    decreases t
  {
    n == t || exists c :: c in t.children && Contains(c, row) && Reaches(c, row, n)
  }

  ghost predicate SomeReaches(stack: seq<Tree>, row: nat, n: Tree) {
    exists t :: t in stack && Reaches(t, row, n)
  }

  lemma {:induction false} PopOrderReaches(stack: seq<Tree>, row: nat)
    ensures forall n :: n in PopOrder(stack, row) <==> SomeReaches(stack, row, n)
    ensures |PopOrder(stack, row)| <= SizeAll(stack)
    decreases SizeAll(stack)
  {
    if stack == [] {
    } else {
      PopShrinks(stack, row);
      PopOrderReaches(Popped(stack, row), row);
      forall n
        ensures SomeReaches(stack, row, n) <==> n == stack[|stack| - 1] || SomeReaches(Popped(stack, row), row, n)
      {
        PopReaches(stack, row, n);
      }
    }
  }

  lemma PopReaches(stack: seq<Tree>, row: nat, n: Tree)
    requires stack != []
    ensures SomeReaches(stack, row, n) <==> n == stack[|stack| - 1] || SomeReaches(Popped(stack, row), row, n)
  {
    var t := stack[|stack| - 1];
    var next := Popped(stack, row);
    if SomeReaches(stack, row, n) {
      var s :| s in stack && Reaches(s, row, n);
      if s in stack[..|stack| - 1] {
        assert s in next;
      } else if n != t {
        var c :| c in s.children && Contains(c, row) && Reaches(c, row, n);
        assert c in next;
      }
    }
    if SomeReaches(next, row, n) {
      var s :| s in next && Reaches(s, row, n);
      if s !in stack { assert s in t.children && Contains(s, row); }
    }
    assert t in stack && Reaches(t, row, t);
  }

  lemma {:induction false} BestIsLeast(seen: seq<Tree>, kinds: Kinds)
    ensures match Best(seen, kinds)
      case None => forall t :: t in seen && KindOf(kinds, t.kind).Some? ==> Length(t) >= USIZE_MAX
      case Some(b) => b in seen && KindOf(kinds, b.kind).Some? && Length(b) < USIZE_MAX
                      && forall t :: t in seen && KindOf(kinds, t.kind).Some? ==> Length(b) <= Length(t)
  {
    if seen == [] {
    } else {
      BestIsLeast(seen[..|seen| - 1], kinds);
    }
  }

  /** How many nodes a search for the row looks at: the node, and what is below it through row-containing children. */
  function Visits(t: Tree, row: nat): (n: nat)
    ensures n >= 1
  {
    1 + VisitsAll(t.children, row)
  }

  function VisitsAll(ts: seq<Tree>, row: nat): nat {
    if ts == [] then 0
    else (if Contains(ts[0], row) then Visits(ts[0], row) else 0) + VisitsAll(ts[1..], row)
  }

  function StackVisits(stack: seq<Tree>, row: nat): nat {
    if stack == [] then 0 else Visits(stack[0], row) + StackVisits(stack[1..], row)
  }

  lemma {:induction false} InsideVisits(ts: seq<Tree>, row: nat)
    ensures StackVisits(Inside(ts, row), row) == VisitsAll(ts, row)
  {
    if ts == [] {
    } else {
      InsideVisits(ts[1..], row);
      if Contains(ts[0], row) { assert Inside(ts, row)[1..] == Inside(ts[1..], row); }
    }
  }

  lemma {:induction false} StackVisitsConcat(a: seq<Tree>, b: seq<Tree>, row: nat)
    ensures StackVisits(a + b, row) == StackVisits(a, row) + StackVisits(b, row)
  {
    if a == [] {
      assert a + b == b;
    } else {
      assert (a + b)[1..] == a[1..] + b;
      StackVisitsConcat(a[1..], b, row);
    }
  }

  /** The number of nodes popped is known from the tree alone. */
  lemma {:induction false} PopOrderVisits(stack: seq<Tree>, row: nat)
    ensures |PopOrder(stack, row)| == StackVisits(stack, row)
    decreases SizeAll(stack)
  {
    if stack == [] {
    } else {
      PopShrinks(stack, row);
      PopOrderVisits(Popped(stack, row), row);
      PoppedVisits(stack, row);
    }
  }

  lemma PoppedVisits(stack: seq<Tree>, row: nat)
    requires stack != []
    ensures StackVisits(stack, row) == 1 + StackVisits(Popped(stack, row), row)
  {
    var t, rest := stack[|stack| - 1], stack[..|stack| - 1];
    assert stack == rest + [t];
    StackVisitsConcat(rest, [t], row);
    StackVisitsConcat(rest, Inside(t.children, row), row);
    InsideVisits(t.children, row);
    OneVisits(t, row);
  }

  lemma OneVisits(t: Tree, row: nat)
    ensures StackVisits([t], row) == Visits(t, row)
  {
    assert [t][1..] == [];
  }

  /** The search is right: its answer is a declaration of least length among all nodes the row reaches, if any is. */
  ghost predicate FindsLeast(root: Tree, row: nat, kinds: Kinds) {
    match Best(Examined(root, row), kinds)
    case None => forall n :: Reaches(root, row, n) && KindOf(kinds, n.kind).Some? ==> Length(n) >= USIZE_MAX
    case Some(b) =>
      && Reaches(root, row, b) && KindOf(kinds, b.kind).Some?
      && forall n :: Reaches(root, row, n) && KindOf(kinds, n.kind).Some? ==> Length(b) <= Length(n)
  }

  lemma PoppedIsReached(root: Tree, row: nat, n: Tree)
    ensures n in PopOrder([root], row) <==> Reaches(root, row, n)
  {
    PopOrderReaches([root], row);
    assert root in [root];
    assert SomeReaches([root], row, n) <==> Reaches(root, row, n);
  }

  /** Each node the row reaches has a stand-in among the examined ones: of the same kind and no longer. */
  ghost predicate Represented(root: Tree, row: nat) {
    forall n :: n in PopOrder([root], row) && Length(n) < USIZE_MAX ==> HasStandIn(Examined(root, row), n)
  }

  ghost predicate HasStandIn(seen: seq<Tree>, n: Tree) {
    exists e :: e in seen && e.kind == n.kind && Length(e) <= Length(n)
  }

  /**
   EXACT for the budget, on every tree: the search is right for all declaring kinds if and only if each node the
   row reaches has a stand-in among the nodes examined within the budget.
   */
  lemma BudgetExact(root: Tree, row: nat)
    ensures (forall kinds :: FindsLeast(root, row, kinds)) <==> Represented(root, row)
  {
    if Represented(root, row) {
      forall kinds ensures FindsLeast(root, row, kinds) { StandInsSuffice(root, row, kinds); }
    }
    if forall kinds :: FindsLeast(root, row, kinds) {
      forall n | n in PopOrder([root], row) && Length(n) < USIZE_MAX ensures HasStandIn(Examined(root, row), n) {
        StandInNeeded(root, row, n);
      }
    }
  }

  lemma StandInsSuffice(root: Tree, row: nat, kinds: Kinds)
    requires Represented(root, row)
    ensures FindsLeast(root, row, kinds)
  {
    var seen := Examined(root, row);
    BestIsLeast(seen, kinds);
    forall n ensures n in PopOrder([root], row) <==> Reaches(root, row, n) { PoppedIsReached(root, row, n); }
    forall n | Reaches(root, row, n) && KindOf(kinds, n.kind).Some? && Length(n) < USIZE_MAX
      ensures Best(seen, kinds).Some? && Length(Best(seen, kinds).value) <= Length(n)
    {
      assert HasStandIn(seen, n);
      var e :| e in seen && e.kind == n.kind && Length(e) <= Length(n);
    }
  }

  /** With the kind of `n` as the only declaring one, a right answer is a stand-in for `n`. */
  lemma StandInNeeded(root: Tree, row: nat, n: Tree)
    requires n in PopOrder([root], row) && Length(n) < USIZE_MAX
    requires FindsLeast(root, row, [(n.kind, Function)])
    ensures HasStandIn(Examined(root, row), n)
  {
    var kinds: Kinds := [(n.kind, Function)];
    PoppedIsReached(root, row, n);
    BestIsLeast(Examined(root, row), kinds);
    var best := Best(Examined(root, row), kinds);
    OneKind(n.kind, n.kind);
    if best.Some? { OneKind(n.kind, best.value.kind); }
  }

  lemma OneKind(only: string, kind: string)
    ensures KindOf([(only, Function)], kind).Some? <==> kind == only
  {
    var kinds: Kinds := [(only, Function)];
    assert kinds[1..] == [];
  }

  /** Where fewer nodes are visited than the budget allows, on a tree of any size, the search is right. */
  lemma SmallestEnclosing(root: Tree, row: nat, kinds: Kinds)
    requires Visits(root, row) < MAX_DESCENT
    ensures FindsLeast(root, row, kinds)
  {
    OneVisits(root, row);
    PopOrderVisits([root], row);
    forall n | n in PopOrder([root], row) ensures HasStandIn(Examined(root, row), n) {
      assert n in Examined(root, row);
    }
    StandInsSuffice(root, row, kinds);
  }

  /** A declaration on one line below `n` nested nodes of another kind. */
  function Nested(n: nat, wrapper: string, declared: string): Tree {
    if n == 0 then Node(declared, 0, 0, 0, 1, []) else Node(wrapper, 0, 0, 0, n + 1, [Nested(n - 1, wrapper, declared)])
  }

  function NestedDown(n: nat, wrapper: string, declared: string): seq<Tree> {
    var t := Nested(n, wrapper, declared);
    if n == 0 then [t] else [t] + NestedDown(n - 1, wrapper, declared)
  }

  lemma {:induction false} NestedDownAt(n: nat, wrapper: string, declared: string, i: nat)
    requires i <= n
    ensures |NestedDown(n, wrapper, declared)| == n + 1
    ensures NestedDown(n, wrapper, declared)[i] == Nested(n - i, wrapper, declared)
  {
    if n == 0 {
    } else {
      NestedDownAt(n - 1, wrapper, declared, if i > 0 then i - 1 else 0);
    }
  }

  lemma {:induction false} NestedOrder(n: nat, wrapper: string, declared: string, t: Tree)
    requires t == Nested(n, wrapper, declared)
    ensures PopOrder([t], 0) == NestedDown(n, wrapper, declared)
  {
    if n == 0 {
      PopLeaf(t, 0);
    } else {
      var c := Nested(n - 1, wrapper, declared);
      NestedOrder(n - 1, wrapper, declared, c);
      NestedShape(n, wrapper, declared);
      PopOnly(t, c, 0);
    }
  }

  lemma NestedShape(n: nat, wrapper: string, declared: string)
    requires n > 0
    ensures Nested(n, wrapper, declared).children == [Nested(n - 1, wrapper, declared)]
    ensures Contains(Nested(n - 1, wrapper, declared), 0)
    ensures NestedDown(n, wrapper, declared) == [Nested(n, wrapper, declared)] + NestedDown(n - 1, wrapper, declared)
  {}

  lemma PopLeaf(t: Tree, row: nat)
    requires t.children == []
    ensures PopOrder([t], row) == [t]
  {
    assert Popped([t], row) == [];
  }

  lemma PopOnly(t: Tree, c: Tree, row: nat)
    requires t.children == [c] && Contains(c, row)
    ensures PopOrder([t], row) == [t] + PopOrder([c], row)
  {
    assert [c][1..] == [] && Inside([c], row) == [c] && Popped([t], row) == [c];
  }

  /** What the budget misses: a declaration is found if and only if fewer than 9999 other nodes enclose it. */
  lemma BudgetReaches(n: nat, wrapper: string, declared: string, kinds: Kinds)
    requires KindOf(kinds, wrapper) == None && KindOf(kinds, declared).Some?
    ensures var root := Nested(n, wrapper, declared);
      Best(Examined(root, 0), kinds) == (if n < MAX_DESCENT - 1 then Some(Nested(0, wrapper, declared)) else None)
  {
    var root := Nested(n, wrapper, declared);
    NestedOrder(n, wrapper, declared, root);
    NestedDownAt(n, wrapper, declared, n);
    var seen := Examined(root, 0);
    BestIsLeast(seen, kinds);
    forall t | t in seen ensures t == Nested(0, wrapper, declared) || KindOf(kinds, t.kind) == None {
      var i: nat :| i < |seen| && seen[i] == t;
      NestedDownAt(n, wrapper, declared, i);
    }
    if n >= MAX_DESCENT - 1 {
      forall i: nat | i < |seen| ensures KindOf(kinds, seen[i].kind) == None { NestedDownAt(n, wrapper, declared, i); }
    }
  }

  lemma {:induction false} ReachedContains(t: Tree, row: nat, n: Tree)
    requires Contains(t, row) && Reaches(t, row, n)
    ensures Contains(n, row)
    decreases t
  {
    if n == t {
    } else {
      var c :| c in t.children && Contains(c, row) && Reaches(c, row, n);
      ReachedContains(c, row, n);
    }
  }

  /** On any tree, what the search finds contains the row. */
  lemma FoundContains(root: Tree, row: nat, kinds: Kinds)
    requires Contains(root, row)
    ensures Best(Examined(root, row), kinds).Some? ==> Contains(Best(Examined(root, row), kinds).value, row)
  {
    PopOrderReaches([root], row);
    BestIsLeast(Examined(root, row), kinds);
    var best := Best(Examined(root, row), kinds);
    if best.Some? {
      assert best.value in PopOrder([root], row);
      assert Reaches(root, row, best.value);
      ReachedContains(root, row, best.value);
    }
  }

  // ---- targets ----

  /** Zero-based row of a hunk's first line. */
  function RowOf(h: LineRange): nat {
    if h.start >= 1 then h.start - 1 else 0
  }

  function SpanOf(t: Tree): Option<LineRange> {
    NewRange(t.startRow + 1, t.endRow + 1)
  }

  /** The span of the declaration the search finds for a hunk. */
  function SpanFor(root: Tree, kinds: Kinds, h: LineRange): Option<LineRange> {
    if !Contains(root, RowOf(h)) then None
    else match Best(Examined(root, RowOf(h)), kinds)
      case None => None
      case Some(b) => SpanOf(b)
  }

  /** The hunks that get a target of their own: no declaration found, or past the cap. */
  function Unmatched(root: Tree, kinds: Kinds, hunks: seq<LineRange>, n: nat): seq<LineRange>
    requires n <= |hunks|
  {
    if n == 0 then []
    else if n <= MAX_HUNKS && SpanFor(root, kinds, hunks[n - 1]).Some? then Unmatched(root, kinds, hunks, n - 1)
    else Unmatched(root, kinds, hunks, n - 1) + [hunks[n - 1]]
  }

  function HunkTarget(path: string, adapter: string, h: LineRange, id: nat): Target {
    Target(RunId(id), adapter, path, None, Hunk, h, 0.5)
  }

  /** `fallback_hunks`. */
  function FallbackHunks(path: string, adapter: string, hunks: seq<LineRange>, next: nat): (r: seq<Target>)
    ensures |r| == |hunks|
    ensures forall k :: 0 <= k < |r| ==> r[k] == HunkTarget(path, adapter, hunks[k], next + k)
  {
    seq(|hunks|, k requires 0 <= k < |hunks| => HunkTarget(path, adapter, hunks[k], next + k))
  }

  function Capped(hunks: seq<LineRange>): seq<LineRange> {
    if |hunks| <= MAX_HUNKS then hunks else hunks[..MAX_HUNKS]
  }

  /** Each symbol target is the declaration found for one of the first `n` hunks, named and scored. */
  ghost predicate Explained(t: Target, root: Tree, kinds: Kinds, name: Tree -> Option<string>, hunks: seq<LineRange>,
                            n: nat)
  {
    exists i :: 0 <= i < n <= |hunks| && ExplainedBy(t, root, kinds, name, hunks, i)
  }

  ghost predicate ExplainedBy(t: Target, root: Tree, kinds: Kinds, name: Tree -> Option<string>, hunks: seq<LineRange>,
                              i: nat)
    requires i < |hunks|
  {
    var b := Best(Examined(root, RowOf(hunks[i])), kinds);
    && SpanFor(root, kinds, hunks[i]) == Some(t.span) && b.Some?
    && t.symbol == name(b.value) && KindOf(kinds, b.value.kind) == Some(t.kind)
    && t.span.start <= t.span.end && t.risk == Risk(t.span, hunks)
  }

  ghost predicate HasSpan(ts: seq<Target>, span: LineRange) {
    exists t :: t in ts && t.span == span
  }

  /** The symbol targets after `n` hunks: one for each span found, numbered from `next`. */
  ghost predicate SymbolsOf(ts: seq<Target>, root: Tree, kinds: Kinds, name: Tree -> Option<string>,
                            hunks: seq<LineRange>, n: nat, path: string, adapter: string, next: nat)
  {
    && n <= |hunks| && |ts| <= n
    && SpansFound(ts, root, kinds, hunks, n) && AllExplained(ts, root, kinds, name, hunks, n)
    && WellNumbered(ts, path, adapter, next) && SpansDiffer(ts)
  }

  ghost predicate SpansFound(ts: seq<Target>, root: Tree, kinds: Kinds, hunks: seq<LineRange>, n: nat)
    requires n <= |hunks|
  {
    forall i :: 0 <= i < n && SpanFor(root, kinds, hunks[i]).Some? ==> HasSpan(ts, SpanFor(root, kinds, hunks[i]).value)
  }

  ghost predicate AllExplained(ts: seq<Target>, root: Tree, kinds: Kinds, name: Tree -> Option<string>,
                               hunks: seq<LineRange>, n: nat)
  {
    forall k :: 0 <= k < |ts| ==> Explained(ts[k], root, kinds, name, hunks, n)
  }

  predicate WellNumbered(ts: seq<Target>, path: string, adapter: string, next: nat) {
    forall k :: 0 <= k < |ts| ==> ts[k].id == RunId(next + k) && ts[k].path == path && ts[k].adapter == adapter
  }

  predicate SpansDiffer(ts: seq<Target>) {
    forall j, k :: 0 <= j < k < |ts| ==> ts[j].span != ts[k].span
  }

  // ---- risk ----

  function Overlap(span: LineRange, h: LineRange): nat {
    var lo := if h.start > span.start then h.start else span.start;
    var hi := if h.end < span.end then h.end else span.end;
    if lo <= hi then hi - lo + 1 else 0
  }

  function Changed(span: LineRange, hunks: seq<LineRange>): nat {
    if hunks == [] then 0 else Changed(span, hunks[..|hunks| - 1]) + Overlap(span, hunks[|hunks| - 1])
  }

  function LinesOf(span: LineRange): nat {
    if span.end >= span.start then span.end - span.start + 1 else 0
  }

  function Clamp(x: real): real {
    if x < 0.05 then 0.05 else if x > 1.0 then 1.0 else x
  }

  function Risk(span: LineRange, hunks: seq<LineRange>): real
    requires span.start <= span.end
  {
    Clamp(Changed(span, hunks) as real / LinesOf(span) as real)
  }

  /** The loop of `symbol_risk`. */
  method SymbolRisk(span: LineRange, hunks: seq<LineRange>) returns (r: real)
    requires span.start <= span.end
    ensures r == Risk(span, hunks)
  {
    var changed := 0;
    for i := 0 to |hunks|
      invariant changed == Changed(span, hunks[..i])
    {
      assert hunks[..i + 1][..i] == hunks[..i];
      var lo := if hunks[i].start > span.start then hunks[i].start else span.start;
      var hi := if hunks[i].end < span.end then hunks[i].end else span.end;
      if lo <= hi { changed := changed + (hi - lo + 1); }
    }
    assert hunks[..|hunks|] == hunks;
    r := Clamp(changed as real / (span.end - span.start + 1) as real);
  }

  predicate InRange(l: nat, h: LineRange) {
    h.start <= l <= h.end
  }

  ghost predicate Disjoint(hunks: seq<LineRange>) {
    forall i, j, l :: 0 <= i < j < |hunks| && InRange(l, hunks[i]) ==> !InRange(l, hunks[j])
  }

  ghost predicate Hit(l: nat, hunks: seq<LineRange>) {
    exists h :: h in hunks && InRange(l, h)
  }

  /** The lines of the span that some hunk changes. */
  ghost function ChangedLines(span: LineRange, hunks: seq<LineRange>): set<nat> {
    set l: nat | span.start <= l <= span.end && Hit(l, hunks)
  }

  ghost function Interval(lo: nat, hi: nat): (s: set<nat>)
    ensures |s| == if lo <= hi then hi - lo + 1 else 0
    ensures forall l :: l in s <==> lo <= l <= hi
    decreases hi + 1 - lo
  {
    if lo > hi then {} else {lo} + Interval(lo + 1, hi)
  }

  lemma HitStep(rest: seq<LineRange>, h: LineRange, l: nat)
    ensures Hit(l, rest + [h]) <==> Hit(l, rest) || InRange(l, h)
  {
    assert h in rest + [h];
    assert forall g :: g in rest + [h] <==> g in rest || g == h;
  }

  lemma DisjointStep(rest: seq<LineRange>, h: LineRange)
    requires Disjoint(rest + [h])
    ensures Disjoint(rest) && forall l: nat :: Hit(l, rest) ==> !InRange(l, h)
  {
    var all := rest + [h];
    assert forall i :: 0 <= i < |rest| ==> all[i] == rest[i];
    assert all[|rest|] == h;
  }

  lemma ChangedStep(span: LineRange, rest: seq<LineRange>, h: LineRange)
    requires Disjoint(rest + [h])
    ensures |ChangedLines(span, rest + [h])| == |ChangedLines(span, rest)| + Overlap(span, h)
  {
    var lo := if h.start > span.start then h.start else span.start;
    var hi := if h.end < span.end then h.end else span.end;
    DisjointStep(rest, h);
    forall l: nat ensures Hit(l, rest + [h]) <==> Hit(l, rest) || InRange(l, h) { HitStep(rest, h, l); }
    var before, after, here := ChangedLines(span, rest), ChangedLines(span, rest + [h]), Interval(lo, hi);
    forall l ensures (l in after <==> l in before || l in here) && (l in before ==> l !in here) {
      assert l in here <==> span.start <= l <= span.end && InRange(l, h);
    }
    Disjunion(before, here, after);
  }

  lemma Disjunion(a: set<nat>, b: set<nat>, c: set<nat>)
    requires forall l :: l in c <==> l in a || l in b
    requires forall l :: l in a ==> l !in b
    ensures |c| == |a| + |b|
  {
    assert c == a + b && a !! b;
  }

  /** For disjoint hunks the sum counts each changed line once, so the risk is the changed fraction of the symbol. */
  lemma {:induction false} ChangedCounts(span: LineRange, hunks: seq<LineRange>)
    requires Disjoint(hunks)
    ensures Changed(span, hunks) == |ChangedLines(span, hunks)| <= LinesOf(span)
  {
    if hunks == [] {
      assert ChangedLines(span, hunks) == {};
    } else {
      var h := hunks[|hunks| - 1];
      var rest := hunks[..|hunks| - 1];
      assert hunks == rest + [h];
      DisjointStep(rest, h);
      ChangedCounts(span, rest);
      ChangedStep(span, rest, h);
    }
    Within(ChangedLines(span, hunks), Interval(span.start, span.end));
  }

  lemma {:induction false} Within(a: set<nat>, b: set<nat>)
    requires a <= b
    ensures |a| <= |b|
  {
    assert b == a + (b - a);
  }

  /** The risk of a symbol is the changed fraction of its lines, but never below a twentieth. */
  lemma RiskIsFraction(span: LineRange, hunks: seq<LineRange>)
    requires Disjoint(hunks) && span.start <= span.end
    ensures var f := |ChangedLines(span, hunks)| as real / LinesOf(span) as real;
      Risk(span, hunks) == (if f < 0.05 then 0.05 else f) <= 1.0
  {
    ChangedCounts(span, hunks);
    FractionAtMostOne(Changed(span, hunks), LinesOf(span));
  }

  lemma FractionAtMostOne(a: nat, b: nat)
    requires a <= b && b > 0
    ensures a as real / b as real <= 1.0
  {}

  // ---- extraction ----

  /** A parsed file: its tree, the declaring kinds, how nodes are named, whose it is, and the next identifier. */
  datatype Source = Source(root: Tree, kinds: Kinds, name: Tree -> Option<string>, path: string, adapter: string,
    next: nat)

  /** The target for the declaration found for hunk `i`. */
  function FoundTarget(src: Source, hunks: seq<LineRange>, i: nat, id: nat): Target
    requires i < |hunks| && SpanFor(src.root, src.kinds, hunks[i]).Some?
  {
    var b := Best(Examined(src.root, RowOf(hunks[i])), src.kinds).value;
    var kind := KindOf(src.kinds, b.kind);
    var span := SpanFor(src.root, src.kinds, hunks[i]).value;
    var known := if kind.Some? then kind.value else Hunk;
    Target(RunId(id), src.adapter, src.path, src.name(b), known, span, Risk(span, hunks))
  }

  /** What hunk `i` adds to the symbol targets: one for its span, if it has a new one. */
  ghost function NextSymbols(src: Source, hunks: seq<LineRange>, i: nat, before: seq<Target>): seq<Target>
    requires i < |hunks|
  {
    var span := SpanFor(src.root, src.kinds, hunks[i]);
    if span.None? || HasSpan(before, span.value) then before
    else before + [FoundTarget(src, hunks, i, src.next + |before|)]
  }

  /** The symbol targets after `n` hunks. */
  ghost function SymbolTargets(src: Source, hunks: seq<LineRange>, n: nat): seq<Target>
    requires n <= |hunks|
  {
    if n == 0 then [] else NextSymbols(src, hunks, n - 1, SymbolTargets(src, hunks, n - 1))
  }

  ghost predicate Listed(src: Source, hunks: seq<LineRange>, n: nat, ts: seq<Target>) {
    SymbolsOf(ts, src.root, src.kinds, src.name, hunks, n, src.path, src.adapter, src.next)
  }

  lemma {:induction false} SymbolsHold(src: Source, hunks: seq<LineRange>, n: nat, ts: seq<Target>)
    requires n <= |hunks| && ts == SymbolTargets(src, hunks, n)
    ensures Listed(src, hunks, n, ts)
  {
    if n == 0 {
      NoSymbolsYet(src, hunks);
    } else {
      var before := SymbolTargets(src, hunks, n - 1);
      SymbolsHold(src, hunks, n - 1, before);
      SymbolsStep(src, hunks, n - 1, before);
    }
  }

  lemma NoSymbolsYet(src: Source, hunks: seq<LineRange>)
    ensures Listed(src, hunks, 0, [])
  {}

  lemma SymbolsStep(src: Source, hunks: seq<LineRange>, m: nat, before: seq<Target>)
    requires m < |hunks| && Listed(src, hunks, m, before)
    ensures Listed(src, hunks, m + 1, NextSymbols(src, hunks, m, before))
  {
    var span := SpanFor(src.root, src.kinds, hunks[m]);
    if span.None? || HasSpan(before, span.value) {
      SameSymbols(before, src.root, src.kinds, src.name, hunks, m, src.path, src.adapter, src.next);
    } else {
      var t := FoundTarget(src, hunks, m, src.next + |before|);
      FoundIsExplained(src, hunks, m, src.next + |before|);
      MoreSymbols(before, src.root, src.kinds, src.name, hunks, m, src.path, src.adapter, src.next, t);
    }
  }

  lemma FoundIsExplained(src: Source, hunks: seq<LineRange>, i: nat, id: nat)
    requires i < |hunks| && SpanFor(src.root, src.kinds, hunks[i]).Some?
    ensures ExplainedBy(FoundTarget(src, hunks, i, id), src.root, src.kinds, src.name, hunks, i)
  {
    BestIsLeast(Examined(src.root, RowOf(hunks[i])), src.kinds);
  }

  /** What one hunk of `extract_with_grammar` does to the symbol targets; `false` leaves the hunk unmatched. */
  method MatchHunk(src: Source, capped: seq<LineRange>, i: nat, targets: seq<Target>, next: nat)
    returns (r: seq<Target>, next': nat, matched: bool)
    requires i < |capped| && WellNumbered(targets, src.path, src.adapter, src.next) && next == src.next + |targets|
    ensures r == NextSymbols(src, capped, i, targets) && next' == src.next + |r|
    ensures |r| <= |targets| + (if matched then 1 else 0)
      && (matched <==> SpanFor(src.root, src.kinds, capped[i]).Some?)
  {
    r, next', matched := targets, next, false;
    var found := Enclosing(src.root, RowOf(capped[i]), src.kinds);
    if found.None? { return; }
    var (node, kind) := found.value;
    var span := SpanOf(node);
    if span.None? { return; }
    matched := true;
    SpanListed(targets, src.path, src.adapter, src.next, span.value);
    if !exists t :: t in targets && t.path == src.path && t.span == span.value {
      var risk := SymbolRisk(span.value, capped);
      r := targets + [Target(RunId(next), src.adapter, src.path, src.name(node), kind, span.value, risk)];
      next' := next + 1;
    }
  }

  lemma SpanListed(ts: seq<Target>, path: string, adapter: string, next: nat, span: LineRange)
    requires WellNumbered(ts, path, adapter, next)
    ensures HasSpan(ts, span) <==> exists t :: t in ts && t.path == path && t.span == span
  {}

  lemma SameSymbols(ts: seq<Target>, root: Tree, kinds: Kinds, name: Tree -> Option<string>, hunks: seq<LineRange>,
                    n: nat, path: string, adapter: string, next: nat)
    requires n < |hunks| && SymbolsOf(ts, root, kinds, name, hunks, n, path, adapter, next)
    requires SpanFor(root, kinds, hunks[n]).Some? ==> HasSpan(ts, SpanFor(root, kinds, hunks[n]).value)
    ensures SymbolsOf(ts, root, kinds, name, hunks, n + 1, path, adapter, next)
  {
    ExplainedLater(ts, root, kinds, name, hunks, n);
  }

  lemma MoreSymbols(ts: seq<Target>, root: Tree, kinds: Kinds, name: Tree -> Option<string>, hunks: seq<LineRange>,
                    n: nat, path: string, adapter: string, next: nat, t: Target)
    requires n < |hunks| && SymbolsOf(ts, root, kinds, name, hunks, n, path, adapter, next)
    requires ExplainedBy(t, root, kinds, name, hunks, n) && !HasSpan(ts, t.span)
    requires t.id == RunId(next + |ts|) && t.path == path && t.adapter == adapter
    ensures SymbolsOf(ts + [t], root, kinds, name, hunks, n + 1, path, adapter, next)
  {
    ExplainedMore(ts, root, kinds, name, hunks, n, t);
    FoundMore(ts, root, kinds, hunks, n, t);
    NumberedMore(ts, path, adapter, next, t);
    DifferMore(ts, t);
  }

  lemma ExplainedLater(ts: seq<Target>, root: Tree, kinds: Kinds, name: Tree -> Option<string>, hunks: seq<LineRange>,
                       n: nat)
    requires n < |hunks| && AllExplained(ts, root, kinds, name, hunks, n)
    ensures AllExplained(ts, root, kinds, name, hunks, n + 1)
  {
    forall k | 0 <= k < |ts| ensures Explained(ts[k], root, kinds, name, hunks, n + 1) {
      LaterExplained(ts[k], root, kinds, name, hunks, n);
    }
  }

  lemma LaterExplained(t: Target, root: Tree, kinds: Kinds, name: Tree -> Option<string>, hunks: seq<LineRange>, n: nat)
    requires n < |hunks| && Explained(t, root, kinds, name, hunks, n)
    ensures Explained(t, root, kinds, name, hunks, n + 1)
  {
    var i :| 0 <= i < n && ExplainedBy(t, root, kinds, name, hunks, i);
    assert 0 <= i < n + 1 && ExplainedBy(t, root, kinds, name, hunks, i);
  }

  lemma ExplainedMore(ts: seq<Target>, root: Tree, kinds: Kinds, name: Tree -> Option<string>, hunks: seq<LineRange>,
                      n: nat, t: Target)
    requires n < |hunks| && AllExplained(ts, root, kinds, name, hunks, n) && ExplainedBy(t, root, kinds, name, hunks, n)
    ensures AllExplained(ts + [t], root, kinds, name, hunks, n + 1)
  {
    ExplainedLater(ts, root, kinds, name, hunks, n);
    assert Explained(t, root, kinds, name, hunks, n + 1);
  }

  lemma FoundMore(ts: seq<Target>, root: Tree, kinds: Kinds, hunks: seq<LineRange>, n: nat, t: Target)
    requires n < |hunks| && SpansFound(ts, root, kinds, hunks, n) && SpanFor(root, kinds, hunks[n]) == Some(t.span)
    ensures SpansFound(ts + [t], root, kinds, hunks, n + 1)
  {
    forall i | 0 <= i < n + 1 && SpanFor(root, kinds, hunks[i]).Some?
      ensures HasSpan(ts + [t], SpanFor(root, kinds, hunks[i]).value)
    {
      SpanAdded(ts, t, SpanFor(root, kinds, hunks[i]).value);
    }
  }

  lemma SpanAdded(ts: seq<Target>, t: Target, span: LineRange)
    ensures HasSpan(ts, span) || span == t.span ==> HasSpan(ts + [t], span)
  {
    assert t in ts + [t];
    assert forall u :: u in ts ==> u in ts + [t];
  }

  lemma NumberedMore(ts: seq<Target>, path: string, adapter: string, next: nat, t: Target)
    requires WellNumbered(ts, path, adapter, next) && t.id == RunId(next + |ts|) && t.path == path
      && t.adapter == adapter
    ensures WellNumbered(ts + [t], path, adapter, next)
  {}

  lemma DifferMore(ts: seq<Target>, t: Target)
    requires SpansDiffer(ts) && !HasSpan(ts, t.span)
    ensures SpansDiffer(ts + [t])
  {
    forall k | 0 <= k < |ts| ensures ts[k].span != t.span { assert ts[k] in ts; }
  }

  lemma SliceStep<T>(xs: seq<T>, m: nat, n: nat)
    requires m < n <= |xs|
    ensures xs[m..n] == xs[m..n - 1] + [xs[n - 1]]
  {}

  /** Past the cap every hunk is on its own. */
  lemma {:induction false} BeyondCap(root: Tree, kinds: Kinds, hunks: seq<LineRange>, n: nat)
    requires MAX_HUNKS <= n <= |hunks|
    ensures Unmatched(root, kinds, hunks, n) == Unmatched(root, kinds, hunks, MAX_HUNKS) + hunks[MAX_HUNKS..n]
  {
    if n == MAX_HUNKS {
    } else {
      BeyondCap(root, kinds, hunks, n - 1);
      SliceStep(hunks, MAX_HUNKS, n);
      Associative(Unmatched(root, kinds, hunks, MAX_HUNKS), hunks[MAX_HUNKS..n - 1], [hunks[n - 1]]);
    }
  }

  /** A hunk starts inside a target, or is one. */
  ghost predicate Covered(h: LineRange, targets: seq<Target>) {
    exists t :: t in targets && (InRange(h.start, t.span) || (t.kind == Hunk && t.span == h))
  }

  lemma {:induction false} UnmatchedHas(root: Tree, kinds: Kinds, hunks: seq<LineRange>, n: nat, i: nat)
    requires i < n <= |hunks|
    ensures hunks[i] in Unmatched(root, kinds, hunks, n) || (i < MAX_HUNKS && SpanFor(root, kinds, hunks[i]).Some?)
  {
    if i >= n - 1 {
    } else {
      UnmatchedHas(root, kinds, hunks, n - 1, i);
    }
  }

  lemma SpanHoldsRow(root: Tree, kinds: Kinds, h: LineRange)
    requires h.start >= 1 && SpanFor(root, kinds, h).Some?
    ensures InRange(h.start, SpanFor(root, kinds, h).value)
  {
    FoundContains(root, RowOf(h), kinds);
  }

  lemma EveryHunkCovered(ts: seq<Target>, root: Tree, kinds: Kinds, name: Tree -> Option<string>, hunks: seq<LineRange>,
                         path: string, adapter: string, next: nat, h: LineRange)
    requires SymbolsOf(ts, root, kinds, name, Capped(hunks), |Capped(hunks)|, path, adapter, next)
    requires h in hunks && h.start >= 1
    ensures Covered(h, ts + FallbackHunks(path, adapter, Unmatched(root, kinds, hunks, |hunks|), next + |ts|))
  {
    var rest := Unmatched(root, kinds, hunks, |hunks|);
    var fall := FallbackHunks(path, adapter, rest, next + |ts|);
    var i :| 0 <= i < |hunks| && hunks[i] == h;
    UnmatchedHas(root, kinds, hunks, |hunks|, i);
    if h in rest {
      var k :| 0 <= k < |rest| && rest[k] == h;
      assert fall[k] in ts + fall && fall[k].span == h;
    } else {
      assert Capped(hunks)[i] == h;
      SpanHoldsRow(root, kinds, h);
      var t :| t in ts && t.span == SpanFor(root, kinds, h).value;
      assert t in ts + fall;
    }
  }

  /**
   `extract_with_grammar` once the file has been parsed: `found` symbol targets with pairwise different spans,
   then a target for each hunk no declaration was found for.
   */
  method ExtractWithGrammar(src: Source, hunks: seq<LineRange>)
    returns (targets: seq<Target>, next: nat, ghost found: nat)
    ensures found <= |targets| <= |hunks| && next == src.next + |targets|
    ensures targets[..found] == SymbolTargets(src, Capped(hunks), |Capped(hunks)|)
    ensures targets[found..] ==
      FallbackHunks(src.path, src.adapter, Unmatched(src.root, src.kinds, hunks, |hunks|), src.next + found)
    ensures SymbolsOf(targets[..found], src.root, src.kinds, src.name, Capped(hunks), |Capped(hunks)|,
                      src.path, src.adapter, src.next)
    ensures forall h :: h in hunks && h.start >= 1 ==> Covered(h, targets)
  {
    var unmatched;
    targets, next, unmatched := MatchHunks(src, hunks);
    found := |targets|;
    ghost var symbols := targets;
    SymbolsHold(src, Capped(hunks), |Capped(hunks)|, targets);
    forall h | h in hunks && h.start >= 1
      ensures Covered(h, symbols + FallbackHunks(src.path, src.adapter, unmatched, src.next + found))
    {
      EveryHunkCovered(symbols, src.root, src.kinds, src.name, hunks, src.path, src.adapter, src.next, h);
    }
    var rest := FallbackHunks(src.path, src.adapter, unmatched, next);
    targets, next := targets + rest, next + |rest|;
    assert targets[..found] == symbols && targets[found..] == rest;
  }

  /** The loop over the capped hunks, and the hunks beyond. */
  method MatchHunks(src: Source, hunks: seq<LineRange>)
    returns (targets: seq<Target>, next: nat, unmatched: seq<LineRange>)
    ensures targets == SymbolTargets(src, Capped(hunks), |Capped(hunks)|) && next == src.next + |targets|
    ensures unmatched == Unmatched(src.root, src.kinds, hunks, |hunks|)
    ensures |targets| + |unmatched| <= |hunks|
  {
    targets, next, unmatched := MatchCapped(src, hunks, Capped(hunks));
    RestUnmatched(src.root, src.kinds, hunks);
    if |hunks| > MAX_HUNKS { unmatched := unmatched + hunks[MAX_HUNKS..]; }
  }

  lemma TargetsNumbered(src: Source, hunks: seq<LineRange>, n: nat, ts: seq<Target>)
    requires n <= |hunks| && ts == SymbolTargets(src, hunks, n)
    ensures WellNumbered(ts, src.path, src.adapter, src.next)
  {
    SymbolsHold(src, hunks, n, ts);
  }

  method MatchCapped(src: Source, ghost hunks: seq<LineRange>, capped: seq<LineRange>)
    returns (targets: seq<Target>, next: nat, unmatched: seq<LineRange>)
    requires capped <= hunks && |capped| <= MAX_HUNKS
    ensures targets == SymbolTargets(src, capped, |capped|) && next == src.next + |targets|
    ensures unmatched == Unmatched(src.root, src.kinds, hunks, |capped|)
    ensures |targets| + |unmatched| <= |capped|
  {
    targets, next, unmatched := [], src.next, [];
    for i := 0 to |capped|
      invariant targets == SymbolTargets(src, capped, i) && next == src.next + |targets|
      invariant unmatched == Unmatched(src.root, src.kinds, hunks, i) && |targets| + |unmatched| <= i
    {
      var matched;
      TargetsNumbered(src, capped, i, targets);
      targets, next, matched := MatchHunk(src, capped, i, targets, next);
      UnmatchedStep(src.root, src.kinds, hunks, i, matched);
      if !matched { unmatched := unmatched + [capped[i]]; }
    }
  }

  lemma UnmatchedStep(root: Tree, kinds: Kinds, hunks: seq<LineRange>, i: nat, matched: bool)
    requires i < |hunks| && i < MAX_HUNKS && (matched <==> SpanFor(root, kinds, hunks[i]).Some?)
    ensures Unmatched(root, kinds, hunks, i + 1) ==
      if matched then Unmatched(root, kinds, hunks, i) else Unmatched(root, kinds, hunks, i) + [hunks[i]]
  {}

  lemma RestUnmatched(root: Tree, kinds: Kinds, hunks: seq<LineRange>)
    ensures |hunks| > MAX_HUNKS ==>
      Unmatched(root, kinds, hunks, |hunks|) == Unmatched(root, kinds, hunks, MAX_HUNKS) + hunks[MAX_HUNKS..]
  {
    if |hunks| > MAX_HUNKS { BeyondCap(root, kinds, hunks, |hunks|); }
  }

  /** `extract_targets`: without a usable tree every hunk is its own target. */
  method ExtractTargets(tree: Option<Tree>, kinds: Kinds, name: Tree -> Option<string>, path: string, adapter: string,
                        hunks: seq<LineRange>, next: nat)
    returns (targets: seq<Target>, next': nat)
    ensures next' == next + |targets| && |targets| <= |hunks|
    ensures forall h :: h in hunks && h.start >= 1 ==> Covered(h, targets)
    ensures tree.None? ==> targets == FallbackHunks(path, adapter, hunks, next)
    ensures forall k :: 0 <= k < |targets| ==>
      targets[k].id == RunId(next + k) && targets[k].path == path && targets[k].adapter == adapter
    ensures forall j, k :: 0 <= j < k < |targets| && targets[j].kind != Hunk && targets[k].kind != Hunk ==>
      targets[j].span != targets[k].span
  {
    if hunks == [] { return [], next; }
    if tree.Some? {
      ghost var found;
      targets, next', found := ExtractWithGrammar(Source(tree.value, kinds, name, path, adapter, next), hunks);
      TargetsTogether(targets, found, tree.value, kinds, name, hunks, path, adapter, next);
      return;
    }
    targets := FallbackHunks(path, adapter, hunks, next);
    next' := next + |hunks|;
    forall h | h in hunks ensures Covered(h, targets) {
      var k :| 0 <= k < |hunks| && hunks[k] == h;
      assert targets[k].span == h;
    }
  }

  lemma TargetsTogether(ts: seq<Target>, found: nat, root: Tree, kinds: Kinds, name: Tree -> Option<string>,
                        hunks: seq<LineRange>, path: string, adapter: string, next: nat)
    requires found <= |ts|
    requires SymbolsOf(ts[..found], root, kinds, name, Capped(hunks), |Capped(hunks)|, path, adapter, next)
    requires ts[found..] == FallbackHunks(path, adapter, Unmatched(root, kinds, hunks, |hunks|), next + found)
    ensures forall k :: 0 <= k < |ts| ==> ts[k].id == RunId(next + k) && ts[k].path == path && ts[k].adapter == adapter
    ensures forall j, k :: 0 <= j < k < |ts| && ts[j].kind != Hunk && ts[k].kind != Hunk ==> ts[j].span != ts[k].span
  {
    forall k | 0 <= k < |ts|
      ensures ts[k].id == RunId(next + k) && ts[k].path == path && ts[k].adapter == adapter
        && (k >= found ==> ts[k].kind == Hunk)
    {
      if k < found { assert ts[..found][k] == ts[k]; } else { assert ts[found..][k - found] == ts[k]; }
    }
    forall j, k | 0 <= j < k < found ensures ts[j].span != ts[k].span {
      assert ts[..found][j] == ts[j] && ts[..found][k] == ts[k];
    }
  }
}
