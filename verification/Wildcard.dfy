/**
 The search shared by the two loops of `glob.rs`.

 The source has two loops with the same shape: a cursor in the pattern, a cursor in the subject, and
 one remembered star to fall back to.  `Wild` says what a wildcard pattern means; `Scan` is the run of
 such a loop; both are stated once, over any alphabet, and used for characters and for path segments.
 */
module Wildcard {
  import opened Wrappers

  /** What a pattern means: a star stands for any run of the subject, anything else for one element. */
  ghost predicate Wild<P(!new), S(!new)>(p: seq<P>, s: seq<S>, star: P -> bool, ok: (P, S) -> bool) {
    if p == [] then s == []
    else if star(p[0]) then exists k :: 0 <= k <= |s| && Wild(p[1..], s[k..], star, ok)
    else s != [] && ok(p[0], s[0]) && Wild(p[1..], s[1..], star, ok)
  }

  /** The loop variables of both matchers. */
  datatype Cursor = Cursor(pi: nat, si: nat, star: Option<nat>, mark: nat)

  const START := Cursor(0, 0, None, 0)

  /** Where the pattern part still being matched against `s[mark..si]` begins. */
  function Base(c: Cursor): nat {
    if c.star.Some? then c.star.value + 1 else 0
  }

  ghost predicate Legal<P, S>(p: seq<P>, s: seq<S>, star: P -> bool, c: Cursor) {
    && c.mark <= c.si <= |s|
    && Base(c) <= c.pi <= |p|
    && c.pi - Base(c) == c.si - c.mark
    && (if c.star.Some? then star(p[c.star.value]) else c.mark == 0)
  }

  /** The rest of a two-pointer run from `c`: one matching element first, then a star, then backtracking. */
  ghost predicate Scan<P(!new), S(!new)>(p: seq<P>, s: seq<S>, star: P -> bool, ok: (P, S) -> bool, c: Cursor)
    requires Legal(p, s, star, c)
    decreases |s| - c.mark, |p| - c.pi
  {
    if c.si == |s| then forall i :: c.pi <= i < |p| ==> star(p[i])
    else if c.pi < |p| && ok(p[c.pi], s[c.si]) then
      Scan(p, s, star, ok, c.(pi := c.pi + 1, si := c.si + 1))
    else if c.pi < |p| && star(p[c.pi]) then
      Scan(p, s, star, ok, Cursor(c.pi + 1, c.si, Some(c.pi), c.si))
    else if c.star.Some? then
      Scan(p, s, star, ok, Cursor(c.star.value + 1, c.mark + 1, c.star, c.mark + 1))
    else false
  }

  /** Work left in the worst case; every iteration of either loop lowers it. */
  function Potential<P, S>(p: seq<P>, s: seq<S>, c: Cursor): int {
    (|s| - c.mark) * (|p| + 1) + |p| - c.pi
  }

  lemma PotentialDrops<P, S>(p: seq<P>, s: seq<S>, c: Cursor, d: Cursor)
    requires c.pi <= |p| && 1 <= d.pi <= |p| && c.mark <= d.mark
    requires c.mark == d.mark ==> c.pi < d.pi
    ensures Potential(p, s, d) < Potential(p, s, c)
  {
    if c.mark < d.mark {
      assert (|s| - d.mark) * (|p| + 1) <= (|s| - c.mark - 1) * (|p| + 1);
    }
  }

  /** Where one iteration of the main loop takes the cursor, if it does not give up. */
  ghost function Next<P(!new), S(!new)>(p: seq<P>, s: seq<S>, star: P -> bool, ok: (P, S) -> bool,
                                        c: Cursor): Option<Cursor>
    requires c.si < |s|
  {
    if c.pi < |p| && ok(p[c.pi], s[c.si]) then Some(c.(pi := c.pi + 1, si := c.si + 1))
    else if c.pi < |p| && star(p[c.pi]) then Some(Cursor(c.pi + 1, c.si, Some(c.pi), c.si))
    else if c.star.Some? then Some(Cursor(c.star.value + 1, c.mark + 1, c.star, c.mark + 1))
    else None
  }

  /** How many iterations the main loop still makes. */
  ghost function Moves<P(!new), S(!new)>(p: seq<P>, s: seq<S>, star: P -> bool, ok: (P, S) -> bool, c: Cursor): nat
    requires Legal(p, s, star, c)
    decreases |s| - c.mark, |p| - c.pi
  {
    if c.si == |s| then 0
    else
      var next := Next(p, s, star, ok, c);
      if next.Some? then 1 + Moves(p, s, star, ok, next.value) else 0
  }

  /**
   What holds at the head of either loop: the answer and the moves still to come, and the work left covers
   `steps`.
   */
  ghost predicate OnTrack<P(!new), S(!new)>(p: seq<P>, s: seq<S>, star: P -> bool, ok: (P, S) -> bool, answer: bool,
                                            c: Cursor, steps: nat)
  {
    && Legal(p, s, star, c) && Scan(p, s, star, ok, c) == answer
    && steps + Moves(p, s, star, ok, c) == Moves(p, s, star, ok, START)
    && steps + Potential(p, s, c) <= Potential(p, s, START)
  }

  /** One iteration of either main loop. */
  lemma OneMove<P(!new), S(!new)>(p: seq<P>, s: seq<S>, star: P -> bool, ok: (P, S) -> bool, answer: bool, c: Cursor,
                                  steps: nat)
    requires OnTrack(p, s, star, ok, answer, c, steps) && c.si < |s|
    ensures match Next(p, s, star, ok, c)
      case Some(d) => OnTrack(p, s, star, ok, answer, d, steps + 1) && c.mark <= d.mark
        && (c.mark == d.mark ==> c.pi < d.pi)
      case None => !answer
  {
    var next := Next(p, s, star, ok, c);
    if next.Some? { PotentialDrops(p, s, c, next.value); }
  }

  /** An iteration that tests for the star first, given what its two tests answer. */
  function StarFirst(c: Cursor, stars: bool, hit: bool): Option<Cursor> {
    if stars then Some(Cursor(c.pi + 1, c.si, Some(c.pi), c.si))
    else if hit then Some(c.(pi := c.pi + 1, si := c.si + 1))
    else if c.star.Some? then Some(Cursor(c.star.value + 1, c.mark + 1, c.star, c.mark + 1))
    else None
  }

  /** The order of the tests makes no difference if no star also matches literally. */
  lemma StarFirstMove<P(!new), S(!new)>(p: seq<P>, s: seq<S>, star: P -> bool, ok: (P, S) -> bool, c: Cursor,
                                        stars: bool, hit: bool)
    requires c.si < |s|
    requires stars == (c.pi < |p| && star(p[c.pi])) && hit == (c.pi < |p| && ok(p[c.pi], s[c.si])) && !(stars && hit)
    ensures StarFirst(c, stars, hit) == Next(p, s, star, ok, c)
  {}

  /** Element by element, with no freedom: what a run has matched since its last star. */
  ghost predicate Fits<P, S>(b: seq<P>, x: seq<S>, ok: (P, S) -> bool) {
    |b| == |x| && forall i :: 0 <= i < |b| ==> ok(b[i], x[i])
  }

  /** A fitted block followed by a match is a match, even if the block holds stars. */
  lemma {:induction false} FitsThen<P(!new), S(!new)>(b: seq<P>, x: seq<S>, r: seq<P>, y: seq<S>, star: P -> bool,
          ok: (P, S) -> bool)
    requires Fits(b, x, ok) && Wild(r, y, star, ok)
    ensures Wild(b + r, x + y, star, ok)
  {
    if b == [] {
      assert b + r == r && x + y == y;
    } else {
      assert forall i :: 0 <= i < |b| - 1 ==> ok(b[1..][i], x[1..][i]);
      FitsThen(b[1..], x[1..], r, y, star, ok);
      assert (b + r)[1..] == b[1..] + r && (x + y)[1..] == x[1..] + y;
    }
  }

  /** A block without stars takes exactly its own length from the front of the subject. */
  lemma {:induction false} BlockTakes<P(!new), S(!new)>(b: seq<P>, r: seq<P>, s: seq<S>, star: P -> bool,
          ok: (P, S) -> bool)
    requires forall x :: x in b ==> !star(x)
    ensures Wild(b + r, s, star, ok) <==>
            |b| <= |s| && Fits(b, s[..|b|], ok) && Wild(r, s[|b|..], star, ok)
  {
    if b == [] {
      assert b + r == r && s[0..] == s;
    } else if s != [] {
      BlockTakes(b[1..], r, s[1..], star, ok);
      assert (b + r)[1..] == b[1..] + r;
      if |b| <= |s| {
        assert s[1..][..|b| - 1] == s[..|b|][1..];
        assert s[1..][|b| - 1..] == s[|b|..];
        assert Fits(b, s[..|b|], ok) <==> ok(b[0], s[0]) && Fits(b[1..], s[..|b|][1..], ok) by {
          if ok(b[0], s[0]) && Fits(b[1..], s[..|b|][1..], ok) {
            forall i | 0 <= i < |b| ensures ok(b[i], s[..|b|][i]) {
              if i > 0 { assert ok(b[1..][i - 1], s[..|b|][1..][i - 1]); }
            }
          }
        }
      }
    }
  }

  /** A pattern that starts with a star matches a longer subject whenever it matches a suffix of it. */
  lemma StarAbsorbs<P(!new), S(!new)>(p: seq<P>, s: seq<S>, m: nat, star: P -> bool, ok: (P, S) -> bool)
    requires p != [] && star(p[0]) && m <= |s| && Wild(p, s[m..], star, ok)
    ensures Wild(p, s, star, ok)
  {
    var k :| 0 <= k <= |s[m..]| && Wild(p[1..], s[m..][k..], star, ok);
    assert s[m..][k..] == s[m + k..];
  }

  lemma {:induction false} OnlyStarsMatchNothing<P(!new), S(!new)>(p: seq<P>, s: seq<S>, star: P -> bool,
          ok: (P, S) -> bool)
    requires s == []
    ensures Wild(p, s, star, ok) <==> forall i :: 0 <= i < |p| ==> star(p[i])
  {
    if p == [] {
    } else {
      assert s[0..] == s;
      OnlyStarsMatchNothing(p[1..], s, star, ok);
      if star(p[0]) && forall i :: 0 <= i < |p[1..]| ==> star(p[1..][i]) {
        forall i | 0 <= i < |p| ensures star(p[i]) {
          if i > 0 { assert star(p[1..][i - 1]); }
        }
      }
    }
  }

  /** What remains to be matched once everything before the remembered star is settled. */
  ghost predicate Pending<P(!new), S(!new)>(p: seq<P>, s: seq<S>, star: P -> bool, ok: (P, S) -> bool, c: Cursor)
    requires Legal(p, s, star, c)
  {
    Wild(p[if c.star.Some? then c.star.value else 0..], s[c.mark..], star, ok)
  }

  lemma Rejoin<T>(s: seq<T>, a: nat, b: nat)
    requires a <= b <= |s|
    ensures s[a..b] + s[b..] == s[a..]
  {}

  /** A star may stand for nothing. */
  lemma StarTakesNone<P(!new), S(!new)>(p: seq<P>, s: seq<S>, star: P -> bool, ok: (P, S) -> bool)
    requires p != [] && star(p[0]) && Wild(p[1..], s, star, ok)
    ensures Wild(p, s, star, ok)
  {
    assert s[0..] == s;
  }

  /** From a fitted block, matching the rest is enough. */
  lemma FinishBlock<P(!new), S(!new)>(p: seq<P>, s: seq<S>, star: P -> bool, ok: (P, S) -> bool, c: Cursor)
    requires Legal(p, s, star, c) && Fits(p[Base(c)..c.pi], s[c.mark..c.si], ok)
    requires Wild(p[c.pi..], s[c.si..], star, ok)
    ensures Pending(p, s, star, ok, c)
  {
    FitsThen(p[Base(c)..c.pi], s[c.mark..c.si], p[c.pi..], s[c.si..], star, ok);
    Rejoin(p, Base(c), c.pi);
    Rejoin(s, c.mark, c.si);
    if c.star.Some? {
      assert p[c.star.value..][1..] == p[Base(c)..];
      StarTakesNone(p[c.star.value..], s[c.mark..], star, ok);
    }
  }

  /** One more matching element extends the fitted block. */
  lemma OneMoreFits<P, S>(p: seq<P>, s: seq<S>, a: nat, b: nat, x: nat, y: nat, ok: (P, S) -> bool)
    requires a <= b < |p| && x <= y < |s| && Fits(p[a..b], s[x..y], ok) && ok(p[b], s[y])
    ensures Fits(p[a..b + 1], s[x..y + 1], ok)
  {
    assert p[a..b + 1] == p[a..b] + [p[b]] && s[x..y + 1] == s[x..y] + [s[y]];
  }

  /** Moving the mark of the remembered star forward is the star taking one more element. */
  lemma StarTakesOne<P(!new), S(!new)>(p: seq<P>, s: seq<S>, star: P -> bool, ok: (P, S) -> bool, c: Cursor)
    requires Legal(p, s, star, c) && c.star.Some? && c.mark < |s| && Wild(p[c.star.value..], s[c.mark + 1..], star, ok)
    ensures Pending(p, s, star, ok, c)
  {
    assert s[c.mark..][1..] == s[c.mark + 1..];
    StarAbsorbs(p[c.star.value..], s[c.mark..], 1, star, ok);
  }

  /** SOUND on every input: a run that answers true has found a match, whatever the subject contains. */
  lemma {:induction false} ScanSound<P(!new), S(!new)>(p: seq<P>, s: seq<S>, star: P -> bool, ok: (P, S) -> bool,
          c: Cursor)
    requires Legal(p, s, star, c) && Fits(p[Base(c)..c.pi], s[c.mark..c.si], ok)
    requires Scan(p, s, star, ok, c)
    ensures Pending(p, s, star, ok, c)
    decreases |s| - c.mark, |p| - c.pi
  {
    if c.si == |s| {
      OnlyStarsMatchNothing(p[c.pi..], s[c.si..], star, ok);
      FinishBlock(p, s, star, ok, c);
    } else if c.pi < |p| && ok(p[c.pi], s[c.si]) {
      OneMoreFits(p, s, Base(c), c.pi, c.mark, c.si, ok);
      ScanSound(p, s, star, ok, c.(pi := c.pi + 1, si := c.si + 1));
    } else if c.pi < |p| && star(p[c.pi]) {
      ScanSound(p, s, star, ok, Cursor(c.pi + 1, c.si, Some(c.pi), c.si));
      FinishBlock(p, s, star, ok, c);
    } else {
      var sp := c.star.value;
      ScanSound(p, s, star, ok, Cursor(sp + 1, c.mark + 1, c.star, c.mark + 1));
      StarTakesOne(p, s, star, ok, c);
    }
  }

  /** No pattern star can be taken for an element of the subject. */
  ghost predicate StarsStandOut<P(!new), S(!new)>(s: seq<S>, star: P -> bool, ok: (P, S) -> bool) {
    forall x: P, y :: star(x) && y in s ==> !ok(x, y)
  }

  /** Where a pending block starts: at `mark`, or somewhere behind it if a star is remembered. */
  lemma PendingBlock<P(!new), S(!new)>(p: seq<P>, s: seq<S>, star: P -> bool, ok: (P, S) -> bool, c: Cursor)
    returns (from: nat)
    requires Legal(p, s, star, c) && Pending(p, s, star, ok, c)
    ensures c.mark <= from <= |s| && Wild(p[Base(c)..], s[from..], star, ok)
    ensures c.star.None? ==> from == c.mark
  {
    from := c.mark;
    if c.star.Some? {
      assert p[c.star.value..][1..] == p[Base(c)..];
      var k :| 0 <= k <= |s[c.mark..]| && Wild(p[Base(c)..], s[c.mark..][k..], star, ok);
      assert s[c.mark..][k..] == s[c.mark + k..];
      from := c.mark + k;
    }
  }

  /**
   Remembering a new star may forget the old one: everything the old one could still reach is reachable from the
   new one.
   */
  lemma NewStarLosesNothing<P(!new), S(!new)>(p: seq<P>, s: seq<S>, star: P -> bool, ok: (P, S) -> bool, c: Cursor)
    requires Legal(p, s, star, c) && c.pi < |p| && star(p[c.pi])
    requires forall i :: Base(c) <= i < c.pi ==> !star(p[i])
    requires Pending(p, s, star, ok, c)
    ensures Wild(p[c.pi..], s[c.si..], star, ok)
  {
    var b, r := p[Base(c)..c.pi], p[c.pi..];
    var from := PendingBlock(p, s, star, ok, c);
    Rejoin(p, Base(c), c.pi);
    BlockTakes(b, r, s[from..], star, ok);
    var skip := from + |b| - c.si;
    assert s[from..][|b|..] == s[c.si..][skip..];
    StarAbsorbs(r, s[c.si..], skip, star, ok);
  }

  /** A mismatch rules out the current position of the remembered star. */
  lemma MismatchRulesOut<P(!new), S(!new)>(p: seq<P>, s: seq<S>, star: P -> bool, ok: (P, S) -> bool, c: Cursor)
    requires Legal(p, s, star, c) && c.si < |s|
    requires forall i :: Base(c) <= i < c.pi ==> !star(p[i])
    requires c.pi < |p| ==> !star(p[c.pi]) && !ok(p[c.pi], s[c.si])
    requires Pending(p, s, star, ok, c)
    ensures c.star.Some? && Wild(p[c.star.value..], s[c.mark + 1..], star, ok)
  {
    var b, r := p[Base(c)..c.pi], p[c.pi..];
    assert p[Base(c)..] == b + r;
    BlockTakes(b, r, s[c.mark..], star, ok);
    assert s[c.mark..][|b|..] == s[c.si..];
    assert !Wild(r, s[c.si..], star, ok);
    assert !Wild(b + r, s[c.mark..], star, ok);
    var k :| 0 <= k <= |s[c.mark..]| && Wild(p[c.star.value..][1..], s[c.mark..][k..], star, ok);
    assert p[c.star.value..][1..] == b + r;
    assert k > 0 by { assert s[c.mark..][0..] == s[c.mark..]; }
    assert s[c.mark..][k..] == s[c.mark + 1..][k - 1..];
  }

  /** At the end of the subject only the current position of the remembered star is left to try. */
  lemma EndOfSubject<P(!new), S(!new)>(p: seq<P>, s: seq<S>, star: P -> bool, ok: (P, S) -> bool, c: Cursor)
    requires Legal(p, s, star, c) && c.si == |s|
    requires forall i :: Base(c) <= i < c.pi ==> !star(p[i])
    requires Pending(p, s, star, ok, c)
    ensures forall i :: c.pi <= i < |p| ==> star(p[i])
  {
    var b, r := p[Base(c)..c.pi], p[c.pi..];
    assert p[Base(c)..] == b + r;
    var k: nat := 0;
    if c.star.Some? {
      assert p[c.star.value..][1..] == b + r;
      k :| 0 <= k <= |s[c.mark..]| && Wild(b + r, s[c.mark..][k..], star, ok);
    } else {
      assert s[c.mark..][0..] == s[c.mark..];
    }
    BlockTakes(b, r, s[c.mark..][k..], star, ok);
    assert s[c.mark..][k..][|b|..] == [];
    OnlyStarsMatchNothing(r, s[c.mark..][k..][|b|..], star, ok);
    forall i | c.pi <= i < |p| ensures star(p[i]) { assert r[i - c.pi] == p[i]; }
  }

  /** COMPLETE when stars stand out: the run finds every match, although it remembers one star only. */
  lemma {:induction false} ScanComplete<P(!new), S(!new)>(p: seq<P>, s: seq<S>, star: P -> bool, ok: (P, S) -> bool,
          c: Cursor)
    requires Legal(p, s, star, c) && StarsStandOut(s, star, ok)
    requires forall i :: Base(c) <= i < c.pi ==> !star(p[i])
    requires Pending(p, s, star, ok, c)
    ensures Scan(p, s, star, ok, c)
    decreases |s| - c.mark, |p| - c.pi
  {
    if c.si == |s| {
      EndOfSubject(p, s, star, ok, c);
    } else if c.pi < |p| && ok(p[c.pi], s[c.si]) {
      ScanComplete(p, s, star, ok, c.(pi := c.pi + 1, si := c.si + 1));
    } else if c.pi < |p| && star(p[c.pi]) {
      NewStarLosesNothing(p, s, star, ok, c);
      ScanComplete(p, s, star, ok, Cursor(c.pi + 1, c.si, Some(c.pi), c.si));
    } else {
      MismatchRulesOut(p, s, star, ok, c);
      ScanComplete(p, s, star, ok, Cursor(c.star.value + 1, c.mark + 1, c.star, c.mark + 1));
    }
  }

  /** The two halves together, from the start of a run. */
  lemma ScanDecides<P(!new), S(!new)>(p: seq<P>, s: seq<S>, star: P -> bool, ok: (P, S) -> bool)
    ensures Scan(p, s, star, ok, START) ==> Wild(p, s, star, ok)
    ensures StarsStandOut(s, star, ok) ==> (Scan(p, s, star, ok, START) <==> Wild(p, s, star, ok))
  {
    assert p[0..] == p && s[0..] == s;
    if Scan(p, s, star, ok, START) { ScanSound(p, s, star, ok, START); }
    if StarsStandOut(s, star, ok) && Wild(p, s, star, ok) { ScanComplete(p, s, star, ok, START); }
  }

  /** `Wild` depends only on the answers `ok` gives about elements that occur. */
  lemma {:induction false} WildCongruence<P(!new), S(!new)>(p: seq<P>, s: seq<S>, star: P -> bool, ok: (P, S) -> bool,
          ok': (P, S) -> bool)
    requires forall x, y :: x in p && y in s && !star(x) && ok(x, y) ==> ok'(x, y)
    requires Wild(p, s, star, ok)
    ensures Wild(p, s, star, ok')
  {
    if p != [] && star(p[0]) {
      var k :| 0 <= k <= |s| && Wild(p[1..], s[k..], star, ok);
      WildCongruence(p[1..], s[k..], star, ok, ok');
    } else if p != [] {
      WildCongruence(p[1..], s[1..], star, ok, ok');
    }
  }

  // ---- how slow a run can be ----

  /** One star, `m` elements that match everything in the subject, and one that matches nothing. */
  function SlowPattern<P>(z: P, x: P, y: P, m: nat): (p: seq<P>)
    ensures |p| == m + 2 && p[0] == z && p[m + 1] == y && forall i :: 1 <= i <= m ==> p[i] == x
  {
    [z] + seq(m, _ => x) + [y]
  }

  function Copies<S>(u: S, n: nat): (s: seq<S>)
    ensures |s| == n && forall i :: 0 <= i < n ==> s[i] == u
  {
    seq(n, _ => u)
  }

  ghost predicate Slow<P, S>(z: P, x: P, y: P, u: S, star: P -> bool, ok: (P, S) -> bool) {
    star(z) && !star(x) && !star(y) && !ok(z, u) && ok(x, u) && !ok(y, u)
  }

  /** From one position of the star the run matches all `m` elements before it moves the star. */
  lemma {:induction false} SlowSweep<P(!new), S(!new)>(z: P, x: P, y: P, u: S, m: nat, n: nat, star: P -> bool,
          ok: (P, S) -> bool, k: nat, i: nat)
    requires Slow(z, x, y, u, star, ok) && i <= m && k + m < n
    ensures var p, s := SlowPattern(z, x, y, m), Copies(u, n);
      Moves(p, s, star, ok, Cursor(1 + i, k + i, Some(0), k)) ==
        m - i + 1 + Moves(p, s, star, ok, Cursor(1, k + 1, Some(0), k + 1))
    decreases m - i
  {
    if i == m {
    } else {
      SlowSweep(z, x, y, u, m, n, star, ok, k, i + 1);
    }
  }

  lemma {:induction false} SlowSweeps<P(!new), S(!new)>(z: P, x: P, y: P, u: S, m: nat, n: nat, star: P -> bool,
          ok: (P, S) -> bool, k: nat)
    requires Slow(z, x, y, u, star, ok) && k + m <= n
    ensures Moves(SlowPattern(z, x, y, m), Copies(u, n), star, ok, Cursor(1, k, Some(0), k)) >= (n - m - k) * (m + 1)
    decreases n - k
  {
    if k + m == n {
    } else {
      SlowSweep(z, x, y, u, m, n, star, ok, k, 0);
      SlowSweeps(z, x, y, u, m, n, star, ok, k + 1);
      assert (n - m - k) * (m + 1) == (n - m - (k + 1)) * (m + 1) + (m + 1);
    }
  }

  /**
   NOT LINEAR: with `m` elements behind the star, each but the last `m` positions of the subject costs `m + 1`
   moves.
   */
  lemma SlowRun<P(!new), S(!new)>(z: P, x: P, y: P, u: S, m: nat, n: nat, star: P -> bool, ok: (P, S) -> bool)
    requires Slow(z, x, y, u, star, ok) && m <= n
    ensures Moves(SlowPattern(z, x, y, m), Copies(u, n), star, ok, START) >= (n - m) * (m + 1)
  {
    if n == 0 {
    } else {
      SlowSweeps(z, x, y, u, m, n, star, ok, 0);
    }
  }
}
