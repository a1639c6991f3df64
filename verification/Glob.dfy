/** The matcher for include/exclude patterns (`glob.rs`): `?`, `*` within a segment, `**` over segments. */
module Glob {
  import opened Wrappers
  import opened Wildcard
  import opened Text

  const MAX_GLOB_LEN := 512
  const MAX_PATH_LEN := 4096

  predicate IsStar(x: char) { x == '*' }

  predicate CharOk(x: char, y: char) { x == '?' || x == y }

  /** What a pattern means within one segment. */
  ghost predicate SegmentMeaning(p: string, s: string) {
    Wild(p, s, IsStar, CharOk)
  }

  /** What the character loop answers. */
  ghost predicate SegmentAnswer(p: string, s: string) {
    Scan(p, s, IsStar, CharOk, START)
  }

  predicate IsGlobStar(x: string) { x == "**" }

  ghost predicate SegmentOk(x: string, y: string) { x != "**" && SegmentAnswer(x, y) }

  /** What a pattern means over path segments. */
  ghost predicate PathMeaning(pat: seq<string>, path: seq<string>) {
    Wild(pat, path, IsGlobStar, SegmentMeaning)
  }

  /** What the segment loop answers. */
  ghost predicate PathAnswer(pat: seq<string>, path: seq<string>) {
    Scan(pat, path, IsGlobStar, SegmentOk, START)
  }

  /** The loop over the stars left at the end of a segment pattern. */
  method TrailingStars(p: string, from: nat) returns (pi: nat)
    requires from <= |p|
    ensures from <= pi <= |p| && (pi == |p| <==> forall i :: from <= i < |p| ==> IsStar(p[i]))
  {
    pi := from;
    while pi < |p| && p[pi] == '*'
      invariant from <= pi <= |p| && forall i :: from <= i < pi ==> p[i] == '*'
    {
      pi := pi + 1;
    }
  }

  /** The same at the end of a path pattern. */
  method TrailingGlobStars(pat: seq<string>, from: nat) returns (pi: nat)
    requires from <= |pat|
    ensures from <= pi <= |pat| && (pi == |pat| <==> forall i :: from <= i < |pat| ==> IsGlobStar(pat[i]))
  {
    pi := from;
    while pi < |pat| && pat[pi] == "**"
      invariant from <= pi <= |pat| && forall i :: from <= i < pi ==> pat[i] == "**"
    {
      pi := pi + 1;
    }
  }

  /** The main loop gives up. */
  lemma GivesUp<P(!new), S(!new)>(p: seq<P>, s: seq<S>, star: P -> bool, ok: (P, S) -> bool, answer: bool, c: Cursor,
                                  steps: nat)
    requires OnTrack(p, s, star, ok, answer, c, steps) && c.si < |s| && Next(p, s, star, ok, c).None?
    ensures !answer && Moves(p, s, star, ok, START) <= steps < (|p| + 1) * (|s| + 1)
  {
    OneMove(p, s, star, ok, answer, c, steps);
    BoundFromPotential(p, s, c, steps);
  }

  /** The main loop ends, and the stars left over are skipped up to `pi`. */
  lemma AfterStars<P(!new), S(!new)>(p: seq<P>, s: seq<S>, star: P -> bool, ok: (P, S) -> bool, answer: bool, c: Cursor,
                                     steps: nat, pi: nat)
    requires OnTrack(p, s, star, ok, answer, c, steps) && c.si == |s| && c.pi <= pi <= |p|
    ensures answer <==> forall i :: c.pi <= i < |p| ==> star(p[i])
    ensures Moves(p, s, star, ok, START) <= steps + (pi - c.pi) < (|p| + 1) * (|s| + 1)
  {
    BoundFromPotential(p, s, c.(pi := pi), steps + (pi - c.pi));
  }

  /** `segment_match`. */
  method SegmentMatch(p: string, s: string) returns (r: bool, ghost steps: nat)
    ensures r == SegmentAnswer(p, s)
    ensures r ==> SegmentMeaning(p, s)
    ensures '*' !in s ==> (r <==> SegmentMeaning(p, s))
    ensures Moves(p, s, IsStar, CharOk, START) <= steps < (|p| + 1) * (|s| + 1)
  {
    SegmentDecides(p, s);
    r, steps := RunCharacters(p, s, SegmentAnswer(p, s));
  }

  /** The two loops of `segment_match`. */
  method RunCharacters(p: string, s: string, ghost answer: bool) returns (r: bool, ghost steps: nat)
    requires OnTrack(p, s, IsStar, CharOk, answer, START, 0)
    ensures r == answer && Moves(p, s, IsStar, CharOk, START) <= steps < (|p| + 1) * (|s| + 1)
  {
    var pi: nat, si: nat := 0, 0;
    var star: Option<nat> := None;
    var mark: nat := 0;
    steps := 0;
    while si < |s|
      invariant OnTrack(p, s, IsStar, CharOk, answer, Cursor(pi, si, star, mark), steps)
      decreases |s| - mark, |p| - pi
    {
      ghost var was := Cursor(pi, si, star, mark);
      OneMove(p, s, IsStar, CharOk, answer, was, steps);
      if pi < |p| && (p[pi] == '?' || p[pi] == s[si]) {
        pi, si := pi + 1, si + 1;
      } else if pi < |p| && p[pi] == '*' {
        star, mark := Some(pi), si;
        pi := pi + 1;
      } else if star.Some? {
        pi, mark := star.value + 1, mark + 1;
        si := mark;
      } else {
        GivesUp(p, s, IsStar, CharOk, answer, was, steps);
        return false, steps;
      }
      assert Next(p, s, IsStar, CharOk, was) == Some(Cursor(pi, si, star, mark));
      steps := steps + 1;
    }
    ghost var c := Cursor(pi, si, star, mark);
    pi := TrailingStars(p, pi);
    AfterStars(p, s, IsStar, CharOk, answer, c, steps, pi);
    steps := steps + (pi - c.pi);
    r := pi == |p|;
  }

  /** The guard of the literal-segment branch. */
  method SegmentHit(pat: seq<string>, pi: nat, segment: string) returns (hit: bool)
    ensures hit == (pi < |pat| && SegmentOk(pat[pi], segment))
  {
    hit := false;
    if pi < |pat| && pat[pi] != "**" {
      ghost var steps;
      hit, steps := SegmentMatch(pat[pi], segment);
    }
  }

  /** `match_segments`. */
  method MatchSegments(pat: seq<string>, path: seq<string>) returns (r: bool, ghost steps: nat)
    ensures r == PathAnswer(pat, path)
    ensures r ==> PathMeaning(pat, path)
    ensures (forall y :: y in path ==> '*' !in y) ==> (r <==> PathMeaning(pat, path))
    ensures Moves(pat, path, IsGlobStar, SegmentOk, START) <= steps < (|pat| + 1) * (|path| + 1)
  {
    PathDecides(pat, path);
    r, steps := RunSegments(pat, path, PathAnswer(pat, path));
  }

  /** The two loops of `match_segments`. */
  method RunSegments(pat: seq<string>, path: seq<string>, ghost answer: bool) returns (r: bool, ghost steps: nat)
    requires OnTrack(pat, path, IsGlobStar, SegmentOk, answer, START, 0)
    ensures r == answer && Moves(pat, path, IsGlobStar, SegmentOk, START) <= steps < (|pat| + 1) * (|path| + 1)
  {
    var pi: nat, si: nat := 0, 0;
    var star: Option<nat> := None;
    var mark: nat := 0;
    steps := 0;
    while si < |path|
      invariant OnTrack(pat, path, IsGlobStar, SegmentOk, answer, Cursor(pi, si, star, mark), steps)
      decreases |path| - mark, |pat| - pi
    {
      ghost var was := Cursor(pi, si, star, mark);
      var hit := SegmentHit(pat, pi, path[si]);
      ghost var stars := pi < |pat| && IsGlobStar(pat[pi]);
      StarFirstMove(pat, path, IsGlobStar, SegmentOk, was, stars, hit);
      OneMove(pat, path, IsGlobStar, SegmentOk, answer, was, steps);
      if pi < |pat| && pat[pi] == "**" {
        star, mark := Some(pi), si;
        pi := pi + 1;
      } else if hit {
        pi, si := pi + 1, si + 1;
      } else if star.Some? {
        pi, mark := star.value + 1, mark + 1;
        si := mark;
      } else {
        GivesUp(pat, path, IsGlobStar, SegmentOk, answer, was, steps);
        return false, steps;
      }
      assert StarFirst(was, stars, hit) == Some(Cursor(pi, si, star, mark));
      steps := steps + 1;
    }
    ghost var c := Cursor(pi, si, star, mark);
    pi := TrailingGlobStars(pat, pi);
    AfterStars(pat, path, IsGlobStar, SegmentOk, answer, c, steps, pi);
    steps := steps + (pi - c.pi);
    r := pi == |pat|;
  }

  /** What `glob_match` answers: nothing over the caps, else what the segment loop answers. */
  ghost predicate GlobAnswer(pattern: string, path: string) {
    Bytes(pattern) <= MAX_GLOB_LEN && Bytes(path) <= MAX_PATH_LEN && PathAnswer(Split(pattern, '/'), Split(path, '/'))
  }

  ghost predicate GlobMeaning(pattern: string, path: string) {
    PathMeaning(Split(pattern, '/'), Split(path, '/'))
  }

  /** `glob_match`. */
  method GlobMatch(pattern: string, path: string) returns (r: bool)
    ensures r == GlobAnswer(pattern, path)
    ensures r ==> GlobMeaning(pattern, path)
    ensures '*' !in path && Bytes(pattern) <= MAX_GLOB_LEN && Bytes(path) <= MAX_PATH_LEN ==>
              (r <==> GlobMeaning(pattern, path))
  {
    if Bytes(pattern) > MAX_GLOB_LEN || Bytes(path) > MAX_PATH_LEN { return false; }
    ghost var steps;
    r, steps := MatchSegments(Split(pattern, '/'), Split(path, '/'));
    PiecesWithin(path, '/');
  }

  lemma BoundFromPotential<P, S>(p: seq<P>, s: seq<S>, c: Cursor, steps: nat)
    requires c.pi <= |p| && c.mark <= |s|
    requires steps + Potential(p, s, c) <= Potential(p, s, START)
    ensures steps < (|p| + 1) * (|s| + 1)
  {
    assert 0 <= (|s| - c.mark) * (|p| + 1);
  }

  /** The character loop is sound always and complete on segments without a literal star. */
  lemma SegmentDecides(p: string, s: string)
    ensures SegmentAnswer(p, s) ==> SegmentMeaning(p, s)
    ensures '*' !in s ==> (SegmentAnswer(p, s) <==> SegmentMeaning(p, s))
  {
    ScanDecides(p, s, IsStar, CharOk);
  }

  /** The segment loop is sound always and complete on paths without a literal star. */
  lemma PathDecides(pat: seq<string>, path: seq<string>)
    ensures PathAnswer(pat, path) ==> PathMeaning(pat, path)
    ensures (forall y :: y in path ==> '*' !in y) ==> (PathAnswer(pat, path) <==> PathMeaning(pat, path))
  {
    ScanDecides(pat, path, IsGlobStar, SegmentOk);
    forall x, y | SegmentOk(x, y) ensures SegmentMeaning(x, y) { SegmentDecides(x, y); }
    if Wild(pat, path, IsGlobStar, SegmentOk) {
      WildCongruence(pat, path, IsGlobStar, SegmentOk, SegmentMeaning);
    }
    if (forall y :: y in path ==> '*' !in y) && PathMeaning(pat, path) {
      forall x, y | x in pat && y in path && !IsGlobStar(x) && SegmentMeaning(x, y)
        ensures SegmentOk(x, y)
      {
        SegmentDecides(x, y);
      }
      WildCongruence(pat, path, IsGlobStar, SegmentMeaning, SegmentOk);
    }
  }

  // ---- where the code and the meaning part ----

  function Wilds(n: nat): (r: string)
    ensures |r| == n && forall i :: 0 <= i < n ==> r[i] == '?'
  {
    seq(n, _ => '?')
  }

  /** A pattern the code gets wrong on `s`, built from the position `j` of a literal star in it. */
  function Trap(n: nat, j: nat): (r: string)
    requires j < n
    ensures |r| == n + 1 && r[j] == '*' && forall i :: 0 <= i <= n && i != j ==> r[i] == '?'
  {
    Wilds(j) + "*" + Wilds(n - j)
  }

  /** Any run of `?` matches any run of the same length. */
  lemma {:induction false} WildsMean(n: nat, s: string)
    requires |s| == n
    ensures SegmentMeaning(Wilds(n), s) && SegmentAnswer(Wilds(n), s)
  {
    assert Wilds(n) + "" == Wilds(n) && s + "" == s;
    FitsThen(Wilds(n), s, "", "", IsStar, CharOk);
    WildsRun(s, 0);
  }

  lemma {:induction false} WildsRun(s: string, i: nat)
    requires i <= |s|
    ensures Scan(Wilds(|s|), s, IsStar, CharOk, Cursor(i, i, None, 0))
    decreases |s| - i
  {
    if i == |s| {
    } else {
      WildsRun(s, i + 1);
    }
  }

  lemma TrapMeans(s: string, j: nat)
    requires j < |s|
    ensures SegmentMeaning(Trap(|s|, j), s)
  {
    var tail := "*" + Wilds(|s| - j);
    WildsMean(|s| - j, s[j..]);
    assert tail[1..] == Wilds(|s| - j) && s[j..][0..] == s[j..];
    assert SegmentMeaning(tail, s[j..]);
    FitsThen(Wilds(j), s[..j], tail, s[j..], IsStar, CharOk);
    assert Wilds(j) + tail == Trap(|s|, j) && s[..j] + s[j..] == s;
  }

  /** The literal star swallows the pattern's star, no star is ever remembered, and one `?` is left over. */
  lemma {:induction false} TrapFails(s: string, j: nat, i: nat)
    requires j < |s| && s[j] == '*' && i <= |s|
    ensures !Scan(Trap(|s|, j), s, IsStar, CharOk, Cursor(i, i, None, 0))
    decreases |s| - i
  {
    if i < |s| { TrapFails(s, j, i + 1); } else { assert !IsStar(Trap(|s|, j)[i]); }
  }

  /** EXACT at segment level: every pattern is answered as it means if and only if the segment has no literal star. */
  lemma SegmentExact(s: string)
    ensures (forall p :: SegmentAnswer(p, s) <==> SegmentMeaning(p, s)) <==> '*' !in s
  {
    forall p { SegmentDecides(p, s); }
    if '*' in s {
      var j :| 0 <= j < |s| && s[j] == '*';
      TrapMeans(s, j);
      TrapFails(s, j, 0);
      assert !(SegmentAnswer(Trap(|s|, j), s) <==> SegmentMeaning(Trap(|s|, j), s));
    }
  }

  /** The pattern that traps segment `k` of a path and lets every other segment through. */
  function PathTrap(path: seq<string>, k: nat, j: nat): (r: seq<string>)
    requires k < |path| && j < |path[k]|
    ensures |r| == |path|
  {
    seq(|path|, i requires 0 <= i < |path| => if i == k then Trap(|path[k]|, j) else Wilds(|path[i]|))
  }

  lemma PathTrapMeans(path: seq<string>, k: nat, j: nat)
    requires k < |path| && j < |path[k]|
    ensures PathMeaning(PathTrap(path, k, j), path)
  {
    var pat := PathTrap(path, k, j);
    forall i | 0 <= i < |pat| ensures SegmentMeaning(pat[i], path[i]) {
      if i == k { TrapMeans(path[k], j); } else { WildsMean(|path[i]|, path[i]); }
    }
    FitsThen(pat, path, [], [], IsGlobStar, SegmentMeaning);
    assert pat + [] == pat && path + [] == path;
  }

  lemma {:induction false} PathTrapFails(path: seq<string>, k: nat, j: nat, i: nat)
    requires k < |path| && j < |path[k]| && path[k][j] == '*' && i <= k
    ensures !Scan(PathTrap(path, k, j), path, IsGlobStar, SegmentOk, Cursor(i, i, None, 0))
    decreases k - i
  {
    var pat := PathTrap(path, k, j);
    if i < k {
      WildsMean(|path[i]|, path[i]);
      assert pat[i] == "" || pat[i][0] != '*';
      PathTrapFails(path, k, j, i + 1);
    } else {
      TrapFails(path[k], j, 0);
      assert |pat[k]| >= 2 && (pat[k][0] == '?' || pat[k][1] == '?');
      assert !SegmentOk(pat[i], path[i]) && !IsGlobStar(pat[i]);
    }
  }

  /** EXACT at path level: every pattern is answered as it means if and only if no segment has a literal star. */
  lemma PathExact(path: seq<string>)
    ensures (forall pat :: PathAnswer(pat, path) <==> PathMeaning(pat, path)) <==>
            (forall y :: y in path ==> '*' !in y)
  {
    forall pat { PathDecides(pat, path); }
    if y :| y in path && '*' in y {
      var k :| 0 <= k < |path| && path[k] == y;
      var j :| 0 <= j < |y| && y[j] == '*';
      PathTrapMeans(path, k, j);
      PathTrapFails(path, k, j, 0);
      assert !(PathAnswer(PathTrap(path, k, j), path) <==> PathMeaning(PathTrap(path, k, j), path));
    }
  }

  /** The shortest case: `*` should match `*ab` and does not. */
  lemma StarRejectsLiteralStar()
    ensures SegmentMeaning("*", "*ab") && !SegmentAnswer("*", "*ab")
  {
    assert "*ab"[3..] == "";
    assert "*"[1..] == "";
    assert SegmentMeaning("", "*ab"[3..]);
    assert !Scan("*", "*ab", IsStar, CharOk, Cursor(1, 1, None, 0));
  }

  // ---- the same for whole paths, under the caps ----

  /** The trap for a path, written out. */
  function TrapText(path: string, k: nat, j: nat): string
    requires k < |Split(path, '/')| && j < |Split(path, '/')[k]|
  {
    Join(PathTrap(Split(path, '/'), k, j), '/')
  }

  /** One piece grew by a character, so the joined text did. */
  lemma {:induction false} JoinGrows(xs: seq<string>, ys: seq<string>, k: nat, sep: char)
    requires |xs| == |ys| && k < |xs|
    requires forall i :: 0 <= i < |xs| ==> |ys[i]| == |xs[i]| + (if i == k then 1 else 0)
    ensures |Join(ys, sep)| == |Join(xs, sep)| + 1
  {
    if |xs| == 1 {
    } else if k == 0 {
      JoinSame(xs[1..], ys[1..], sep);
    } else {
      JoinGrows(xs[1..], ys[1..], k - 1, sep);
    }
  }

  lemma {:induction false} JoinSame(xs: seq<string>, ys: seq<string>, sep: char)
    requires |xs| == |ys| && forall i :: 0 <= i < |xs| ==> |ys[i]| == |xs[i]|
    ensures |Join(ys, sep)| == |Join(xs, sep)|
  {
    if |xs| <= 1 {
    } else {
      JoinSame(xs[1..], ys[1..], sep);
    }
  }

  lemma {:induction false} JoinChars(xs: seq<string>, sep: char, c: char)
    requires c in Join(xs, sep)
    ensures c == sep || exists x :: x in xs && c in x
  {
    if |xs| <= 1 {
    } else if c in xs[0] {
    } else if c != sep {
      JoinChars(xs[1..], sep, c);
    }
  }

  lemma TrapIsPlain(path: seq<string>, k: nat, j: nat)
    requires k < |path| && j < |path[k]|
    ensures forall x, c :: x in PathTrap(path, k, j) && c in x ==> c == '?' || c == '*'
  {
    forall i, l | 0 <= i < |path| && 0 <= l < |PathTrap(path, k, j)[i]|
      ensures PathTrap(path, k, j)[i][l] == '?' || PathTrap(path, k, j)[i][l] == '*'
    {
      if i == k {
        assert PathTrap(path, k, j)[i] == Trap(|path[k]|, j);
      } else {
        assert PathTrap(path, k, j)[i] == Wilds(|path[i]|);
      }
    }
  }

  /** The trap is one byte longer than the path has characters. */
  lemma TrapFits(path: string, k: nat, j: nat)
    requires k < |Split(path, '/')| && j < |Split(path, '/')[k]|
    ensures Bytes(TrapText(path, k, j)) == |path| + 1
    ensures Split(TrapText(path, k, j), '/') == PathTrap(Split(path, '/'), k, j)
  {
    var pieces, trap := Split(path, '/'), PathTrap(Split(path, '/'), k, j);
    TrapIsPlain(pieces, k, j);
    JoinGrows(pieces, trap, k, '/');
    JoinSplit(path, '/');
    var text := Join(trap, '/');
    forall i | 0 <= i < |text| ensures text[i] as int < 0x80 { JoinChars(trap, '/', text[i]); }
    AsciiBytes(text);
    SplitJoin(trap, '/');
  }

  /**
   EXACT for `glob_match`: for a path of fewer characters than a pattern may have bytes, every pattern within its
   cap is answered as it means if and only if the path has no literal star.
   */
  lemma GlobExact(path: string)
    requires |path| < MAX_GLOB_LEN
    ensures (forall pattern :: Bytes(pattern) <= MAX_GLOB_LEN ==>
              (GlobAnswer(pattern, path) <==> GlobMeaning(pattern, path)))
            <==> '*' !in path
  {
    var pieces := Split(path, '/');
    BytesAtMost(path);
    if '*' in path {
      JoinSplit(path, '/');
      JoinChars(pieces, '/', '*');
      var k :| 0 <= k < |pieces| && '*' in pieces[k];
      var j :| 0 <= j < |pieces[k]| && pieces[k][j] == '*';
      TrapFits(path, k, j);
      PathTrapMeans(pieces, k, j);
      PathTrapFails(pieces, k, j, 0);
      assert !(GlobAnswer(TrapText(path, k, j), path) <==> GlobMeaning(TrapText(path, k, j), path));
    } else {
      PiecesWithin(path, '/');
      forall pattern ensures PathAnswer(Split(pattern, '/'), pieces) <==> PathMeaning(Split(pattern, '/'), pieces) {
        PathDecides(Split(pattern, '/'), pieces);
      }
    }
  }

  // ---- the time the loops take ----

  /** The character loop on `*a..ab` and `a..a`: not linear in the two lengths. */
  lemma SegmentNotLinear(m: nat, n: nat)
    requires m <= n
    ensures Moves(SlowPattern('*', 'a', 'b', m), Copies('a', n), IsStar, CharOk, START) >= (n - m) * (m + 1)
  {
    SlowRun('*', 'a', 'b', 'a', m, n, IsStar, CharOk);
  }

  /** The segment loop on a double star before `?/../?/b`, and `a/../a`: not linear in the two numbers of segments. */
  lemma PathNotLinear(m: nat, n: nat)
    requires m <= n
    ensures var pat, path := SlowPattern("**", Wilds(1), "b", m), Copies("a", n);
      Moves(pat, path, IsGlobStar, SegmentOk, START) >= (n - m) * (m + 1)
  {
    WildsMean(1, "a");
    assert Wilds(1)[0] == '?';
    SlowRun("**", Wilds(1), "b", "a", m, n, IsGlobStar, SegmentOk);
  }
}
