/**
 What POSIX `diff` ("Diff -u or -U Output Format") says a list of hunks means, and exactly when the applier
 (`patchapply.rs`) agrees.
 */
module PatchPosix {
  import opened Wrappers
  import opened Text
  import opened Sequences
  import opened PatchApply
  import opened PatchLaws

  // ---- what POSIX says a hunk means ----

  /**
   The 0-based position of a hunk: an empty old range names the line BEFORE it (POSIX `diff`, "Diff -u or -U
   Output Format").
   */
  function PosixAt<T>(h: Hunk<T>): int {
    if Old(h.ops) == [] then h.oldStart else h.oldStart - 1
  }

  function Meaning<T(==)>(orig: seq<T>, cursor: nat, hs: seq<Hunk<T>>): Option<seq<T>>
    requires cursor <= |orig|
    decreases |hs|
  {
    if hs == [] then Some(orig[cursor..])
    else
      var at := PosixAt(hs[0]);
      if !(cursor <= at <= |orig| && Matches(orig, at, Old(hs[0].ops))) then None
      else
        var rest := Meaning(orig, at + |Old(hs[0].ops)|, hs[1..]);
        if rest.None? then None else Some(orig[cursor..at] + New(hs[0].ops) + rest.value)
  }

  /** The hunks the code places where POSIX does. */
  predicate Anchored<T>(h: Hunk<T>) {
    Old(h.ops) != [] || h.oldStart == 0
  }

  lemma AnchoredAt<T>(h: Hunk<T>)
    requires Anchored(h)
    ensures PosixAt(h) >= 0 ==> Target(Read(h).head) == PosixAt(h) && (Read(h).head.oldStart == 0 ==> Old(h.ops) == [])
    ensures PosixAt(h) < 0 ==> Read(h).head.oldStart == 0 && Old(h.ops) != []
  {}

  lemma {:induction false} AnchoredMeetsPosix<T>(orig: seq<T>, cursor: nat, hs: seq<Hunk<T>>)
    requires cursor <= |orig| && forall h :: h in hs ==> Anchored(h)
    ensures Replay(orig, cursor, ReadAll(hs)) == Meaning(orig, cursor, hs)
    decreases |hs|
  {
    if hs == [] {
    } else {
      ReadAllHead(hs);
      AnchoredAt(hs[0]);
      ReplayCons(orig, cursor, Read(hs[0]), ReadAll(hs[1..]));
      if Applies(orig, cursor, Read(hs[0])) {
        AnchoredMeetsPosix(orig, PosixAt(hs[0]) + |Old(hs[0].ops)|, hs[1..]);
      }
    }
  }

  predicate Repeats<T(==)>(ins: seq<T>, x: T) {
    forall y :: y in ins ==> y == x
  }

  lemma {:induction false} RotatesIffConstant<T>(xs: seq<T>, x: T)
    ensures xs + [x] == [x] + xs <==> Repeats(xs, x)
  {
    if xs == [] {
    } else {
      RotatesIffConstant(xs[1..], x);
      if xs + [x] == [x] + xs {
        assert (xs + [x])[0] == x;
        forall i | 0 <= i < |xs| ensures (xs[1..] + [x])[i] == ([x] + xs[1..])[i] {
          assert (xs + [x])[i + 1] == ([x] + xs)[i + 1];
          if i > 0 { assert ([x] + xs)[i + 1] == xs[i]; }
        }
        assert xs[1..] + [x] == [x] + xs[1..];
        assert xs == [xs[0]] + xs[1..] && xs[0] == x;
      }
      if Repeats(xs, x) {
        forall i | 0 <= i <= |xs| ensures (xs + [x])[i] == ([x] + xs)[i] {
          assert i < |xs| ==> xs[i] in xs;
          assert i > 0 ==> xs[i - 1] in xs;
        }
        assert xs + [x] == [x] + xs;
      }
    }
  }

  lemma SameEnds<T>(a: seq<T>, b: seq<T>, b': seq<T>, c: seq<T>)
    ensures a + b + c == a + b' + c <==> b == b'
  {
    if a + b + c == a + b' + c {
      assert b == (a + b + c)[|a|..|a| + |b|];
      assert b' == (a + b' + c)[|a|..|a| + |b'|];
      assert |b| == |b'|;
    }
  }

  lemma MoveIn<T>(a: seq<T>, b: seq<T>, x: T, c: seq<T>)
    ensures a + b + ([x] + c) == a + (b + [x]) + c
    ensures a + [x] + b + c == a + ([x] + b) + c
  {}

  lemma CutAt<T>(s: seq<T>, k: nat)
    requires 1 <= k <= |s|
    ensures s[0..k] == s[0..k - 1] + [s[k - 1]] && s[k - 1..] == [s[k - 1]] + s[k..]
    ensures Matches(s, k - 1, []) && Matches(s, k, [])
  {}

  /** An insertion after line `k`: the code moves line `k` behind the inserted lines, POSIX leaves it in front. */
  lemma CodePlaces<T>(orig: seq<T>, h: Hunk<T>)
    requires Old(h.ops) == [] && 1 <= h.oldStart <= |orig|
    ensures var k := h.oldStart;
            Replay(orig, 0, [Read(h)]) == Some(orig[0..k - 1] + (New(h.ops) + [orig[k - 1]]) + orig[k..])
  {
    var k := h.oldStart;
    CutAt(orig, k);
    InsertionReplay(orig, Read(h));
    MoveIn(orig[0..k - 1], New(h.ops), orig[k - 1], orig[k..]);
  }

  lemma PosixPlaces<T>(orig: seq<T>, h: Hunk<T>)
    requires Old(h.ops) == [] && 1 <= h.oldStart <= |orig|
    ensures var k := h.oldStart;
            Meaning(orig, 0, [h]) == Some(orig[0..k - 1] + ([orig[k - 1]] + New(h.ops)) + orig[k..])
  {
    var k := h.oldStart;
    CutAt(orig, k);
    OneMeaning(orig, h);
    MoveIn(orig[0..k - 1], New(h.ops), orig[k - 1], orig[k..]);
  }

  lemma InsertionReplay<T>(orig: seq<T>, p: Parsed<T>)
    requires Old(p.ops) == [] && 1 <= p.head.oldStart <= |orig| && p.head.oldCount == 0
    ensures var k := p.head.oldStart;
            Matches(orig, k - 1, []) ==> Replay(orig, 0, [p]) == Some(orig[0..k - 1] + New(p.ops) + orig[k - 1..])
  {
    OneReplay(orig, p);
  }

  lemma OneReplay<T>(orig: seq<T>, p: Parsed<T>)
    ensures Replay(orig, 0, [p]) ==
            if !Applies(orig, 0, p) then None
            else Some(orig[0..Target(p.head)] + New(p.ops) + orig[Target(p.head) + |Old(p.ops)|..])
  {
    assert [p][1..] == [];
  }

  lemma OneMeaning<T>(orig: seq<T>, h: Hunk<T>)
    requires Old(h.ops) == []
    ensures Meaning(orig, 0, [h]) ==
            if h.oldStart <= |orig| && Matches(orig, h.oldStart, [])
            then Some(orig[0..h.oldStart] + New(h.ops) + orig[h.oldStart..]) else None
  {
    assert [h][1..] == [];
  }

  /**
   EXACT for one hunk: the code agrees with POSIX if and only if the hunk is anchored, out of reach for both, or
   inserts copies of the line before it.
   */
  lemma OneHunkExact<T>(orig: seq<T>, h: Hunk<T>)
    ensures Replay(orig, 0, [Read(h)]) == Meaning(orig, 0, [h]) <==>
            || Anchored(h)
            || h.oldStart > |orig| + 1
            || (h.oldStart <= |orig| && Repeats(New(h.ops), orig[h.oldStart - 1]))
  {
    assert ReadAll([h]) == [Read(h)] + ReadAll([]) == [Read(h)];
    if Anchored(h) {
      AnchoredMeetsPosix(orig, 0, [h]);
    } else if h.oldStart <= |orig| {
      CodePlaces(orig, h);
      PosixPlaces(orig, h);
      var x, ins := orig[h.oldStart - 1], New(h.ops);
      var left, right := orig[0..h.oldStart - 1], orig[h.oldStart..];
      SameEnds(left, ins + [x], [x] + ins, right);
      RotatesIffConstant(ins, x);
    } else if h.oldStart == |orig| + 1 {
      assert Matches(orig, |orig|, []);
      OneReplay(orig, Read(h));
      OneMeaning(orig, h);
    }
  }

  /** The smallest misplaced insertion: POSIX puts `x` after line 1, the code puts it before. */
  lemma InsertionMisplaced()
    ensures var h := Hunk(1, 2, [Insert("x")]);
            Meaning(["a"], 0, [h]) == Some(["a", "x"]) && Replay(["a"], 0, [Read(h)]) == Some(["x", "a"])
  {
    var h := Hunk(1, 2, [Insert("x")]);
    assert Old(h.ops) == [] && New(h.ops) == ["x"];
    assert ["a"][1..1] == [] && ["a"][0..0] == [];
    assert [h][1..] == [] && [Read(h)][1..] == [];
    assert ["a"][0..1] + ["x"] + ["a"][1..] == ["a", "x"];
    assert [] + ["x"] + ["a"][0..] == ["x", "a"];
  }

  // ---- any list of hunks ----

  /**
   Every hunk is anchored, or it inserts copies of the line before it and that line is not yet behind the
   cursor of the code.
   */
  predicate Placed<T(==)>(orig: seq<T>, cursor: nat, hs: seq<Hunk<T>>)
    decreases |hs|
  {
    hs == [] ||
    (var h := hs[0];
     if Anchored(h) then Placed(orig, Target(Read(h).head) + |Old(h.ops)|, hs[1..])
     else
       && cursor <= h.oldStart - 1 < |orig|
       && Repeats(New(h.ops), orig[h.oldStart - 1])
       && Placed(orig, h.oldStart - 1, hs[1..]))
  }

  /** The code, standing at `cursor`, still has the lines up to `posix` to write before it yields `m`. */
  ghost predicate CatchesUp<T>(orig: seq<T>, cursor: nat, posix: nat, hs: seq<Hunk<T>>, m: seq<T>)
    requires cursor <= posix <= |orig|
  {
    Replay(orig, cursor, ReadAll(hs)) == Some(orig[cursor..posix] + m)
  }

  /**
   EXACT for lists: where POSIX gives a list of hunks a meaning, the code produces it if and only if every
   hunk is placed.  The code may lag behind POSIX by the line an insertion was moved before.
   */
  lemma {:induction false} LaggingExact<T>(orig: seq<T>, cursor: nat, posix: nat, hs: seq<Hunk<T>>, m: seq<T>)
    requires cursor <= posix <= |orig| && Meaning(orig, posix, hs) == Some(m)
    ensures LagExact(orig, cursor, posix, hs, m)
    decreases |hs|
  {
    if hs == [] {
      assert orig[cursor..posix] + orig[posix..] == orig[cursor..];
    } else {
      var h, rest, at := hs[0], hs[1..], PosixAt(hs[0]);
      assert hs == [h] + rest;
      var later := MeaningParts(orig, posix, h, rest, m);
      if Anchored(h) {
        LaggingExact(orig, at + |Old(h.ops)|, at + |Old(h.ops)|, rest, later);
        AnchoredCase(orig, cursor, posix, h, rest, later, hs, m);
      } else if cursor < at {
        LaggingExact(orig, at - 1, at, rest, later);
        InsertionCase(orig, cursor, posix, h, rest, later, hs, m);
      } else {
        InsertionLate(orig, cursor, posix, h, rest, hs, m);
      }
    }
  }

  ghost predicate LagExact<T>(orig: seq<T>, cursor: nat, posix: nat, hs: seq<Hunk<T>>, m: seq<T>)
    requires cursor <= posix <= |orig|
  {
    CatchesUp(orig, cursor, posix, hs, m) <==> Placed(orig, cursor, hs)
  }

  lemma PlacedHead<T>(orig: seq<T>, cursor: nat, h: Hunk<T>, rest: seq<Hunk<T>>)
    ensures Placed(orig, cursor, [h] + rest) <==>
      if Anchored(h) then Placed(orig, Target(Read(h).head) + |Old(h.ops)|, rest)
      else
        && cursor <= h.oldStart - 1 < |orig|
        && Repeats(New(h.ops), orig[h.oldStart - 1])
        && Placed(orig, h.oldStart - 1, rest)
  {
    var all := [h] + rest;
    assert all != [] && all[0] == h && all[1..] == rest;
  }

  lemma AnchoredCase<T>(orig: seq<T>, cursor: nat, posix: nat, h: Hunk<T>, rest: seq<Hunk<T>>, later: seq<T>,
                        hs: seq<Hunk<T>>, m: seq<T>)
    requires cursor <= posix <= PosixAt(h) && PosixAt(h) + |Old(h.ops)| <= |orig|
    requires Matches(orig, PosixAt(h), Old(h.ops)) && Anchored(h)
    requires LagExact(orig, PosixAt(h) + |Old(h.ops)|, PosixAt(h) + |Old(h.ops)|, rest, later)
    requires hs == [h] + rest && m == orig[posix..PosixAt(h)] + New(h.ops) + later
    ensures LagExact(orig, cursor, posix, hs, m)
  {
    AnchoredAt(h);
    PlacedHead(orig, cursor, h, rest);
    AnchoredStep(orig, cursor, posix, h, rest, later);
  }

  lemma InsertionCase<T>(orig: seq<T>, cursor: nat, posix: nat, h: Hunk<T>, rest: seq<Hunk<T>>, later: seq<T>,
                         hs: seq<Hunk<T>>, m: seq<T>)
    requires !Anchored(h) && cursor < h.oldStart <= |orig| && cursor <= posix <= h.oldStart
    requires LagExact(orig, h.oldStart - 1, h.oldStart, rest, later)
    requires hs == [h] + rest && m == orig[posix..h.oldStart] + New(h.ops) + later
    ensures LagExact(orig, cursor, posix, hs, m)
  {
    PlacedHead(orig, cursor, h, rest);
    InsertionStep(orig, cursor, posix, h, rest, later);
  }

  /** The code rejects an insertion before a line it has already passed. */
  lemma InsertionLate<T>(orig: seq<T>, cursor: nat, posix: nat, h: Hunk<T>, rest: seq<Hunk<T>>, hs: seq<Hunk<T>>,
                         m: seq<T>)
    requires cursor <= posix <= |orig| && !Anchored(h) && h.oldStart <= cursor && hs == [h] + rest
    ensures LagExact(orig, cursor, posix, hs, m)
  {
    ReadAllCons(h, rest);
    ReplayCons(orig, cursor, Read(h), ReadAll(rest));
    PlacedHead(orig, cursor, h, rest);
    assert !Applies(orig, cursor, Read(h));
  }

  lemma MeaningHead<T>(orig: seq<T>, cursor: nat, hs: seq<Hunk<T>>)
    requires cursor <= |orig| && hs != [] && Meaning(orig, cursor, hs).Some?
    ensures var at, next := PosixAt(hs[0]), PosixAt(hs[0]) + |Old(hs[0].ops)|;
      && cursor <= at && next <= |orig| && Matches(orig, at, Old(hs[0].ops)) && Meaning(orig, next, hs[1..]).Some?
      && Meaning(orig, cursor, hs).value == orig[cursor..at] + New(hs[0].ops) + Meaning(orig, next, hs[1..]).value
  {}

  lemma MeaningCons<T>(orig: seq<T>, cursor: nat, h: Hunk<T>, rest: seq<Hunk<T>>)
    requires cursor <= |orig| && Meaning(orig, cursor, [h] + rest).Some?
    ensures var at, next := PosixAt(h), PosixAt(h) + |Old(h.ops)|;
      && cursor <= at && next <= |orig| && Matches(orig, at, Old(h.ops)) && Meaning(orig, next, rest).Some?
      && Meaning(orig, cursor, [h] + rest) == Some(orig[cursor..at] + New(h.ops) + Meaning(orig, next, rest).value)
  {
    var all := [h] + rest;
    assert all[0] == h && all[1..] == rest;
    MeaningHead(orig, cursor, all);
  }

  lemma MeaningParts<T>(orig: seq<T>, cursor: nat, h: Hunk<T>, rest: seq<Hunk<T>>, m: seq<T>) returns (later: seq<T>)
    requires cursor <= |orig| && Meaning(orig, cursor, [h] + rest) == Some(m)
    ensures cursor <= PosixAt(h) && PosixAt(h) + |Old(h.ops)| <= |orig| && Matches(orig, PosixAt(h), Old(h.ops))
    ensures Meaning(orig, PosixAt(h) + |Old(h.ops)|, rest) == Some(later)
    ensures m == orig[cursor..PosixAt(h)] + New(h.ops) + later
  {
    MeaningCons(orig, cursor, h, rest);
    later := Meaning(orig, PosixAt(h) + |Old(h.ops)|, rest).value;
  }

  /** An anchored hunk brings both cursors together. */
  lemma AnchoredStep<T>(orig: seq<T>, cursor: nat, posix: nat, h: Hunk<T>, rest: seq<Hunk<T>>, m: seq<T>)
    requires cursor <= posix <= PosixAt(h) && PosixAt(h) + |Old(h.ops)| <= |orig|
      && Matches(orig, PosixAt(h), Old(h.ops))
    requires Anchored(h)
    ensures var at := PosixAt(h);
      CatchesUp(orig, cursor, posix, [h] + rest, orig[posix..at] + New(h.ops) + m) <==>
      CatchesUp(orig, at + |Old(h.ops)|, at + |Old(h.ops)|, rest, m)
  {
    var at := PosixAt(h);
    var next := at + |Old(h.ops)|;
    ReplayAnchored(orig, cursor, h, rest);
    assert orig[next..next] + m == m;
    var r := Replay(orig, next, ReadAll(rest));
    if r.Some? { SamePrefix(orig, cursor, posix, at, New(h.ops), r.value, m); }
  }

  lemma ReplayAnchored<T>(orig: seq<T>, cursor: nat, h: Hunk<T>, rest: seq<Hunk<T>>)
    requires cursor <= PosixAt(h) && PosixAt(h) + |Old(h.ops)| <= |orig| && Matches(orig, PosixAt(h), Old(h.ops))
    requires Anchored(h)
    ensures var at := PosixAt(h);
      var r := Replay(orig, at + |Old(h.ops)|, ReadAll(rest));
      Replay(orig, cursor, ReadAll([h] + rest)) ==
        if r.None? then None else Some(orig[cursor..at] + New(h.ops) + r.value)
  {
    AnchoredAt(h);
    ReadAllCons(h, rest);
    ReplayCons(orig, cursor, Read(h), ReadAll(rest));
  }

  lemma LagJoins<T>(orig: seq<T>, cursor: nat, posix: nat, at: nat, ins: seq<T>, m: seq<T>)
    requires cursor <= posix <= at <= |orig|
    ensures orig[cursor..posix] + (orig[posix..at] + ins + m) == orig[cursor..at] + (ins + m)
  {
    Associative(orig[posix..at], ins, m);
    Associative(orig[cursor..posix], orig[posix..at], ins + m);
    SlicesJoin(orig, cursor, posix, at);
  }

  lemma SamePrefix<T>(orig: seq<T>, cursor: nat, posix: nat, at: nat, ins: seq<T>, r: seq<T>, m: seq<T>)
    requires cursor <= posix <= at <= |orig|
    ensures orig[cursor..at] + ins + r == orig[cursor..posix] + (orig[posix..at] + ins + m) <==> r == m
  {
    LagJoins(orig, cursor, posix, at, ins, m);
    Associative(orig[cursor..at], ins, r);
    Cancels(orig[cursor..at], ins + r, ins + m);
    Cancels(ins, r, m);
  }

  /** An insertion after line `k` that the code makes before it: right exactly if it repeats that line. */
  lemma InsertionStep<T>(orig: seq<T>, cursor: nat, posix: nat, h: Hunk<T>, rest: seq<Hunk<T>>, m: seq<T>)
    requires !Anchored(h) && cursor < h.oldStart <= |orig| && cursor <= posix <= h.oldStart
    ensures var k := h.oldStart;
      CatchesUp(orig, cursor, posix, [h] + rest, orig[posix..k] + New(h.ops) + m) <==>
      Repeats(New(h.ops), orig[k - 1]) && CatchesUp(orig, k - 1, k, rest, m)
  {
    var k := h.oldStart;
    ReadAllCons(h, rest);
    CutAt(orig, k);
    ReplayCons(orig, cursor, Read(h), ReadAll(rest));
    var r := Replay(orig, k - 1, ReadAll(rest));
    assert orig[k - 1..k] == [orig[k - 1]];
    if r.Some? { RotatedPrefix(orig, cursor, posix, k, New(h.ops), r.value, m); }
  }

  lemma RotatedPrefix<T>(orig: seq<T>, cursor: nat, posix: nat, k: nat, ins: seq<T>, r: seq<T>, m: seq<T>)
    requires cursor < k <= |orig| && cursor <= posix <= k
    ensures orig[cursor..k - 1] + ins + r == orig[cursor..posix] + (orig[posix..k] + ins + m) <==>
      Repeats(ins, orig[k - 1]) && r == [orig[k - 1]] + m
  {
    var a, x := orig[cursor..k - 1], orig[k - 1];
    LagJoins(orig, cursor, posix, k, ins, m);
    SlicesJoin(orig, cursor, k - 1, k);
    assert orig[k - 1..k] == [x];
    Associative(a, [x], ins + m);
    Associative([x], ins, m);
    Associative(a, ins, r);
    Cancels(a, ins + r, [x] + ins + m);
    Rotated(ins, x, r, m);
  }

  lemma Rotated<T>(ins: seq<T>, x: T, r: seq<T>, m: seq<T>)
    ensures ins + r == [x] + ins + m <==> Repeats(ins, x) && r == [x] + m
  {
    RotatesIffConstant(ins, x);
    if ins + r == [x] + ins + m {
      assert (ins + r)[..|ins| + 1] == ([x] + ins + m)[..|ins| + 1] == [x] + ins;
      AllSame(ins, x, r, m);
    }
    if Repeats(ins, x) && r == [x] + m {
      assert ins + r == (ins + [x]) + m;
    }
  }

  lemma AllSame<T>(ins: seq<T>, x: T, r: seq<T>, m: seq<T>)
    requires ins + r == [x] + ins + m
    ensures ins + [x] == [x] + ins && r == [x] + m
  {
    forall i | 0 <= i < |ins| ensures ins[i] == x { Spread(ins, x, r, m, i); }
    assert r == (ins + r)[|ins|..] == ([x] + ins + m)[|ins|..];
    var whole := [x] + ins + m;
    assert whole[|ins|] == x by { if ins != [] { assert whole[|ins|] == ins[|ins| - 1]; } }
    assert whole[|ins| + 1..] == m;
    assert whole[|ins|..] == [whole[|ins|]] + whole[|ins| + 1..];
  }

  lemma {:induction false} Spread<T>(ins: seq<T>, x: T, r: seq<T>, m: seq<T>, i: nat)
    requires ins + r == [x] + ins + m && i < |ins|
    ensures ins[i] == x
  {
    assert (ins + r)[i] == ins[i];
    if i == 0 {
      assert ([x] + ins + m)[0] == x;
    } else {
      Spread(ins, x, r, m, i - 1);
      assert ([x] + ins + m)[i] == ins[i - 1];
    }
  }

  /** Where POSIX gives a list of hunks a meaning, the code agrees if and only if every hunk is placed. */
  lemma ListExact<T>(orig: seq<T>, cursor: nat, hs: seq<Hunk<T>>)
    requires cursor <= |orig| && Meaning(orig, cursor, hs).Some?
    ensures Replay(orig, cursor, ReadAll(hs)) == Meaning(orig, cursor, hs) <==> Placed(orig, cursor, hs)
  {
    var m := Meaning(orig, cursor, hs).value;
    LaggingExact(orig, cursor, cursor, hs, m);
    assert orig[cursor..cursor] + m == m;
  }

  /** A second way to fail: an insertion right behind a hunk that touches its line is refused as out of order. */
  lemma InsertionRefused()
    ensures var hs := [Hunk(1, 1, [Drop("a"), Insert("b")])] + [Hunk(1, 2, [Insert("a")])];
      Meaning(["a"], 0, hs) == Some(["b", "a"]) && Replay(["a"], 0, ReadAll(hs)) == None
  {
    var h, g := Hunk(1, 1, [Drop("a"), Insert("b")]), Hunk(1, 2, [Insert("a")]);
    assert h.ops[1..] == [Insert("b")] && Old(h.ops) == ["a"] && New(h.ops) == ["b"];
    assert Old(g.ops) == [] && New(g.ops) == ["a"];
    Behind("a", "b", h, g);
  }

  /** The same for any two lines. */
  lemma Behind<T>(x: T, y: T, h: Hunk<T>, g: Hunk<T>)
    requires h.oldStart == g.oldStart == 1
    requires Old(h.ops) == [x] && New(h.ops) == [y] && Old(g.ops) == [] && New(g.ops) == [x]
    ensures Meaning([x], 0, [h] + [g]) == Some([y, x]) && Replay([x], 0, ReadAll([h] + [g])) == None
  {
    BehindMeans(x, y, h, g);
    ReadAllHead([h] + [g]);
    ReadAllHead([g]);
    assert ([h] + [g])[1..] == [g] && [g][1..] == [];
    ReplayCons([x], 0, Read(h), ReadAll([g]));
    ReplayCons([x], 1, Read(g), ReadAll([]));
  }

  lemma BehindMeans<T>(x: T, y: T, h: Hunk<T>, g: Hunk<T>)
    requires h.oldStart == g.oldStart == 1
    requires Old(h.ops) == [x] && New(h.ops) == [y] && Old(g.ops) == [] && New(g.ops) == [x]
    ensures Meaning([x], 0, [h] + [g]) == Some([y, x])
  {
    var orig := [x];
    assert ([h] + [g])[1..] == [g] && [g][1..] == [];
    assert orig[0..1] == [x] && orig[0..0] == [] && orig[1..1] == [] && orig[1..] == [];
    assert Meaning(orig, 1, []) == Some([]);
    assert [] + [x] + [] == [x];
    assert Meaning(orig, 1, [g]) == Some([x]);
    assert [] + [y] + [x] == [y, x];
  }

  /** Every hunk starts at or behind where POSIX stands, and ends within the `n` lines of the original. */
  predicate InReach<T>(posix: nat, n: nat, hs: seq<Hunk<T>>)
    decreases |hs|
  {
    hs == [] ||
    (var at := PosixAt(hs[0]);
     && posix <= at && at + |Old(hs[0].ops)| <= n
     && InReach(at + |Old(hs[0].ops)|, n, hs[1..]))
  }

  /** Where the code applies a list of hunks, POSIX gives it a meaning if and only if every hunk is in reach. */
  lemma {:induction false} ReachExact<T>(orig: seq<T>, cursor: nat, posix: nat, hs: seq<Hunk<T>>)
    requires cursor <= posix <= |orig| && Replay(orig, cursor, ReadAll(hs)).Some?
    ensures Meaning(orig, posix, hs).Some? <==> InReach(posix, |orig|, hs)
    decreases |hs|
  {
    if hs == [] {
    } else {
      var h, at := hs[0], PosixAt(hs[0]);
      ReadAllHead(hs);
      ReplayCons(orig, cursor, Read(h), ReadAll(hs[1..]));
      if posix <= at && at + |Old(h.ops)| <= |orig| {
        StandsAt(orig, cursor, h);
        ReachExact(orig, Target(Read(h).head) + |Old(h.ops)|, at + |Old(h.ops)|, hs[1..]);
      }
    }
  }

  /** A hunk the code applies fits where POSIX places it, and the code is not ahead of that. */
  lemma StandsAt<T>(orig: seq<T>, cursor: nat, h: Hunk<T>)
    requires cursor <= |orig| && Applies(orig, cursor, Read(h)) && 0 <= PosixAt(h) <= |orig| - |Old(h.ops)|
    ensures Matches(orig, PosixAt(h), Old(h.ops)) && Target(Read(h).head) <= PosixAt(h)
  {
    if Anchored(h) {
      AnchoredAt(h);
    } else {
      assert orig[PosixAt(h)..PosixAt(h)] == [];
    }
  }

  /**
   EXACT for all lists of hunks: code and POSIX agree, in success and in failure, if and only if a list with a
   meaning is placed and a list the code applies is in reach.
   */
  lemma ListAgrees<T>(orig: seq<T>, cursor: nat, hs: seq<Hunk<T>>)
    requires cursor <= |orig|
    ensures var code, posix := Replay(orig, cursor, ReadAll(hs)), Meaning(orig, cursor, hs);
      code == posix <==>
      (posix.Some? ==> Placed(orig, cursor, hs)) && (code.Some? ==> InReach(cursor, |orig|, hs))
  {
    if Meaning(orig, cursor, hs).Some? { ListExact(orig, cursor, hs); }
    if Replay(orig, cursor, ReadAll(hs)).Some? { ReachExact(orig, cursor, cursor, hs); }
  }

  /** A third way to differ: the code applies hunks that overlap for POSIX, because it put an insertion too early. */
  lemma OverlapApplied()
    ensures var hs := [Hunk(1, 2, [Insert("a")])] + [Hunk(1, 1, [Drop("a")])];
      && Placed(["a"], 0, hs) && !InReach(0, 1, hs)
      && Meaning(["a"], 0, hs) == None && Replay(["a"], 0, ReadAll(hs)) == Some(["a"])
  {
    var h, g := Hunk(1, 2, [Insert("a")]), Hunk(1, 1, [Drop("a")]);
    assert Old(h.ops) == [] && New(h.ops) == ["a"];
    assert Old(g.ops) == ["a"] && New(g.ops) == [];
    Overlap("a", h, g);
  }

  /** The same for any line. */
  lemma Overlap<T>(x: T, h: Hunk<T>, g: Hunk<T>)
    requires h.oldStart == g.oldStart == 1
    requires Old(h.ops) == [] && New(h.ops) == [x] && Old(g.ops) == [x] && New(g.ops) == []
    ensures var hs := [h] + [g];
      && Placed([x], 0, hs) && !InReach(0, 1, hs)
      && Meaning([x], 0, hs) == None && Replay([x], 0, ReadAll(hs)) == Some([x])
  {
    assert ([h] + [g])[1..] == [g] && [g][1..] == [] && [x][0..0] == [] && [x][1..] == [];
    PlacedHead([x], 0, h, [g]);
    assert [g] + [] == [g];
    PlacedHead([x], 0, g, []);
    OverlapReplay(x, h, g);
    ReachExact([x], 0, 0, [h] + [g]);
  }

  lemma OverlapReplay<T>(x: T, h: Hunk<T>, g: Hunk<T>)
    requires h.oldStart == g.oldStart == 1
    requires Old(h.ops) == [] && New(h.ops) == [x] && Old(g.ops) == [x] && New(g.ops) == []
    ensures Replay([x], 0, ReadAll([h] + [g])) == Some([x])
  {
    ReadAllCons(h, [g]);
    assert [g] + [] == [g];
    ReadAllCons(g, []);
    ReplayCons([x], 0, Read(h), ReadAll([g]));
    ReplayCons([x], 0, Read(g), ReadAll([]));
    assert [x][0..0] == [] && [x][0..1] == [x] && [x][1..] == [];
    assert Replay([x], 1, ReadAll([])) == Some([x][1..]);
    assert [] + [] + [x][1..] == [] && [] + [x] + [] == [x];
  }

  // ---- printed and applied ----

  lemma {:induction false} StripAnchored(hs: seq<Hunk<string>>)
    requires forall h :: h in hs ==> Anchored(h)
    ensures forall h :: h in StripAll(hs) ==> Anchored(h)
  {
    if hs == [] {
    } else {
      assert hs[0] in hs;
      StripAnchored(hs[1..]);
      assert |Old(StripHunk(hs[0]).ops)| == |Old(hs[0].ops)|;
    }
  }

  /**
   ROUND TRIP: printing hunks and applying the text does to every original what POSIX says of the hunks as they are
   read back, that is without a trailing CR of their lines: for anchored hunks always, for others exactly under
   the condition of `ListAgrees`.
   */
  lemma PrintThenApply(original: string, hs: seq<Hunk<string>>)
    requires forall h :: h in hs ==> TextHunk(h)
    ensures var orig, read := SplitLines(original), StripAll(hs);
      var code, posix := Outcome(orig, 0, Lines(PrintText(hs))), Meaning(orig, 0, read);
      && ApplyText(original, PrintText(hs)) ==
           (if code.None? then None else Some(Render(code.value, EndsInNewline(original))))
      && ((forall h :: h in hs ==> Anchored(h)) ==> code == posix)
      && (code == posix <==>
           (posix.Some? ==> Placed(orig, 0, read)) && (code.Some? ==> InReach(0, |orig|, read)))
  {
    var orig, read := SplitLines(original), StripAll(hs);
    AppliedText(original, hs);
    ListAgrees(orig, 0, read);
    if forall h :: h in hs ==> Anchored(h) {
      StripAnchored(hs);
      AnchoredMeetsPosix(orig, 0, read);
    }
  }
}
