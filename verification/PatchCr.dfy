/** Carriage returns: a diff loses one at the end of each line when it is read, the original keeps its own. */
module PatchCr {
  import opened Wrappers
  import opened Text
  import opened Sequences
  import opened PatchApply
  import opened PatchLaws
  import opened PatchPosix

  function Chars(lines: seq<string>): nat {
    if lines == [] then 0 else |lines[0]| + Chars(lines[1..])
  }

  /** How many lines end in CR. */
  function CrIn(lines: seq<string>): nat {
    if lines == [] then 0 else (if EndsInCr(lines[0]) then 1 else 0) + CrIn(lines[1..])
  }

  function CrInserted(hs: seq<Hunk<string>>): nat {
    if hs == [] then 0 else CrIn(New(hs[0].ops)) + CrInserted(hs[1..])
  }

  lemma {:induction false} StripCosts(lines: seq<string>)
    ensures Chars(StripLines(lines)) + CrIn(lines) == Chars(lines)
  {
    if lines == [] {
    } else {
      StripCosts(lines[1..]);
    }
  }

  lemma {:induction false} CharsConcat(a: seq<string>, b: seq<string>)
    ensures Chars(a + b) == Chars(a) + Chars(b)
  {
    if a == [] {
      assert a + b == b;
    } else {
      TailOfConcat(a, b);
      CharsConcat(a[1..], b);
    }
  }

  lemma {:induction false} SidesStrip(ops: seq<Op<string>>)
    ensures Old(StripOps(ops)) == StripLines(Old(ops)) && New(StripOps(ops)) == StripLines(New(ops))
  {
    if ops == [] {
    } else {
      SidesStrip(ops[1..]);
      StripLinesConcat(OldOf(ops[0]), Old(ops[1..]));
      StripLinesConcat(NewOf(ops[0]), New(ops[1..]));
    }
  }

  lemma {:induction false} NoneInCr(ops: seq<Op<string>>)
    requires CrIn(Old(ops)) == 0 && CrIn(New(ops)) == 0
    ensures forall op :: op in ops ==> !EndsInCr(op.line)
  {
    if ops == [] {
    } else {
      CrConcat(OldOf(ops[0]), Old(ops[1..]));
      CrConcat(NewOf(ops[0]), New(ops[1..]));
      NoneInCr(ops[1..]);
      assert CrIn([ops[0].line]) == if EndsInCr(ops[0].line) then 1 else 0;
    }
  }

  lemma {:induction false} CrConcat(a: seq<string>, b: seq<string>)
    ensures CrIn(a + b) == CrIn(a) + CrIn(b)
  {
    if a == [] {
      assert a + b == b;
    } else {
      TailOfConcat(a, b);
      CrConcat(a[1..], b);
    }
  }

  /** As many lines, and `less` characters less. */
  predicate Shortened(m: seq<string>, n: seq<string>, less: nat) {
    |n| == |m| && Chars(n) + less == Chars(m)
  }

  /** What hunks within reach make of the original, whatever their old lines say. */
  function Assembled<T>(orig: seq<T>, cursor: nat, hs: seq<Hunk<T>>): seq<T>
    requires cursor <= |orig| && InReach(cursor, |orig|, hs)
    decreases |hs|
  {
    if hs == [] then orig[cursor..]
    else
      var next := PosixAt(hs[0]) + |Old(hs[0].ops)|;
      orig[cursor..PosixAt(hs[0])] + New(hs[0].ops) + Assembled(orig, next, hs[1..])
  }

  lemma {:induction false} MeaningAssembles<T>(orig: seq<T>, cursor: nat, hs: seq<Hunk<T>>)
    requires cursor <= |orig| && Meaning(orig, cursor, hs).Some?
    ensures InReach(cursor, |orig|, hs) && Meaning(orig, cursor, hs) == Some(Assembled(orig, cursor, hs))
    decreases |hs|
  {
    if hs == [] {
    } else {
      MeaningAssembles(orig, PosixAt(hs[0]) + |Old(hs[0].ops)|, hs[1..]);
    }
  }

  /** Without the trailing CRs the result has as many lines, and one character less for each inserted line with one. */
  lemma {:induction false} StripShortens(orig: seq<string>, cursor: nat, hs: seq<Hunk<string>>)
    requires cursor <= |orig| && InReach(cursor, |orig|, hs) && InReach(cursor, |orig|, StripAll(hs))
    ensures Shortened(Assembled(orig, cursor, hs), Assembled(orig, cursor, StripAll(hs)), CrInserted(hs))
    decreases |hs|
  {
    if hs == [] {
    } else {
      var h, at := hs[0], PosixAt(hs[0]);
      var next := at + |Old(h.ops)|;
      AssembledStripped(orig, cursor, hs);
      StripShortens(orig, next, hs[1..]);
      var m, n := Assembled(orig, next, hs[1..]), Assembled(orig, next, StripAll(hs[1..]));
      var all, read := Assembled(orig, cursor, hs), Assembled(orig, cursor, StripAll(hs));
      OneShortened(orig[cursor..at], h.ops, m, n, CrInserted(hs[1..]), all, read, CrInserted(hs));
    }
  }

  lemma StripKeepsPlace(h: Hunk<string>)
    ensures PosixAt(StripHunk(h)) == PosixAt(h) && |Old(StripHunk(h).ops)| == |Old(h.ops)|
  {}

  lemma AssembledStripped(orig: seq<string>, cursor: nat, hs: seq<Hunk<string>>)
    requires cursor <= |orig| && hs != [] && InReach(cursor, |orig|, hs) && InReach(cursor, |orig|, StripAll(hs))
    ensures var h, at := hs[0], PosixAt(hs[0]);
      && InReach(at + |Old(h.ops)|, |orig|, StripAll(hs[1..]))
      && Assembled(orig, cursor, StripAll(hs)) ==
           orig[cursor..at] + New(StripOps(h.ops)) + Assembled(orig, at + |Old(h.ops)|, StripAll(hs[1..]))
  {
    StripKeepsPlace(hs[0]);
    assert StripAll(hs)[0] == StripHunk(hs[0]) && StripAll(hs)[1..] == StripAll(hs[1..]);
  }

  lemma OneShortened(a: seq<string>, ops: seq<Op<string>>, m': seq<string>, n': seq<string>, less': nat, m: seq<string>,
                     n: seq<string>, less: nat)
    requires Shortened(m', n', less') && less == CrIn(New(ops)) + less'
    requires m == a + New(ops) + m' && n == a + New(StripOps(ops)) + n'
    ensures Shortened(m, n, less)
  {
    SidesStrip(ops);
    StripCosts(New(ops));
    ThreeChars(a, New(ops), m');
    ThreeChars(a, New(StripOps(ops)), n');
  }

  /** If hunks keep a meaning without the trailing CRs, none of their old lines ends in CR. */
  lemma {:induction false} OldLinesPlain(orig: seq<string>, cursor: nat, hs: seq<Hunk<string>>)
    requires cursor <= |orig| && Meaning(orig, cursor, hs).Some? && Meaning(orig, cursor, StripAll(hs)).Some?
    ensures forall h :: h in hs ==> CrIn(Old(h.ops)) == 0
    decreases |hs|
  {
    if hs == [] {
    } else {
      var h := hs[0];
      assert StripAll(hs)[0] == StripHunk(h) && StripAll(hs)[1..] == StripAll(hs[1..]);
      OldLinesPlain(orig, PosixAt(h) + |Old(h.ops)|, hs[1..]);
      SameSlice(orig, PosixAt(h), Old(h.ops), Old(StripOps(h.ops)));
      SidesStrip(h.ops);
      StripCosts(Old(h.ops));
    }
  }

  lemma SameSlice<T>(orig: seq<T>, at: nat, a: seq<T>, b: seq<T>)
    requires Matches(orig, at, a) && Matches(orig, at, b) && |a| == |b|
    ensures a == b
  {}

  lemma {:induction false} NoCrLeft(hs: seq<Hunk<string>>)
    requires CrInserted(hs) == 0 && forall h :: h in hs ==> CrIn(Old(h.ops)) == 0
    ensures NoCr(hs)
  {
    if hs == [] {
    } else {
      assert hs[0] in hs;
      NoneInCr(hs[0].ops);
      NoCrLeft(hs[1..]);
    }
  }

  lemma ThreeChars(a: seq<string>, b: seq<string>, c: seq<string>)
    ensures Chars(a + b + c) == Chars(a) + Chars(b) + Chars(c)
  {
    CharsConcat(a + b, c);
    CharsConcat(a, b);
  }

  lemma {:induction false} JoinLength(lines: seq<string>)
    ensures |Join(lines, '\n')| == Chars(lines) + if lines == [] then 0 else |lines| - 1
  {
    if |lines| <= 1 {
      assert lines != [] ==> lines[1..] == [];
    } else {
      JoinLength(lines[1..]);
    }
  }

  lemma RenderShorter(m: seq<string>, n: seq<string>, newline: bool)
    requires |n| == |m| && Chars(n) < Chars(m)
    ensures Render(n, newline) != Render(m, newline)
  {
    JoinLength(m);
    JoinLength(n);
    assert |Render(n, newline)| < |Render(m, newline)|;
  }

  /**
   EXACT for carriage returns: anchored hunks with a meaning, printed as text, give the edited text if and only if
   no operation's line ends in CR.
   */
  lemma CrExact(original: string, hs: seq<Hunk<string>>)
    requires forall h :: h in hs ==> TextHunk(h) && Anchored(h)
    requires Meaning(SplitLines(original), 0, hs).Some?
    ensures var edited := Meaning(SplitLines(original), 0, hs).value;
      ApplyText(original, PrintText(hs)) == Some(Render(edited, EndsInNewline(original))) <==> NoCr(hs)
  {
    var orig := SplitLines(original);
    AppliedText(original, hs);
    StripAnchored(hs);
    AnchoredMeetsPosix(orig, 0, StripAll(hs));
    if NoCr(hs) {
      StripKeeps(hs);
    } else if Meaning(orig, 0, StripAll(hs)).Some? {
      MeaningAssembles(orig, 0, hs);
      MeaningAssembles(orig, 0, StripAll(hs));
      StripShortens(orig, 0, hs);
      OldLinesPlain(orig, 0, hs);
      if CrInserted(hs) == 0 { NoCrLeft(hs); }
      RenderShorter(Assembled(orig, 0, hs), Assembled(orig, 0, StripAll(hs)), EndsInNewline(original));
    }
  }

  /** A line of a file with CRLF line ends: POSIX drops it, the code does not find it. */
  lemma CrLineNotFound()
    ensures var hs := [Hunk(1, 1, [Drop("a\r")])];
      Meaning(SplitLines("a\r\n"), 0, hs) == Some([]) && ApplyText("a\r\n", PrintText(hs)) == None
  {
    var h := Hunk(1, 1, [Drop("a\r")]);
    var hs := [h];
    CrSplits();
    assert Old(h.ops) == ["a\r"] && New(h.ops) == [] && hs[1..] == [];
    DropsAll("a\r", h);
    AppliedText("a\r\n", hs);
    assert StripCr("a\r") == "a";
    assert StripAll(hs) == [StripHunk(h)] && StripHunk(h).ops == [Drop("a")] && Old(StripHunk(h).ops) == ["a"];
    NotFound("a\r", "a", StripHunk(h));
  }

  lemma CrSplits()
    ensures SplitLines("a\r\n") == ["a\r"]
  {
    SplitJoin(["a\r"], '\n');
    assert "a\r\n"[..2] == "a\r" == Join(["a\r"], '\n');
  }

  lemma DropsAll<T>(x: T, h: Hunk<T>)
    requires h.oldStart == 1 && Old(h.ops) == [x] && New(h.ops) == []
    ensures Meaning([x], 0, [h]) == Some([])
  {
    assert [h][1..] == [] && [x][0..1] == [x] && [x][0..0] == [] && [x][1..] == [];
    assert Meaning([x], 1, []) == Some([x][1..]);
    assert [] + [] + [x][1..] == [];
  }

  lemma NotFound<T>(x: T, y: T, h: Hunk<T>)
    requires x != y && h.oldStart == 1 && Old(h.ops) == [y]
    ensures Replay([x], 0, ReadAll([h])) == None
  {
    assert [h] + [] == [h];
    ReadAllCons(h, []);
    ReplayCons([x], 0, Read(h), ReadAll([]));
    assert [x][0..1] == [x] && [x][0] != [y][0];
  }
}
