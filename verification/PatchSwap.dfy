/** Swapping the two sides of a diff (`patchapply.rs`), and what the text of a result keeps. */
module PatchSwap {
  import opened Wrappers
  import opened Text
  import opened PatchApply
  import opened PatchLaws

  // ---- swapping the two sides ----

  function Flip<T>(op: Op<T>): Op<T> {
    match op
    case Keep(x) => Keep(x)
    case Drop(x) => Insert(x)
    case Insert(x) => Drop(x)
  }

  function FlipOps<T>(ops: seq<Op<T>>): (r: seq<Op<T>>)
    ensures Old(r) == New(ops) && New(r) == Old(ops)
  {
    if ops == [] then [] else [Flip(ops[0])] + FlipOps(ops[1..])
  }

  /** The hunk read from new to old. */
  function FlipHunk<T>(h: Hunk<T>): Hunk<T> {
    Hunk(h.newStart, h.oldStart, FlipOps(h.ops))
  }

  function FlipAll<T>(hs: seq<Hunk<T>>): seq<Hunk<T>> {
    if hs == [] then [] else [FlipHunk(hs[0])] + FlipAll(hs[1..])
  }

  /** New-range starts are right: each is where the hunk's lines land in the output. */
  predicate Numbered<T>(cursor: nat, produced: nat, hs: seq<Hunk<T>>)
    decreases |hs|
  {
    hs == [] ||
    (var at := hs[0].oldStart - 1;
     && cursor <= at && hs[0].newStart == produced + (at - cursor) + 1
     && Numbered(at + |Old(hs[0].ops)|, produced + (at - cursor) + |New(hs[0].ops)|, hs[1..]))
  }

  predicate BothSides<T>(h: Hunk<T>) {
    Old(h.ops) != [] && New(h.ops) != []
  }

  ghost predicate Yields<T>(orig: seq<T>, cursor: nat, hs: seq<Parsed<T>>, out: seq<T>) {
    cursor <= |orig| && Replay(orig, cursor, hs) == Some(out)
  }

  lemma {:induction false} FlipUndoes<T>(orig: seq<T>, cursor: nat, hs: seq<Hunk<T>>, before: seq<T>, out: seq<T>)
    requires cursor <= |orig| && (forall h :: h in hs ==> BothSides(h)) && Numbered(cursor, |before|, hs)
    requires Yields(orig, cursor, ReadAll(hs), out)
    ensures Yields(before + out, |before|, ReadAll(FlipAll(hs)), orig[cursor..])
    decreases |hs|
  {
    if hs == [] {
      assert (before + out)[|before|..] == out;
    } else {
      var at, gone, came := hs[0].oldStart - 1, Old(hs[0].ops), New(hs[0].ops);
      var rest := FlipParts(orig, cursor, hs, before, out);
      var copied := orig[cursor..at];
      FlipUndoes(orig, at + |gone|, hs[1..], before + copied + came, rest);
      FlipStep(before, copied, came, rest, orig[at + |gone|..], Read(FlipHunk(hs[0])), ReadAll(FlipAll(hs[1..])));
      assert ReadAll(FlipAll(hs)) == [Read(FlipHunk(hs[0]))] + ReadAll(FlipAll(hs[1..]));
      Slices(orig, cursor, at, at + |gone|);
    }
  }

  /** The output of a replay taken apart at its first hunk. */
  lemma FlipParts<T>(orig: seq<T>, cursor: nat, hs: seq<Hunk<T>>, before: seq<T>, out: seq<T>) returns (rest: seq<T>)
    requires cursor <= |orig| && hs != [] && (forall h :: h in hs ==> BothSides(h)) && Numbered(cursor, |before|, hs)
    requires Yields(orig, cursor, ReadAll(hs), out)
    ensures var at, gone, came := hs[0].oldStart - 1, Old(hs[0].ops), New(hs[0].ops);
            && cursor <= at && at + |gone| <= |orig| && orig[at..at + |gone|] == gone
            && out == orig[cursor..at] + came + rest
            && Yields(orig, at + |gone|, ReadAll(hs[1..]), rest)
            && Numbered(at + |gone|, |before + orig[cursor..at] + came|, hs[1..])
            && Read(FlipHunk(hs[0])).head.oldStart == |before| + |orig[cursor..at]| + 1
  {
    assert hs[0] in hs;
    NumberedTail(cursor, |before|, hs);
    rest := FirstHunk(orig, cursor, hs, out);
  }

  lemma NumberedTail<T>(cursor: nat, produced: nat, hs: seq<Hunk<T>>)
    requires hs != [] && BothSides(hs[0]) && Numbered(cursor, produced, hs)
    ensures var at := hs[0].oldStart - 1;
            && cursor <= at && Read(FlipHunk(hs[0])).head.oldStart == produced + (at - cursor) + 1
            && Numbered(at + |Old(hs[0].ops)|, produced + (at - cursor) + |New(hs[0].ops)|, hs[1..])
  {}

  lemma MatchesSlice<T>(orig: seq<T>, at: nat, block: seq<T>)
    requires Matches(orig, at, block)
    ensures at + |block| <= |orig| && orig[at..at + |block|] == block
  {}

  lemma YieldsHead<T>(orig: seq<T>, cursor: nat, h: Parsed<T>, hs: seq<Parsed<T>>, out: seq<T>) returns (rest: seq<T>)
    requires Yields(orig, cursor, [h] + hs, out)
    ensures Applies(orig, cursor, h) && out == orig[cursor..Target(h.head)] + New(h.ops) + rest
    ensures Yields(orig, Target(h.head) + |Old(h.ops)|, hs, rest)
  {
    ReplayCons(orig, cursor, h, hs);
    rest := Replay(orig, Target(h.head) + |Old(h.ops)|, hs).value;
  }

  lemma FirstHunk<T>(orig: seq<T>, cursor: nat, hs: seq<Hunk<T>>, out: seq<T>) returns (rest: seq<T>)
    requires cursor <= |orig| && hs != [] && BothSides(hs[0]) && Yields(orig, cursor, ReadAll(hs), out)
    ensures var at, gone := hs[0].oldStart - 1, Old(hs[0].ops);
            && cursor <= at && at + |gone| <= |orig| && orig[at..at + |gone|] == gone
            && out == orig[cursor..at] + New(hs[0].ops) + rest
            && Yields(orig, at + |gone|, ReadAll(hs[1..]), rest)
  {
    ReadAllHead(hs);
    rest := YieldsHead(orig, cursor, Read(hs[0]), ReadAll(hs[1..]), out);
    MatchesSlice(orig, hs[0].oldStart - 1, Old(hs[0].ops));
  }

  /** One swapped hunk: it consumes what came, restores what was gone, and leaves the rest as it was. */
  lemma FlipStep<T>(before: seq<T>, copied: seq<T>, came: seq<T>, rest: seq<T>, later: seq<T>, h: Parsed<T>,
                    more: seq<Parsed<T>>)
    requires Old(h.ops) == came && h.head.oldStart == |before| + |copied| + 1
    requires Yields((before + copied + came) + rest, |before + copied + came|, more, later)
    ensures Yields(before + (copied + came + rest), |before|, [h] + more, copied + New(h.ops) + later)
  {
    Regroup(before, copied, came, rest);
    WhereItLands(before, copied, came, rest);
    ReplayCons((before + copied + came) + rest, |before|, h, more);
  }

  /** The new lines of a hunk stand right behind what was copied before them. */
  lemma WhereItLands<T>(before: seq<T>, copied: seq<T>, came: seq<T>, rest: seq<T>)
    ensures var all := (before + copied + came) + rest;
            && Matches(all, |before| + |copied|, came)
            && all[|before|..|before| + |copied|] == copied
  {}

  // ---- the text of a result ----

  /** Rendering keeps every text the lines of which were just split, except a lone newline. */
  lemma RenderOfSplit(s: string)
    ensures Render(SplitLines(s), EndsInNewline(s)) == s <==> s != "\n"
    ensures forall x :: x in SplitLines(s) ==> '\n' !in x
  {
    if s != "" {
      var body := if EndsInNewline(s) then s[..|s| - 1] else s;
      JoinSplit(body, '\n');
      if EndsInNewline(s) {
        assert s == body + "\n";
        if body == "" { assert s == "\n"; }
      }
    }
  }

  /** The empty diff is the identity on every text but a lone newline. */
  lemma EmptyDiffIdentity(s: string)
    ensures ApplyText(s, "") == Some(s) <==> s != "\n"
  {
    RenderOfSplit(s);
    var ps := Split("", '\n');
    assert Lines("") == [];
    assert SplitLines(s)[0..] == SplitLines(s);
  }

  /** When the text of a result can be split into the same lines again. */
  predicate ReadsBack(out: seq<string>, newline: bool) {
    if out == [] then !newline else if newline then out != [""] else out[|out| - 1] != ""
  }

  lemma {:induction false} JoinLastLine(out: seq<string>)
    requires out != [] && forall x :: x in out ==> '\n' !in x
    ensures EndsInNewline(Join(out, '\n')) <==> |out| > 1 && out[|out| - 1] == ""
    ensures Join(out, '\n') == "" <==> out == [""]
  {
    if |out| > 1 {
      JoinLastLine(out[1..]);
      var j := Join(out[1..], '\n');
      assert Join(out, '\n') == out[0] + ['\n'] + j;
      assert out[1..][|out| - 2] == out[|out| - 1];
      if j == "" { assert Join(out, '\n')[|out[0]|] == '\n'; }
    } else if out[0] != "" {
      assert out[0][|out[0]| - 1] in out[0];
    }
  }

  /**
   EXACT: a rendered result splits back into its lines and newline flag if and only if it has no empty end to
   lose.
   */
  lemma RenderReadsBack(out: seq<string>, newline: bool)
    requires forall x :: x in out ==> '\n' !in x
    ensures SplitLines(Render(out, newline)) == out && EndsInNewline(Render(out, newline)) == newline <==>
            ReadsBack(out, newline)
  {
    if out != [] {
      JoinLastLine(out);
      SplitJoin(out, '\n');
      var text := Join(out, '\n');
      if newline && text != "" {
        assert (text + "\n")[..|text|] == text;
      }
    }
  }

  lemma {:induction false} NewLinesWhole(ops: seq<Op<string>>)
    requires forall op :: op in ops ==> '\n' !in op.line
    ensures forall x :: x in New(ops) ==> '\n' !in x
  {
    if ops == [] {
    } else {
      NewLinesWhole(ops[1..]);
      assert ops[0] in ops;
    }
  }

  lemma {:induction false} OutputWhole(orig: seq<string>, cursor: nat, hs: seq<Hunk<string>>)
    requires cursor <= |orig| && Replay(orig, cursor, ReadAll(hs)).Some?
    requires (forall x :: x in orig ==> '\n' !in x) && forall h :: h in hs ==> TextHunk(h)
    ensures forall x :: x in Replay(orig, cursor, ReadAll(hs)).value ==> '\n' !in x
    decreases |hs|
  {
    if hs == [] {
    } else {
      assert ReadAll(hs)[1..] == ReadAll(hs[1..]) && hs[0] in hs;
      OutputWhole(orig, Target(Read(hs[0]).head) + |Old(hs[0].ops)|, hs[1..]);
      NewLinesWhole(hs[0].ops);
    }
  }

  lemma {:induction false} FlipKeepsPrintable(hs: seq<Hunk<string>>)
    requires forall h :: h in hs ==> TextHunk(h)
    ensures forall h :: h in FlipAll(hs) ==> TextHunk(h)
  {
    if hs == [] {
    } else {
      FlipKeepsPrintable(hs[1..]);
      assert hs[0] in hs;
      FlipKeepsLines(hs[0].ops);
    }
  }

  lemma {:induction false} FlipKeepsLines(ops: seq<Op<string>>)
    requires forall op :: op in ops ==> '\n' !in op.line
    ensures forall op :: op in FlipOps(ops) ==> '\n' !in op.line
  {
    if ops == [] {
    } else {
      FlipKeepsLines(ops[1..]);
      assert ops[0] in ops;
    }
  }

  // ---- swapping, text to text ----

  function Last<T>(xs: seq<T>): T
    requires xs != []
  {
    xs[|xs| - 1]
  }

  /**
   The result would end in an empty line that its text cannot show: the last hunk reaches the end of the
   original and leaves an empty last line there, or, where a trailing newline is given back, nothing but one.
   */
  predicate LosesEnd(orig: seq<string>, newline: bool, hs: seq<Hunk<string>>) {
    hs != [] &&
    (var h := Last(hs);
     && h.oldStart - 1 + |Old(h.ops)| == |orig|
     && if newline then |hs| == 1 && h.oldStart == 1 && New(h.ops) == [""]
        else New(h.ops) != [] && Last(New(h.ops)) == "")
  }

  /** The last line of an output: of the last hunk if that reaches the end, else the original's. */
  lemma {:induction false} LastOfOutput<T>(orig: seq<T>, cursor: nat, hs: seq<Hunk<T>>, out: seq<T>)
    requires hs != [] && (forall h :: h in hs ==> BothSides(h)) && Yields(orig, cursor, ReadAll(hs), out)
    ensures var h := Last(hs);
      && BothSides(h) && out != [] && h.oldStart - 1 + |Old(h.ops)| <= |orig| && orig != []
      && Last(out) == if h.oldStart - 1 + |Old(h.ops)| == |orig| then Last(New(h.ops)) else Last(orig)
    decreases |hs|
  {
    assert hs[0] in hs;
    var rest := FirstHunk(orig, cursor, hs, out);
    var next := hs[0].oldStart - 1 + |Old(hs[0].ops)|;
    if |hs| == 1 {
      assert hs[1..] == [] && rest == orig[next..];
      LastOfParts(orig[cursor..hs[0].oldStart - 1] + New(hs[0].ops), rest);
      LastOfParts(orig[cursor..hs[0].oldStart - 1], New(hs[0].ops));
    } else {
      LastOfOutput(orig, next, hs[1..], rest);
      LastOfParts(orig[cursor..hs[0].oldStart - 1] + New(hs[0].ops), rest);
    }
  }

  lemma LastOfParts<T>(a: seq<T>, b: seq<T>)
    ensures a + b != [] ==> Last(a + b) == if b != [] then Last(b) else Last(a)
  {}

  /** An output of one line: one hunk that replaces everything by it. */
  lemma OneLineOutput<T>(orig: seq<T>, hs: seq<Hunk<T>>, out: seq<T>, x: T)
    requires hs != [] && (forall h :: h in hs ==> BothSides(h)) && Yields(orig, 0, ReadAll(hs), out)
    ensures var h := Last(hs);
      out == [x] <==>
      h.oldStart - 1 + |Old(h.ops)| == |orig| && |hs| == 1 && h.oldStart == 1 && New(h.ops) == [x]
  {
    assert hs[0] in hs;
    var rest := FirstHunk(orig, 0, hs, out);
    var at, next := hs[0].oldStart - 1, hs[0].oldStart - 1 + |Old(hs[0].ops)|;
    if |hs| == 1 {
      assert hs[1..] == [] && rest == orig[next..];
      OneOfThree(orig[0..at], New(hs[0].ops), rest, x);
    } else {
      LastOfOutput(orig, next, hs[1..], rest);
      assert |out| == |orig[0..at]| + |New(hs[0].ops)| + |rest| > 1;
    }
  }

  lemma OneOfThree<T>(a: seq<T>, b: seq<T>, c: seq<T>, x: T)
    requires b != []
    ensures a + b + c == [x] <==> a == [] && b == [x] && c == []
  {
    if a + b + c == [x] {
      assert |a| + |b| + |c| == 1;
      assert a == [] && c == [] && a + b + c == b;
    }
  }

  /** How a text ends, told from its lines. */
  lemma LinesOf(s: string)
    requires s != "\n"
    ensures EndsInNewline(s) ==> SplitLines(s) != [] && SplitLines(s) != [""]
    ensures !EndsInNewline(s) && SplitLines(s) != [] ==> Last(SplitLines(s)) != ""
    ensures !EndsInNewline(s) ==> (SplitLines(s) == [] <==> s == "")
  {
    RenderOfSplit(s);
    var lines := SplitLines(s);
    if s != "" && !EndsInNewline(s) {
      JoinSplit(s, '\n');
      JoinLastLine(lines);
    } else if EndsInNewline(s) {
      var body := s[..|s| - 1];
      JoinSplit(body, '\n');
      assert s == body + "\n";
    }
  }

  /** The result's text keeps its lines if and only if no empty end is lost. */
  lemma LostEnd(original: string, hs: seq<Hunk<string>>, out: seq<string>)
    requires original != "\n" && (forall h :: h in hs ==> BothSides(h))
    requires Yields(SplitLines(original), 0, ReadAll(hs), out)
    ensures ReadsBack(out, EndsInNewline(original)) <==> !LosesEnd(SplitLines(original), EndsInNewline(original), hs)
  {
    var orig := SplitLines(original);
    LinesOf(original);
    if hs == [] {
      assert out == orig[0..] == orig;
    } else {
      assert Last(hs) in hs;
      LastOfOutput(orig, 0, hs, out);
      OneLineOutput(orig, hs, out, "");
    }
  }

  /** Hunks with old lines cannot be applied to nothing. */
  lemma NothingToChange<T>(hs: seq<Hunk<T>>)
    requires hs != [] && Old(hs[0].ops) != []
    ensures Replay([], 0, ReadAll(hs)) == None
  {
    ReadAllHead(hs);
    ReplayCons([], 0, Read(hs[0]), ReadAll(hs[1..]));
  }

  /** Rendering with a trailing newline gives a text that ends in one, or nothing, but never a lone newline. */
  lemma RenderedEnd(out: seq<string>)
    ensures Render(out, true) == "" || (EndsInNewline(Render(out, true)) && Render(out, true) != "\n")
  {
    var text := Join(out, '\n');
    if text != "" { assert (text + "\n")[|text|] == '\n' && |text + "\n"| > 1; }
  }

  lemma {:induction false} StripKeepsText(hs: seq<Hunk<string>>)
    requires forall h :: h in hs ==> TextHunk(h)
    ensures forall h :: h in StripAll(hs) ==> TextHunk(h)
  {
    if hs == [] {
    } else {
      assert hs[0] in hs;
      StripKeepsText(hs[1..]);
      StripKeepsLines(hs[0].ops);
    }
  }

  lemma {:induction false} StripKeepsLines(ops: seq<Op<string>>)
    requires forall op :: op in ops ==> '\n' !in op.line
    ensures forall op :: op in StripOps(ops) ==> '\n' !in op.line
  {
    if ops == [] {
    } else {
      assert ops[0] in ops;
      StripKeepsLines(ops[1..]);
    }
  }

  lemma {:induction false} StripKeepsSides(cursor: nat, produced: nat, hs: seq<Hunk<string>>)
    requires (forall h :: h in hs ==> BothSides(h)) && Numbered(cursor, produced, hs)
    ensures (forall h :: h in StripAll(hs) ==> BothSides(h)) && Numbered(cursor, produced, StripAll(hs))
    decreases |hs|
  {
    if hs == [] {
    } else {
      var h, at := hs[0], hs[0].oldStart - 1;
      assert h in hs && StripAll(hs)[1..] == StripAll(hs[1..]);
      StripKeepsSides(at + |Old(h.ops)|, produced + (at - cursor) + |New(h.ops)|, hs[1..]);
      assert |Old(StripHunk(h).ops)| == |Old(h.ops)| && |New(StripHunk(h).ops)| == |New(h.ops)|;
    }
  }

  lemma {:induction false} FlipStripOps(ops: seq<Op<string>>)
    ensures FlipOps(StripOps(ops)) == StripOps(FlipOps(ops))
  {
    if ops == [] {
    } else {
      FlipStripOps(ops[1..]);
    }
  }

  /** Swapping the sides and dropping CRs can be done in either order. */
  lemma {:induction false} FlipStrip(hs: seq<Hunk<string>>)
    ensures FlipAll(StripAll(hs)) == StripAll(FlipAll(hs))
  {
    if hs == [] {
    } else {
      FlipStrip(hs[1..]);
      FlipStripOps(hs[0].ops);
    }
  }

  /**
   INVERSE, text to text: if a diff applies, the diff with its two sides swapped applies to the result and gives
   the original back, if and only if the original is not a lone newline and the hunks, as they are read back,
   lose no empty end.
   */
  lemma SwappedDiffUndoes(original: string, hs: seq<Hunk<string>>)
    requires (forall h :: h in hs ==> TextHunk(h) && BothSides(h)) && Numbered(0, 0, hs)
    requires ApplyText(original, PrintText(hs)).Some?
    ensures ApplyText(ApplyText(original, PrintText(hs)).value, PrintText(FlipAll(hs))) == Some(original) <==>
      original != "\n" && !LosesEnd(SplitLines(original), EndsInNewline(original), StripAll(hs))
  {
    var orig, newline, read := SplitLines(original), EndsInNewline(original), StripAll(hs);
    AppliedText(original, hs);
    var out := Replay(orig, 0, ReadAll(read)).value;
    StripKeepsText(hs);
    StripKeepsSides(0, 0, hs);
    SplitIsWhole(original);
    OutputWhole(orig, 0, read);
    FlipKeepsPrintable(hs);
    AppliedText(Render(out, newline), FlipAll(hs));
    FlipStrip(hs);
    ReadUndoes(original, read, out);
  }

  /** The same for hunks as they are read back. */
  lemma ReadUndoes(original: string, hs: seq<Hunk<string>>, out: seq<string>)
    requires (forall h :: h in hs ==> BothSides(h)) && Numbered(0, 0, hs)
    requires Yields(SplitLines(original), 0, ReadAll(hs), out) && forall x :: x in out ==> '\n' !in x
    ensures var text := Render(out, EndsInNewline(original));
      var r := Replay(SplitLines(text), 0, ReadAll(FlipAll(hs)));
      r.Some? && Render(r.value, EndsInNewline(text)) == original <==>
      original != "\n" && !LosesEnd(SplitLines(original), EndsInNewline(original), hs)
  {
    var orig := SplitLines(original);
    RenderOfSplit(original);
    RenderReadsBack(out, EndsInNewline(original));
    if original == "\n" {
      LoneNewline(hs, out);
    } else {
      LostEnd(original, hs, out);
      if ReadsBack(out, EndsInNewline(original)) {
        FlipUndoes(orig, 0, hs, [], out);
        assert [] + out == out && orig[0..] == orig;
      } else {
        EndGone(original, hs, out);
      }
    }
  }

  lemma SplitIsWhole(s: string)
    ensures forall x :: x in SplitLines(s) ==> '\n' !in x
  {
    if s != "" { JoinSplit(if EndsInNewline(s) then s[..|s| - 1] else s, '\n'); }
  }

  /** A lone newline never comes back. */
  lemma LoneNewline(hs: seq<Hunk<string>>, out: seq<string>)
    requires forall h :: h in hs ==> BothSides(h)
    ensures var text := Render(out, true);
      var r := Replay(SplitLines(text), 0, ReadAll(FlipAll(hs)));
      r.Some? ==> Render(r.value, EndsInNewline(text)) != "\n"
  {
    var text := Render(out, true);
    RenderedEnd(out);
    var r := Replay(SplitLines(text), 0, ReadAll(FlipAll(hs)));
    if r.Some? {
      if text == "" { EmptyStaysEmpty(hs); } else { RenderedEnd(r.value); }
    }
  }

  lemma EmptyStaysEmpty(hs: seq<Hunk<string>>)
    requires forall h :: h in hs ==> BothSides(h)
    ensures hs != [] ==> Replay([], 0, ReadAll(FlipAll(hs))) == None
    ensures hs == [] ==> Replay([], 0, ReadAll(FlipAll(hs))) == Some([])
  {
    if hs != [] {
      assert hs[0] in hs;
      NothingToChange(FlipAll(hs));
    }
  }

  /** Where an empty end is lost, the swapped diff is rejected or ends in a newline the original does not have. */
  lemma EndGone(original: string, hs: seq<Hunk<string>>, out: seq<string>)
    requires original != "\n" && (forall h :: h in hs ==> BothSides(h))
    requires Yields(SplitLines(original), 0, ReadAll(hs), out) && (forall x :: x in out ==> '\n' !in x)
    requires !ReadsBack(out, EndsInNewline(original))
    ensures var text := Render(out, EndsInNewline(original));
      var r := Replay(SplitLines(text), 0, ReadAll(FlipAll(hs)));
      r.Some? ==> Render(r.value, EndsInNewline(text)) != original
  {
    var text := Render(out, EndsInNewline(original));
    LinesOf(original);
    assert hs == [] ==> out == SplitLines(original);
    if out != [] { JoinLastLine(out); }
    if text == "" {
      EmptyStaysEmpty(hs);
    } else {
      assert !EndsInNewline(original) && EndsInNewline(text);
      LastOfOutput(SplitLines(original), 0, hs, out);
      var r := Replay(SplitLines(text), 0, ReadAll(FlipAll(hs)));
      if r.Some? { RenderedEnd(r.value); }
    }
  }

  /** The smallest text that does not come back: its only line is replaced by an empty one. */
  lemma EmptyLineLost()
    ensures var hs := [Hunk(1, 1, [Drop("a"), Insert("")])];
      && ApplyText("a", PrintText(hs)) == Some("") && ApplyText("", PrintText(FlipAll(hs))) == None
      && LosesEnd(["a"], false, hs)
  {
    var h := Hunk(1, 1, [Drop("a"), Insert("")]);
    var hs := [h];
    assert h.ops[1..] == [Insert("")] && Old(h.ops) == ["a"] && New(h.ops) == [""];
    SplitJoin(["a"], '\n');
    assert Join(["a"], '\n') == "a";
    assert !EndsInNewline("a") && !EndsInNewline("");
    assert forall op :: op in h.ops ==> '\n' !in op.line && !EndsInCr(op.line);
    StripKeeps(hs);
    AppliedText("a", hs);
    assert ReadAll(hs) == [Read(h)];
    WholeReplaced(["a"], Read(h));
    FlipKeepsPrintable(hs);
    FlipStrip(hs);
    AppliedText("", FlipAll(hs));
    NothingToChange(FlipAll(hs));
  }
}
