/**
 What applying a diff (`patchapply.rs`) promises: any success is an honest edit script, header counts are
 met exactly under a checkable condition, and a printed diff reads back.
 */
module PatchLaws {
  import opened Wrappers
  import opened Text
  import opened Decimal
  import opened Sequences
  import opened PatchApply

  // ---- any diff that applies ----

  function Keeps<T>(xs: seq<T>): seq<Op<T>> {
    if xs == [] then [] else [Keep(xs[0])] + Keeps(xs[1..])
  }

  lemma {:induction false} KeepsKeep<T>(xs: seq<T>)
    ensures Old(Keeps(xs)) == xs && New(Keeps(xs)) == xs
    ensures Drops(Keeps(xs)) == 0 && Inserts(Keeps(xs)) == 0
  {
    if xs == [] {
    } else {
      KeepsKeep(xs[1..]);
      assert xs == [xs[0]] + xs[1..];
      assert Keeps(xs)[1..] == Keeps(xs[1..]);
    }
  }

  /** Every operation performed on `orig[cursor..]`, the copied lines included. */
  function Script<T>(orig: seq<T>, cursor: nat, hs: seq<Parsed<T>>): seq<Op<T>>
    requires cursor <= |orig| && Replay(orig, cursor, hs).Some?
    decreases |hs|
  {
    if hs == [] then Keeps(orig[cursor..])
    else
      var at := Target(hs[0].head);
      Keeps(orig[cursor..at]) + hs[0].ops + Script(orig, at + |Old(hs[0].ops)|, hs[1..])
  }

  function TotalDrops<T>(hs: seq<Parsed<T>>): nat {
    if hs == [] then 0 else Drops(hs[0].ops) + TotalDrops(hs[1..])
  }

  function TotalInserts<T>(hs: seq<Parsed<T>>): nat {
    if hs == [] then 0 else Inserts(hs[0].ops) + TotalInserts(hs[1..])
  }

  lemma ThreeParts<T>(a: seq<Op<T>>, b: seq<Op<T>>, c: seq<Op<T>>)
    ensures Old(a + b + c) == Old(a) + Old(b) + Old(c)
    ensures New(a + b + c) == New(a) + New(b) + New(c)
  {
    OldConcat(a + b, c);
    OldConcat(a, b);
    NewConcat(a + b, c);
    NewConcat(a, b);
  }

  lemma Slices<T>(s: seq<T>, a: nat, b: nat, c: nat)
    requires a <= b <= c <= |s|
    ensures s[a..b] + s[b..c] + s[c..] == s[a..]
  {}

  lemma ReplayHead<T>(orig: seq<T>, cursor: nat, hs: seq<Parsed<T>>)
    requires cursor <= |orig| && hs != [] && Replay(orig, cursor, hs).Some?
    ensures Applies(orig, cursor, hs[0])
    ensures var at, old' := Target(hs[0].head), Old(hs[0].ops);
            && Replay(orig, at + |old'|, hs[1..]).Some?
            && Replay(orig, cursor, hs).value ==
              orig[cursor..at] + New(hs[0].ops) + Replay(orig, at + |old'|, hs[1..]).value
            && orig[at..at + |old'|] == old'
  {}

  lemma ReplayCons<T>(orig: seq<T>, cursor: nat, h: Parsed<T>, hs: seq<Parsed<T>>)
    requires cursor <= |orig|
    ensures var at, old' := Target(h.head), Old(h.ops);
            Replay(orig, cursor, [h] + hs) ==
            if !Applies(orig, cursor, h) || Replay(orig, at + |old'|, hs).None? then None
            else Some(orig[cursor..at] + New(h.ops) + Replay(orig, at + |old'|, hs).value)
  {
    assert ([h] + hs)[1..] == hs;
  }

  /** The consumed side of the script is the original, line by line; the produced side is the output. */
  lemma {:induction false} ScriptExplains<T>(orig: seq<T>, cursor: nat, hs: seq<Parsed<T>>)
    requires cursor <= |orig| && Replay(orig, cursor, hs).Some?
    ensures Old(Script(orig, cursor, hs)) == orig[cursor..]
    ensures New(Script(orig, cursor, hs)) == Replay(orig, cursor, hs).value
    decreases |hs|
  {
    if hs == [] {
      NoHunks(orig, cursor, hs);
    } else {
      ReplayHead(orig, cursor, hs);
      ScriptExplains(orig, Target(hs[0].head) + |Old(hs[0].ops)|, hs[1..]);
      OneMoreHunk(orig, cursor, hs);
    }
  }

  lemma NoHunks<T>(orig: seq<T>, cursor: nat, hs: seq<Parsed<T>>)
    requires cursor <= |orig| && hs == []
    ensures Old(Script(orig, cursor, hs)) == orig[cursor..]
    ensures New(Script(orig, cursor, hs)) == Replay(orig, cursor, hs).value
  {
    KeepsKeep(orig[cursor..]);
  }

  lemma OneMoreHunk<T>(orig: seq<T>, cursor: nat, hs: seq<Parsed<T>>)
    requires cursor <= |orig| && hs != [] && Replay(orig, cursor, hs).Some?
    requires Applies(orig, cursor, hs[0])
    requires var next := Target(hs[0].head) + |Old(hs[0].ops)|;
             && Replay(orig, next, hs[1..]).Some?
             && Old(Script(orig, next, hs[1..])) == orig[next..]
               && New(Script(orig, next, hs[1..])) == Replay(orig, next, hs[1..]).value
    ensures Old(Script(orig, cursor, hs)) == orig[cursor..]
    ensures New(Script(orig, cursor, hs)) == Replay(orig, cursor, hs).value
  {
    var at := Target(hs[0].head);
    var next := at + |Old(hs[0].ops)|;
    var rest := Script(orig, next, hs[1..]);
    ReplayHead(orig, cursor, hs);
    ScriptHead(orig, cursor, hs);
    Slices(orig, cursor, at, next);
    PiecesExplain(orig[cursor..at], hs[0].ops, rest, orig[cursor..], orig[next..]);
  }

  lemma ScriptHead<T>(orig: seq<T>, cursor: nat, hs: seq<Parsed<T>>)
    requires cursor <= |orig| && hs != [] && Replay(orig, cursor, hs).Some?
    ensures var at := Target(hs[0].head);
            Script(orig, cursor, hs) ==
              Keeps(orig[cursor..at]) + hs[0].ops + Script(orig, at + |Old(hs[0].ops)|, hs[1..])
  {}

  /** Copied lines, one body, and what follows: both sides of the edit. */
  lemma PiecesExplain<T>(copied: seq<T>, ops: seq<Op<T>>, rest: seq<Op<T>>, whole: seq<T>, later: seq<T>)
    requires whole == copied + Old(ops) + later && Old(rest) == later
    ensures Old(Keeps(copied) + ops + rest) == whole
    ensures New(Keeps(copied) + ops + rest) == copied + New(ops) + New(rest)
  {
    KeepsKeep(copied);
    ThreeParts(Keeps(copied), ops, rest);
  }

  lemma {:induction false} ScriptCounts<T>(orig: seq<T>, cursor: nat, hs: seq<Parsed<T>>)
    requires cursor <= |orig| && Replay(orig, cursor, hs).Some?
    ensures Drops(Script(orig, cursor, hs)) == TotalDrops(hs)
    ensures Inserts(Script(orig, cursor, hs)) == TotalInserts(hs)
    decreases |hs|
  {
    if hs == [] {
      KeepsKeep(orig[cursor..]);
    } else {
      var at := Target(hs[0].head);
      var next := at + |Old(hs[0].ops)|;
      KeepsKeep(orig[cursor..at]);
      ScriptCounts(orig, next, hs[1..]);
      var k, rest := Keeps(orig[cursor..at]), Script(orig, next, hs[1..]);
      assert Script(orig, cursor, hs) == k + hs[0].ops + rest;
      CountsConcat(k + hs[0].ops, rest);
      CountsConcat(k, hs[0].ops);
    }
  }

  /**
   Whatever the headers claim, a success is the original with the diff's `-` lines removed and its `+` lines
   inserted.
   */
  lemma AnySuccessIsAnEdit(original: string, diff: string)
    requires ApplyText(original, diff).Some?
    ensures var hs := ParseDiff(Lines(diff)).value;
            var out := Outcome(SplitLines(original), 0, Lines(diff)).value;
            && Old(Script(SplitLines(original), 0, hs)) == SplitLines(original)
            && New(Script(SplitLines(original), 0, hs)) == out
            && Drops(Script(SplitLines(original), 0, hs)) == TotalDrops(hs)
            && Inserts(Script(SplitLines(original), 0, hs)) == TotalInserts(hs)
            && |out| == |SplitLines(original)| - TotalDrops(hs) + TotalInserts(hs)
            && ApplyText(original, diff) == Some(Render(out, EndsInNewline(original)))
  {
    var hs := ParseDiff(Lines(diff)).value;
    var orig := SplitLines(original);
    ScriptExplains(orig, 0, hs);
    ScriptCounts(orig, 0, hs);
    OpsBalance(Script(orig, 0, hs));
    assert orig[0..] == orig;
  }

  /** Header counts are lower bounds, and the body stops at the first line that meets both. */
  lemma {:induction false} CountsAreLowerBounds(oldDue: int, newDue: int, lines: seq<string>)
    requires ParseBody(oldDue, newDue, lines).Some?
    ensures var ops := ParseBody(oldDue, newDue, lines).value.0;
            && |Old(ops)| >= oldDue && |New(ops)| >= newDue
            && forall k :: 0 <= k < |ops| ==> |Old(ops[..k])| < oldDue || |New(ops[..k])| < newDue
    decreases |lines|
  {
    var ops := ParseBody(oldDue, newDue, lines).value.0;
    if (oldDue > 0 || newDue > 0) && ReadBody(lines[0]).Marker? {
      CountsAreLowerBounds(oldDue, newDue, lines[1..]);
    } else if oldDue > 0 || newDue > 0 {
      var op := ReadBody(lines[0]).op;
      CountsAreLowerBounds(oldDue - |OldOf(op)|, newDue - |NewOf(op)|, lines[1..]);
      assert ops[1..] == ParseBody(oldDue - |OldOf(op)|, newDue - |NewOf(op)|, lines[1..]).value.0;
      forall k | 0 <= k < |ops| ensures |Old(ops[..k])| < oldDue || |New(ops[..k])| < newDue {
        if k > 0 { assert ops[..k][1..] == ops[1..][..k - 1]; }
      }
    }
  }

  /** Every operation in these lines, whatever a header says; `None` if a line is no body line. */
  function BodyOps(lines: seq<string>): Option<seq<Op<string>>> {
    if lines == [] then Some([])
    else
      var rest := BodyOps(lines[1..]);
      match ReadBody(lines[0])
      case Bad => None
      case Marker => rest
      case Line(op) => if rest.None? then None else Some([op] + rest.value)
  }

  /** The first `k` lines are a body of exactly `oldCount` old and `newCount` new lines. */
  predicate IsBodyOf(lines: seq<string>, k: nat, oldCount: nat, newCount: nat)
    requires k <= |lines|
  {
    var ops := BodyOps(lines[..k]);
    ops.Some? && |Old(ops.value)| == oldCount && |New(ops.value)| == newCount
  }

  ghost predicate HasBodyOf(lines: seq<string>, oldCount: nat, newCount: nat) {
    exists k :: 0 <= k <= |lines| && IsBodyOf(lines, k, oldCount, newCount)
  }

  predicate ReadExactly(oldCount: nat, newCount: nat, lines: seq<string>) {
    var r := ParseBody(oldCount, newCount, lines);
    r.Some? && |Old(r.value.0)| == oldCount && |New(r.value.0)| == newCount
  }

  /**
   EXACT: a body is read with exactly the header's counts if and only if the lines begin with a body of those
   counts.
   */
  lemma {:induction false} BodyExact(oldCount: nat, newCount: nat, lines: seq<string>)
    ensures ReadExactly(oldCount, newCount, lines) <==> HasBodyOf(lines, oldCount, newCount)
    decreases |lines|
  {
    if oldCount == 0 && newCount == 0 {
      assert IsBodyOf(lines, 0, 0, 0);
    } else if lines == [] {
      assert forall k :: 0 <= k <= |lines| ==> lines[..k] == [];
    } else {
      match ReadBody(lines[0]) {
        case Bad =>
          forall k | 0 <= k <= |lines| ensures !IsBodyOf(lines, k, oldCount, newCount) { FirstLineOf(lines, k); }
        case Marker =>
          BodyExact(oldCount, newCount, lines[1..]);
          SkipLine(oldCount, newCount, lines);
        case Line(op) =>
          var o, n := |OldOf(op)|, |NewOf(op)|;
          if oldCount >= o && newCount >= n { BodyExact(oldCount - o, newCount - n, lines[1..]); }
          TakeLine(oldCount, newCount, lines, op);
      }
    }
  }

  /** What the first line says about a body of `k` lines. */
  lemma FirstLineOf(lines: seq<string>, k: nat)
    requires lines != [] && k <= |lines|
    ensures k > 0 ==> BodyOps(lines[..k]) == match ReadBody(lines[0])
      case Bad => None
      case Marker => BodyOps(lines[1..][..k - 1])
      case Line(op) =>
        if BodyOps(lines[1..][..k - 1]).None? then None else Some([op] + BodyOps(lines[1..][..k - 1]).value)
    ensures k == 0 ==> BodyOps(lines[..k]) == Some([])
  {
    if k > 0 { assert lines[..k][1..] == lines[1..][..k - 1]; }
  }

  lemma SkipLine(oldCount: nat, newCount: nat, lines: seq<string>)
    requires lines != [] && ReadBody(lines[0]).Marker? && (oldCount > 0 || newCount > 0)
    ensures HasBodyOf(lines, oldCount, newCount) <==> HasBodyOf(lines[1..], oldCount, newCount)
  {
    forall k | 0 <= k <= |lines|
      ensures IsBodyOf(lines, k, oldCount, newCount) <==> k > 0 && IsBodyOf(lines[1..], k - 1, oldCount, newCount)
    {
      FirstLineOf(lines, k);
    }
    forall k | 0 <= k <= |lines[1..]| && IsBodyOf(lines[1..], k, oldCount, newCount)
      ensures IsBodyOf(lines, k + 1, oldCount, newCount)
    {
      assert (k + 1) - 1 == k;
    }
  }

  lemma TakeLine(oldCount: nat, newCount: nat, lines: seq<string>, op: Op<string>)
    requires lines != [] && ReadBody(lines[0]) == Line(op) && (oldCount > 0 || newCount > 0)
    ensures var o, n := |OldOf(op)|, |NewOf(op)|;
      && (HasBodyOf(lines, oldCount, newCount) <==>
           oldCount >= o && newCount >= n && HasBodyOf(lines[1..], oldCount - o, newCount - n))
      && (ReadExactly(oldCount, newCount, lines) <==>
           oldCount >= o && newCount >= n && ReadExactly(oldCount - o, newCount - n, lines[1..]))
  {
    TakeBody(oldCount, newCount, lines, op);
    var o, n := |OldOf(op)|, |NewOf(op)|;
    var rest := ParseBody(oldCount - o, newCount - n, lines[1..]);
    if rest.Some? { OneMoreOp(op, rest.value.0); }
  }

  lemma TakeBody(oldCount: nat, newCount: nat, lines: seq<string>, op: Op<string>)
    requires lines != [] && ReadBody(lines[0]) == Line(op) && (oldCount > 0 || newCount > 0)
    ensures var o, n := |OldOf(op)|, |NewOf(op)|;
      HasBodyOf(lines, oldCount, newCount) <==>
      oldCount >= o && newCount >= n && HasBodyOf(lines[1..], oldCount - o, newCount - n)
  {
    var o, n := |OldOf(op)|, |NewOf(op)|;
    forall k | 0 <= k <= |lines|
      ensures IsBodyOf(lines, k, oldCount, newCount) <==>
        k > 0 && oldCount >= o && newCount >= n && IsBodyOf(lines[1..], k - 1, oldCount - o, newCount - n)
    {
      FirstLineOf(lines, k);
      if k > 0 && BodyOps(lines[1..][..k - 1]).Some? { OneMoreOp(op, BodyOps(lines[1..][..k - 1]).value); }
    }
    if oldCount >= o && newCount >= n {
      var more, oldRest, newRest := lines[1..], oldCount - o, newCount - n;
      forall k | 0 <= k <= |more| && IsBodyOf(more, k, oldRest, newRest)
        ensures IsBodyOf(lines, k + 1, oldCount, newCount)
      {
        assert (k + 1) - 1 == k;
      }
    }
  }

  lemma OneMoreOp(op: Op<string>, ops: seq<Op<string>>)
    ensures |Old([op] + ops)| == |OldOf(op)| + |Old(ops)|
    ensures |New([op] + ops)| == |NewOf(op)| + |New(ops)|
  {
    assert ([op] + ops)[1..] == ops;
  }

  // ---- diffs with exact counts ----

  /** A hunk whose header counts are those of its body. */
  datatype Hunk<T> = Hunk(oldStart: nat, newStart: nat, ops: seq<Op<T>>)

  function Read<T>(h: Hunk<T>): Parsed<T> {
    Parsed(Header(h.oldStart, |Old(h.ops)|, |New(h.ops)|), h.ops)
  }

  function ReadAll<T>(hs: seq<Hunk<T>>): (r: seq<Parsed<T>>)
    ensures |r| == |hs|
  {
    if hs == [] then [] else [Read(hs[0])] + ReadAll(hs[1..])
  }

  lemma ReadAllCons<T>(h: Hunk<T>, rest: seq<Hunk<T>>)
    ensures ReadAll([h] + rest) == [Read(h)] + ReadAll(rest)
  {
    assert ([h] + rest)[1..] == rest;
  }

  lemma ReadAllHead<T>(hs: seq<Hunk<T>>)
    requires hs != []
    ensures ReadAll(hs) == [Read(hs[0])] + ReadAll(hs[1..]) && hs[0] in hs
  {}

  function BodyLine(op: Op<string>): string {
    match op
    case Keep(x) => " " + x
    case Drop(x) => "-" + x
    case Insert(x) => "+" + x
  }

  function BodyLines(ops: seq<Op<string>>): seq<string> {
    if ops == [] then [] else [BodyLine(ops[0])] + BodyLines(ops[1..])
  }

  function Range(start: nat, count: nat): string {
    Show(start) + "," + Show(count)
  }

  function HeaderLine(h: Hunk<string>): string {
    "@@ -" + Range(h.oldStart, |Old(h.ops)|) + " +" + Range(h.newStart, |New(h.ops)|) + " @@"
  }

  function Print(hs: seq<Hunk<string>>): seq<string> {
    if hs == [] then [] else [HeaderLine(hs[0])] + BodyLines(hs[0].ops) + Print(hs[1..])
  }

  predicate Printable(h: Hunk<string>) {
    && h.oldStart < USIZE_LIMIT && h.newStart < USIZE_LIMIT
    && |Old(h.ops)| < USIZE_LIMIT && |New(h.ops)| < USIZE_LIMIT
  }

  lemma RangeReadsBack(start: nat, count: nat)
    requires start < USIZE_LIMIT && count < USIZE_LIMIT
    ensures ParseRange(Range(start, count)) == Some((start, count))
    ensures forall c :: c in Range(start, count) ==> !IsWhite(c)
  {
    var parts := [Show(start), Show(count)];
    assert Join([Show(count)], ',') == Show(count);
    assert parts[1..] == [Show(count)];
    assert Join(parts, ',') == Range(start, count);
    SplitJoin(parts, ',');
    ParseShow(start);
    ParseShow(count);
  }

  lemma {:induction false} WordEnds(w: string, t: string)
    requires (forall c :: c in w ==> !IsWhite(c)) && (t == "" || IsWhite(t[0]))
    ensures WordLength(w + t) == |w|
  {
    if w == "" {
      assert w + t == t;
    } else {
      assert (w + t)[1..] == w[1..] + t && (w + t)[0] == w[0] && w[0] in w;
      WordEnds(w[1..], t);
    }
  }

  lemma FirstWord(w: string, t: string)
    requires w != "" && (forall c :: c in w ==> !IsWhite(c)) && (t == "" || IsWhite(t[0]))
    ensures Words(w + t) == [w] + Words(t)
  {
    WordEnds(w, t);
    assert (w + t)[0] == w[0] && w[0] in w;
    assert (w + t)[..|w|] == w && (w + t)[|w|..] == t;
  }

  lemma TwoWords(w1: string, w2: string)
    requires w1 != "" && w2 != "" && (forall c :: c in w1 ==> !IsWhite(c)) && (forall c :: c in w2 ==> !IsWhite(c))
    ensures Words(" " + (w1 + (" " + (w2 + " @@")))) == [w1] + ([w2] + Words(" @@"))
  {
    var t2 := " " + (w2 + " @@");
    var t1 := " " + (w1 + t2);
    FirstWord(w2, " @@");
    assert t2[1..] == w2 + " @@";
    FirstWord(w1, t2);
    assert t1[1..] == w1 + t2;
  }

  lemma HeaderShape(from: string, to: string)
    ensures "@@ -" + from + " +" + to + " @@" == "@@" + (" " + (("-" + from) + (" " + (("+" + to) + " @@"))))
  {}

  /** The header of a printed hunk reads back. */
  lemma HeaderReadsBack(h: Hunk<string>)
    requires Printable(h)
    ensures StartsWith(HeaderLine(h), "@@")
    ensures ParseHeader(HeaderLine(h)[2..]) == Some(Header(h.oldStart, |Old(h.ops)|, |New(h.ops)|))
  {
    var from, to := Range(h.oldStart, |Old(h.ops)|), Range(h.newStart, |New(h.ops)|);
    RangeReadsBack(h.oldStart, |Old(h.ops)|);
    RangeReadsBack(h.newStart, |New(h.ops)|);
    HeaderShape(from, to);
    var w1, w2 := "-" + from, "+" + to;
    var rest := " " + (w1 + (" " + (w2 + " @@")));
    HeaderSuffix(HeaderLine(h), rest);
    TwoWords(w1, w2);
    RangeOfWord(w1, from);
    RangeOfWord(w2, to);
  }

  lemma HeaderSuffix(line: string, rest: string)
    requires line == "@@" + rest
    ensures StartsWith(line, "@@") && line[2..] == rest
  {}

  lemma RangeOfWord(w: string, r: string)
    requires w == "-" + r || w == "+" + r
    ensures w[1..] == r && (w == "-" + r ==> StartsWith(w, "-")) && (w == "+" + r ==> StartsWith(w, "+"))
  {}

  lemma LineReadsBack(op: Op<string>)
    ensures ReadBody(BodyLine(op)) == Line(op)
  {
    assert BodyLine(op)[1..] == op.line;
  }

  /** Reading one line in front of a body that reads back. */
  lemma OneLine(op: Op<string>, ops: seq<Op<string>>, lines: seq<string>, more: seq<string>, tail: seq<string>)
    requires lines != [] && ReadBody(lines[0]) == Line(op) && lines[1..] == more
    requires ParseBody(|Old(ops)|, |New(ops)|, more) == Some((ops, tail))
    ensures ParseBody(|OldOf(op)| + |Old(ops)|, |NewOf(op)| + |New(ops)|, lines) == Some(([op] + ops, tail))
  {}

  /** A printed body is read up to exactly its own end. */
  lemma {:induction false} BodyReadsBack(ops: seq<Op<string>>, tail: seq<string>)
    ensures ParseBody(|Old(ops)|, |New(ops)|, BodyLines(ops) + tail) == Some((ops, tail))
  {
    if ops == [] {
      assert BodyLines(ops) + tail == tail;
    } else {
      BodyReadsBack(ops[1..], tail);
      LineReadsBack(ops[0]);
      HeadTail(BodyLine(ops[0]), BodyLines(ops[1..]), tail);
      OneLine(ops[0], ops[1..], BodyLines(ops) + tail, BodyLines(ops[1..]) + tail, tail);
      assert [ops[0]] + ops[1..] == ops;
    }
  }

  lemma HunkReadsBack(h: Hunk<string>, tail: seq<string>)
    requires Printable(h)
    ensures ParseDiff([HeaderLine(h)] + BodyLines(h.ops) + tail) == AndThen(Read(h), ParseDiff(tail))
  {
    HeaderReadsBack(h);
    BodyReadsBack(h.ops, tail);
    HeadTail(HeaderLine(h), BodyLines(h.ops), tail);
  }

  lemma HeadTail<T>(x: T, xs: seq<T>, ys: seq<T>)
    ensures ([x] + xs + ys)[0] == x && ([x] + xs + ys)[1..] == xs + ys
  {}

  lemma {:induction false} DiffReadsBack(hs: seq<Hunk<string>>)
    requires forall h :: h in hs ==> Printable(h)
    ensures ParseDiff(Print(hs)) == Some(ReadAll(hs))
  {
    if hs == [] {
    } else {
      DiffReadsBack(hs[1..]);
      assert hs[0] in hs;
      HunkReadsBack(hs[0], Print(hs[1..]));
    }
  }

  // ---- markers ----

  /** `\\ No newline at end of file`. */
  predicate IsMarker(line: string) {
    line != "" && line[0] == '\\'
  }

  function Unmarked(lines: seq<string>): seq<string> {
    if lines == [] then []
    else if IsMarker(lines[0]) then Unmarked(lines[1..])
    else [lines[0]] + Unmarked(lines[1..])
  }

  /** The last line is not a marker. */
  predicate EndsUnmarked(lines: seq<string>) {
    lines == [] || !IsMarker(lines[|lines| - 1])
  }

  lemma {:induction false} UnmarkedAppend(lines: seq<string>, m: string)
    ensures Unmarked(lines + [m]) == Unmarked(lines) + if IsMarker(m) then [] else [m]
  {
    if lines == [] {
      assert [m][1..] == [] && lines + [m] == [m];
    } else {
      UnmarkedAppend(lines[1..], m);
      TailOfConcat(lines, [m]);
      if !IsMarker(lines[0]) && !IsMarker(m) { Associative([lines[0]], Unmarked(lines[1..]), [m]); }
    }
  }

  lemma SomethingDue(ops: seq<Op<string>>)
    requires ops != []
    ensures |Old(ops)| > 0 || |New(ops)| > 0
  {
    assert |OldOf(ops[0])| + |NewOf(ops[0])| > 0;
  }

  /** A printed body is read back through any markers between its lines. */
  lemma {:induction false} MarkedBodyReadsBack(ops: seq<Op<string>>, lines: seq<string>, tail: seq<string>)
    requires Unmarked(lines) == BodyLines(ops) && EndsUnmarked(lines)
    ensures ParseBody(|Old(ops)|, |New(ops)|, lines + tail) == Some((ops, tail))
    decreases |lines|
  {
    if lines == [] {
      assert ops == [] && lines + tail == tail;
    } else {
      TailOfConcat(lines, tail);
      assert lines[1..] == [] || lines[1..][|lines| - 2] == lines[|lines| - 1];
      if IsMarker(lines[0]) {
        MarkedBodyReadsBack(ops, lines[1..], tail);
        LastCounts(lines);
        SomethingDue(ops);
        MarkerSkips(|Old(ops)|, |New(ops)|, lines + tail);
      } else {
        assert ops != [] && lines[0] == BodyLine(ops[0]) && Unmarked(lines[1..]) == BodyLines(ops[1..]) by {
          assert ([lines[0]] + Unmarked(lines[1..]))[1..] == Unmarked(lines[1..]);
          assert ([BodyLine(ops[0])] + BodyLines(ops[1..]))[1..] == BodyLines(ops[1..]);
        }
        MarkedBodyReadsBack(ops[1..], lines[1..], tail);
        LineReadsBack(ops[0]);
        OneLine(ops[0], ops[1..], lines + tail, lines[1..] + tail, tail);
        assert [ops[0]] + ops[1..] == ops;
      }
    }
  }

  lemma MarkerSkips(oldDue: nat, newDue: nat, lines: seq<string>)
    requires lines != [] && IsMarker(lines[0]) && (oldDue > 0 || newDue > 0)
    ensures ParseBody(oldDue, newDue, lines) == ParseBody(oldDue, newDue, lines[1..])
  {}

  /** Lines that do not end in a marker count something. */
  lemma LastCounts(lines: seq<string>)
    requires lines != [] && EndsUnmarked(lines)
    ensures Unmarked(lines) != []
  {
    var init, last := lines[..|lines| - 1], lines[|lines| - 1];
    assert lines == init + [last];
    UnmarkedAppend(init, last);
  }

  /** The lines of a body up to its last counted one, and the markers behind it. */
  lemma {:induction false} BodyEnd(lines: seq<string>) returns (end: nat)
    ensures end <= |lines| && EndsUnmarked(lines[..end]) && Unmarked(lines[..end]) == Unmarked(lines)
    ensures end < |lines| ==> IsMarker(lines[end])
    ensures end == |lines| <==> EndsUnmarked(lines)
  {
    if EndsUnmarked(lines) {
      end := |lines|;
      assert lines[..end] == lines;
    } else {
      var init, last := lines[..|lines| - 1], lines[|lines| - 1];
      assert lines == init + [last];
      UnmarkedAppend(init, last);
      end := BodyEnd(init);
      assert init[..end] == lines[..end];
    }
  }

  /**
   EXACT: a printed hunk with markers between its lines is read back, whatever follows it, unless a marker stands
   behind its last counted line; then the whole diff is rejected.
   */
  lemma MarkersExact(h: Hunk<string>, body: seq<string>, tail: seq<string>)
    requires Printable(h) && Unmarked(body) == BodyLines(h.ops)
    ensures ParseDiff([HeaderLine(h)] + body + tail) ==
      if EndsUnmarked(body) then AndThen(Read(h), ParseDiff(tail)) else None
  {
    var end := BodyEnd(body);
    var front, rest := body[..end], body[end..] + tail;
    MarkedBodyReadsBack(h.ops, front, rest);
    assert front + rest == body + tail by {
      Associative(front, body[end..], tail);
      assert front + body[end..] == body;
    }
    HeaderReadsBack(h);
    HeadTail(HeaderLine(h), body, tail);
    if end == |body| {
      assert rest == tail;
    } else {
      assert rest[0] == body[end];
      StrayMarker(rest);
    }
  }

  lemma StrayMarker(lines: seq<string>)
    requires lines != [] && IsMarker(lines[0])
    ensures ParseDiff(lines).None?
  {}

  // ---- diffs as text ----

  function Terminated(lines: seq<string>): string {
    if lines == [] then "" else lines[0] + "\n" + Terminated(lines[1..])
  }

  function PrintText(hs: seq<Hunk<string>>): string {
    Terminated(Print(hs))
  }

  lemma {:induction false} TerminatedSplits(lines: seq<string>)
    requires forall x :: x in lines ==> '\n' !in x
    ensures Split(Terminated(lines), '\n') == lines + [""]
  {
    if lines == [] {
    } else {
      TerminatedSplits(lines[1..]);
      var t := "\n" + Terminated(lines[1..]);
      assert lines[0] + "\n" + Terminated(lines[1..]) == lines[0] + t;
      assert t[1..] == Terminated(lines[1..]);
      assert Split(t, '\n') == [""] + (lines[1..] + [""]);
      SplitPiece(lines[0], t, '\n');
      assert lines[0] + "" == lines[0];
      assert [lines[0]] + (lines[1..] + [""]) == lines + [""];
    }
  }

  /** Reading a text into lines drops one trailing CR of each. */
  function StripLines(lines: seq<string>): (r: seq<string>)
    ensures |r| == |lines|
  {
    if lines == [] then [] else [StripCr(lines[0])] + StripLines(lines[1..])
  }

  lemma {:induction false} StripLinesAt(lines: seq<string>, i: nat)
    requires i < |lines|
    ensures StripLines(lines)[i] == StripCr(lines[i])
  {
    if i == 0 {
    } else {
      StripLinesAt(lines[1..], i - 1);
    }
  }

  lemma TextReadsBack(lines: seq<string>)
    requires forall x :: x in lines ==> '\n' !in x
    ensures Lines(Terminated(lines)) == StripLines(lines)
  {
    TerminatedSplits(lines);
    var ps := Split(Terminated(lines), '\n');
    assert ps[|ps| - 1] == "";
    var kept := seq(|ps| - 1, i requires 0 <= i < |ps| - 1 => StripCr(ps[i]));
    forall i | 0 <= i < |lines| ensures kept[i] == StripLines(lines)[i] {
      StripLinesAt(lines, i);
      assert (lines + [""])[i] == lines[i];
    }
    assert kept == StripLines(lines);
  }

  function StripOp(op: Op<string>): Op<string> {
    match op
    case Keep(x) => Keep(StripCr(x))
    case Drop(x) => Drop(StripCr(x))
    case Insert(x) => Insert(StripCr(x))
  }

  function StripOps(ops: seq<Op<string>>): (r: seq<Op<string>>)
    ensures |Old(r)| == |Old(ops)| && |New(r)| == |New(ops)|
  {
    if ops == [] then [] else [StripOp(ops[0])] + StripOps(ops[1..])
  }

  /** What is left of a hunk when it is printed as text and read again. */
  function StripHunk(h: Hunk<string>): Hunk<string> {
    Hunk(h.oldStart, h.newStart, StripOps(h.ops))
  }

  function StripAll(hs: seq<Hunk<string>>): (r: seq<Hunk<string>>)
    ensures |r| == |hs|
  {
    if hs == [] then [] else [StripHunk(hs[0])] + StripAll(hs[1..])
  }

  /** A hunk that can be printed as text: numbers within bounds, one line per operation. */
  predicate TextHunk(h: Hunk<string>) {
    Printable(h) && forall op :: op in h.ops ==> '\n' !in op.line
  }

  lemma BodyLineStrips(op: Op<string>)
    ensures StripCr(BodyLine(op)) == BodyLine(StripOp(op))
    ensures '\n' !in op.line ==> '\n' !in BodyLine(op)
  {
    var x := BodyLine(op);
    assert x[1..] == op.line && forall c :: c in x ==> c == x[0] || c in x[1..];
    if op.line == "" { assert |x| == 1; } else { assert x[..|x| - 1] == [x[0]] + op.line[..|op.line| - 1]; }
  }

  lemma {:induction false} BodyLinesStrip(ops: seq<Op<string>>)
    ensures StripLines(BodyLines(ops)) == BodyLines(StripOps(ops))
    ensures (forall op :: op in ops ==> '\n' !in op.line) ==> forall x :: x in BodyLines(ops) ==> '\n' !in x
  {
    if ops == [] {
    } else {
      BodyLinesStrip(ops[1..]);
      BodyLineStrips(ops[0]);
      assert BodyLines(ops)[1..] == BodyLines(ops[1..]) && ops[0] in ops;
    }
  }

  lemma HeaderLineStrips(h: Hunk<string>)
    requires Printable(h)
    ensures StripCr(HeaderLine(h)) == HeaderLine(StripHunk(h)) == HeaderLine(h) && '\n' !in HeaderLine(h)
  {
    RangeReadsBack(h.oldStart, |Old(h.ops)|);
    RangeReadsBack(h.newStart, |New(h.ops)|);
    EndsInAt("@@ -" + Range(h.oldStart, |Old(h.ops)|) + " +" + Range(h.newStart, |New(h.ops)|));
  }

  lemma EndsInAt(front: string)
    ensures StripCr(front + " @@") == front + " @@"
  {
    assert (front + " @@")[|front| + 2] == '@';
  }

  lemma {:induction false} StripLinesConcat(a: seq<string>, b: seq<string>)
    ensures StripLines(a + b) == StripLines(a) + StripLines(b)
  {
    if a == [] {
      assert a + b == b;
    } else {
      StripLinesConcat(a[1..], b);
      TailOfConcat(a, b);
      Associative([StripCr(a[0])], StripLines(a[1..]), StripLines(b));
    }
  }

  lemma {:induction false} PrintStrips(hs: seq<Hunk<string>>)
    requires forall h :: h in hs ==> TextHunk(h)
    ensures StripLines(Print(hs)) == Print(StripAll(hs))
    ensures forall x :: x in Print(hs) ==> '\n' !in x
  {
    if hs == [] {
    } else {
      assert hs[0] in hs;
      PrintStrips(hs[1..]);
      HeaderLineStrips(hs[0]);
      BodyLinesStrip(hs[0].ops);
      StripLinesConcat([HeaderLine(hs[0])] + BodyLines(hs[0].ops), Print(hs[1..]));
      StripLinesConcat([HeaderLine(hs[0])], BodyLines(hs[0].ops));
      assert StripLines([HeaderLine(hs[0])]) == [HeaderLine(hs[0])];
    }
  }

  lemma {:induction false} StripKeepsPrintable(hs: seq<Hunk<string>>)
    requires forall h :: h in hs ==> Printable(h)
    ensures forall h :: h in StripAll(hs) ==> Printable(h)
  {
    if hs == [] {
    } else {
      assert hs[0] in hs;
      StripKeepsPrintable(hs[1..]);
    }
  }

  /** Hunks printed as text are read back with one trailing CR dropped from every line. */
  lemma PrintedTextReadsBack(hs: seq<Hunk<string>>)
    requires forall h :: h in hs ==> TextHunk(h)
    ensures ParseDiff(Lines(PrintText(hs))) == Some(ReadAll(StripAll(hs)))
  {
    PrintStrips(hs);
    TextReadsBack(Print(hs));
    StripKeepsPrintable(hs);
    DiffReadsBack(StripAll(hs));
  }

  /** What a diff printed as text does to a text, as a replay. */
  lemma AppliedText(text: string, hs: seq<Hunk<string>>)
    requires forall h :: h in hs ==> TextHunk(h)
    ensures var r := Replay(SplitLines(text), 0, ReadAll(StripAll(hs)));
      && Outcome(SplitLines(text), 0, Lines(PrintText(hs))) == r
      && ApplyText(text, PrintText(hs)) == if r.None? then None else Some(Render(r.value, EndsInNewline(text)))
  {
    PrintedTextReadsBack(hs);
  }

  predicate EndsInCr(line: string) {
    line != "" && line[|line| - 1] == '\r'
  }

  ghost predicate NoCr(hs: seq<Hunk<string>>) {
    forall h, op :: h in hs && op in h.ops ==> !EndsInCr(op.line)
  }

  lemma {:induction false} StripOpsKeep(ops: seq<Op<string>>)
    requires forall op :: op in ops ==> !EndsInCr(op.line)
    ensures StripOps(ops) == ops
  {
    if ops == [] {
    } else {
      assert ops[0] in ops;
      StripOpsKeep(ops[1..]);
    }
  }

  lemma {:induction false} StripKeeps(hs: seq<Hunk<string>>)
    requires NoCr(hs)
    ensures StripAll(hs) == hs
  {
    if hs == [] {
    } else {
      assert hs[0] in hs;
      StripOpsKeep(hs[0].ops);
      StripKeeps(hs[1..]);
    }
  }

  // ---- counts that overshoot ----

  /** A header that announces one old line, and two context lines. */
  const OVERSHOOT := Terminated(["@@ -1,1 +1,2 @@"] + [" a", " b"])

  /** One count can overshoot while the other is awaited: two old lines are consumed under a header that says one. */
  lemma CountsCanOvershoot()
    ensures ParseDiff(Lines(OVERSHOOT)) == Some([Parsed(Header(1, 1, 2), [Keep("a"), Keep("b")])])
    ensures |Old([Keep("a"), Keep("b")])| == 2
    ensures ApplyText("a\nb\n", OVERSHOOT) == Some("a\nb\n")
  {
    var h := Hunk(1, 1, [Keep("a"), Insert("b")]);
    OvershootLines();
    OvershootBody();
    HeaderReadsBack(h);
    OvershootParses(HeaderLine(h));
    OvershootReplays();
  }

  lemma OvershootParses(line: string)
    requires StartsWith(line, "@@") && ParseHeader(line[2..]) == Some(Header(1, 1, 2))
    ensures ParseDiff([line] + [" a", " b"]) == Some([Parsed(Header(1, 1, 2), [Keep("a"), Keep("b")])])
  {
    OvershootBody();
    var lines := [line] + [" a", " b"];
    assert lines[0] == line && lines[1..] == [" a", " b"];
    var first := Parsed(Header(1, 1, 2), [Keep("a"), Keep("b")]);
    assert ParseDiff([]) == Some([]) && [first] + [] == [first];
    assert ParseDiff(lines) == AndThen(first, ParseDiff([]));
  }

  lemma OvershootBody()
    ensures ParseBody(1, 2, [" a", " b"]) == Some(([Keep("a"), Keep("b")], []))
    ensures Old([Keep("a"), Keep("b")]) == ["a", "b"] == New([Keep("a"), Keep("b")])
    ensures Old([Keep("a"), Insert("b")]) == ["a"] && New([Keep("a"), Insert("b")]) == ["a", "b"]
  {
    LineReadsBack(Keep("a"));
    LineReadsBack(Keep("b"));
    assert [" a", " b"][1..] == [" b"] && [" b"][1..] == [];
    assert [Keep("b")] + [] == [Keep("b")] && [Keep("a")] + [Keep("b")] == [Keep("a"), Keep("b")];
    assert ParseBody(0, 1, [" b"]) == Some(([Keep("b")], []));
    assert [Keep("a"), Keep("b")][1..] == [Keep("b")] && [Keep("a"), Insert("b")][1..] == [Insert("b")];
    assert Old([Keep("b")]) == ["b"] == New([Keep("b")]) && Old([Insert("b")]) == [] && New([Insert("b")]) == ["b"];
  }

  lemma OvershootLines()
    ensures Lines(OVERSHOOT) == [HeaderLine(Hunk(1, 1, [Keep("a"), Insert("b")]))] + [" a", " b"]
  {
    OvershootHeader();
    var lines := ["@@ -1,1 +1,2 @@"] + [" a", " b"];
    TextReadsBack(lines);
    assert lines[1..] == [" a", " b"] && [" a", " b"][1..] == [" b"] && [" b"][1..] == [];
    EndsInAt("@@ -1,1 +1,2");
  }

  lemma OvershootHeader()
    ensures HeaderLine(Hunk(1, 1, [Keep("a"), Insert("b")])) == "@@ -1,1 +1,2 @@"
  {
    OvershootBody();
    assert Show(1) == "1" && Show(2) == "2";
  }

  lemma OvershootReplays()
    ensures SplitLines("a\nb\n") == ["a", "b"] && EndsInNewline("a\nb\n")
    ensures Replay(["a", "b"], 0, [Parsed(Header(1, 1, 2), [Keep("a"), Keep("b")])]) == Some(["a", "b"])
    ensures Render(["a", "b"], true) == "a\nb\n"
  {
    OvershootBody();
    assert Join(["a", "b"], '\n') == "a\nb" by { assert ["a", "b"][1..] == ["b"]; }
    SplitJoin(["a", "b"], '\n');
    assert "a\nb\n"[..3] == "a\nb";
    WholeReplaced(["a", "b"], Parsed(Header(1, 1, 2), [Keep("a"), Keep("b")]));
  }

  /** A hunk that starts at the first line and consumes all of them. */
  lemma WholeReplaced<T>(orig: seq<T>, h: Parsed<T>)
    requires h.head.oldStart == 1 && Old(h.ops) == orig
    ensures Replay(orig, 0, [h]) == Some(New(h.ops))
  {
    assert [h] + [] == [h];
    ReplayCons(orig, 0, h, []);
    assert orig[0..|orig|] == orig && orig[0..0] + New(h.ops) + orig[|orig|..] == New(h.ops);
  }
}
