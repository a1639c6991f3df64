/**
 The fail-closed unified-diff applier (`patchapply.rs`).

 The code walks diff lines and original lines together.  The reference here has two phases instead:
 `ParseDiff` reads the diff without looking at the original, `Replay` edits the original without
 looking at the text of the diff.  The methods are proved to compute exactly their composition.
 */
module PatchApply {
  import opened Wrappers
  import opened Text
  import opened Decimal
  import opened Sequences

  /** One affecting line of a hunk body. */
  datatype Op<T> = Keep(line: T) | Drop(line: T) | Insert(line: T)

  function OldOf<T>(op: Op<T>): seq<T> {
    if op.Insert? then [] else [op.line]
  }

  function NewOf<T>(op: Op<T>): seq<T> {
    if op.Drop? then [] else [op.line]
  }

  /** The lines a body consumes and the lines it produces. */
  function Old<T>(ops: seq<Op<T>>): seq<T> {
    if ops == [] then [] else OldOf(ops[0]) + Old(ops[1..])
  }

  function New<T>(ops: seq<Op<T>>): seq<T> {
    if ops == [] then [] else NewOf(ops[0]) + New(ops[1..])
  }

  function Drops<T>(ops: seq<Op<T>>): nat {
    if ops == [] then 0 else (if ops[0].Drop? then 1 else 0) + Drops(ops[1..])
  }

  function Inserts<T>(ops: seq<Op<T>>): nat {
    if ops == [] then 0 else (if ops[0].Insert? then 1 else 0) + Inserts(ops[1..])
  }

  lemma {:induction false} OldConcat<T>(a: seq<Op<T>>, b: seq<Op<T>>)
    ensures Old(a + b) == Old(a) + Old(b)
  {
    if a == [] {
      assert a + b == b;
    } else {
      OldConcat(a[1..], b);
      assert (a + b)[1..] == a[1..] + b;
      Associative(OldOf(a[0]), Old(a[1..]), Old(b));
    }
  }

  lemma {:induction false} NewConcat<T>(a: seq<Op<T>>, b: seq<Op<T>>)
    ensures New(a + b) == New(a) + New(b)
  {
    if a == [] {
      assert a + b == b;
    } else {
      NewConcat(a[1..], b);
      assert (a + b)[1..] == a[1..] + b;
      Associative(NewOf(a[0]), New(a[1..]), New(b));
    }
  }

  lemma OpsAppend<T>(a: seq<Op<T>>, op: Op<T>)
    ensures Old(a + [op]) == Old(a) + OldOf(op)
    ensures New(a + [op]) == New(a) + NewOf(op)
  {
    OldConcat(a, [op]);
    NewConcat(a, [op]);
  }

  lemma {:induction false} CountsConcat<T>(a: seq<Op<T>>, b: seq<Op<T>>)
    ensures Drops(a + b) == Drops(a) + Drops(b) && Inserts(a + b) == Inserts(a) + Inserts(b)
  {
    if a == [] {
      assert a + b == b;
    } else {
      CountsConcat(a[1..], b);
      assert (a + b)[1..] == a[1..] + b;
    }
  }

  lemma {:induction false} OpsBalance<T>(ops: seq<Op<T>>)
    ensures |New(ops)| == |Old(ops)| - Drops(ops) + Inserts(ops)
  {
    if ops == [] {
    } else {
      OpsBalance(ops[1..]);
    }
  }

  // ---- reading a diff ----

  /** `split_lines`: no trailing empty line, carriage returns kept. */
  function SplitLines(s: string): seq<string> {
    if s == "" then [] else Split(if EndsInNewline(s) then s[..|s| - 1] else s, '\n')
  }

  predicate EndsInNewline(s: string) {
    s != "" && s[|s| - 1] == '\n'
  }

  /** The property White_Space of the Unicode Character Database. */
  predicate IsWhite(c: char) {
    || '\t' <= c <= '\r' || c == ' ' || c == '\U{0085}' || c == '\U{00A0}' || c == '\U{1680}'
    || '\U{2000}' <= c <= '\U{200A}' || c == '\U{2028}' || c == '\U{2029}' || c == '\U{202F}'
    || c == '\U{205F}' || c == '\U{3000}'
  }

  function WordLength(s: string): (n: nat)
    ensures n <= |s| && (forall i :: 0 <= i < n ==> !IsWhite(s[i])) && (n < |s| ==> IsWhite(s[n]))
  {
    if s == "" || IsWhite(s[0]) then 0 else 1 + WordLength(s[1..])
  }

  /** `split_whitespace`. */
  function Words(s: string): seq<string>
    decreases |s|
  {
    if s == "" then []
    else if IsWhite(s[0]) then Words(s[1..])
    else [s[..WordLength(s)]] + Words(s[WordLength(s)..])
  }

  predicate StartsWith(s: string, p: string) {
    |p| <= |s| && s[..|p|] == p
  }

  /** `parse_range`: `start` or `start,count`; anything after a second comma is ignored. */
  function ParseRange(s: string): Option<(nat, nat)> {
    var parts := Split(s, ',');
    var start := ParseUsize(parts[0]);
    var count := if |parts| > 1 then ParseUsize(parts[1]) else Some(1);
    if start.Some? && count.Some? then Some((start.value, count.value)) else None
  }

  datatype Header = Header(oldStart: nat, oldCount: nat, newCount: nat)

  /** `parse_hunk_header`, given what follows the leading `@@`. */
  function ParseHeader(rest: string): Option<Header> {
    var ws := Words(rest);
    if |ws| < 2 || !StartsWith(ws[0], "-") || !StartsWith(ws[1], "+") then None
    else
      var from, to := ParseRange(ws[0][1..]), ParseRange(ws[1][1..]);
      if from.Some? && to.Some? then Some(Header(from.value.0, from.value.1, to.value.1)) else None
  }

  predicate IsFileHeader(line: string) {
    StartsWith(line, "--- ") || StartsWith(line, "+++ ") || StartsWith(line, "diff ") || StartsWith(line, "index ")
  }

  datatype Body = Line(op: Op<string>) | Marker | Bad

  /** One line inside a hunk; a bare empty line is an empty context line. */
  function ReadBody(line: string): Body {
    if line == "" then Line(Keep(""))
    else if line[0] == ' ' then Line(Keep(line[1..]))
    else if line[0] == '-' then Line(Drop(line[1..]))
    else if line[0] == '+' then Line(Insert(line[1..]))
    else if line[0] == '\\' then Marker
    else Bad
  }

  /** Body lines until both counts are met; the counts may go below zero. */
  function ParseBody(oldDue: int, newDue: int, lines: seq<string>): (r: Option<(seq<Op<string>>, seq<string>)>)
    ensures r.Some? ==> |r.value.1| <= |lines|
    decreases |lines|
  {
    if oldDue <= 0 && newDue <= 0 then Some(([], lines))
    else if lines == [] then None
    else
      match ReadBody(lines[0])
      case Bad => None
      case Marker => ParseBody(oldDue, newDue, lines[1..])
      case Line(op) =>
        var r := ParseBody(oldDue - |OldOf(op)|, newDue - |NewOf(op)|, lines[1..]);
        if r.Some? then Some(([op] + r.value.0, r.value.1)) else None
  }

  datatype Parsed<T> = Parsed(head: Header, ops: seq<Op<T>>)

  function AndThen<T>(first: Parsed<T>, rest: Option<seq<Parsed<T>>>): Option<seq<Parsed<T>>> {
    if rest.None? then None else Some([first] + rest.value)
  }

  function ParseDiff(lines: seq<string>): Option<seq<Parsed<string>>>
    decreases |lines|
  {
    if lines == [] then Some([])
    else if StartsWith(lines[0], "@@") then
      var h := ParseHeader(lines[0][2..]);
      if h.None? then None else
        var b := ParseBody(h.value.oldCount, h.value.newCount, lines[1..]);
        if b.None? then None else
          AndThen(Parsed(h.value, b.value.0), ParseDiff(b.value.1))
    else if IsFileHeader(lines[0]) || lines[0] == "" then ParseDiff(lines[1..])
    else None
  }

  // ---- editing the original ----

  /** The 0-based line the code places a hunk before. */
  function Target(h: Header): nat {
    if h.oldStart == 0 then 0 else h.oldStart - 1
  }

  predicate Matches<T(==)>(orig: seq<T>, at: nat, block: seq<T>) {
    at + |block| <= |orig| && orig[at..at + |block|] == block
  }

  /** Whether one hunk can be applied with everything before `cursor` already consumed. */
  predicate Applies<T(==)>(orig: seq<T>, cursor: nat, h: Parsed<T>) {
    && !(h.head.oldStart == 0 && h.head.oldCount > 0)
    && cursor <= Target(h.head) <= |orig|
    && Matches(orig, Target(h.head), Old(h.ops))
  }

  function Replay<T(==)>(orig: seq<T>, cursor: nat, hs: seq<Parsed<T>>): Option<seq<T>>
    requires cursor <= |orig|
    decreases |hs|
  {
    if hs == [] then Some(orig[cursor..])
    else if !Applies(orig, cursor, hs[0]) then None
    else
      var at := Target(hs[0].head);
      var rest := Replay(orig, at + |Old(hs[0].ops)|, hs[1..]);
      if rest.None? then None else Some(orig[cursor..at] + New(hs[0].ops) + rest.value)
  }

  /** Both phases. */
  function Outcome(orig: seq<string>, cursor: nat, lines: seq<string>): Option<seq<string>>
    requires cursor <= |orig|
  {
    var hs := ParseDiff(lines);
    if hs.None? then None else Replay(orig, cursor, hs.value)
  }

  /** Joining the lines and giving back the trailing newline, unless the text is empty. */
  function Render(out: seq<string>, newline: bool): string {
    var text := Join(out, '\n');
    if newline && text != "" then text + "\n" else text
  }

  function ApplyText(original: string, diff: string): Option<string> {
    var out := Outcome(SplitLines(original), 0, Lines(diff));
    if out.None? then None else Some(Render(out.value, EndsInNewline(original)))
  }

  // ---- the code ----

  /** A body can be read from `lines` and its old side is what stands at `at`. */
  predicate BodyFits(h: Header, orig: seq<string>, at: nat, lines: seq<string>) {
    var b := ParseBody(h.oldCount, h.newCount, lines);
    b.Some? && Matches(orig, at, Old(b.value.0))
  }

  datatype Malformed =
    | MissingOldRange | MissingNewRange | BadRange | OldStartZero | PastEnd | OutOfOrder
    | Unexpected | Truncated | BadBodyLine | Mismatch

  function HeaderError(rest: string): Malformed {
    var ws := Words(rest);
    if |ws| < 1 || !StartsWith(ws[0], "-") then MissingOldRange
    else if |ws| < 2 || !StartsWith(ws[1], "+") then MissingNewRange
    else BadRange
  }

  /** `apply_unified_diff`. */
  method ApplyUnifiedDiff(original: string, diff: string) returns (r: Result<string, Malformed>)
    ensures r.Ok? <==> ApplyText(original, diff).Some?
    ensures r.Ok? ==> ApplyText(original, diff) == Some(r.value)
  {
    var orig := SplitLines(original);
    var lines := Lines(diff);
    var out: seq<string> := [];
    var cursor, pos := 0, 0;
    ghost var whole := Outcome(orig, 0, lines);
    StartOfDiff(orig, lines);
    while pos < |lines|
      invariant 0 <= pos <= |lines| && 0 <= cursor <= |orig|
      invariant Reached(whole, orig, lines, pos, cursor, out)
    {
      var line := lines[pos];
      if StartsWith(line, "@@") {
        var fail: Option<Malformed>;
        fail, cursor, out, pos := OneHunk(whole, orig, cursor, out, lines, pos);
        if fail.Some? { return Err(fail.value); }
      } else if IsFileHeader(line) || line == "" {
        SkipStep(whole, orig, lines, pos, cursor, out);
        pos := pos + 1;
      } else {
        LineFails(whole, orig, lines, pos, cursor, out);
        return Err(Unexpected);
      }
    }
    EndOfDiff(whole, orig, lines, cursor, out);
    out, cursor := CopyUpTo(orig, cursor, |orig|, out);
    var result := Join(out, '\n');
    if EndsInNewline(original) && result != "" {
      result := result + "\n";
    }
    r := Ok(result);
  }

  /** The branch of the main loop for a line that starts with `@@`. */
  method OneHunk(ghost whole: Option<seq<string>>, orig: seq<string>, cursor0: nat, out0: seq<string>,
                 lines: seq<string>, pos0: nat)
    returns (fail: Option<Malformed>, cursor: nat, out: seq<string>, pos: nat)
    requires cursor0 <= |orig| && pos0 < |lines| && StartsWith(lines[pos0], "@@")
    requires Reached(whole, orig, lines, pos0, cursor0, out0)
    ensures cursor <= |orig| && pos0 < pos <= |lines|
    ensures if fail.Some? then whole.None? else Reached(whole, orig, lines, pos, cursor, out)
  {
    fail, cursor, out, pos := None, cursor0, out0, pos0 + 1;
    var header := ParseHeader(lines[pos0][2..]);
    if header.None? {
      LineFails(whole, orig, lines, pos0, cursor0, out0);
      return Some(HeaderError(lines[pos0][2..])), cursor, out, pos;
    }
    var h := header.value;
    HeaderRead(lines, pos0, h);
    var target := if h.oldStart == 0 then 0 else h.oldStart - 1;
    if (h.oldStart == 0 && h.oldCount > 0) || target > |orig| || target < cursor {
      HunkFails(whole, orig, lines, pos0, cursor0, out0, h);
      fail := Some(if h.oldStart == 0 && h.oldCount > 0 then OldStartZero
                   else if target > |orig| then PastEnd else OutOfOrder);
      return;
    }
    fail, cursor, out, pos := CopyAndApply(whole, h, orig, cursor0, out0, lines, pos0);
  }

  /** The rest of the branch, once the header fits. */
  method CopyAndApply(ghost whole: Option<seq<string>>, h: Header, orig: seq<string>, cursor0: nat, out0: seq<string>,
                      lines: seq<string>, pos0: nat)
    returns (fail: Option<Malformed>, cursor: nat, out: seq<string>, pos: nat)
    requires pos0 < |lines| && Headed(lines, pos0, h)
    requires !(h.oldStart == 0 && h.oldCount > 0) && cursor0 <= Target(h) <= |orig|
    requires Reached(whole, orig, lines, pos0, cursor0, out0)
    ensures cursor <= |orig| && pos0 < pos <= |lines|
    ensures if fail.Some? then whole.None? else Reached(whole, orig, lines, pos, cursor, out)
  {
    out, cursor := CopyUpTo(orig, cursor0, Target(h), out0);
    ghost var ops;
    fail, cursor, out, pos, ops := ApplyHunk(h, orig, cursor, out, lines, pos0 + 1);
    if fail.Some? {
      HunkFails(whole, orig, lines, pos0, cursor0, out0, h);
    } else {
      HunkStep(whole, orig, lines, pos0, cursor0, out0, h, ops, pos, cursor, out);
    }
  }

  /** The loops that push unchanged lines. */
  method CopyUpTo(orig: seq<string>, cursor0: nat, target: nat, out0: seq<string>)
    returns (out: seq<string>, cursor: nat)
    requires cursor0 <= target <= |orig|
    ensures cursor == target && out == out0 + orig[cursor0..target]
  {
    out, cursor := out0, cursor0;
    while cursor < target
      invariant cursor0 <= cursor <= target && out == out0 + orig[cursor0..cursor]
    {
      out := out + [orig[cursor]];
      cursor := cursor + 1;
    }
  }

  /** `apply_hunk`: moves the cursor, the output and the position in the diff. */
  method ApplyHunk(h: Header, orig: seq<string>, cursor0: nat, out0: seq<string>, lines: seq<string>, pos0: nat)
    returns (fail: Option<Malformed>, cursor: nat, out: seq<string>, pos: nat, ghost ops: seq<Op<string>>)
    requires cursor0 <= |orig| && pos0 <= |lines|
    ensures cursor <= |orig| && pos0 <= pos <= |lines|
    ensures fail.None? ==>
              && ParseBody(h.oldCount, h.newCount, lines[pos0..]) == Some((ops, lines[pos..]))
              && Matches(orig, cursor0, Old(ops)) && cursor == cursor0 + |Old(ops)| && out == out0 + New(ops)
    ensures fail.Some? ==> !BodyFits(h, orig, cursor0, lines[pos0..])
  {
    fail, cursor, out, pos, ops := None, cursor0, out0, pos0, [];
    var oldSeen, newSeen := 0, 0;
    StartOfBody(h, lines, pos0);
    while oldSeen < h.oldCount || newSeen < h.newCount
      invariant pos0 <= pos <= |lines| && oldSeen == |Old(ops)| && newSeen == |New(ops)|
      invariant cursor == cursor0 + |Old(ops)| <= |orig| && out == out0 + New(ops)
      invariant Matches(orig, cursor0, Old(ops))
      invariant InBody(h, lines, pos0, pos, ops)
      decreases |lines| - pos
    {
      if pos >= |lines| {
        BodyEnds(h, lines, pos0, pos, ops);
        return Some(Truncated), cursor, out, pos, ops;
      }
      BodyStep(h, lines, pos0, pos, ops);
      match ReadBody(lines[pos]) {
        case Line(op) =>
          var matched;
          matched, cursor, out := ApplyOp(op, orig, cursor0, out0, cursor, out, ops);
          if !matched {
            MismatchIsFinal(h, orig, cursor0, lines, pos0, pos + 1, ops, op);
            return Some(Mismatch), cursor, out, pos, ops;
          }
          OpsAppend(ops, op);
          oldSeen, newSeen := oldSeen + |OldOf(op)|, newSeen + |NewOf(op)|;
          ops := ops + [op];
        case Marker =>
        case Bad => return Some(BadBodyLine), cursor, out, pos, ops;
      }
      pos := pos + 1;
    }
    BodyEnds(h, lines, pos0, pos, ops);
  }

  /** The effect of one body line on the cursor and the output. */
  method ApplyOp(op: Op<string>, orig: seq<string>, cursor0: nat, out0: seq<string>, cursor: nat, out: seq<string>,
                 ghost ops: seq<Op<string>>)
    returns (matched: bool, cursor': nat, out': seq<string>)
    requires cursor == cursor0 + |Old(ops)| <= |orig| && out == out0 + New(ops) && Matches(orig, cursor0, Old(ops))
    ensures matched ==> && cursor' == cursor0 + |Old(ops + [op])| <= |orig| && out' == out0 + New(ops + [op])
                        && Matches(orig, cursor0, Old(ops + [op]))
    ensures !matched ==>
      && !op.Insert? && (cursor0 + |Old(ops)| >= |orig| || orig[cursor0 + |Old(ops)|] != op.line)
      && cursor' <= |orig|
  {
    matched, cursor', out' := true, cursor, out;
    OpsAppend(ops, op);
    if !op.Insert? {
      if cursor >= |orig| || orig[cursor] != op.line { return false, cursor, out; }
      MatchesOneMore(orig, cursor0, Old(ops), op.line);
      cursor' := cursor + 1;
    }
    Associative(out0, New(ops), NewOf(op));
    if !op.Drop? { out' := out + [op.line]; }
  }

  // ---- why the code computes both phases ----

  lemma Regroup<T>(a: seq<T>, b: seq<T>, c: seq<T>, d: seq<T>)
    ensures a + (b + c + d) == (a + b + c) + d
  {}

  lemma MatchesOneMore<T>(orig: seq<T>, at: nat, block: seq<T>, x: T)
    requires Matches(orig, at, block) && at + |block| < |orig| && orig[at + |block|] == x
    ensures Matches(orig, at, block + [x])
  {}

  lemma MatchesPrefix<T>(orig: seq<T>, at: nat, block: seq<T>, more: seq<T>)
    requires Matches(orig, at, block + more)
    ensures Matches(orig, at, block)
    ensures forall i :: 0 <= i < |block| ==> orig[at + i] == block[i]
  {
    var both := orig[at..at + |block + more|];
    assert orig[at..at + |block|] == both[..|block|];
    assert block == (block + more)[..|block|];
  }

  /** The rest of the body, given the operations read so far. */
  ghost predicate InBody(h: Header, lines: seq<string>, pos0: nat, pos: nat, ops: seq<Op<string>>)
    requires pos0 <= |lines| && pos <= |lines|
  {
    var rest := ParseBody(h.oldCount - |Old(ops)|, h.newCount - |New(ops)|, lines[pos..]);
    ParseBody(h.oldCount, h.newCount, lines[pos0..]) ==
    if rest.None? then None else Some((ops + rest.value.0, rest.value.1))
  }

  lemma StartOfBody(h: Header, lines: seq<string>, pos0: nat)
    requires pos0 <= |lines|
    ensures InBody(h, lines, pos0, pos0, [])
  {
    var b := ParseBody(h.oldCount, h.newCount, lines[pos0..]);
    if b.Some? { assert [] + b.value.0 == b.value.0; }
  }

  /** The body is complete, or it is cut short. */
  lemma BodyEnds(h: Header, lines: seq<string>, pos0: nat, pos: nat, ops: seq<Op<string>>)
    requires pos0 <= |lines| && pos <= |lines| && InBody(h, lines, pos0, pos, ops)
    requires pos == |lines| || (|Old(ops)| >= h.oldCount && |New(ops)| >= h.newCount)
    ensures ParseBody(h.oldCount, h.newCount, lines[pos0..]) ==
            if |Old(ops)| >= h.oldCount && |New(ops)| >= h.newCount then Some((ops, lines[pos..])) else None
  {
    assert ops + [] == ops;
  }

  lemma BodyStep(h: Header, lines: seq<string>, pos0: nat, pos: nat, ops: seq<Op<string>>)
    requires pos0 <= |lines| && pos < |lines| && InBody(h, lines, pos0, pos, ops)
    requires |Old(ops)| < h.oldCount || |New(ops)| < h.newCount
    ensures match ReadBody(lines[pos])
            case Line(op) => InBody(h, lines, pos0, pos + 1, ops + [op])
            case Marker => InBody(h, lines, pos0, pos + 1, ops)
            case Bad => ParseBody(h.oldCount, h.newCount, lines[pos0..]).None?
  {
    assert lines[pos..][1..] == lines[pos + 1..];
    if ReadBody(lines[pos]).Line? {
      var op := ReadBody(lines[pos]).op;
      OpsAppend(ops, op);
      var rest := ParseBody(h.oldCount - |Old(ops + [op])|, h.newCount - |New(ops + [op])|, lines[pos + 1..]);
      if rest.Some? { Associative(ops, [op], rest.value.0); }
    }
  }

  lemma MismatchIsFinal(h: Header, orig: seq<string>, at: nat, lines: seq<string>, pos0: nat, pos: nat,
                        ops: seq<Op<string>>, op: Op<string>)
    requires pos0 <= |lines| && pos <= |lines| && InBody(h, lines, pos0, pos, ops + [op])
    requires !op.Insert? && (at + |Old(ops)| >= |orig| || orig[at + |Old(ops)|] != op.line)
    ensures !BodyFits(h, orig, at, lines[pos0..])
  {
    var rest := ParseBody(h.oldCount - |Old(ops + [op])|, h.newCount - |New(ops + [op])|, lines[pos..]);
    if rest.Some? { NoMatch(orig, at, ops, op, rest.value.0); }
  }

  lemma NoMatch<T>(orig: seq<T>, at: nat, ops: seq<Op<T>>, op: Op<T>, more: seq<Op<T>>)
    requires !op.Insert? && (at + |Old(ops)| >= |orig| || orig[at + |Old(ops)|] != op.line)
    ensures !Matches(orig, at, Old(ops + [op] + more))
  {
    OldConcat(ops + [op], more);
    OpsAppend(ops, op);
    assert Old(ops + [op])[|Old(ops)|] == op.line;
    if Matches(orig, at, Old(ops + [op] + more)) {
      MatchesPrefix(orig, at, Old(ops + [op]), Old(more));
      assert false;
    }
  }

  /** What the whole replay yields, given the hunks still to come and the output so far. */
  ghost predicate Continues<T>(whole: Option<seq<T>>, orig: seq<T>, cursor: nat, hs: Option<seq<Parsed<T>>>,
                               out: seq<T>)
    requires cursor <= |orig|
  {
    if hs.None? then whole.None?
    else
      var rest := Replay(orig, cursor, hs.value);
      if rest.None? then whole.None? else whole == Some(out + rest.value)
  }

  /** A first hunk that does not apply settles the outcome. */
  lemma Stops<T>(whole: Option<seq<T>>, orig: seq<T>, cursor: nat, all: Option<seq<Parsed<T>>>, first: Parsed<T>,
                 rest: Option<seq<Parsed<T>>>, out: seq<T>)
    requires cursor <= |orig| && all == AndThen(first, rest) && Continues(whole, orig, cursor, all, out)
    requires !Applies(orig, cursor, first)
    ensures whole.None?
  {}

  /** Past a first hunk that applies, the rest of the hunks are still to come. */
  lemma GoesOn<T>(whole: Option<seq<T>>, orig: seq<T>, cursor: nat, all: Option<seq<Parsed<T>>>, first: Parsed<T>,
                  rest: Option<seq<Parsed<T>>>, out: seq<T>, cursor': nat, out': seq<T>)
    requires cursor <= |orig| && all == AndThen(first, rest) && Continues(whole, orig, cursor, all, out)
    requires Applies(orig, cursor, first) && cursor' == Target(first.head) + |Old(first.ops)|
    requires out' == (out + orig[cursor..Target(first.head)]) + New(first.ops)
    ensures Continues(whole, orig, cursor', rest, out')
  {
    if rest.Some? {
      assert ([first] + rest.value)[1..] == rest.value;
      var r := Replay(orig, cursor', rest.value);
      if r.Some? { Regroup(out, orig[cursor..Target(first.head)], New(first.ops), r.value); }
    }
  }

  ghost predicate Reached(whole: Option<seq<string>>, orig: seq<string>, lines: seq<string>, pos: nat, cursor: nat,
                          out: seq<string>)
    requires cursor <= |orig| && pos <= |lines|
  {
    Continues(whole, orig, cursor, ParseDiff(lines[pos..]), out)
  }

  lemma StartOfDiff(orig: seq<string>, lines: seq<string>)
    ensures Reached(Outcome(orig, 0, lines), orig, lines, 0, 0, [])
  {
    assert lines[0..] == lines;
    var all := Outcome(orig, 0, lines);
    if all.Some? { assert [] + all.value == all.value; }
  }

  lemma EndOfDiff(whole: Option<seq<string>>, orig: seq<string>, lines: seq<string>, cursor: nat, out: seq<string>)
    requires cursor <= |orig| && Reached(whole, orig, lines, |lines|, cursor, out)
    ensures whole == Some(out + orig[cursor..|orig|])
  {
    assert orig[cursor..] == orig[cursor..|orig|];
  }

  lemma SkipStep(whole: Option<seq<string>>, orig: seq<string>, lines: seq<string>, pos: nat, cursor: nat,
                 out: seq<string>)
    requires cursor <= |orig| && pos < |lines| && Reached(whole, orig, lines, pos, cursor, out)
    requires !StartsWith(lines[pos], "@@") && (IsFileHeader(lines[pos]) || lines[pos] == "")
    ensures Reached(whole, orig, lines, pos + 1, cursor, out)
  {
    assert lines[pos..][1..] == lines[pos + 1..];
  }

  /** A line that cannot be read settles the outcome. */
  lemma LineFails(whole: Option<seq<string>>, orig: seq<string>, lines: seq<string>, pos: nat, cursor: nat,
                  out: seq<string>)
    requires cursor <= |orig| && pos < |lines| && Reached(whole, orig, lines, pos, cursor, out)
    requires if StartsWith(lines[pos], "@@") then ParseHeader(lines[pos][2..]).None?
             else !IsFileHeader(lines[pos]) && lines[pos] != ""
    ensures whole.None?
  {}

  /** The diff from this line on is a hunk with this header, and what its body leaves. */
  predicate Headed(lines: seq<string>, pos: nat, h: Header)
    requires pos < |lines|
  {
    var b := ParseBody(h.oldCount, h.newCount, lines[pos + 1..]);
    ParseDiff(lines[pos..]) == if b.None? then None else AndThen(Parsed(h, b.value.0), ParseDiff(b.value.1))
  }

  lemma HeaderRead(lines: seq<string>, pos: nat, h: Header)
    requires pos < |lines| && StartsWith(lines[pos], "@@") && ParseHeader(lines[pos][2..]) == Some(h)
    ensures Headed(lines, pos, h)
  {
    assert lines[pos..][1..] == lines[pos + 1..];
  }

  /** A hunk that cannot be read or applied settles the outcome. */
  lemma HunkFails(whole: Option<seq<string>>, orig: seq<string>, lines: seq<string>, pos: nat, cursor: nat,
                  out: seq<string>, h: Header)
    requires cursor <= |orig| && pos < |lines| && Reached(whole, orig, lines, pos, cursor, out)
    requires Headed(lines, pos, h)
    requires || (h.oldStart == 0 && h.oldCount > 0)
             || !(cursor <= Target(h) <= |orig|)
             || !BodyFits(h, orig, Target(h), lines[pos + 1..])
    ensures whole.None?
  {
    var b := ParseBody(h.oldCount, h.newCount, lines[pos + 1..]);
    if b.Some? {
      var all := ParseDiff(lines[pos..]);
      Stops(whole, orig, cursor, all, Parsed(h, b.value.0), ParseDiff(b.value.1), out);
    }
  }

  /** A hunk that applies extends the output by the lines copied before it and its new lines. */
  lemma HunkStep(whole: Option<seq<string>>, orig: seq<string>, lines: seq<string>, pos: nat, cursor: nat,
                 out: seq<string>, h: Header, ops: seq<Op<string>>, next: nat, cursor': nat, out': seq<string>)
    requires cursor <= |orig| && pos < |lines| && Reached(whole, orig, lines, pos, cursor, out)
    requires Headed(lines, pos, h) && next <= |lines|
    requires ParseBody(h.oldCount, h.newCount, lines[pos + 1..]) == Some((ops, lines[next..]))
    requires Applies(orig, cursor, Parsed(h, ops))
    requires cursor' == Target(h) + |Old(ops)| && out' == (out + orig[cursor..Target(h)]) + New(ops)
    ensures Reached(whole, orig, lines, next, cursor', out')
  {
    var all, rest := ParseDiff(lines[pos..]), ParseDiff(lines[next..]);
    GoesOn(whole, orig, cursor, all, Parsed(h, ops), rest, out, cursor', out');
  }
}
