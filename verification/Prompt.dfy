/**
 Prompt rendering (`prompt.rs`): untrusted text goes between fence markers, and the rendered message
 is proved to be bracketed and readable in one way only, whatever the untrusted text contains.

 The four literal texts of the source are `FENCE`; everything else is stated for any texts of that
 shape (`Proper`), which is all the proofs use.
 */
module Prompt {
  import opened Wrappers
  import opened Sequences

  /** The two markers and what replaces them inside untrusted text. */
  datatype Fence = Fence(begin: string, end: string, openStandin: string, closeStandin: string) {
    ghost predicate Proper() {
      && |begin| >= 4 && begin[0] == '<' && begin[1] == '<' && begin[2] == '<' && begin[3] != 'u'
      && (forall i :: 3 <= i < |begin| ==> begin[i] != '<')
      && '>' !in begin && '\n' !in begin
      && |end| >= 2 && end[0] == 'J' && '>' in end && end[1] != 'u'
      && (forall i :: 1 <= i < |end| ==> end[i] != 'J')
      && '<' !in end && '\n' !in end
      && IsStandin(openStandin) && IsStandin(closeStandin)
    }

    ghost predicate IsMarker(m: string) {
      m == begin || m == end
    }
  }

  ghost predicate IsStandin(s: string) {
    |s| >= 2 && s[0] == '<' && s[1] == 'u' && forall i :: 1 <= i < |s| ==> s[i] != '<' && s[i] != 'J'
  }

  const FENCE := Fence("<<<JITGEN-UNTRUSTED-DATA", "JITGEN-END-UNTRUSTED-DATA>>>",
                       "<untrusted-fence-open>", "<untrusted-fence-close>")
  const MAX_META_LEN := 256
  const MAX_HINT_LEN := 2000
  const MAX_HINTS := 16

  lemma BeginIsProper()
    ensures var b := "<<<JITGEN-UNTRUSTED-DATA";
            && b[0] == '<' && b[1] == '<' && b[2] == '<' && b[3] != 'u'
            && (forall i :: 3 <= i < |b| ==> b[i] != '<') && '>' !in b && '\n' !in b
  {}

  lemma EndIsProper()
    ensures var e := "JITGEN-END-UNTRUSTED-DATA>>>";
            && e[0] == 'J' && '>' in e && e[1] != 'u'
            && (forall i :: 1 <= i < |e| ==> e[i] != 'J') && '<' !in e && '\n' !in e
  {
    assert "JITGEN-END-UNTRUSTED-DATA>>>"[25] == '>';
  }

  lemma StandinsAreProper()
    ensures IsStandin("<untrusted-fence-open>") && IsStandin("<untrusted-fence-close>")
  {}

  lemma FenceIsProper()
    ensures FENCE.Proper()
  {
    BeginIsProper();
    EndIsProper();
    StandinsAreProper();
  }

  datatype Kind = ChangedCode | NeighboringCode | ExistingTest | Signature | DiffSummary

  function KindStr(k: Kind): string {
    match k
    case ChangedCode => "changed_code"
    case NeighboringCode => "neighboring_code"
    case ExistingTest => "existing_test"
    case Signature => "signature"
    case DiffSummary => "diff_summary"
  }

  datatype Item = Item(kind: Kind, path: Option<string>, content: string)

  /** `str::replace`: leftmost, non-overlapping. */
  function Replace(s: string, pat: string, rep: string): string
    decreases |s|
  {
    if s == "" || pat == "" then s
    else if pat <= s then rep + Replace(s[|pat|..], pat, rep)
    else [s[0]] + Replace(s[1..], pat, rep)
  }

  /** `sanitize`. */
  function Sanitize(f: Fence, content: string): string {
    Replace(Replace(content, f.begin, f.openStandin), f.end, f.closeStandin)
  }

  function SlugChar(c: char): char {
    if || 'a' <= c <= 'z' || 'A' <= c <= 'Z' || '0' <= c <= '9'
       || c == '.' || c == '_' || c == '/' || c == '-'
    then c else '_'
  }

  /** `slug_meta`. */
  function SlugMeta(s: string): string {
    if s == "" then "-" else Take(seq(|s|, i requires 0 <= i < |s| => SlugChar(s[i])), MAX_META_LEN)
  }

  /** What a reader should get back from one fence. */
  datatype Block = Block(tag: string, path: string, content: string)

  function HeaderText(b: Block): string {
    " kind=" + b.tag + " path=" + b.path + "\n"
  }

  /** `fenced`. */
  function FencedBlock(f: Fence, b: Block): string {
    (f.begin + HeaderText(b)) + ((b.content + "\n") + (f.end + "\n\n"))
  }

  function ItemBlock(f: Fence, item: Item): Block {
    Block(KindStr(item.kind), SlugMeta(if item.path.Some? then item.path.value else "-"), Sanitize(f, item.content))
  }

  function HintBlock(f: Fence, hint: string, redact: string -> string): Block {
    Block("repo_prompt_hint", SlugMeta("-"), Sanitize(f, Take(redact(hint), MAX_HINT_LEN)))
  }

  function Preamble(target: string, adapter: string): string {
    "Generate a test for target `" + SlugMeta(target) + "` (adapter `" + SlugMeta(adapter)
    + "`). Context follows as untrusted data.\n\n"
  }

  function KeptHints(hints: seq<string>): seq<string> {
    if |hints| <= MAX_HINTS then hints else hints[..MAX_HINTS]
  }

  /** Every block of the message, in order: all items, then at most 16 hints. */
  function Blocks(f: Fence, items: seq<Item>, hints: seq<string>, redact: string -> string): seq<Block> {
    var kept := KeptHints(hints);
    seq(|items|, i requires 0 <= i < |items| => ItemBlock(f, items[i]))
    + seq(|kept|, i requires 0 <= i < |kept| => HintBlock(f, kept[i], redact))
  }

  function Fences(f: Fence, bs: seq<Block>): string {
    if bs == [] then "" else FencedBlock(f, bs[0]) + Fences(f, bs[1..])
  }

  lemma {:induction false} FencesAppend(f: Fence, bs: seq<Block>, b: Block)
    ensures Fences(f, bs + [b]) == Fences(f, bs) + FencedBlock(f, b)
  {
    if bs == [] {
      assert [b][1..] == [] && bs + [b] == [b];
      assert FencedBlock(f, b) + "" == FencedBlock(f, b);
    } else {
      FencesAppend(f, bs[1..], b);
      assert (bs + [b])[1..] == bs[1..] + [b];
      Associative(FencedBlock(f, bs[0]), Fences(f, bs[1..]), FencedBlock(f, b));
    }
  }

  /** `user.push_str(&fenced(..))` for the `i`-th block. */
  method PushBlock(f: Fence, user: string, b: Block, ghost pre: string, ghost all: seq<Block>, ghost i: nat)
    returns (r: string)
    requires i < |all| && b == all[i] && user == pre + Fences(f, all[..i])
    ensures r == pre + Fences(f, all[..i + 1])
  {
    FencesAppend(f, all[..i], b);
    assert all[..i] + [b] == all[..i + 1];
    Associative(pre, Fences(f, all[..i]), FencedBlock(f, b));
    r := user + FencedBlock(f, b);
  }

  ghost predicate ItemsFirst(f: Fence, items: seq<Item>, all: seq<Block>) {
    |items| <= |all| && forall i :: 0 <= i < |items| ==> all[i] == ItemBlock(f, items[i])
  }

  ghost predicate HintsLast(f: Fence, kept: seq<string>, redact: string -> string, all: seq<Block>, from: nat) {
    |all| == from + |kept| && forall k :: from <= k < |all| ==> all[k] == HintBlock(f, kept[k - from], redact)
  }

  lemma BlockAt(f: Fence, items: seq<Item>, hints: seq<string>, redact: string -> string)
    ensures ItemsFirst(f, items, Blocks(f, items, hints, redact))
    ensures HintsLast(f, KeptHints(hints), redact, Blocks(f, items, hints, redact), |items|)
  {}

  /** The loops of `render_prompt`, after the first line. */
  method RenderBlocks(f: Fence, pre: string, items: seq<Item>, hints: seq<string>, redact: string -> string)
    returns (user: string)
    ensures user == pre + Fences(f, Blocks(f, items, hints, redact))
  {
    BlockAt(f, items, hints, redact);
    ghost var all := Blocks(f, items, hints, redact);
    user := RenderItems(f, pre, items, all);
    user := RenderHints(f, user, pre, KeptHints(hints), redact, all, |items|);
  }

  method RenderItems(f: Fence, pre: string, items: seq<Item>, ghost all: seq<Block>) returns (user: string)
    requires ItemsFirst(f, items, all)
    ensures user == pre + Fences(f, all[..|items|])
  {
    user := pre;
    assert all[..0] == [];
    for i := 0 to |items|
      invariant user == pre + Fences(f, all[..i])
    {
      user := PushBlock(f, user, ItemBlock(f, items[i]), pre, all, i);
    }
  }

  method RenderHints(f: Fence, user0: string, ghost pre: string, kept: seq<string>, redact: string -> string,
                     ghost all: seq<Block>, ghost from: nat) returns (user: string)
    requires HintsLast(f, kept, redact, all, from)
    requires user0 == pre + Fences(f, all[..from])
    ensures user == pre + Fences(f, all)
  {
    user := user0;
    for i := 0 to |kept|
      invariant user == pre + Fences(f, all[..from + i])
    {
      user := PushBlock(f, user, HintBlock(f, kept[i], redact), pre, all, from + i);
    }
    assert all[..|all|] == all;
  }

  /** `render_prompt` for any proper fence, behind any first line without angle brackets. */
  method RenderWith(f: Fence, pre: string, items: seq<Item>, hints: seq<string>, redact: string -> string)
    returns (user: string)
    requires f.Proper() && IsFirstLine(pre)
    ensures user == pre + Fences(f, Blocks(f, items, hints, redact))
    ensures Parse(f, user) == Some(Blocks(f, items, hints, redact))
    ensures Marks(f, user) == Alternating(|items| + |KeptHints(hints)|)
  {
    user := RenderBlocks(f, pre, items, hints, redact);
    RenderedReadsBack(f, pre, items, hints, redact, Blocks(f, items, hints, redact));
  }

  lemma RenderedReadsBack(f: Fence, pre: string, items: seq<Item>, hints: seq<string>, redact: string -> string,
                          all: seq<Block>)
    requires f.Proper() && IsFirstLine(pre) && all == Blocks(f, items, hints, redact)
    ensures Parse(f, pre + Fences(f, all)) == Some(all)
    ensures Marks(f, pre + Fences(f, all)) == Alternating(|items| + |KeptHints(hints)|)
  {
    BlocksAreQuiet(f, items, hints, redact);
    BlockCount(f, items, hints, redact);
    FirstLineReadsBack(f, pre, all, |items| + |KeptHints(hints)|);
  }

  lemma FirstLineReadsBack(f: Fence, pre: string, bs: seq<Block>, n: nat)
    requires f.Proper() && IsFirstLine(pre) && |bs| == n && AllQuiet(f, bs)
    ensures Parse(f, pre + Fences(f, bs)) == Some(bs) && Marks(f, pre + Fences(f, bs)) == Alternating(n)
  {
    MessageReadsBack(f, pre, bs);
  }

  lemma BlockCount(f: Fence, items: seq<Item>, hints: seq<string>, redact: string -> string)
    ensures |Blocks(f, items, hints, redact)| == |items| + |KeptHints(hints)|
  {}

  predicate IsFirstLine(pre: string) {
    '<' !in pre && '>' !in pre && pre != "" && pre[|pre| - 1] == '\n'
  }

  /** `render_prompt`, the user message: bracketed, and read back block by block. */
  method RenderPrompt(target: string, adapter: string, items: seq<Item>, hints: seq<string>, redact: string -> string)
    returns (user: string)
    ensures user == Preamble(target, adapter) + Fences(FENCE, Blocks(FENCE, items, hints, redact))
    ensures Parse(FENCE, user) == Some(Blocks(FENCE, items, hints, redact))
    ensures Marks(FENCE, user) == Alternating(|items| + |KeptHints(hints)|)
  {
    FenceIsProper();
    PreambleIsQuiet(target, adapter);
    user := RenderWith(FENCE, Preamble(target, adapter), items, hints, redact);
  }

  // ---- reading a message ----

  datatype Mark = Begin | End

  function MarkHere(f: Fence, s: string): seq<Mark> {
    if f.begin <= s then [Begin] else if f.end <= s then [End] else []
  }

  /** Every marker in a text, by position. */
  function Marks(f: Fence, s: string): seq<Mark> {
    if s == "" then [] else MarkHere(f, s) + Marks(f, s[1..])
  }

  function Alternating(n: nat): seq<Mark> {
    if n == 0 then [] else [Begin, End] + Alternating(n - 1)
  }

  /** The text after the first `m`, or nothing. */
  function After(s: string, m: string): (r: Option<string>)
    ensures r.Some? && m != "" ==> |r.value| < |s|
    decreases |s|
  {
    if m <= s then Some(s[|m|..]) else if s == "" then None else After(s[1..], m)
  }

  /** The text before the first `m`. */
  function Before(s: string, m: string): string
    decreases |s|
  {
    if m <= s || s == "" then "" else [s[0]] + Before(s[1..], m)
  }

  /** One block from the text between two markers. */
  function ReadBlock(raw: string): Option<Block> {
    var fields := After(raw, " kind=");
    if fields.None? then None else
      var tail := After(fields.value, " path=");
      if tail.None? then None else
        var content := After(tail.value, "\n");
        if content.None? || content.value == "" then None
        else Some(Block(Before(fields.value, " path="), Before(tail.value, "\n"), content.value[..|content.value| - 1]))
  }

  /** Splitting on the markers, first occurrences first. */
  function Parse(f: Fence, s: string): Option<seq<Block>>
    decreases |s|
  {
    var inside := After(s, f.begin);
    if inside.None? || f.begin == "" then Some([]) else
      var outside := After(inside.value, f.end);
      if outside.None? || f.end == "" then None else
        var b := ReadBlock(Before(inside.value, f.end));
        var rest := Parse(f, outside.value);
        if b.None? || rest.None? then None else Some([b.value] + rest.value)
  }

  // ---- no marker survives in, or grows around, untrusted text ----

  ghost predicate Absent(s: string, m: string) {
    forall i :: 0 <= i <= |s| ==> !(m <= s[i..])
  }

  lemma AbsentTail(s: string, m: string)
    requires m != "" && s != ""
    ensures Absent(s, m) <==> !(m <= s) && Absent(s[1..], m)
  {
    assert s[0..] == s;
    assert forall i :: 1 <= i <= |s| ==> s[i..] == s[1..][i - 1..];
    assert forall i :: 0 <= i < |s| ==> s[1..][i..] == s[i + 1..];
  }

  /** Nothing in `q` can be the start of a stand-in: both begin with `<u`. */
  ghost predicate Inert(q: string) {
    forall j :: 0 <= j < |q| && q[j] == '<' ==> j + 1 < |q| && q[j + 1] != 'u'
  }

  lemma ReplaceHead(t: string, pat: string, rep: string)
    requires pat != "" && pat <= t && |rep| >= 2
    ensures var r := Replace(t, pat, rep); |r| >= 2 && r[0] == rep[0] && r[1] == rep[1]
  {}

  lemma {:induction false} PrefixCopied(t: string, q: string, pat: string, rep: string)
    requires pat != "" && IsStandin(rep) && Inert(q) && q <= Replace(t, pat, rep)
    ensures q <= t
    decreases |t|
  {
    if pat <= t {
      ReplaceHead(t, pat, rep);
    } else if q != "" && t != "" {
      assert Replace(t, pat, rep)[1..] == Replace(t[1..], pat, rep);
      PrefixCopied(t[1..], q[1..], pat, rep);
      assert q == [q[0]] + q[1..] && t == [t[0]] + t[1..];
    }
  }

  lemma MarkersAreInert(f: Fence, m: string)
    requires f.Proper() && f.IsMarker(m)
    ensures Inert(m) && m != "" && '\n' !in m
  {}

  /** No marker starts inside a stand-in. */
  lemma StandinRefuses(f: Fence, rep: string, t: string, m: string, i: nat)
    requires f.Proper() && f.IsMarker(m) && IsStandin(rep) && i < |rep|
    ensures !(m <= (rep + t)[i..])
  {
    var s := (rep + t)[i..];
    assert s[0] == rep[i];
    assert i == 0 ==> s[1] == 'u';
  }

  /** After replacing `pat`, neither `pat` nor a marker that was absent before can be found. */
  lemma {:induction false} ReplaceRemoves(f: Fence, s: string, pat: string, rep: string, m: string)
    requires f.Proper() && f.IsMarker(pat) && f.IsMarker(m) && IsStandin(rep)
    requires m == pat || Absent(s, m)
    ensures Absent(Replace(s, pat, rep), m)
    decreases |s|
  {
    MarkersAreInert(f, m);
    MarkersAreInert(f, pat);
    if s != "" && pat <= s {
      var later := s[|pat|..];
      if m != pat {
        forall i | 0 <= i <= |later| ensures !(m <= later[i..]) { assert later[i..] == s[|pat| + i..]; }
      }
      ReplaceRemoves(f, later, pat, rep, m);
      BehindStandin(f, rep, Replace(later, pat, rep), m);
    } else if s != "" {
      AbsentTail(s, m);
      ReplaceRemoves(f, s[1..], pat, rep, m);
      var r := Replace(s, pat, rep);
      assert r[1..] == Replace(s[1..], pat, rep);
      if m <= r { PrefixCopied(s, m, pat, rep); }
      AbsentTail(r, m);
    }
  }

  lemma BehindStandin(f: Fence, rep: string, rest: string, m: string)
    requires f.Proper() && f.IsMarker(m) && IsStandin(rep) && Absent(rest, m)
    ensures Absent(rep + rest, m)
  {
    forall i | 0 <= i <= |rep + rest| ensures !(m <= (rep + rest)[i..]) {
      if i < |rep| { StandinRefuses(f, rep, rest, m, i); } else { assert (rep + rest)[i..] == rest[i - |rep|..]; }
    }
  }

  /** Neutralised text contains neither marker. */
  lemma SanitizeRemoves(f: Fence, content: string)
    requires f.Proper()
    ensures Absent(Sanitize(f, content), f.begin) && Absent(Sanitize(f, content), f.end)
  {
    var once := Replace(content, f.begin, f.openStandin);
    ReplaceRemoves(f, content, f.begin, f.openStandin, f.begin);
    ReplaceRemoves(f, once, f.end, f.closeStandin, f.begin);
    ReplaceRemoves(f, once, f.end, f.closeStandin, f.end);
  }

  // ---- bracketing ----

  ghost predicate Plain(s: string) {
    '<' !in s && '>' !in s && ' ' !in s && '\n' !in s
  }

  /** What the code guarantees about every block: slugs and kinds are plain, the content holds no marker. */
  ghost predicate Quiet(f: Fence, b: Block) {
    Plain(b.tag) && Plain(b.path) && Absent(b.content, f.begin) && Absent(b.content, f.end)
  }

  ghost predicate AllQuiet(f: Fence, bs: seq<Block>) {
    bs == [] || (Quiet(f, bs[0]) && AllQuiet(f, bs[1..]))
  }

  lemma {:induction false} EachQuiet(f: Fence, bs: seq<Block>)
    requires forall b :: b in bs ==> Quiet(f, b)
    ensures AllQuiet(f, bs)
  {
    if bs == [] {
    } else {
      assert bs[0] in bs && forall b :: b in bs[1..] ==> b in bs;
      EachQuiet(f, bs[1..]);
    }
  }

  lemma SlugIsPlain(s: string)
    ensures Plain(SlugMeta(s))
  {}

  lemma ChangedCodeIsPlain()
    ensures Plain("changed_code")
  {}

  lemma NeighboringCodeIsPlain()
    ensures Plain("neighboring_code")
  {}

  lemma ExistingTestIsPlain()
    ensures Plain("existing_test")
  {}

  lemma SignatureIsPlain()
    ensures Plain("signature")
  {}

  lemma DiffSummaryIsPlain()
    ensures Plain("diff_summary")
  {}

  lemma KindIsPlain(k: Kind)
    ensures Plain(KindStr(k))
  {
    ChangedCodeIsPlain();
    NeighboringCodeIsPlain();
    ExistingTestIsPlain();
    SignatureIsPlain();
    DiffSummaryIsPlain();
  }

  lemma HintTagIsPlain()
    ensures Plain("repo_prompt_hint")
  {}

  lemma BlocksAreQuiet(f: Fence, items: seq<Item>, hints: seq<string>, redact: string -> string)
    requires f.Proper()
    ensures AllQuiet(f, Blocks(f, items, hints, redact))
  {
    forall item ensures Quiet(f, ItemBlock(f, item)) {
      SanitizeRemoves(f, item.content);
      SlugIsPlain(if item.path.Some? then item.path.value else "-");
      KindIsPlain(item.kind);
    }
    forall hint ensures Quiet(f, HintBlock(f, hint, redact)) {
      SanitizeRemoves(f, Take(redact(hint), MAX_HINT_LEN));
      SlugIsPlain("-");
      HintTagIsPlain();
    }
    EachQuiet(f, Blocks(f, items, hints, redact));
  }

  /** A text that holds no marker and that none can cross out of. */
  ghost predicate Line(f: Fence, s: string) {
    (s == "" || s[|s| - 1] == '\n') && Absent(s, f.begin) && Absent(s, f.end)
  }

  lemma NoAngles(f: Fence, s: string)
    requires f.Proper() && '<' !in s && '>' !in s
    ensures Absent(s, f.begin) && Absent(s, f.end)
  {
    assert f.begin[0] in f.begin;
    AbsentByCharacter(s, f.begin, '<');
    AbsentByCharacter(s, f.end, '>');
  }

  lemma OpeningIsPlain()
    ensures '<' !in "Generate a test for target `" && '>' !in "Generate a test for target `"
  {}

  lemma AdapterIsPlain()
    ensures '<' !in "` (adapter `" && '>' !in "` (adapter `"
  {}

  lemma ClosingIsPlain()
    ensures '<' !in "`). Context follows as untrusted data.\n\n" && '>' !in "`). Context follows as untrusted data.\n\n"
  {}

  lemma PreambleIsQuiet(target: string, adapter: string)
    ensures IsFirstLine(Preamble(target, adapter))
  {
    SlugIsPlain(target);
    SlugIsPlain(adapter);
    OpeningIsPlain();
    AdapterIsPlain();
    ClosingIsPlain();
  }

  /** A text without one of a marker's characters does not contain the marker. */
  lemma AbsentByCharacter(s: string, m: string, c: char)
    requires c in m && c !in s
    ensures Absent(s, m)
  {
    var k :| 0 <= k < |m| && m[k] == c;
    forall i | 0 <= i <= |s| ensures !(m <= s[i..]) {
      assert i + k < |s| ==> s[i..][k] == s[i + k] && s[i + k] in s;
    }
  }

  lemma AbsentWithNewline(s: string, m: string)
    requires '\n' !in m && m != "" && Absent(s, m)
    ensures Absent(s + "\n", m)
  {
    var t := s + "\n";
    forall i | 0 <= i <= |t| ensures !(m <= t[i..]) {
      if i <= |s| {
        assert t[i..] == s[i..] + "\n" && t[i..][|s| - i] == '\n';
        assert !(m <= s[i..]);
      }
    }
  }

  /** A marker that starts in a text ending in a newline ends in it too. */
  lemma NoCrossing(a: string, b: string, m: string, i: nat)
    requires '\n' !in m && a != "" && a[|a| - 1] == '\n' && i < |a|
    ensures m <= (a + b)[i..] <==> m <= a[i..]
  {
    assert (a + b)[i..] == a[i..] + b;
    assert (a + b)[i..][|a| - 1 - i] == '\n';
  }

  lemma {:induction false} MarksConcat(f: Fence, a: string, b: string)
    requires '\n' !in f.begin && '\n' !in f.end && (a == "" || a[|a| - 1] == '\n')
    ensures Marks(f, a + b) == Marks(f, a) + Marks(f, b)
  {
    if a == "" {
      assert a + b == b;
    } else {
      SameMarkHere(f, a, b);
      MarksConcat(f, a[1..], b);
      MarksInFront(f, a, b);
    }
  }

  lemma MarksCons(f: Fence, s: string, tail: string)
    requires s != "" && s[1..] == tail
    ensures Marks(f, s) == MarkHere(f, s) + Marks(f, tail)
  {}

  lemma MarksInFront(f: Fence, a: string, b: string)
    requires a != "" && MarkHere(f, a + b) == MarkHere(f, a)
    requires Marks(f, a[1..] + b) == Marks(f, a[1..]) + Marks(f, b)
    ensures Marks(f, a + b) == Marks(f, a) + Marks(f, b)
  {
    TailOfConcat(a, b);
    MarksCons(f, a, a[1..]);
    MarksCons(f, a + b, a[1..] + b);
    Associative(MarkHere(f, a), Marks(f, a[1..]), Marks(f, b));
  }

  lemma SameMarkHere(f: Fence, a: string, b: string)
    requires '\n' !in f.begin && '\n' !in f.end && a != "" && a[|a| - 1] == '\n'
    ensures MarkHere(f, a + b) == MarkHere(f, a)
  {
    assert a[0..] == a && (a + b)[0..] == a + b;
    NoCrossing(a, b, f.begin, 0);
    NoCrossing(a, b, f.end, 0);
  }

  lemma {:induction false} NoMarks(f: Fence, s: string)
    requires f.Proper() && Absent(s, f.begin) && Absent(s, f.end)
    ensures Marks(f, s) == []
  {
    if s == "" {
    } else {
      AbsentTail(s, f.begin);
      AbsentTail(s, f.end);
      NoMarks(f, s[1..]);
    }
  }

  /** A line that opens with the begin marker has no other marker. */
  lemma OpeningLine(f: Fence, t: string)
    requires f.Proper() && '<' !in t && '>' !in t
    ensures Marks(f, f.begin + t) == [Begin]
  {
    var s := f.begin + t;
    AbsentByCharacter(s, f.end, '>');
    AbsentTail(s, f.end);
    forall i | 0 <= i <= |s[1..]| ensures !(f.begin <= s[1..][i..]) {
      if i + 3 < |s| {
        assert s[1..][i..][2] == s[i + 3];
        assert i + 3 >= |f.begin| ==> s[i + 3] == t[i + 3 - |f.begin|] && s[i + 3] in t;
      }
    }
    NoMarks(f, s[1..]);
  }

  /** A line that opens with the end marker has no other marker. */
  lemma ClosingLine(f: Fence)
    requires f.Proper()
    ensures Marks(f, f.end + "\n\n") == [End]
  {
    var s := f.end + "\n\n";
    assert f.begin[0] in f.begin && f.end[0] in f.end;
    AbsentByCharacter(s, f.begin, '<');
    AbsentTail(s, f.begin);
    AbsentByCharacter(s[1..], f.end, 'J');
    NoMarks(f, s[1..]);
  }

  lemma BodyLine(f: Fence, b: Block)
    requires f.Proper() && Quiet(f, b)
    ensures Marks(f, b.content + "\n") == []
  {
    AbsentWithNewline(b.content, f.begin);
    AbsentWithNewline(b.content, f.end);
    NoMarks(f, b.content + "\n");
  }

  lemma FenceMarks(f: Fence, b: Block)
    requires f.Proper() && Quiet(f, b)
    ensures Marks(f, FencedBlock(f, b)) == [Begin, End]
    ensures FencedBlock(f, b)[|FencedBlock(f, b)| - 1] == '\n'
  {
    HeaderIsPlain(b);
    OpeningLine(f, HeaderText(b));
    BodyLine(f, b);
    ClosingLine(f);
    ThreeLines(f, f.begin + HeaderText(b), b.content + "\n", f.end + "\n\n");
  }

  lemma HeaderIsPlain(b: Block)
    requires Plain(b.tag) && Plain(b.path)
    ensures '<' !in HeaderText(b) && '>' !in HeaderText(b) && HeaderText(b)[|HeaderText(b)| - 1] == '\n'
  {}

  lemma ThreeLines(f: Fence, x: string, y: string, z: string)
    requires f.Proper() && x != "" && y != "" && z != ""
    requires x[|x| - 1] == '\n' && y[|y| - 1] == '\n' && z[|z| - 1] == '\n'
    ensures Marks(f, x + (y + z)) == Marks(f, x) + (Marks(f, y) + Marks(f, z))
    ensures (x + (y + z))[|x + (y + z)| - 1] == '\n'
  {
    MarksConcat(f, y, z);
    MarksConcat(f, x, y + z);
  }

  lemma {:induction false} FencesMarks(f: Fence, bs: seq<Block>)
    requires f.Proper() && AllQuiet(f, bs)
    ensures Marks(f, Fences(f, bs)) == Alternating(|bs|)
  {
    if bs == [] {
    } else {
      FenceMarks(f, bs[0]);
      MarksConcat(f, FencedBlock(f, bs[0]), Fences(f, bs[1..]));
      FencesMarks(f, bs[1..]);
    }
  }

  // ---- reading back ----

  /** A search stops at the first position that matches. */
  lemma {:induction false} SearchSkips(a: string, b: string, m: string)
    requires m <= b && forall i :: 0 <= i < |a| ==> !(m <= (a + b)[i..])
    ensures After(a + b, m) == Some(b[|m|..]) && Before(a + b, m) == a
  {
    if a == "" {
      assert a + b == b;
    } else {
      assert (a + b)[0..] == a + b && (a + b)[1..] == a[1..] + b;
      forall i | 0 <= i < |a[1..]| ensures !(m <= (a[1..] + b)[i..]) {
        assert (a[1..] + b)[i..] == (a + b)[i + 1..];
      }
      SearchSkips(a[1..], b, m);
    }
  }

  lemma {:induction false} SearchFails(s: string, m: string)
    requires m != "" && Absent(s, m)
    ensures After(s, m).None?
  {
    assert s[0..] == s;
    if s == "" {
    } else {
      AbsentTail(s, m);
      SearchFails(s[1..], m);
    }
  }

  /** Skipping a whole text that ends in a newline. */
  lemma SkipLine(a: string, m: string, b: string)
    requires '\n' !in m && Absent(a, m) && (a == "" || a[|a| - 1] == '\n')
    ensures After(a + (m + b), m) == Some(b) && Before(a + (m + b), m) == a
  {
    forall i | 0 <= i < |a| ensures !(m <= (a + (m + b))[i..]) { NoCrossing(a, m + b, m, i); }
    SearchSkips(a, m + b, m);
    assert (m + b)[|m|..] == b;
  }

  /** A delimiter is found right behind a text without its first character. */
  lemma Delimited(a: string, m: string, b: string)
    requires m != "" && m[0] !in a
    ensures After(a + (m + b), m) == Some(b) && Before(a + (m + b), m) == a
  {
    forall i | 0 <= i < |a| ensures !(m <= (a + (m + b))[i..]) {
      assert (a + (m + b))[i..][0] == a[i] && a[i] in a;
    }
    SearchSkips(a, m + b, m);
    assert (m + b)[|m|..] == b;
  }

  lemma BlockReadsBack(b: Block)
    requires Plain(b.tag) && Plain(b.path)
    ensures ReadBlock(HeaderText(b) + (b.content + "\n")) == Some(b)
  {
    var content := b.content + "\n";
    var tail := b.path + ("\n" + content);
    var fields := b.tag + (" path=" + tail);
    assert HeaderText(b) + content == "" + (" kind=" + fields);
    Delimited("", " kind=", fields);
    Delimited(b.tag, " path=", tail);
    Delimited(b.path, "\n", content);
    assert content[..|content| - 1] == b.content;
  }

  /** A quiet line in front of the fences changes nothing; the two newlines after each are such a line. */
  lemma {:induction false} FencesReadBack(f: Fence, pre: string, bs: seq<Block>)
    requires f.Proper() && Absent(pre, f.begin) && (pre == "" || pre[|pre| - 1] == '\n')
    requires AllQuiet(f, bs)
    ensures Parse(f, pre + Fences(f, bs)) == Some(bs)
    decreases |bs|
  {
    if bs == [] {
      assert pre + "" == pre;
      SearchFails(pre, f.begin);
    } else {
      ReadOne(f, pre, bs[0], Fences(f, bs[1..]));
      assert [bs[0]] + bs[1..] == bs;
      NoAngles(f, "\n\n");
      FencesReadBack(f, "\n\n", bs[1..]);
    }
  }

  lemma ReadOne(f: Fence, pre: string, b: Block, rest: string)
    requires f.Proper() && Absent(pre, f.begin) && (pre == "" || pre[|pre| - 1] == '\n') && Quiet(f, b)
    ensures var more := Parse(f, "\n\n" + rest);
            Parse(f, pre + (FencedBlock(f, b) + rest)) == if more.None? then None else Some([b] + more.value)
  {
    var raw, later := HeaderText(b) + (b.content + "\n"), "\n\n" + rest;
    Unfold(f, pre, b, rest);
    SkipLine(pre, f.begin, raw + (f.end + later));
    RawIsQuiet(f, b);
    SkipLine(raw, f.end, later);
    BlockReadsBack(b);
    ParseStep(f, pre + (f.begin + (raw + (f.end + later))), raw + (f.end + later), later, b);
  }

  lemma ParseStep(f: Fence, s: string, inside: string, later: string, b: Block)
    requires f.begin != "" && f.end != ""
    requires After(s, f.begin) == Some(inside) && After(inside, f.end) == Some(later)
      && ReadBlock(Before(inside, f.end)) == Some(b)
    ensures Parse(f, s) == if Parse(f, later).None? then None else Some([b] + Parse(f, later).value)
  {}

  lemma Unfold(f: Fence, pre: string, b: Block, rest: string)
    ensures pre + (FencedBlock(f, b) + rest) ==
            pre + (f.begin + ((HeaderText(b) + (b.content + "\n")) + (f.end + ("\n\n" + rest))))
  {
    RegroupBlock(f.begin, HeaderText(b), b.content + "\n", f.end, "\n\n", rest);
  }

  lemma RegroupBlock(a: string, b: string, c: string, d: string, e: string, r: string)
    ensures ((a + b) + (c + (d + e))) + r == a + ((b + c) + (d + (e + r)))
  {}

  lemma RawIsQuiet(f: Fence, b: Block)
    requires f.Proper() && Quiet(f, b)
    ensures var raw := HeaderText(b) + (b.content + "\n"); Absent(raw, f.end) && raw[|raw| - 1] == '\n'
  {
    var head, body := HeaderText(b), b.content + "\n";
    var raw := head + body;
    NoAngles(f, head);
    AbsentWithNewline(b.content, f.end);
    forall i | 0 <= i <= |raw| ensures !(f.end <= raw[i..]) {
      if i < |head| { NoCrossing(head, body, f.end, i); } else { assert raw[i..] == body[i - |head|..]; }
    }
  }

  /** The message is bracketed, and splitting it on the markers gives back every kind, path and content. */
  lemma MessageReadsBack(f: Fence, pre: string, bs: seq<Block>)
    requires f.Proper() && '<' !in pre && '>' !in pre && pre != "" && pre[|pre| - 1] == '\n'
    requires AllQuiet(f, bs)
    ensures Parse(f, pre + Fences(f, bs)) == Some(bs)
    ensures Marks(f, pre + Fences(f, bs)) == Alternating(|bs|)
  {
    NoAngles(f, pre);
    FencesReadBack(f, pre, bs);
    MarksConcat(f, pre, Fences(f, bs));
    NoMarks(f, pre);
    FencesMarks(f, bs);
  }
}
