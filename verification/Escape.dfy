/**
 Neutralising untrusted text for reports (`escape.rs`): the control stripper is one small automaton,
 capping never splits a character, and each escaper can be undone.
 */
module Escape {
  import opened Wrappers
  import opened Text
  import opened Sequences

  const ESC := '\U{001B}'
  const C1_CSI := '\U{009B}'
  const BEL := '\U{0007}'
  const ZERO_WIDTH_SPACE := '\U{200B}'

  /** `is_strippable`. */
  predicate IsStrippable(c: char) {
    || c <= '\U{0008}'
    || c == '\U{000B}' || c == '\U{000C}' || c == '\U{000D}'
    || '\U{000E}' <= c <= '\U{001F}'
    || c == '\U{007F}'
    || '\U{0080}' <= c <= '\U{009F}'
    || c == '\U{2028}' || c == '\U{2029}'
    || '\U{200B}' <= c <= '\U{200F}'
    || '\U{202A}' <= c <= '\U{202E}'
    || '\U{2066}' <= c <= '\U{2069}'
    || c == '\U{FEFF}'
  }

  /** Characters that may reach a report. */
  predicate Harmless(c: char) {
    c == '\n' || c == '\t' || !IsStrippable(c)
  }

  predicate AllHarmless(s: string) {
    forall c :: c in s ==> Harmless(c)
  }

  // ---- the stripper as an automaton ----

  datatype Mode = Ground | Escape | Csi | Osc | OscEscape

  predicate IsCsiFinal(c: char) { '\U{0040}' <= c <= '\U{007E}' }

  function FromGround(c: char): (Mode, string) {
    if c == ESC then (Escape, "")
    else if c == C1_CSI then (Csi, "")
    else if Harmless(c) then (Ground, [c])
    else (Ground, "")
  }

  /**
   One character: the next mode and what is emitted. After `ESC` inside an OSC string, anything but a backslash
   is read afresh.
   */
  function Step(m: Mode, c: char): (Mode, string) {
    match m
    case Ground => FromGround(c)
    case Escape => (if c == '[' then Csi else if c == ']' then Osc else Ground, "")
    case Csi => (if IsCsiFinal(c) then Ground else Csi, "")
    case Osc => (if c == BEL then Ground else if c == ESC then OscEscape else Osc, "")
    case OscEscape => if c == '\\' then (Ground, "") else FromGround(c)
  }

  function Run(m: Mode, s: string): string
    decreases |s|
  {
    if s == "" then "" else Step(m, s[0]).1 + Run(Step(m, s[0]).0, s[1..])
  }

  function Strip(s: string): string {
    Run(Ground, s)
  }

  // ---- the stripper as written ----

  /** `strip_controls`; `pos` is the state of the character iterator. */
  method StripControls(input: string) returns (out: string)
    ensures out == Strip(input)
  {
    out := "";
    var pos := 0;
    ghost var all := Strip(input);
    assert input[0..] == input && "" + all == all;
    while pos < |input|
      invariant 0 <= pos <= |input|
      invariant all == out + Run(Ground, input[pos..])
    {
      var c := input[pos];
      RunGround(input, pos, out);
      pos := pos + 1;
      if c == ESC {
        pos := ConsumeEscape(input, pos);
      } else if c == C1_CSI {
        pos := ConsumeCsiBody(input, pos);
      } else if c == '\n' || c == '\t' {
        out := out + [c];
      } else if IsStrippable(c) {
      } else {
        out := out + [c];
      }
    }
  }

  lemma RunGround(input: string, pos: nat, out: string)
    requires pos < |input|
    ensures var (m, x) := FromGround(input[pos]);
            out + Run(Ground, input[pos..]) == (out + x) + Run(m, input[pos + 1..])
    ensures out + "" == out
  {
    assert input[pos..][1..] == input[pos + 1..];
  }

  /** `consume_escape`. */
  method ConsumeEscape(input: string, pos0: nat) returns (pos: nat)
    requires pos0 <= |input|
    ensures pos0 <= pos <= |input| && Run(Escape, input[pos0..]) == Run(Ground, input[pos..])
  {
    pos := pos0;
    if pos < |input| {
      assert input[pos..][1..] == input[pos + 1..];
      if input[pos] == '[' {
        pos := ConsumeCsiBody(input, pos + 1);
      } else if input[pos] == ']' {
        pos := ConsumeOscBody(input, pos + 1);
      } else {
        pos := pos + 1;
      }
    }
  }

  /** `consume_csi_body`. */
  method ConsumeCsiBody(input: string, pos0: nat) returns (pos: nat)
    requires pos0 <= |input|
    ensures pos0 <= pos <= |input| && Run(Csi, input[pos0..]) == Run(Ground, input[pos..])
  {
    pos := pos0;
    while pos < |input|
      invariant pos0 <= pos <= |input| && Run(Csi, input[pos0..]) == Run(Csi, input[pos..])
    {
      assert input[pos..][1..] == input[pos + 1..];
      pos := pos + 1;
      if IsCsiFinal(input[pos - 1]) { return; }
    }
  }

  /** `consume_osc_body`. */
  method ConsumeOscBody(input: string, pos0: nat) returns (pos: nat)
    requires pos0 <= |input|
    ensures pos0 <= pos <= |input| && Run(Osc, input[pos0..]) == Run(Ground, input[pos..])
  {
    pos := pos0;
    while pos < |input|
      invariant pos0 <= pos <= |input| && Run(Osc, input[pos0..]) == Run(Osc, input[pos..])
    {
      var c := input[pos];
      assert input[pos..][1..] == input[pos + 1..];
      pos := pos + 1;
      if c == BEL { return; }
      if c == ESC {
        if pos < |input| && input[pos] == '\\' {
          assert input[pos..][1..] == input[pos + 1..];
          pos := pos + 1;
        }
        return;
      }
    }
  }

  // ---- what stripping guarantees ----

  /** The output is a control-free subsequence of the input. */
  lemma {:induction false} StripsToHarmless(m: Mode, s: string)
    ensures AllHarmless(Run(m, s)) && Subsequence(Run(m, s), s)
    decreases |s|
  {
    if s == "" {
    } else {
      var (m', out) := Step(m, s[0]);
      StripsToHarmless(m', s[1..]);
      if out == "" {
        assert Run(m, s) == Run(m', s[1..]);
        SubsequenceOfLonger(Run(m, s), s);
      } else {
        assert out == [s[0]] && Run(m, s)[1..] == Run(m', s[1..]);
      }
    }
  }

  /** The characters that survive when no escape sequence is open. */
  function Filter(s: string): string {
    if s == "" then "" else (if Harmless(s[0]) then [s[0]] else "") + Filter(s[1..])
  }

  /** Without sequence introducers, exactly the harmful characters are dropped. */
  lemma {:induction false} StripFilters(s: string)
    requires ESC !in s && C1_CSI !in s
    ensures Strip(s) == Filter(s)
  {
    if s == "" {
    } else {
      StripFilters(s[1..]);
    }
  }

  lemma {:induction false} FilterKeeps(s: string)
    requires AllHarmless(s)
    ensures Filter(s) == s
  {
    if s == "" {
    } else {
      FilterKeeps(s[1..]);
      assert s == [s[0]] + s[1..];
    }
  }

  /** Text is left alone if and only if it is control-free; stripping is idempotent. */
  lemma StripFixpoint(s: string)
    ensures Strip(s) == s <==> AllHarmless(s)
    ensures Strip(Strip(s)) == Strip(s)
  {
    StripsToHarmless(Ground, s);
    if AllHarmless(s) {
      StripFilters(s);
      FilterKeeps(s);
    }
    StripFilters(Strip(s));
    FilterKeeps(Strip(s));
  }

  // ---- capping ----

  const CAP_MARKER := "\U{2026}[truncated]"

  lemma MarkerText()
    ensures CAP_MARKER[0] == '\U{2026}' && CAP_MARKER[1..] == "[truncated]"
  {}

  lemma MarkerIsHarmless()
    ensures AllHarmless("[truncated]") && Harmless('\U{2026}')
    ensures forall i :: 0 <= i < 11 ==> "[truncated]"[i] as int < 0x80
  {}

  lemma MarkerFacts()
    ensures Bytes(CAP_MARKER) == 14 && AllHarmless(CAP_MARKER)
  {
    MarkerText();
    MarkerIsHarmless();
    AsciiBytes("[truncated]");
    HeadAndTail(CAP_MARKER);
  }

  lemma HeadAndTail(s: string)
    requires s != ""
    ensures Bytes(s) == CharBytes(s[0]) + Bytes(s[1..])
    ensures Harmless(s[0]) && AllHarmless(s[1..]) ==> AllHarmless(s)
  {
    assert s == [s[0]] + s[1..];
  }

  lemma {:induction false} BytesConcat(a: string, b: string)
    ensures Bytes(a + b) == Bytes(a) + Bytes(b)
  {
    if a == "" {
      assert a + b == b;
    } else {
      BytesConcat(a[1..], b);
      assert (a + b)[1..] == a[1..] + b;
    }
  }

  /** The number of characters in the first `end` bytes, if byte `end` is a character boundary. */
  function CharsBefore(s: string, end: nat): (k: Option<nat>)
    ensures k.Some? ==> k.value <= |s| && Bytes(s[..k.value]) == end
    decreases |s|
  {
    if end == 0 then Some(0)
    else if s == "" || CharBytes(s[0]) > end then None
    else
      var k := CharsBefore(s[1..], end - CharBytes(s[0]));
      if k.None? then None else
        assert s[..k.value + 1][1..] == s[1..][..k.value];
        Some(k.value + 1)
  }

  /** The longest whole-character prefix of at most `max` bytes. */
  function FittingPrefix(s: string, max: nat): (k: nat)
    ensures k <= |s| && Bytes(s[..k]) <= max
    decreases |s|
  {
    if s == "" || CharBytes(s[0]) > max then 0
    else
      var k := FittingPrefix(s[1..], max - CharBytes(s[0]));
      assert s[..k + 1][1..] == s[1..][..k];
      k + 1
  }

  /** Nothing longer fits. */
  lemma {:induction false} FittingIsLongest(s: string, max: nat, j: nat)
    requires j <= |s| && Bytes(s[..j]) <= max
    ensures j <= FittingPrefix(s, max)
  {
    if j == 0 {
    } else {
      assert s[..j][1..] == s[1..][..j - 1];
      FittingIsLongest(s[1..], max - CharBytes(s[0]), j - 1);
    }
  }

  lemma {:induction false} BoundaryFound(s: string, k: nat)
    requires k <= |s|
    ensures CharsBefore(s, Bytes(s[..k])) == Some(k)
  {
    if k == 0 {
    } else {
      assert s[..k][1..] == s[1..][..k - 1];
      BoundaryFound(s[1..], k - 1);
    }
  }

  /** `while end > 0 && !s.is_char_boundary(end) { end -= 1; }` followed by the slice. */
  method SliceAtBoundary(s: string, max: nat) returns (r: string)
    ensures r == s[..FittingPrefix(s, max)]
  {
    ghost var k := FittingPrefix(s, max);
    var end := max;
    BoundaryFound(s, k);
    while end > 0 && CharsBefore(s, end).None?
      invariant Bytes(s[..k]) <= end <= max
    {
      end := end - 1;
    }
    var n := CharsBefore(s, end).value;
    FittingIsLongest(s, max, n);
    if n < k { PrefixBytes(s, n, k); }
    r := s[..n];
  }

  lemma {:induction false} PrefixBytes(s: string, j: nat, k: nat)
    requires j < k <= |s|
    ensures Bytes(s[..j]) < Bytes(s[..k])
  {
    assert s[..k][1..] == s[1..][..k - 1];
    if j == 0 {
    } else {
      assert s[..j][1..] == s[1..][..j - 1];
      PrefixBytes(s[1..], j - 1, k - 1);
    }
  }

  function Capped(s: string, max: nat): string {
    CappedWith(CAP_MARKER, s, max)
  }

  function CappedWith(marker: string, s: string, max: nat): string {
    if Bytes(s) <= max then s
    else if max < Bytes(marker) then marker[..FittingPrefix(marker, max)]
    else s[..FittingPrefix(s, max - Bytes(marker))] + marker
  }

  /** `cap`. */
  method Cap(s: string, max: nat) returns (r: string)
    ensures r == Capped(s, max)
  {
    r := CapWith(CAP_MARKER, s, max);
  }

  method CapWith(marker: string, s: string, max: nat) returns (r: string)
    ensures r == CappedWith(marker, s, max)
  {
    if Bytes(s) <= max { return s; }
    if max < Bytes(marker) {
      r := SliceAtBoundary(marker, max);
    } else {
      r := SliceAtBoundary(s, max - Bytes(marker));
      r := r + marker;
    }
  }

  /** `sanitize`. */
  function Sanitized(s: string, max: nat): string {
    Capped(Strip(s), max)
  }

  lemma CappedFits(s: string, max: nat)
    ensures Bytes(Capped(s, max)) <= max
    ensures AllHarmless(s) ==> AllHarmless(Capped(s, max))
  {
    MarkerFacts();
    CappedWithFits(CAP_MARKER, s, max);
  }

  lemma CappedWithFits(marker: string, s: string, max: nat)
    requires AllHarmless(marker)
    ensures Bytes(CappedWith(marker, s, max)) <= max
    ensures AllHarmless(s) ==> AllHarmless(CappedWith(marker, s, max))
  {
    if Bytes(s) > max && max >= Bytes(marker) {
      BytesConcat(s[..FittingPrefix(s, max - Bytes(marker))], marker);
    }
  }

  /** Sanitised text is control-free, at most `max` bytes, and sanitising it again changes nothing. */
  lemma SanitizeSettles(s: string, max: nat)
    ensures AllHarmless(Sanitized(s, max)) && Bytes(Sanitized(s, max)) <= max
    ensures Sanitized(Sanitized(s, max), max) == Sanitized(s, max)
  {
    StripsToHarmless(Ground, s);
    CappedFits(Strip(s), max);
    StripFixpoint(Sanitized(s, max));
  }

  /** What is kept of a text that is cut is its longest prefix that leaves room for the marker. */
  lemma CutIsTight(marker: string, s: string, max: nat, j: nat)
    requires j <= |s| && Bytes(s) > max && Bytes(marker) + Bytes(s[..j]) <= max
    ensures var k := FittingPrefix(s, max - Bytes(marker)); j <= k && CappedWith(marker, s, max) == s[..k] + marker
  {
    FittingIsLongest(s, max - Bytes(marker), j);
  }

  // ---- escaping: one character at a time ----

  function Concat(enc: char -> string, s: string): string {
    if s == "" then "" else enc(s[0]) + Concat(enc, s[1..])
  }

  function Mapped(g: char -> char, s: string): string {
    if s == "" then "" else [g(s[0])] + Mapped(g, s[1..])
  }

  /** The loop every escaper runs over its sanitised base. */
  method EscapeWith(enc: char -> string, base: string) returns (out: string)
    ensures out == Concat(enc, base)
  {
    out := "";
    for i := 0 to |base|
      invariant Concat(enc, base) == out + Concat(enc, base[i..])
    {
      assert base[i..][1..] == base[i + 1..];
      assert (out + enc(base[i])) + Concat(enc, base[i + 1..]) == out + (enc(base[i]) + Concat(enc, base[i + 1..]));
      out := out + enc(base[i]);
    }
  }

  function XmlTextChar(c: char): string {
    match c case '&' => "&amp;" case '<' => "&lt;" case '>' => "&gt;" case _ => [c]
  }

  function XmlAttrChar(c: char): string {
    match c
    case '\n' => " " case '\t' => " " case '\r' => " "
    case '&' => "&amp;" case '<' => "&lt;" case '>' => "&gt;" case '"' => "&quot;" case '\'' => "&apos;"
    case _ => [c]
  }

  /** CommonMark punctuation that `md_inline` backslash-escapes. */
  predicate IsMdPunctuation(c: char) {
    c in {'\\', '`', '*', '_', '{', '}', '[', ']', '(', ')', '#', '+', '-', '.', '!', '|', '~'}
  }

  function MdInlineChar(c: char): string {
    if c == '\n' || c == '\r' then " "
    else if c == '&' then "&amp;" else if c == '<' then "&lt;" else if c == '>' then "&gt;"
    else if IsMdPunctuation(c) then ['\\', c]
    else [c]
  }

  /** Line ends and tabs of an attribute, line ends of inline Markdown, as a reader gets them back. */
  function AttrBlank(c: char): char { if c == '\n' || c == '\t' || c == '\r' then ' ' else c }

  function LineBlank(c: char): char { if c == '\n' || c == '\r' then ' ' else c }

  /** `xml_text`, `xml_attr` and `md_inline`. */
  method XmlText(s: string, max: nat) returns (out: string)
    ensures out == Concat(XmlTextChar, Sanitized(s, max)) && DecodeXml(out) == Sanitized(s, max)
    ensures '<' !in out && '>' !in out
    ensures AllXml(out) <==> NoNoncharacters(Sanitized(s, max))
  {
    var base := StripControls(s);
    base := Cap(base, max);
    out := EscapeWith(XmlTextChar, base);
    XmlTextDecodes(base);
    SanitizeSettles(s, max);
    XmlTextLegal(base);
  }

  method XmlAttr(s: string, max: nat) returns (out: string)
    ensures out == Concat(XmlAttrChar, Sanitized(s, max)) && DecodeXml(out) == Mapped(AttrBlank, Sanitized(s, max))
    ensures forall x :: x in out ==>
      x != '<' && x != '>' && x != '"' && x != '\'' && x != '\n' && x != '\t' && x != '\r'
    ensures AllXml(out) <==> NoNoncharacters(Sanitized(s, max))
  {
    var base := StripControls(s);
    base := Cap(base, max);
    out := EscapeWith(XmlAttrChar, base);
    XmlAttrDecodes(base);
    SanitizeSettles(s, max);
    XmlAttrLegal(base);
  }

  method MdInline(s: string, max: nat) returns (out: string)
    ensures out == Concat(MdInlineChar, Sanitized(s, max)) && DecodeMd(out) == Mapped(LineBlank, Sanitized(s, max))
    ensures forall x :: x in out ==> x != '<' && x != '>' && x != '\n' && x != '\r'
    ensures Guarded(out)
  {
    var base := StripControls(s);
    base := Cap(base, max);
    out := EscapeWith(MdInlineChar, base);
    MdInlineDecodes(base);
    MdInlineGuarded(base);
  }

  // ---- which characters are left ----

  /** Char of XML 1.0, section 2.2. */
  predicate IsXmlChar(c: char) {
    || c == '\t' || c == '\n' || c == '\r'
    || ' ' <= c <= '\U{D7FF}'
    || '\U{E000}' <= c <= '\U{FFFD}'
    || '\U{10000}' <= c <= '\U{10FFFF}'
  }

  predicate AllXml(s: string) {
    forall c :: c in s ==> IsXmlChar(c)
  }

  predicate NoNoncharacters(s: string) {
    '\U{FFFE}' !in s && '\U{FFFF}' !in s
  }

  /** Stripping leaves exactly two characters in that XML does not have. */
  lemma HarmlessIsXml(c: char)
    requires Harmless(c)
    ensures IsXmlChar(c) <==> c != '\U{FFFE}' && c != '\U{FFFF}'
  {}

  lemma NoncharacterPasses()
    ensures Strip("\U{FFFE}") == "\U{FFFE}" && !AllXml(Strip("\U{FFFE}"))
  {
    var s := "\U{FFFE}";
    assert forall c :: c in s ==> Harmless(c);
    StripFixpoint(s);
    assert s[0] in s && !IsXmlChar(s[0]);
  }

  lemma AllXmlConcat(a: string, b: string)
    ensures AllXml(a + b) <==> AllXml(a) && AllXml(b)
  {
    assert forall c :: c in a + b <==> c in a || c in b;
  }

  lemma NoncharactersConcat(c: char, t: string)
    ensures NoNoncharacters([c] + t) <==> c != '\U{FFFE}' && c != '\U{FFFF}' && NoNoncharacters(t)
  {
    assert forall x :: x in [c] + t <==> x == c || x in t;
  }

  lemma XmlTextCharLegal(c: char)
    requires Harmless(c)
    ensures AllXml(XmlTextChar(c)) <==> IsXmlChar(c)
  {
    if XmlTextChar(c) == [c] { assert c in [c]; }
  }

  lemma XmlAttrCharLegal(c: char)
    requires Harmless(c)
    ensures AllXml(XmlAttrChar(c)) <==> IsXmlChar(c)
  {
    if XmlAttrChar(c) == [c] { assert c in [c]; }
  }

  lemma {:induction false} XmlTextLegal(base: string)
    requires AllHarmless(base)
    ensures AllXml(Concat(XmlTextChar, base)) <==> NoNoncharacters(base)
  {
    if base == "" {
    } else {
      var c, rest := base[0], base[1..];
      assert base == [c] + rest && c in base && forall x :: x in rest ==> x in base;
      XmlTextLegal(rest);
      HarmlessIsXml(c);
      XmlTextCharLegal(c);
      AllXmlConcat(XmlTextChar(c), Concat(XmlTextChar, rest));
      NoncharactersConcat(c, rest);
    }
  }

  lemma {:induction false} XmlAttrLegal(base: string)
    requires AllHarmless(base)
    ensures AllXml(Concat(XmlAttrChar, base)) <==> NoNoncharacters(base)
  {
    if base == "" {
    } else {
      var c, rest := base[0], base[1..];
      assert base == [c] + rest && c in base && forall x :: x in rest ==> x in base;
      XmlAttrLegal(rest);
      HarmlessIsXml(c);
      XmlAttrCharLegal(c);
      AllXmlConcat(XmlAttrChar(c), Concat(XmlAttrChar, rest));
      NoncharactersConcat(c, rest);
    }
  }

  /** Every active character stands behind a backslash that is not itself escaped. */
  predicate Guarded(s: string)
    decreases |s|
  {
    if s == "" then true
    else if s[0] == '\\' then |s| > 1 && Guarded(s[2..])
    else !IsMdPunctuation(s[0]) && Guarded(s[1..])
  }

  lemma {:induction false} PlainGuarded(a: string, t: string)
    requires Guarded(t) && forall c :: c in a ==> !IsMdPunctuation(c)
    ensures Guarded(a + t)
  {
    if a == "" {
      assert a + t == t;
    } else {
      assert a[0] in a && (a + t)[1..] == a[1..] + t;
      PlainGuarded(a[1..], t);
    }
  }

  lemma EscapedGuarded(c: char, t: string)
    requires Guarded(t)
    ensures Guarded(['\\', c] + t)
  {
    assert (['\\', c] + t)[2..] == t;
  }

  lemma {:induction false} MdInlineGuarded(base: string)
    ensures Guarded(Concat(MdInlineChar, base))
  {
    if base == "" {
    } else {
      var c, t := base[0], Concat(MdInlineChar, base[1..]);
      MdInlineGuarded(base[1..]);
      if MdInlineChar(c) == ['\\', c] {
        EscapedGuarded(c, t);
      } else {
        PlainGuarded(MdInlineChar(c), t);
      }
    }
  }

  // ---- unescaping: what a reader of the format does ----

  /** The predefined entities of XML 1.0, section 4.6: the character and the length of the reference. */
  function Entity(s: string): Option<(char, nat)> {
    if "&amp;" <= s then Some(('&', 5))
    else if "&lt;" <= s then Some(('<', 4))
    else if "&gt;" <= s then Some(('>', 4))
    else if "&quot;" <= s then Some(('"', 6))
    else if "&apos;" <= s then Some(('\'', 6))
    else None
  }

  function DecodeXml(s: string): string
    decreases |s|
  {
    if s == "" then ""
    else
      var e := Entity(s);
      if e.Some? then [e.value.0] + DecodeXml(s[e.value.1..]) else [s[0]] + DecodeXml(s[1..])
  }

  /** ASCII punctuation, which a backslash escapes (CommonMark 0.31, section 2.4). */
  predicate IsAsciiPunctuation(c: char) {
    '!' <= c <= '/' || ':' <= c <= '@' || '[' <= c <= '`' || '{' <= c <= '~'
  }

  /** Backslash escapes and entity references of CommonMark 0.31, sections 2.4 and 2.5. */
  function DecodeMd(s: string): string
    decreases |s|
  {
    if s == "" then ""
    else if |s| > 1 && s[0] == '\\' && IsAsciiPunctuation(s[1]) then [s[1]] + DecodeMd(s[2..])
    else
      var e := Entity(s);
      if e.Some? then [e.value.0] + DecodeMd(s[e.value.1..]) else [s[0]] + DecodeMd(s[1..])
  }

  lemma PlainCharacter(c: char, t: string)
    requires c != '&'
    ensures DecodeXml([c] + t) == [c] + DecodeXml(t)
    ensures c != '\\' ==> DecodeMd([c] + t) == [c] + DecodeMd(t)
  {
    var s := [c] + t;
    assert s[0] == c && s[1..] == t;
    assert Entity(s).None?;
  }

  lemma Reference(r: string, c: char, t: string)
    requires (r, c) in {("&amp;", '&'), ("&lt;", '<'), ("&gt;", '>'), ("&quot;", '"'), ("&apos;", '\'')}
    ensures DecodeXml(r + t) == [c] + DecodeXml(t) && DecodeMd(r + t) == [c] + DecodeMd(t)
  {
    var s := r + t;
    assert s[0] == '&' && s[1] == r[1] && s[2] == r[2] && s[|r|..] == t;
    assert r <= s;
    assert Entity(s) == Some((c, |r|));
  }

  /** One encoded character in front of anything decodes to that character. */
  lemma XmlTextStep(c: char, t: string)
    ensures DecodeXml(XmlTextChar(c) + t) == [c] + DecodeXml(t)
    ensures '<' !in XmlTextChar(c) && '>' !in XmlTextChar(c)
  {
    if c == '&' || c == '<' || c == '>' { Reference(XmlTextChar(c), c, t); } else { PlainCharacter(c, t); }
  }

  lemma XmlAttrStep(c: char, t: string)
    ensures DecodeXml(XmlAttrChar(c) + t) == [AttrBlank(c)] + DecodeXml(t)
  {
    if c in {'&', '<', '>', '"', '\''} { Reference(XmlAttrChar(c), c, t); } else { PlainCharacter(AttrBlank(c), t); }
  }

  lemma XmlAttrSafe(c: char)
    ensures forall x :: x in XmlAttrChar(c) ==>
      x != '<' && x != '>' && x != '"' && x != '\'' && x != '\n' && x != '\t' && x != '\r'
  {}

  lemma MdInlineStep(c: char, t: string)
    ensures DecodeMd(MdInlineChar(c) + t) == [LineBlank(c)] + DecodeMd(t)
    ensures forall x :: x in MdInlineChar(c) ==> x != '<' && x != '>' && x != '\n' && x != '\r'
  {
    if c in {'&', '<', '>'} {
      Reference(MdInlineChar(c), c, t);
    } else if IsMdPunctuation(c) {
      var s := ['\\', c] + t;
      assert s[0] == '\\' && s[1] == c && s[2..] == t;
    } else {
      PlainCharacter(LineBlank(c), t);
    }
  }

  /** Encoding then decoding gives every text back. */
  lemma {:induction false} XmlTextDecodes(base: string)
    ensures DecodeXml(Concat(XmlTextChar, base)) == base
    ensures '<' !in Concat(XmlTextChar, base) && '>' !in Concat(XmlTextChar, base)
  {
    if base == "" {
    } else {
      XmlTextDecodes(base[1..]);
      XmlTextStep(base[0], Concat(XmlTextChar, base[1..]));
      assert base == [base[0]] + base[1..];
    }
  }

  lemma {:induction false} XmlAttrDecodes(base: string)
    ensures DecodeXml(Concat(XmlAttrChar, base)) == Mapped(AttrBlank, base)
    ensures forall x :: x in Concat(XmlAttrChar, base) ==>
      x != '<' && x != '>' && x != '"' && x != '\'' && x != '\n' && x != '\t' && x != '\r'
  {
    if base == "" {
    } else {
      XmlAttrDecodes(base[1..]);
      XmlAttrStep(base[0], Concat(XmlAttrChar, base[1..]));
      XmlAttrSafe(base[0]);
    }
  }

  lemma {:induction false} MdInlineDecodes(base: string)
    ensures DecodeMd(Concat(MdInlineChar, base)) == Mapped(LineBlank, base)
    ensures forall x :: x in Concat(MdInlineChar, base) ==> x != '<' && x != '>' && x != '\n' && x != '\r'
  {
    if base == "" {
    } else {
      MdInlineDecodes(base[1..]);
      MdInlineStep(base[0], Concat(MdInlineChar, base[1..]));
    }
  }

  // ---- fenced code ----

  function Repeat(n: nat, c: char): (r: string)
    ensures |r| == n && forall i :: 0 <= i < n ==> r[i] == c
  {
    seq(n, _ => c)
  }

  /** A run with a zero-width space behind every character. */
  function Broken(n: nat, c: char): (r: string)
    ensures |r| == 2 * n && forall i :: 0 <= i < n ==> r[2 * i] == c && r[2 * i + 1] == ZERO_WIDTH_SPACE
  {
    if n == 0 then "" else Broken(n - 1, c) + [c, ZERO_WIDTH_SPACE]
  }

  function Flushed(n: nat, c: char): string {
    if n >= 3 then Broken(n, c) else Repeat(n, c)
  }

  ghost predicate NoTriple(s: string, c: char) {
    forall i :: 0 <= i && i + 2 < |s| ==> s[i] != c || s[i + 1] != c || s[i + 2] != c
  }

  ghost predicate EndsOff(s: string, c: char) {
    s == "" || s[|s| - 1] != c
  }

  /** The closure `flush`. */
  method Flush(out0: string, n: nat, c: char) returns (out: string)
    ensures out == out0 + Flushed(n, c)
  {
    out := out0;
    if n >= 3 {
      for i := 0 to n
        invariant out == out0 + Broken(i, c)
      {
        assert out0 + Broken(i, c) + [c, ZERO_WIDTH_SPACE] == out0 + Broken(i + 1, c);
        out := out + [c];
        out := out + [ZERO_WIDTH_SPACE];
      }
    } else {
      for i := 0 to n
        invariant out == out0 + Repeat(i, c)
      {
        assert Repeat(i, c) + [c] == Repeat(i + 1, c);
        out := out + [c];
      }
    }
  }

  ghost predicate Open(s: string) {
    NoTriple(s, '`') && NoTriple(s, '~')
  }

  /** What holds of the output for `done` while `backticks` or `tildes` are pending. */
  ghost predicate Pending(done: string, out: string, backticks: nat, tildes: nat) {
    && Open(out) && ESC !in out && C1_CSI !in out
    && (backticks == 0 || tildes == 0)
    && (tildes > 0 || EndsOff(out, '`')) && (backticks > 0 || EndsOff(out, '~'))
    && done == Filter(out) + (Repeat(backticks, '`') + Repeat(tildes, '~'))
    && (Open(done) ==> done == out + (Repeat(backticks, '`') + Repeat(tildes, '~')))
  }

  /** `md_code_block`: no run of three of either fence character, and nothing lost but zero-width spaces. */
  method MdCodeBlock(s: string, max: nat) returns (out: string)
    ensures Open(out)
    ensures Strip(out) == Sanitized(s, max)
    ensures Open(Sanitized(s, max)) ==> out == Sanitized(s, max)
  {
    var base := StripControls(s);
    base := Cap(base, max);
    SanitizeSettles(s, max);
    out := CodeBlockOf(base);
  }

  /** Its loop, on the sanitised text. */
  method CodeBlockOf(base: string) returns (out: string)
    requires AllHarmless(base)
    ensures Open(out) && Strip(out) == base && (Open(base) ==> out == base)
  {
    out := "";
    var backticks: nat, tildes: nat := 0, 0;
    NothingPending();
    for i := 0 to |base|
      invariant Pending(base[..i], out, backticks, tildes)
    {
      assert base[..i + 1] == base[..i] + [base[i]] && base[i] in base;
      out, backticks, tildes := CodeChar(base[..i], out, backticks, tildes, base[i]);
    }
    assert base[..|base|] == base;
    ghost var last := out + Flushed(backticks, '`') + Flushed(tildes, '~');
    FlushBoth(base, out, backticks, tildes);
    StripFilters(last);
    out := Flush(out, backticks, '`');
    out := Flush(out, tildes, '~');
  }

  /** One iteration of its loop. */
  method CodeChar(ghost done: string, out0: string, backticks0: nat, tildes0: nat, c: char)
    returns (out: string, backticks: nat, tildes: nat)
    requires Pending(done, out0, backticks0, tildes0) && Harmless(c)
    ensures Pending(done + [c], out, backticks, tildes)
  {
    if c == '`' {
      out := Flush(out0, tildes0, '~');
      tildes, backticks := 0, backticks0 + 1;
      StepTick(done, out0, backticks0, tildes0);
    } else if c == '~' {
      out := Flush(out0, backticks0, '`');
      backticks, tildes := 0, tildes0 + 1;
      StepTilde(done, out0, backticks0, tildes0);
    } else {
      out := Flush(out0, backticks0, '`');
      out := Flush(out, tildes0, '~');
      backticks, tildes := 0, 0;
      out := out + [c];
      StepOther(done, out0, backticks0, tildes0, c);
    }
  }

  lemma NothingPending()
    ensures Pending("", "", 0, 0)
  {}

  lemma {:induction false} FilterConcat(a: string, b: string)
    ensures Filter(a + b) == Filter(a) + Filter(b)
  {
    if a == "" {
      assert a + b == b;
    } else {
      FilterConcat(a[1..], b);
      assert (a + b)[1..] == a[1..] + b && (a + b)[0] == a[0];
      Associative(if Harmless(a[0]) then [a[0]] else "", Filter(a[1..]), Filter(b));
    }
  }

  lemma FilterTwo(c: char)
    requires c == '`' || c == '~'
    ensures Filter([c, ZERO_WIDTH_SPACE]) == [c]
  {
    FilterConcat([c], [ZERO_WIDTH_SPACE]);
    assert [c] + [ZERO_WIDTH_SPACE] == [c, ZERO_WIDTH_SPACE];
    assert [c][1..] == "" && [ZERO_WIDTH_SPACE][1..] == "";
  }

  lemma {:induction false} FilterBroken(n: nat, c: char)
    requires c == '`' || c == '~'
    ensures Filter(Broken(n, c)) == Repeat(n, c)
  {
    if n == 0 {
    } else {
      FilterBroken(n - 1, c);
      FilterConcat(Broken(n - 1, c), [c, ZERO_WIDTH_SPACE]);
      FilterTwo(c);
      assert Repeat(n - 1, c) + [c] == Repeat(n, c);
    }
  }

  ghost predicate StartsOff(s: string, c: char) {
    s == "" || s[0] != c
  }

  /** Two texts that do not touch in `c` have no run of three where they meet. */
  lemma JoinNoTriple(a: string, b: string, c: char)
    requires NoTriple(a, c) && NoTriple(b, c) && (EndsOff(a, c) || StartsOff(b, c))
    ensures NoTriple(a + b, c)
  {
    var s := a + b;
    forall i | 0 <= i && i + 2 < |s| ensures s[i] != c || s[i + 1] != c || s[i + 2] != c {
      if i >= |a| {
        assert s[i] == b[i - |a|] && s[i + 1] == b[i - |a| + 1] && s[i + 2] == b[i - |a| + 2];
      } else if i + 2 >= |a| {
        assert s[|a| - 1] == a[|a| - 1] && s[|a|] == b[0];
      }
    }
  }

  /** A flushed run is open, holds only its own character and zero-width spaces, and loses nothing to the filter. */
  lemma FlushedFacts(n: nat, c: char)
    requires c == '`' || c == '~'
    ensures Filter(Flushed(n, c)) == Repeat(n, c) && (n < 3 ==> Flushed(n, c) == Repeat(n, c))
    ensures forall x :: x in Flushed(n, c) ==> x == c || x == ZERO_WIDTH_SPACE
    ensures Open(Flushed(n, c)) && (n > 0 ==> Flushed(n, c) != "")
  {
    if n >= 3 {
      FilterBroken(n, c);
      var r := Broken(n, c);
      forall i | 0 <= i < |r| ensures r[i] == if i % 2 == 0 then c else ZERO_WIDTH_SPACE {
        assert i == 2 * (i / 2) || i == 2 * (i / 2) + 1;
      }
    } else {
      FilterKeeps(Repeat(n, c));
    }
  }

  function Other(c: char): char {
    if c == '`' then '~' else '`'
  }

  /** Writing a pending run behind a text that does not end in its character. */
  lemma FlushKeeps(out: string, n: nat, c: char)
    requires (c == '`' || c == '~') && Open(out) && (n > 0 ==> EndsOff(out, c)) && ESC !in out && C1_CSI !in out
    ensures var r := out + Flushed(n, c);
            && Open(r) && ESC !in r && C1_CSI !in r && Filter(r) == Filter(out) + Repeat(n, c)
            && (n > 0 ==> EndsOff(r, Other(c))) && (n == 0 ==> r == out)
            && (n < 3 ==> r == out + Repeat(n, c))
  {
    FlushedFacts(n, c);
    FilterConcat(out, Flushed(n, c));
    FlushStaysOpen(out, Flushed(n, c), n, c);
  }

  lemma FlushStaysOpen(out: string, f: string, n: nat, c: char)
    requires (c == '`' || c == '~') && Open(out) && Open(f) && (n > 0 ==> EndsOff(out, c) && f != "")
      && (n == 0 ==> f == "")
    requires forall x :: x in f ==> x == c || x == ZERO_WIDTH_SPACE
    ensures Open(out + f) && (n > 0 ==> EndsOff(out + f, Other(c)))
    ensures ESC !in out && C1_CSI !in out ==> ESC !in out + f && C1_CSI !in out + f
  {
    if f == "" {
      assert out + f == out;
    } else {
      assert f[0] in f && f[|f| - 1] in f;
      JoinNoTriple(out, f, c);
      JoinNoTriple(out, f, Other(c));
    }
  }

  lemma RunIsLong(out: string, n: nat, c: char)
    requires n >= 3
    ensures !NoTriple(out + Repeat(n, c), c)
  {
    var s, k := out + Repeat(n, c), |out|;
    assert s[k] == c && s[k + 1] == c && s[k + 2] == c;
  }

  lemma RunIsShort(done: string, out: string, n: nat, c: char)
    requires done == out + Repeat(n, c) && NoTriple(done, c)
    ensures n < 3
  {
    if n >= 3 { RunIsLong(out, n, c); }
  }

  lemma Empties(b: nat, t: nat)
    ensures b == 0 ==> Repeat(b, '`') + Repeat(t, '~') == Repeat(t, '~')
    ensures t == 0 ==> Repeat(b, '`') + Repeat(t, '~') == Repeat(b, '`')
  {}

  /** Both pending runs written out: everything done so far, and still open. */
  lemma FlushBoth(done: string, out: string, b: nat, t: nat)
    requires Pending(done, out, b, t)
    ensures var r := out + Flushed(b, '`') + Flushed(t, '~');
            && Open(r) && Filter(r) == done && ESC !in r && C1_CSI !in r
            && (Open(done) ==> r == done)
  {
    Empties(b, t);
    FlushKeeps(out, b, '`');
    FlushKeeps(out + Flushed(b, '`'), t, '~');
    if Open(done) && b > 0 { RunIsShort(done, out, b, '`'); }
    if Open(done) && b == 0 { RunIsShort(done, out, t, '~'); }
    assert t == 0 ==> Repeat(t, '~') == "";
    assert b == 0 ==> Repeat(b, '`') == "";
    assert Filter(out) + "" == Filter(out);
  }

  lemma OpenPrefix(s: string, c: char)
    requires Open(s + [c])
    ensures Open(s)
  {
    assert forall i :: 0 <= i < |s| ==> (s + [c])[i] == s[i];
  }

  /** A fence character ends a run of the other kind and extends its own. */
  lemma StepTick(done: string, out: string, b: nat, t: nat)
    requires Pending(done, out, b, t)
    ensures Pending(done + ['`'], out + Flushed(t, '~'), b + 1, 0)
  {
    Empties(b, t);
    Empties(b + 1, 0);
    FlushKeeps(out, t, '~');
    var r := out + Flushed(t, '~');
    Extends(done, b, '`', Filter(r));
    if Open(done + ['`']) {
      OpenPrefix(done, '`');
      if t > 0 { RunIsShort(done, out, t, '~'); }
      Extends(done, b, '`', r);
    }
  }

  lemma StepTilde(done: string, out: string, b: nat, t: nat)
    requires Pending(done, out, b, t)
    ensures Pending(done + ['~'], out + Flushed(b, '`'), 0, t + 1)
  {
    Empties(b, t);
    Empties(0, t + 1);
    FlushKeeps(out, b, '`');
    var r := out + Flushed(b, '`');
    Extends(done, t, '~', Filter(r));
    if Open(done + ['~']) {
      OpenPrefix(done, '~');
      if b > 0 { RunIsShort(done, out, b, '`'); }
      Extends(done, t, '~', r);
    }
  }

  lemma Extends(done: string, n: nat, c: char, base: string)
    ensures done == base + Repeat(n, c) ==> done + [c] == base + Repeat(n + 1, c)
    ensures done == base && n == 0 ==> done + [c] == base + Repeat(n + 1, c)
  {
    assert Repeat(n, c) + [c] == Repeat(n + 1, c);
  }

  lemma StepOther(done: string, out: string, b: nat, t: nat, c: char)
    requires Pending(done, out, b, t) && Harmless(c) && c != '`' && c != '~'
    ensures Pending(done + [c], out + Flushed(b, '`') + Flushed(t, '~') + [c], 0, 0)
  {
    FlushBoth(done, out, b, t);
    var r := out + Flushed(b, '`') + Flushed(t, '~');
    FilterConcat(r, [c]);
    assert [c][1..] == "";
    Empties(0, 0);
    assert Repeat(0, '`') == "" && Filter(r + [c]) + "" == Filter(r + [c]) && (r + [c]) + "" == r + [c];
    if Open(done + [c]) { OpenPrefix(done, c); }
    OtherStaysOpen(r, c);
  }

  lemma OtherStaysOpen(r: string, c: char)
    requires Open(r) && c != '`' && c != '~'
    ensures Open(r + [c]) && EndsOff(r + [c], '`') && EndsOff(r + [c], '~')
  {
    JoinNoTriple(r, [c], '`');
    JoinNoTriple(r, [c], '~');
  }
}
