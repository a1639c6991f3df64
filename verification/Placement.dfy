/** Where a generated test goes, by language convention (`placement.rs`). */
module Placement {
  import opened Wrappers
  import opened Text
  import opened Paths
  import opened Decimal
  import opened Sequences
  import opened Targets

  const MAX_FRAGMENT := 64

  // ---- fragments ----

  predicate IsAlnum(c: char) {
    'a' <= c <= 'z' || 'A' <= c <= 'Z' || IsDigit(c)
  }

  function Fold(c: char): char {
    if IsAlnum(c) then c else '_'
  }

  /** Characters folded to the identifier set, runs of underscores made one. */
  function Collapsed(s: string): string {
    if s == "" then ""
    else
      var done := Collapsed(s[..|s| - 1]);
      var c := Fold(s[|s| - 1]);
      if c == '_' && done != "" && done[|done| - 1] == '_' then done else done + [c]
  }

  function TrimFront(s: string): string {
    if s != "" && s[0] == '_' then TrimFront(s[1..]) else s
  }

  function TrimBack(s: string): string {
    if s != "" && s[|s| - 1] == '_' then TrimBack(s[..|s| - 1]) else s
  }

  /** `sanitize_fragment`, stage by stage. */
  function Fragment(s: string): string {
    var trimmed := TrimBack(TrimFront(Take(Collapsed(s), MAX_FRAGMENT)));
    if trimmed == "" then "unit" else trimmed
  }

  /** A fragment as it comes out. */
  predicate Clean(s: string) {
    && 1 <= |s| <= MAX_FRAGMENT && s[0] != '_' && s[|s| - 1] != '_'
    && (forall k :: 0 <= k < |s| ==> IsAlnum(s[k]) || s[k] == '_')
    && (forall k :: 0 < k < |s| ==> s[k - 1] != '_' || s[k] != '_')
  }

  predicate Tidy(s: string) {
    && (forall k :: 0 <= k < |s| ==> IsAlnum(s[k]) || s[k] == '_')
    && (forall k :: 0 < k < |s| ==> s[k - 1] != '_' || s[k] != '_')
  }

  lemma {:induction false} CollapsedTidy(s: string)
    ensures Tidy(Collapsed(s))
  {
    if s == "" {
    } else {
      CollapsedTidy(s[..|s| - 1]);
    }
  }

  lemma {:induction false} CollapsedFixed(s: string)
    requires Tidy(s)
    ensures Collapsed(s) == s
  {
    if s == "" {
    } else {
      var init, c := s[..|s| - 1], s[|s| - 1];
      assert forall k :: 0 <= k < |init| ==> init[k] == s[k];
      CollapsedFixed(init);
      assert Fold(c) == c;
      assert c == '_' && init != "" ==> init[|init| - 1] != '_';
      assert s == init + [c];
    }
  }

  lemma {:induction false} TrimFrontTidy(s: string)
    requires Tidy(s)
    ensures Tidy(TrimFront(s)) && |TrimFront(s)| <= |s| && (TrimFront(s) != "" ==> TrimFront(s)[0] != '_')
  {
    if s != "" && s[0] == '_' { TrimFrontTidy(s[1..]); }
  }

  lemma {:induction false} TrimBackTidy(s: string)
    requires Tidy(s)
    ensures Tidy(TrimBack(s)) && TrimBack(s) <= s && (TrimBack(s) != "" ==> TrimBack(s)[|TrimBack(s)| - 1] != '_')
  {
    if s != "" && s[|s| - 1] == '_' { TrimBackTidy(s[..|s| - 1]); }
  }

  lemma FragmentClean(s: string)
    ensures Clean(Fragment(s))
  {
    CollapsedTidy(s);
    TakeTidy(Collapsed(s), MAX_FRAGMENT);
    TrimmedClean(Take(Collapsed(s), MAX_FRAGMENT));
  }

  lemma TakeTidy(s: string, n: nat)
    requires Tidy(s)
    ensures Tidy(Take(s, n)) && |Take(s, n)| <= n
  {}

  lemma TrimmedClean(s: string)
    requires Tidy(s) && |s| <= MAX_FRAGMENT
    ensures var trimmed := TrimBack(TrimFront(s)); Clean(if trimmed == "" then "unit" else trimmed)
  {
    TrimFrontTidy(s);
    TrimBackTidy(TrimFront(s));
  }

  /** Exactly the clean strings are left as they are. */
  lemma FragmentFixpoint(s: string)
    ensures Fragment(s) == s <==> Clean(s)
    ensures Fragment(Fragment(s)) == Fragment(s)
  {
    FragmentClean(s);
    if Clean(s) { CleanKept(s); }
    CleanKept(Fragment(s));
  }

  lemma CleanKept(s: string)
    requires Clean(s)
    ensures Fragment(s) == s
  {
    CollapsedFixed(s);
  }

  /** The loop of `sanitize_fragment`. */
  method SanitizeFragment(s: string) returns (r: string)
    ensures r == Fragment(s)
  {
    var out, lastUs := "", false;
    var i := 0;
    while i < |s|
      invariant 0 <= i <= |s| && out == Collapsed(s[..i]) && |out| < MAX_FRAGMENT
      invariant lastUs <==> out != "" && out[|out| - 1] == '_'
    {
      assert s[..i + 1][..i] == s[..i];
      var c := Fold(s[i]);
      i := i + 1;
      if c == '_' {
        if lastUs { continue; }
        lastUs := true;
      } else {
        lastUs := false;
      }
      out := out + [c];
      if |out| >= MAX_FRAGMENT { break; }
    }
    CollapsedPrefix(s, i);
    assert s[..|s|] == s;
    assert Take(Collapsed(s), MAX_FRAGMENT) == out;
    var trimmed := TrimBack(TrimFront(out));
    r := if trimmed == "" then "unit" else trimmed;
  }

  lemma {:induction false} CollapsedPrefix(s: string, n: nat)
    requires n <= |s|
    ensures Collapsed(s[..n]) <= Collapsed(s)
  {
    if n < |s| {
      CollapsedPrefix(s[..|s| - 1], n);
      assert s[..|s| - 1][..n] == s[..n];
    } else {
      assert s[..n] == s;
    }
  }

  // ---- paths ----

  function Capitalize(s: string): string {
    if s != "" && 'a' <= s[0] <= 'z' then [(s[0] as int - 32) as char] + s[1..] else s
  }

  function ComponentsOf(path: string): Path {
    Components(Split(path, '/'))
  }

  /** `dir_of`: the ordinary components before the last one. */
  function DirOf(path: string): Path {
    var p := ComponentsOf(path);
    if p == [] then [] else Normal(p[..|p| - 1])
  }

  function LastDot(s: string): (r: Option<nat>)
    ensures r.Some? ==> r.value < |s| && s[r.value] == '.' && '.' !in s[r.value + 1..]
    ensures r.None? ==> '.' !in s
  {
    if s == "" then None
    else if s[|s| - 1] == '.' then Some(|s| - 1)
    else
      var r := LastDot(s[..|s| - 1]);
      assert s == s[..|s| - 1] + [s[|s| - 1]];
      assert r.Some? ==> s[r.value + 1..] == s[..|s| - 1][r.value + 1..] + [s[|s| - 1]];
      r
  }

  /** `Path::file_name`, empty when there is none. */
  function FileName(path: string): string {
    var p := ComponentsOf(path);
    if p == [] || p[|p| - 1] == ".." then "" else p[|p| - 1]
  }

  function FileStem(name: string): string {
    match LastDot(name)
    case None => name
    case Some(i) => if i == 0 then name else name[..i]
  }

  function Extension(name: string): string {
    match LastDot(name)
    case None => ""
    case Some(i) => if i == 0 then "" else name[i + 1..]
  }

  function Lower(s: string): string {
    seq(|s|, i requires 0 <= i < |s| => if 'A' <= s[i] <= 'Z' then (s[i] as int + 32) as char else s[i])
  }

  /** `ts_test_ext`. */
  function TsExt(path: string): (e: string)
    ensures e in ["ts", "tsx", "js", "jsx", "mjs", "cjs", "mts", "cts"]
  {
    var e := Lower(Extension(FileName(path)));
    if e in ["tsx", "js", "jsx", "mjs", "cjs", "mts", "cts"] then e else "ts"
  }

  function StemOf(path: string): string {
    Fragment(FileStem(FileName(path)))
  }

  predicate JavaRootAt(comps: Path, i: nat) {
    i + 2 < |comps| && comps[i] == "src" && comps[i + 1] == "main" && comps[i + 2] == "java"
  }

  /** The first `src/main/java`, not before `from`. */
  function JavaRoot(comps: Path, from: nat): Option<nat>
    decreases |comps| - from
  {
    if from + 2 >= |comps| then None
    else if JavaRootAt(comps, from) then Some(from)
    else JavaRoot(comps, from + 1)
  }

  /** The directories of the mirrored place; a source file itself named `java` has none below. */
  function Mirrored(comps: Path, i: nat): Path
    requires JavaRootAt(comps, i)
  {
    comps[..i] + ["src", "test", "java"] + if i + 3 <= |comps| - 1 then comps[i + 3..|comps| - 1] else []
  }

  /** The directories `java_test_path` chooses. */
  function JavaDirs(comps: Path): Path {
    var root := if |comps| >= 4 then JavaRoot(comps, 0) else None;
    if root.Some? && JavaRootAt(comps, root.value) then Mirrored(comps, root.value) else ["src", "test", "java"]
  }

  lemma {:induction false} JavaRootFirst(comps: Path, from: nat)
    ensures match JavaRoot(comps, from)
      case Some(i) => from <= i && JavaRootAt(comps, i) && forall k :: from <= k < i ==> !JavaRootAt(comps, k)
      case None => forall k :: from <= k ==> !JavaRootAt(comps, k)
    decreases |comps| - from
  {
    if from + 2 < |comps| && !JavaRootAt(comps, from) { JavaRootFirst(comps, from + 1); }
  }

  /** The loop of `java_test_path`. */
  method FindJavaDirs(comps: Path) returns (dirs: Path)
    ensures dirs == JavaDirs(comps)
  {
    if |comps| >= 4 {
      var i := 0;
      while i <= |comps| - 3
        invariant 0 <= i <= |comps| - 2 && forall k :: 0 <= k < i ==> !JavaRootAt(comps, k)
      {
        JavaRootFirst(comps, 0);
        if comps[i] == "src" && comps[i + 1] == "main" && comps[i + 2] == "java" {
          assert JavaRootAt(comps, i);
          return comps[..i] + ["src", "test", "java"] + if i + 3 <= |comps| - 1 then comps[i + 3..|comps| - 1] else [];
        }
        i := i + 1;
      }
      JavaRootFirst(comps, 0);
    }
    dirs := ["src", "test", "java"];
  }

  // ---- the five rules ----

  datatype Rule = Rust | Python | Java | TypeScript(ext: string) | Other

  predicate IsTsExt(e: string) {
    e in ["ts", "tsx", "js", "jsx", "mjs", "cjs", "mts", "cts"]
  }

  function RuleOf(adapter: string, path: string): (r: Rule)
    ensures r.TypeScript? ==> IsTsExt(r.ext)
  {
    match adapter
    case "rust" => Rust
    case "python" => Python
    case "java" => Java
    case "typescript" => TypeScript(TsExt(path))
    case _ => Other
  }

  function Dirs(rule: Rule, path: string): Path {
    match rule
    case Rust => ["tests"]
    case Java => JavaDirs(Normal(ComponentsOf(path)))
    case Other => ["jitgen-tests"]
    case _ => DirOf(path)
  }

  /** The file name up to the identifier. */
  function Lead(rule: Rule, stem: string): string {
    match rule
    case Rust => "jitgen_" + stem + "_"
    case Python => "test_" + stem + "_jitgen_"
    case Java => Capitalize(stem) + "Jitgen"
    case TypeScript(_) => stem + ".jitgen."
    case Other => stem + "_"
  }

  function IdPart(rule: Rule, id: string): string {
    if rule.Java? then Capitalize(id) else id
  }

  /** Between the identifier and the extension's dot. */
  function Stop(rule: Rule): string {
    match rule
    case Java => "Test"
    case TypeScript(_) => ".test"
    case Other => ".test"
    case _ => ""
  }

  function Ext(rule: Rule): string {
    match rule
    case Rust => "rs"
    case Python => "py"
    case Java => "java"
    case TypeScript(e) => e
    case Other => "txt"
  }

  function TestName(rule: Rule, stem: string, id: string): string {
    Lead(rule, stem) + IdPart(rule, id) + Stop(rule) + "." + Ext(rule)
  }

  /** `test_path`. */
  function TestPath(t: Target, adapter: string): string {
    Join(TestParts(t, adapter), '/')
  }

  function TestParts(t: Target, adapter: string): Path {
    var rule := RuleOf(adapter, t.path);
    Dirs(rule, t.path) + [TestName(rule, StemOf(t.path), Fragment(t.id))]
  }

  // ---- confinement ----

  /** An ordinary file or directory name. */
  predicate IsName(x: string) {
    x != "" && x != "." && x != ".." && '/' !in x
  }

  predicate AllNames(p: Path) {
    forall x :: x in p ==> IsName(x)
  }

  lemma NormalNames(path: string)
    ensures AllNames(Normal(ComponentsOf(path))) && AllNames(DirOf(path))
  {
    ComponentsAreNames(path, '/');
    var p := ComponentsOf(path);
    NormalOfNames(p, p);
    if p != [] { NormalOfNames(p[..|p| - 1], p); }
  }

  lemma NormalOfNames(p: Path, all: Path)
    requires forall x :: x in p ==> x in all
    requires forall x :: x in all ==> x != "" && x != "." && '/' !in x
    ensures AllNames(Normal(p))
  {}

  lemma JavaNames(comps: Path)
    requires AllNames(comps)
    ensures AllNames(JavaDirs(comps))
  {}

  lemma NameIsName(rule: Rule, stem: string, id: string)
    requires rule.TypeScript? ==> IsTsExt(rule.ext)
    requires '/' !in stem && '/' !in id
    ensures IsName(TestName(rule, stem, id))
  {
    LeadPlain(rule, stem);
    NoSlash(Lead(rule, stem), IdPart(rule, id), Stop(rule), Ext(rule));
  }

  lemma LeadPlain(rule: Rule, stem: string)
    requires rule.TypeScript? ==> IsTsExt(rule.ext)
    requires '/' !in stem
    ensures '/' !in Lead(rule, stem) && |Ext(rule)| >= 2 && '/' !in Ext(rule) && '/' !in Stop(rule)
      && |Lead(rule, stem)| >= 1
  {}

  lemma NoSlash(a: string, b: string, c: string, d: string)
    requires '/' !in a && '/' !in b && '/' !in c && '/' !in d && |a| >= 1 && |d| >= 2
    ensures IsName(a + b + c + "." + d)
  {
    var x := a + b + c + "." + d;
    assert |x| > 3;
  }

  /**
   Whatever the target's path, identifier and adapter say, the derived path is relative and its pieces are
   ordinary names: nothing climbs out of the overlay.
   */
  lemma TestPathConfined(t: Target, adapter: string)
    ensures Split(TestPath(t, adapter), '/') == TestParts(t, adapter) == ComponentsOf(TestPath(t, adapter))
    ensures AllNames(TestParts(t, adapter)) && TestPath(t, adapter) != "" && TestPath(t, adapter)[0] != '/'
  {
    PartsAreNames(t, adapter);
    PartsReadBack(TestParts(t, adapter));
  }

  lemma PartsAreNames(t: Target, adapter: string)
    ensures AllNames(TestParts(t, adapter))
  {
    var rule := RuleOf(adapter, t.path);
    NormalNames(t.path);
    JavaNames(Normal(ComponentsOf(t.path)));
    FragmentClean(FileStem(FileName(t.path)));
    FragmentClean(t.id);
    NameIsName(rule, StemOf(t.path), Fragment(t.id));
    DirsAreNames(rule, t.path);
  }

  /** Ordinary names joined by slashes come apart again. */
  lemma PartsReadBack(parts: Path)
    requires parts != [] && AllNames(parts)
    ensures Split(Join(parts, '/'), '/') == parts == ComponentsOf(Join(parts, '/'))
    ensures Join(parts, '/') != "" && Join(parts, '/')[0] != '/'
  {
    SplitJoin(parts, '/');
    NamesAreComponents(parts);
    JoinStartsWithName(parts);
  }

  lemma DirsAreNames(rule: Rule, path: string)
    requires AllNames(DirOf(path)) && AllNames(JavaDirs(Normal(ComponentsOf(path))))
    ensures AllNames(Dirs(rule, path))
  {
    match rule
    case Rust => assert IsName("tests");
    case Other => assert IsName("jitgen-tests");
    case _ =>
  }

  lemma {:induction false} NamesAreComponents(p: Path)
    requires AllNames(p)
    ensures Components(p) == p
  {
    if p == [] {
    } else {
      assert IsName(p[0]) && [p[0]] + p[1..] == p;
      NamesAreComponents(p[1..]);
    }
  }

  lemma JoinStartsWithName(p: Path)
    requires p != [] && AllNames(p)
    ensures Join(p, '/') != "" && Join(p, '/')[0] != '/'
  {
    assert IsName(p[0]);
    assert p[0][0] in p[0];
    assert Join(p, '/')[0] == p[0][0];
  }

  lemma {:induction false} NormalKeepsNames(p: Path)
    requires ".." !in p
    ensures Normal(p) == p
  {
    if p == [] {
    } else {
      NormalKeepsNames(p[1..]);
      assert [p[0]] + p[1..] == p;
    }
  }

  /** Python and TypeScript tests sit beside their source. */
  lemma BesideSource(path: string, rule: Rule)
    requires (rule.Python? || rule.TypeScript?) && ComponentsOf(path) != [] && ".." !in ComponentsOf(path)
    ensures Dirs(rule, path) == ComponentsOf(path)[..|ComponentsOf(path)| - 1]
  {
    var comps := ComponentsOf(path);
    NormalKeepsNames(comps[..|comps| - 1]);
  }

  /**
   Java tests keep their package: the first `src/main/java` that has a package file below it becomes
   `src/test/java`.
   */
  lemma KeepsPackage(comps: Path, i: nat)
    requires JavaRootAt(comps, i) && i + 3 < |comps| && forall k :: 0 <= k < i ==> !JavaRootAt(comps, k)
    ensures JavaDirs(comps) == comps[..|comps| - 1][i + 1 := "test"]
  {
    JavaRootFirst(comps, 0);
    MirroredDirs(comps, i);
  }

  lemma MirroredDirs(comps: Path, i: nat)
    requires JavaRootAt(comps, i) && i + 3 < |comps|
    ensures Mirrored(comps, i) == comps[..|comps| - 1][i + 1 := "test"]
  {
    var dirs := comps[..|comps| - 1];
    assert dirs == dirs[..i] + [dirs[i], dirs[i + 1], dirs[i + 2]] + comps[i + 3..|comps| - 1];
  }

  // ---- the identifier can be read back ----

  /** A marker that is followed only by `P` characters determines its place. */
  lemma LastMarker(x: string, c: char, u: string, y: string, d: char, v: string, P: char -> bool)
    requires x + [c] + u == y + [d] + v
    requires !P(c) && !P(d) && (forall ch :: ch in u ==> P(ch)) && (forall ch :: ch in v ==> P(ch))
    ensures x == y && c == d && u == v
  {
    var s, t := x + [c] + u, y + [d] + v;
    assert s[|x|] == c && t[|y|] == d;
    assert forall k :: |x| < k < |s| ==> s[k] == u[k - |x| - 1] && P(s[k]);
    assert forall k :: |y| < k < |t| ==> t[k] == v[k - |y| - 1] && P(t[k]);
    assert x == s[..|x|] && y == t[..|y|];
    assert u == s[|x| + 1..] && v == t[|y| + 1..];
  }

  lemma ExtDecides(r: Rule, q: Rule)
    requires (r.TypeScript? ==> IsTsExt(r.ext)) && (q.TypeScript? ==> IsTsExt(q.ext))
    ensures '.' !in Ext(r)
    ensures Ext(r) == Ext(q) ==> r == q
  {}

  function RunId(i: nat): string {
    "t" + Show(i)
  }

  /** The identifiers of one run pass through the fragment filter unchanged. */
  lemma RunIdClean(i: nat)
    requires i < USIZE_LIMIT
    ensures Fragment(RunId(i)) == RunId(i)
  {
    UsizeLength(i);
    var s := RunId(i);
    assert forall k :: 1 <= k < |s| ==> s[k] == Show(i)[k - 1] && Show(i)[k - 1] in Show(i);
    CleanKept(s);
  }

  function Mark(rule: Rule): char {
    if rule.Java? then 'T' else 't'
  }

  lemma IdPartOfRun(rule: Rule, i: nat)
    ensures IdPart(rule, RunId(i)) == [Mark(rule)] + Show(i)
  {
    assert RunId(i)[1..] == Show(i);
  }

  /** Equal file names come from equal rules and equal identifiers. */
  lemma NameDecides(r: Rule, stem: string, i: nat, q: Rule, other: string, j: nat)
    requires (r.TypeScript? ==> IsTsExt(r.ext)) && (q.TypeScript? ==> IsTsExt(q.ext))
    requires TestName(r, stem, RunId(i)) == TestName(q, other, RunId(j))
    ensures r == q && i == j
  {
    ExtDecides(r, q);
    ExtDecides(q, r);
    var x := Lead(r, stem) + IdPart(r, RunId(i)) + Stop(r);
    var y := Lead(q, other) + IdPart(q, RunId(j)) + Stop(q);
    LastMarker(x, '.', Ext(r), y, '.', Ext(q), ch => ch != '.');
    SameEnding(Lead(r, stem) + IdPart(r, RunId(i)), Lead(q, other) + IdPart(q, RunId(j)), Stop(r));
    IdPartOfRun(r, i);
    IdPartOfRun(q, j);
    DigitsDecide(Lead(r, stem), Mark(r), i, Lead(q, other), Mark(q), j);
  }

  lemma SameEnding(a: string, b: string, c: string)
    requires a + c == b + c
    ensures a == b
  {
    assert |a| == |b|;
    assert a == (a + c)[..|a|] && b == (b + c)[..|b|];
  }

  lemma DigitsDecide(x: string, c: char, i: nat, y: string, d: char, j: nat)
    requires x + ([c] + Show(i)) == y + ([d] + Show(j)) && !IsDigit(c) && !IsDigit(d)
    ensures i == j
  {
    assert x + [c] + Show(i) == x + ([c] + Show(i));
    assert y + [d] + Show(j) == y + ([d] + Show(j));
    LastMarker(x, c, Show(i), y, d, Show(j), IsDigit);
    ShowInjective(i, j);
  }

  /** Two targets of one run never share a test path, whatever their rules and paths. */
  lemma TestPathInjective(t: Target, adapter: string, i: nat, u: Target, other: string, j: nat)
    requires i < USIZE_LIMIT && j < USIZE_LIMIT && i != j
    ensures TestPath(t.(id := RunId(i)), adapter) != TestPath(u.(id := RunId(j)), other)
  {
    var a, b := t.(id := RunId(i)), u.(id := RunId(j));
    TestPathConfined(a, adapter);
    TestPathConfined(b, other);
    RunIdClean(i);
    RunIdClean(j);
    if TestPath(a, adapter) == TestPath(b, other) {
      var p, q := TestParts(a, adapter), TestParts(b, other);
      assert p[|p| - 1] == q[|q| - 1];
      NameDecides(RuleOf(adapter, t.path), StemOf(t.path), i, RuleOf(other, u.path), StemOf(u.path), j);
    }
  }
}
