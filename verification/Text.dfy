/** Strings as the source sees them: UTF-8 lengths, splitting, joining and decimal numerals. */
module Text {
  /** Bytes of one character in UTF-8 (RFC 3629, section 3). */
  function CharBytes(c: char): (n: nat)
    ensures 1 <= n <= 4
  {
    if c as int < 0x80 then 1 else if c as int < 0x800 then 2 else if c as int < 0x1_0000 then 3 else 4
  }

  /** `str::len`: the UTF-8 length. */
  function Bytes(s: string): nat {
    if s == "" then 0 else CharBytes(s[0]) + Bytes(s[1..])
  }

  /** `str::split(sep)` collected: always at least one piece. */
  function Split(s: string, sep: char): (r: seq<string>)
    ensures |r| >= 1
  {
    if s == "" then [""]
    else
      var rest := Split(s[1..], sep);
      if s[0] == sep then [""] + rest else [[s[0]] + rest[0]] + rest[1..]
  }

  /** `Vec::join(sep)` for a one-character separator. */
  function Join(xs: seq<string>, sep: char): string {
    if xs == [] then "" else if |xs| == 1 then xs[0] else xs[0] + [sep] + Join(xs[1..], sep)
  }

  function StripCr(s: string): string {
    if s != "" && s[|s| - 1] == '\r' then s[..|s| - 1] else s
  }

  /** `str::lines`: a terminated line also loses one trailing CR; there is no empty last line. */
  function Lines(s: string): seq<string> {
    var ps := Split(s, '\n');
    var last := |ps| - 1;
    seq(last, i requires 0 <= i < last => StripCr(ps[i])) + (if ps[last] == "" then [] else [ps[last]])
  }

  lemma {:induction false} JoinSplit(s: string, sep: char)
    ensures Join(Split(s, sep), sep) == s
    ensures forall x :: x in Split(s, sep) ==> sep !in x
  {
    if s == "" {
    } else {
      var rest := Split(s[1..], sep);
      JoinSplit(s[1..], sep);
      if s[0] == sep { JoinBehind("", rest, sep); } else { JoinLonger(s[0], rest, sep); }
      assert s == [s[0]] + s[1..];
    }
  }

  lemma JoinBehind(x: string, xs: seq<string>, sep: char)
    requires xs != []
    ensures Join([x] + xs, sep) == x + [sep] + Join(xs, sep)
  {
    assert ([x] + xs)[1..] == xs;
  }

  /** Putting a character in front of the first piece puts it in front of the whole. */
  lemma JoinLonger(c: char, xs: seq<string>, sep: char)
    requires xs != []
    ensures Join([[c] + xs[0]] + xs[1..], sep) == [c] + Join(xs, sep)
  {
    if |xs| == 1 {
      assert [[c] + xs[0]] + xs[1..] == [[c] + xs[0]];
    } else {
      JoinBehind([c] + xs[0], xs[1..], sep);
    }
  }

  lemma {:induction false} SplitJoin(xs: seq<string>, sep: char)
    requires xs != [] && forall x :: x in xs ==> sep !in x
    ensures Split(Join(xs, sep), sep) == xs
  {
    if |xs| == 1 {
      SplitPiece(xs[0], "", sep);
      assert xs[0] + "" == xs[0];
      assert [xs[0] + ""] + [] == xs;
    } else {
      SplitJoin(xs[1..], sep);
      SplitPiece(xs[0], [sep] + Join(xs[1..], sep), sep);
      var t := [sep] + Join(xs[1..], sep);
      assert t[1..] == Join(xs[1..], sep);
      assert Split(t, sep) == [""] + xs[1..];
      assert xs[0] + "" == xs[0];
      assert [xs[0]] + xs[1..] == xs;
      assert xs[0] + [sep] + Join(xs[1..], sep) == xs[0] + ([sep] + Join(xs[1..], sep));
    }
  }

  /** A separator-free prefix only extends the first piece. */
  lemma {:induction false} SplitPiece(x: string, t: string, sep: char)
    requires sep !in x
    ensures Split(x + t, sep) == [x + Split(t, sep)[0]] + Split(t, sep)[1..]
  {
    if x == "" {
      assert x + t == t;
      assert x + Split(t, sep)[0] == Split(t, sep)[0];
    } else {
      var c, rest, first := x[0], x[1..], Split(t, sep)[0];
      SplitPiece(rest, t, sep);
      SplitFront(c, rest + t, sep);
      assert x + t == [c] + (rest + t);
      assert [c] + (rest + first) == x + first;
    }
  }

  lemma SplitFront(c: char, t: string, sep: char)
    requires c != sep
    ensures Split([c] + t, sep) == [[c] + Split(t, sep)[0]] + Split(t, sep)[1..]
  {
    assert ([c] + t)[1..] == t;
  }

  /** Every character of a piece is a character of the whole. */
  lemma {:induction false} PiecesWithin(s: string, sep: char)
    ensures forall x, c :: x in Split(s, sep) && c in x ==> c in s
  {
    if s == "" {
    } else {
      PiecesWithin(s[1..], sep);
    }
  }

  lemma {:induction false} AsciiBytes(s: string)
    requires forall i :: 0 <= i < |s| ==> s[i] as int < 0x80
    ensures Bytes(s) == |s|
  {
    if s == "" {
    } else {
      AsciiBytes(s[1..]);
    }
  }

  lemma {:induction false} BytesAtMost(s: string)
    ensures Bytes(s) <= 4 * |s|
  {
    if s == "" {
    } else {
      BytesAtMost(s[1..]);
    }
  }
}
