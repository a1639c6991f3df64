/** Slash-separated paths as the source's standard library takes them apart. */
module Paths {
  import opened Text

  type Path = seq<string>

  /** `Path::components` without the leading root: empty pieces and `.` vanish. */
  function Components(pieces: seq<string>): Path {
    if pieces == [] then []
    else (if pieces[0] == "" || pieces[0] == "." then [] else [pieces[0]]) + Components(pieces[1..])
  }

  function Parent(p: Path): Path
    requires p != []
  {
    p[..|p| - 1]
  }

  /** Only the ordinary components. */
  function Normal(p: Path): (r: Path)
    ensures ".." !in r && forall x :: x in r ==> x in p
  {
    if p == [] then [] else (if p[0] == ".." then [] else [p[0]]) + Normal(p[1..])
  }

  lemma {:induction false} NamesOfPieces(pieces: seq<string>)
    ensures forall x :: x in Components(pieces) ==> x in pieces && x != "" && x != "."
  {
    if pieces == [] {
    } else {
      NamesOfPieces(pieces[1..]);
    }
  }

  lemma ComponentsAreNames(rel: string, sep: char)
    ensures forall x :: x in Components(Split(rel, sep)) ==> x != "" && x != "." && sep !in x
    ensures forall x, c :: x in Components(Split(rel, sep)) && c in x ==> c in rel
  {
    NamesOfPieces(Split(rel, sep));
    JoinSplit(rel, sep);
    PiecesWithin(rel, sep);
  }
}
