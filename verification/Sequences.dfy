/** Sequences: prefixes, elements left out, and regrouping of concatenations. */
module Sequences {
  lemma Associative<T>(a: seq<T>, b: seq<T>, c: seq<T>)
    ensures (a + b) + c == a + (b + c)
  {}

  lemma TailOfConcat<T>(a: seq<T>, b: seq<T>)
    requires a != []
    ensures a + b != [] && (a + b)[1..] == a[1..] + b
  {}

  lemma Cancels<T>(a: seq<T>, b: seq<T>, c: seq<T>)
    ensures a + b == a + c <==> b == c
  {
    assert (a + b)[|a|..] == b && (a + c)[|a|..] == c;
  }

  lemma SlicesJoin<T>(xs: seq<T>, i: nat, j: nat, k: nat)
    requires i <= j <= k <= |xs|
    ensures xs[i..j] + xs[j..k] == xs[i..k]
  {}

  /** `chars().take(n)`. */
  function Take<T>(xs: seq<T>, n: nat): seq<T> {
    if |xs| <= n then xs else xs[..n]
  }

  function Without<T>(xs: seq<T>, i: nat): (r: seq<T>)
    requires i < |xs|
    ensures |r| == |xs| - 1
  {
    xs[..i] + xs[i + 1..]
  }

  /** `xs` are some of the elements of `all`, in their order. */
  predicate Subsequence<T(==)>(xs: seq<T>, all: seq<T>) {
    xs == [] || (all != [] &&
      ((xs[0] == all[0] && Subsequence(xs[1..], all[1..])) || Subsequence(xs, all[1..])))
  }

  lemma {:induction false} WholeIsSubsequence<T>(all: seq<T>)
    ensures Subsequence(all, all)
  {
    if all == [] {
    } else {
      WholeIsSubsequence(all[1..]);
    }
  }

  lemma {:induction false} DropKeepsSubsequence<T>(xs: seq<T>, all: seq<T>, i: nat)
    requires i < |xs| && Subsequence(xs, all)
    ensures Subsequence(Without(xs, i), all)
  {
    if !(xs[0] == all[0] && Subsequence(xs[1..], all[1..])) {
      DropKeepsSubsequence(xs, all[1..], i);
      if Without(xs, i) != [] { assert Subsequence(Without(xs, i), all[1..]); }
    } else if i == 0 {
      assert Without(xs, 0) == xs[1..];
      SubsequenceOfLonger(xs[1..], all);
    } else {
      DropKeepsSubsequence(xs[1..], all[1..], i - 1);
      assert Without(xs, i)[1..] == Without(xs[1..], i - 1);
    }
  }

  lemma SubsequenceOfLonger<T>(xs: seq<T>, all: seq<T>)
    requires all != [] && Subsequence(xs, all[1..])
    ensures Subsequence(xs, all)
  {}

  /** Extending both, or the whole only, keeps a subsequence. */
  lemma {:induction false} SubsequenceAppend<T>(xs: seq<T>, all: seq<T>, x: T)
    requires Subsequence(xs, all)
    ensures Subsequence(xs + [x], all + [x]) && Subsequence(xs, all + [x])
  {
    if all == [] {
      assert xs + [x] == [x] && all + [x] == [x];
      assert Subsequence([x][1..], [x][1..]);
    } else {
      assert (all + [x])[1..] == all[1..] + [x];
      if xs != [] && xs[0] == all[0] && Subsequence(xs[1..], all[1..]) {
        SubsequenceAppend(xs[1..], all[1..], x);
        assert (xs + [x])[1..] == xs[1..] + [x];
      } else {
        SubsequenceAppend(xs, all[1..], x);
        SubsequenceOfLonger(xs + [x], all + [x]);
        SubsequenceOfLonger(xs, all + [x]);
      }
    }
  }
}
