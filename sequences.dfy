/** Order facts about sequences shared by the models. */
module Sequences {

  /** No element occurs twice. */
  predicate NoDups<T(==)>(s: seq<T>) {
    forall i, j :: 0 <= i < j < |s| ==> s[i] != s[j]
  }

  /** `xs` is `ys` with some elements left out, the rest kept in order. */
  predicate IsSubseq<T(==)>(xs: seq<T>, ys: seq<T>)
    decreases |ys|
  {
    if xs == [] then true
    else if ys == [] then false
    else
      (xs[|xs| - 1] == ys[|ys| - 1] && IsSubseq(xs[..|xs| - 1], ys[..|ys| - 1]))
      || IsSubseq(xs, ys[..|ys| - 1])
  }

  /** A subsequence stays one when the longer list grows, or when both grow by the same element. */
  lemma SubseqExtend<T>(xs: seq<T>, ys: seq<T>, y: T)
    requires IsSubseq(xs, ys)
    ensures IsSubseq(xs, ys + [y])
    ensures IsSubseq(xs + [y], ys + [y])
  {
    assert (ys + [y])[..|ys|] == ys;
    assert (xs + [y])[..|xs|] == xs;
  }
}
