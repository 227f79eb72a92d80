/** Facts about sequences used as ordered lists of paths. */
module Seqs {

  /** No element occurs twice: the keys of a dictionary, listed in order. */
  predicate NoDups<T(==)>(xs: seq<T>)
  {
    forall i, j :: 0 <= i < j < |xs| ==> xs[i] != xs[j]
  }

  /** `xs` is obtained from `ys` by dropping some elements, keeping the order. */
  predicate IsSubsequence<T(==)>(xs: seq<T>, ys: seq<T>)
    decreases |ys|
  {
    if |ys| == 0 then |xs| == 0
    else (|xs| > 0 && xs[0] == ys[0] && IsSubsequence(xs[1..], ys[1..]))
         || IsSubsequence(xs, ys[1..])
  }

  /** The elements of `xs` satisfying `keep`, in their original order; this
      is what a Python loop that appends the matching items builds. */
  function Filter<T(==,!new)>(xs: seq<T>, keep: T -> bool): (r: seq<T>)
    ensures forall x :: x in r <==> x in xs && keep(x)
    ensures IsSubsequence(r, xs)
    ensures NoDups(xs) ==> NoDups(r)
  {
    if |xs| == 0 then []
    else
      var rest := Filter(xs[1..], keep);
      assert forall x :: x in xs <==> x == xs[0] || x in xs[1..];
      if keep(xs[0]) then
        assert NoDups(xs) ==> xs[0] !in xs[1..];
        [xs[0]] + rest
      else rest
  }

  /** Keeping every element keeps the list itself. */
  lemma {:induction false} FilterAll<T(!new)>(xs: seq<T>, keep: T -> bool)
    requires forall x :: x in xs ==> keep(x)
    ensures Filter(xs, keep) == xs
  {
    if |xs| > 0 {
      assert xs[0] in xs;
      assert forall x :: x in xs[1..] ==> x in xs;
      FilterAll(xs[1..], keep);
      assert [xs[0]] + xs[1..] == xs;
    }
  }

  /** A sequence without members is empty. */
  lemma NoMembersIsEmpty<T(!new)>(xs: seq<T>)
    ensures (forall x :: x !in xs) <==> xs == []
  {
    if xs != [] {
      assert xs[0] in xs;
    }
  }
}
