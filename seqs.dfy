/** Sequence operations shared by the tracker: `Keep` is the model of
    JavaScript's `Array.prototype.filter`, which the tracker uses for its
    filter engine, its statistics and task deletion. */
module Seqs {

  /** `xs` is obtained from `ys` by deleting elements (order is kept). */
  predicate IsSubsequence<T(==)>(xs: seq<T>, ys: seq<T>)
    decreases |ys|
  {
    xs == [] ||
    (ys != [] &&
     ((xs[0] == ys[0] && IsSubsequence(xs[1..], ys[1..])) || IsSubsequence(xs, ys[1..])))
  }

  /** The elements of `xs` that satisfy `p`, in their original order. */
  function Keep<T(==,!new)>(xs: seq<T>, p: T -> bool): (r: seq<T>)
    ensures |r| <= |xs|
    ensures IsSubsequence(r, xs)
    ensures forall i :: 0 <= i < |r| ==> p(r[i])
    ensures forall x :: multiset(r)[x] == if p(x) then multiset(xs)[x] else 0
  {
    if xs == [] then []
    else
      assert xs == [xs[0]] + xs[1..];
      var rest := Keep(xs[1..], p);
      if p(xs[0]) then
        assert ([xs[0]] + rest)[1..] == rest;
        [xs[0]] + rest
      else rest
  }

  lemma {:induction false} SubsequenceMembers<T>(xs: seq<T>, ys: seq<T>)
    requires IsSubsequence(xs, ys)
    ensures forall x :: x in xs ==> x in ys
    decreases |ys|
  {
    if xs != [] {
      if xs[0] == ys[0] && IsSubsequence(xs[1..], ys[1..]) {
        SubsequenceMembers(xs[1..], ys[1..]);
        assert xs == [xs[0]] + xs[1..];
      } else {
        SubsequenceMembers(xs, ys[1..]);
      }
    }
  }

  /** When every element passes, filtering changes nothing. */
  lemma {:induction false} KeepAll<T(!new)>(xs: seq<T>, p: T -> bool)
    requires forall i :: 0 <= i < |xs| ==> p(xs[i])
    ensures Keep(xs, p) == xs
  {
    if xs != [] {
      KeepAll(xs[1..], p);
      assert xs == [xs[0]] + xs[1..];
    }
  }

  /** Two predicates that agree on the elements of `xs` keep the same elements. */
  lemma {:induction false} KeepCongruent<T(!new)>(xs: seq<T>, p: T -> bool, q: T -> bool)
    requires forall i :: 0 <= i < |xs| ==> p(xs[i]) == q(xs[i])
    ensures Keep(xs, p) == Keep(xs, q)
  {
    if xs != [] {
      KeepCongruent(xs[1..], p, q);
    }
  }

  /** If `whole` splits into the disjoint cases `left` and `right`, the kept
      lengths add up. */
  lemma {:induction false} KeepSplit<T(!new)>(xs: seq<T>, whole: T -> bool, left: T -> bool, right: T -> bool)
    requires forall i :: 0 <= i < |xs| ==>
      (whole(xs[i]) <==> left(xs[i]) || right(xs[i])) && !(left(xs[i]) && right(xs[i]))
    ensures |Keep(xs, left)| + |Keep(xs, right)| == |Keep(xs, whole)|
  {
    if xs != [] {
      KeepSplit(xs[1..], whole, left, right);
    }
  }

  /** A stronger predicate keeps no more elements than a weaker one. */
  lemma {:induction false} KeepMonotone<T(!new)>(xs: seq<T>, p: T -> bool, q: T -> bool)
    requires forall i :: 0 <= i < |xs| ==> p(xs[i]) ==> q(xs[i])
    ensures |Keep(xs, p)| <= |Keep(xs, q)|
  {
    if xs != [] {
      KeepMonotone(xs[1..], p, q);
    }
  }
}
