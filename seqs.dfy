/** Sequence helpers shared by the column selection, the melt and the row filters. */
module Seqs {

  /** Keeps the elements satisfying `keep`, in their original order (pandas boolean indexing, `dropna`). */
  function Filter<T(!new)>(keep: T -> bool, xs: seq<T>): (r: seq<T>)
    ensures |r| <= |xs|
    ensures forall x :: x in r <==> x in xs && keep(x)
  {
    if xs == [] then []
    else if keep(xs[0]) then [xs[0]] + Filter(keep, xs[1..])
    else Filter(keep, xs[1..])
  }

  /** `sub` can be obtained from `xs` by deleting elements: order is kept. */
  predicate IsSubsequence<T(==)>(sub: seq<T>, xs: seq<T>)
  {
    if sub == [] then true
    else if xs == [] then false
    else if sub[0] == xs[0] then IsSubsequence(sub[1..], xs[1..])
    else IsSubsequence(sub, xs[1..])
  }

  /** Applies `f` to every element. */
  function Map<A, B>(f: A -> B, xs: seq<A>): (r: seq<B>)
    ensures |r| == |xs|
    ensures forall i :: 0 <= i < |xs| ==> r[i] == f(xs[i])
  {
    if xs == [] then [] else [f(xs[0])] + Map(f, xs[1..])
  }

  /** Position of the first occurrence of `x`. */
  function IndexOf<T(==)>(xs: seq<T>, x: T): (r: nat)
    requires x in xs
    ensures r < |xs| && xs[r] == x
    ensures forall j :: 0 <= j < r ==> xs[j] != x
  {
    if xs[0] == x then 0 else 1 + IndexOf(xs[1..], x)
  }

  lemma {:induction false} FilterIsSubsequence<T(!new)>(keep: T -> bool, xs: seq<T>)
    ensures IsSubsequence(Filter(keep, xs), xs)
  {
    if xs != [] {
      FilterIsSubsequence(keep, xs[1..]);
      var rest := Filter(keep, xs[1..]);
      if keep(xs[0]) {
        assert ([xs[0]] + rest)[1..] == rest;
      } else if rest != [] {
        SubsequenceSkip(rest, xs);
      }
    }
  }

  /** A subsequence of the tail of `xs` is a subsequence of `xs`. */
  lemma SubsequenceSkip<T>(sub: seq<T>, xs: seq<T>)
    requires xs != [] && IsSubsequence(sub, xs[1..])
    ensures IsSubsequence(sub, xs)
    decreases |xs|, 0
  {
    if sub != [] && sub[0] == xs[0] {
      SubsequenceTail(sub, xs[1..]);
    }
  }

  /** Dropping the head of a subsequence keeps it a subsequence of the same sequence. */
  lemma SubsequenceTail<T>(sub: seq<T>, ys: seq<T>)
    requires sub != [] && IsSubsequence(sub, ys)
    ensures IsSubsequence(sub[1..], ys)
    decreases |ys|, 1
  {
    if sub[0] == ys[0] {
      if sub[1..] != [] {
        SubsequenceSkip(sub[1..], ys);
      }
    } else {
      SubsequenceTail(sub, ys[1..]);
      if sub[1..] != [] {
        SubsequenceSkip(sub[1..], ys);
      }
    }
  }

  /** How many times each value occurs in the filtered sequence: all of its occurrences, or none. */
  lemma {:induction false} FilterCount<T(!new)>(keep: T -> bool, xs: seq<T>)
    ensures forall x :: multiset(Filter(keep, xs))[x] == if keep(x) then multiset(xs)[x] else 0
  {
    if xs != [] {
      FilterCount(keep, xs[1..]);
      assert xs == [xs[0]] + xs[1..];
      assert multiset(xs) == multiset([xs[0]]) + multiset(xs[1..]);
    }
  }

  /** Filtering twice is filtering once by both conditions. */
  lemma {:induction false} FilterFilter<T(!new)>(p: T -> bool, q: T -> bool, pq: T -> bool, xs: seq<T>)
    requires forall x :: pq(x) == (p(x) && q(x))
    ensures Filter(q, Filter(p, xs)) == Filter(pq, xs)
  {
    if xs != [] {
      FilterFilter(p, q, pq, xs[1..]);
    }
  }
}
