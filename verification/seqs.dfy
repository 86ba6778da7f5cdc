/**
 * Order-preserving filtering of sequences, the shape shared by every list the
 * core builds (`found`, `output`, and the followed links): walk the input in
 * order and keep the elements a predicate accepts.
 */
module Seqs {

  /** The elements of `s` that satisfy `p`, in their original order, duplicates kept. */
  function Filter<T>(s: seq<T>, p: T -> bool): (r: seq<T>)
    ensures |r| <= |s|
    ensures forall k :: 0 <= k < |r| ==> p(r[k])
  {
    if s == [] then []
    else Filter(s[..|s| - 1], p) + (if p(s[|s| - 1]) then [s[|s| - 1]] else [])
  }

  /** `f` applied to every element of `s`. */
  function Map<T, U>(s: seq<T>, f: T -> U): seq<U> {
    seq(|s|, k requires 0 <= k < |s| => f(s[k]))
  }

  /** `idx` picks, in strictly increasing positions of `b`, the elements of `a`. */
  ghost predicate IsEmbedding<T>(idx: seq<int>, a: seq<T>, b: seq<T>) {
    && |idx| == |a|
    && (forall k :: 0 <= k < |idx| ==> 0 <= idx[k] < |b| && a[k] == b[idx[k]])
    && (forall k, l :: 0 <= k < l < |idx| ==> idx[k] < idx[l])
  }

  /** `a` is obtained from `b` by deleting elements, keeping the order of the rest. */
  ghost predicate IsSubsequence<T>(a: seq<T>, b: seq<T>) {
    exists idx :: IsEmbedding(idx, a, b)
  }

  /** No element occurs twice. */
  ghost predicate Distinct<T>(s: seq<T>) {
    forall i, j :: 0 <= i < j < |s| ==> s[i] != s[j]
  }

  /** The positions of `s` that `Filter` keeps, in increasing order. */
  lemma {:induction false} FilterEmbedding<T>(s: seq<T>, p: T -> bool) returns (idx: seq<int>)
    ensures IsEmbedding(idx, Filter(s, p), s)
  {
    if s == [] {
      idx := [];
    } else {
      var init := s[..|s| - 1];
      var prev := FilterEmbedding(init, p);
      if p(s[|s| - 1]) {
        idx := prev + [|s| - 1];
      } else {
        idx := prev;
      }
    }
  }

  /** Filtering keeps the input's order: the result is a subsequence of the input. */
  lemma FilterIsSubsequence<T>(s: seq<T>, p: T -> bool)
    ensures IsSubsequence(Filter(s, p), s)
  {
    var idx := FilterEmbedding(s, p);
  }

  /** An element is kept exactly when it occurs in the input and satisfies `p`. */
  lemma {:induction false} FilterMembership<T>(s: seq<T>, p: T -> bool, x: T)
    ensures x in Filter(s, p) <==> x in s && p(x)
  {
    if s != [] {
      var init := s[..|s| - 1];
      FilterMembership(init, p, x);
      assert s == init + [s[|s| - 1]];
    }
  }

  /** Every accepted element is kept as often as it occurs; every rejected one is dropped. */
  lemma {:induction false} FilterMultiplicity<T>(s: seq<T>, p: T -> bool, x: T)
    ensures multiset(Filter(s, p))[x] == if p(x) then multiset(s)[x] else 0
  {
    if s != [] {
      var init := s[..|s| - 1];
      FilterMultiplicity(init, p, x);
      assert s == init + [s[|s| - 1]];
    }
  }

  /** Two predicates that agree on the elements of `s` keep the same elements. */
  lemma {:induction false} FilterCongruence<T>(s: seq<T>, p: T -> bool, q: T -> bool)
    requires forall k :: 0 <= k < |s| ==> p(s[k]) == q(s[k])
    ensures Filter(s, p) == Filter(s, q)
  {
    if s != [] {
      FilterCongruence(s[..|s| - 1], p, q);
    }
  }

  /** A subsequence of a sequence without repetitions has no repetitions either. */
  lemma SubsequenceOfDistinct<T>(a: seq<T>, b: seq<T>)
    requires IsSubsequence(a, b) && Distinct(b)
    ensures Distinct(a)
  {
    var idx :| IsEmbedding(idx, a, b);
    forall i, j | 0 <= i < j < |a|
      ensures a[i] != a[j]
    {
      assert idx[i] < idx[j];
    }
  }

  /** What a filter followed by a map produces: the images of exactly the accepted elements. */
  lemma MapFilterMembership<T, U>(s: seq<T>, p: T -> bool, f: T -> U)
    ensures forall y :: y in Map(Filter(s, p), f) <==> exists x :: x in s && p(x) && y == f(x)
  {
    var kept := Filter(s, p);
    forall y
      ensures y in Map(kept, f) <==> exists x :: x in s && p(x) && y == f(x)
    {
      if y in Map(kept, f) {
        var k :| 0 <= k < |kept| && Map(kept, f)[k] == y;
        FilterMembership(s, p, kept[k]);
      }
      if exists x :: x in s && p(x) && y == f(x) {
        var x :| x in s && p(x) && y == f(x);
        FilterMembership(s, p, x);
        var k :| 0 <= k < |kept| && kept[k] == x;
        assert Map(kept, f)[k] == y;
      }
    }
  }
}
