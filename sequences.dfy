/**
 * LINQ's `Where` over a finite sequence, and what it promises: the result is
 * an order-preserving subsequence of the input holding exactly the elements
 * that pass, each as often as it occurs in the input.
 */
module Sequences {

  /** `source.Where(p)`: the elements passing `p`, in their original order. */
  function Where<T>(source: seq<T>, p: T -> bool): (r: seq<T>)
    ensures |r| <= |source|
    ensures forall i :: 0 <= i < |r| ==> r[i] in source && p(r[i])
    ensures forall i :: 0 <= i < |source| && p(source[i]) ==> source[i] in r
    decreases |source|
  {
    if source == [] then []
    else (if p(source[0]) then [source[0]] else []) + Where(source[1..], p)
  }

  /** `a` can be obtained from `b` by deleting elements, keeping the order of the rest. */
  ghost predicate IsSubsequence<T>(a: seq<T>, b: seq<T>)
    decreases |b|
  {
    if a == [] then true
    else if b == [] then false
    else (a[0] == b[0] && IsSubsequence(a[1..], b[1..])) || IsSubsequence(a, b[1..])
  }

  /** `Where` keeps the order of what it keeps. */
  lemma {:induction false} WhereIsSubsequence<T>(source: seq<T>, p: T -> bool)
    ensures IsSubsequence(Where(source, p), source)
    decreases |source|
  {
    if source != [] {
      var rest := Where(source[1..], p);
      WhereIsSubsequence(source[1..], p);
      if p(source[0]) {
        assert Where(source, p) == [source[0]] + rest;
        assert ([source[0]] + rest)[1..] == rest;
      } else {
        assert Where(source, p) == rest;
      }
    }
  }

  /** `Where` keeps every passing element as often as it occurs, and nothing else. */
  lemma {:induction false} WhereCounts<T>(source: seq<T>, p: T -> bool)
    ensures forall x :: multiset(Where(source, p))[x] == if p(x) then multiset(source)[x] else 0
    decreases |source|
  {
    if source != [] {
      WhereCounts(source[1..], p);
      assert source == [source[0]] + source[1..];
    }
  }

  /** When everything passes, `Where` returns its input unchanged. */
  lemma {:induction false} WhereAllPass<T>(source: seq<T>, p: T -> bool)
    requires forall i :: 0 <= i < |source| ==> p(source[i])
    ensures Where(source, p) == source
    decreases |source|
  {
    if source != [] {
      WhereAllPass(source[1..], p);
      assert source == [source[0]] + source[1..];
    }
  }

  /** `Where` distributes over concatenation. */
  lemma {:induction false} WhereAppend<T>(a: seq<T>, b: seq<T>, p: T -> bool)
    ensures Where(a + b, p) == Where(a, p) + Where(b, p)
    decreases |a|
  {
    if a != [] {
      WhereAppend(a[1..], b, p);
      assert (a + b)[1..] == a[1..] + b;
    } else {
      assert a + b == b;
    }
  }

  /** Filtering by a stronger predicate keeps a subsequence of what the weaker one keeps. */
  lemma {:induction false} WhereNarrows<T>(source: seq<T>, strong: T -> bool, weak: T -> bool)
    requires forall i :: 0 <= i < |source| ==> strong(source[i]) ==> weak(source[i])
    ensures IsSubsequence(Where(source, strong), Where(source, weak))
    decreases |source|
  {
    if source != [] {
      var x, tail := source[0], source[1..];
      var s, w := Where(tail, strong), Where(tail, weak);
      WhereNarrows(tail, strong, weak);
      if strong(x) {
        assert Where(source, strong) == [x] + s && Where(source, weak) == [x] + w;
        assert ([x] + s)[1..] == s && ([x] + w)[1..] == w;
      } else if weak(x) {
        assert Where(source, strong) == s && Where(source, weak) == [x] + w;
        assert ([x] + w)[1..] == w;
      } else {
        assert Where(source, strong) == s && Where(source, weak) == w;
      }
    }
  }
}
