/** Order-preserving filtering of sequences, the `Iterator::filter` followed by
    `collect` that both search routines are built from, together with the
    subsequence relation that describes its result. */
module Seqs {

  /** `a` can be obtained from `b` by deleting elements, keeping the order of
      the rest. */
  predicate IsSubseq<T(==)>(a: seq<T>, b: seq<T>)
    decreases |b|
  {
    || |a| == 0
    || (&& |b| > 0
        && ((a[0] == b[0] && IsSubseq(a[1..], b[1..])) || IsSubseq(a, b[1..])))
  }

  /** A subsequence is no longer than the sequence it comes from, and holds
      no element more often than it. */
  lemma {:induction false} SubseqMultiset<T>(a: seq<T>, b: seq<T>)
    requires IsSubseq(a, b)
    ensures |a| <= |b|
    ensures multiset(a) <= multiset(b)
    decreases |b|
  {
    if |a| == 0 {
    } else if a[0] == b[0] && IsSubseq(a[1..], b[1..]) {
      SubseqMultiset(a[1..], b[1..]);
      assert a == [a[0]] + a[1..];
      assert b == [b[0]] + b[1..];
    } else {
      SubseqMultiset(a, b[1..]);
      assert b == [b[0]] + b[1..];
    }
  }

  /** The elements of `xs` that satisfy `p`, in their original order: every
      kept element satisfies `p` and every element satisfying `p` is kept. */
  function Filter<T(!new)>(xs: seq<T>, p: T -> bool): (r: seq<T>)
    ensures forall x :: x in r ==> p(x)
    ensures forall x :: x in xs && p(x) ==> x in r
    ensures IsSubseq(r, xs)
    decreases |xs|
  {
    if |xs| == 0 then []
    else
      var rest := Filter(xs[1..], p);
      assert xs == [xs[0]] + xs[1..];
      if p(xs[0]) then [xs[0]] + rest else rest
  }

  /** `Filter` keeps each element satisfying `p` exactly as often as it occurs
      in `xs`, and drops every other element. */
  lemma {:induction false} FilterMultiset<T(!new)>(xs: seq<T>, p: T -> bool)
    ensures forall x :: multiset(Filter(xs, p))[x] == if p(x) then multiset(xs)[x] else 0
    decreases |xs|
  {
    if |xs| > 0 {
      FilterMultiset(xs[1..], p);
      assert xs == [xs[0]] + xs[1..];
    }
  }

  /** Being a subsequence with those multiplicities determines the result:
      any subsequence of `xs` that keeps exactly the occurrences of the
      elements satisfying `p` is `Filter(xs, p)`. */
  lemma {:induction false} FilterUnique<T(!new)>(xs: seq<T>, p: T -> bool, r: seq<T>)
    requires IsSubseq(r, xs)
    requires forall x :: multiset(r)[x] == if p(x) then multiset(xs)[x] else 0
    ensures r == Filter(xs, p)
    decreases |xs|
  {
    if |xs| == 0 {
    } else {
      var x := xs[0];
      var rest := xs[1..];
      assert xs == [x] + rest;
      if p(x) {
        assert multiset(r)[x] == multiset(xs)[x] > 0;
        assert |r| > 0;
        if r[0] == x && IsSubseq(r[1..], rest) {
          assert r == [x] + r[1..];
          forall y ensures multiset(r[1..])[y] == if p(y) then multiset(rest)[y] else 0 {
          }
          FilterUnique(rest, p, r[1..]);
        } else {
          assert IsSubseq(r, rest);
          SubseqMultiset(r, rest);
          assert false;
        }
      } else {
        assert multiset(r)[x] == 0;
        if |r| > 0 {
          assert r[0] in multiset(r);
        }
        assert IsSubseq(r, rest);
        forall y ensures multiset(r)[y] == if p(y) then multiset(rest)[y] else 0 {
        }
        FilterUnique(rest, p, r);
      }
    }
  }

  /** A predicate that holds of every element keeps the whole sequence. */
  lemma {:induction false} FilterAll<T(!new)>(xs: seq<T>, p: T -> bool)
    requires forall x :: x in xs ==> p(x)
    ensures Filter(xs, p) == xs
    decreases |xs|
  {
    if |xs| > 0 {
      FilterAll(xs[1..], p);
    }
  }

  /** Filtering depends only on the predicate's values at the elements. */
  lemma {:induction false} FilterExtensional<T(!new)>(xs: seq<T>, p: T -> bool, q: T -> bool)
    requires forall x :: x in xs ==> p(x) == q(x)
    ensures Filter(xs, p) == Filter(xs, q)
    decreases |xs|
  {
    if |xs| > 0 {
      FilterExtensional(xs[1..], p, q);
    }
  }

  /** A weaker predicate keeps more: filtering by `p` gives a subsequence of
      filtering by `q` when `p` implies `q` on the elements. */
  lemma {:induction false} FilterMonotone<T(!new)>(xs: seq<T>, p: T -> bool, q: T -> bool)
    requires forall x :: x in xs && p(x) ==> q(x)
    ensures IsSubseq(Filter(xs, p), Filter(xs, q))
    decreases |xs|
  {
    if |xs| > 0 {
      FilterMonotone(xs[1..], p, q);
      var fp, fq := Filter(xs[1..], p), Filter(xs[1..], q);
      if p(xs[0]) {
        assert Filter(xs, p) == [xs[0]] + fp;
        assert Filter(xs, q) == [xs[0]] + fq;
      } else if q(xs[0]) {
        assert Filter(xs, q) == [xs[0]] + fq;
        assert Filter(xs, q)[1..] == fq;
      }
    }
  }
}
