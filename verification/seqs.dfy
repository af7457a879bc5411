/** Order-preserving list operations: the model of `Array.prototype.filter`
    and `Array.prototype.map` as the page controllers use them. */
module Seqs {

  /** `s.filter(p)`: the elements satisfying `p`, in their original order. */
  function Filter<T>(s: seq<T>, p: T -> bool): (r: seq<T>)
    ensures |r| <= |s|
    ensures forall i :: 0 <= i < |r| ==> r[i] in s && p(r[i])
    ensures forall i :: 0 <= i < |s| && p(s[i]) ==> s[i] in r
  {
    if |s| == 0 then []
    else (if p(s[0]) then [s[0]] else []) + Filter(s[1..], p)
  }

  /** `a` can be obtained from `b` by deleting elements (order is kept). */
  ghost predicate IsSubsequence<T>(a: seq<T>, b: seq<T>)
    decreases |b|
  {
    |a| == 0 || (|b| > 0 && ((a[0] == b[0] && IsSubsequence(a[1..], b[1..])) || IsSubsequence(a, b[1..])))
  }

  /** The filtered list keeps the relative order of the original. */
  lemma {:induction false} FilterIsSubsequence<T>(s: seq<T>, p: T -> bool)
    ensures IsSubsequence(Filter(s, p), s)
  {
    if |s| > 0 {
      FilterIsSubsequence(s[1..], p);
      var rest := Filter(s[1..], p);
      if p(s[0]) {
        assert Filter(s, p) == [s[0]] + rest;
        assert ([s[0]] + rest)[1..] == rest;
      } else {
        assert Filter(s, p) == rest;
      }
    }
  }

  /** Filtering distributes over concatenation. */
  lemma {:induction false} FilterConcat<T>(a: seq<T>, b: seq<T>, p: T -> bool)
    ensures Filter(a + b, p) == Filter(a, p) + Filter(b, p)
  {
    if |a| == 0 {
      assert a + b == b;
    } else {
      assert (a + b)[0] == a[0];
      assert (a + b)[1..] == a[1..] + b;
      FilterConcat(a[1..], b, p);
    }
  }

  /** A filter every element passes is the identity. */
  lemma {:induction false} FilterAll<T>(s: seq<T>, p: T -> bool)
    requires forall i :: 0 <= i < |s| ==> p(s[i])
    ensures Filter(s, p) == s
  {
    if |s| > 0 {
      FilterAll(s[1..], p);
      assert [s[0]] + s[1..] == s;
    }
  }

  /** Two predicates that agree on the elements of `s` filter it identically. */
  lemma {:induction false} FilterCongruent<T>(s: seq<T>, p: T -> bool, q: T -> bool)
    requires forall i :: 0 <= i < |s| ==> p(s[i]) == q(s[i])
    ensures Filter(s, p) == Filter(s, q)
  {
    if |s| > 0 {
      FilterCongruent(s[1..], p, q);
    }
  }

  /** Filtering with a stronger predicate gives a sub-list of filtering with a weaker one. */
  lemma {:induction false} FilterNarrows<T>(s: seq<T>, p: T -> bool, q: T -> bool)
    requires forall i :: 0 <= i < |s| ==> p(s[i]) ==> q(s[i])
    ensures IsSubsequence(Filter(s, p), Filter(s, q))
  {
    if |s| > 0 {
      FilterNarrows(s[1..], p, q);
      var rp := Filter(s[1..], p);
      var rq := Filter(s[1..], q);
      if p(s[0]) {
        assert Filter(s, p) == [s[0]] + rp;
        assert Filter(s, q) == [s[0]] + rq;
        assert ([s[0]] + rp)[1..] == rp;
        assert ([s[0]] + rq)[1..] == rq;
      } else if q(s[0]) {
        assert Filter(s, p) == rp;
        assert Filter(s, q) == [s[0]] + rq;
        assert ([s[0]] + rq)[1..] == rq;
        SubsequenceOfTail(rp, s[0], rq);
      } else {
        assert Filter(s, p) == rp;
        assert Filter(s, q) == rq;
      }
    }
  }

  lemma SubsequenceOfTail<T>(a: seq<T>, x: T, b: seq<T>)
    requires IsSubsequence(a, b)
    ensures IsSubsequence(a, [x] + b)
  {
    assert ([x] + b)[1..] == b;
  }

  /** `s.map(x => p(x) ? f(x) : x)`: rewrite the matching elements in place. */
  function MapWhere<T>(s: seq<T>, p: T -> bool, f: T -> T): (r: seq<T>)
    ensures |r| == |s|
    ensures forall i :: 0 <= i < |s| ==> r[i] == (if p(s[i]) then f(s[i]) else s[i])
  {
    seq(|s|, i requires 0 <= i < |s| => if p(s[i]) then f(s[i]) else s[i])
  }

  /** Rewriting elements that no predicate selects leaves the list unchanged. */
  lemma MapWhereNoMatch<T>(s: seq<T>, p: T -> bool, f: T -> T)
    requires forall i :: 0 <= i < |s| ==> !p(s[i])
    ensures MapWhere(s, p, f) == s
  {
  }
}
