/**
 * The sequence operations behind the store's record scans: the filter that
 * `query` and `delete` use, and the conditional map that `update` performs.
 */
module Sequences {

  /** Every element of `s` satisfies `p`. */
  ghost predicate All<T>(s: seq<T>, p: T -> bool) {
    forall x :: x in s ==> p(x)
  }

  /** The complement of a predicate (Python's `not condition_func(record)`). */
  function Negate<T>(p: T -> bool): T -> bool {
    x => !p(x)
  }

  /**
   * `a` is a subsequence of `b`: `a` is obtained from `b` by dropping
   * elements while keeping the relative order of the rest.
   */
  ghost predicate IsSubsequence<T>(a: seq<T>, b: seq<T>)
    decreases |b|
  {
    if a == [] then true
    else if b == [] then false
    else if a[0] == b[0] then IsSubsequence(a[1..], b[1..])
    else IsSubsequence(a, b[1..])
  }

  /** The elements of `s` that satisfy `p`, in their original order. */
  function Filter<T(==)>(s: seq<T>, p: T -> bool): (r: seq<T>)
    ensures All(r, p)
    ensures multiset(r) <= multiset(s)
  {
    if s == [] then []
    else
      assert s == [s[0]] + s[1..];
      if p(s[0]) then [s[0]] + Filter(s[1..], p) else Filter(s[1..], p)
  }

  /** No element of `s` that satisfies `p` is dropped by `Filter`. */
  lemma {:induction false} FilterKeepsMatches<T>(s: seq<T>, p: T -> bool, x: T)
    requires x in s && p(x)
    ensures x in Filter(s, p)
  {
    if s[0] != x {
      assert x in s[1..];
      FilterKeepsMatches(s[1..], p, x);
    }
  }

  /** Membership in a filtered sequence, in both directions. */
  lemma {:induction false} FilterMembership<T>(s: seq<T>, p: T -> bool)
    ensures forall x :: x in Filter(s, p) <==> x in s && p(x)
  {
    forall x | x in s && p(x) ensures x in Filter(s, p) {
      FilterKeepsMatches(s, p, x);
    }
    forall x | x in Filter(s, p) ensures x in s {
      assert x in multiset(Filter(s, p));
    }
  }

  /** `Filter` keeps the relative order of the elements it keeps. */
  lemma {:induction false} FilterIsSubsequence<T>(s: seq<T>, p: T -> bool)
    ensures IsSubsequence(Filter(s, p), s)
  {
    if s != [] {
      FilterIsSubsequence(s[1..], p);
      if !p(s[0]) {
        var r := Filter(s[1..], p);
        if r != [] {
          assert r[0] in r;
          assert r[0] != s[0];
        }
      }
    }
  }

  /**
   * `Filter` keeps everything that satisfies `p`: every order-preserving
   * selection of `s` whose elements all satisfy `p` is also a selection of
   * `Filter(s, p)`.
   */
  lemma {:induction false} SubsequenceOfFilter<T>(q: seq<T>, s: seq<T>, p: T -> bool)
    requires IsSubsequence(q, s) && All(q, p)
    ensures IsSubsequence(q, Filter(s, p))
  {
    if q != [] {
      if q[0] == s[0] {
        assert q[0] in q;
        assert All(q[1..], p) by {
          forall x | x in q[1..] ensures p(x) { assert x in q; }
        }
        SubsequenceOfFilter(q[1..], s[1..], p);
      } else {
        SubsequenceOfFilter(q, s[1..], p);
      }
    }
  }

  /** `Filter(s, p)` is the longest order-preserving selection of `s` that satisfies `p`. */
  lemma {:induction false} FilterMaximal<T>(s: seq<T>, p: T -> bool)
    ensures forall q :: IsSubsequence(q, s) && All(q, p) ==> IsSubsequence(q, Filter(s, p))
  {
    forall q | IsSubsequence(q, s) && All(q, p) ensures IsSubsequence(q, Filter(s, p)) {
      SubsequenceOfFilter(q, s, p);
    }
  }

  /**
   * Filtering by `p` and by its complement splits `s` into two parts that
   * together hold every element of `s` exactly as often as `s` does.
   */
  lemma {:induction false} FilterPartition<T>(s: seq<T>, p: T -> bool)
    ensures multiset(Filter(s, p)) + multiset(Filter(s, Negate(p))) == multiset(s)
  {
    if s != [] {
      var t, q := s[1..], Negate(p);
      FilterPartition(t, p);
      assert s == [s[0]] + t;
      assert q(s[0]) == !p(s[0]);
      if p(s[0]) {
        assert Filter(s, q) == Filter(t, q);
      } else {
        assert Filter(s, p) == Filter(t, p);
      }
    }
  }

  /** The records a filter by the complement keeps number those of `s` less those matching `p`. */
  lemma {:induction false} FilterComplementLength<T>(s: seq<T>, p: T -> bool)
    ensures |Filter(s, Negate(p))| == |s| - |Filter(s, p)|
  {
    FilterPartition(s, p);
    assert |multiset(Filter(s, p)) + multiset(Filter(s, Negate(p)))| == |multiset(s)|;
  }

  /** Filtering distributes over concatenation. */
  lemma {:induction false} FilterAppend<T>(a: seq<T>, b: seq<T>, p: T -> bool)
    ensures Filter(a + b, p) == Filter(a, p) + Filter(b, p)
  {
    if a != [] {
      assert (a + b)[1..] == a[1..] + b;
      FilterAppend(a[1..], b, p);
    } else {
      assert a + b == b;
    }
  }

  /** Filtering a second time by the same predicate changes nothing. */
  lemma {:induction false} FilterIdempotent<T>(s: seq<T>, p: T -> bool)
    ensures Filter(Filter(s, p), p) == Filter(s, p)
  {
    if s != [] {
      FilterIdempotent(s[1..], p);
    }
  }

  /** When nothing in `s` satisfies `p`, the complement filter keeps all of `s`. */
  lemma {:induction false} FilterNoneMatch<T>(s: seq<T>, p: T -> bool)
    requires forall x :: x in s ==> !p(x)
    ensures Filter(s, Negate(p)) == s
    ensures Filter(s, p) == []
  {
    if s != [] {
      assert s[0] in s;
      FilterNoneMatch(s[1..], p);
      assert s == [s[0]] + s[1..];
    }
  }

  /**
   * The records of `s` after a scan that replaces each record satisfying
   * `c` with `f` of it and leaves every other record where it was.
   */
  function Updated<T>(s: seq<T>, c: T -> bool, f: T -> T): (r: seq<T>)
    ensures |r| == |s|
  {
    if s == [] then []
    else [if c(s[0]) then f(s[0]) else s[0]] + Updated(s[1..], c, f)
  }

  /** Slot by slot: a matching record is replaced by its image, any other stays. */
  lemma {:induction false} UpdatedAt<T>(s: seq<T>, c: T -> bool, f: T -> T, i: int)
    requires 0 <= i < |s|
    ensures Updated(s, c, f)[i] == if c(s[i]) then f(s[i]) else s[i]
  {
    if i > 0 {
      UpdatedAt(s[1..], c, f, i - 1);
    }
  }

  /** A conditional scan distributes over concatenation. */
  lemma {:induction false} UpdatedAppend<T>(a: seq<T>, b: seq<T>, c: T -> bool, f: T -> T)
    ensures Updated(a + b, c, f) == Updated(a, c, f) + Updated(b, c, f)
  {
    if a != [] {
      assert (a + b)[1..] == a[1..] + b;
      UpdatedAppend(a[1..], b, c, f);
    } else {
      assert a + b == b;
    }
  }

  /** A scan whose condition matches nothing leaves the records as they were. */
  lemma {:induction false} UpdatedNoneMatch<T>(s: seq<T>, c: T -> bool, f: T -> T)
    requires forall x :: x in s ==> !c(x)
    ensures Updated(s, c, f) == s
  {
    if s != [] {
      assert s[0] in s;
      UpdatedNoneMatch(s[1..], c, f);
      assert s == [s[0]] + s[1..];
    }
  }
}
