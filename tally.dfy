/** Row filters and counts: the boolean-mask selections and `count`
    aggregations the table code applies to whole columns. */
module Tally {
  import opened Scoring

  /** Rows of one tier (`df['tier'] == t`). */
  function InTier(t: int): Row -> bool
  {
    (r: Row) => r.tier == t
  }

  /** Rows whose final score reaches the cutoff (`df['final_score'] >= c`). */
  function AtOrAbove(c: int): Row -> bool
  {
    (r: Row) => r.final >= c
  }

  /** Rows whose final score is strictly above f. */
  function Above(f: int): Row -> bool
  {
    (r: Row) => r.final > f
  }

  /** Rows whose final score is exactly f. */
  function AtScore(f: int): Row -> bool
  {
    (r: Row) => r.final == f
  }

  /** Conjunction of two masks (`mask1 & mask2`). */
  function Both(p: Row -> bool, q: Row -> bool): Row -> bool
  {
    (r: Row) => p(r) && q(r)
  }

  /** Number of rows the mask selects. */
  function Count(s: seq<Row>, p: Row -> bool): (n: nat)
    ensures n <= |s|
  {
    if s == [] then 0 else (if p(s[0]) then 1 else 0) + Count(s[1..], p)
  }

  /** The rows the mask selects, in their original order (`df[mask]`). */
  function Filter(s: seq<Row>, p: Row -> bool): (r: seq<Row>)
    ensures |r| == Count(s, p)
    ensures forall x :: x in r ==> x in s && p(x)
  {
    if s == [] then []
    else
      assert s == [s[0]] + s[1..];
      if p(s[0]) then [s[0]] + Filter(s[1..], p)
      else Filter(s[1..], p)
  }

  /** Counting splits over concatenation. */
  lemma {:induction false} CountConcat(a: seq<Row>, b: seq<Row>, p: Row -> bool)
    ensures Count(a + b, p) == Count(a, p) + Count(b, p)
  {
    if a == [] {
      assert a + b == b;
    } else {
      assert (a + b)[0] == a[0];
      assert (a + b)[1..] == a[1..] + b;
      CountConcat(a[1..], b, p);
    }
  }

  /** Counting does not depend on row order. */
  lemma {:induction false} CountPermutation(a: seq<Row>, b: seq<Row>, p: Row -> bool)
    requires multiset(a) == multiset(b)
    ensures Count(a, p) == Count(b, p)
    decreases |a|
  {
    if a == [] {
      assert |multiset(b)| == 0;
    } else {
      var x := a[0];
      assert a == [x] + a[1..];
      assert x in multiset(b);
      var j :| 0 <= j < |b| && b[j] == x;
      assert b == b[..j] + [x] + b[j + 1..];
      var rest := b[..j] + b[j + 1..];
      assert multiset(b) == multiset(rest) + multiset{x};
      assert multiset(a) == multiset{x} + multiset(a[1..]);
      assert multiset(a[1..]) == multiset(a) - multiset{x};
      assert multiset(rest) == multiset(b) - multiset{x};
      CountPermutation(a[1..], rest, p);
      CountConcat(b[..j] + [x], b[j + 1..], p);
      CountConcat(b[..j], [x], p);
      CountConcat(b[..j], b[j + 1..], p);
    }
  }

  /** Two masks that agree on every row count the same. */
  lemma {:induction false} CountAgree(s: seq<Row>, p: Row -> bool, q: Row -> bool)
    requires forall x :: x in s ==> (p(x) <==> q(x))
    ensures Count(s, p) == Count(s, q)
  {
    if s != [] {
      assert s[0] in s;
      CountAgree(s[1..], p, q);
    }
  }

  /** A weaker mask never counts fewer rows. */
  lemma {:induction false} CountMonotone(s: seq<Row>, p: Row -> bool, q: Row -> bool)
    requires forall x :: x in s && p(x) ==> q(x)
    ensures Count(s, p) <= Count(s, q)
  {
    if s != [] {
      assert s[0] in s;
      CountMonotone(s[1..], p, q);
    }
  }

  /** A mask that selects no row counts zero. */
  lemma {:induction false} CountNone(s: seq<Row>, p: Row -> bool)
    requires forall x :: x in s ==> !p(x)
    ensures Count(s, p) == 0
  {
    if s != [] {
      assert s[0] in s;
      CountNone(s[1..], p);
    }
  }

  /** Filtering by p and then counting q counts the rows that satisfy both. */
  lemma {:induction false} CountAfterFilter(s: seq<Row>, p: Row -> bool, q: Row -> bool)
    ensures Count(Filter(s, p), q) == Count(s, Both(p, q))
  {
    if s != [] {
      CountAfterFilter(s[1..], p, q);
      if p(s[0]) {
        assert Filter(s, p) == [s[0]] + Filter(s[1..], p);
        CountConcat([s[0]], Filter(s[1..], p), q);
      }
    }
  }

  /** Sum of a column of counts. */
  function Sum(xs: seq<nat>): nat
  {
    if xs == [] then 0 else Sum(xs[..|xs| - 1]) + xs[|xs| - 1]
  }
}
