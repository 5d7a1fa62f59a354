/** Row selection as pandas does it with a boolean mask (`df[mask]`), and
    the counting facts (`len(df[mask])`) the analyses rely on. */
module Counting {

  /** The elements of `s` that satisfy `p`, in their order in `s`. */
  function Filter<T>(s: seq<T>, p: T -> bool): (r: seq<T>)
    ensures |r| <= |s|
  {
    if s == [] then []
    else
      var init := Filter(s[..|s| - 1], p);
      var last := s[|s| - 1];
      assert s == s[..|s| - 1] + [last];
      init + (if p(last) then [last] else [])
  }

  /** Extending a sequence by one element extends its selection by that
      element when it qualifies. */
  lemma FilterSnoc<T>(s: seq<T>, x: T, p: T -> bool)
    ensures Filter(s + [x], p) == Filter(s, p) + (if p(x) then [x] else [])
  {
    assert (s + [x])[..|s + [x]| - 1] == s;
  }

  /** One more element of `s` adds one to the count of its prefix exactly
      when it qualifies. */
  lemma FilterCountPrefix<T>(s: seq<T>, i: int, p: T -> bool)
    requires 0 <= i < |s|
    ensures |Filter(s[..i + 1], p)| == |Filter(s[..i], p)| + (if p(s[i]) then 1 else 0)
  {
    assert s[..i + 1] == s[..i] + [s[i]];
    FilterSnoc(s[..i], s[i], p);
  }

  /** An element is selected exactly when it is in the sequence and
      satisfies the mask. */
  lemma {:induction false} FilterMembership<T>(s: seq<T>, p: T -> bool, x: T)
    ensures x in Filter(s, p) <==> x in s && p(x)
    decreases |s|
  {
    if s != [] {
      var s' := s[..|s| - 1];
      FilterMembership(s', p, x);
      assert s == s' + [s[|s| - 1]];
    }
  }

  /** Selecting from a concatenation selects from each part. */
  lemma {:induction false} FilterAppend<T>(a: seq<T>, b: seq<T>, p: T -> bool)
    ensures Filter(a + b, p) == Filter(a, p) + Filter(b, p)
    decreases |b|
  {
    if b == [] {
      assert a + b == a;
    } else {
      var b' := b[..|b| - 1];
      assert a + b == (a + b') + [b[|b| - 1]];
      FilterSnoc(a + b', b[|b| - 1], p);
      FilterAppend(a, b', p);
      FilterSnoc(b', b[|b| - 1], p);
      assert b == b' + [b[|b| - 1]];
    }
  }

  /** Two masks applied one after the other select what their conjunction
      selects (`df[m1][m2]` is `df[m1 & m2]`). */
  lemma {:induction false} FilterFilter<T>(s: seq<T>, p: T -> bool, q: T -> bool, pq: T -> bool)
    requires forall x :: pq(x) == (p(x) && q(x))
    ensures Filter(Filter(s, p), q) == Filter(s, pq)
    decreases |s|
  {
    if s != [] {
      var s' := s[..|s| - 1];
      var x := s[|s| - 1];
      FilterFilter(s', p, q, pq);
      if p(x) {
        assert Filter(s, p) == Filter(s', p) + [x];
        FilterSnoc(Filter(s', p), x, q);
      } else {
        assert Filter(s, p) == Filter(s', p) + [];
        assert Filter(s', p) + [] == Filter(s', p);
      }
    }
  }

  /** A mask implied by another selects no more rows. */
  lemma {:induction false} FilterCountMonotone<T>(s: seq<T>, p: T -> bool, q: T -> bool)
    requires forall x :: p(x) ==> q(x)
    ensures |Filter(s, p)| <= |Filter(s, q)|
    decreases |s|
  {
    if s != [] {
      FilterCountMonotone(s[..|s| - 1], p, q);
    }
  }

  /** Two masks that never hold together select, between them, exactly the
      rows their disjunction selects. */
  lemma {:induction false} FilterCountDisjointUnion<T>(s: seq<T>, p: T -> bool, q: T -> bool, pq: T -> bool)
    requires forall x :: !(p(x) && q(x))
    requires forall x :: pq(x) == (p(x) || q(x))
    ensures |Filter(s, p)| + |Filter(s, q)| == |Filter(s, pq)|
    decreases |s|
  {
    if s != [] {
      FilterCountDisjointUnion(s[..|s| - 1], p, q, pq);
    }
  }

  /** A mask and its negation split the rows. */
  lemma {:induction false} FilterCountComplement<T>(s: seq<T>, p: T -> bool, q: T -> bool)
    requires forall x :: q(x) == !p(x)
    ensures |Filter(s, p)| + |Filter(s, q)| == |s|
    decreases |s|
  {
    if s != [] {
      FilterCountComplement(s[..|s| - 1], p, q);
    }
  }

  /** A mask no element satisfies selects nothing. */
  lemma {:induction false} FilterNone<T>(s: seq<T>, p: T -> bool)
    requires forall i :: 0 <= i < |s| ==> !p(s[i])
    ensures Filter(s, p) == []
    decreases |s|
  {
    if s != [] {
      FilterNone(s[..|s| - 1], p);
    }
  }

  /** Concatenating the selections of two disjoint masks (`pd.concat`) and
      then selecting by a third mask counts the rows that satisfy either of
      the first two and the third. */
  lemma FilterConcatCount<T>(s: seq<T>, a: T -> bool, b: T -> bool, q: T -> bool, abq: T -> bool)
    requires forall x :: !(a(x) && b(x))
    requires forall x :: abq(x) == ((a(x) || b(x)) && q(x))
    ensures |Filter(Filter(s, a) + Filter(s, b), q)| == |Filter(s, abq)|
  {
    FilterAppend(Filter(s, a), Filter(s, b), q);
    var aq := x => a(x) && q(x);
    var bq := x => b(x) && q(x);
    FilterFilter(s, a, q, aq);
    FilterFilter(s, b, q, bq);
    FilterCountDisjointUnion(s, aq, bq, abq);
  }

  /** Moving one element to the end does not change how many are selected. */
  lemma FilterCountMoveToEnd<T>(a: seq<T>, x: T, b: seq<T>, p: T -> bool)
    ensures |Filter(a + [x] + b, p)| == |Filter(a + b + [x], p)|
  {
    assert a + [x] + b == (a + [x]) + b;
    FilterAppend(a + [x], b, p);
    FilterSnoc(a, x, p);
    FilterSnoc(a + b, x, p);
    FilterAppend(a, b, p);
  }
}
