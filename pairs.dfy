/**
 * One or two intervals, the left-most first: the result of `difference` and
 * `symmetric_difference`.  The source declares this type twice, with the same
 * definition (`Pair` and the two-interval `MultiInterval`); it is modelled once.
 * The two interval operations that build it live here as well, because Dafny
 * modules cannot import each other in a cycle.
 */
module Pairs {
  import opened Bounds
  import opened Intervals
  import opened IntervalProperties

  datatype Pair = One(only: Interval) | Two(first: Interval, second: Interval)
  {
    predicate Contains(v: int) {
      match this
      case One(i) => i.Contains(v)
      case Two(i, j) => i.Contains(v) || j.Contains(v)
    }

    /** The derived `==`: same shape, intervals equal as intervals. */
    predicate Equivalent(other: Pair) {
      match (this, other)
      case (One(i), One(j)) => i.Equivalent(j)
      case (Two(i1, i2), Two(j1, j2)) => i1.Equivalent(j1) && i2.Equivalent(j2)
      case _ => false
    }
  }

  /** `new_from_two`: an empty interval is dropped; two intervals are kept only when both hold values. */
  function NewFromTwo(a: Interval, b: Interval): (r: Pair)
    ensures forall v :: r.Contains(v) <==> a.Contains(v) || b.Contains(v)
    ensures r.Two? ==> !r.first.IsEmpty() && !r.second.IsEmpty()
    ensures r.One? ==> a.IsEmpty() || b.IsEmpty()
    ensures a.IsEmpty() ==> r == One(b)
    ensures !a.IsEmpty() && b.IsEmpty() ==> r == One(a)
    ensures !a.IsEmpty() && !b.IsEmpty() ==> r == Two(a, b)
  {
    EmptyIffNoValue(a);
    EmptyIffNoValue(b);
    if a.IsEmpty() then One(b)
    else if b.IsEmpty() then One(a)
    else Two(a, b)
  }

  /** `difference`: the values of `a` that are not in `b`. */
  function Difference(a: Interval, b: Interval): Pair {
    if a.IsEmpty() || b.IsEmpty() then One(a)
    else NewFromTwo(
      Interval(a.lower, Min(b.lower, a.upper)),
      Interval(Max(b.upper, a.lower), a.upper))
  }

  /** `symmetric_difference`: the values in exactly one of `a` and `b`. */
  function SymmetricDifference(a: Interval, b: Interval): Pair {
    if a.IsEmpty() || b.IsEmpty() then NewFromTwo(a, b)
    else NewFromTwo(
      Interval(Min(a.lower, b.lower), Min(Max(a.lower, b.lower), Min(a.upper, b.upper))),
      Interval(Max(Min(a.upper, b.upper), Max(a.lower, b.lower)), Max(a.upper, b.upper)))
  }

  lemma {:induction false} DifferenceMeaning(a: Interval, b: Interval)
    ensures forall v :: Difference(a, b).Contains(v) <==> a.Contains(v) && !b.Contains(v)
  {
    EmptyIffNoValue(b);
    if !a.IsEmpty() && !b.IsEmpty() {
      NonEmptyOrdered(b);
    }
  }

  /** When `difference` returns two intervals, all of `b` lies between them. */
  lemma {:induction false} DifferenceLeftMostFirst(a: Interval, b: Interval)
    requires Difference(a, b).Two?
    ensures Difference(a, b).first.StrictlyLeftOfInterval(b)
    ensures b.StrictlyLeftOfInterval(Difference(a, b).second)
    ensures Difference(a, b).first.StrictlyLeftOfInterval(Difference(a, b).second)
  {
    LeTransitive(Difference(a, b).first.upper, b.lower, b.upper);
    LeTransitive(Difference(a, b).first.upper, b.upper, Difference(a, b).second.lower);
  }

  lemma {:induction false} SymmetricDifferenceMeaning(a: Interval, b: Interval)
    ensures forall v :: SymmetricDifference(a, b).Contains(v) <==> (a.Contains(v) != b.Contains(v))
  {
    EmptyIffNoValue(a);
    EmptyIffNoValue(b);
    if !a.IsEmpty() && !b.IsEmpty() {
      NonEmptyOrdered(a);
      NonEmptyOrdered(b);
    }
  }

  /** When `symmetric_difference` returns two intervals, the first is left of the second. */
  lemma {:induction false} SymmetricDifferenceLeftMostFirst(a: Interval, b: Interval)
    requires SymmetricDifference(a, b).Two?
    ensures SymmetricDifference(a, b).first.StrictlyLeftOfInterval(SymmetricDifference(a, b).second)
  {
  }

  /** `symmetric_difference` gives the same result, up to `==`, for both argument orders. */
  lemma SymmetricDifferenceSymmetric(a: Interval, b: Interval)
    ensures SymmetricDifference(a, b).Equivalent(SymmetricDifference(b, a))
  {
    if !a.IsEmpty() && !b.IsEmpty() {
      var lo := Max(a.lower, b.lower);
      var up := Min(a.upper, b.upper);
      MinMaxRespectEq(a.lower, b.lower, a.lower, b.lower);
      MinMaxRespectEq(a.upper, b.upper, a.upper, b.upper);
      MinMaxRespectEq(lo, up, Max(b.lower, a.lower), Min(b.upper, a.upper));
      MinMaxRespectEq(up, lo, Min(b.upper, a.upper), Max(b.lower, a.lower));
      var x := Interval(Min(a.lower, b.lower), Min(lo, up));
      var y := Interval(Max(up, lo), Max(a.upper, b.upper));
      var x' := Interval(Min(b.lower, a.lower), Min(Max(b.lower, a.lower), Min(b.upper, a.upper)));
      var y' := Interval(Max(Min(b.upper, a.upper), Max(b.lower, a.lower)), Max(b.upper, a.upper));
      SameBoundsEquivalent(x, x');
      SameBoundsEquivalent(y, y');
      NewFromTwoRespectsEquivalent(x, y, x', y');
    }
  }

  /** Intervals whose bounds compare Equal are `==`, and empty alike. */
  lemma SameBoundsEquivalent(i: Interval, j: Interval)
    requires Eq(i.lower, j.lower) && Eq(i.upper, j.upper)
    ensures i.Equivalent(j) && (i.IsEmpty() <==> j.IsEmpty())
  {
    EqIsSamePosition(i.lower, j.lower);
    EqIsSamePosition(i.upper, j.upper);
  }

  /** `new_from_two` of `==` intervals gives `==` results. */
  lemma NewFromTwoRespectsEquivalent(a: Interval, b: Interval, a': Interval, b': Interval)
    requires a.Equivalent(a') && b.Equivalent(b')
    ensures NewFromTwo(a, b).Equivalent(NewFromTwo(a', b'))
  {
  }

  /** Examples from the library's tests. */
  lemma DifferenceExamples()
    ensures Difference(ClosedClosed(10, 30), Empty()) == One(ClosedClosed(10, 30))
    ensures Difference(ClosedClosed(10, 30), ClosedClosed(1, 50)).only.IsEmpty()
    ensures Difference(ClosedClosed(1, 50), ClosedClosed(10, 30))
            == Two(ClosedOpen(1, 10), OpenClosed(30, 50))
  {
  }

  lemma DifferenceOverlapExamples()
    ensures Difference(ClosedClosed(10, 30), ClosedClosed(1, 5)) == One(ClosedClosed(10, 30))
    ensures Difference(ClosedClosed(10, 30), ClosedClosed(1, 15)) == One(OpenClosed(15, 30))
    ensures Difference(ClosedClosed(10, 30), ClosedClosed(25, 40)) == One(ClosedOpen(10, 25))
  {
  }

  lemma SymmetricDifferenceExamples()
    ensures SymmetricDifference(ClosedClosed(1, 50), ClosedClosed(10, 30))
            == Two(ClosedOpen(1, 10), OpenClosed(30, 50))
    ensures SymmetricDifference(ClosedClosed(10, 30), ClosedClosed(1, 50))
            == Two(ClosedOpen(1, 10), OpenClosed(30, 50))
  {
  }

  lemma SymmetricDifferenceOverlapExamples()
    ensures SymmetricDifference(ClosedClosed(10, 30), ClosedClosed(1, 5))
            == Two(ClosedClosed(1, 5), ClosedClosed(10, 30))
    ensures SymmetricDifference(ClosedClosed(10, 30), ClosedClosed(25, 40))
            == Two(ClosedOpen(10, 25), OpenClosed(30, 40))
  {
  }
}
