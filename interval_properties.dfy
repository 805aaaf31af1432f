/**
 * What the interval operations mean in terms of the values the intervals
 * contain.
 */
module IntervalProperties {
  import opened Wrappers
  import opened Bounds
  import opened Intervals

  /** A value of a non-empty interval. */
  function SomeValue(i: Interval): (v: int)
    requires !i.IsEmpty()
    ensures i.Contains(v)
  {
    Separator(i.lower, i.upper)
  }

  /** In a non-empty interval, a value past the upper bound is also past the lower one. */
  lemma NonEmptyOrdered(i: Interval)
    requires !i.IsEmpty()
    ensures forall v :: i.upper.LeftOfPoint(v) ==> i.lower.LeftOfPoint(v)
  {
    LeIsCutInclusion(i.lower, i.upper);
  }

  /** `is_empty` holds exactly when the interval has no value. */
  lemma {:induction false} EmptyIffNoValue(i: Interval)
    ensures i.IsEmpty() <==> forall v :: !i.Contains(v)
  {
    if !i.IsEmpty() {
      assert i.Contains(SomeValue(i));
    }
  }

  /** `contains_interval` is inclusion of the value sets. */
  lemma {:induction false} ContainsIntervalIsSubset(a: Interval, b: Interval)
    ensures a.ContainsInterval(b) <==> forall v :: b.Contains(v) ==> a.Contains(v)
  {
    EmptyIffNoValue(b);
    if !b.IsEmpty() {
      if Le(a.lower, b.lower) && Le(b.upper, a.upper) {
        LeIsCutInclusion(a.lower, b.lower);
        LeIsCutInclusion(b.upper, a.upper);
      } else if !Le(a.lower, b.lower) {
        var v := Separator(b.lower, Min(a.lower, b.upper));
        assert b.Contains(v) && !a.Contains(v);
      } else {
        var v := Separator(Max(a.upper, b.lower), b.upper);
        assert b.Contains(v) && !a.Contains(v);
      }
    }
  }

  /** `equivalent` (and so `==`) holds exactly when the two intervals have the same values. */
  lemma {:induction false} EquivalentIsSameValues(a: Interval, b: Interval)
    ensures a.Equivalent(b) <==> forall v :: a.Contains(v) <==> b.Contains(v)
  {
    ContainsIntervalIsSubset(a, b);
    ContainsIntervalIsSubset(b, a);
    EmptyIffNoValue(a);
    EmptyIffNoValue(b);
    if !a.IsEmpty() && !b.IsEmpty() {
      assert a.Equivalent(b) <==> a.ContainsInterval(b) && b.ContainsInterval(a);
    }
  }

  /** `strictly_left_of(x)`: every value is below x. */
  lemma {:induction false} StrictlyLeftOfPointMeaning(i: Interval, x: int)
    ensures i.StrictlyLeftOfPoint(x) <==> forall v :: i.Contains(v) ==> v < x
  {
    EmptyIffNoValue(i);
    if !i.StrictlyLeftOfPoint(x) {
      var w := if i.lower.LeftOfPoint(x) then x else SomeValue(i);
      assert i.Contains(w) && w >= x;
    }
  }

  /** `strictly_right_of(x)`: every value is above x. */
  lemma {:induction false} StrictlyRightOfPointMeaning(i: Interval, x: int)
    ensures i.StrictlyRightOfPoint(x) <==> forall v :: i.Contains(v) ==> x < v
  {
    EmptyIffNoValue(i);
    if !i.StrictlyRightOfPoint(x) {
      var w := if i.upper.RightOfPoint(x) then x else SomeValue(i);
      assert i.Contains(w) && w <= x;
    }
  }

  /** `left_of(x)`: every value is at most x. */
  lemma {:induction false} LeftOfPointMeaning(i: Interval, x: int)
    ensures i.LeftOfPoint(x) <==> forall v :: i.Contains(v) ==> v <= x
  {
    EmptyIffNoValue(i);
    if !i.IsEmpty() {
      if Le(i.upper, RightOf(x)) {
        LeIsCutInclusion(i.upper, RightOf(x));
      } else {
        var w := Separator(Max(RightOf(x), i.lower), i.upper);
        assert i.Contains(w) && w > x;
      }
    }
  }

  /** `right_of(x)`: every value is at least x. */
  lemma {:induction false} RightOfPointMeaning(i: Interval, x: int)
    ensures i.RightOfPoint(x) <==> forall v :: i.Contains(v) ==> x <= v
  {
    EmptyIffNoValue(i);
    if !i.IsEmpty() {
      if Le(LeftOf(x), i.lower) {
        LeIsCutInclusion(LeftOf(x), i.lower);
      } else {
        var w := Separator(i.lower, Min(LeftOf(x), i.upper));
        assert i.Contains(w) && w < x;
      }
    }
  }

  /** `strictly_left_of_interval`: every value of `a` is below every value of `b`. */
  lemma {:induction false} StrictlyLeftOfIntervalMeaning(a: Interval, b: Interval)
    ensures a.StrictlyLeftOfInterval(b) <==>
            forall v, w :: a.Contains(v) && b.Contains(w) ==> v < w
  {
    EmptyIffNoValue(a);
    EmptyIffNoValue(b);
    if !a.IsEmpty() && !b.IsEmpty() {
      if Le(a.upper, b.lower) {
        LeIsCutInclusion(a.upper, b.lower);
      } else {
        var v := Separator(Max(a.lower, b.lower), a.upper);
        var w := if b.upper.RightOfPoint(v) then v else SomeValue(b);
        assert a.Contains(v) && b.Contains(w) && w <= v;
      }
    }
  }

  /** `strictly_right_of_interval`: every value of `a` is above every value of `b`. */
  lemma {:induction false} StrictlyRightOfIntervalMeaning(a: Interval, b: Interval)
    ensures a.StrictlyRightOfInterval(b) <==>
            forall v, w :: a.Contains(v) && b.Contains(w) ==> w < v
  {
    StrictlyLeftOfIntervalMeaning(b, a);
  }

  /**
   * `left_of_interval` as written compares `None == None` as equal, so an
   * interval unbounded above is "left of" one unbounded below.
   */
  lemma LeftOfIntervalCounterexample()
    ensures ClosedUnbounded(1).LeftOfInterval(UnboundedClosed(3))
    ensures ClosedUnbounded(1).Contains(5) && UnboundedClosed(3).Contains(0)
    ensures !ClosedUnbounded(1).LeftOfIntervalIntended(UnboundedClosed(3))
  {
  }

  /** Likewise for `right_of_interval`. */
  lemma RightOfIntervalCounterexample()
    ensures UnboundedClosed(3).RightOfInterval(ClosedUnbounded(1))
    ensures UnboundedClosed(3).Contains(0) && ClosedUnbounded(1).Contains(5)
    ensures !UnboundedClosed(3).RightOfIntervalIntended(ClosedUnbounded(1))
  {
  }

  /**
   * `left_of_interval` as written also compares the raw points of the two
   * bounds, so it does not respect `==`: `[1, 4)` equals `[1, 3]`, yet only
   * the second is found left of `[3, 5]`.
   */
  lemma LeftOfIntervalRepresentationCounterexample()
    ensures ClosedOpen(1, 4).Equivalent(ClosedClosed(1, 3))
    ensures ClosedClosed(1, 3).LeftOfInterval(ClosedClosed(3, 5))
    ensures !ClosedOpen(1, 4).LeftOfInterval(ClosedClosed(3, 5))
    ensures ClosedOpen(1, 4).LeftOfIntervalIntended(ClosedClosed(3, 5))
  {
  }

  /** Likewise `right_of_interval`: `[3, 5]` is found right of `[1, 3]` but not of the equal `[1, 4)`. */
  lemma RightOfIntervalRepresentationCounterexample()
    ensures ClosedOpen(1, 4).Equivalent(ClosedClosed(1, 3))
    ensures ClosedClosed(3, 5).RightOfInterval(ClosedClosed(1, 3))
    ensures !ClosedClosed(3, 5).RightOfInterval(ClosedOpen(1, 4))
    ensures ClosedClosed(3, 5).RightOfIntervalIntended(ClosedOpen(1, 4))
  {
  }

  /** The least value of a non-empty interval that is bounded below. */
  function FirstValue(i: Interval): (w: int)
    requires !i.IsEmpty() && !i.lower.LeftUnbounded?
    ensures i.Contains(w) && forall v :: i.Contains(v) ==> w <= v
  {
    var u := SomeValue(i);
    match i.lower
    case LeftOf(p) => assert i.upper.RightOfPoint(u); p
    case RightOf(p) => assert i.upper.RightOfPoint(u); p + 1
  }

  /** `left_of_interval` as documented: every value of `a` is at most every value of `b`. */
  lemma {:induction false} LeftOfIntervalIntendedMeaning(a: Interval, b: Interval)
    ensures a.LeftOfIntervalIntended(b) <==>
            forall v, w :: a.Contains(v) && b.Contains(w) ==> v <= w
  {
    EmptyIffNoValue(a);
    EmptyIffNoValue(b);
    if !a.IsEmpty() && !b.IsEmpty() {
      var s := OnePointRight(b.lower);
      LeIsCutInclusion(a.upper, s);
      if !Le(a.upper, s) {
        var u := SomeValue(a);
        if b.lower.LeftUnbounded? {
          var w := if SomeValue(b) < u then SomeValue(b) else u - 1;
          assert b.upper.RightOfPoint(SomeValue(b));
          assert a.Contains(u) && b.Contains(w) && w < u;
        } else {
          var w := FirstValue(b);
          var v := if u > w then u else w + 1;
          assert a.upper.RightOfPoint(w + 1);
          assert a.Contains(v) && b.Contains(w) && w < v;
        }
      }
    }
  }

  /** `right_of_interval` as documented: every value of `a` is at least every value of `b`. */
  lemma {:induction false} RightOfIntervalIntendedMeaning(a: Interval, b: Interval)
    ensures a.RightOfIntervalIntended(b) <==>
            forall v, w :: a.Contains(v) && b.Contains(w) ==> w <= v
  {
    LeftOfIntervalIntendedMeaning(b, a);
    assert a.RightOfIntervalIntended(b) == b.LeftOfIntervalIntended(a);
  }

  /** Apart from the unbounded case, `left_of_interval` as written only accepts what the documentation allows. */
  lemma {:induction false} LeftOfIntervalAsWrittenSound(a: Interval, b: Interval)
    requires a.LeftOfInterval(b) && a.upper.Value().Some?
    ensures a.LeftOfIntervalIntended(b)
  {
    StrictlyLeftOfIntervalMeaning(a, b);
    LeftOfIntervalIntendedMeaning(a, b);
  }

  /** Apart from the unbounded case, `right_of_interval` as written only accepts what the documentation allows. */
  lemma {:induction false} RightOfIntervalAsWrittenSound(a: Interval, b: Interval)
    requires a.RightOfInterval(b) && a.lower.Value().Some?
    ensures a.RightOfIntervalIntended(b)
  {
    StrictlyRightOfIntervalMeaning(a, b);
    RightOfIntervalIntendedMeaning(a, b);
  }

  /** `is_single`: an interval [A, A] holds A and nothing else. */
  lemma IsSingleMeaning(i: Interval)
    requires i.IsSingle()
    ensures !i.IsEmpty()
    ensures forall v :: i.Contains(v) <==> v == i.lower.point
  {
  }

  /** `convex_hull` holds every value of both intervals ... */
  lemma {:induction false} HullContainsBoth(a: Interval, b: Interval)
    ensures forall v :: a.Contains(v) || b.Contains(v) ==> ConvexHull(a, b).Contains(v)
  {
    EmptyIffNoValue(a);
    EmptyIffNoValue(b);
  }

  /** ... and lies inside every interval that holds them. */
  lemma {:induction false} HullIsSmallest(a: Interval, b: Interval, c: Interval)
    requires forall v :: a.Contains(v) || b.Contains(v) ==> c.Contains(v)
    ensures forall v :: ConvexHull(a, b).Contains(v) ==> c.Contains(v)
  {
    if !a.IsEmpty() && !b.IsEmpty() {
      var x, y := SomeValue(a), SomeValue(b);
      assert c.Contains(x) && c.Contains(y);
      NonEmptyOrdered(a);
      NonEmptyOrdered(b);
    }
  }

  /** `intersects`: some value lies in both. */
  lemma {:induction false} IntersectsMeaning(a: Interval, b: Interval)
    ensures a.Intersects(b) <==> exists v :: a.Contains(v) && b.Contains(v)
  {
    EmptyIffNoValue(a);
    EmptyIffNoValue(b);
    if a.Intersects(b) {
      var v := Separator(Max(a.lower, b.lower), Min(a.upper, b.upper));
      assert a.Contains(v) && b.Contains(v);
    } else if !a.IsEmpty() && !b.IsEmpty() {
      LtHasPointBetween(a.lower, b.upper);
      LtHasPointBetween(b.lower, a.upper);
    }
  }

  /** `intersection`: the values in both. */
  lemma IntersectionMeaning(a: Interval, b: Interval)
    ensures forall v :: Intersection(a, b).Contains(v) <==> a.Contains(v) && b.Contains(v)
  {
  }

  /** `between`: the values of the hull that lie in neither interval. */
  lemma {:induction false} BetweenMeaning(a: Interval, b: Interval)
    ensures forall v :: Between(a, b).Contains(v) <==>
      !a.IsEmpty() && !b.IsEmpty() &&
      ConvexHull(a, b).Contains(v) && !a.Contains(v) && !b.Contains(v)
  {
    if !a.IsEmpty() && !b.IsEmpty() {
      NonEmptyOrdered(a);
      NonEmptyOrdered(b);
    }
  }

  /** `contiguous`: the convex hull adds no value to the two intervals. */
  lemma {:induction false} ContiguousMeaning(a: Interval, b: Interval)
    ensures a.Contiguous(b) <==>
            forall v :: ConvexHull(a, b).Contains(v) <==> a.Contains(v) || b.Contains(v)
  {
    HullContainsBoth(a, b);
    if !a.IsEmpty() && !b.IsEmpty() {
      NonEmptyOrdered(a);
      NonEmptyOrdered(b);
      if a.Contiguous(b) {
        LeIsCutInclusion(a.lower, b.upper);
        LeIsCutInclusion(b.lower, a.upper);
      } else {
        var g := Gap(a, b);
        assert ConvexHull(a, b).Contains(g);
      }
    }
  }

  /** A value strictly between two non-contiguous intervals. */
  function Gap(a: Interval, b: Interval): (g: int)
    requires !a.IsEmpty() && !b.IsEmpty() && !a.Contiguous(b)
    ensures !a.Contains(g) && !b.Contains(g)
    ensures (a.upper.LeftOfPoint(g) && b.lower.RightOfPoint(g)) ||
            (b.upper.LeftOfPoint(g) && a.lower.RightOfPoint(g))
  {
    NonEmptyOrdered(a);
    NonEmptyOrdered(b);
    if Lt(a.upper, b.lower) then Separator(a.upper, b.lower) else Separator(b.upper, a.lower)
  }

  /** `union` returns the union when it is given one ... */
  lemma {:induction false} UnionSomeMeaning(a: Interval, b: Interval)
    requires Union(a, b).Some?
    ensures forall v :: Union(a, b).value.Contains(v) <==> a.Contains(v) || b.Contains(v)
  {
    ContiguousMeaning(a, b);
  }

  /** ... and returns None only when no interval holds exactly those values. */
  lemma {:induction false} UnionNoneMeaning(a: Interval, b: Interval, c: Interval)
    requires Union(a, b).None?
    ensures exists v :: c.Contains(v) != (a.Contains(v) || b.Contains(v))
  {
    var g := Gap(a, b);
    var x, y := SomeValue(a), SomeValue(b);
    if c.Contains(x) && c.Contains(y) {
      assert c.Contains(g);
    } else if !c.Contains(x) {
      assert a.Contains(x);
    } else {
      assert b.Contains(y);
    }
  }

  /**
   * As written, `partial_cmp` on two empty intervals is Greater, although
   * `==` says they are equal and each is Greater than the other.
   */
  lemma CompareEmptyCounterexample()
    ensures IntervalCompare(Empty(), Empty()) == Greater
    ensures Empty().Equivalent(Empty())
  {
  }

  /** The corrected comparison is antisymmetric ... */
  lemma CompareFixedReverse(a: Interval, b: Interval)
    ensures IntervalCompareFixed(b, a) == IntervalCompareFixed(a, b).Reverse()
  {
  }

  /** ... and its `<=` is a total preorder in which the empty interval comes first. */
  lemma IntervalLeTotal(a: Interval, b: Interval)
    ensures IntervalLe(a, b) || IntervalLe(b, a)
    ensures a.IsEmpty() ==> IntervalLe(a, b)
  {
  }

  lemma IntervalLeTransitive(a: Interval, b: Interval, c: Interval)
    requires IntervalLe(a, b) && IntervalLe(b, c)
    ensures IntervalLe(a, c)
  {
  }

  /** Between non-empty intervals, `<=` orders the lower bounds first. */
  lemma IntervalLeLower(a: Interval, b: Interval)
    requires !a.IsEmpty() && !b.IsEmpty() && IntervalLe(a, b)
    ensures Le(a.lower, b.lower)
  {
  }

  /** The membership checks of the library's containment test. */
  lemma ContainsExamples()
    ensures ClosedOpen(1, 10).Contains(1) && ClosedOpen(1, 10).Contains(2) && ClosedOpen(1, 10).Contains(9)
    ensures !ClosedOpen(1, 10).Contains(10) && !ClosedOpen(1, 10).Contains(11)
    ensures ClosedOpen(1, 10).ContainsInterval(Empty()) && !Empty().ContainsInterval(ClosedOpen(1, 10))
    ensures ClosedClosed(1, 5).Contains(1) && ClosedClosed(1, 5).Contains(5) && !ClosedClosed(1, 5).Contains(6)
    ensures ClosedOpen(1, 10).ContainsInterval(ClosedClosed(1, 5))
    ensures !ClosedClosed(1, 5).ContainsInterval(ClosedOpen(1, 10))
    ensures UnboundedClosed(10).Contains(0) && UnboundedClosed(10).ContainsInterval(ClosedOpen(1, 10))
  {
  }

  /** The integer cases of the library's test of bound accessors. */
  lemma InclusiveExamples()
    ensures ClosedOpen(1, 10).Lower() == Some(1) && ClosedOpen(1, 10).LowerInclusive()
    ensures ClosedOpen(1, 10).Upper() == Some(10) && !ClosedOpen(1, 10).UpperInclusive()
    ensures ClosedClosed(1, 10).LowerInclusive() && ClosedClosed(1, 10).UpperInclusive()
    ensures DoublyUnbounded().Lower() == None && !DoublyUnbounded().LowerInclusive()
    ensures DoublyUnbounded().Upper() == None && !DoublyUnbounded().UpperInclusive()
    ensures OpenUnbounded(1).Lower() == Some(1) && !OpenUnbounded(1).LowerInclusive()
    ensures OpenUnbounded(1).Upper() == None && !OpenUnbounded(1).UpperInclusive()
    ensures UnboundedClosed(10).Lower() == None && UnboundedClosed(10).Upper() == Some(10)
    ensures UnboundedClosed(10).UpperInclusive()
    ensures Empty().Lower() == None && !Empty().LowerInclusive()
    ensures Empty().Upper() == None && !Empty().UpperInclusive()
    ensures OpenClosed(3, 3).Lower() == Some(3) && !OpenClosed(3, 3).LowerInclusive()
    ensures OpenClosed(3, 3).Upper() == Some(3) && OpenClosed(3, 3).UpperInclusive()
    ensures Single(1).Lower() == Some(1) && Single(1).LowerInclusive()
    ensures Single(1).Upper() == Some(1) && Single(1).UpperInclusive()
  {
  }

  /** The integer cases of the library's emptiness test. */
  lemma EmptyExamples()
    ensures !ClosedOpen(1, 10).IsEmpty() && ClosedOpen(1, 1).IsEmpty() && ClosedOpen(1, 0).IsEmpty()
    ensures Empty().IsEmpty() && !Empty().Contains(1)
    ensures OpenOpen(0, 1).IsEmpty() && OpenOpen(2, 1).IsEmpty()
    ensures !DoublyUnbounded().IsEmpty()
  {
  }

  /** The integer cases of the library's single-value test. */
  lemma SingleExamples()
    ensures !Single(4).IsEmpty() && Single(4).IsSingle() && Single(4).Contains(4) && !Single(4).Contains(5)
    ensures !ClosedOpen(1, 4).IsSingle() && ClosedClosed(1, 1).IsSingle()
    ensures !OpenOpen(0, 2).IsSingle() && OpenOpen(0, 2).Contains(1)
  {
  }

  /** The integer cases of the library's equivalence test. */
  lemma EquivalentExamples()
    ensures ClosedOpen(1, 4).Equivalent(ClosedOpen(1, 4))
    ensures ClosedOpen(1, 4).Equivalent(ClosedClosed(1, 3))
    ensures ClosedOpen(1, 4).Equivalent(OpenClosed(0, 3))
    ensures ClosedOpen(1, 4).Equivalent(OpenOpen(0, 4))
    ensures OpenOpen(0, 4).Equivalent(ClosedClosed(1, 3))
    ensures !ClosedOpen(1, 4).Equivalent(ClosedClosed(1, 5))
    ensures !OpenOpen(0, 4).Equivalent(OpenOpen(-1, 3))
    ensures !ClosedOpen(1, 4).Equivalent(ClosedClosed(1, 4)) && !ClosedClosed(1, 3).Equivalent(ClosedClosed(1, 4))
    ensures UnboundedOpen(10).Equivalent(UnboundedClosed(9)) && !UnboundedOpen(10).Equivalent(ClosedOpen(1, 4))
    ensures OpenUnbounded(9).Equivalent(ClosedUnbounded(10)) && !OpenUnbounded(9).Equivalent(ClosedOpen(1, 4))
    ensures Empty().Equivalent(Empty()) && !Empty().Equivalent(ClosedOpen(1, 4))
  {
  }

  /** The interval comparisons of the library's ordering test. */
  lemma OrdExamples()
    ensures IntervalCompare(ClosedClosed(1, 20), ClosedClosed(1, 20)) == Equal
    ensures IntervalCompare(ClosedClosed(1, 20), OpenOpen(1, 20)) == Less
    ensures IntervalCompare(OpenOpen(1, 20), ClosedClosed(1, 20)) == Greater
    ensures IntervalCompare(ClosedClosed(1, 20), ClosedClosed(1, 30)) == Less
    ensures IntervalCompare(ClosedClosed(1, 30), ClosedClosed(1, 20)) == Greater
    ensures IntervalCompare(ClosedClosed(1, 20), UnboundedClosed(20)) == Greater
    ensures IntervalCompare(UnboundedClosed(20), ClosedClosed(1, 20)) == Less
    ensures IntervalCompare(ClosedClosed(1, 20), ClosedUnbounded(1)) == Less
    ensures IntervalCompare(ClosedUnbounded(1), ClosedClosed(1, 20)) == Greater
    ensures IntervalCompare(ClosedClosed(1, 20), Empty()) == Greater
    ensures IntervalCompare(Empty(), ClosedClosed(1, 20)) == Less
  {
  }

  /** The point comparisons of the library's test of left-of and right-of. */
  lemma LeftOfPointExamples()
    ensures ClosedOpen(3, 5).StrictlyLeftOfPoint(6) && ClosedOpen(3, 5).StrictlyLeftOfPoint(5)
    ensures !ClosedOpen(3, 5).StrictlyLeftOfPoint(0) && !ClosedOpen(3, 5).StrictlyLeftOfPoint(3)
    ensures ClosedOpen(3, 5).LeftOfPoint(6) && ClosedOpen(3, 5).LeftOfPoint(5)
    ensures !ClosedOpen(3, 5).LeftOfPoint(0) && !ClosedOpen(3, 5).LeftOfPoint(3)
    ensures ClosedOpen(3, 5).StrictlyRightOfPoint(0) && ClosedOpen(3, 5).StrictlyRightOfPoint(2)
    ensures !ClosedOpen(3, 5).StrictlyRightOfPoint(3)
    ensures ClosedOpen(3, 5).RightOfPoint(0) && ClosedOpen(3, 5).RightOfPoint(2) && ClosedOpen(3, 5).RightOfPoint(3)
    ensures ClosedClosed(3, 5).LeftOfPoint(6) && ClosedClosed(3, 5).LeftOfPoint(5)
    ensures !ClosedClosed(3, 5).StrictlyLeftOfPoint(5)
    ensures Empty().StrictlyLeftOfPoint(1) && Empty().LeftOfPoint(1)
    ensures Empty().StrictlyRightOfPoint(1) && Empty().RightOfPoint(1)
    ensures !ClosedUnbounded(1).RightOfPoint(10) && ClosedUnbounded(1).StrictlyRightOfPoint(0)
    ensures ClosedUnbounded(1).RightOfPoint(0)
    ensures !UnboundedClosed(10).RightOfPoint(0) && !UnboundedClosed(10).StrictlyRightOfPoint(0)
  {
  }

  /** The interval comparisons of the library's test of left-of and right-of. */
  lemma LeftOfIntervalExamples()
    ensures !ClosedOpen(3, 5).StrictlyLeftOfInterval(ClosedClosed(3, 5))
    ensures !ClosedClosed(3, 5).StrictlyLeftOfInterval(ClosedOpen(3, 5))
    ensures Empty().StrictlyLeftOfInterval(ClosedOpen(3, 5)) && ClosedOpen(3, 5).StrictlyLeftOfInterval(Empty())
    ensures !ClosedClosed(1, 3).StrictlyLeftOfInterval(ClosedOpen(3, 5))
    ensures !ClosedOpen(3, 5).StrictlyLeftOfInterval(ClosedClosed(1, 3))
    ensures ClosedClosed(1, 3).StrictlyLeftOfInterval(OpenClosed(3, 5))
    ensures !OpenClosed(3, 5).StrictlyLeftOfInterval(ClosedClosed(1, 3))
    ensures ClosedClosed(0, 1).StrictlyLeftOfInterval(ClosedOpen(3, 5))
    ensures !ClosedOpen(3, 5).StrictlyLeftOfInterval(ClosedClosed(0, 1))
    ensures !ClosedUnbounded(1).StrictlyLeftOfInterval(ClosedOpen(3, 5))
    ensures !OpenClosed(3, 5).StrictlyLeftOfInterval(ClosedClosed(5, 9))
    ensures OpenClosed(3, 5).LeftOfInterval(ClosedClosed(5, 9)) && ClosedClosed(5, 9).RightOfInterval(OpenClosed(3, 5))
    ensures !ClosedClosed(5, 9).StrictlyRightOfInterval(OpenClosed(3, 5))
    ensures OpenClosed(3, 5).StrictlyLeftOfInterval(OpenClosed(5, 9)) && OpenClosed(3, 5).LeftOfInterval(OpenClosed(5, 9))
    ensures OpenClosed(5, 9).RightOfInterval(OpenClosed(3, 5)) && OpenClosed(5, 9).StrictlyRightOfInterval(OpenClosed(3, 5))
  {
  }

  /** The library's convex hull and union test. */
  lemma HullExamples()
    ensures ConvexHull(ClosedClosed(10, 30), ClosedClosed(40, 50)) == ClosedClosed(10, 50)
    ensures ConvexHull(ClosedClosed(40, 50), ClosedClosed(10, 30)) == ClosedClosed(10, 50)
    ensures ConvexHull(ClosedClosed(10, 30), ClosedClosed(20, 30)) == ClosedClosed(10, 30)
    ensures ConvexHull(ClosedClosed(20, 30), ClosedClosed(10, 30)) == ClosedClosed(10, 30)
    ensures Union(ClosedClosed(20, 30), ClosedClosed(10, 30)) == Some(ClosedClosed(10, 30))
    ensures ConvexHull(OpenOpen(10, 30), OpenOpen(40, 50)) == OpenOpen(10, 50)
    ensures ConvexHull(OpenOpen(40, 50), OpenOpen(10, 30)) == OpenOpen(10, 50)
    ensures Union(OpenOpen(40, 50), OpenOpen(10, 30)).None?
    ensures ConvexHull(Empty(), OpenOpen(40, 50)) == OpenOpen(40, 50)
    ensures ConvexHull(OpenOpen(40, 50), Empty()) == OpenOpen(40, 50)
    ensures Union(OpenOpen(40, 50), Empty()) == Some(OpenOpen(40, 50))
    ensures ConvexHull(OpenUnbounded(10), OpenOpen(40, 50)) == OpenUnbounded(10)
    ensures ConvexHull(OpenOpen(40, 50), OpenUnbounded(10)) == OpenUnbounded(10)
    ensures Union(OpenOpen(40, 50), OpenUnbounded(10)) == Some(OpenUnbounded(10))
    ensures ConvexHull(UnboundedOpen(10), OpenOpen(40, 50)) == UnboundedOpen(50)
    ensures ConvexHull(OpenOpen(40, 50), UnboundedOpen(10)) == UnboundedOpen(50)
    ensures Union(OpenOpen(40, 50), UnboundedOpen(10)).None?
  {
  }

  /** The library's test of the gap between two intervals and of contiguity. */
  lemma BetweenExamples()
    ensures Between(ClosedClosed(10, 30), ClosedClosed(40, 50)) == OpenOpen(30, 40)
    ensures Between(ClosedClosed(10, 30), OpenUnbounded(35)) == OpenClosed(30, 35)
    ensures Between(ClosedClosed(40, 50), OpenUnbounded(35)).Equivalent(Empty())
    ensures Between(ClosedClosed(10, 30), Empty()).Equivalent(Empty())
    ensures Between(Empty(), ClosedClosed(10, 30)).Equivalent(Empty())
    ensures ClosedClosed(10, 30).Contiguous(ClosedClosed(10, 30))
    ensures !ClosedClosed(10, 30).Contiguous(ClosedClosed(40, 50))
    ensures !ClosedClosed(10, 30).Contiguous(OpenUnbounded(35))
    ensures ClosedClosed(40, 50).Contiguous(OpenUnbounded(35))
    ensures Empty().Contiguous(ClosedClosed(10, 30)) && ClosedClosed(10, 30).Contiguous(Empty())
  {
  }

  /** The library's intersection test. */
  lemma IntersectionExamples()
    ensures !ClosedClosed(10, 30).Intersects(ClosedOpen(40, 50))
    ensures Intersection(ClosedClosed(10, 30), ClosedOpen(40, 50)).Equivalent(Empty())
    ensures ClosedOpen(40, 50).Intersects(OpenUnbounded(35))
    ensures Intersection(ClosedOpen(40, 50), OpenUnbounded(35)) == ClosedOpen(40, 50)
  {
  }
}
