/**
 * Intervals over the integers, each given by a lower and an upper bound.
 * An interval contains v when its lower bound is left of v and its upper
 * bound right of v; it is empty when its upper bound is not after its lower.
 */
module Intervals {
  import opened Wrappers
  import opened Bounds

  datatype Interval = Interval(lower: Bound, upper: Bound)
  {
    predicate Contains(v: int) {
      lower.LeftOfPoint(v) && upper.RightOfPoint(v)
    }

    /** `is_empty`: the upper bound is not strictly after the lower one. */
    predicate IsEmpty() {
      match Bounds.Compare(upper, lower)
      case Equal | Less => true
      case Greater => false
    }

    /** `contains_interval`: every value of `other` is in this interval. */
    predicate ContainsInterval(other: Interval) {
      other.IsEmpty() || (Le(lower, other.lower) && Le(other.upper, upper))
    }

    /** `equivalent`, which is also `==` on intervals. */
    predicate Equivalent(other: Interval) {
      if IsEmpty() then other.IsEmpty()
      else if other.IsEmpty() then false
      else Eq(lower, other.lower) && Eq(upper, other.upper)
    }

    predicate StrictlyLeftOfPoint(x: int) { IsEmpty() || upper.LeftOfPoint(x) }
    predicate StrictlyRightOfPoint(x: int) { IsEmpty() || lower.RightOfPoint(x) }
    predicate LeftOfPoint(x: int) { IsEmpty() || Le(upper, RightOf(x)) }
    predicate RightOfPoint(x: int) { IsEmpty() || Le(LeftOf(x), lower) }

    predicate StrictlyLeftOfInterval(right: Interval) {
      IsEmpty() || right.IsEmpty() || Le(upper, right.lower)
    }

    predicate StrictlyRightOfInterval(right: Interval) {
      IsEmpty() || right.IsEmpty() || Le(right.upper, lower)
    }

    /** `left_of_interval`, as written: the bound values are compared as Options. */
    predicate LeftOfInterval(right: Interval) {
      StrictlyLeftOfInterval(right) || upper.Value() == right.lower.Value()
    }

    /** `right_of_interval`, as written. */
    predicate RightOfInterval(right: Interval) {
      StrictlyRightOfInterval(right) || lower.Value() == right.upper.Value()
    }

    /**
     * `left_of_interval` as documented: every value here is at most every
     * value of `right`, so the upper bound passes right's lower bound by at
     * most one point.
     */
    predicate LeftOfIntervalIntended(right: Interval) {
      IsEmpty() || right.IsEmpty() || Le(upper, OnePointRight(right.lower))
    }

    /** `right_of_interval` as documented: every value here is at least every value of `right`. */
    predicate RightOfIntervalIntended(right: Interval) {
      IsEmpty() || right.IsEmpty() || Le(right.upper, OnePointRight(lower))
    }

    /** `is_single`: of the form [A, A]. */
    predicate IsSingle() {
      match (lower, upper)
      case (LeftOf(lp), RightOf(rp)) => lp == rp
      case _ => false
    }

    /** `lower()` and `upper()`: the bound values, None when unbounded. */
    function Lower(): Option<int> { lower.Value() }
    function Upper(): Option<int> { upper.Value() }

    /** `lower_inclusive`: an interval that is not empty then holds its lower value. */
    function LowerInclusive(): (r: bool)
      ensures r ==> Lower().Some? && (!IsEmpty() ==> Contains(Lower().value))
      ensures !r && Lower().Some? ==> !Contains(Lower().value)
    {
      lower.LeftOf?
    }

    /** `upper_inclusive`: an interval that is not empty then holds its upper value. */
    function UpperInclusive(): (r: bool)
      ensures r ==> Upper().Some? && (!IsEmpty() ==> Contains(Upper().value))
      ensures !r && Upper().Some? ==> !Contains(Upper().value)
    {
      upper.RightOf?
    }

    /** `lower_unbounded`: no value is below the lower bound. */
    function LowerUnbounded(): (r: bool)
      ensures r <==> Lower().None? && forall v :: lower.LeftOfPoint(v)
    {
      assert lower.RightUnbounded? ==> !lower.LeftOfPoint(0);
      lower.LeftUnbounded?
    }

    /** `upper_unbounded`: no value is above the upper bound. */
    function UpperUnbounded(): (r: bool)
      ensures r <==> Upper().None? && forall v :: upper.RightOfPoint(v)
    {
      assert upper.LeftUnbounded? ==> !upper.RightOfPoint(0);
      upper.RightUnbounded?
    }

    /** `intersects`: some value lies in both intervals. */
    predicate Intersects(right: Interval) {
      !IsEmpty() && !right.IsEmpty() && Lt(lower, right.upper) && Lt(right.lower, upper)
    }

    /** `contiguous`: the two intervals overlap or touch (true when either is empty). */
    predicate Contiguous(right: Interval) {
      if IsEmpty() || right.IsEmpty() then true
      else Le(lower, right.upper) && Le(right.lower, upper)
    }

    /**
     * The helper the multi-interval code calls `strictly_left_not_contiguous`
     * (its definition is not part of this model): strictly left of `right`
     * and not touching it.
     */
    predicate StrictlyLeftNotContiguous(right: Interval) {
      StrictlyLeftOfInterval(right) && !Contiguous(right)
    }
  }

  // Constructors, each with the values it holds.

  function ClosedOpen(lo: int, up: int): (r: Interval)
    ensures forall v :: r.Contains(v) <==> lo <= v < up
  { Interval(LeftOf(lo), LeftOf(up)) }

  function ClosedClosed(lo: int, up: int): (r: Interval)
    ensures forall v :: r.Contains(v) <==> lo <= v <= up
  { Interval(LeftOf(lo), RightOf(up)) }

  function OpenOpen(lo: int, up: int): (r: Interval)
    ensures forall v :: r.Contains(v) <==> lo < v < up
  { Interval(RightOf(lo), LeftOf(up)) }

  function OpenClosed(lo: int, up: int): (r: Interval)
    ensures forall v :: r.Contains(v) <==> lo < v <= up
  { Interval(RightOf(lo), RightOf(up)) }

  function UnboundedClosed(up: int): (r: Interval)
    ensures forall v :: r.Contains(v) <==> v <= up
  { Interval(LeftUnbounded, RightOf(up)) }

  function UnboundedOpen(up: int): (r: Interval)
    ensures forall v :: r.Contains(v) <==> v < up
  { Interval(LeftUnbounded, LeftOf(up)) }

  function ClosedUnbounded(lo: int): (r: Interval)
    ensures forall v :: r.Contains(v) <==> lo <= v
  { Interval(LeftOf(lo), RightUnbounded) }

  function OpenUnbounded(lo: int): (r: Interval)
    ensures forall v :: r.Contains(v) <==> lo < v
  { Interval(RightOf(lo), RightUnbounded) }

  function DoublyUnbounded(): (r: Interval)
    ensures forall v :: r.Contains(v)
  { Interval(LeftUnbounded, RightUnbounded) }

  /** `empty()`, also the `Default` interval. */
  function Empty(): (r: Interval)
    ensures r.IsEmpty()
    ensures forall v :: !r.Contains(v)
  { Interval(RightUnbounded, LeftUnbounded) }

  function Single(x: int): (r: Interval)
    ensures r.IsSingle() && !r.IsEmpty()
    ensures forall v :: r.Contains(v) <==> v == x
  { ClosedClosed(x, x) }

  /** `convex_hull`: the smallest interval holding both. */
  function ConvexHull(a: Interval, b: Interval): Interval {
    if a.IsEmpty() then b
    else if b.IsEmpty() then a
    else Interval(Min(a.lower, b.lower), Max(a.upper, b.upper))
  }

  /** `intersection`. */
  function Intersection(a: Interval, b: Interval): Interval {
    Interval(Max(a.lower, b.lower), Min(a.upper, b.upper))
  }

  /** `between`: the values after one interval and before the other. */
  function Between(a: Interval, b: Interval): Interval {
    if a.IsEmpty() || b.IsEmpty() then Empty()
    else Interval(Min(a.upper, b.upper), Max(a.lower, b.lower))
  }

  /** `union`: the union when it is itself an interval. */
  function Union(a: Interval, b: Interval): Option<Interval> {
    if a.Contiguous(b) then Some(ConvexHull(a, b)) else None
  }

  /**
   * `partial_cmp` on intervals, as written: an empty `other` makes `a` Greater,
   * otherwise an empty `a` is Less, otherwise lower bounds first, then upper.
   */
  function IntervalCompare(a: Interval, b: Interval): Ordering {
    if b.IsEmpty() then Greater
    else if a.IsEmpty() then Less
    else match Bounds.Compare(a.lower, b.lower)
      case Less => Less
      case Greater => Greater
      case Equal => Bounds.Compare(a.upper, b.upper)
  }

  /** `partial_cmp` with two empty intervals comparing Equal, as `==` has them. */
  function IntervalCompareFixed(a: Interval, b: Interval): (r: Ordering)
    ensures r == Equal <==> a.Equivalent(b)
    ensures !a.IsEmpty() && !b.IsEmpty() ==> r == IntervalCompare(a, b)
  {
    if a.IsEmpty() && b.IsEmpty() then Equal else IntervalCompare(a, b)
  }

  /** `<=` on intervals, as used to sort them. */
  predicate IntervalLe(a: Interval, b: Interval) {
    IntervalCompareFixed(a, b) != Greater
  }
}
