/**
 * Bounds of intervals over the integers.  `LeftOf(p)` stands for the point
 * halfway between p - 1 and p, `RightOf(p)` for the point halfway between p
 * and p + 1, and the two unbounded bounds for minus and plus infinity.
 */
module Bounds {
  import opened Wrappers
  import NothingBetween

  datatype Bound = LeftUnbounded | LeftOf(point: int) | RightOf(point: int) | RightUnbounded
  {
    /** `left_of`: the value lies to the right of this bound. */
    function LeftOfPoint(v: int): (r: bool)
      ensures r <==> ComparePositions(Pos(this), At(2 * v)) == Less
    {
      match this
      case LeftUnbounded => true
      case LeftOf(p) => p <= v
      case RightOf(p) => p < v
      case RightUnbounded => false
    }

    /** `right_of`: the value lies to the left of this bound. */
    function RightOfPoint(v: int): (r: bool)
      ensures r <==> !LeftOfPoint(v)
    {
      match this
      case LeftUnbounded => false
      case LeftOf(p) => v < p
      case RightOf(p) => v <= p
      case RightUnbounded => true
    }

    /** `value`: the bound's point, None for the unbounded bounds. */
    function Value(): (r: Option<int>)
      ensures r.None? <==> (LeftUnbounded? || RightUnbounded?)
      ensures r.Some? ==> r.value == point
    {
      match this
      case LeftUnbounded | RightUnbounded => None
      case LeftOf(p) => Some(p)
      case RightOf(p) => Some(p)
    }
  }

  /**
   * Reference picture of a bound: its place on the doubled number line,
   * where the value v sits at 2v, LeftOf(p) at 2p - 1 and RightOf(p) at 2p + 1.
   */
  datatype Position = MinusInfinity | At(x: int) | PlusInfinity

  function Pos(b: Bound): Position {
    match b
    case LeftUnbounded => MinusInfinity
    case LeftOf(p) => At(2 * p - 1)
    case RightOf(p) => At(2 * p + 1)
    case RightUnbounded => PlusInfinity
  }

  function ComparePositions(x: Position, y: Position): Ordering {
    match (x, y)
    case (MinusInfinity, MinusInfinity) => Equal
    case (PlusInfinity, PlusInfinity) => Equal
    case (MinusInfinity, _) => Less
    case (_, MinusInfinity) => Greater
    case (PlusInfinity, _) => Greater
    case (_, PlusInfinity) => Less
    case (At(a), At(b)) => if a < b then Less else if a == b then Equal else Greater
  }

  /**
   * `partial_cmp` on bounds.  Over the integers it is never None, and it
   * agrees with the positions: LeftOf(p + 1) and RightOf(p) compare Equal
   * because nothing lies between p and p + 1.
   */
  function Compare(a: Bound, b: Bound): (r: Ordering)
    ensures r == ComparePositions(Pos(a), Pos(b))
  {
    match (a, b)
    case (LeftUnbounded, LeftUnbounded) => Equal
    case (RightUnbounded, RightUnbounded) => Equal
    case (LeftOf(s), LeftOf(o)) => CompareInts(s, o)
    case (RightOf(s), RightOf(o)) => CompareInts(s, o)
    case (LeftOf(s), RightOf(o)) =>
      if s <= o then Less
      else if NothingBetween.IntNothingBetween(o, s) then Equal
      else Greater
    case (RightOf(s), LeftOf(o)) =>
      if s < o then (if NothingBetween.IntNothingBetween(s, o) then Equal else Less)
      else Greater
    case (LeftUnbounded, _) => Less
    case (_, LeftUnbounded) => Greater
    case (_, RightUnbounded) => Less
    case (RightUnbounded, _) => Greater
  }

  function CompareInts(s: int, o: int): Ordering {
    if s < o then Less else if s == o then Equal else Greater
  }

  /** `eq` on bounds: agrees with `partial_cmp` returning Equal. */
  function Eq(a: Bound, b: Bound): (r: bool)
    ensures r <==> Compare(a, b) == Equal
  {
    match (a, b)
    case (LeftUnbounded, LeftUnbounded) => true
    case (RightUnbounded, RightUnbounded) => true
    case (LeftOf(s), LeftOf(o)) => s == o
    case (RightOf(s), RightOf(o)) => s == o
    case (LeftOf(s), RightOf(o)) => if s > o then NothingBetween.IntNothingBetween(o, s) else false
    case (RightOf(s), LeftOf(o)) => if s < o then NothingBetween.IntNothingBetween(s, o) else false
    case _ => false
  }

  /** The bound one point further right: `LeftOf(p + 1)` for `LeftOf(p)`, `RightOf(p + 1)` for `RightOf(p)`. */
  function OnePointRight(b: Bound): Bound {
    match b
    case LeftOf(p) => LeftOf(p + 1)
    case RightOf(p) => RightOf(p + 1)
    case _ => b
  }

  predicate Lt(a: Bound, b: Bound) { Compare(a, b) == Less }
  predicate Le(a: Bound, b: Bound) { Compare(a, b) != Greater }

  /** `min`: the bound that is left of more values; the points it is left of are the union of both. */
  function Min(a: Bound, b: Bound): (r: Bound)
    ensures r == a || r == b
    ensures Le(r, a) && Le(r, b)
    ensures forall v :: r.LeftOfPoint(v) <==> a.LeftOfPoint(v) || b.LeftOfPoint(v)
  {
    if Lt(a, b) then a else b
  }

  /** `max`: the points it is left of are those both bounds are left of. */
  function Max(a: Bound, b: Bound): (r: Bound)
    ensures r == a || r == b
    ensures Le(a, r) && Le(b, r)
    ensures forall v :: r.LeftOfPoint(v) <==> a.LeftOfPoint(v) && b.LeftOfPoint(v)
  {
    if Compare(a, b) == Greater then a else b
  }

  /** A value that lies right of `a` and left of `b`, when `a` is strictly before `b`. */
  function Separator(a: Bound, b: Bound): (v: int)
    requires Lt(a, b)
    ensures a.LeftOfPoint(v) && b.RightOfPoint(v)
  {
    match a
    case LeftOf(p) => p
    case RightOf(p) => p + 1
    case _ =>
      match b
      case LeftOf(q) => q - 1
      case RightOf(q) => q
      case _ => 0
  }

  /** The bound order is inclusion of the sets of values the bounds are left of, reversed. */
  lemma {:induction false} LeIsCutInclusion(a: Bound, b: Bound)
    ensures Le(a, b) <==> (forall v :: b.LeftOfPoint(v) ==> a.LeftOfPoint(v))
  {
    if !Le(a, b) {
      var v := Separator(b, a);
      assert b.LeftOfPoint(v) && !a.LeftOfPoint(v);
    }
  }

  /** A strict bound order means some value lies between the two bounds. */
  lemma {:induction false} LtHasPointBetween(a: Bound, b: Bound)
    ensures Lt(a, b) <==> (exists v :: a.LeftOfPoint(v) && b.RightOfPoint(v))
  {
    if Lt(a, b) {
      var v := Separator(a, b);
      assert a.LeftOfPoint(v) && b.RightOfPoint(v);
    }
  }

  /** Two bounds compare Equal exactly when they split the integers at the same place. */
  lemma {:induction false} EqualIsSameCut(a: Bound, b: Bound)
    ensures Compare(a, b) == Equal <==> (forall v :: a.LeftOfPoint(v) <==> b.LeftOfPoint(v))
  {
    LeIsCutInclusion(a, b);
    LeIsCutInclusion(b, a);
  }

  /** Bound comparison is a total order on positions: antisymmetric and transitive. */
  lemma CompareReverse(a: Bound, b: Bound)
    ensures Compare(b, a) == Compare(a, b).Reverse()
  {
  }

  lemma LeTransitive(a: Bound, b: Bound, c: Bound)
    requires Le(a, b) && Le(b, c)
    ensures Le(a, c)
    ensures Lt(a, b) || Lt(b, c) ==> Lt(a, c)
  {
  }

  /** Bounds that compare Equal stand at the same position. */
  lemma EqIsSamePosition(a: Bound, b: Bound)
    ensures Eq(a, b) <==> Pos(a) == Pos(b)
  {
  }

  /** `min` and `max` give equal bounds for equal arguments, in either order. */
  lemma MinMaxRespectEq(x: Bound, y: Bound, x': Bound, y': Bound)
    requires Eq(x, x') && Eq(y, y')
    ensures Eq(Min(x, y), Min(x', y')) && Eq(Min(x, y), Min(y', x'))
    ensures Eq(Max(x, y), Max(x', y')) && Eq(Max(x, y), Max(y', x'))
  {
    EqIsSamePosition(x, x');
    EqIsSamePosition(y, y');
    EqIsSamePosition(Min(x, y), Min(x', y'));
    EqIsSamePosition(Min(x, y), Min(y', x'));
    EqIsSamePosition(Max(x, y), Max(x', y'));
    EqIsSamePosition(Max(x, y), Max(y', x'));
  }

  /** The comparisons spelled out in the library's own ordering test. */
  lemma OrderExamples()
    ensures Lt(LeftOf(3), RightOf(3))
    ensures Compare(LeftOf(4), RightOf(3)) == Equal && Eq(LeftOf(4), RightOf(3))
    ensures Lt(RightOf(3), LeftOf(5))
    ensures Lt(LeftUnbounded, LeftOf(-1000)) && Lt(RightOf(1000), RightUnbounded)
  {
  }
}
