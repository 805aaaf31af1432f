/**
 * `IntervalIterator`: iteration over the values of an interval whose points
 * belong to one of the primitive integer types.  The iterator holds an
 * interval and narrows it from the front (`next`, `nth`) or from the back
 * (`next_back`, `nth_back`), stepping with the type's checked `forward` and
 * `backward`.
 */
module IntervalIter {
  import opened Wrappers
  import opened MachineInts
  import opened Bounds
  import opened Intervals
  import opened IntervalProperties
  import opened Step

  /** A finite bound's point is a value of the type. */
  predicate BoundIn(k: IntKind, b: Bound) {
    (b.LeftOf? || b.RightOf?) ==> k.InRange(b.point)
  }

  predicate BoundsIn(k: IntKind, i: Interval) {
    BoundIn(k, i.lower) && BoundIn(k, i.upper)
  }

  /** The values of the type that the interval holds: what an iterator over it should yield. */
  predicate InDomain(k: IntKind, i: Interval, v: int) {
    k.InRange(v) && i.Contains(v)
  }

  /** A value and what is left of the interval after `nth` or `nth_back`. */
  datatype NthResult = NthResult(value: Option<int>, rest: Interval)

  /** `current.and_then(|c| c.forward(1))`. */
  function ThenForward(k: IntKind, c: Option<int>): (r: Option<int>)
    requires c.Some? ==> k.InRange(c.value)
    ensures r.Some? <==> c.Some? && c.value < k.MaxValue()
    ensures r.Some? ==> r.value == c.value + 1
  {
    match c
    case None => None
    case Some(x) => Forward(k, x, 1)
  }

  /** `current.and_then(|c| c.backward(1))`. */
  function ThenBackward(k: IntKind, c: Option<int>): (r: Option<int>)
    requires c.Some? ==> k.InRange(c.value)
    ensures r.Some? <==> c.Some? && k.MinValue() < c.value
    ensures r.Some? ==> r.value == c.value - 1
  {
    match c
    case None => None
    case Some(x) => Backward(k, x, 1)
  }

  /**
   * `internal_nth(n)`, as written: nothing from an empty interval;
   * otherwise the value n steps after the first candidate (the type's
   * least value for an unbounded lower bound), and the lower bound moved
   * just past it, or to `RightUnbounded` once the step overflows.
   */
  function NthFromFront(k: IntKind, i: Interval, n: nat): (r: NthResult)
    requires BoundsIn(k, i) && Usize.InRange(n)
    ensures BoundsIn(k, r.rest) && r.rest.upper == i.upper
    ensures k.InRange(n) || !k.Signed() ==> Le(i.lower, r.rest.lower)
    ensures r.value.Some? ==> k.InRange(r.value.value)
    ensures i.IsEmpty() ==> r == NthResult(None, i)
  {
    if i.IsEmpty() then NthResult(None, i)
    else match i.lower
      case LeftUnbounded =>
        var cur := Forward(k, k.MinValue(), n);
        NthResult(cur, i.(lower := match ThenForward(k, cur) case None => RightUnbounded case Some(c) => LeftOf(c)))
      case LeftOf(lo) =>
        var cur := Forward(k, lo, n);
        NthResult(cur, i.(lower := match ThenForward(k, cur) case None => RightUnbounded case Some(c) => LeftOf(c)))
      case RightOf(lo) =>
        var cur := ThenForward(k, Forward(k, lo, n));
        NthResult(cur, i.(lower := match cur case None => RightUnbounded case Some(c) => RightOf(c)))
      case RightUnbounded =>
        assert false; NthResult(None, i)
  }

  /** `internal_nth_back(n)`, as written: the mirror image of `NthFromFront`. */
  function NthFromBack(k: IntKind, i: Interval, n: nat): (r: NthResult)
    requires BoundsIn(k, i) && Usize.InRange(n)
    ensures BoundsIn(k, r.rest) && r.rest.lower == i.lower
    ensures k.InRange(n) || !k.Signed() ==> Le(r.rest.upper, i.upper)
    ensures r.value.Some? ==> k.InRange(r.value.value)
    ensures i.IsEmpty() ==> r == NthResult(None, i)
  {
    if i.IsEmpty() then NthResult(None, i)
    else match i.upper
      case RightUnbounded =>
        var cur := Backward(k, k.MaxValue(), n);
        NthResult(cur, i.(upper := match ThenBackward(k, cur) case None => LeftUnbounded case Some(c) => RightOf(c)))
      case RightOf(up) =>
        var cur := Backward(k, up, n);
        NthResult(cur, i.(upper := match ThenBackward(k, cur) case None => LeftUnbounded case Some(c) => RightOf(c)))
      case LeftOf(up) =>
        var cur := ThenBackward(k, Backward(k, up, n));
        NthResult(cur, i.(upper := match cur case None => LeftUnbounded case Some(c) => LeftOf(c)))
      case LeftUnbounded =>
        assert false; NthResult(None, i)
  }

  // What each branch of `internal_nth` and `internal_nth_back` computes
  // when the step stays within the type.

  /** From an unbounded lower bound, `nth(n)` counts from the type's least value. */
  lemma NthFromLeftUnbounded(k: IntKind, i: Interval, n: nat)
    requires BoundsIn(k, i) && !i.IsEmpty() && i.lower.LeftUnbounded?
    requires Usize.InRange(n) && k.InRange(n) && k.MinValue() + n < k.MaxValue()
    ensures NthFromFront(k, i, n) == NthResult(Some(k.MinValue() + n), i.(lower := LeftOf(k.MinValue() + n + 1)))
  {
  }

  /** From a closed lower bound at `a`, `nth(n)` is `a + n`, even past the upper bound. */
  lemma NthFromLeftOf(k: IntKind, i: Interval, n: nat)
    requires BoundsIn(k, i) && !i.IsEmpty() && i.lower.LeftOf?
    requires Usize.InRange(n) && k.InRange(n) && i.lower.point + n < k.MaxValue()
    ensures NthFromFront(k, i, n) == NthResult(Some(i.lower.point + n), i.(lower := LeftOf(i.lower.point + n + 1)))
  {
  }

  /** From an open lower bound at `a`, `nth(n)` is `a + n + 1`, and the new lower bound stays open. */
  lemma NthFromRightOf(k: IntKind, i: Interval, n: nat)
    requires BoundsIn(k, i) && !i.IsEmpty() && i.lower.RightOf?
    requires Usize.InRange(n) && k.InRange(n) && i.lower.point + n < k.MaxValue()
    ensures NthFromFront(k, i, n) == NthResult(Some(i.lower.point + n + 1), i.(lower := RightOf(i.lower.point + n + 1)))
  {
  }

  /** From an unbounded upper bound, `nth_back(n)` counts down from the type's greatest value. */
  lemma NthBackFromRightUnbounded(k: IntKind, i: Interval, n: nat)
    requires BoundsIn(k, i) && !i.IsEmpty() && i.upper.RightUnbounded?
    requires Usize.InRange(n) && k.InRange(n) && k.MinValue() < k.MaxValue() - n
    ensures NthFromBack(k, i, n) == NthResult(Some(k.MaxValue() - n), i.(upper := RightOf(k.MaxValue() - n - 1)))
  {
  }

  /** From a closed upper bound at `b`, `nth_back(n)` is `b - n`, even below the lower bound. */
  lemma NthBackFromRightOf(k: IntKind, i: Interval, n: nat)
    requires BoundsIn(k, i) && !i.IsEmpty() && i.upper.RightOf?
    requires Usize.InRange(n) && k.InRange(n) && k.MinValue() < i.upper.point - n
    ensures NthFromBack(k, i, n) == NthResult(Some(i.upper.point - n), i.(upper := RightOf(i.upper.point - n - 1)))
  {
  }

  /** From an open upper bound at `b`, `nth_back(n)` is `b - n - 1`, and the new upper bound stays open. */
  lemma NthBackFromLeftOf(k: IntKind, i: Interval, n: nat)
    requires BoundsIn(k, i) && !i.IsEmpty() && i.upper.LeftOf?
    requires Usize.InRange(n) && k.InRange(n) && k.MinValue() < i.upper.point - n
    ensures NthFromBack(k, i, n) == NthResult(Some(i.upper.point - n - 1), i.(upper := LeftOf(i.upper.point - n - 1)))
  {
  }

  // What `nth` and `nth_back` should compute.

  /** `x` is the value of the type in `i` with exactly `n` such values before it. */
  ghost predicate IsNthValue(k: IntKind, i: Interval, n: nat, x: int) {
    (forall w :: x - n <= w <= x ==> InDomain(k, i, w)) && forall w :: InDomain(k, i, w) ==> x - n <= w
  }

  /** `x` is the value of the type in `i` with exactly `n` such values after it. */
  ghost predicate IsNthBackValue(k: IntKind, i: Interval, n: nat, x: int) {
    (forall w :: x <= w <= x + n ==> InDomain(k, i, w)) && forall w :: InDomain(k, i, w) ==> w <= x + n
  }

  /** `i` holds at most `n` values of the type. */
  ghost predicate AtMost(k: IntKind, i: Interval, n: nat) {
    forall w :: InDomain(k, i, w) ==> !InDomain(k, i, w + n)
  }

  ghost predicate NoValues(k: IntKind, i: Interval) {
    forall w :: !InDomain(k, i, w)
  }

  /**
   * The contract of `nth(n)`: the n-th value (from 0) of what the interval
   * holds, and the rest holds exactly the values after it; or None when
   * there are at most n values, and the rest holds none.
   */
  ghost predicate NthCorrect(k: IntKind, i: Interval, n: nat, r: NthResult) {
    match r.value
    case Some(x) => IsNthValue(k, i, n, x) && forall w :: InDomain(k, r.rest, w) <==> InDomain(k, i, w) && x < w
    case None => AtMost(k, i, n) && NoValues(k, r.rest)
  }

  /** The contract of `nth_back(n)`, the mirror image of `NthCorrect`. */
  ghost predicate NthBackCorrect(k: IntKind, i: Interval, n: nat, r: NthResult) {
    match r.value
    case Some(x) => IsNthBackValue(k, i, n, x) && forall w :: InDomain(k, r.rest, w) <==> InDomain(k, i, w) && w < x
    case None => AtMost(k, i, n) && NoValues(k, r.rest)
  }

  /** The least value of the type a lower bound lets through (one past the greatest when none). */
  function First(k: IntKind, b: Bound): int {
    match b
    case LeftUnbounded => k.MinValue()
    case LeftOf(lo) => lo
    case RightOf(lo) => lo + 1
    case RightUnbounded => k.MaxValue() + 1
  }

  /** The greatest value of the type an upper bound lets through (one below the least when none). */
  function Last(k: IntKind, b: Bound): int {
    match b
    case LeftUnbounded => k.MinValue() - 1
    case LeftOf(up) => up - 1
    case RightOf(up) => up
    case RightUnbounded => k.MaxValue()
  }

  /** The values of the type in an interval are the integers from `First` to `Last`. */
  lemma DomainIsRange(k: IntKind, i: Interval)
    requires BoundsIn(k, i)
    ensures forall w :: InDomain(k, i, w) <==> First(k, i.lower) <= w <= Last(k, i.upper)
  {
  }

  /** A lower bound of the type fits its next candidate. */
  function MovedLower(k: IntKind, b: Bound, cur: int): Bound
    requires k.InRange(cur)
  {
    if b.RightOf? then RightOf(cur)
    else if cur < k.MaxValue() then LeftOf(cur + 1)
    else RightUnbounded
  }

  /** An upper bound of the type fits its next candidate. */
  function MovedUpper(k: IntKind, b: Bound, cur: int): Bound
    requires k.InRange(cur)
  {
    if b.LeftOf? then LeftOf(cur)
    else if k.MinValue() < cur then RightOf(cur - 1)
    else LeftUnbounded
  }

  /**
   * `internal_nth(n)` as evidently intended: the n-th value is counted from
   * the first value the interval holds, without casting `n`, and is
   * checked against the upper bound.  The lower bound keeps its kind.
   */
  function NthFromFrontFixed(k: IntKind, i: Interval, n: nat): NthResult
    requires BoundsIn(k, i)
  {
    var cur := First(k, i.lower) + n;
    if i.IsEmpty() then NthResult(None, i)
    else if cur <= Last(k, i.upper) then NthResult(Some(cur), i.(lower := MovedLower(k, i.lower, cur)))
    else NthResult(None, i.(lower := RightUnbounded))
  }

  /** `internal_nth_back(n)` as evidently intended: the mirror image of `NthFromFrontFixed`. */
  function NthFromBackFixed(k: IntKind, i: Interval, n: nat): NthResult
    requires BoundsIn(k, i)
  {
    var cur := Last(k, i.upper) - n;
    if i.IsEmpty() then NthResult(None, i)
    else if First(k, i.lower) <= cur then NthResult(Some(cur), i.(upper := MovedUpper(k, i.upper, cur)))
    else NthResult(None, i.(upper := LeftUnbounded))
  }

  /** The corrected `nth` meets the contract of `nth`, and leaves a valid iterator. */
  lemma NthFrontFixedCorrect(k: IntKind, i: Interval, n: nat)
    requires BoundsIn(k, i)
    ensures BoundsIn(k, NthFromFrontFixed(k, i, n).rest)
    ensures NthCorrect(k, i, n, NthFromFrontFixed(k, i, n))
  {
    var r := NthFromFrontFixed(k, i, n);
    if r.value.Some? {
      FixedFrontFound(k, i, n);
      var cur := First(k, i.lower) + n;
      MovedLowerFacts(k, i.lower, cur);
      FoundIsNth(k, i, r.rest, n, cur);
    } else {
      DomainIsRange(k, i);
      DomainIsRange(k, r.rest);
      if i.IsEmpty() {
        EmptyIffNoValue(i);
      }
    }
  }

  lemma MovedLowerFacts(k: IntKind, b: Bound, cur: int)
    requires k.InRange(cur)
    ensures BoundIn(k, MovedLower(k, b, cur)) && First(k, MovedLower(k, b, cur)) == cur + 1
  {
  }

  /** Counting `n` values on from the first one, and keeping those after. */
  lemma FoundIsNth(k: IntKind, i: Interval, rest: Interval, n: nat, cur: int)
    requires BoundsIn(k, i) && BoundsIn(k, rest) && rest.upper == i.upper
    requires cur == First(k, i.lower) + n && cur <= Last(k, i.upper) && First(k, rest.lower) == cur + 1
    ensures IsNthValue(k, i, n, cur)
    ensures forall w :: InDomain(k, rest, w) <==> InDomain(k, i, w) && cur < w
  {
    DomainIsRange(k, i);
    DomainIsRange(k, rest);
  }

  /** The corrected `nth_back` meets the contract of `nth_back`, and leaves a valid iterator. */
  lemma NthBackFixedCorrect(k: IntKind, i: Interval, n: nat)
    requires BoundsIn(k, i)
    ensures BoundsIn(k, NthFromBackFixed(k, i, n).rest)
    ensures NthBackCorrect(k, i, n, NthFromBackFixed(k, i, n))
  {
    var r := NthFromBackFixed(k, i, n);
    if r.value.Some? {
      FixedBackFound(k, i, n);
      var cur := Last(k, i.upper) - n;
      MovedUpperFacts(k, i.upper, cur);
      FoundIsNthBack(k, i, r.rest, n, cur);
    } else {
      DomainIsRange(k, i);
      DomainIsRange(k, r.rest);
      if i.IsEmpty() {
        EmptyIffNoValue(i);
      }
    }
  }

  lemma MovedUpperFacts(k: IntKind, b: Bound, cur: int)
    requires k.InRange(cur)
    ensures BoundIn(k, MovedUpper(k, b, cur)) && Last(k, MovedUpper(k, b, cur)) == cur - 1
  {
  }

  /** Counting `n` values back from the last one, and keeping those before. */
  lemma FoundIsNthBack(k: IntKind, i: Interval, rest: Interval, n: nat, cur: int)
    requires BoundsIn(k, i) && BoundsIn(k, rest) && rest.lower == i.lower
    requires cur == Last(k, i.upper) - n && First(k, i.lower) <= cur && Last(k, rest.upper) == cur - 1
    ensures IsNthBackValue(k, i, n, cur)
    ensures forall w :: InDomain(k, rest, w) <==> InDomain(k, i, w) && w < cur
  {
    DomainIsRange(k, i);
    DomainIsRange(k, rest);
  }

  /** An unbounded lower bound starts at the type's least value only when the interval holds it. */
  predicate FrontStartsInside(k: IntKind, i: Interval) {
    i.lower.LeftUnbounded? ==> i.upper.RightOfPoint(k.MinValue())
  }

  /** An unbounded upper bound starts at the type's greatest value only when the interval holds it. */
  predicate BackStartsInside(k: IntKind, i: Interval) {
    i.upper.RightUnbounded? ==> i.lower.LeftOfPoint(k.MaxValue())
  }

  /** `next` as written is the corrected `nth(0)`, away from an unbounded lower bound that starts outside. */
  lemma NextAgrees(k: IntKind, i: Interval)
    requires BoundsIn(k, i) && FrontStartsInside(k, i)
    ensures NthFromFront(k, i, 0) == NthFromFrontFixed(k, i, 0)
  {
    if NthFromFrontFixed(k, i, 0).value.Some? {
      NthAgrees(k, i, 0);
    } else if !i.IsEmpty() {
      NonEmptyFirstLast(k, i);
      ForwardFits(k, k.MaxValue(), 0);
    }
  }

  /**
   * A non-empty interval of the type holds a value of the type, unless it
   * starts at an unbounded lower bound below the type or ends at an
   * unbounded upper bound above it.
   */
  lemma NonEmptyFirstLast(k: IntKind, i: Interval)
    requires BoundsIn(k, i) && !i.IsEmpty()
    ensures FrontStartsInside(k, i) && !(i.lower == RightOf(k.MaxValue()) && i.upper.RightUnbounded?) ==>
      First(k, i.lower) <= Last(k, i.upper)
    ensures BackStartsInside(k, i) && !(i.upper == LeftOf(k.MinValue()) && i.lower.LeftUnbounded?) ==>
      First(k, i.lower) <= Last(k, i.upper)
  {
    EmptyIffNoValue(i);
    var v :| i.Contains(v);
  }

  /** `next_back` as written is the corrected `nth_back(0)`, away from an unbounded upper bound that starts outside. */
  lemma NextBackAgrees(k: IntKind, i: Interval)
    requires BoundsIn(k, i) && BackStartsInside(k, i)
    ensures NthFromBack(k, i, 0) == NthFromBackFixed(k, i, 0)
  {
    if NthFromBackFixed(k, i, 0).value.Some? {
      NthBackAgrees(k, i, 0);
    } else if !i.IsEmpty() {
      NonEmptyFirstLast(k, i);
      BackwardFits(k, k.MinValue(), 0);
    }
  }

  /**
   * `nth(n)` as written agrees with the corrected one whenever `n` is a
   * value of the type and the interval does hold an n-th value.
   */
  lemma NthAgrees(k: IntKind, i: Interval, n: nat)
    requires BoundsIn(k, i) && k.InRange(n) && Usize.InRange(n)
    requires NthFromFrontFixed(k, i, n).value.Some?
    ensures NthFromFront(k, i, n) == NthFromFrontFixed(k, i, n)
  {
    FixedFrontFound(k, i, n);
    if i.lower.RightOf? {
      ForwardFits(k, i.lower.point, n);
    } else {
      NthAgreesFrom(k, i, n, if i.lower.LeftUnbounded? then k.MinValue() else i.lower.point);
    }
  }

  /** What the corrected `nth` returns when it finds a value. */
  lemma FixedFrontFound(k: IntKind, i: Interval, n: nat)
    requires BoundsIn(k, i) && NthFromFrontFixed(k, i, n).value.Some?
    ensures !i.IsEmpty() && !i.lower.RightUnbounded?
    ensures First(k, i.lower) + n <= Last(k, i.upper) <= k.MaxValue()
    ensures NthFromFrontFixed(k, i, n) ==
      NthResult(Some(First(k, i.lower) + n), i.(lower := MovedLower(k, i.lower, First(k, i.lower) + n)))
  {
  }

  /** A step that stays inside the type is the plain sum, and so is one more step. */
  lemma ForwardFits(k: IntKind, x: int, n: nat)
    requires k.InRange(x) && k.InRange(n) && Usize.InRange(n) && x + n <= k.MaxValue()
    ensures Forward(k, x, n) == Some(x + n)
    ensures ThenForward(k, Some(x + n)) == if x + n < k.MaxValue() then Some(x + n + 1) else None
  {
  }

  lemma NthAgreesFrom(k: IntKind, i: Interval, n: nat, x: int)
    requires BoundsIn(k, i) && k.InRange(n) && Usize.InRange(n) && !i.IsEmpty()
    requires (i.lower.LeftUnbounded? && x == k.MinValue()) || (i.lower.LeftOf? && x == i.lower.point)
    requires x + n <= Last(k, i.upper) <= k.MaxValue()
    ensures NthFromFront(k, i, n) == NthResult(Some(x + n), i.(lower := MovedLower(k, i.lower, x + n)))
  {
    ForwardFits(k, x, n);
  }

  /** The mirror image of `NthAgrees`. */
  lemma NthBackAgrees(k: IntKind, i: Interval, n: nat)
    requires BoundsIn(k, i) && k.InRange(n) && Usize.InRange(n)
    requires NthFromBackFixed(k, i, n).value.Some?
    ensures NthFromBack(k, i, n) == NthFromBackFixed(k, i, n)
  {
    FixedBackFound(k, i, n);
    if i.upper.LeftOf? {
      BackwardFits(k, i.upper.point, n);
    } else {
      NthBackAgreesFrom(k, i, n, if i.upper.RightUnbounded? then k.MaxValue() else i.upper.point);
    }
  }

  /** What the corrected `nth_back` returns when it finds a value. */
  lemma FixedBackFound(k: IntKind, i: Interval, n: nat)
    requires BoundsIn(k, i) && NthFromBackFixed(k, i, n).value.Some?
    ensures !i.IsEmpty() && !i.upper.LeftUnbounded?
    ensures k.MinValue() <= First(k, i.lower) <= Last(k, i.upper) - n
    ensures NthFromBackFixed(k, i, n) ==
      NthResult(Some(Last(k, i.upper) - n), i.(upper := MovedUpper(k, i.upper, Last(k, i.upper) - n)))
  {
  }

  lemma BackwardFits(k: IntKind, x: int, n: nat)
    requires k.InRange(x) && k.InRange(n) && Usize.InRange(n) && k.MinValue() <= x - n
    ensures Backward(k, x, n) == Some(x - n)
    ensures ThenBackward(k, Some(x - n)) == if k.MinValue() < x - n then Some(x - n - 1) else None
  {
  }

  lemma NthBackAgreesFrom(k: IntKind, i: Interval, n: nat, x: int)
    requires BoundsIn(k, i) && k.InRange(n) && Usize.InRange(n) && !i.IsEmpty()
    requires (i.upper.RightUnbounded? && x == k.MaxValue()) || (i.upper.RightOf? && x == i.upper.point)
    requires k.MinValue() <= First(k, i.lower) <= x - n
    ensures NthFromBack(k, i, n) == NthResult(Some(x - n), i.(upper := MovedUpper(k, i.upper, x - n)))
  {
    BackwardFits(k, x, n);
  }

  /**
   * `next` yields the least value of the type in the interval and leaves
   * the others, or None when there is none.
   */
  lemma NextCorrect(k: IntKind, i: Interval)
    requires BoundsIn(k, i) && FrontStartsInside(k, i)
    ensures NthCorrect(k, i, 0, NthFromFront(k, i, 0))
  {
    NextAgrees(k, i);
    NthFrontFixedCorrect(k, i, 0);
  }

  /** `next_back` yields the greatest value of the type in the interval, or None when there is none. */
  lemma NextBackCorrect(k: IntKind, i: Interval)
    requires BoundsIn(k, i) && BackStartsInside(k, i)
    ensures NthBackCorrect(k, i, 0, NthFromBack(k, i, 0))
  {
    NextBackAgrees(k, i);
    NthBackFixedCorrect(k, i, 0);
  }

  /** `nth(n)` as written finds the n-th value whenever the interval has one and `n` fits the type. */
  lemma NthCorrectWhenFound(k: IntKind, i: Interval, n: nat)
    requires BoundsIn(k, i) && FrontStartsInside(k, i) && k.InRange(n) && Usize.InRange(n)
    requires !AtMost(k, i, n)
    ensures NthCorrect(k, i, n, NthFromFront(k, i, n))
  {
    NthFrontFixedCorrect(k, i, n);
    NthAgrees(k, i, n);
  }

  /** The mirror image of `NthCorrectWhenFound`. */
  lemma NthBackCorrectWhenFound(k: IntKind, i: Interval, n: nat)
    requires BoundsIn(k, i) && BackStartsInside(k, i) && k.InRange(n) && Usize.InRange(n)
    requires !AtMost(k, i, n)
    ensures NthBackCorrect(k, i, n, NthFromBack(k, i, n))
  {
    NthBackFixedCorrect(k, i, n);
    NthBackAgrees(k, i, n);
  }

  // Where the code as written and the contract part.

  /** `(-inf, 0)` over `u32` holds no value, yet `next` yields 0. */
  lemma UnboundedStartCounterexample()
    ensures NthFromFront(U32, UnboundedOpen(0), 0).value == Some(0)
    ensures !InDomain(U32, UnboundedOpen(0), 0)
    ensures !NthCorrect(U32, UnboundedOpen(0), 0, NthFromFront(U32, UnboundedOpen(0), 0))
    ensures NthCorrect(U32, UnboundedOpen(0), 0, NthFromFrontFixed(U32, UnboundedOpen(0), 0))
  {
    NthFrontFixedCorrect(U32, UnboundedOpen(0), 0);
  }

  /** `(u32::MAX, +inf)` holds no value of `u32`, yet `next_back` yields `u32::MAX`. */
  lemma UnboundedEndCounterexample()
    ensures NthFromBack(U32, OpenUnbounded(U32.MaxValue()), 0).value == Some(U32.MaxValue())
    ensures !InDomain(U32, OpenUnbounded(U32.MaxValue()), U32.MaxValue())
    ensures !NthBackCorrect(U32, OpenUnbounded(U32.MaxValue()), 0, NthFromBack(U32, OpenUnbounded(U32.MaxValue()), 0))
  {
  }

  /** `nth` does not look at the upper bound: `[1, 4).nth(5)` is 6. */
  lemma OvershootCounterexample()
    ensures NthFromFront(U32, ClosedOpen(1, 4), 5).value == Some(6)
    ensures !NthCorrect(U32, ClosedOpen(1, 4), 5, NthFromFront(U32, ClosedOpen(1, 4), 5))
    ensures NthFromFrontFixed(U32, ClosedOpen(1, 4), 5).value == None
  {
    assert !InDomain(U32, ClosedOpen(1, 4), 6);
  }

  /** `nth_back` does not look at the lower bound: `[1, 4).nth_back(5)` is -2 over `i8`. */
  lemma OvershootBackCounterexample()
    ensures NthFromBack(I8, ClosedOpen(1, 4), 5).value == Some(-2)
    ensures !NthBackCorrect(I8, ClosedOpen(1, 4), 5, NthFromBack(I8, ClosedOpen(1, 4), 5))
    ensures NthFromBackFixed(I8, ClosedOpen(1, 4), 5).value == None
  {
    assert !InDomain(I8, ClosedOpen(1, 4), -2);
  }

  /** The cast of the count wraps: `[0, 255].nth(256)` over `u8` is 0 instead of None. */
  lemma CastCounterexample()
    ensures NthFromFront(U8, ClosedClosed(0, 255), 256).value == Some(0)
    ensures !NthCorrect(U8, ClosedClosed(0, 255), 256, NthFromFront(U8, ClosedClosed(0, 255), 256))
    ensures NthFromFrontFixed(U8, ClosedClosed(0, 255), 256).value == None
  {
    CastNth();
    assert !InDomain(U8, ClosedClosed(0, 255), -1);
  }

  /** `[0, 255].nth(256)` over `u8`, step by step. */
  lemma CastNth()
    ensures NthFromFront(U8, ClosedClosed(0, 255), 256) == NthResult(Some(0), ClosedClosed(1, 255))
  {
    assert Forward(U8, 0, 256) == Some(0) by {
      assert U8.Wrap(256) == 0;
    }
  }

  // Iterating to the end.

  /** The integers from `a` to `b`, in increasing order. */
  function Ints(a: int, b: int): seq<int>
    decreases b - a
  {
    if b < a then [] else [a] + Ints(a + 1, b)
  }

  /** The integers from `b` down to `a`, in decreasing order. */
  function IntsDown(b: int, a: int): seq<int>
    decreases b - a
  {
    if b < a then [] else [b] + IntsDown(b - 1, a)
  }

  /** `take(m).collect()` on the iterator: the values `next` yields, up to `m` of them or the first None. */
  function CollectFront(k: IntKind, i: Interval, m: nat): seq<int>
    requires BoundsIn(k, i)
    decreases m
  {
    if m == 0 then []
    else
      var r := NthFromFront(k, i, 0);
      match r.value
      case None => []
      case Some(x) => [x] + CollectFront(k, r.rest, m - 1)
  }

  /** `rev().take(m).collect()`: the values `next_back` yields. */
  function CollectBack(k: IntKind, i: Interval, m: nat): seq<int>
    requires BoundsIn(k, i)
    decreases m
  {
    if m == 0 then []
    else
      var r := NthFromBack(k, i, 0);
      match r.value
      case None => []
      case Some(x) => [x] + CollectBack(k, r.rest, m - 1)
  }

  function MinInt(a: int, b: int): int { if a <= b then a else b }
  function MaxInt(a: int, b: int): int { if a <= b then b else a }

  /** An interval the type does not hold a value of has `First` past `Last`. */
  lemma EmptyFirstLast(k: IntKind, i: Interval)
    requires BoundsIn(k, i) && i.IsEmpty()
    ensures Last(k, i.upper) < First(k, i.lower)
  {
    EmptyIffNoValue(i);
    DomainIsRange(k, i);
    assert !InDomain(k, i, First(k, i.lower));
  }

  /**
   * `take(m)` yields the values of the type in the interval from the least
   * one up, one by one, until `m` are taken or none is left.
   */
  lemma CollectFrontIsRange(k: IntKind, i: Interval, m: nat)
    requires BoundsIn(k, i) && FrontStartsInside(k, i)
    ensures CollectFront(k, i, m) == Ints(First(k, i.lower), MinInt(Last(k, i.upper), First(k, i.lower) + m - 1))
  {
    CollectFrontFrom(k, i, m, First(k, i.lower), Last(k, i.upper), MinInt(Last(k, i.upper), First(k, i.lower) + m - 1));
  }

  /** `CollectFrontIsRange`, with the least, the greatest and the last value taken named. */
  lemma {:induction false} CollectFrontFrom(k: IntKind, i: Interval, m: nat, f: int, l: int, hi: int)
    requires BoundsIn(k, i) && FrontStartsInside(k, i)
    requires f == First(k, i.lower) && l == Last(k, i.upper) && hi == MinInt(l, f + m - 1)
    ensures CollectFront(k, i, m) == Ints(f, hi)
    decreases m
  {
    if m > 0 {
      if f <= l {
        CollectFrontStep(k, i, m, f, l);
        CollectFrontFrom(k, i.(lower := MovedLower(k, i.lower, f)), m - 1, f + 1, l, hi);
        IntsCons(f, hi);
      } else {
        CollectFrontEnd(k, i, m);
      }
    }
  }

  /** One step of `take(m)`: the least value, then the rest of the interval above it. */
  lemma CollectFrontStep(k: IntKind, i: Interval, m: nat, f: int, l: int)
    requires BoundsIn(k, i) && FrontStartsInside(k, i) && m > 0
    requires f == First(k, i.lower) && l == Last(k, i.upper) && f <= l
    ensures k.InRange(f)
    ensures var rest := i.(lower := MovedLower(k, i.lower, f));
      BoundsIn(k, rest) && FrontStartsInside(k, rest) && First(k, rest.lower) == f + 1 && Last(k, rest.upper) == l &&
      CollectFront(k, i, m) == [f] + CollectFront(k, rest, m - 1)
  {
    NextAgrees(k, i);
    assert !i.IsEmpty() by {
      if i.IsEmpty() {
        EmptyFirstLast(k, i);
      }
    }
    FixedFrontFound(k, i, 0);
    MovedLowerFacts(k, i.lower, f);
  }

  /** `take(m)` on an interval without a value of the type yields nothing. */
  lemma CollectFrontEnd(k: IntKind, i: Interval, m: nat)
    requires BoundsIn(k, i) && FrontStartsInside(k, i)
    requires Last(k, i.upper) < First(k, i.lower)
    ensures CollectFront(k, i, m) == []
  {
    NextAgrees(k, i);
  }

  /** `rev().take(m)` yields the values of the type in the interval from the greatest one down. */
  lemma CollectBackIsRange(k: IntKind, i: Interval, m: nat)
    requires BoundsIn(k, i) && BackStartsInside(k, i)
    ensures CollectBack(k, i, m) == IntsDown(Last(k, i.upper), MaxInt(First(k, i.lower), Last(k, i.upper) - m + 1))
  {
    CollectBackFrom(k, i, m, First(k, i.lower), Last(k, i.upper), MaxInt(First(k, i.lower), Last(k, i.upper) - m + 1));
  }

  /** `CollectBackIsRange`, with the least, the greatest and the last value taken named. */
  lemma {:induction false} CollectBackFrom(k: IntKind, i: Interval, m: nat, f: int, l: int, lo: int)
    requires BoundsIn(k, i) && BackStartsInside(k, i)
    requires f == First(k, i.lower) && l == Last(k, i.upper) && lo == MaxInt(f, l - m + 1)
    ensures CollectBack(k, i, m) == IntsDown(l, lo)
    decreases m
  {
    if m > 0 {
      if f <= l {
        CollectBackStep(k, i, m, f, l);
        var rest := i.(upper := MovedUpper(k, i.upper, l));
        CollectBackFrom(k, rest, m - 1, f, l - 1, lo);
        IntsDownCons(l, lo);
        assert CollectBack(k, i, m) == [l] + CollectBack(k, rest, m - 1);
        assert CollectBack(k, rest, m - 1) == IntsDown(l - 1, lo);
        assert IntsDown(l, lo) == [l] + IntsDown(l - 1, lo);
      } else {
        CollectBackEnd(k, i, m);
        assert IntsDown(l, lo) == [];
      }
    } else {
      assert IntsDown(l, lo) == [];
    }
  }

  /** One step of `rev().take(m)`: the greatest value, then the rest of the interval below it. */
  lemma CollectBackStep(k: IntKind, i: Interval, m: nat, f: int, l: int)
    requires BoundsIn(k, i) && BackStartsInside(k, i) && m > 0
    requires f == First(k, i.lower) && l == Last(k, i.upper) && f <= l
    ensures k.InRange(l)
    ensures var rest := i.(upper := MovedUpper(k, i.upper, l));
      BoundsIn(k, rest) && BackStartsInside(k, rest) && First(k, rest.lower) == f && Last(k, rest.upper) == l - 1 &&
      CollectBack(k, i, m) == [l] + CollectBack(k, rest, m - 1)
  {
    NextBackAgrees(k, i);
    assert !i.IsEmpty() by {
      if i.IsEmpty() {
        EmptyFirstLast(k, i);
      }
    }
    FixedBackFound(k, i, 0);
    MovedUpperFacts(k, i.upper, l);
  }

  /** `take(m)` on an interval without a value of the type yields nothing. */
  lemma CollectBackEnd(k: IntKind, i: Interval, m: nat)
    requires BoundsIn(k, i) && BackStartsInside(k, i)
    requires Last(k, i.upper) < First(k, i.lower)
    ensures CollectBack(k, i, m) == []
  {
    NextBackAgrees(k, i);
  }

  lemma IntsCons(a: int, b: int)
    requires a <= b
    ensures Ints(a, b) == [a] + Ints(a + 1, b)
  {
  }

  lemma IntsDownCons(b: int, a: int)
    requires a <= b
    ensures IntsDown(b, a) == [b] + IntsDown(b - 1, a)
  {
  }

  lemma {:induction false} IntsMeaning(a: int, b: int)
    ensures |Ints(a, b)| == if b < a then 0 else b - a + 1
    ensures forall j :: 0 <= j < |Ints(a, b)| ==> Ints(a, b)[j] == a + j
    decreases b - a
  {
    if a <= b {
      IntsMeaning(a + 1, b);
    }
  }

  lemma {:induction false} IntsDownMeaning(b: int, a: int)
    ensures |IntsDown(b, a)| == if b < a then 0 else b - a + 1
    ensures forall j :: 0 <= j < |IntsDown(b, a)| ==> IntsDown(b, a)[j] == b - j
    decreases b - a
  {
    if a <= b {
      IntsDownMeaning(b - 1, a);
    }
  }

  /**
   * Collecting the iterator (taking at least as many values as there are)
   * yields each value of the type in the interval once, in increasing order.
   */
  lemma CollectFrontMeaning(k: IntKind, i: Interval, m: nat)
    requires BoundsIn(k, i) && FrontStartsInside(k, i)
    requires Last(k, i.upper) - First(k, i.lower) < m
    ensures var c := CollectFront(k, i, m);
      (forall v :: v in c <==> InDomain(k, i, v)) && forall j :: 0 < j < |c| ==> c[j - 1] + 1 == c[j]
  {
    CollectFrontIsRange(k, i, m);
    DomainIsRange(k, i);
    var c := CollectFront(k, i, m);
    IntsMeaning(First(k, i.lower), Last(k, i.upper));
    forall v | InDomain(k, i, v) ensures v in c {
      assert c[v - First(k, i.lower)] == v;
    }
  }

  /** Collecting the reversed iterator yields each value of the type in the interval once, in decreasing order. */
  lemma CollectBackMeaning(k: IntKind, i: Interval, m: nat)
    requires BoundsIn(k, i) && BackStartsInside(k, i)
    requires Last(k, i.upper) - First(k, i.lower) < m
    ensures var c := CollectBack(k, i, m);
      (forall v :: v in c <==> InDomain(k, i, v)) && forall j :: 0 < j < |c| ==> c[j - 1] - 1 == c[j]
  {
    CollectBackIsRange(k, i, m);
    DomainIsRange(k, i);
    var c := CollectBack(k, i, m);
    IntsDownMeaning(Last(k, i.upper), First(k, i.lower));
    forall v | InDomain(k, i, v) ensures v in c {
      assert c[Last(k, i.upper) - v] == v;
    }
  }

  /** The iterator of `Interval::iter`. */
  class IntervalIterator {
    /** The integer type the iterator steps through. */
    const kind: IntKind
    var intv: Interval

    ghost predicate Valid()
      reads this
    {
      BoundsIn(kind, intv)
    }

    /** `IntervalIterator::new(&lower, &upper)`, as called by `iter` and `into_iter`. */
    constructor(kind: IntKind, i: Interval)
      requires BoundsIn(kind, i)
      ensures this.kind == kind && intv == i && Valid()
    {
      this.kind, intv := kind, i;
    }

    /** `as_interval`: what the iterator has still to yield. */
    function AsInterval(): Interval
      reads this
    {
      intv
    }

    /** `internal_nth`. */
    method InternalNth(n: nat) returns (r: Option<int>)
      requires Valid() && Usize.InRange(n)
      modifies this
      ensures Valid()
      ensures NthResult(r, intv) == NthFromFront(kind, old(intv), n)
    {
      if intv.IsEmpty() {
        return None;
      }
      match intv.lower {
        case LeftUnbounded =>
          r := Forward(kind, kind.MinValue(), n);
          match ThenForward(kind, r) {
            case None => intv := intv.(lower := RightUnbounded);
            case Some(c) => intv := intv.(lower := LeftOf(c));
          }
        case RightUnbounded =>
          assert false;
        case LeftOf(lo) =>
          r := Forward(kind, lo, n);
          match ThenForward(kind, r) {
            case None => intv := intv.(lower := RightUnbounded);
            case Some(c) => intv := intv.(lower := LeftOf(c));
          }
        case RightOf(lo) =>
          r := ThenForward(kind, Forward(kind, lo, n));
          match r {
            case None => intv := intv.(lower := RightUnbounded);
            case Some(c) => intv := intv.(lower := RightOf(c));
          }
      }
    }

    /** `internal_nth_back`. */
    method InternalNthBack(n: nat) returns (r: Option<int>)
      requires Valid() && Usize.InRange(n)
      modifies this
      ensures Valid()
      ensures NthResult(r, intv) == NthFromBack(kind, old(intv), n)
    {
      if intv.IsEmpty() {
        return None;
      }
      match intv.upper {
        case LeftUnbounded =>
          assert false;
        case RightUnbounded =>
          r := Backward(kind, kind.MaxValue(), n);
          match ThenBackward(kind, r) {
            case None => intv := intv.(upper := LeftUnbounded);
            case Some(c) => intv := intv.(upper := RightOf(c));
          }
        case RightOf(up) =>
          r := Backward(kind, up, n);
          match ThenBackward(kind, r) {
            case None => intv := intv.(upper := LeftUnbounded);
            case Some(c) => intv := intv.(upper := RightOf(c));
          }
        case LeftOf(lo) =>
          r := ThenBackward(kind, Backward(kind, lo, n));
          match r {
            case None => intv := intv.(upper := LeftUnbounded);
            case Some(c) => intv := intv.(upper := LeftOf(c));
          }
      }
    }

    /** `next`: removes and returns the first value. */
    method Next() returns (r: Option<int>)
      requires Valid()
      modifies this
      ensures Valid()
      ensures NthResult(r, intv) == NthFromFront(kind, old(intv), 0)
      ensures FrontStartsInside(kind, old(intv)) ==> NthCorrect(kind, old(intv), 0, NthResult(r, intv))
    {
      if FrontStartsInside(kind, intv) {
        NextCorrect(kind, intv);
      }
      r := InternalNth(0);
    }

    /** `nth`. */
    method Nth(n: nat) returns (r: Option<int>)
      requires Valid() && Usize.InRange(n)
      modifies this
      ensures Valid()
      ensures NthResult(r, intv) == NthFromFront(kind, old(intv), n)
    {
      r := InternalNth(n);
    }

    /** `next_back`: removes and returns the last value. */
    method NextBack() returns (r: Option<int>)
      requires Valid()
      modifies this
      ensures Valid()
      ensures NthResult(r, intv) == NthFromBack(kind, old(intv), 0)
      ensures BackStartsInside(kind, old(intv)) ==> NthBackCorrect(kind, old(intv), 0, NthResult(r, intv))
    {
      if BackStartsInside(kind, intv) {
        NextBackCorrect(kind, intv);
      }
      r := InternalNthBack(0);
    }

    /** `nth_back`. */
    method NthBack(n: nat) returns (r: Option<int>)
      requires Valid() && Usize.InRange(n)
      modifies this
      ensures Valid()
      ensures NthResult(r, intv) == NthFromBack(kind, old(intv), n)
    {
      r := InternalNthBack(n);
    }
  }
}
