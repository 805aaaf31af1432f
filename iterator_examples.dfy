/**
 * The iteration examples the library's tests check, over the integer types
 * they use.
 */
module IteratorExamples {
  import opened Wrappers
  import opened MachineInts
  import opened Bounds
  import opened Intervals
  import opened IntervalIter

  /** `[a, b)` yields `a` to `b - 1`, up or down, once `m` reaches their number (the test takes `[1, 4)` over `u32`). */
  lemma CollectClosedOpen(k: IntKind, a: int, b: int, m: nat)
    requires k.InRange(a) && k.InRange(b) && b - a <= m
    ensures CollectFront(k, ClosedOpen(a, b), m) == Ints(a, b - 1)
  {
    CollectFrontFrom(k, ClosedOpen(a, b), m, a, b - 1, b - 1);
  }

  lemma CollectClosedOpenReversed(k: IntKind, a: int, b: int, m: nat)
    requires k.InRange(a) && k.InRange(b) && b - a <= m
    ensures CollectBack(k, ClosedOpen(a, b), m) == IntsDown(b - 1, a)
  {
    CollectBackFrom(k, ClosedOpen(a, b), m, a, b - 1, a);
  }

  /** `[a, b]` yields `a` to `b` (the test takes `[1, 4]` over `i32`). */
  lemma CollectClosedClosed(k: IntKind, a: int, b: int, m: nat)
    requires k.InRange(a) && k.InRange(b) && b - a < m
    ensures CollectFront(k, ClosedClosed(a, b), m) == Ints(a, b)
  {
    CollectFrontFrom(k, ClosedClosed(a, b), m, a, b, b);
  }

  lemma CollectClosedClosedReversed(k: IntKind, a: int, b: int, m: nat)
    requires k.InRange(a) && k.InRange(b) && b - a < m
    ensures CollectBack(k, ClosedClosed(a, b), m) == IntsDown(b, a)
  {
    CollectBackFrom(k, ClosedClosed(a, b), m, a, b, a);
  }

  /** `(a, b]` yields `a + 1` to `b` (the test takes `(1, 4]` over `i32`). */
  lemma CollectOpenClosed(k: IntKind, a: int, b: int, m: nat)
    requires k.InRange(a) && k.InRange(b) && b - a <= m
    ensures CollectFront(k, OpenClosed(a, b), m) == Ints(a + 1, b)
  {
    CollectFrontFrom(k, OpenClosed(a, b), m, a + 1, b, b);
  }

  lemma CollectOpenClosedReversed(k: IntKind, a: int, b: int, m: nat)
    requires k.InRange(a) && k.InRange(b) && b - a <= m
    ensures CollectBack(k, OpenClosed(a, b), m) == IntsDown(b, a + 1)
  {
    CollectBackFrom(k, OpenClosed(a, b), m, a + 1, b, a + 1);
  }

  /** `(a, b)` yields `a + 1` to `b - 1` (the test takes `(1, 4)` over `i8`). */
  lemma CollectOpenOpen(k: IntKind, a: int, b: int, m: nat)
    requires k.InRange(a) && k.InRange(b) && b - a - 1 <= m
    ensures CollectFront(k, OpenOpen(a, b), m) == Ints(a + 1, b - 1)
  {
    CollectFrontFrom(k, OpenOpen(a, b), m, a + 1, b - 1, b - 1);
  }

  lemma CollectOpenOpenReversed(k: IntKind, a: int, b: int, m: nat)
    requires k.InRange(a) && k.InRange(b) && b - a - 1 <= m
    ensures CollectBack(k, OpenOpen(a, b), m) == IntsDown(b - 1, a + 1)
  {
    CollectBackFrom(k, OpenOpen(a, b), m, a + 1, b - 1, a + 1);
  }

  /** `(-inf, b]` yields the type's least value to `b` (the test takes `(-inf, 4]` over `u16`, from 0). */
  lemma CollectUnboundedClosed(k: IntKind, b: int, m: nat)
    requires k.InRange(b) && b - k.MinValue() < m
    ensures CollectFront(k, UnboundedClosed(b), m) == Ints(k.MinValue(), b)
  {
    CollectFrontFrom(k, UnboundedClosed(b), m, k.MinValue(), b, b);
  }

  lemma CollectUnboundedClosedReversed(k: IntKind, b: int, m: nat)
    requires k.InRange(b) && b - k.MinValue() < m
    ensures CollectBack(k, UnboundedClosed(b), m) == IntsDown(b, k.MinValue())
  {
    CollectBackFrom(k, UnboundedClosed(b), m, k.MinValue(), b, k.MinValue());
  }

  /** `(-inf, b)` yields the type's least value to `b - 1` when it holds one (the test takes `(-inf, 4)` over `u16`). */
  lemma CollectUnboundedOpen(k: IntKind, b: int, m: nat)
    requires k.InRange(b) && k.MinValue() < b && b - k.MinValue() <= m
    ensures CollectFront(k, UnboundedOpen(b), m) == Ints(k.MinValue(), b - 1)
  {
    CollectFrontFrom(k, UnboundedOpen(b), m, k.MinValue(), b - 1, b - 1);
  }

  lemma CollectUnboundedOpenReversed(k: IntKind, b: int, m: nat)
    requires k.InRange(b) && k.MinValue() < b && b - k.MinValue() <= m
    ensures CollectBack(k, UnboundedOpen(b), m) == IntsDown(b - 1, k.MinValue())
  {
    CollectBackFrom(k, UnboundedOpen(b), m, k.MinValue(), b - 1, k.MinValue());
  }

  /** `[a, +inf)`: `take(m)` yields `a` on, `rev().take(m)` the type's greatest value down (the test takes `[2, +inf)` over `u32`, ten up and three down). */
  lemma CollectClosedUnbounded(k: IntKind, a: int, m: nat)
    requires k.InRange(a) && m <= k.MaxValue() - a + 1
    ensures CollectFront(k, ClosedUnbounded(a), m) == Ints(a, a + m - 1)
  {
    CollectFrontFrom(k, ClosedUnbounded(a), m, a, k.MaxValue(), a + m - 1);
  }

  lemma CollectClosedUnboundedReversed(k: IntKind, a: int, m: nat)
    requires k.InRange(a) && m <= k.MaxValue() - a + 1
    ensures CollectBack(k, ClosedUnbounded(a), m) == IntsDown(k.MaxValue(), k.MaxValue() - m + 1)
  {
    CollectBackFrom(k, ClosedUnbounded(a), m, a, k.MaxValue(), k.MaxValue() - m + 1);
  }

  /** `(a, +inf)`: `take(m)` yields `a + 1` on (the test takes `(2, +inf)` over `u32`). */
  lemma CollectOpenUnbounded(k: IntKind, a: int, m: nat)
    requires k.InRange(a) && a < k.MaxValue() && m <= k.MaxValue() - a
    ensures CollectFront(k, OpenUnbounded(a), m) == Ints(a + 1, a + m)
  {
    CollectFrontFrom(k, OpenUnbounded(a), m, a + 1, k.MaxValue(), a + m);
  }

  lemma CollectOpenUnboundedReversed(k: IntKind, a: int, m: nat)
    requires k.InRange(a) && a < k.MaxValue() && m <= k.MaxValue() - a
    ensures CollectBack(k, OpenUnbounded(a), m) == IntsDown(k.MaxValue(), k.MaxValue() - m + 1)
  {
    CollectBackFrom(k, OpenUnbounded(a), m, a + 1, k.MaxValue(), k.MaxValue() - m + 1);
  }

  /** The doubly unbounded interval runs from the type's least value up and from its greatest down (the test uses `u32`). */
  lemma CollectDoublyUnbounded(k: IntKind, m: nat)
    requires m <= k.Modulus()
    ensures CollectFront(k, DoublyUnbounded(), m) == Ints(k.MinValue(), k.MinValue() + m - 1)
  {
    CollectFrontFrom(k, DoublyUnbounded(), m, k.MinValue(), k.MaxValue(), k.MinValue() + m - 1);
  }

  lemma CollectDoublyUnboundedReversed(k: IntKind, m: nat)
    requires m <= k.Modulus()
    ensures CollectBack(k, DoublyUnbounded(), m) == IntsDown(k.MaxValue(), k.MaxValue() - m + 1)
  {
    CollectBackFrom(k, DoublyUnbounded(), m, k.MinValue(), k.MaxValue(), k.MaxValue() - m + 1);
  }

  /** The empty interval yields nothing either way (the test uses `u32`). */
  lemma CollectEmpty(k: IntKind, m: nat)
    ensures CollectFront(k, Empty(), m) == [] && CollectBack(k, Empty(), m) == []
  {
    CollectFrontIsRange(k, Empty(), m);
    CollectBackIsRange(k, Empty(), m);
  }

  // The steps of the scenarios below, one `nth` or `nth_back` each.

  lemma SkipStep1()
    ensures NthFromFront(U32, DoublyUnbounded(), 1_000_000_000) == NthResult(Some(1_000_000_000), ClosedUnbounded(1_000_000_001))
  {
    NthFromLeftUnbounded(U32, DoublyUnbounded(), 1_000_000_000);
  }

  lemma SkipStep2()
    ensures NthFromFront(U32, ClosedUnbounded(1_000_000_001), 999_999_999) == NthResult(Some(2_000_000_000), ClosedUnbounded(2_000_000_001))
  {
    NthFromLeftOf(U32, ClosedUnbounded(1_000_000_001), 999_999_999);
  }

  lemma SkipStep3()
    ensures NthFromFront(U32, ClosedUnbounded(2_000_000_001), 999_999_999) == NthResult(Some(3_000_000_000), ClosedUnbounded(3_000_000_001))
  {
    NthFromLeftOf(U32, ClosedUnbounded(2_000_000_001), 999_999_999);
  }

  lemma SkipBackStep1()
    ensures NthFromBack(U32, DoublyUnbounded(), 1_000_000_000) == NthResult(Some(3_294_967_295), UnboundedClosed(3_294_967_294))
  {
    NthBackFromRightUnbounded(U32, DoublyUnbounded(), 1_000_000_000);
  }

  lemma SkipBackStep2()
    ensures NthFromBack(U32, UnboundedClosed(3_294_967_294), 999_999_999) == NthResult(Some(2_294_967_295), UnboundedClosed(2_294_967_294))
  {
    NthBackFromRightOf(U32, UnboundedClosed(3_294_967_294), 999_999_999);
  }

  lemma SkipBackStep3()
    ensures NthFromBack(U32, UnboundedClosed(2_294_967_294), 999_999_999) == NthResult(Some(1_294_967_295), UnboundedClosed(1_294_967_294))
  {
    NthBackFromRightOf(U32, UnboundedClosed(2_294_967_294), 999_999_999);
  }

  /**
   * `skip(1_000_000_000).step_by(1_000_000_000).take(3)` on the doubly
   * unbounded `u32` iterator: one `nth(1_000_000_000)`, then
   * `nth(999_999_999)` each time, without stepping value by value.
   */
  lemma SkipStepByExample()
    ensures var r1 := NthFromFront(U32, DoublyUnbounded(), 1_000_000_000);
            var r2 := NthFromFront(U32, r1.rest, 999_999_999);
            var r3 := NthFromFront(U32, r2.rest, 999_999_999);
            r1.value == Some(1_000_000_000) && r2.value == Some(2_000_000_000) && r3.value == Some(3_000_000_000)
  {
    SkipStep1();
    SkipStep2();
    SkipStep3();
  }

  /** The same from the back: `u32::MAX` minus one, two and three billion. */
  lemma SkipStepByBackExample()
    ensures var r1 := NthFromBack(U32, DoublyUnbounded(), 1_000_000_000);
            var r2 := NthFromBack(U32, r1.rest, 999_999_999);
            var r3 := NthFromBack(U32, r2.rest, 999_999_999);
            r1.value == Some(U32.MaxValue() - 1_000_000_000) && r2.value == Some(U32.MaxValue() - 2_000_000_000) &&
            r3.value == Some(U32.MaxValue() - 3_000_000_000)
  {
    SkipBackStep1();
    SkipBackStep2();
    SkipBackStep3();
  }

  // One `next` or `next_back` on each kind of bounds, for any integer type.

  lemma NextClosedOpen(k: IntKind, a: int, b: int)
    requires k.InRange(a) && k.InRange(b) && a < b
    ensures NthFromFront(k, ClosedOpen(a, b), 0) == NthResult(Some(a), ClosedOpen(a + 1, b))
  {
    NthFromLeftOf(k, ClosedOpen(a, b), 0);
  }

  lemma NextBackClosedOpen(k: IntKind, a: int, b: int)
    requires k.InRange(a) && k.InRange(b) && a < b
    ensures NthFromBack(k, ClosedOpen(a, b), 0) == NthResult(Some(b - 1), ClosedOpen(a, b - 1))
  {
    NthBackFromLeftOf(k, ClosedOpen(a, b), 0);
  }

  lemma NextOpenClosed(k: IntKind, a: int, b: int)
    requires k.InRange(a) && k.InRange(b) && a < b
    ensures NthFromFront(k, OpenClosed(a, b), 0) == NthResult(Some(a + 1), OpenClosed(a + 1, b))
  {
    NthFromRightOf(k, OpenClosed(a, b), 0);
  }

  lemma NextBackOpenClosed(k: IntKind, a: int, b: int)
    requires k.InRange(a) && k.InRange(b) && a < b
    ensures NthFromBack(k, OpenClosed(a, b), 0) == NthResult(Some(b), OpenClosed(a, b - 1))
  {
    NthBackFromRightOf(k, OpenClosed(a, b), 0);
  }

  lemma NextOpenOpen(k: IntKind, a: int, b: int)
    requires k.InRange(a) && k.InRange(b) && a + 1 < b
    ensures NthFromFront(k, OpenOpen(a, b), 0) == NthResult(Some(a + 1), OpenOpen(a + 1, b))
  {
    NthFromRightOf(k, OpenOpen(a, b), 0);
  }

  lemma NextBackOpenOpen(k: IntKind, a: int, b: int)
    requires k.InRange(a) && k.InRange(b) && a + 1 < b
    ensures NthFromBack(k, OpenOpen(a, b), 0) == NthResult(Some(b - 1), OpenOpen(a, b - 1))
  {
    NthBackFromLeftOf(k, OpenOpen(a, b), 0);
  }

  /** From an unbounded lower bound `next` yields the type's least value and leaves a closed bound. */
  lemma NextUnboundedClosed(k: IntKind, b: int)
    requires k.InRange(b) && k.MinValue() < b
    ensures NthFromFront(k, UnboundedClosed(b), 0) == NthResult(Some(k.MinValue()), ClosedClosed(k.MinValue() + 1, b))
  {
    NthFromLeftUnbounded(k, UnboundedClosed(b), 0);
  }

  lemma NextBackClosedClosed(k: IntKind, a: int, b: int)
    requires k.InRange(a) && k.InRange(b) && a < b
    ensures NthFromBack(k, ClosedClosed(a, b), 0) == NthResult(Some(b), ClosedClosed(a, b - 1))
  {
    NthBackFromRightOf(k, ClosedClosed(a, b), 0);
  }

  // The scenarios of the iterator test, on the test's integer types.

  /**
   * `next`, `next_back`, `next`, `next_back` on `[a, a + 3)` over `u32`: the
   * least value, the greatest, the one left, then nothing (the test takes
   * `a` = 1).
   */
  method AlternatingScenario(a: int) returns (w: Option<int>, x: Option<int>, y: Option<int>, z: Option<int>)
    requires 0 <= a && a + 3 <= U32.MaxValue()
    ensures w == Some(a) && x == Some(a + 2) && y == Some(a + 1) && z == None
  {
    var it := new IntervalIterator(U32, ClosedOpen(a, a + 3));
    NextClosedOpen(U32, a, a + 3);
    w := it.Next();
    assert it.intv == ClosedOpen(a + 1, a + 3);
    NextBackClosedOpen(U32, a + 1, a + 3);
    x := it.NextBack();
    assert it.intv == ClosedOpen(a + 1, a + 2);
    NextClosedOpen(U32, a + 1, a + 2);
    y := it.Next();
    assert it.intv == ClosedOpen(a + 2, a + 2);
    z := it.NextBack();
  }

  /**
   * After one `next` and one `next_back`, `as_interval` is what is left,
   * with the same kinds of bounds (the test takes `[1, 4)` over `u32`).
   */
  method AsIntervalClosedOpen(a: int, b: int) returns (x: Option<int>, y: Option<int>, rest: Interval)
    requires 0 <= a && a + 1 < b <= U32.MaxValue()
    ensures x == Some(a) && y == Some(b - 1) && rest == ClosedOpen(a + 1, b - 1)
  {
    var it := new IntervalIterator(U32, ClosedOpen(a, b));
    NextClosedOpen(U32, a, b);
    x := it.Next();
    assert it.intv == ClosedOpen(a + 1, b);
    NextBackClosedOpen(U32, a + 1, b);
    y := it.NextBack();
    assert it.intv == ClosedOpen(a + 1, b - 1);
    rest := it.AsInterval();
  }

  /** The same on `(a, b]` over `i32` (the test takes `(1, 4]`). */
  method AsIntervalOpenClosed(a: int, b: int) returns (x: Option<int>, y: Option<int>, rest: Interval)
    requires I32.MinValue() <= a && a + 2 < b <= I32.MaxValue()
    ensures x == Some(a + 1) && y == Some(b) && rest == OpenClosed(a + 1, b - 1)
  {
    var it := new IntervalIterator(I32, OpenClosed(a, b));
    NextOpenClosed(I32, a, b);
    x := it.Next();
    assert it.intv == OpenClosed(a + 1, b);
    NextBackOpenClosed(I32, a + 1, b);
    y := it.NextBack();
    assert it.intv == OpenClosed(a + 1, b - 1);
    rest := it.AsInterval();
  }

  /** The same on `(a, b)` over `i8` (the test takes `(1, 4)`). */
  method AsIntervalOpenOpen(a: int, b: int) returns (x: Option<int>, y: Option<int>, rest: Interval)
    requires I8.MinValue() <= a && a + 3 < b <= I8.MaxValue()
    ensures x == Some(a + 1) && y == Some(b - 1) && rest == OpenOpen(a + 1, b - 1)
  {
    var it := new IntervalIterator(I8, OpenOpen(a, b));
    NextOpenOpen(I8, a, b);
    x := it.Next();
    assert it.intv == OpenOpen(a + 1, b);
    NextBackOpenOpen(I8, a + 1, b);
    y := it.NextBack();
    assert it.intv == OpenOpen(a + 1, b - 1);
    rest := it.AsInterval();
  }

  /**
   * From an unbounded lower bound the rest starts just after the type's
   * least value, with a closed bound: `(-inf, b]` over `u16` (the test
   * takes `b` = 4).
   */
  method AsIntervalUnboundedClosed(b: int) returns (x: Option<int>, y: Option<int>, rest: Interval)
    requires 1 < b <= U16.MaxValue()
    ensures x == Some(0) && y == Some(b) && rest == ClosedClosed(1, b - 1)
  {
    var it := new IntervalIterator(U16, UnboundedClosed(b));
    NextUnboundedClosed(U16, b);
    x := it.Next();
    assert it.intv == ClosedClosed(1, b);
    NextBackClosedClosed(U16, 1, b);
    y := it.NextBack();
    assert it.intv == ClosedClosed(1, b - 1);
    rest := it.AsInterval();
  }
}
