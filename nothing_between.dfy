/**
 * `nothing_between(a, b)`: true when no value of the type lies strictly
 * between `a` and `b`.  The library only asks it for `a < b`.
 */
module NothingBetween {
  import opened MachineInts

  /** The integer rule `b - a <= 1`, on mathematical integers. */
  function IntNothingBetween(a: int, b: int): (r: bool)
    requires a < b
    ensures r ==> b == a + 1
    ensures !r ==> a < a + 1 < b
  {
    b - a <= 1
  }

  /**
   * The integer rule as the source computes it in the fixed-width type `k`:
   * the subtraction is done in `k`, so it wraps around when `b - a` does not
   * fit (a release build; a debug build panics instead).
   */
  function MachineNothingBetween(k: IntKind, a: int, b: int): (r: bool)
    requires k.InRange(a) && k.InRange(b) && a < b
    ensures k.InRange(b - a) ==> (r <==> IntNothingBetween(a, b))
    ensures !k.Signed() ==> (r <==> IntNothingBetween(a, b))
  {
    k.Wrap(b - a) <= 1
  }

  /** For signed types, `b - a` overflows and the answer is wrong: i8 -100 and 100 are reported adjacent. */
  lemma SignedOverflowCounterexample()
    ensures I8.InRange(-100) && I8.InRange(100)
    ensures MachineNothingBetween(I8, -100, 100)
    ensures !IntNothingBetween(-100, 100)
  {
    assert I8.Wrap(200) == -56;
  }

  /** `char`, as written: the rule applied to code points. */
  function CharNothingBetween(a: char, b: char): (r: bool)
    requires a < b
    ensures r ==> b as int == a as int + 1
  {
    (b as int) - (a as int) <= 1
  }

  /**
   * U+D7FF and U+E000 are consecutive `char`s (the surrogates in between
   * are not `char`s), yet the code-point rule says something lies between them.
   */
  lemma CharSurrogateGapCounterexample(c: char)
    ensures !CharNothingBetween('\U{D7FF}', '\U{E000}')
    ensures !('\U{D7FF}' < c < '\U{E000}')
  {
  }

  /** `char` rule that also treats the two ends of the surrogate gap as adjacent. */
  predicate ScalarNothingBetween(a: char, b: char)
    requires a < b
  {
    (b as int) - (a as int) <= 1 || (a as int == 0xD7FF && b as int == 0xE000)
  }

  /** ScalarNothingBetween is complete: when it says no, here is a `char` in between. */
  function CharAfter(a: char, b: char): (c: char)
    requires a < b && !ScalarNothingBetween(a, b)
    ensures a < c < b
  {
    if a as int == 0xD7FF then 0xE000 as char else (a as int + 1) as char
  }

  /** ScalarNothingBetween is exact: when it says yes, no `char` lies in between. */
  lemma ScalarNothingBetweenSound(a: char, b: char, c: char)
    requires a < b && ScalarNothingBetween(a, b)
    ensures !(a < c < b)
  {
  }
}
