/**
 * `Step` for the primitive integer types: the type's least and greatest
 * values (`IntKind.MinValue` and `IntKind.MaxValue`), and checked steps
 * forward and backward.  The step count is a `usize` that is cast with `as`
 * to the stepped type before the checked addition or subtraction.
 */
module Step {
  import opened Wrappers
  import opened MachineInts

  /** `step as T`: the count wrapped into the stepped type. */
  function CastStep(k: IntKind, step: nat): (r: int)
    requires Usize.InRange(step)
    ensures k.InRange(r)
    ensures k.InRange(step) ==> r == step
  {
    k.Wrap(step)
  }

  /** `forward`, as written: `checked_add(step as T)`. */
  function Forward(k: IntKind, x: int, step: nat): (r: Option<int>)
    requires k.InRange(x) && Usize.InRange(step)
    ensures r.Some? ==> k.InRange(r.value)
    ensures k.InRange(step) ==> r == CheckedForward(k, x, step)
  {
    var s := CastStep(k, step);
    if k.InRange(x + s) then Some(x + s) else None
  }

  /** `backward`, as written: `checked_sub(step as T)`. */
  function Backward(k: IntKind, x: int, step: nat): (r: Option<int>)
    requires k.InRange(x) && Usize.InRange(step)
    ensures r.Some? ==> k.InRange(r.value)
    ensures k.InRange(step) ==> r == CheckedBackward(k, x, step)
  {
    var s := CastStep(k, step);
    if k.InRange(x - s) then Some(x - s) else None
  }

  /** A step forward by the count itself: `x + step` when the type holds it, None on overflow. */
  function CheckedForward(k: IntKind, x: int, step: nat): (r: Option<int>)
    requires k.InRange(x)
    ensures r.Some? <==> x + step <= k.MaxValue()
    ensures r.Some? ==> r.value == x + step
  {
    if k.InRange(x + step) then Some(x + step) else None
  }

  /** A step backward by the count itself: `x - step` when the type holds it, None on underflow. */
  function CheckedBackward(k: IntKind, x: int, step: nat): (r: Option<int>)
    requires k.InRange(x)
    ensures r.Some? <==> k.MinValue() <= x - step
    ensures r.Some? ==> r.value == x - step
  {
    if k.InRange(x - step) then Some(x - step) else None
  }

  /** A step of zero lands where it started, in both directions. */
  lemma StepZero(k: IntKind, x: int)
    requires k.InRange(x)
    ensures Forward(k, x, 0) == Some(x) && Backward(k, x, 0) == Some(x)
  {
  }

  /** One step forward and one back return to the start whenever the first one succeeds. */
  lemma StepInverse(k: IntKind, x: int, n: nat)
    requires k.InRange(x) && k.InRange(n) && Usize.InRange(n)
    ensures Forward(k, x, n).Some? ==> Backward(k, Forward(k, x, n).value, n) == Some(x)
    ensures Backward(k, x, n).Some? ==> Forward(k, Backward(k, x, n).value, n) == Some(x)
  {
  }

  /**
   * The cast wraps a count the type cannot hold: a `u8` stepped forward by
   * 256 does not move.
   */
  lemma StepCastCounterexample()
    ensures Forward(U8, 0, 256) == Some(0) && CheckedForward(U8, 0, 256) == None
  {
    assert U8.Wrap(256) == 0;
  }

  /** An `i8` stepped forward by 200 goes back by 56. */
  lemma SignedStepCastCounterexample()
    ensures Forward(I8, 0, 200) == Some(-56) && CheckedForward(I8, 0, 200) == None
  {
    assert I8.Wrap(200) == -56;
  }

  /** A `u16` stepped backward by 65536 does not move. */
  lemma BackwardStepCastCounterexample()
    ensures Backward(U16, 5, 0x1_0000) == Some(5) && CheckedBackward(U16, 5, 0x1_0000) == None
  {
    assert U16.Wrap(0x1_0000) == 0;
  }
}
