/**
 * Rust's primitive integer types, as ranges of mathematical integers.
 * `isize` and `usize` are taken to be 64 bits wide (a 64-bit target).
 */
module MachineInts {
  datatype IntKind = U8 | U16 | U32 | U64 | U128 | I8 | I16 | I32 | I64 | Isize | Usize
  {
    predicate Signed() {
      this.I8? || this.I16? || this.I32? || this.I64? || this.Isize?
    }

    /** 2 to the power of the bit width. */
    function Modulus(): (m: int)
      ensures m >= 0x100
    {
      match this
      case U8 | I8 => 0x100
      case U16 | I16 => 0x1_0000
      case U32 | I32 => 0x1_0000_0000
      case U64 | I64 | Isize | Usize => 0x1_0000_0000_0000_0000
      case U128 => 0x1_0000_0000_0000_0000_0000_0000_0000_0000
    }

    /** `T::MIN`. */
    function MinValue(): (r: int)
      ensures Signed() ==> r == -(Modulus() / 2)
      ensures !Signed() ==> r == 0
    {
      if Signed() then -(Modulus() / 2) else 0
    }

    /** `T::MAX`. */
    function MaxValue(): (r: int)
      ensures r - MinValue() == Modulus() - 1
    {
      if Signed() then Modulus() / 2 - 1 else Modulus() - 1
    }

    predicate InRange(x: int) {
      MinValue() <= x <= MaxValue()
    }

    /**
     * Two's complement wrap-around: 2^bits added or taken away until the
     * value is one of the type, which leaves it congruent to `x`
     * (`WrapCongruent`).  This is what an `as` cast and an unchecked
     * arithmetic operation in a release build produce.
     */
    function Wrap(x: int): (r: int)
      ensures InRange(r)
      ensures InRange(x) ==> r == x
      decreases if x > MaxValue() then x - MaxValue() else if x < MinValue() then MinValue() - x else 0
    {
      if x > MaxValue() then Wrap(x - Modulus())
      else if x < MinValue() then Wrap(x + Modulus())
      else x
    }

    /** The wrapped value differs from `x` by a multiple of 2^bits. */
    lemma {:induction false} WrapCongruent(x: int)
      ensures (x - Wrap(x)) % Modulus() == 0
      decreases if x > MaxValue() then x - MaxValue() else if x < MinValue() then MinValue() - x else 0
    {
      var m := Modulus();
      if x > MaxValue() {
        var w := Wrap(x - m);
        assert Wrap(x) == w;
        WrapCongruent(x - m);
        ShiftMod(x - m - w, m);
        assert x - m - w + m == x - w;
      } else if x < MinValue() {
        var w := Wrap(x + m);
        assert Wrap(x) == w;
        WrapCongruent(x + m);
        ShiftMod(x - w, m);
        assert x - w + m == x + m - w;
      }
    }
  }

  /** Adding the modulus does not change the remainder. */
  lemma ShiftMod(a: int, m: int)
    requires m > 0
    ensures (a + m) % m == a % m
  {
    var q, r := a / m, a % m;
    assert a == q * m + r && 0 <= r < m;
    assert a + m == (q + 1) * m + r;
    DivModUnique(a + m, m, q + 1, r);
  }

  /** The quotient and remainder of Euclidean division are the only ones. */
  lemma DivModUnique(a: int, m: int, q: int, r: int)
    requires m > 0 && a == q * m + r && 0 <= r < m
    ensures a % m == r
  {
    var q', r' := a / m, a % m;
    assert a == q' * m + r' && 0 <= r' < m;
    assert (q - q') * m == r' - r;
    if q > q' {
      MulAtLeast(q - q', m);
    } else if q < q' {
      MulAtLeast(q' - q, m);
    }
  }

  lemma MulAtLeast(d: int, m: int)
    requires d >= 1 && m > 0
    ensures d * m >= m
  {
  }
}
