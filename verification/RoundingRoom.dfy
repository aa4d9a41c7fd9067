/** Where a rounded difference leaves rounding to a grid without an answer, or with a wrong one. */
module RoundingRoom {
  import opened Decimals
  import opened GridRounding
  import opened IntArith
  import opened Wrappers

  const ZERO: Decimal := Scaled(0, 0)

  /** An exact arithmetic that, short of digits, gives the left operand or nothing. */
  function Cautious(): Arith {
    Arith(
      (a: Decimal, b: Decimal) =>
        if Fits(Difference(a, b)) then Scaled(Difference(a, b), Finer(a, b)) else a,
      (a: Decimal, b: Decimal) =>
        if Fits(Total(a, b)) then Some(Scaled(Total(a, b), Finer(a, b))) else None,
      (a: Decimal, b: Decimal) =>
        if Fits(Difference(a, b)) then Some(Scaled(Difference(a, b), Finer(a, b))) else None,
      (a: Decimal, b: Decimal) => a,
      (a: Decimal) => a)
  }

  /** An exact arithmetic that, short of digits, gives zero. */
  function Zeroing(): Arith {
    Cautious().(
      sub := (a: Decimal, b: Decimal) =>
        if Fits(Difference(a, b)) then Scaled(Difference(a, b), Finer(a, b)) else ZERO,
      checkedSub := (a: Decimal, b: Decimal) =>
        Some(if Fits(Difference(a, b)) then Scaled(Difference(a, b), Finer(a, b)) else ZERO))
  }

  lemma BothAreExact()
    ensures Cautious().Exact() && Zeroing().Exact()
  {
  }

  /** Rounding down with `ar` gives no answer, or the greatest multiple at or below the value. */
  ghost predicate DownIsRight(ar: Arith, value: Decimal, step: Decimal)
    requires step.mantissa > 0
  {
    var r := RoundDownTo(ar, value, Some(step));
    r.Some? ==> IsGreatestBelow(r.value, value, step)
  }

  ghost predicate UpIsRight(ar: Arith, value: Decimal, step: Decimal)
    requires step.mantissa > 0
  {
    var r := RoundUpTo(ar, value, Some(step));
    r.Some? ==> IsLeastAbove(r.value, value, step)
  }

  /**
   The condition is tight: every exact arithmetic gives an answer, and every one gives no wrong
   answer, exactly where a mantissa holds the greatest multiple at the finer scale.
   */
  lemma RoundDownNeedsRoom(value: Decimal, step: Decimal)
    requires step.mantissa > 0
    ensures (forall ar: Arith :: ar.Exact() ==> RoundDownTo(ar, value, Some(step)).Some?)
            <==> DownHasRoom(value, step)
    ensures (forall ar: Arith :: ar.Exact() ==> DownIsRight(ar, value, step))
            <==> DownHasRoom(value, step)
  {
    if DownHasRoom(value, step) {
      forall ar: Arith | ar.Exact()
        ensures RoundDownTo(ar, value, Some(step)).Some? && DownIsRight(ar, value, step)
      {
        RoundDownIsGreatest(ar, value, step);
      }
    } else {
      BothAreExact();
      CautiousHasNoAnswer(value, step);
      ZeroingIsWrong(value, step);
    }
  }

  lemma CautiousHasNoAnswer(value: Decimal, step: Decimal)
    requires step.mantissa > 0 && !DownHasRoom(value, step)
    ensures RoundDownTo(Cautious(), value, Some(step)).None?
  {
    var scale := Finer(value, step);
    var remainder := Rem(value, step);
    var v, s := At(value, scale), At(step, scale);
    AtSign(step, scale);
    TowardZero(v, s);
    TruncModIsSmaller(v, s);
    AtOwnScale(remainder);
    assert Difference(value, remainder) == v - remainder.mantissa;
    if remainder.mantissa < 0 && Fits(v - remainder.mantissa) {
      var towardZero: Decimal := Scaled(v - remainder.mantissa, scale);
      AtOwnScale(towardZero);
      assert Difference(towardZero, step) == FloorAt(value, step);
    }
  }

  /** Zero, or a step below it, is not the greatest multiple where that does not fit. */
  lemma ZeroingIsWrong(value: Decimal, step: Decimal)
    requires step.mantissa > 0 && !DownHasRoom(value, step)
    ensures !DownIsRight(Zeroing(), value, step)
  {
    if Rem(value, step).mantissa > 0 {
      ZeroingPositive(value, step);
    } else {
      ZeroingNegative(value, step);
    }
  }

  lemma ZeroingPositive(value: Decimal, step: Decimal)
    requires step.mantissa > 0 && !DownHasRoom(value, step) && Rem(value, step).mantissa > 0
    ensures !DownIsRight(Zeroing(), value, step)
  {
    var scale := Finer(value, step);
    AtSign(step, scale);
    TowardZero(At(value, scale), At(step, scale));
    TruncModIsSmaller(At(value, scale), At(step, scale));
    AtOwnScale(Rem(value, step));
    assert Difference(value, Rem(value, step)) == FloorAt(value, step);
    ZeroIsOnGrid(step);
    ZeroIsBelowFloor(value, step);
  }

  lemma ZeroingNegative(value: Decimal, step: Decimal)
    requires step.mantissa > 0 && !DownHasRoom(value, step) && Rem(value, step).mantissa < 0
    ensures !DownIsRight(Zeroing(), value, step)
  {
    var scale := Finer(value, step);
    var v, s, floor := At(value, scale), At(step, scale), FloorAt(value, step);
    AtSign(step, scale);
    TowardZero(v, s);
    TruncModIsSmaller(v, s);
    AtOwnScale(Rem(value, step));
    assert Difference(value, Rem(value, step)) == floor + s;
    if Fits(floor + s) {
      var towardZero: Decimal := Scaled(floor + s, scale);
      AtOwnScale(towardZero);
      assert Difference(towardZero, step) == floor;
      ZeroIsOnGrid(step);
      BelowZero(value, scale);
    } else {
      AtOwnScale(step);
      assert Difference(ZERO, step) == -step.mantissa;
      StepIsOnGrid(step);
      BelowMinusStep(value, step);
    }
  }

  lemma ZeroIsOnGrid(step: Decimal)
    requires step.mantissa > 0
    ensures OnGrid(ZERO, step) == Some(ZERO) && Units(ZERO) == 0
  {
    RemIsZero(ZERO, step);
  }

  lemma StepIsOnGrid(step: Decimal)
    requires step.mantissa > 0
    ensures OnGrid(Negated(step), step) == Some(Negated(step))
    ensures Units(Negated(step)) == -Units(step)
  {
    NegatedAt(step, MAX_SCALE);
    RemIsZero(Negated(step), step);
    MultipleDivides(-1, Units(step));
  }

  lemma BelowZero(value: Decimal, scale: nat)
    requires value.scale <= scale <= MAX_SCALE && At(value, scale) < 0
    ensures Units(value) < 0
  {
    UnitsOf(value, scale);
    MulMonotone(At(value, scale), -1, Pow10(MAX_SCALE - scale));
  }

  /** A positive floor is a multiple above zero. */
  lemma ZeroIsBelowFloor(value: Decimal, step: Decimal)
    requires step.mantissa > 0 && FloorAt(value, step) > 0
    ensures !IsGreatestBelow(ZERO, value, step)
  {
    var k := Pow10(MAX_SCALE - Finer(value, step));
    FloorUnits(value, step);
    FloorIsGreatest(Units(value), Units(step));
    SignOfProduct(FloorAt(value, step), k);
    ZeroIsOnGrid(step);
  }

  /** A value whose neighbour toward zero is a step or more below zero is below minus a step. */
  lemma BelowMinusStep(value: Decimal, step: Decimal)
    requires step.mantissa > 0
    requires Rem(value, step).mantissa < 0
    requires FloorAt(value, step) + At(step, Finer(value, step)) < 0
    ensures Units(value) < -Units(step)
  {
    var scale := Finer(value, step);
    AtSign(step, scale);
    BelowByQuotient(At(value, scale), At(step, scale));
    UnitsOf(value, scale);
    UnitsOf(step, scale);
    BelowScales(At(value, scale), At(step, scale), Pow10(MAX_SCALE - scale));
  }

  lemma BelowByQuotient(v: int, s: int)
    requires s > 0 && v / s * s + s < 0
    ensures v < -s
  {
    QuotientBounds(v, s);
    if v / s >= -1 {
      MulMonotone(-1, v / s, s);
      assert false;
    }
    MulMonotone(v / s, -2, s);
  }

  lemma BelowScales(v: int, s: int, k: int)
    requires k > 0 && v < -s
    ensures v * k < -(s * k)
  {
    MulMonotone(v + 1, -s, k);
    assert (v + 1) * k == v * k + k && -s * k == -(s * k);
  }

  /** So is the mirrored condition for rounding up. */
  lemma RoundUpNeedsRoom(value: Decimal, step: Decimal)
    requires step.mantissa > 0
    ensures (forall ar: Arith :: ar.Exact() ==> RoundUpTo(ar, value, Some(step)).Some?)
            <==> UpHasRoom(value, step)
    ensures (forall ar: Arith :: ar.Exact() ==> UpIsRight(ar, value, step))
            <==> UpHasRoom(value, step)
  {
    if UpHasRoom(value, step) {
      forall ar: Arith | ar.Exact()
        ensures RoundUpTo(ar, value, Some(step)).Some? && UpIsRight(ar, value, step)
      {
        RoundUpIsLeast(ar, value, step);
      }
    } else {
      NegatedRem(value, step);
      BothAreExact();
      CautiousHasNoAnswer(Negated(value), step);
      RoundUpOfMirrored(Cautious(), value, step);
      ZeroingIsWrong(Negated(value), step);
      RoundUpOfMirrored(Zeroing(), value, step);
      var down := RoundDownTo(Zeroing(), Negated(value), Some(step)).value;
      MirroredAnswer(down, value, step);
    }
  }

  /** Rounding up with an arithmetic's mirror image is rounding the negated value down with it. */
  lemma RoundUpOfMirrored(ar: Arith, value: Decimal, step: Decimal)
    requires ar.Exact() && step.mantissa > 0
    ensures Mirrored(ar).Exact()
    ensures RoundUpTo(Mirrored(ar), value, Some(step))
         == NegatedOption(RoundDownTo(ar, Negated(value), Some(step)))
  {
    MirroredIsExact(ar);
    RoundUpMirrorsRoundDown(Mirrored(ar), value, step);
    var remainder := Rem(Negated(value), step);
    if remainder.mantissa != 0 {
      MirroredTwice(ar, Negated(value), remainder);
      MirroredTwice(ar, ar.sub(Negated(value), remainder), step);
    }
  }

  lemma MirroredTwice(ar: Arith, a: Decimal, b: Decimal)
    ensures Mirrored(Mirrored(ar)).sub(a, b) == ar.sub(a, b)
    ensures Mirrored(Mirrored(ar)).checkedSub(a, b) == ar.checkedSub(a, b)
  {
    var x, y: Decimal := Negated(a), Negated(b);
    var m := Mirrored(ar);
    assert Negated(x) == a && Negated(y) == b;
    assert m.sub(x, y) == Negated(ar.sub(a, b));
    assert m.checkedAdd(x, b) == NegatedOption(ar.checkedSub(a, b));
    assert Mirrored(m).sub(a, b) == Negated(m.sub(x, y));
    assert Mirrored(m).checkedSub(a, b) == NegatedOption(m.checkedAdd(x, b));
  }

  /** A tenth of `n`, to the nearest whole number, ties to the even one. */
  function Tenth(n: int): int {
    var q, r := n / 10, n % 10;
    if r < 5 || (r == 5 && q % 2 == 0) then q else q + 1
  }

  /** A value at `scale`, or rounded to one place fewer where a mantissa cannot hold it. */
  function Nearest(n: int, scale: nat): Option<Decimal> {
    if Fits(n) && scale <= MAX_SCALE then Some(Scaled(n, scale))
    else if 0 < scale <= MAX_SCALE && Fits(Tenth(n)) then Some(Scaled(Tenth(n), scale - 1))
    else None
  }

  /** An arithmetic that rounds a sum or difference one digit too long to the nearest it can hold. */
  function Rounding(): Arith {
    Arith(
      (a: Decimal, b: Decimal) =>
        var d := Nearest(Difference(a, b), Finer(a, b)); if d.Some? then d.value else a,
      (a: Decimal, b: Decimal) => Nearest(Total(a, b), Finer(a, b)),
      (a: Decimal, b: Decimal) => Nearest(Difference(a, b), Finer(a, b)),
      (a: Decimal, b: Decimal) => a,
      (a: Decimal) => a)
  }

  /** A negative value near the end of the range, and a step it is not a multiple of. */
  const LARGE: Decimal := Scaled(-(MANTISSA_END - 2), 0)
  const SIX_TENTHS: Decimal := Scaled(6, 1)
  const LARGER: Decimal := Scaled(-(MANTISSA_END - 1), 0)

  lemma TenthsOfLarge()
    ensures At(LARGE, 1) == -10 * (MANTISSA_END - 2) && At(SIX_TENTHS, 1) == 6
    ensures At(LARGER, 1) == -10 * (MANTISSA_END - 1)
    ensures Rem(LARGE, SIX_TENTHS) == Scaled(-2, 1)
    ensures Rem(LARGER, SIX_TENTHS).mantissa == 0
  {
    assert Pow10(1) == 10 && Pow10(0) == 1;
  }

  /**
   Where two differences are rounded, the answer can be a lower multiple than the greatest: rounding
   `-(2^96 - 2)` down to a grid of 0.6 gives `-(2^96 - 1)`, one whole step below.
   */
  lemma RoundingCanSkipAStep()
    ensures Rounding().Exact()
    ensures RoundDownTo(Rounding(), LARGE, Some(SIX_TENTHS)) == Some(LARGER)
    ensures (Units(LARGER) + Units(SIX_TENTHS)) % Units(SIX_TENTHS) == 0
    ensures Units(LARGER) + Units(SIX_TENTHS) <= Units(LARGE)
  {
    RoundingIsExact();
    LargerIsAStepLower();
    LargeRoundsToLarger();
  }

  lemma RoundingIsExact()
    ensures Rounding().Exact()
  {
  }

  lemma LargeRoundsToLarger()
    ensures RoundDownTo(Rounding(), LARGE, Some(SIX_TENTHS)) == Some(LARGER)
  {
    TenthsOfLarge();
    var remainder := Rem(LARGE, SIX_TENTHS);
    AtOwnScale(remainder);
    assert Difference(LARGE, remainder) == -10 * (MANTISSA_END - 2) + 2;
    assert Nearest(-10 * (MANTISSA_END - 2) + 2, 1) == Some(LARGE);
    assert Difference(LARGE, SIX_TENTHS) == -10 * (MANTISSA_END - 2) - 6;
    assert Nearest(-10 * (MANTISSA_END - 2) - 6, 1) == Some(LARGER);
  }

  lemma LargerIsAStepLower()
    ensures Units(SIX_TENTHS) > 0
    ensures (Units(LARGER) + Units(SIX_TENTHS)) % Units(SIX_TENTHS) == 0
    ensures Units(LARGER) + Units(SIX_TENTHS) <= Units(LARGE)
  {
    TenthsOfLarge();
    UnitsOf(LARGE, 1);
    UnitsOf(LARGER, 1);
    UnitsOf(SIX_TENTHS, 1);
    RemIsZero(LARGER, SIX_TENTHS);
    MultipleAndOneMore(Units(LARGER), Units(SIX_TENTHS));
    ScaledStep(At(LARGER, 1), At(SIX_TENTHS, 1), At(LARGE, 1), Pow10(27));
  }

  lemma ScaledStep(low: int, step: int, high: int, k: int)
    requires low + step <= high && k >= 0
    ensures low * k + step * k <= high * k
  {
    MulMonotone(low + step, high, k);
    assert (low + step) * k == low * k + step * k;
  }

  lemma MultipleAndOneMore(n: int, d: int)
    requires d > 0 && n % d == 0
    ensures (n + d) % d == 0
  {
    QuotientBounds(n, d);
    assert n + d == (n / d + 1) * d;
    MultipleDivides(n / d + 1, d);
  }
}
