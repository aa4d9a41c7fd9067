/** Rounding a decimal to a grid of whole multiples of a step. */
module GridRounding {
  import opened Decimals
  import opened IntArith
  import opened Wrappers

  // ------------------------------------------------------------------------------ rounding

  /** `value` if it is a multiple of `step`: a rounded difference can have left the grid. */
  function OnGrid(value: Decimal, step: Decimal): Option<Decimal>
    requires step.mantissa > 0
  {
    if Rem(value, step).mantissa == 0 then Some(value) else None
  }

  function RoundDownTo(ar: Arith, value: Decimal, step: Option<Decimal>): Option<Decimal>
    requires step.Some? ==> step.value.mantissa > 0
  {
    if step.None? then Some(value)
    else
      var remainder := Rem(value, step.value);
      if remainder.mantissa == 0 then Some(value)
      else
        var towardZero := ar.sub(value, remainder);
        if remainder.mantissa < 0
        then ar.checkedSub(towardZero, step.value).AndThen((d: Decimal) => OnGrid(d, step.value))
        else OnGrid(towardZero, step.value)
  }

  function RoundUpTo(ar: Arith, value: Decimal, step: Option<Decimal>): Option<Decimal>
    requires step.Some? ==> step.value.mantissa > 0
  {
    if step.None? then Some(value)
    else
      var remainder := Rem(value, step.value);
      if remainder.mantissa == 0 then Some(value)
      else
        var towardZero := ar.sub(value, remainder);
        if remainder.mantissa < 0
        then OnGrid(towardZero, step.value)
        else ar.checkedAdd(towardZero, step.value).AndThen((d: Decimal) => OnGrid(d, step.value))
  }

  /** The greatest multiple of `step` at or below `value`, in units of the finer of their scales. */
  function FloorAt(value: Decimal, step: Decimal): int
    requires step.mantissa > 0
  {
    var scale := Finer(value, step);
    AtSign(step, scale);
    At(value, scale) / At(step, scale) * At(step, scale)
  }

  function Negated(d: Decimal): Decimal {
    Scaled(-d.mantissa, d.scale)
  }

  /** The least multiple of `step` at or above `value`, in units of the finer of their scales. */
  function CeilingAt(value: Decimal, step: Decimal): int
    requires step.mantissa > 0
  {
    -FloorAt(Negated(value), step)
  }

  ghost predicate IsGreatestBelow(r: Decimal, value: Decimal, step: Decimal) {
    && Units(step) > 0
    && Units(r) % Units(step) == 0
    && Units(r) <= Units(value)
    && forall u :: u % Units(step) == 0 && u <= Units(value) ==> u <= Units(r)
  }

  ghost predicate IsLeastAbove(r: Decimal, value: Decimal, step: Decimal) {
    && Units(step) > 0
    && Units(r) % Units(step) == 0
    && Units(r) >= Units(value)
    && forall u :: u % Units(step) == 0 && u >= Units(value) ==> u >= Units(r)
  }

  /** The quotient's multiple is the greatest at or below, and the least above is one step on. */
  lemma FloorIsGreatest(n: int, d: int)
    requires d > 0
    ensures n / d * d <= n && n / d * d % d == 0
    ensures forall u :: u % d == 0 && u <= n ==> u <= n / d * d
    ensures n % d != 0 ==> forall u :: u % d == 0 && u >= n ==> u >= n / d * d + d
  {
    QuotientBounds(n, d);
    MultipleDivides(n / d, d);
    forall u | u % d == 0 && u <= n
      ensures u <= n / d * d
    {
      QuotientBounds(u, d);
      QuotientMonotone(u, n, d);
      MulMonotone(u / d, n / d, d);
    }
    if n % d != 0 {
      forall u | u % d == 0 && u >= n
        ensures u >= n / d * d + d
      {
        QuotientBounds(u, d);
        QuotientMonotone(n, u, d);
        if u / d > n / d {
          MulGap(u / d, n / d, d);
        }
      }
    }
  }

  /** Scaling both sides of a quotient by the same unit leaves its multiple scaled. */
  lemma FloorScales(n: int, d: int, k: int)
    requires d > 0 && k > 0
    ensures d * k > 0 && n * k / (d * k) * (d * k) == n / d * d * k
  {
    ModScales(n, d, k);
    QuotientBounds(n * k, d * k);
    QuotientBounds(n, d);
    assert n * k == (n / d * d + n % d) * k == n / d * d * k + n % d * k;
  }

  lemma FloorUnits(value: Decimal, step: Decimal)
    requires step.mantissa > 0
    ensures Units(step) > 0
    ensures FloorAt(value, step) * Pow10(MAX_SCALE - Finer(value, step))
         == Units(value) / Units(step) * Units(step)
  {
    var scale := Finer(value, step);
    AtSign(step, scale);
    UnitsOf(value, scale);
    UnitsOf(step, scale);
    FloorScales(At(value, scale), At(step, scale), Pow10(MAX_SCALE - scale));
  }

  /** A decimal that holds the floor is the greatest multiple at or below. */
  lemma FloorIsAnswer(value: Decimal, step: Decimal, r: Decimal)
    requires step.mantissa > 0
    requires IsAt(r, FloorAt(value, step), Finer(value, step))
    ensures IsGreatestBelow(r, value, step)
  {
    UnitsOf(r, Finer(value, step));
    FloorUnits(value, step);
    FloorIsGreatest(Units(value), Units(step));
  }

  /** The truncated remainder takes a positive value to its floor, a negative one a step above it. */
  lemma TowardZero(n: int, d: int)
    requires d > 0
    ensures TruncMod(n, d) >= 0 ==> n - TruncMod(n, d) == n / d * d
    ensures TruncMod(n, d) < 0 ==> n - TruncMod(n, d) == n / d * d + d
  {
    QuotientBounds(n, d);
    if n < 0 {
      QuotientBounds(-n, d);
      if TruncMod(n, d) == 0 {
        NegatedMod(n, d);
      } else {
        var q := -(-n / d) - 1;
        assert q * d == -(-n / d * d) - d;
        QuotientIs(n, d, q);
      }
    }
  }

  /**
   Rounding never yields a value off the grid, and leaves one on it alone, however the differences
   were rounded.
   */
  lemma RoundingStaysOnGrid(ar: Arith, value: Decimal, step: Decimal)
    requires step.mantissa > 0
    ensures Units(step) > 0
    ensures var down := RoundDownTo(ar, value, Some(step));
            down.Some? ==> Units(down.value) % Units(step) == 0
    ensures var down := RoundDownTo(ar, value, Some(step));
            down.Some? ==> RoundDownTo(ar, down.value, Some(step)) == down
    ensures var up := RoundUpTo(ar, value, Some(step));
            up.Some? ==> Units(up.value) % Units(step) == 0
    ensures var up := RoundUpTo(ar, value, Some(step));
            up.Some? ==> RoundUpTo(ar, up.value, Some(step)) == up
  {
    RemIsZero(value, step);
    var down, up := RoundDownTo(ar, value, Some(step)), RoundUpTo(ar, value, Some(step));
    if down.Some? {
      RemIsZero(down.value, step);
    }
    if up.Some? {
      RemIsZero(up.value, step);
    }
  }

  /**
   Rounding down gives the greatest multiple at or below the value, either sign, wherever a mantissa
   holds that multiple at the finer of the two scales.
   */
  lemma RoundDownIsGreatest(ar: Arith, value: Decimal, step: Decimal)
    requires ar.Exact() && step.mantissa > 0 && DownHasRoom(value, step)
    ensures RoundDownTo(ar, value, Some(step)).Some?
    ensures IsGreatestBelow(RoundDownTo(ar, value, Some(step)).value, value, step)
  {
    RemIsZero(value, step);
    if Rem(value, step).mantissa == 0 {
      FloorIsGreatest(Units(value), Units(step));
    } else {
      var r := FloorIsReached(ar, value, step);
      FloorIsAnswer(value, step, r);
      RemIsZero(r, step);
    }
  }

  /** A value on the grid, or whose greatest multiple below a mantissa holds at the finer scale. */
  predicate DownHasRoom(value: Decimal, step: Decimal)
    requires step.mantissa > 0
  {
    Rem(value, step).mantissa == 0 || Fits(FloorAt(value, step))
  }

  predicate UpHasRoom(value: Decimal, step: Decimal)
    requires step.mantissa > 0
  {
    Rem(value, step).mantissa == 0 || Fits(CeilingAt(value, step))
  }

  /** The differences the program takes, where they are exact, come to the floor. */
  lemma FloorIsReached(ar: Arith, value: Decimal, step: Decimal) returns (r: Decimal)
    requires ar.Exact() && step.mantissa > 0
    requires Rem(value, step).mantissa != 0 && Fits(FloorAt(value, step))
    ensures IsAt(r, FloorAt(value, step), Finer(value, step))
    ensures RoundDownTo(ar, value, Some(step)) == OnGrid(r, step)
  {
    var scale := Finer(value, step);
    var remainder := Rem(value, step);
    var v, s := At(value, scale), At(step, scale);
    AtSign(step, scale);
    TowardZero(v, s);
    TruncModIsSmaller(v, s);
    AtOwnScale(remainder);
    ExactDifference(ar, value, remainder, scale);
    r := ar.sub(value, remainder);
    if remainder.mantissa < 0 {
      ExactDifference(ar, r, step, scale);
      r := ar.checkedSub(r, step).value;
    }
  }

  /** The same arithmetic seen from the other side of zero. */
  function Mirrored(ar: Arith): Arith {
    ar.(
      sub := (a: Decimal, b: Decimal) => Negated(ar.sub(Negated(a), Negated(b))),
      checkedSub := (a: Decimal, b: Decimal) => NegatedOption(ar.checkedAdd(Negated(a), b)),
      checkedAdd := (a: Decimal, b: Decimal) => NegatedOption(ar.checkedSub(Negated(a), b)))
  }

  function NegatedOption(d: Option<Decimal>): Option<Decimal> {
    if d.None? then None else Some(Negated(d.value))
  }

  lemma NegatedAt(d: Decimal, scale: nat)
    requires d.scale <= scale
    ensures At(Negated(d), scale) == -At(d, scale)
  {
    assert -d.mantissa * Pow10(scale - d.scale) == -(d.mantissa * Pow10(scale - d.scale));
  }

  lemma MirroredIsExact(ar: Arith)
    requires ar.Exact()
    ensures Mirrored(ar).Exact()
  {
    var m := Mirrored(ar);
    forall a: Decimal, b: Decimal
      ensures Fits(Difference(a, b)) ==> IsAt(m.sub(a, b), Difference(a, b), Finer(a, b))
      ensures Fits(Difference(a, b)) ==>
                && m.checkedSub(a, b).Some?
                && IsAt(m.checkedSub(a, b).value, Difference(a, b), Finer(a, b))
      ensures Fits(Total(a, b)) ==>
                && m.checkedAdd(a, b).Some?
                && IsAt(m.checkedAdd(a, b).value, Total(a, b), Finer(a, b))
    {
      MirroredAt(ar, a, b);
    }
  }

  lemma MirroredAt(ar: Arith, a: Decimal, b: Decimal)
    requires ar.Exact()
    ensures var m := Mirrored(ar);
            && (Fits(Difference(a, b)) ==> IsAt(m.sub(a, b), Difference(a, b), Finer(a, b)))
            && (Fits(Difference(a, b)) ==>
                  && m.checkedSub(a, b).Some?
                  && IsAt(m.checkedSub(a, b).value, Difference(a, b), Finer(a, b)))
            && (Fits(Total(a, b)) ==>
                  && m.checkedAdd(a, b).Some?
                  && IsAt(m.checkedAdd(a, b).value, Total(a, b), Finer(a, b)))
  {
    var x, y: Decimal := Negated(a), Negated(b);
    var scale := Finer(a, b);
    NegatedAt(a, scale);
    NegatedAt(b, scale);
    assert Difference(x, y) == -Difference(a, b) == Total(x, b);
    assert Difference(x, b) == -Total(a, b);
    if Fits(Difference(a, b)) {
      NegatedAt(ar.sub(x, y), scale);
      NegatedAt(ar.checkedAdd(x, b).value, scale);
    }
    if Fits(Total(a, b)) {
      NegatedAt(ar.checkedSub(x, b).value, scale);
    }
  }

  /** Rounding up is rounding the negated value down. */
  lemma RoundUpMirrorsRoundDown(ar: Arith, value: Decimal, step: Decimal)
    requires step.mantissa > 0
    ensures RoundUpTo(ar, value, Some(step))
         == NegatedOption(RoundDownTo(Mirrored(ar), Negated(value), Some(step)))
  {
    NegatedRem(value, step);
    var remainder := Rem(value, step);
    assert Negated(Negated(value)) == value && Negated(Negated(remainder)) == remainder;
    var towardZero := ar.sub(value, remainder);
    if remainder.mantissa != 0 {
      assert Mirrored(ar).sub(Negated(value), Negated(remainder)) == Negated(towardZero);
      assert Negated(Negated(towardZero)) == towardZero;
      NegatedRem(towardZero, step);
      var up := ar.checkedAdd(towardZero, step);
      assert Mirrored(ar).checkedSub(Negated(towardZero), step) == NegatedOption(up);
      if up.Some? {
        NegatedRem(up.value, step);
        assert Negated(Negated(up.value)) == up.value;
      }
    }
  }

  lemma NegatedRem(value: Decimal, step: Decimal)
    requires step.mantissa > 0
    ensures Rem(Negated(value), step) == Negated(Rem(value, step))
  {
    var scale := Finer(value, step);
    AtSign(step, scale);
    NegatedAt(value, scale);
    NegatedTruncMod(At(value, scale), At(step, scale));
  }

  lemma NegatedTruncMod(n: int, d: int)
    requires d > 0
    ensures TruncMod(-n, d) == -TruncMod(n, d)
  {
  }

  /** Rounding up gives the least multiple at or above the value, under the mirrored condition. */
  lemma RoundUpIsLeast(ar: Arith, value: Decimal, step: Decimal)
    requires ar.Exact() && step.mantissa > 0 && UpHasRoom(value, step)
    ensures RoundUpTo(ar, value, Some(step)).Some?
    ensures IsLeastAbove(RoundUpTo(ar, value, Some(step)).value, value, step)
  {
    MirroredIsExact(ar);
    RoundUpMirrorsRoundDown(ar, value, step);
    NegatedRem(value, step);
    RoundDownIsGreatest(Mirrored(ar), Negated(value), step);
    MirroredAnswer(RoundDownTo(Mirrored(ar), Negated(value), Some(step)).value, value, step);
  }

  lemma MirroredAnswer(down: Decimal, value: Decimal, step: Decimal)
    ensures IsGreatestBelow(down, Negated(value), step) <==> IsLeastAbove(Negated(down), value, step)
  {
    NegatedAt(down, MAX_SCALE);
    NegatedAt(value, MAX_SCALE);
    if Units(step) > 0 {
      NegatedBound(Units(down), Units(Negated(value)), Units(step));
    }
  }

  lemma NegatedBound(n: int, v: int, s: int)
    requires s > 0
    ensures n % s == 0 <==> -n % s == 0
    ensures (forall u :: u % s == 0 && u <= v ==> u <= n)
            <==> forall u :: u % s == 0 && u >= -v ==> u >= -n
  {
    NegatedMod(n, s);
    if forall u :: u % s == 0 && u <= v ==> u <= n {
      forall u | u % s == 0 && u >= -v
        ensures u >= -n
      {
        NegatedMod(u, s);
        assert -u % s == 0 && -u <= v;
      }
    }
    if forall u :: u % s == 0 && u >= -v ==> u >= -n {
      forall u | u % s == 0 && u <= v
        ensures u <= n
      {
        NegatedMod(u, s);
        assert -u % s == 0 && -u >= -v;
      }
    }
  }
}
