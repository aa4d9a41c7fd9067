/**
 Fixed-point decimals: a 96-bit mantissa and a scale of at most 28 places. A value is compared and
 divided as a whole number of the finest unit, `10^-28`.
 */
module Decimals {
  import opened IntArith
  import opened Wrappers

  const MAX_SCALE: nat := 28
  const MANTISSA_END: int := 0x1_0000_0000_0000_0000_0000_0000
  const I128_MAX: int := 0x7FFF_FFFF_FFFF_FFFF_FFFF_FFFF_FFFF_FFFF

  datatype Scaled = Scaled(mantissa: int, scale: nat)

  /** A whole number a mantissa can hold. */
  predicate Fits(n: int) {
    -MANTISSA_END < n < MANTISSA_END
  }

  type Decimal = d: Scaled | Fits(d.mantissa) && d.scale <= MAX_SCALE witness Scaled(0, 0)

  function Pow10(n: nat): (r: nat)
    ensures r >= 1
  {
    if n == 0 then 1 else 10 * Pow10(n - 1)
  }

  lemma {:induction false} PowAdds(m: nat, n: nat)
    ensures Pow10(m + n) == Pow10(m) * Pow10(n)
  {
    if m > 0 {
      PowAdds(m - 1, n);
    }
  }

  /** The value in units of `10^-28`. */
  function Units(d: Scaled): int
    requires d.scale <= MAX_SCALE
  {
    d.mantissa * Pow10(MAX_SCALE - d.scale)
  }

  /** The value in units of `10^-scale`, no coarser than its own. */
  function At(d: Scaled, scale: nat): int
    requires d.scale <= scale
  {
    d.mantissa * Pow10(scale - d.scale)
  }

  function Finer(a: Scaled, b: Scaled): nat {
    if a.scale >= b.scale then a.scale else b.scale
  }

  lemma AtFiner(d: Scaled, scale: nat, finer: nat)
    requires d.scale <= scale <= finer
    ensures At(d, finer) == At(d, scale) * Pow10(finer - scale)
  {
    PowAdds(scale - d.scale, finer - scale);
    MulAssociates(d.mantissa, Pow10(scale - d.scale), Pow10(finer - scale));
  }

  lemma UnitsOf(d: Scaled, scale: nat)
    requires d.scale <= scale <= MAX_SCALE
    ensures Units(d) == At(d, scale) * Pow10(MAX_SCALE - scale)
  {
    AtFiner(d, scale, MAX_SCALE);
  }

  lemma AtSign(d: Scaled, scale: nat)
    requires d.scale <= scale <= MAX_SCALE
    ensures At(d, scale) > 0 <==> d.mantissa > 0
    ensures Units(d) > 0 <==> d.mantissa > 0
  {
    SignOfProduct(d.mantissa, Pow10(scale - d.scale));
    SignOfProduct(d.mantissa, Pow10(MAX_SCALE - d.scale));
  }

  /** Mantissas are the whole numbers of 96 bits and a sign, and one at 28 places is the finest unit. */
  lemma MantissasAreNinetySixBits(n: int)
    ensures Fits(n) <==> -79_228_162_514_264_337_593_543_950_335 <= n <= 79_228_162_514_264_337_593_543_950_335
    ensures MAX_SCALE == 28 && Units(Scaled(n, 28)) == n
  {
  }

  // ------------------------------------------------------------------------------ remainder

  /** The remainder a truncating division leaves: of the dividend's sign. */
  function TruncMod(n: int, d: int): int
    requires d > 0
  {
    if n >= 0 then n % d else -(-n % d)
  }

  /** `value % step`, exact at the finer of the two scales. */
  function Rem(value: Decimal, step: Decimal): Decimal
    requires step.mantissa > 0
  {
    var scale := Finer(value, step);
    AtSign(step, scale);
    RemFits(value, step);
    Scaled(TruncMod(At(value, scale), At(step, scale)), scale)
  }

  lemma RemFits(value: Decimal, step: Decimal)
    requires step.mantissa > 0
    ensures var scale := Finer(value, step);
            At(step, scale) > 0 && Fits(TruncMod(At(value, scale), At(step, scale)))
  {
    var scale := Finer(value, step);
    AtSign(step, scale);
    var v, s := At(value, scale), At(step, scale);
    if value.scale == scale {
      TruncModIsSmaller(v, s);
    }
  }

  lemma TruncModIsSmaller(n: int, d: int)
    requires d > 0
    ensures -d < TruncMod(n, d) < d
    ensures n >= 0 ==> 0 <= TruncMod(n, d) <= n
    ensures n < 0 ==> n <= TruncMod(n, d) <= 0
  {
    ModAtMost(if n >= 0 then n else -n, d);
  }

  /** A value is a whole multiple of a step exactly when the remainder is zero. */
  lemma RemIsZero(value: Decimal, step: Decimal)
    requires step.mantissa > 0
    ensures Units(step) > 0
    ensures Rem(value, step).mantissa == 0 <==> Units(value) % Units(step) == 0
  {
    var scale := Finer(value, step);
    var k := Pow10(MAX_SCALE - scale);
    AtSign(step, scale);
    UnitsOf(value, scale);
    UnitsOf(step, scale);
    ModScales(At(value, scale), At(step, scale), k);
    TruncModIsZero(At(value, scale), At(step, scale));
  }

  lemma TruncModIsZero(n: int, d: int)
    requires d > 0
    ensures TruncMod(n, d) == 0 <==> n % d == 0
  {
    if n < 0 {
      NegatedMod(n, d);
    }
  }

  // ------------------------------------------------------------------------------ arithmetic

  /**
   Addition, subtraction, multiplication and division by 100, whose results are rounded when a
   mantissa cannot hold them. How they round is left open.
   */
  datatype Arith = Arith(
    sub: (Decimal, Decimal) -> Decimal,
    checkedAdd: (Decimal, Decimal) -> Option<Decimal>,
    checkedSub: (Decimal, Decimal) -> Option<Decimal>,
    saturatingMul: (Decimal, Decimal) -> Decimal,
    percent: Decimal -> Decimal)
  {
    /** Sums and differences are exact wherever a mantissa holds them at the finer scale. */
    ghost predicate Exact() {
      && (forall a: Decimal, b: Decimal :: Fits(Difference(a, b)) ==>
            IsAt(sub(a, b), Difference(a, b), Finer(a, b)))
      && (forall a: Decimal, b: Decimal :: Fits(Difference(a, b)) ==>
            && checkedSub(a, b).Some?
            && IsAt(checkedSub(a, b).value, Difference(a, b), Finer(a, b)))
      && (forall a: Decimal, b: Decimal :: Fits(Total(a, b)) ==>
            && checkedAdd(a, b).Some?
            && IsAt(checkedAdd(a, b).value, Total(a, b), Finer(a, b)))
    }
  }

  /** `r` is `n` units of `10^-scale`, kept at that scale or a coarser one. */
  predicate IsAt(r: Scaled, n: int, scale: nat) {
    r.scale <= scale && At(r, scale) == n
  }

  function Difference(a: Scaled, b: Scaled): int {
    At(a, Finer(a, b)) - At(b, Finer(a, b))
  }

  function Total(a: Scaled, b: Scaled): int {
    At(a, Finer(a, b)) + At(b, Finer(a, b))
  }

  /** A value is itself at its own scale. */
  lemma AtOwnScale(d: Scaled)
    ensures At(d, d.scale) == d.mantissa && IsAt(d, d.mantissa, d.scale)
  {
  }

  /** An exact difference is one at any scale as fine as both values, where a mantissa holds it. */
  lemma ExactDifference(ar: Arith, a: Decimal, b: Decimal, scale: nat)
    requires ar.Exact() && Finer(a, b) <= scale
    requires Fits(At(a, scale) - At(b, scale))
    ensures IsAt(ar.sub(a, b), At(a, scale) - At(b, scale), scale)
    ensures ar.checkedSub(a, b).Some?
    ensures IsAt(ar.checkedSub(a, b).value, At(a, scale) - At(b, scale), scale)
  {
    var own := Finer(a, b);
    DifferenceScales(a, b, scale);
    NoLargerThanScaled(Difference(a, b), Pow10(scale - own));
    IsAtFiner(ar.sub(a, b), Difference(a, b), own, scale);
    IsAtFiner(ar.checkedSub(a, b).value, Difference(a, b), own, scale);
  }

  lemma DifferenceScales(a: Decimal, b: Decimal, scale: nat)
    requires Finer(a, b) <= scale
    ensures Difference(a, b) * Pow10(scale - Finer(a, b)) == At(a, scale) - At(b, scale)
  {
    var own := Finer(a, b);
    AtFiner(a, own, scale);
    AtFiner(b, own, scale);
    DifferenceTimes(At(a, own), At(b, own), Pow10(scale - own));
  }

  lemma IsAtFiner(r: Scaled, n: int, scale: nat, finer: nat)
    requires IsAt(r, n, scale) && scale <= finer
    ensures IsAt(r, n * Pow10(finer - scale), finer)
  {
    AtFiner(r, scale, finer);
  }

  lemma NoLargerThanScaled(n: int, k: int)
    requires k >= 1 && Fits(n * k)
    ensures Fits(n)
  {
    if n > 0 {
      MulMonotone(1, k, n);
    } else {
      MulMonotone(1, k, -n);
      assert k * -n == -(n * k);
    }
  }
}
