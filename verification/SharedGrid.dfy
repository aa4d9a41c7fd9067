/** The grid that two steps share. */
module SharedGrid {
  import opened Decimals
  import opened IntArith
  import opened Wrappers

  function Gcd(x: nat, y: nat): nat
    decreases y
  {
    if y == 0 then x else Gcd(y, x % y)
  }

  /** The least common multiple, as the program computes it. */
  function Lcm(a: int, b: int): int
    requires a > 0 && b > 0
  {
    GcdIsPositive(a, b);
    a / Gcd(a, b) * b
  }

  lemma {:induction false} GcdIsPositive(x: nat, y: nat)
    requires x > 0 || y > 0
    ensures Gcd(x, y) > 0
    decreases y
  {
    if y > 0 {
      GcdIsPositive(y, x % y);
    }
  }

  /** The divisor divides both numbers, and is a whole combination of them. */
  lemma {:induction false} GcdCombines(x: nat, y: nat) returns (i: int, j: int, p: int, q: int)
    requires x > 0 || y > 0
    ensures x == i * Gcd(x, y) && y == j * Gcd(x, y)
    ensures p * x + q * y == Gcd(x, y)
    decreases y
  {
    if y == 0 {
      i, j, p, q := 1, 0, 1, 0;
    } else {
      var i', j', p', q' := GcdCombines(y, x % y);
      var d, k := Gcd(x, y), x / y;
      QuotientBounds(x, y);
      i, j, p, q := k * i' + j', i', q', p' - q' * k;
      CombinesFactors(k, i', j', d);
      CombinesMultiples(p', q', x, y, k);
      assert x == k * y + x % y;
    }
  }

  lemma CombinesFactors(k: int, i: int, j: int, d: int)
    ensures k * (i * d) + j * d == (k * i + j) * d
  {
    MulAssociates(k, i, d);
  }

  lemma CombinesMultiples(p: int, q: int, x: int, y: int, k: int)
    ensures p * y + q * (x - k * y) == q * x + (p - q * k) * y
  {
    MulAssociates(q, k, y);
  }

  /** The multiples of the least common multiple are exactly the common multiples. */
  lemma LcmIsCommon(a: int, b: int, u: int)
    requires a > 0 && b > 0
    ensures Lcm(a, b) > 0
    ensures u % Lcm(a, b) == 0 <==> u % a == 0 && u % b == 0
  {
    var i, j, p, q := GcdCombines(a, b);
    GcdIsPositive(a, b);
    var d, l := Gcd(a, b), Lcm(a, b);
    MultipleDivides(i, d);
    assert a / d == i && l == i * b;
    assert i > 0 && j > 0 by {
      SignOfProduct(i, d);
      SignOfProduct(j, d);
    }
    SignOfProduct(i, b);
    assert l == j * a by {
      MulAssociates(i, j, d);
      MulAssociates(j, i, d);
    }
    if u % l == 0 {
      QuotientBounds(u, l);
      MulAssociates(u / l, j, a);
      MulAssociates(u / l, i, b);
      MultipleDivides(u / l * j, a);
      MultipleDivides(u / l * i, b);
    }
    if u % a == 0 && u % b == 0 {
      QuotientBounds(u, a);
      QuotientBounds(u, b);
      CommonIsMultiple(u / a, u / b, i, j, d, p, q);
      MultipleDivides(p * (u / b) + q * (u / a), l);
    }
  }

  /** `k` times `i * d` and `h` times `j * d` are the same whole multiple of `i * j * d`. */
  lemma CommonIsMultiple(k: int, h: int, i: int, j: int, d: int, p: int, q: int)
    requires d > 0 && k * (i * d) == h * (j * d)
    requires p * (i * d) + q * (j * d) == d
    ensures k * (i * d) == (p * h + q * k) * (i * (j * d))
  {
    var u, a, b := k * (i * d), i * d, j * d;
    assert p * i + q * j == 1 by {
      MulAssociates(p, i, d);
      MulAssociates(q, j, d);
      assert (p * i + q * j) * d == p * i * d + q * j * d;
      Cancels(p * i + q * j, d);
    }
    assert u == (p * i + q * j) * u == p * i * u + q * j * u;
    assert p * i * u == p * h * (i * b) by {
      Reorder(p, i, h, b);
    }
    assert q * j * u == q * k * (i * b) by {
      ReorderTwo(q, j, k, i, d);
    }
    assert (p * h + q * k) * (i * b) == p * h * (i * b) + q * k * (i * b);
  }

  lemma Cancels(n: int, d: int)
    requires d > 0 && n * d == d
    ensures n == 1
  {
    QuotientIs(d, d, 1);
    MultipleDivides(n, d);
  }

  lemma Reorder(p: int, i: int, h: int, b: int)
    ensures p * i * (h * b) == p * h * (i * b)
  {
  }

  lemma ReorderTwo(q: int, j: int, k: int, i: int, d: int)
    ensures q * j * (k * (i * d)) == q * k * (i * (j * d))
  {
  }

  /** Trailing zeros dropped. */
  function Normalize(d: Decimal): (r: Decimal)
    decreases d.scale
  {
    if d.scale > 0 && d.mantissa % 10 == 0 then Normalize(Scaled(d.mantissa / 10, d.scale - 1)) else d
  }

  lemma {:induction false} NormalizeKeepsUnits(d: Decimal)
    ensures Units(Normalize(d)) == Units(d)
    ensures Normalize(d).mantissa > 0 <==> d.mantissa > 0
    decreases d.scale
  {
    if d.scale > 0 && d.mantissa % 10 == 0 {
      var m, k := d.mantissa / 10, Pow10(MAX_SCALE - d.scale);
      NormalizeKeepsUnits(Scaled(m, d.scale - 1));
      assert Pow10(MAX_SCALE - (d.scale - 1)) == 10 * k;
      MulAssociates(m, 10, k);
    }
  }

  /** No trailing zero is left after the point. */
  lemma {:induction false} NormalizeIsShortest(d: Decimal)
    ensures Normalize(d).scale == 0 || Normalize(d).mantissa % 10 != 0
    decreases d.scale
  {
    if d.scale > 0 && d.mantissa % 10 == 0 {
      NormalizeIsShortest(Scaled(d.mantissa / 10, d.scale - 1));
    }
  }

  /** The step of the grid two steps share, where a mantissa holds it at the finer scale. */
  function CommonStep(a: Decimal, b: Decimal): Option<Decimal>
    requires a.mantissa > 0 && b.mantissa > 0
  {
    var scale := Finer(a, b);
    AtSign(a, scale);
    AtSign(b, scale);
    LcmIsCommon(At(a, scale), At(b, scale), 0);
    var lcm := Lcm(At(a, scale), At(b, scale));
    if lcm < MANTISSA_END then Some(Normalize(Scaled(lcm, scale))) else None
  }

  /**
   There is an answer exactly when a mantissa holds the least common multiple at the finer scale, and
   its multiples are exactly the values on both grids.
   */
  lemma CommonStepIsTheSharedGrid(a: Decimal, b: Decimal)
    requires a.mantissa > 0 && b.mantissa > 0
    ensures At(a, Finer(a, b)) > 0 && At(b, Finer(a, b)) > 0
    ensures CommonStep(a, b).Some?
            <==> Lcm(At(a, Finer(a, b)), At(b, Finer(a, b))) < MANTISSA_END
    ensures Units(a) > 0 && Units(b) > 0
    ensures CommonStep(a, b).Some? ==>
              var s := CommonStep(a, b).value;
              && s.mantissa > 0 && Units(s) > 0
              && (s.scale == 0 || s.mantissa % 10 != 0)
              && forall u :: u % Units(s) == 0 <==> u % Units(a) == 0 && u % Units(b) == 0
  {
    var scale := Finer(a, b);
    var k := Pow10(MAX_SCALE - scale);
    var x, y := At(a, scale), At(b, scale);
    AtSign(a, scale);
    AtSign(b, scale);
    UnitsOf(a, scale);
    UnitsOf(b, scale);
    if CommonStep(a, b).Some? {
      LcmIsCommon(x, y, 0);
      var lcm: Decimal := Scaled(Lcm(x, y), scale);
      NormalizeKeepsUnits(lcm);
      NormalizeIsShortest(lcm);
      AtSign(CommonStep(a, b).value, MAX_SCALE);
      LcmScales(x, y, k);
      forall u
        ensures u % Units(lcm) == 0 <==> u % Units(a) == 0 && u % Units(b) == 0
      {
        LcmIsCommon(x * k, y * k, u);
      }
    }
  }

  lemma {:induction false} GcdScales(x: nat, y: nat, k: nat)
    requires k > 0
    ensures Gcd(x * k, y * k) == Gcd(x, y) * k
    decreases y
  {
    if y > 0 {
      SignOfProduct(y, k);
      ModScales(x, y, k);
      GcdScales(y, x % y, k);
    }
  }

  lemma LcmScales(a: int, b: int, k: int)
    requires a > 0 && b > 0 && k > 0
    ensures a * k > 0 && b * k > 0
    ensures Lcm(a * k, b * k) == Lcm(a, b) * k
  {
    SignOfProduct(a, k);
    SignOfProduct(b, k);
    GcdScales(a, b, k);
    var i, j, p, q := GcdCombines(a, b);
    GcdIsPositive(a, b);
    var d := Gcd(a, b);
    SignOfProduct(d, k);
    MulAssociates(i, d, k);
    MultipleDivides(i, d);
    MultipleDivides(i, d * k);
    MulAssociates(i, b, k);
  }

  /** The program's loop, with its 128-bit steps: none of them fails where the result would fit. */
  method FindCommonStep(a: Decimal, b: Decimal) returns (r: Option<Decimal>)
    requires a.mantissa > 0 && b.mantissa > 0
    ensures r == CommonStep(a, b)
  {
    var scale := Finer(a, b);
    AtSign(a, scale);
    AtSign(b, scale);
    var wholeA, wholeB := At(a, scale), At(b, scale);
    LcmIsAtLeast(wholeA, wholeB);
    if wholeA > I128_MAX || wholeB > I128_MAX {
      return None;
    }
    var x, y := wholeA, wholeB;
    while y != 0
      invariant x > 0 && y >= 0
      invariant Gcd(x, y) == Gcd(wholeA, wholeB)
      decreases y
    {
      x, y := y, x % y;
    }
    var lcm := wholeA / x * wholeB;
    if lcm > I128_MAX || !Fits(lcm) {
      return None;
    }
    r := Some(Normalize(Scaled(lcm, scale)));
  }

  lemma LcmIsAtLeast(a: int, b: int)
    requires a > 0 && b > 0
    ensures Lcm(a, b) >= a && Lcm(a, b) >= b
  {
    var l := Lcm(a, b);
    LcmIsCommon(a, b, l);
    MultipleDivides(1, l);
    AtLeastItsDivisor(l, a);
    AtLeastItsDivisor(l, b);
  }

  lemma AtLeastItsDivisor(n: int, d: int)
    requires n > 0 && d > 0 && n % d == 0
    ensures n >= d
  {
    if n < d {
      QuotientIs(n, d, 0);
      QuotientBounds(n, d);
    }
  }

  /** `s` is the step of the grid that `a`'s and `b`'s share. */
  ghost predicate IsSharedStep(s: Decimal, a: Decimal, b: Decimal)
    requires Units(a) > 0 && Units(b) > 0
  {
    Units(s) > 0 && forall u :: u % Units(s) == 0 <==> u % Units(a) == 0 && u % Units(b) == 0
  }

  /** Without its last `places` digits, all zeros, `n` fits a mantissa. */
  predicate FitsWithout(n: int, places: nat) {
    n % Pow10(places) == 0 && n / Pow10(places) < MANTISSA_END
  }

  /**
   A step that is refused is one a decimal holds exactly when its multiple at the finer scale does
   not fit a mantissa, and does without some of its trailing zeros, at most one to each place.
   */
  lemma WhenARefusedStepExists(a: Decimal, b: Decimal)
    requires a.mantissa > 0 && b.mantissa > 0
    ensures At(a, Finer(a, b)) > 0 && At(b, Finer(a, b)) > 0
    ensures Units(a) > 0 && Units(b) > 0
    ensures var lcm := Lcm(At(a, Finer(a, b)), At(b, Finer(a, b)));
            CommonStep(a, b).None? && (exists s: Decimal :: IsSharedStep(s, a, b))
            <==> && lcm >= MANTISSA_END
                 && exists places :: 0 <= places <= Finer(a, b) && FitsWithout(lcm, places)
  {
    var scale := Finer(a, b);
    AtSign(a, scale);
    AtSign(b, scale);
    var lcm := Lcm(At(a, scale), At(b, scale));
    CommonStepIsTheSharedGrid(a, b);
    LcmIsCommon(At(a, scale), At(b, scale), 0);
    if s: Decimal :| IsSharedStep(s, a, b) {
      SharedStepIsLcm(a, b, s);
      StepStripsZeros(s, lcm, scale);
    }
    if places :| 0 <= places <= scale && FitsWithout(lcm, places) {
      StrippedIsShared(a, b, lcm, places);
    }
  }

  /** A shared step is the least common multiple at the finer scale. */
  lemma SharedStepIsLcm(a: Decimal, b: Decimal, s: Decimal)
    requires a.mantissa > 0 && b.mantissa > 0
    requires At(a, Finer(a, b)) > 0 && At(b, Finer(a, b)) > 0 && Units(a) > 0 && Units(b) > 0
    requires IsSharedStep(s, a, b)
    ensures Units(s) == Lcm(At(a, Finer(a, b)), At(b, Finer(a, b))) * Pow10(MAX_SCALE - Finer(a, b))
  {
    var least := UnitsOfLcm(a, b);
    MultipleDivides(1, Units(s));
    MultipleDivides(1, least);
    AtLeastItsDivisor(Units(s), least);
    AtLeastItsDivisor(least, Units(s));
  }

  /** In the finest units, the multiples of the least common multiple are the shared grid. */
  lemma UnitsOfLcm(a: Decimal, b: Decimal) returns (least: int)
    requires a.mantissa > 0 && b.mantissa > 0
    requires At(a, Finer(a, b)) > 0 && At(b, Finer(a, b)) > 0 && Units(a) > 0 && Units(b) > 0
    ensures least == Lcm(At(a, Finer(a, b)), At(b, Finer(a, b))) * Pow10(MAX_SCALE - Finer(a, b))
    ensures least > 0
    ensures forall u :: u % least == 0 <==> u % Units(a) == 0 && u % Units(b) == 0
  {
    var scale := Finer(a, b);
    var x, y, k := At(a, scale), At(b, scale), Pow10(MAX_SCALE - scale);
    UnitsOf(a, scale);
    UnitsOf(b, scale);
    LcmScales(x, y, k);
    least := Lcm(x * k, y * k);
    LcmIsCommon(x * k, y * k, 0);
    forall u
      ensures u % least == 0 <==> u % Units(a) == 0 && u % Units(b) == 0
    {
      LcmIsCommon(x * k, y * k, u);
    }
  }

  /** A decimal worth a multiple at a scale is that multiple without some trailing zeros. */
  lemma StepStripsZeros(s: Decimal, lcm: int, scale: nat)
    requires scale <= MAX_SCALE && lcm > 0
    requires Units(s) == lcm * Pow10(MAX_SCALE - scale)
    ensures exists places :: 0 <= places <= scale && FitsWithout(lcm, places)
  {
    var k := Pow10(MAX_SCALE - scale);
    if s.scale <= scale {
      var places := scale - s.scale;
      UnitsOf(s, scale);
      SameFactor(At(s, scale), lcm, k);
      MultipleDivides(s.mantissa, Pow10(places));
      assert FitsWithout(lcm, places);
    } else {
      FinerStepFits(s, lcm, scale);
    }
  }

  lemma FinerStepFits(s: Decimal, lcm: int, scale: nat)
    requires scale < s.scale && lcm > 0
    requires Units(s) == lcm * Pow10(MAX_SCALE - scale)
    ensures FitsWithout(lcm, 0)
  {
    var p, q := Pow10(s.scale - scale), Pow10(MAX_SCALE - s.scale);
    PowAdds(s.scale - scale, MAX_SCALE - s.scale);
    MulAssociates(lcm, p, q);
    SameFactor(s.mantissa, lcm * p, q);
    MulMonotone(1, p, lcm);
  }

  lemma SameFactor(m: int, n: int, k: int)
    requires k > 0 && m * k == n * k
    ensures m == n
  {
    MultipleDivides(m, k);
    MultipleDivides(n, k);
  }

  lemma StrippedIsShared(a: Decimal, b: Decimal, lcm: int, places: nat)
    requires a.mantissa > 0 && b.mantissa > 0 && places <= Finer(a, b)
    requires At(a, Finer(a, b)) > 0 && At(b, Finer(a, b)) > 0 && Units(a) > 0 && Units(b) > 0
    requires lcm == Lcm(At(a, Finer(a, b)), At(b, Finer(a, b))) && lcm > 0
    requires FitsWithout(lcm, places)
    ensures exists s: Decimal :: IsSharedStep(s, a, b)
  {
    var scale := Finer(a, b);
    var p, m := Pow10(places), lcm / Pow10(places);
    QuotientBounds(lcm, p);
    assert m >= 0;
    var s: Decimal := Scaled(m, scale - places);
    UnitsOf(s, scale);
    var least := UnitsOfLcm(a, b);
    assert Units(s) == least;
    assert IsSharedStep(s, a, b);
  }

  /** A step a decimal could hold with its trailing zeros dropped can still be refused. */
  lemma SharedStepCanBeRefused()
    ensures var a: Decimal := Scaled(MANTISSA_END / 2, 0);
            var b: Decimal := Scaled(10, 1);
            && CommonStep(a, b) == None
            && Units(a) > 0 && Units(b) > 0
            && IsSharedStep(a, a, b)
  {
    var a: Decimal := Scaled(MANTISSA_END / 2, 0);
    var b: Decimal := Scaled(10, 1);
    assert Pow10(1) == 10 && Pow10(0) == 1;
    LcmIsAtLeast(At(a, 1), At(b, 1));
    PowAdds(1, 27);
    assert Units(b) == 1 * Pow10(28);
    forall u | u % Units(a) == 0
      ensures u % Units(b) == 0
    {
      MultipleOfFactor(u, MANTISSA_END / 2, Pow10(28));
    }
  }

  lemma MultipleOfFactor(u: int, m: int, k: int)
    requires k > 0 && m * k > 0 && u % (m * k) == 0
    ensures u % k == 0
  {
    QuotientBounds(u, m * k);
    MulAssociates(u / (m * k), m, k);
    MultipleDivides(u / (m * k) * m, k);
  }
}
