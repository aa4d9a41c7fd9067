/** The few facts about products and quotients that the solver does not find by itself. */
module IntArith {

  lemma MulGap(p: int, q: int, d: int)
    requires p > q && d >= 0
    ensures p * d >= q * d + d
  {
    assert p * d == (p - q - 1) * d + q * d + d;
  }

  lemma MulMonotone(a: int, b: int, d: int)
    requires a <= b && d >= 0
    ensures a * d <= b * d
  {
    assert b * d - a * d == (b - a) * d;
  }

  lemma QuotientBounds(x: int, d: int)
    requires d > 0
    ensures x / d * d <= x < x / d * d + d
    ensures x == x / d * d + x % d
  {
  }

  /** The quotient is the one whose interval holds the dividend. */
  lemma QuotientIs(x: int, d: int, q: int)
    requires d > 0 && q * d <= x < q * d + d
    ensures x / d == q
  {
    var p := x / d;
    QuotientBounds(x, d);
    if p > q {
      MulGap(p, q, d);
    } else if p < q {
      MulGap(q, p, d);
    }
  }

  lemma MultipleDivides(q: int, d: int)
    requires d > 0
    ensures q * d / d == q && q * d % d == 0
  {
    QuotientIs(q * d, d, q);
  }

  lemma QuotientMonotone(x: int, y: int, d: int)
    requires x <= y && d > 0
    ensures x / d <= y / d
  {
    QuotientBounds(x, d);
    QuotientBounds(y, d);
    if x / d > y / d {
      MulGap(x / d, y / d, d);
    }
  }

  lemma MulAssociates(a: int, b: int, c: int)
    ensures a * b * c == a * (b * c)
  {
  }

  lemma DifferenceTimes(a: int, b: int, c: int)
    ensures (a - b) * c == a * c - b * c
  {
  }

  lemma SignOfProduct(a: int, b: int)
    requires b > 0
    ensures a * b > 0 <==> a > 0
    ensures a * b == 0 <==> a == 0
  {
    if a > 0 {
      MulMonotone(1, a, b);
    } else if a < 0 {
      MulMonotone(a, -1, b);
    }
  }

  lemma ModAtMost(n: int, d: int)
    requires n >= 0 && d > 0
    ensures n % d <= n
  {
    QuotientBounds(n, d);
    QuotientMonotone(0, n, d);
    MulMonotone(0, n / d, d);
  }

  /** The remainder of a scaled dividend by a divisor scaled alike is the scaled remainder. */
  lemma ModScales(n: int, d: int, k: int)
    requires d > 0 && k > 0
    ensures d * k > 0 && n * k % (d * k) == n % d * k
  {
    var q, r := n / d, n % d;
    SignOfProduct(d, k);
    QuotientBounds(n, d);
    assert n * k == q * (d * k) + r * k by {
      MulAssociates(q, d, k);
      assert (q * d + r) * k == q * d * k + r * k;
    }
    MulMonotone(0, r, k);
    MulMonotone(r + 1, d, k);
    assert (r + 1) * k == r * k + k;
    QuotientIs(n * k, d * k, q);
    QuotientBounds(n * k, d * k);
  }

  lemma NegatedMod(n: int, d: int)
    requires d > 0
    ensures n % d == 0 <==> -n % d == 0
  {
    QuotientBounds(n, d);
    QuotientBounds(-n, d);
    if n % d == 0 {
      assert -n == -(n / d) * d;
      MultipleDivides(-(n / d), d);
    }
    if -n % d == 0 {
      assert n == -(-n / d) * d;
      MultipleDivides(-(-n / d), d);
    }
  }

  /** A product by name, for the solver to compare products as they stand. */
  function Times(a: real, b: real): real {
    a * b
  }

  lemma TimesMonotone(a: real, b: real, c: real)
    requires a <= b && c >= 0.0
    ensures Times(a, c) <= Times(b, c)
  {
    ScaleReal(a, b, c);
  }

  lemma TimesStrict(a: real, b: real, c: real)
    requires a < b && c > 0.0
    ensures Times(a, c) < Times(b, c)
  {
    ScaleRealStrictly(a, b, c);
  }

  lemma TimesOne(a: real)
    ensures Times(1.0, a) == a
  {
  }

  lemma TimesSum(a: real, b: real, c: real)
    ensures Times(a + b, c) == Times(a, c) + Times(b, c)
  {
    Distribute(a, b, c);
  }

  lemma ScaleReal(a: real, b: real, c: real)
    requires a <= b && c >= 0.0
    ensures a * c <= b * c
  {
    assert b * c - a * c == (b - a) * c;
  }

  lemma ScaleRealStrictly(a: real, b: real, c: real)
    requires a < b && c > 0.0
    ensures a * c < b * c
  {
    assert b * c - a * c == (b - a) * c;
  }

  lemma Distribute(a: real, b: real, c: real)
    ensures (a + b) * c == a * c + b * c
  {
  }

  lemma CancelReal(a: real, c: real)
    requires c > 0.0
    ensures a / c * c == a
  {
  }

  lemma DivideSum(a: real, b: real, c: real)
    requires c > 0.0
    ensures (a + b) / c == a / c + b / c
  {
  }

  lemma DivideReal(a: real, b: real, c: real)
    requires a <= b && c > 0.0
    ensures a / c <= b / c
  {
  }
}
