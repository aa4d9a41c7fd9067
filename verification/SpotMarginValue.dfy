/** What each asset of a spot margin account is priced at, and what the account is worth. */
module SpotMarginValue {
  import opened IntArith
  import opened SpotMarginConfig
  import opened Wrappers

  // ------------------------------------------------------------------------------ the account

  /** One asset's balance: what is held of it in all, and what is owed, loan and interest. */
  datatype Balance = Balance(asset: Asset, total: real, owed: real)

  /** Each asset once, and nothing owed below zero. */
  ghost predicate WellFormed(balances: seq<Balance>) {
    && (forall i, j :: 0 <= i < j < |balances| ==> balances[i].asset != balances[j].asset)
    && (forall i :: 0 <= i < |balances| ==> balances[i].owed >= 0.0)
  }

  /** What one unit of an asset is worth, given whether the account owes it; never zero. */
  type Prices = (Asset, bool) -> Option<real>

  ghost predicate Positive(prices: Prices) {
    forall a, owes :: prices(a, owes).Some? ==> prices(a, owes).value > 0.0
  }

  /** The prices of an asset that `owes` is said of make no difference between. */
  predicate Steady(prices: Prices, asset: Asset) {
    prices(asset, true) == prices(asset, false)
  }

  // ------------------------------------------------------------------------------ prices

  /** An asset's current price, and the lowest and highest observed in the borrow price window. */
  datatype Quote = Quote(price: real, low: Option<real>, high: Option<real>)

  type Market = Asset -> Option<Quote>

  ghost predicate PositiveQuotes(m: Market) {
    forall a :: m(a).Some? ==>
      && m(a).value.price > 0.0
      && (m(a).value.low.Some? ==> m(a).value.low.value > 0.0)
      && (m(a).value.high.Some? ==> m(a).value.high.value > 0.0)
  }

  /** Which price of each asset counts: the current one, or the window's, to lend `borrowing`. */
  datatype Pricing = Current | Window(borrowing: Asset)

  function PriceOf(valuation: Asset, m: Market, pricing: Pricing, asset: Asset, owes: bool)
    : Option<real>
  {
    if asset == valuation then Some(1.0)
    else
      match m(asset)
      case None => None
      case Some(q) =>
        Some(match pricing
             case Current => q.price
             case Window(borrowing) => if owes || asset == borrowing then Highest(q) else Lowest(q))
  }

  function Highest(q: Quote): real {
    if q.high.Some? && q.high.value > q.price then q.high.value else q.price
  }

  function Lowest(q: Quote): real {
    if q.low.Some? && q.low.value < q.price then q.low.value else q.price
  }

  function PricesAt(valuation: Asset, m: Market, pricing: Pricing): Prices {
    (asset: Asset, owes: bool) => PriceOf(valuation, m, pricing, asset, owes)
  }

  /** Something prices the asset: it is the valuation asset, or it has a quote. */
  predicate Priced(valuation: Asset, m: Market, asset: Asset) {
    asset == valuation || m(asset).Some?
  }

  /** `x` is the greatest of a price and another, if there is another. */
  predicate IsGreatest(x: real, price: real, other: Option<real>) {
    x >= price && (other.Some? ==> x >= other.value) && (x == price || other == Some(x))
  }

  predicate IsLeast(x: real, price: real, other: Option<real>) {
    x <= price && (other.Some? ==> x <= other.value) && (x == price || other == Some(x))
  }

  /**
   An asset owed, or being borrowed, is priced at the window's highest, every other at its lowest; the
   current price always counts, alone outside the window, and the valuation asset is worth one.
   */
  lemma PricesAreExtremes(valuation: Asset, m: Market, borrowing: Asset, asset: Asset, owes: bool)
    ensures var now, over := PricesAt(valuation, m, Current)(asset, owes),
                             PricesAt(valuation, m, Window(borrowing))(asset, owes);
            if asset == valuation then now == over == Some(1.0)
            else if m(asset).None? then now == over == None
            else
              && now == Some(m(asset).value.price)
              && over.Some?
              && (owes || asset == borrowing ==>
                    IsGreatest(over.value, m(asset).value.price, m(asset).value.high))
              && (!owes && asset != borrowing ==>
                    IsLeast(over.value, m(asset).value.price, m(asset).value.low))
  {
  }

  lemma PricesArePositive(valuation: Asset, m: Market, pricing: Pricing)
    requires PositiveQuotes(m)
    ensures Positive(PricesAt(valuation, m, pricing))
    ensures pricing.Current? ==> forall a :: Steady(PricesAt(valuation, m, pricing), a)
    ensures pricing.Window? ==> Steady(PricesAt(valuation, m, pricing), pricing.borrowing)
    ensures forall a, owes ::
              PricesAt(valuation, m, pricing)(a, owes).Some? <==> Priced(valuation, m, a)
  {
  }

  // ------------------------------------------------------------------------------ equity and debt

  datatype Check = BorrowCheck | LiquidationCheck

  function CollateralRatio(c: Config, check: Check, asset: Asset): real {
    if check.BorrowCheck? then c.BorrowRatio(asset) else c.LiquidationRatio(asset)
  }

  datatype Valued = Valued(equity: real, debt: real)

  /** A net amount, weighted only where more is held than owed. */
  function Weigh(ratio: real, net: real): real {
    if net > 0.0 then ratio * net else net
  }

  function Weighted(c: Config, check: Check, b: Balance): real {
    Weigh(CollateralRatio(c, check, b.asset), b.total - b.owed)
  }

  function Worth(quantity: real, price: real): real {
    quantity * price
  }

  function Contribution(c: Config, check: Check, b: Balance, price: real): real {
    Weighted(c, check, b) * price
  }

  /** `v` with one more balance counted at `price`. */
  function Counting(v: Valued, c: Config, check: Check, b: Balance, price: real): Valued {
    Valued(v.equity + Contribution(c, check, b, price), v.debt + Worth(b.owed, price))
  }

  /** Equity and debt, or nothing if an asset owed cannot be valued. */
  function Value(c: Config, check: Check, balances: seq<Balance>, prices: Prices): Option<Valued> {
    if balances == [] then Some(Valued(0.0, 0.0))
    else
      var n := |balances| - 1;
      var b := balances[n];
      var rest := Value(c, check, balances[..n], prices);
      var price := prices(b.asset, b.owed > 0.0);
      if rest.None? || (price.None? && b.owed > 0.0) then None
      else if price.None? then rest
      else Some(Counting(rest.value, c, check, b, price.value))
  }

  /** The program's loop over the balances, adding up as it goes. */
  method FindValue(c: Config, check: Check, balances: seq<Balance>, prices: Prices)
    returns (r: Option<Valued>)
    ensures r == Value(c, check, balances, prices)
  {
    var valued := Valued(0.0, 0.0);
    for i := 0 to |balances|
      invariant Value(c, check, balances[..i], prices) == Some(valued)
    {
      var b := balances[i];
      var price := prices(b.asset, b.owed > 0.0);
      assert balances[..i + 1][..i] == balances[..i] && balances[..i + 1][i] == b;
      if price.None? {
        if b.owed > 0.0 {
          UnvaluedStays(c, check, balances, prices, i + 1);
          return None;
        }
      } else {
        valued := Counting(valued, c, check, b, price.value);
      }
    }
    assert balances[..|balances|] == balances;
    return Some(valued);
  }

  lemma {:induction false} UnvaluedStays(
    c: Config, check: Check, balances: seq<Balance>, prices: Prices, n: nat)
    requires n <= |balances| && Value(c, check, balances[..n], prices).None?
    ensures Value(c, check, balances, prices).None?
    decreases |balances|
  {
    if n < |balances| {
      var shorter := balances[..|balances| - 1];
      assert shorter[..n] == balances[..n];
      UnvaluedStays(c, check, shorter, prices, n);
    } else {
      assert balances[..n] == balances;
    }
  }

  /** A debt that cannot be valued is the only thing that leaves an account without a value. */
  lemma {:induction false} UnvaluedIsADebt(
    c: Config, check: Check, balances: seq<Balance>, prices: Prices)
    ensures Value(c, check, balances, prices).Some?
            <==> forall i :: 0 <= i < |balances| && balances[i].owed > 0.0 ==>
                   prices(balances[i].asset, true).Some?
  {
    if balances != [] {
      UnvaluedIsADebt(c, check, balances[..|balances| - 1], prices);
    }
  }

  /** One balance: its net at its price, less than in full only where it is positive, and its debt. */
  lemma OneBalanceIsWorth(c: Config, check: Check, b: Balance, prices: Prices)
    requires prices(b.asset, b.owed > 0.0).Some?
    ensures var price, ratio := prices(b.asset, b.owed > 0.0).value,
                                if check == LiquidationCheck then c.LiquidationRatio(b.asset)
                                else c.BorrowRatio(b.asset);
            && Value(c, check, [b], prices).Some?
            && Value(c, check, [b], prices).value.debt == b.owed * price
            && Value(c, check, [b], prices).value.equity
            == if b.total > b.owed then ratio * (b.total - b.owed) * price
               else (b.total - b.owed) * price
  {
    assert [b][..0] == [];
  }

  /** A balance that nothing is owed of and that cannot be priced counts for nothing. */
  lemma UnpricedIsWorthNothing(c: Config, check: Check, b: Balance, prices: Prices)
    requires prices(b.asset, false).None? && b.owed <= 0.0
    ensures Value(c, check, [b], prices) == Some(Valued(0.0, 0.0))
  {
    assert [b][..0] == [];
  }

  /** Balances add up: an account is worth what any two parts of it are. */
  lemma {:induction false} AccountsAddUp(
    c: Config, check: Check, a: seq<Balance>, b: seq<Balance>, prices: Prices)
    ensures var x, y, z := Value(c, check, a, prices), Value(c, check, b, prices),
                           Value(c, check, a + b, prices);
            && (z.Some? <==> x.Some? && y.Some?)
            && (z.Some? ==> z == Some(Valued(x.value.equity + y.value.equity,
                                             x.value.debt + y.value.debt)))
  {
    if b == [] {
      assert a + b == a;
    } else {
      var n := |b| - 1;
      assert (a + b)[..|a + b| - 1] == a + b[..n];
      AccountsAddUp(c, check, a, b[..n], prices);
    }
  }
}
