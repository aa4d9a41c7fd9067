/** How much the venue lends a spot margin account, and when it liquidates it. */
module SpotMarginLending {
  import opened IntArith
  import opened SpotMarginConfig
  import opened SpotMarginValue
  import opened Wrappers

  // ------------------------------------------------------------------------------ lending

  /** The most debt a leverage limit allows on `equity`. */
  function DebtLimit(leverage: real, equity: real): real {
    (leverage - 1.0) * equity
  }

  /** Whether the account is worth something that its debt is within the leverage limit of. */
  predicate WithinLimit(c: Config, balances: seq<Balance>, prices: Prices) {
    var v := Value(c, BorrowCheck, balances, prices);
    v.Some? && v.value.debt <= (c.maxLeverage - 1.0) * v.value.equity
  }

  /** What a leverage limit leaves to lend of `asset` at `prices`, in units of it. */
  function RoomAt(c: Config, asset: Asset, balances: seq<Balance>, prices: Prices): Option<real>
    requires Positive(prices)
  {
    var price := prices(asset, true);
    var valued := Value(c, BorrowCheck, balances, prices);
    if price.None? || valued.None? then None
    else Some(Room(DebtLimit(c.maxLeverage, valued.value.equity) - valued.value.debt, price.value))
  }

  /** What `headroom` buys at `price`, never negative. */
  function Room(headroom: real, price: real): real
    requires price > 0.0
  {
    (if headroom > 0.0 then headroom else 0.0) / price
  }

  /** The lesser of the room at current prices and, with a window to look back on, at its prices. */
  function LeverageRoom(
    c: Config, asset: Asset, balances: seq<Balance>, m: Market, looksBack: bool): Option<real>
    requires PositiveQuotes(m)
  {
    PricesArePositive(c.valuation, m, Current);
    PricesArePositive(c.valuation, m, Window(asset));
    var room := RoomAt(c, asset, balances, PricesAt(c.valuation, m, Current));
    if room.None? || !looksBack then room
    else
      var windowRoom := RoomAt(c, asset, balances, PricesAt(c.valuation, m, Window(asset)));
      if windowRoom.None? then None
      else if windowRoom.value < room.value then windowRoom else room
  }

  /** Lends `amount` of `asset`: what is held of it and what is owed of it both rise. */
  function Lend(balances: seq<Balance>, asset: Asset, amount: real): seq<Balance> {
    if balances == [] then [Balance(asset, amount, amount)]
    else
      var n := |balances| - 1;
      var b := balances[n];
      if b.asset == asset then balances[n := Balance(asset, b.total + amount, b.owed + amount)]
      else Lend(balances[..n], asset, amount) + [b]
  }

  /** The balance of `asset`, nothing if the account has never held it. */
  function BalanceOf(balances: seq<Balance>, asset: Asset): Balance {
    if balances == [] then Balance(asset, 0.0, 0.0)
    else
      var n := |balances| - 1;
      if balances[n].asset == asset then balances[n] else BalanceOf(balances[..n], asset)
  }

  /** A loan raises what is held and what is owed of its asset, and touches no other. */
  lemma {:induction false} LendingIsExact(
    balances: seq<Balance>, asset: Asset, amount: real, other: Asset)
    ensures var before := BalanceOf(balances, other);
            BalanceOf(Lend(balances, asset, amount), other)
            == if other == asset then Balance(other, before.total + amount, before.owed + amount)
               else before
  {
    var lent := Lend(balances, asset, amount);
    if balances == [] {
      assert lent[..0] == [];
    } else {
      var n := |balances| - 1;
      if balances[n].asset == asset {
        assert lent[..n] == balances[..n];
      } else {
        LendingIsExact(balances[..n], asset, amount, other);
        assert lent[..|lent| - 1] == Lend(balances[..n], asset, amount);
      }
    }
  }

  /** Whether the venue liquidates the account when it checks it. */
  predicate Liquidates(c: Config, balances: seq<Balance>, prices: Prices) {
    var valued := Value(c, LiquidationCheck, balances, prices);
    && c.liquidation.Some?
    && valued.Some? && valued.value.debt > 0.0
    && MarginLevel(valued.value) <= c.liquidation.value.level
  }

  function MarginLevel(v: Valued): real
    requires v.debt > 0.0
  {
    (v.equity + v.debt) / v.debt
  }

  /** No asset counts for less in the liquidation check than in the borrow check. */
  ghost predicate RatiosOrdered(c: Config) {
    forall a :: c.BorrowRatio(a) <= c.LiquidationRatio(a)
  }

  lemma ContributionIsStricter(c: Config, b: Balance, price: real)
    requires c.BorrowRatio(b.asset) <= c.LiquidationRatio(b.asset) && price > 0.0
    ensures Contribution(c, BorrowCheck, b, price) <= Contribution(c, LiquidationCheck, b, price)
  {
    WeighMonotone(c.BorrowRatio(b.asset), c.LiquidationRatio(b.asset), b.total - b.owed);
    ScaleReal(Weighted(c, BorrowCheck, b), Weighted(c, LiquidationCheck, b), price);
  }

  lemma WeighMonotone(r: real, s: real, net: real)
    requires r <= s
    ensures Weigh(r, net) <= Weigh(s, net)
  {
    if net > 0.0 {
      ScaleReal(r, s, net);
    }
  }

  /** The liquidation check counts at least the equity the borrow check does, on the same debt. */
  lemma {:induction false} BorrowRatiosAreStricter(c: Config, balances: seq<Balance>, prices: Prices)
    requires RatiosOrdered(c) && Positive(prices)
    ensures var borrow, liquidate := Value(c, BorrowCheck, balances, prices),
                                     Value(c, LiquidationCheck, balances, prices);
            && (borrow.Some? <==> liquidate.Some?)
            && (borrow.Some? ==>
                  && borrow.value.debt == liquidate.value.debt
                  && borrow.value.equity <= liquidate.value.equity)
  {
    if balances != [] {
      var n := |balances| - 1;
      var price := prices(balances[n].asset, balances[n].owed > 0.0);
      BorrowRatiosAreStricter(c, balances[..n], prices);
      if price.Some? {
        ContributionIsStricter(c, balances[n], price.value);
      }
    }
  }

  /** Debt within the leverage limit, on equity counted no more generously, is above the level. */
  lemma LimitIsAboveLevel(leverage: real, level: real, equity: real, counted: real, debt: real)
    requires leverage >= 1.0 && level >= 1.0 && level * (leverage - 1.0) < leverage
    requires 0.0 < debt <= DebtLimit(leverage, equity)
    requires equity <= counted
    ensures MarginLevel(Valued(counted, debt)) > level
  {
    var lent := leverage - 1.0;
    PositiveFactor(lent, equity);
    ScaleReal(equity, counted, lent);
    assert lent * (counted + debt) == lent * counted + lent * debt;
    assert leverage * debt == lent * debt + debt;
    assert lent * (counted + debt) >= leverage * debt;
    ScaleRealStrictly(level * lent, leverage, debt);
    LessByFactor(level * debt, counted + debt, lent);
    LessQuotient(level, counted + debt, debt);
  }

  lemma PositiveFactor(a: real, b: real)
    requires a >= 0.0 && a * b > 0.0
    ensures a > 0.0
  {
  }

  lemma LessByFactor(a: real, b: real, c: real)
    requires c > 0.0 && a * c < b * c
    ensures a < b
  {
    if a >= b {
      ScaleReal(b, a, c);
    }
  }

  lemma LessQuotient(a: real, b: real, c: real)
    requires c > 0.0 && a * c < b
    ensures a < b / c
  {
    CancelReal(b, c);
    LessByFactor(a, b / c, c);
  }

  /** What the lending theorems need of a configuration; every one that can exist has it. */
  ghost predicate LimitBelowLevel(c: Config) {
    && RatiosOrdered(c)
    && c.maxLeverage >= 1.0
    && (c.liquidation.Some? ==>
          && c.liquidation.value.level >= 1.0
          && c.liquidation.value.level * (c.maxLeverage - 1.0) < c.maxLeverage)
  }

  lemma EveryConfigurationLimitsBelowLevel(c: Config)
    requires c.Valid()
    ensures LimitBelowLevel(c)
  {
  }

  /**
   An account whose debt is within the leverage limit is above its liquidation level, whatever it
   holds and owes, on every configuration that can exist.
   */
  lemma LeverageLimitIsAboveLiquidation(c: Config, balances: seq<Balance>, prices: Prices)
    requires LimitBelowLevel(c) && Positive(prices)
    requires Value(c, BorrowCheck, balances, prices).Some?
    requires var v := Value(c, BorrowCheck, balances, prices).value;
             0.0 < v.debt <= DebtLimit(c.maxLeverage, v.equity)
    ensures !Liquidates(c, balances, prices)
  {
    BorrowRatiosAreStricter(c, balances, prices);
    if c.liquidation.Some? {
      var v, w := Value(c, BorrowCheck, balances, prices).value,
                  Value(c, LiquidationCheck, balances, prices).value;
      LimitIsAboveLevel(c.maxLeverage, c.liquidation.value.level, v.equity, w.equity, v.debt);
    }
  }

  lemma LoanKeepsNet(c: Config, check: Check, b: Balance, amount: real)
    ensures Weighted(c, check, Balance(b.asset, b.total + amount, b.owed + amount))
         == Weighted(c, check, b)
  {
    assert b.total + amount - (b.owed + amount) == b.total - b.owed;
  }

  /** A loan adds to the debt and leaves equity as it was. */
  lemma {:induction false} LendingMovesOnlyDebt(
    c: Config, check: Check, balances: seq<Balance>, asset: Asset, amount: real, prices: Prices)
    requires Steady(prices, asset) && prices(asset, true).Some?
    requires WellFormed(balances) && amount > 0.0
    requires Value(c, check, balances, prices).Some?
    ensures var before, after := Value(c, check, balances, prices),
                                 Value(c, check, Lend(balances, asset, amount), prices);
            && after.Some?
            && after.value.equity == before.value.equity
            && after.value.debt == before.value.debt + Worth(amount, prices(asset, true).value)
  {
    var price := prices(asset, true).value;
    var lent := Lend(balances, asset, amount);
    assert prices(asset, false) == prices(asset, true);
    if balances == [] {
      assert lent[..0] == [];
      NothingNet(c, check, lent[0], price);
    } else {
      var n := |balances| - 1;
      var b := balances[n];
      if b.asset == asset {
        LendingToLast(c, check, balances, asset, amount, prices);
      } else {
        LendingMovesOnlyDebt(c, check, balances[..n], asset, amount, prices);
        assert lent[..|lent| - 1] == Lend(balances[..n], asset, amount) && lent[|lent| - 1] == b;
      }
    }
  }

  lemma LendingToLast(
    c: Config, check: Check, balances: seq<Balance>, asset: Asset, amount: real, prices: Prices)
    requires Steady(prices, asset) && prices(asset, true).Some?
    requires WellFormed(balances) && amount > 0.0
    requires balances != [] && balances[|balances| - 1].asset == asset
    requires Value(c, check, balances, prices).Some?
    ensures var before, after := Value(c, check, balances, prices),
                                 Value(c, check, Lend(balances, asset, amount), prices);
            && after.Some?
            && after.value.equity == before.value.equity
            && after.value.debt == before.value.debt + Worth(amount, prices(asset, true).value)
  {
    var n, price := |balances| - 1, prices(asset, true).value;
    var b, lent := balances[n], Lend(balances, asset, amount);
    assert prices(asset, false) == prices(asset, true);
    assert lent[..n] == balances[..n] && lent[n].owed > 0.0;
    LoanCounts(Value(c, check, balances[..n], prices).value, c, check, b, amount, price);
  }

  lemma NothingNet(c: Config, check: Check, b: Balance, price: real)
    requires b.total == b.owed
    ensures Contribution(c, check, b, price) == 0.0
  {
  }

  lemma LoanCounts(v: Valued, c: Config, check: Check, b: Balance, amount: real, price: real)
    ensures var before, after := Counting(v, c, check, b, price),
              Counting(v, c, check, Balance(b.asset, b.total + amount, b.owed + amount), price);
            && after.equity == before.equity
            && after.debt == before.debt + Worth(amount, price)
  {
    LoanKeepsNet(c, check, b, amount);
    Distribute(b.owed, amount, price);
  }

  /** A loan of a positive amount is within the room exactly when it stays within the limit. */
  lemma RoomIsExact(
    c: Config, asset: Asset, balances: seq<Balance>, prices: Prices, amount: real)
    requires WellFormed(balances) && Positive(prices) && Steady(prices, asset) && amount > 0.0
    ensures RoomAt(c, asset, balances, prices).Some?
            <==> && prices(asset, true).Some?
                 && Value(c, BorrowCheck, balances, prices).Some?
    ensures RoomAt(c, asset, balances, prices).Some? ==>
              && RoomAt(c, asset, balances, prices).value >= 0.0
              && (amount <= RoomAt(c, asset, balances, prices).value
                  <==> WithinLimit(c, Lend(balances, asset, amount), prices))
  {
    if RoomAt(c, asset, balances, prices).Some? {
      var v, price := Value(c, BorrowCheck, balances, prices).value, prices(asset, true).value;
      LendingMovesOnlyDebt(c, BorrowCheck, balances, asset, amount, prices);
      HeadroomIsExact(DebtLimit(c.maxLeverage, v.equity) - v.debt, price, amount);
      LoanWithinLimit(c, Lend(balances, asset, amount), prices, v, Worth(amount, price));
    }
  }

  /** A loan that adds to the debt alone stays within the limit exactly if the headroom holds it. */
  lemma LoanWithinLimit(c: Config, lent: seq<Balance>, prices: Prices, v: Valued, loan: real)
    requires Value(c, BorrowCheck, lent, prices) == Some(Valued(v.equity, v.debt + loan))
    ensures WithinLimit(c, lent, prices) <==> loan <= DebtLimit(c.maxLeverage, v.equity) - v.debt
  {
  }

  lemma HeadroomIsExact(headroom: real, price: real, amount: real)
    requires price > 0.0 && amount > 0.0
    ensures Room(headroom, price) >= 0.0
    ensures amount <= Room(headroom, price) <==> Worth(amount, price) <= headroom
  {
    var floored := if headroom > 0.0 then headroom else 0.0;
    DivideReal(0.0, floored, price);
    CancelReal(floored, price);
    ScaleRealStrictly(0.0, amount, price);
    if amount <= floored / price {
      ScaleReal(amount, floored / price, price);
    } else {
      ScaleRealStrictly(floored / price, amount, price);
    }
  }

  /** The loan asked for, and every debt of the account, can be priced. */
  ghost predicate Valuable(c: Config, m: Market, asset: Asset, balances: seq<Balance>) {
    && Priced(c.valuation, m, asset)
    && forall i :: 0 <= i < |balances| && balances[i].owed > 0.0 ==>
         Priced(c.valuation, m, balances[i].asset)
  }

  /**
   There is room to speak of exactly when the asset and every debt can be priced, and a loan is within
   it exactly when it leaves the account within the leverage limit at current prices and, with a
   window to look back on, at the window's.
   */
  lemma LeverageRoomIsExact(
    c: Config, asset: Asset, balances: seq<Balance>, m: Market, looksBack: bool, amount: real)
    requires WellFormed(balances) && PositiveQuotes(m) && amount > 0.0
    ensures LeverageRoom(c, asset, balances, m, looksBack).Some?
            <==> Valuable(c, m, asset, balances)
    ensures LeverageRoom(c, asset, balances, m, looksBack).Some? ==>
              var lent := Lend(balances, asset, amount);
              && LeverageRoom(c, asset, balances, m, looksBack).value >= 0.0
              && (amount <= LeverageRoom(c, asset, balances, m, looksBack).value
                  <==> && WithinLimit(c, lent, PricesAt(c.valuation, m, Current))
                       && (looksBack ==> WithinLimit(c, lent, PricesAt(c.valuation, m, Window(asset)))))
  {
    RoomAtIsExact(c, asset, balances, m, Current, amount);
    RoomAtIsExact(c, asset, balances, m, Window(asset), amount);
  }

  lemma RoomAtIsExact(
    c: Config, asset: Asset, balances: seq<Balance>, m: Market, pricing: Pricing, amount: real)
    requires WellFormed(balances) && PositiveQuotes(m) && amount > 0.0
    requires pricing == Current || pricing == Window(asset)
    ensures Positive(PricesAt(c.valuation, m, pricing))
    ensures var room, lent := RoomAt(c, asset, balances, PricesAt(c.valuation, m, pricing)),
                              Lend(balances, asset, amount);
            && (room.Some? <==> Valuable(c, m, asset, balances))
            && (room.Some? ==>
                  && room.value >= 0.0
                  && (amount <= room.value <==> WithinLimit(c, lent, PricesAt(c.valuation, m, pricing))))
  {
    var prices := PricesAt(c.valuation, m, pricing);
    PricesArePositive(c.valuation, m, pricing);
    assert Steady(prices, asset);
    UnvaluedIsADebt(c, BorrowCheck, balances, prices);
    RoomIsExact(c, asset, balances, prices, amount);
  }

  /** No loan the venue allows leaves the account where it liquidates it. */
  lemma LendingNeverReachesLiquidation(
    c: Config, balances: seq<Balance>, asset: Asset, amount: real, m: Market, looksBack: bool)
    requires c.Valid() && WellFormed(balances) && PositiveQuotes(m)
    requires LeverageRoom(c, asset, balances, m, looksBack).Some?
    requires 0.0 < amount <= LeverageRoom(c, asset, balances, m, looksBack).value
    ensures !Liquidates(c, Lend(balances, asset, amount), PricesAt(c.valuation, m, Current))
  {
    EveryConfigurationLimitsBelowLevel(c);
    LeverageRoomIsExact(c, asset, balances, m, looksBack, amount);
    LoanAtCurrentPrices(c, balances, asset, amount, m);
    WithinLimitIsSafe(c, Lend(balances, asset, amount), PricesAt(c.valuation, m, Current));
  }

  lemma WithinLimitIsSafe(c: Config, balances: seq<Balance>, prices: Prices)
    requires LimitBelowLevel(c) && Positive(prices) && WithinLimit(c, balances, prices)
    requires Value(c, BorrowCheck, balances, prices).value.debt > 0.0
    ensures !Liquidates(c, balances, prices)
  {
    LeverageLimitIsAboveLiquidation(c, balances, prices);
  }

  lemma LoanAtCurrentPrices(
    c: Config, balances: seq<Balance>, asset: Asset, amount: real, m: Market)
    requires WellFormed(balances) && PositiveQuotes(m) && amount > 0.0
    requires Valuable(c, m, asset, balances)
    ensures var prices := PricesAt(c.valuation, m, Current);
            && Positive(prices)
            && Value(c, BorrowCheck, Lend(balances, asset, amount), prices).Some?
            && Value(c, BorrowCheck, Lend(balances, asset, amount), prices).value.debt > 0.0
  {
    var prices := PricesAt(c.valuation, m, Current);
    PricesArePositive(c.valuation, m, Current);
    assert Steady(prices, asset);
    RoomAtIsExact(c, asset, balances, m, Current, amount);
    LoanIsPositive(c, balances, asset, amount, prices);
  }

  lemma LoanIsPositive(
    c: Config, balances: seq<Balance>, asset: Asset, amount: real, prices: Prices)
    requires WellFormed(balances) && Positive(prices) && Steady(prices, asset) && amount > 0.0
    requires RoomAt(c, asset, balances, prices).Some?
    ensures Value(c, BorrowCheck, Lend(balances, asset, amount), prices).Some?
    ensures Value(c, BorrowCheck, Lend(balances, asset, amount), prices).value.debt > 0.0
  {
    DebtIsNotNegative(c, BorrowCheck, balances, prices);
    LendingMovesOnlyDebt(c, BorrowCheck, balances, asset, amount, prices);
    ScaleRealStrictly(0.0, amount, prices(asset, true).value);
  }

  lemma {:induction false} DebtIsNotNegative(
    c: Config, check: Check, balances: seq<Balance>, prices: Prices)
    requires WellFormed(balances) && Positive(prices)
    requires Value(c, check, balances, prices).Some?
    ensures Value(c, check, balances, prices).value.debt >= 0.0
  {
    if balances != [] {
      var n := |balances| - 1;
      var b := balances[n];
      DebtIsNotNegative(c, check, balances[..n], prices);
      var price := prices(b.asset, b.owed > 0.0);
      if price.Some? {
        ScaleReal(0.0, b.owed, price.value);
      }
    }
  }

  // ------------------------------------------------------------------------------ why the checks

  /**
   A liquidation level the configuration refuses is one the venue would lend into: in any asset both
   checks count alike, at any price, an account that holds one unit would be lent to exactly its
   leverage limit, and be liquidated there.
   */
  lemma RefusedLevelWouldBeReached(c: Config, asset: Asset, m: Market)
    requires c.liquidation.Some? && c.maxLeverage > 1.0
    requires c.liquidation.value.level * (c.maxLeverage - 1.0) >= c.maxLeverage
    requires c.BorrowRatio(asset) == c.LiquidationRatio(asset) > 0.0
    requires PositiveQuotes(m) && Priced(c.valuation, m, asset)
    ensures var held, lent := [Balance(asset, 1.0, 0.0)], (c.maxLeverage - 1.0) * c.BorrowRatio(asset);
            && LeverageRoom(c, asset, held, m, false) == Some(lent)
            && Liquidates(c, Lend(held, asset, lent), PricesAt(c.valuation, m, Current))
  {
    var lent := (c.maxLeverage - 1.0) * c.BorrowRatio(asset);
    var prices := PricesAt(c.valuation, m, Current);
    PricesArePositive(c.valuation, m, Current);
    ScaleRealStrictly(0.0, c.maxLeverage - 1.0, c.BorrowRatio(asset));
    UnitHeldIsLent(c, asset, prices, lent);
    UnitLentIsLiquidated(c, asset, prices, lent);
    assert Lend([Balance(asset, 1.0, 0.0)], asset, lent) == [Balance(asset, 1.0 + lent, lent)];
  }

  lemma UnitHeldIsLent(c: Config, asset: Asset, prices: Prices, lent: real)
    requires c.maxLeverage > 1.0 && c.BorrowRatio(asset) > 0.0
    requires Positive(prices) && Steady(prices, asset) && prices(asset, true).Some?
    requires lent == (c.maxLeverage - 1.0) * c.BorrowRatio(asset)
    ensures RoomAt(c, asset, [Balance(asset, 1.0, 0.0)], prices) == Some(lent)
  {
    var ratio, price := c.BorrowRatio(asset), prices(asset, true).value;
    var held := [Balance(asset, 1.0, 0.0)];
    UnitHeldValue(c, BorrowCheck, asset, 1.0, 0.0, ratio, price, prices);
    UnitHeldRoom(c.maxLeverage, ratio, price, lent);
    assert RoomAt(c, asset, held, prices)
        == Some(Room(DebtLimit(c.maxLeverage, Worth(ratio, price)) - Worth(0.0, price), price));
  }

  lemma UnitLentIsLiquidated(c: Config, asset: Asset, prices: Prices, lent: real)
    requires c.liquidation.Some? && c.maxLeverage > 1.0
    requires c.liquidation.value.level * (c.maxLeverage - 1.0) >= c.maxLeverage
    requires c.BorrowRatio(asset) == c.LiquidationRatio(asset) > 0.0
    requires Positive(prices) && Steady(prices, asset) && prices(asset, true).Some?
    requires lent == (c.maxLeverage - 1.0) * c.BorrowRatio(asset)
    ensures Liquidates(c, [Balance(asset, 1.0 + lent, lent)], prices)
  {
    var ratio, price := c.BorrowRatio(asset), prices(asset, true).value;
    UnitHeldValue(c, LiquidationCheck, asset, 1.0 + lent, lent, ratio, price, prices);
    UnitHeldLevel(c.maxLeverage, c.liquidation.value.level, ratio, price);
  }

  /** An account holding one unit of an asset beyond what it owes of it, and nothing else. */
  lemma UnitHeldValue(
    c: Config, check: Check, asset: Asset, total: real, owed: real, ratio: real, price: real,
    prices: Prices)
    requires CollateralRatio(c, check, asset) == ratio && total - owed == 1.0
    requires Steady(prices, asset) && prices(asset, true) == Some(price)
    ensures Value(c, check, [Balance(asset, total, owed)], prices)
         == Some(Valued(Worth(ratio, price), Worth(owed, price)))
  {
    var b := Balance(asset, total, owed);
    assert [b][..0] == [];
    assert prices(asset, owed > 0.0) == Some(price);
    assert Weighted(c, check, b) == ratio * 1.0 == ratio;
    assert Contribution(c, check, b, price) == Worth(ratio, price);
  }

  lemma UnitHeldRoom(leverage: real, ratio: real, price: real, lent: real)
    requires leverage > 1.0 && ratio > 0.0 && price > 0.0 && lent == (leverage - 1.0) * ratio
    ensures Room(DebtLimit(leverage, Worth(ratio, price)) - Worth(0.0, price), price) == lent
  {
    var excess := leverage - 1.0;
    ScaleRealStrictly(0.0, excess, ratio);
    ScaleRealStrictly(0.0, lent, price);
    assert excess * (ratio * price) == excess * ratio * price;
    assert Worth(0.0, price) == 0.0;
    TimesThenOver(lent, price);
  }

  lemma TimesThenOver(a: real, b: real)
    requires b > 0.0
    ensures a * b / b == a
  {
  }

  lemma UnitHeldLevel(leverage: real, level: real, ratio: real, price: real)
    requires leverage > 1.0 && ratio > 0.0 && price > 0.0
    requires level * (leverage - 1.0) >= leverage
    ensures var debt := Worth((leverage - 1.0) * ratio, price);
            debt > 0.0 && MarginLevel(Valued(Worth(ratio, price), debt)) <= level
  {
    var lent, unit := leverage - 1.0, Worth(ratio, price);
    ScaleRealStrictly(0.0, ratio, price);
    ScaleRealStrictly(0.0, lent, unit);
    assert lent * ratio * price == lent * unit;
    ScaleReal(leverage, level * lent, unit);
    assert leverage * unit == unit + lent * unit;
    assert level * lent * unit == level * (lent * unit);
    AtMostQuotient(unit + lent * unit, lent * unit, level);
  }

  lemma AtMostQuotient(a: real, b: real, c: real)
    requires b > 0.0 && a <= c * b
    ensures a / b <= c
  {
    if a / b > c {
      ScaleRealStrictly(c, a / b, b);
      CancelReal(a, b);
    }
  }

  /**
   A borrow price window cannot replace the current prices: with ten units held of an asset and one
   owed, at a current price of one and a window high of two, the window alone would lend 34 of the
   valuation asset where current prices lend 17, and leave the account below a level of 1.3.
   */
  lemma WindowAloneWouldReachLiquidation(c: Config, asset: Asset, m: Market)
    requires asset != c.valuation && c.maxLeverage == 3.0
    requires c.liquidation.Some? && c.liquidation.value.level == 1.3
    requires c.BorrowRatio(asset) == 1.0 == c.LiquidationRatio(asset)
    requires PositiveQuotes(m) && m(asset) == Some(Quote(1.0, None, Some(2.0)))
    ensures var held, cash := [Balance(asset, 10.0, 1.0)], c.valuation;
            && Positive(PricesAt(cash, m, Window(cash)))
            && RoomAt(c, cash, held, PricesAt(cash, m, Window(cash))) == Some(34.0)
            && LeverageRoom(c, cash, held, m, true) == Some(17.0)
            && Liquidates(c, Lend(held, cash, 34.0), PricesAt(cash, m, Current))
  {
    var cash := c.valuation;
    var current, window := PricesAt(cash, m, Current), PricesAt(cash, m, Window(cash));
    var b, l := Balance(asset, 10.0, 1.0), Balance(cash, 34.0, 34.0);
    PricesArePositive(cash, m, Current);
    PricesArePositive(cash, m, Window(cash));
    OneBalanceIsWorth(c, BorrowCheck, b, current);
    OneBalanceIsWorth(c, BorrowCheck, b, window);
    assert Value(c, BorrowCheck, [b], current) == Some(Valued(9.0, 1.0));
    assert Value(c, BorrowCheck, [b], window) == Some(Valued(18.0, 2.0));
    assert DebtLimit(3.0, 9.0) == 18.0 && DebtLimit(3.0, 18.0) == 36.0;
    assert Lend([b][..0], cash, 34.0) == [l] && Lend([b], cash, 34.0) == [l] + [b];
    OneBalanceIsWorth(c, LiquidationCheck, b, current);
    OneBalanceIsWorth(c, LiquidationCheck, l, current);
    AccountsAddUp(c, LiquidationCheck, [l], [b], current);
    assert Value(c, LiquidationCheck, [l] + [b], current) == Some(Valued(9.0, 35.0));
  }
}
