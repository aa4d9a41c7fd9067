/**
 The simulated venue's spot margin configuration: which ones are accepted, and in what form one is
 kept. Amounts are exact rationals inside `real`.

 An asset is the position of its name in name order, so that the first asset at fault is the least.
 */
module SpotMarginConfig {
  import opened Wrappers

  type Asset = nat

  datatype MarginEffect = NoSideEffect | Borrow | Repay

  datatype ConfigError =
    | LeverageBelowOne(leverage: real)
    | NegativeMinBorrow(asset: Asset, amount: real)
    | NegativeMaxBorrow(asset: Asset, amount: real)
    | CollateralRatioOutOfRange(asset: Asset, ratio: real)
    | LiquidationRatioBelowBorrowRatio(asset: Asset, borrow: real, liquidation: real)
    | BorrowPriceWindowInvalid(millis: int)
    | LiquidationLevelBelowOne(level: real)
    | LiquidationFeeOutOfRange(rate: real)
    | MarginCallNotAboveLiquidation(call: real, level: real)
    | LiquidationWithinLeverage(level: real, leverage: real)

  // ------------------------------------------------------------------------------ liquidation

  datatype Liquidation = Liquidation(level: real, feeRate: real, marginCall: Option<real>) {

    function Validated(): Result<Liquidation, ConfigError> {
      if level < 1.0 then Err(LiquidationLevelBelowOne(level))
      else if feeRate < 0.0 || feeRate >= 1.0 then Err(LiquidationFeeOutOfRange(feeRate))
      else if marginCall.Some? && marginCall.value <= level
      then Err(MarginCallNotAboveLiquidation(marginCall.value, level))
      else Ok(this)
    }

    predicate Valid() {
      Validated().Ok?
    }
  }

  // ------------------------------------------------------------------------------ the configuration

  type Amounts = map<Asset, real>

  function RatioOf(ratios: Amounts, asset: Asset): real {
    if asset in ratios then ratios[asset] else 1.0
  }

  /** The first asset of `amounts`, in name order, that `p` holds of. */
  ghost function FirstAsset(amounts: Amounts, p: Asset -> bool): (r: Option<Asset>)
    ensures r.Some? ==> r.value in amounts && p(r.value)
    ensures r.Some? ==> forall a :: a in amounts && p(a) ==> r.value <= a
    ensures r.None? ==> forall a :: a in amounts ==> !p(a)
  {
    var bad := set a | a in amounts && p(a);
    assert forall a :: a in amounts && p(a) ==> a in bad;
    if bad == {} then None else Some(Least(bad))
  }

  ghost function Least(assets: set<Asset>): (r: Asset)
    requires assets != {}
    ensures r in assets && forall a :: a in assets ==> r <= a
    decreases assets
  {
    var x :| x in assets;
    if assets == {x} then x
    else
      var y := Least(assets - {x});
      assert forall a :: a in assets ==> a == x || a in assets - {x};
      if x < y then x else y
  }

  datatype Config = Config(
    valuation: Asset,
    maxLeverage: real,
    effect: MarginEffect,
    autoRepay: bool,
    minBorrow: Amounts,
    maxBorrow: Amounts,
    borrowRatio: Amounts,
    liquidationRatio: Amounts,
    windowMillis: Option<int>,
    liquidation: Option<Liquidation>)
  {
    function MinBorrow(asset: Asset): real {
      if asset in minBorrow then minBorrow[asset] else 0.0
    }

    function MaxBorrow(asset: Asset): Option<real> {
      if asset in maxBorrow then Some(maxBorrow[asset]) else None
    }

    function BorrowRatio(asset: Asset): real {
      RatioOf(borrowRatio, asset)
    }

    function LiquidationRatio(asset: Asset): real {
      RatioOf(liquidationRatio, asset)
    }

    /** The configuration with what it does not need to say dropped. */
    function Canonical(): Config {
      this.(
        minBorrow := map a | a in minBorrow && minBorrow[a] != 0.0 :: minBorrow[a],
        borrowRatio := map a | a in borrowRatio && borrowRatio[a] != 1.0 :: borrowRatio[a],
        liquidationRatio :=
          map a | a in liquidationRatio && liquidationRatio[a] != 1.0 :: liquidationRatio[a])
    }

    /** Whether `asset`'s liquidation ratio is below its borrow ratio. */
    function RatiosInverted(): Asset -> bool {
      (asset: Asset) => LiquidationRatio(asset) < BorrowRatio(asset)
    }

    /** What is wrong with the leverage or a loan's bounds, if anything. */
    ghost function AmountFault(): Option<ConfigError> {
      var min := FirstAsset(minBorrow, Negative(minBorrow));
      var max := FirstAsset(maxBorrow, Negative(maxBorrow));
      if maxLeverage < 1.0 then Some(LeverageBelowOne(maxLeverage))
      else if min.Some? then Some(NegativeMinBorrow(min.value, minBorrow[min.value]))
      else if max.Some? then Some(NegativeMaxBorrow(max.value, maxBorrow[max.value]))
      else None
    }

    /** What is wrong with the ratios, if anything. */
    ghost function RatioFault(): Option<ConfigError> {
      var borrow := FirstAsset(borrowRatio, OutOfRange(borrowRatio));
      var liquidate := FirstAsset(liquidationRatio, OutOfRange(liquidationRatio));
      var inverted := FirstAsset(borrowRatio, RatiosInverted());
      var invertedToo := FirstAsset(liquidationRatio, RatiosInverted());
      if borrow.Some?
      then Some(CollateralRatioOutOfRange(borrow.value, borrowRatio[borrow.value]))
      else if liquidate.Some?
      then Some(CollateralRatioOutOfRange(liquidate.value, liquidationRatio[liquidate.value]))
      else if inverted.Some? then Some(Inverted(inverted.value))
      else if invertedToo.Some? then Some(Inverted(invertedToo.value))
      else None
    }

    /** What is wrong with the window, or with a valid liquidation at this leverage, if anything. */
    function VenueFault(): Option<ConfigError> {
      if windowMillis.Some? && windowMillis.value <= 0
      then Some(BorrowPriceWindowInvalid(windowMillis.value))
      else if liquidation.Some? && liquidation.value.level * (maxLeverage - 1.0) >= maxLeverage
      then Some(LiquidationWithinLeverage(liquidation.value.level, maxLeverage))
      else None
    }

    /** The checks in order, on a configuration whose liquidation, if any, is a valid one. */
    ghost function Validated(): Result<Config, ConfigError> {
      if AmountFault().Some? then Err(AmountFault().value)
      else if RatioFault().Some? then Err(RatioFault().value)
      else if VenueFault().Some? then Err(VenueFault().value)
      else Ok(Canonical())
    }

    function Inverted(asset: Asset): ConfigError {
      LiquidationRatioBelowBorrowRatio(asset, BorrowRatio(asset), LiquidationRatio(asset))
    }

    /** What every configuration that exists meets, read through its getters. */
    ghost predicate Valid() {
      && maxLeverage >= 1.0
      && (forall a :: MinBorrow(a) >= 0.0)
      && (forall a :: a in maxBorrow ==> maxBorrow[a] >= 0.0)
      && (forall a :: 0.0 <= BorrowRatio(a) <= LiquidationRatio(a) <= 1.0)
      && (windowMillis.Some? ==> windowMillis.value > 0)
      && (liquidation.Some? ==>
            liquidation.value.Valid() && liquidation.value.level * (maxLeverage - 1.0) < maxLeverage)
    }

    // The builders insert and validate the whole configuration again.

    ghost function WithBorrowRatio(asset: Asset, ratio: real): Result<Config, ConfigError> {
      this.(borrowRatio := borrowRatio[asset := ratio]).Validated()
    }

    ghost function WithLiquidationRatio(asset: Asset, ratio: real): Result<Config, ConfigError> {
      this.(liquidationRatio := liquidationRatio[asset := ratio]).Validated()
    }

    ghost function WithRatios(asset: Asset, borrow: real, liquidate: real)
      : Result<Config, ConfigError>
    {
      this.(borrowRatio := borrowRatio[asset := borrow],
            liquidationRatio := liquidationRatio[asset := liquidate]).Validated()
    }

    ghost function WithMinBorrow(asset: Asset, amount: real): Result<Config, ConfigError> {
      this.(minBorrow := minBorrow[asset := amount]).Validated()
    }

    ghost function WithMaxBorrow(asset: Asset, amount: real): Result<Config, ConfigError> {
      this.(maxBorrow := maxBorrow[asset := amount]).Validated()
    }

    ghost function WithLiquidation(liquidate: Liquidation): Result<Config, ConfigError> {
      this.(liquidation := Some(liquidate)).Validated()
    }
  }

  function Negative(amounts: Amounts): Asset -> bool {
    (asset: Asset) => asset in amounts && amounts[asset] < 0.0
  }

  function OutOfRange(ratios: Amounts): Asset -> bool {
    (asset: Asset) => asset in ratios && !(0.0 <= ratios[asset] <= 1.0)
  }

  /** Validation accepts exactly the configurations it should, and changes no getter of one. */
  lemma ValidationIsExact(c: Config)
    requires c.liquidation.Some? ==> c.liquidation.value.Valid()
    ensures c.Validated().Ok? <==> c.Valid()
    ensures c.Validated().Ok? ==> c.Validated().value == c.Canonical()
    ensures c.Valid() ==> c.Canonical().Valid()
  {
    if c.Validated().Ok? {
      AcceptedIsValid(c);
    }
    if c.Valid() {
      ValidIsAccepted(c);
      CanonicalKeepsGetters(c);
    }
  }

  lemma AcceptedIsValid(c: Config)
    requires c.Validated().Ok?
    requires c.liquidation.Some? ==> c.liquidation.value.Valid()
    ensures c.Valid()
  {
    forall a | a in c.maxBorrow
      ensures c.maxBorrow[a] >= 0.0
    {
      assert !Negative(c.maxBorrow)(a);
    }
    forall a
      ensures c.MinBorrow(a) >= 0.0 && 0.0 <= c.BorrowRatio(a) <= c.LiquidationRatio(a) <= 1.0
    {
      assert a in c.minBorrow ==> !Negative(c.minBorrow)(a);
      assert a in c.borrowRatio ==> !OutOfRange(c.borrowRatio)(a) && !c.RatiosInverted()(a);
      assert a in c.liquidationRatio ==>
          !OutOfRange(c.liquidationRatio)(a) && !c.RatiosInverted()(a);
    }
  }

  lemma ValidIsAccepted(c: Config)
    requires c.Valid()
    ensures c.Validated() == Ok(c.Canonical())
  {
    forall a
      ensures !c.RatiosInverted()(a)
      ensures a in c.borrowRatio ==> !OutOfRange(c.borrowRatio)(a)
      ensures a in c.liquidationRatio ==> !OutOfRange(c.liquidationRatio)(a)
      ensures !Negative(c.minBorrow)(a) && !Negative(c.maxBorrow)(a)
    {
      assert 0.0 <= c.BorrowRatio(a) <= c.LiquidationRatio(a) <= 1.0;
      assert c.MinBorrow(a) >= 0.0;
    }
  }

  /** `asset` is the first of the amounts, by name, below zero. */
  ghost predicate IsFirstNegative(amounts: Amounts, asset: Asset, amount: real) {
    && asset in amounts && amounts[asset] == amount < 0.0
    && forall a :: a in amounts && a < asset ==> amounts[a] >= 0.0
  }

  ghost predicate NoneNegative(amounts: Amounts) {
    forall a :: a in amounts ==> amounts[a] >= 0.0
  }

  lemma FirstNegative(amounts: Amounts)
    ensures match FirstAsset(amounts, Negative(amounts))
            case None => NoneNegative(amounts)
            case Some(a) => a in amounts && IsFirstNegative(amounts, a, amounts[a])
  {
    assert forall a :: a in amounts && !Negative(amounts)(a) ==> amounts[a] >= 0.0;
  }

  ghost predicate IsFirstOutOfRange(ratios: Amounts, asset: Asset, ratio: real) {
    && asset in ratios && ratios[asset] == ratio && (ratio < 0.0 || ratio > 1.0)
    && forall a :: a in ratios && a < asset ==> 0.0 <= ratios[a] <= 1.0
  }

  ghost predicate AllInRange(ratios: Amounts) {
    forall a :: a in ratios ==> 0.0 <= ratios[a] <= 1.0
  }

  lemma FirstOutOfRange(ratios: Amounts)
    ensures match FirstAsset(ratios, OutOfRange(ratios))
            case None => AllInRange(ratios)
            case Some(a) => a in ratios && IsFirstOutOfRange(ratios, a, ratios[a])
  {
    assert forall a :: a in ratios && !OutOfRange(ratios)(a) ==> 0.0 <= ratios[a] <= 1.0;
  }

  /** No asset of `among` has its liquidation ratio below its borrow ratio. */
  ghost predicate NoneInverted(c: Config, among: Amounts) {
    forall a :: a in among ==> c.BorrowRatio(a) <= c.LiquidationRatio(a)
  }

  ghost predicate IsFirstInverted(c: Config, among: Amounts, asset: Asset) {
    && asset in among && c.LiquidationRatio(asset) < c.BorrowRatio(asset)
    && forall a :: a in among && a < asset ==> c.BorrowRatio(a) <= c.LiquidationRatio(a)
  }

  lemma FirstInverted(c: Config, among: Amounts)
    ensures match FirstAsset(among, c.RatiosInverted())
            case None => NoneInverted(c, among)
            case Some(a) => IsFirstInverted(c, among, a)
  {
    assert forall a :: a in among && !c.RatiosInverted()(a) ==>
        c.BorrowRatio(a) <= c.LiquidationRatio(a);
  }

  ghost predicate AmountsPass(c: Config) {
    c.maxLeverage >= 1.0 && NoneNegative(c.minBorrow) && NoneNegative(c.maxBorrow)
  }

  ghost predicate RatiosPass(c: Config) {
    && AllInRange(c.borrowRatio) && AllInRange(c.liquidationRatio)
    && NoneInverted(c, c.borrowRatio) && NoneInverted(c, c.liquidationRatio)
  }

  /** The first fault there is, of the checks in order and of the assets by name. */
  ghost predicate IsFirstFault(c: Config, error: ConfigError) {
    match error
    case LeverageBelowOne(x) => x == c.maxLeverage < 1.0
    case NegativeMinBorrow(a, x) => c.maxLeverage >= 1.0 && IsFirstNegative(c.minBorrow, a, x)
    case NegativeMaxBorrow(a, x) =>
      c.maxLeverage >= 1.0 && NoneNegative(c.minBorrow) && IsFirstNegative(c.maxBorrow, a, x)
    case CollateralRatioOutOfRange(a, x) =>
      && AmountsPass(c)
      && if AllInRange(c.borrowRatio) then IsFirstOutOfRange(c.liquidationRatio, a, x)
         else IsFirstOutOfRange(c.borrowRatio, a, x)
    case LiquidationRatioBelowBorrowRatio(a, x, y) =>
      && AmountsPass(c) && AllInRange(c.borrowRatio) && AllInRange(c.liquidationRatio)
      && x == c.BorrowRatio(a) && y == c.LiquidationRatio(a)
      && if NoneInverted(c, c.borrowRatio) then IsFirstInverted(c, c.liquidationRatio, a)
         else IsFirstInverted(c, c.borrowRatio, a)
    case BorrowPriceWindowInvalid(ms) =>
      AmountsPass(c) && RatiosPass(c) && c.windowMillis == Some(ms) && ms <= 0
    case LiquidationWithinLeverage(x, y) =>
      && AmountsPass(c) && RatiosPass(c)
      && (c.windowMillis.Some? ==> c.windowMillis.value > 0)
      && c.liquidation.Some? && x == c.liquidation.value.level && y == c.maxLeverage
      && x * (y - 1.0) >= y
    case _ => false
  }

  /** A refusal names the first fault. */
  lemma ErrorIsTheFirstFault(c: Config)
    requires c.Validated().Err?
    ensures IsFirstFault(c, c.Validated().error)
  {
    AmountFaultIsFirst(c);
    RatioFaultIsFirst(c);
  }

  lemma AmountFaultIsFirst(c: Config)
    ensures if c.AmountFault().Some? then IsFirstFault(c, c.AmountFault().value) else AmountsPass(c)
  {
    FirstNegative(c.minBorrow);
    FirstNegative(c.maxBorrow);
  }

  lemma RatioFaultIsFirst(c: Config)
    ensures c.RatioFault().None? ==> RatiosPass(c)
    ensures AmountsPass(c) && c.RatioFault().Some? ==> IsFirstFault(c, c.RatioFault().value)
  {
    FirstOutOfRange(c.borrowRatio);
    FirstOutOfRange(c.liquidationRatio);
    FirstInverted(c, c.borrowRatio);
    FirstInverted(c, c.liquidationRatio);
  }

  /** A liquidation is accepted exactly in these ranges, and an error is the first it is out of. */
  lemma LiquidationIsExact(l: Liquidation)
    ensures l.Valid() <==> && l.level >= 1.0 && 0.0 <= l.feeRate < 1.0
                           && (l.marginCall.Some? ==> l.marginCall.value > l.level)
    ensures l.Valid() ==> l.Validated() == Ok(l)
    ensures !l.Valid() ==>
              match l.Validated().error
              case LiquidationLevelBelowOne(x) => x == l.level < 1.0
              case LiquidationFeeOutOfRange(x) => l.level >= 1.0 && x == l.feeRate && !(0.0 <= x < 1.0)
              case MarginCallNotAboveLiquidation(x, y) =>
                && l.level >= 1.0 && 0.0 <= l.feeRate < 1.0
                && l.marginCall == Some(x) && y == l.level && x <= y
              case _ => false
  {
  }

  lemma CanonicalKeepsGetters(c: Config)
    ensures forall a :: c.Canonical().MinBorrow(a) == c.MinBorrow(a)
    ensures forall a :: c.Canonical().BorrowRatio(a) == c.BorrowRatio(a)
    ensures forall a :: c.Canonical().LiquidationRatio(a) == c.LiquidationRatio(a)
    ensures c.Canonical().Canonical() == c.Canonical()
  {
  }

  /** Two configurations are the same lending policy, asset by asset. */
  ghost predicate LendsAlike(c: Config, d: Config) {
    && c.valuation == d.valuation && c.maxLeverage == d.maxLeverage
    && c.effect == d.effect && c.autoRepay == d.autoRepay
    && c.windowMillis == d.windowMillis && c.liquidation == d.liquidation
    && (forall a :: c.MinBorrow(a) == d.MinBorrow(a))
    && (forall a :: c.MaxBorrow(a) == d.MaxBorrow(a))
    && (forall a :: c.BorrowRatio(a) == d.BorrowRatio(a))
    && (forall a :: c.LiquidationRatio(a) == d.LiquidationRatio(a))
  }

  /** Two accepted configurations that lend alike compare equal. */
  lemma LendingAlikeIsEqual(c: Config, d: Config)
    requires LendsAlike(c, d)
    ensures c.Canonical() == d.Canonical()
  {
    var x, y := c.Canonical(), d.Canonical();
    forall a
      ensures a in x.minBorrow <==> a in y.minBorrow
      ensures a in x.minBorrow ==> x.minBorrow[a] == y.minBorrow[a]
      ensures a in x.maxBorrow <==> a in y.maxBorrow
      ensures a in x.maxBorrow ==> x.maxBorrow[a] == y.maxBorrow[a]
    {
      assert c.MinBorrow(a) == d.MinBorrow(a) && c.MaxBorrow(a) == d.MaxBorrow(a);
    }
    forall a
      ensures a in x.borrowRatio <==> a in y.borrowRatio
      ensures a in x.borrowRatio ==> x.borrowRatio[a] == y.borrowRatio[a]
      ensures a in x.liquidationRatio <==> a in y.liquidationRatio
      ensures a in x.liquidationRatio ==> x.liquidationRatio[a] == y.liquidationRatio[a]
    {
      assert c.BorrowRatio(a) == d.BorrowRatio(a);
      assert c.LiquidationRatio(a) == d.LiquidationRatio(a);
    }
    assert x.minBorrow == y.minBorrow && x.maxBorrow == y.maxBorrow;
    assert x.borrowRatio == y.borrowRatio && x.liquidationRatio == y.liquidationRatio;
  }

  /** The canonical form keeps everything the policy is made of, so equal forms lend alike. */
  lemma EqualIsLendingAlike(c: Config, d: Config)
    requires c.Canonical() == d.Canonical()
    ensures LendsAlike(c, d)
  {
    CanonicalKeepsGetters(c);
    CanonicalKeepsGetters(d);
    forall a
      ensures c.MinBorrow(a) == d.MinBorrow(a) && c.MaxBorrow(a) == d.MaxBorrow(a)
      ensures c.BorrowRatio(a) == d.BorrowRatio(a) && c.LiquidationRatio(a) == d.LiquidationRatio(a)
    {
      assert c.Canonical().MinBorrow(a) == d.Canonical().MinBorrow(a);
      assert c.Canonical().BorrowRatio(a) == d.Canonical().BorrowRatio(a);
      assert c.Canonical().LiquidationRatio(a) == d.Canonical().LiquidationRatio(a);
      assert c.Canonical().MaxBorrow(a) == c.MaxBorrow(a);
      assert d.Canonical().MaxBorrow(a) == d.MaxBorrow(a);
    }
  }

  /** Saving an accepted configuration and loading it gives it back. */
  lemma LoadingWhatWasSaved(c: Config)
    requires c.Valid()
    ensures c.Canonical().Validated() == Ok(c.Canonical())
  {
    ValidationIsExact(c);
    ValidationIsExact(c.Canonical());
    CanonicalKeepsGetters(c);
  }

  /** `d` lends as `c` does, but for the two ratios of `asset`. */
  ghost predicate DiffersInRatios(c: Config, d: Config, asset: Asset, borrow: real, liquidate: real) {
    && d.BorrowRatio(asset) == borrow && d.LiquidationRatio(asset) == liquidate
    && (forall a :: a != asset ==> d.BorrowRatio(a) == c.BorrowRatio(a))
    && (forall a :: a != asset ==> d.LiquidationRatio(a) == c.LiquidationRatio(a))
    && (forall a :: d.MinBorrow(a) == c.MinBorrow(a))
    && d == c.(minBorrow := d.minBorrow, borrowRatio := d.borrowRatio,
               liquidationRatio := d.liquidationRatio)
  }

  /** On a valid configuration, validating it all again refuses only what a new ratio gets wrong. */
  lemma BorrowRatioBuilderIsLocal(c: Config, asset: Asset, ratio: real)
    requires c.Valid()
    ensures c.WithBorrowRatio(asset, ratio).Ok? <==> 0.0 <= ratio <= c.LiquidationRatio(asset)
    ensures c.WithBorrowRatio(asset, ratio).Ok? ==>
              DiffersInRatios(
                c, c.WithBorrowRatio(asset, ratio).value, asset, ratio, c.LiquidationRatio(asset))
  {
    RatiosAreLocal(
      c, c.(borrowRatio := c.borrowRatio[asset := ratio]), asset, ratio, c.LiquidationRatio(asset));
  }

  lemma LiquidationRatioBuilderIsLocal(c: Config, asset: Asset, ratio: real)
    requires c.Valid()
    ensures c.WithLiquidationRatio(asset, ratio).Ok? <==> c.BorrowRatio(asset) <= ratio <= 1.0
    ensures c.WithLiquidationRatio(asset, ratio).Ok? ==>
              DiffersInRatios(
                c, c.WithLiquidationRatio(asset, ratio).value, asset, c.BorrowRatio(asset), ratio)
  {
    RatiosAreLocal(
      c, c.(liquidationRatio := c.liquidationRatio[asset := ratio]),
      asset, c.BorrowRatio(asset), ratio);
  }

  /** Setting both ratios at once does not depend on the ones they replace. */
  lemma RatiosBuilderIsLocal(c: Config, asset: Asset, borrow: real, liquidate: real)
    requires c.Valid()
    ensures c.WithRatios(asset, borrow, liquidate).Ok? <==> 0.0 <= borrow <= liquidate <= 1.0
    ensures c.WithRatios(asset, borrow, liquidate).Ok? ==>
              DiffersInRatios(
                c, c.WithRatios(asset, borrow, liquidate).value, asset, borrow, liquidate)
  {
    RatiosAreLocal(
      c, c.(borrowRatio := c.borrowRatio[asset := borrow],
            liquidationRatio := c.liquidationRatio[asset := liquidate]), asset, borrow, liquidate);
  }

  lemma RatiosAreLocal(c: Config, d: Config, asset: Asset, borrow: real, liquidate: real)
    requires c.Valid() && DiffersInRatios(c, d, asset, borrow, liquidate)
    ensures d.Validated().Ok? <==> 0.0 <= borrow <= liquidate <= 1.0
    ensures d.Validated().Ok? ==> DiffersInRatios(c, d.Validated().value, asset, borrow, liquidate)
  {
    ValidationIsExact(d);
    CanonicalKeepsGetters(d);
    if 0.0 <= borrow <= liquidate <= 1.0 {
      forall a
        ensures 0.0 <= d.BorrowRatio(a) <= d.LiquidationRatio(a) <= 1.0 && d.MinBorrow(a) >= 0.0
      {
        assert 0.0 <= c.BorrowRatio(a) <= c.LiquidationRatio(a) <= 1.0 && c.MinBorrow(a) >= 0.0;
      }
    }
  }

  /** `d` has the ratios `c` has. */
  ghost predicate SameRatios(c: Config, d: Config) {
    && (forall a :: d.BorrowRatio(a) == c.BorrowRatio(a))
    && (forall a :: d.LiquidationRatio(a) == c.LiquidationRatio(a))
  }

  /** A least loan is refused only below zero, and changes no other asset's. */
  lemma MinBorrowBuilderIsLocal(c: Config, asset: Asset, amount: real)
    requires c.Valid()
    ensures c.WithMinBorrow(asset, amount).Ok? <==> amount >= 0.0
    ensures c.WithMinBorrow(asset, amount).Ok? ==>
              var d := c.WithMinBorrow(asset, amount).value;
              && (forall a :: d.MinBorrow(a) == if a == asset then amount else c.MinBorrow(a))
              && LendsAlike(d.(minBorrow := c.minBorrow), c)
  {
    var d := c.(minBorrow := c.minBorrow[asset := amount]);
    ValidationIsExact(d);
    CanonicalKeepsGetters(d);
    assert SameRatios(c, d);
    forall a
      ensures d.MinBorrow(a) == if a == asset then amount else c.MinBorrow(a)
    {
    }
    assert d.MinBorrow(asset) == amount;
    assert SameRatios(c, d.Canonical());
    KeptElsewhere(c, d.Canonical().(minBorrow := c.minBorrow), d.Canonical());
  }

  /** A most that may be owed is refused only below zero, and changes no other asset's. */
  lemma MaxBorrowBuilderIsLocal(c: Config, asset: Asset, amount: real)
    requires c.Valid()
    ensures c.WithMaxBorrow(asset, amount).Ok? <==> amount >= 0.0
    ensures c.WithMaxBorrow(asset, amount).Ok? ==>
              var d := c.WithMaxBorrow(asset, amount).value;
              && (forall a :: d.MaxBorrow(a) == if a == asset then Some(amount) else c.MaxBorrow(a))
              && LendsAlike(d.(maxBorrow := c.maxBorrow), c)
  {
    var d := c.(maxBorrow := c.maxBorrow[asset := amount]);
    ValidationIsExact(d);
    assert SameRatios(c, d);
    assert forall a :: d.MinBorrow(a) == c.MinBorrow(a);
    assert d.maxBorrow[asset] == amount;
    CanonicalKeepsGetters(d);
    assert SameRatios(c, d.Canonical());
    KeptElsewhere(c, d.Canonical().(maxBorrow := c.maxBorrow), d.Canonical());
  }

  /** A valid liquidation is refused only when an account borrowed to the limit would be at it. */
  lemma LiquidationBuilderIsLocal(c: Config, liquidate: Liquidation)
    requires c.Valid() && liquidate.Valid()
    ensures c.WithLiquidation(liquidate).Ok?
            <==> liquidate.level * (c.maxLeverage - 1.0) < c.maxLeverage
    ensures c.WithLiquidation(liquidate).Ok? ==>
              var d := c.WithLiquidation(liquidate).value;
              d.liquidation == Some(liquidate) && LendsAlike(d.(liquidation := c.liquidation), c)
  {
    var d := c.(liquidation := Some(liquidate));
    ValidationIsExact(d);
    CanonicalKeepsGetters(d);
    assert SameRatios(c, d) && SameRatios(c, d.Canonical());
    assert forall a :: d.MinBorrow(a) == c.MinBorrow(a);
    KeptElsewhere(c, d.Canonical().(liquidation := c.liquidation), d.Canonical());
  }

  /** A configuration put back in one field, with the getters there were, lends as it did. */
  lemma KeptElsewhere(c: Config, d: Config, e: Config)
    requires c.valuation == d.valuation && c.maxLeverage == d.maxLeverage
    requires c.effect == d.effect && c.autoRepay == d.autoRepay
    requires c.windowMillis == d.windowMillis && c.liquidation == d.liquidation
    requires d.minBorrow == c.minBorrow || d.minBorrow == e.minBorrow
    requires d.maxBorrow == c.maxBorrow || d.maxBorrow == e.maxBorrow
    requires d.minBorrow == e.minBorrow ==> forall a :: e.MinBorrow(a) == c.MinBorrow(a)
    requires d.maxBorrow == e.maxBorrow ==> forall a :: e.MaxBorrow(a) == c.MaxBorrow(a)
    requires d.borrowRatio == e.borrowRatio && d.liquidationRatio == e.liquidationRatio
    requires SameRatios(c, e)
    ensures LendsAlike(d, c)
  {
    forall a
      ensures c.MinBorrow(a) == d.MinBorrow(a) && c.MaxBorrow(a) == d.MaxBorrow(a)
      ensures c.BorrowRatio(a) == d.BorrowRatio(a) && c.LiquidationRatio(a) == d.LiquidationRatio(a)
    {
      assert e.BorrowRatio(a) == c.BorrowRatio(a) && e.LiquidationRatio(a) == c.LiquidationRatio(a);
      assert d.minBorrow == e.minBorrow ==> d.MinBorrow(a) == e.MinBorrow(a) == c.MinBorrow(a);
      assert d.maxBorrow == e.maxBorrow ==> d.MaxBorrow(a) == e.MaxBorrow(a) == c.MaxBorrow(a);
    }
  }
}
