/** An instrument's order rules, the check of an order against them, and rounding a quantity to them. */
module OrderRules {
  import opened Decimals
  import opened GridRounding
  import opened SharedGrid
  import opened Wrappers

  datatype Field = Price | TriggerPrice | TrailingOffset | Quantity | Notional

  datatype Bound = Min | Max

  datatype OrderError =
    | NotOnGrid(field: Field, value: Decimal, step: Decimal)
    | OutOfBounds(field: Field, bound: Bound, limit: Decimal, value: Decimal)

  type Verdict = Result<(), OrderError>

  datatype ValueRule = ValueRule(min: Option<Decimal>, max: Option<Decimal>, step: Option<Decimal>) {

    /** The step when it makes a grid: one set to zero or below by hand is none. */
    function Grid(): (r: Option<Decimal>)
      ensures r.Some? ==> r.value.mantissa > 0
    {
      if step.Some? && step.value.mantissa > 0 then step else None
    }

    /** The first rule `value` breaks, grid before range, if any. */
    function Check(field: Field, value: Decimal): Verdict {
      if Grid().Some? && Rem(value, Grid().value).mantissa != 0
      then Err(NotOnGrid(field, value, Grid().value))
      else if min.Some? && Units(value) < Units(min.value)
      then Err(OutOfBounds(field, Min, min.value, value))
      else if max.Some? && Units(value) > Units(max.value)
      then Err(OutOfBounds(field, Max, max.value, value))
      else Ok(())
    }

    /** `units` is a whole multiple of the step, if there is a positive one. */
    ghost predicate Allows(units: int) {
      step.Some? && Units(step.value) > 0 ==> units % Units(step.value) == 0
    }

    ghost predicate OnGrid(value: Decimal) {
      Allows(Units(value))
    }

    ghost predicate InRange(value: Decimal) {
      && (min.Some? ==> Units(min.value) <= Units(value))
      && (max.Some? ==> Units(value) <= Units(max.value))
    }
  }

  datatype Side = Buy | Sell

  datatype OffsetType = Absolute | Percentage | BasisPoints

  datatype Family = StopFamily | StopLimitFamily | TakeProfitFamily | TakeProfitLimitFamily {
    /** Whether orders of this family carry a limit price. */
    predicate HasLimitPrice() {
      StopLimitFamily? || TakeProfitLimitFamily?
    }
  }

  datatype OrderKind =
    | Market
    | Limit
    | Stop(trigger: Decimal)
    | StopLimit(trigger: Decimal)
    | TakeProfit(trigger: Decimal)
    | TakeProfitLimit(trigger: Decimal)
    | TrailingStop(offset: Decimal, offsetType: OffsetType, activation: Option<Decimal>)
    | TrailingStopLimit(offset: Decimal, offsetType: OffsetType)
    | TrailingStopFixedLimit(offset: Decimal, offsetType: OffsetType, activation: Option<Decimal>)
    | ConditionalUnresolved(family: Family, maybeTrigger: Option<Decimal>)
  {
    predicate IsTrailing() {
      TrailingStop? || TrailingStopLimit? || TrailingStopFixedLimit?
    }
  }

  datatype OrderRules = OrderRules(
    price: ValueRule,
    quantity: ValueRule,
    marketQuantity: ValueRule,
    notional: ValueRule,
    trailingAbove: ValueRule,
    trailingBelow: ValueRule)
  {
    /** The step an order of `kind`'s quantity must be a multiple of, if any, if a decimal holds it. */
    function QuantityGrid(kind: OrderKind): (r: Option<Option<Decimal>>)
      ensures r.Some? && r.value.Some? ==> r.value.value.mantissa > 0
    {
      if !kind.Market? then Some(quantity.Grid())
      else
        match (quantity.Grid(), marketQuantity.Grid())
        case (Some(a), Some(b)) =>
          CommonStepIsTheSharedGrid(a, b);
          var common := CommonStep(a, b);
          if common.None? then None else Some(Some(common.value))
        case (step, None) => Some(step)
        case (None, step) => Some(step)
    }

    function RoundQuantityDown(ar: Arith, kind: OrderKind, value: Decimal): Option<Decimal> {
      var grid := QuantityGrid(kind);
      if grid.None? then None else RoundDownTo(ar, value, grid.value)
    }

    function RoundQuantityUp(ar: Arith, kind: OrderKind, value: Decimal): Option<Decimal> {
      var grid := QuantityGrid(kind);
      if grid.None? then None else RoundUpTo(ar, value, grid.value)
    }

    function CheckTrailingOffset(ar: Arith, side: Side, kind: OrderKind): Verdict {
      if kind.IsTrailing() then
        var points := if side.Buy? then trailingAbove else trailingBelow;
        match kind.offsetType
        case BasisPoints => points.(step := None).Check(TrailingOffset, kind.offset)
        case Percentage =>
          ValueRule(Percent(ar, points.min), Percent(ar, points.max), None)
            .Check(TrailingOffset, kind.offset)
        case Absolute => Ok(())
      else Ok(())
    }

    /** The first rule an order breaks: its prices, its offset, its quantity, its notional. */
    function Check(ar: Arith, side: Side, kind: OrderKind, price: Option<Decimal>, size: Decimal)
      : Verdict
    {
      var (limit, trigger, ownLimit) :=
        match kind
        case Market => (None, None, false)
        case Limit => (price, None, true)
        case Stop(t) => (None, Some(t), false)
        case TakeProfit(t) => (None, Some(t), false)
        case StopLimit(t) => (price, Some(t), true)
        case TakeProfitLimit(t) => (price, Some(t), true)
        case TrailingStop(_, _, activation) => (None, activation, false)
        case TrailingStopFixedLimit(_, _, activation) => (price, activation, true)
        case TrailingStopLimit(_, _) => (None, None, false)
        case ConditionalUnresolved(family, t) =>
          (if family.HasLimitPrice() then price else None, t, family.HasLimitPrice());
      var _ :- if limit.Some? then this.price.Check(Price, limit.value) else Ok(());
      var _ :- if trigger.Some? then this.price.Check(TriggerPrice, trigger.value) else Ok(());
      var _ :- CheckTrailingOffset(ar, side, kind);
      var _ :- quantity.Check(Quantity, size);
      var _ :- if kind.Market? then marketQuantity.Check(Quantity, size) else Ok(());
      if limit.Some? && ownLimit
      then notional.Check(Notional, ar.saturatingMul(limit.value, size))
      else Ok(())
    }
  }

  function Percent(ar: Arith, bound: Option<Decimal>): Option<Decimal> {
    if bound.None? then None else Some(ar.percent(bound.value))
  }

  // ------------------------------------------------------------------------------ one rule

  /** A rule passes exactly the values on its grid and in its range, and an error is a real breach. */
  lemma RuleIsItsGridAndRange(rule: ValueRule, field: Field, value: Decimal)
    ensures rule.Check(field, value).Ok? <==> rule.OnGrid(value) && rule.InRange(value)
    ensures rule.Check(field, value).Err? ==>
              match rule.Check(field, value).error
              case NotOnGrid(f, v, step) =>
                f == field && v == value && !rule.OnGrid(value) && rule.step == Some(step)
              case OutOfBounds(f, bound, limit, v) =>
                && f == field && v == value && rule.OnGrid(value) && !rule.InRange(value)
                && (bound.Min? ==> rule.min == Some(limit) && Units(value) < Units(limit))
                && (bound.Max? ==> rule.max == Some(limit) && Units(limit) < Units(value))
                && (bound.Max? && rule.min.Some? ==> Units(rule.min.value) <= Units(value))
  {
    if rule.step.Some? {
      AtSign(rule.step.value, MAX_SCALE);
    }
    if rule.Grid().Some? {
      RemIsZero(value, rule.Grid().value);
    }
  }

  // ------------------------------------------------------------------------------ quantities

  /** Both grids an order of `kind`'s quantity must sit on. */
  ghost predicate OnQuantityGrids(rules: OrderRules, kind: OrderKind, units: int) {
    rules.quantity.Allows(units) && (kind == Market ==> rules.marketQuantity.Allows(units))
  }

  ghost predicate OnStep(step: Option<Decimal>, units: int) {
    step.Some? ==> Units(step.value) > 0 && units % Units(step.value) == 0
  }

  /** One step has to be held for an order of `kind`: only a market order's two can fail to share one. */
  predicate GridIsHeld(rules: OrderRules, kind: OrderKind) {
    var a, b := rules.quantity.step, rules.marketQuantity.step;
    if kind == Market && a.Some? && b.Some? && a.value.mantissa > 0 && b.value.mantissa > 0 then
      var scale := Finer(a.value, b.value);
      AtSign(a.value, scale);
      AtSign(b.value, scale);
      Lcm(At(a.value, scale), At(b.value, scale)) < MANTISSA_END
    else true
  }

  /**
   There is a grid to round to exactly when the order is not a market order, or one of the two rules
   has no step, or a mantissa holds the two steps' least common multiple at the finer scale.
   */
  lemma QuantityGridExists(rules: OrderRules, kind: OrderKind)
    ensures rules.QuantityGrid(kind).Some? <==> GridIsHeld(rules, kind)
  {
    var a, b := rules.quantity.Grid(), rules.marketQuantity.Grid();
    if kind.Market? && a.Some? && b.Some? {
      CommonStepIsTheSharedGrid(a.value, b.value);
    }
  }

  /** The grid rounded to is exactly the values every rule's grid accepts. */
  lemma QuantityGridIsEveryGrid(rules: OrderRules, kind: OrderKind)
    requires GridIsHeld(rules, kind)
    ensures rules.QuantityGrid(kind).Some?
    ensures forall u :: OnStep(rules.QuantityGrid(kind).value, u) <==> OnQuantityGrids(rules, kind, u)
  {
    QuantityGridExists(rules, kind);
    var a, b := rules.quantity, rules.marketQuantity;
    if a.step.Some? {
      AtSign(a.step.value, MAX_SCALE);
    }
    if b.step.Some? {
      AtSign(b.step.value, MAX_SCALE);
    }
    if kind.Market? && a.Grid().Some? && b.Grid().Some? {
      CommonStepIsTheSharedGrid(a.step.value, b.step.value);
    }
  }

  predicate DownFits(value: Decimal, grid: Option<Decimal>)
    requires grid.Some? ==> grid.value.mantissa > 0
  {
    grid.Some? ==> DownHasRoom(value, grid.value)
  }

  predicate UpFits(value: Decimal, grid: Option<Decimal>)
    requires grid.Some? ==> grid.value.mantissa > 0
  {
    grid.Some? ==> UpHasRoom(value, grid.value)
  }

  /** Rounding down gives the greatest quantity at or below the value that every grid accepts. */
  lemma QuantityDownIsGreatest(rules: OrderRules, ar: Arith, kind: OrderKind, value: Decimal)
    requires ar.Exact() && GridIsHeld(rules, kind)
    requires rules.QuantityGrid(kind).Some? ==> DownFits(value, rules.QuantityGrid(kind).value)
    ensures rules.RoundQuantityDown(ar, kind, value).Some?
    ensures var r := Units(rules.RoundQuantityDown(ar, kind, value).value);
            && r <= Units(value) && OnQuantityGrids(rules, kind, r)
            && forall u :: OnQuantityGrids(rules, kind, u) && u <= Units(value) ==> u <= r
  {
    QuantityGridIsEveryGrid(rules, kind);
    var grid := rules.QuantityGrid(kind).value;
    if grid.Some? {
      RoundDownIsGreatest(ar, value, grid.value);
    }
    forall u | OnQuantityGrids(rules, kind, u) && u <= Units(value)
      ensures u <= Units(rules.RoundQuantityDown(ar, kind, value).value)
    {
      assert OnStep(grid, u);
    }
    assert OnStep(grid, Units(rules.RoundQuantityDown(ar, kind, value).value));
  }

  /** Rounding up gives the least quantity at or above the value that every grid accepts. */
  lemma QuantityUpIsLeast(rules: OrderRules, ar: Arith, kind: OrderKind, value: Decimal)
    requires ar.Exact() && GridIsHeld(rules, kind)
    requires rules.QuantityGrid(kind).Some? ==> UpFits(value, rules.QuantityGrid(kind).value)
    ensures rules.RoundQuantityUp(ar, kind, value).Some?
    ensures var r := Units(rules.RoundQuantityUp(ar, kind, value).value);
            && r >= Units(value) && OnQuantityGrids(rules, kind, r)
            && forall u :: OnQuantityGrids(rules, kind, u) && u >= Units(value) ==> u >= r
  {
    QuantityGridIsEveryGrid(rules, kind);
    var grid := rules.QuantityGrid(kind).value;
    if grid.Some? {
      RoundUpIsLeast(ar, value, grid.value);
    }
    forall u | OnQuantityGrids(rules, kind, u) && u >= Units(value)
      ensures u >= Units(rules.RoundQuantityUp(ar, kind, value).value)
    {
      assert OnStep(grid, u);
    }
    assert OnStep(grid, Units(rules.RoundQuantityUp(ar, kind, value).value));
  }

  /**
   A rounded quantity is a fixed point, and no check of it answers that it is off the grid, whatever
   the arithmetic rounded on the way.
   */
  lemma RoundedQuantityPassesTheGrids(
    rules: OrderRules, ar: Arith, side: Side, kind: OrderKind, price: Option<Decimal>, value: Decimal)
    ensures var down := rules.RoundQuantityDown(ar, kind, value);
            down.Some? ==>
              && rules.RoundQuantityDown(ar, kind, down.value) == down
              && NeverOffGrid(rules.Check(ar, side, kind, price, down.value))
    ensures var up := rules.RoundQuantityUp(ar, kind, value);
            up.Some? ==>
              && rules.RoundQuantityUp(ar, kind, up.value) == up
              && NeverOffGrid(rules.Check(ar, side, kind, price, up.value))
  {
    var grid := rules.QuantityGrid(kind);
    if grid.Some? {
      QuantityGridExists(rules, kind);
      QuantityGridIsEveryGrid(rules, kind);
      if grid.value.Some? {
        RoundingStaysOnGrid(ar, value, grid.value.value);
      }
      var down, up := rules.RoundQuantityDown(ar, kind, value), rules.RoundQuantityUp(ar, kind, value);
      if down.Some? {
        assert OnStep(grid.value, Units(down.value));
        OnGridsPassesGrids(rules, ar, side, kind, price, down.value);
      }
      if up.Some? {
        assert OnStep(grid.value, Units(up.value));
        OnGridsPassesGrids(rules, ar, side, kind, price, up.value);
      }
    }
  }

  /** The verdict is not that the quantity is off its grid. */
  predicate NeverOffGrid(verdict: Verdict) {
    verdict.Err? && verdict.error.NotOnGrid? ==> !verdict.error.field.Quantity?
  }

  lemma OnGridsPassesGrids(
    rules: OrderRules, ar: Arith, side: Side, kind: OrderKind, price: Option<Decimal>, size: Decimal)
    requires OnQuantityGrids(rules, kind, Units(size))
    ensures NeverOffGrid(rules.Check(ar, side, kind, price, size))
  {
    var limit := LimitOf(kind, price);
    var market := if kind.Market? then Some(size) else None;
    var notional := if limit.Some? then Some(ar.saturatingMul(limit.value, size)) else None;
    RuleIsItsGridAndRange(rules.quantity, Quantity, size);
    RuleIsItsGridAndRange(rules.marketQuantity, Quantity, size);
    OthersNeverOffGrid(Price, rules.price, limit);
    OthersNeverOffGrid(TriggerPrice, rules.price, TriggerOf(kind));
    OthersNeverOffGrid(Notional, rules.notional, notional);
    OffsetNeverOffGrid(rules, ar, side, kind);
    CheckIsSixSteps(rules, ar, side, kind, price, size);
    SixStepsNeverOffGrid(
      CheckOne(Price, rules.price, limit),
      CheckOne(TriggerPrice, rules.price, TriggerOf(kind)),
      rules.CheckTrailingOffset(ar, side, kind),
      rules.quantity.Check(Quantity, size),
      CheckOne(Quantity, rules.marketQuantity, market),
      CheckOne(Notional, rules.notional, notional));
  }

  lemma OthersNeverOffGrid(field: Field, rule: ValueRule, value: Option<Decimal>)
    requires !field.Quantity?
    ensures NeverOffGrid(CheckOne(field, rule, value))
  {
  }

  lemma OffsetNeverOffGrid(rules: OrderRules, ar: Arith, side: Side, kind: OrderKind)
    ensures NeverOffGrid(rules.CheckTrailingOffset(ar, side, kind))
  {
  }

  lemma SixStepsNeverOffGrid(
    a: Verdict, b: Verdict, c: Verdict, d: Verdict, e: Verdict, f: Verdict)
    requires NeverOffGrid(a) && NeverOffGrid(b) && NeverOffGrid(c)
    requires NeverOffGrid(d) && NeverOffGrid(e) && NeverOffGrid(f)
    ensures NeverOffGrid(Then(a, Then(b, Then(c, Then(d, Then(e, f))))))
  {
  }

  // ------------------------------------------------------------------------------ the whole check

  /** One value an order is held to, and the rule it is held to. */
  datatype Duty = Duty(field: Field, rule: ValueRule, value: Decimal) {
    ghost predicate Met() {
      rule.OnGrid(value) && rule.InRange(value)
    }
  }

  function One(field: Field, rule: ValueRule, value: Option<Decimal>): seq<Duty> {
    if value.None? then [] else [Duty(field, rule, value.value)]
  }

  /** The limit price of its own that an order of `kind` works at, if it has one. */
  function LimitOf(kind: OrderKind, price: Option<Decimal>): Option<Decimal> {
    match kind
    case Limit => price
    case StopLimit(_) => price
    case TakeProfitLimit(_) => price
    case TrailingStopFixedLimit(_, _, _) => price
    case ConditionalUnresolved(StopLimitFamily, _) => price
    case ConditionalUnresolved(TakeProfitLimitFamily, _) => price
    case _ => None
  }

  /** The price that triggers or activates an order of `kind`, if it has one. */
  function TriggerOf(kind: OrderKind): Option<Decimal> {
    match kind
    case Stop(t) => Some(t)
    case StopLimit(t) => Some(t)
    case TakeProfit(t) => Some(t)
    case TakeProfitLimit(t) => Some(t)
    case TrailingStop(_, _, activation) => activation
    case TrailingStopFixedLimit(_, _, activation) => activation
    case ConditionalUnresolved(_, t) => t
    case Market => None
    case Limit => None
    case TrailingStopLimit(_, _) => None
  }

  /** A trailing order's offset and the unit it is in. */
  function OffsetOf(kind: OrderKind): Option<(Decimal, OffsetType)> {
    match kind
    case TrailingStop(offset, unit, _) => Some((offset, unit))
    case TrailingStopLimit(offset, unit) => Some((offset, unit))
    case TrailingStopFixedLimit(offset, unit, _) => Some((offset, unit))
    case _ => None
  }

  /** An offset's range alone, in its own unit: a buy's trails above the market, a sell's below. */
  function OffsetDuty(rules: OrderRules, ar: Arith, side: Side, kind: OrderKind): seq<Duty> {
    var range := match side case Buy => rules.trailingAbove case Sell => rules.trailingBelow;
    match OffsetOf(kind)
    case None => []
    case Some((_, Absolute)) => []
    case Some((offset, BasisPoints)) =>
      [Duty(TrailingOffset, ValueRule(range.min, range.max, None), offset)]
    case Some((offset, Percentage)) =>
      [Duty(TrailingOffset, ValueRule(Percent(ar, range.min), Percent(ar, range.max), None), offset)]
  }

  /** Everything an order is held to, in the documented order. */
  function Duties(
    rules: OrderRules, ar: Arith, side: Side, kind: OrderKind, price: Option<Decimal>, size: Decimal)
    : seq<Duty>
  {
    var limit := LimitOf(kind, price);
    (One(Price, rules.price, limit)
     + One(TriggerPrice, rules.price, TriggerOf(kind))
     + OffsetDuty(rules, ar, side, kind))
    + ([Duty(Quantity, rules.quantity, size)]
       + (if kind == Market then [Duty(Quantity, rules.marketQuantity, size)] else [])
       + (if limit.None? then [] else
            [Duty(Notional, rules.notional, ar.saturatingMul(limit.value, size))]))
  }

  function FirstBreach(duties: seq<Duty>): Verdict {
    if duties == [] then Ok(())
    else
      var verdict := duties[0].rule.Check(duties[0].field, duties[0].value);
      if verdict.Err? then verdict else FirstBreach(duties[1..])
  }

  lemma {:induction false} FirstBreachConcat(a: seq<Duty>, b: seq<Duty>)
    ensures FirstBreach(a + b) == if FirstBreach(a).Err? then FirstBreach(a) else FirstBreach(b)
  {
    if a == [] {
      assert a + b == b;
    } else {
      FirstBreachConcat(a[1..], b);
      assert (a + b)[1..] == a[1..] + b;
    }
  }

  lemma {:induction false} FirstBreachIsFirst(duties: seq<Duty>)
    ensures FirstBreach(duties).Ok? <==> forall i :: 0 <= i < |duties| ==> duties[i].Met()
    ensures FirstBreach(duties).Err? ==>
              exists i :: 0 <= i < |duties| && !duties[i].Met()
                && (forall j :: 0 <= j < i ==> duties[j].Met())
                && FirstBreach(duties) == duties[i].rule.Check(duties[i].field, duties[i].value)
  {
    if duties != [] {
      RuleIsItsGridAndRange(duties[0].rule, duties[0].field, duties[0].value);
      FirstBreachIsFirst(duties[1..]);
      assert duties == [duties[0]] + duties[1..];
      if duties[0].Met() && FirstBreach(duties).Err? {
        var i :| 0 <= i < |duties[1..]| && !duties[1..][i].Met()
          && (forall j :: 0 <= j < i ==> duties[1..][j].Met())
          && FirstBreach(duties[1..])
          == duties[1..][i].rule.Check(duties[1..][i].field, duties[1..][i].value);
        assert duties[i + 1] == duties[1..][i];
        forall j | 0 <= j < i + 1
          ensures duties[j].Met()
        {
          assert j > 0 ==> duties[1..][j - 1].Met();
        }
      }
    }
  }

  function Then(first: Verdict, second: Verdict): Verdict {
    if first.Err? then first else second
  }

  lemma FirstBreachOfThree(a: seq<Duty>, b: seq<Duty>, c: seq<Duty>)
    ensures FirstBreach(a + b + c) == Then(FirstBreach(a), Then(FirstBreach(b), FirstBreach(c)))
  {
    FirstBreachConcat(a + b, c);
    FirstBreachConcat(a, b);
  }

  lemma OneBreach(duty: Duty)
    ensures FirstBreach([duty]) == duty.rule.Check(duty.field, duty.value)
  {
    assert FirstBreach([duty][1..]) == Ok(());
  }

  lemma OffsetBreach(rules: OrderRules, ar: Arith, side: Side, kind: OrderKind)
    ensures FirstBreach(OffsetDuty(rules, ar, side, kind)) == rules.CheckTrailingOffset(ar, side, kind)
  {
    if OffsetDuty(rules, ar, side, kind) != [] {
      OneBreach(OffsetDuty(rules, ar, side, kind)[0]);
    }
  }

  lemma CheckIsSixSteps(
    rules: OrderRules, ar: Arith, side: Side, kind: OrderKind, price: Option<Decimal>, size: Decimal)
    ensures rules.Check(ar, side, kind, price, size)
         == Then(CheckOne(Price, rules.price, LimitOf(kind, price)),
            Then(CheckOne(TriggerPrice, rules.price, TriggerOf(kind)),
            Then(rules.CheckTrailingOffset(ar, side, kind),
            Then(rules.quantity.Check(Quantity, size),
            Then(CheckOne(Quantity, rules.marketQuantity, if kind.Market? then Some(size) else None),
                 CheckOne(Notional, rules.notional,
                          if LimitOf(kind, price).Some?
                          then Some(ar.saturatingMul(LimitOf(kind, price).value, size))
                          else None))))))
  {
  }

  function CheckOne(field: Field, rule: ValueRule, value: Option<Decimal>): Verdict {
    if value.None? then Ok(()) else rule.Check(field, value.value)
  }

  /** An order passes exactly when it meets all it is held to, and fails on the first it does not. */
  lemma CheckFindsTheFirstBreach(
    rules: OrderRules, ar: Arith, side: Side, kind: OrderKind, price: Option<Decimal>, size: Decimal)
    ensures var duties := Duties(rules, ar, side, kind, price, size);
            && rules.Check(ar, side, kind, price, size) == FirstBreach(duties)
            && (rules.Check(ar, side, kind, price, size).Ok?
                <==> forall i :: 0 <= i < |duties| ==> duties[i].Met())
  {
    var limit := LimitOf(kind, price);
    var a, b := One(Price, rules.price, limit), One(TriggerPrice, rules.price, TriggerOf(kind));
    var d := Duty(Quantity, rules.quantity, size);
    var e := Duty(Quantity, rules.marketQuantity, size);
    CheckIsSixSteps(rules, ar, side, kind, price, size);
    OffsetBreach(rules, ar, side, kind);
    if limit.Some? {
      var f := Duty(Notional, rules.notional, ar.saturatingMul(limit.value, size));
      OneBreach(a[0]);
      OneBreach(f);
    }
    if TriggerOf(kind).Some? {
      OneBreach(b[0]);
    }
    OneBreach(d);
    OneBreach(e);
    var es := if kind.Market? then [e] else [];
    var fs := if limit.None? then [] else
                [Duty(Notional, rules.notional, ar.saturatingMul(limit.value, size))];
    FirstBreachOfThree(a, b, OffsetDuty(rules, ar, side, kind));
    FirstBreachOfThree([d], es, fs);
    FirstBreachConcat(a + b + OffsetDuty(rules, ar, side, kind), [d] + es + fs);
    FirstBreachIsFirst(Duties(rules, ar, side, kind, price, size));
  }

  /**
   For trailing orders of any kinds, an offset in percent passes exactly where a hundred times it
   passes in basis points, if dividing the limits by 100 loses no digits.
   */
  lemma PercentIsHundredBasisPoints(
    rules: OrderRules, ar: Arith, side: Side, inPercent: OrderKind, inPoints: OrderKind)
    requires inPercent.IsTrailing() && inPercent.offsetType == Percentage
    requires inPoints.IsTrailing() && inPoints.offsetType == BasisPoints
    requires Units(inPoints.offset) == 100 * Units(inPercent.offset)
    requires var range := if side.Buy? then rules.trailingAbove else rules.trailingBelow;
             DividesExactly(ar, range.min) && DividesExactly(ar, range.max)
    ensures rules.CheckTrailingOffset(ar, side, inPercent).Ok?
            <==> rules.CheckTrailingOffset(ar, side, inPoints).Ok?
  {
  }

  /** The bound, if there is one, is divided by 100 without rounding. */
  predicate DividesExactly(ar: Arith, bound: Option<Decimal>) {
    bound.Some? ==> Units(ar.percent(bound.value)) * 100 == Units(bound.value)
  }
}
