/**
 Margin interest charged a period at a time: when a loan is charged, and how much.

 Instants and spans are nanoseconds, instants from the Unix epoch; amounts are exact rationals
 inside `real`. A panic of the program is `None` where a builder refuses its argument.
 */
module MarginInterest {
  import opened IntArith
  import opened Wrappers
  import opened RateSeries
  import opened Schedule

  type Asset = string

  const I64_MAX: int := 0x7FFF_FFFF_FFFF_FFFF
  const I64_MIN: int := -0x8000_0000_0000_0000

  predicate InI64(n: int) {
    I64_MIN <= n <= I64_MAX
  }

  // ------------------------------------------------------------------------------ whole intervals

  /** The first whole multiple of `interval` strictly after `after`, where 64 bits hold it. */
  function NextWholeInterval(interval: int, after: int): Option<int>
    requires interval > 0
  {
    if !InI64(interval) || !InI64(after) then None
    else
      var next := after / interval + 1;
      if InI64(next) && InI64(next * interval) then Some(next * interval) else None
  }

  /** `t` is a boundary the program can report. */
  predicate IsBoundary(interval: int, t: int)
    requires interval > 0
  {
    InI64(t) && t % interval == 0
  }

  /** The answer is the least boundary strictly later, for instants before the epoch too. */
  lemma NextWholeIntervalIsLeast(interval: int, after: int)
    requires interval > 0 && InI64(interval) && InI64(after)
    ensures var next := NextWholeInterval(interval, after);
            && (next.Some? ==>
                && IsBoundary(interval, next.value) && next.value > after
                && next.value / interval == after / interval + 1
                && forall t :: IsBoundary(interval, t) && t > after ==> next.value <= t)
            && (next.None? ==> forall t :: IsBoundary(interval, t) ==> t <= after)
  {
    var q := after / interval;
    var least := (q + 1) * interval;
    QuotientBounds(after, interval);
    assert least == q * interval + interval;
    MultipleDivides(q + 1, interval);
    forall t | IsBoundary(interval, t) && t > after
      ensures least <= t && InI64(least) && InI64(q + 1)
    {
      BoundaryIsLater(interval, after, t);
      NoLargerThanItsMultiple(q + 1, interval);
    }
  }

  lemma BoundaryIsLater(interval: int, after: int, t: int)
    requires interval > 0 && t % interval == 0 && t > after
    ensures (after / interval + 1) * interval <= t
  {
    QuotientBounds(after, interval);
    QuotientBounds(t, interval);
    QuotientMonotone(after, t, interval);
    if after / interval < t / interval {
      MulMonotone(after / interval + 1, t / interval, interval);
    }
  }

  lemma NoLargerThanItsMultiple(n: int, interval: int)
    requires interval > 0 && InI64(n * interval)
    ensures InI64(n)
  {
    if n > 0 {
      MulMonotone(1, interval, n);
    } else {
      MulMonotone(1, interval, -n);
      assert interval * -n == -(n * interval);
    }
  }

  // ------------------------------------------------------------------------------ the model

  datatype InterestSchedule = AtBorrowAndEachBoundary | AtBorrowOnly

  const DEFAULT_UNIT: real := 0.000_000_01

  datatype Periodic = Periodic(
    period: int,
    basis: int,
    schedule: InterestSchedule,
    rates: map<Asset, Series>,
    units: map<Asset, real>)
  {
    /** What every model built by the constructor and the builders meets. */
    ghost predicate Valid() {
      && period > 0
      && (basis == 360 || basis == 365)
      && (forall asset :: asset in rates ==> Chargeable(rates[asset]))
      && (forall asset :: asset in units ==> units[asset] > 0.0)
    }

    /** Refuses a series with a negative rate. */
    function WithRates(asset: Asset, series: Series): Option<Periodic> {
      if exists i :: 0 <= i < |series.points| && series.points[i].rate < 0.0 then None
      else Some(this.(rates := rates[asset := series]))
    }

    /** Refuses a unit that is not positive. */
    function WithUnit(asset: Asset, unit: real): Option<Periodic> {
      if unit <= 0.0 then None else Some(this.(units := units[asset := unit]))
    }

    function WithSchedule(schedule: InterestSchedule): Periodic {
      this.(schedule := schedule)
    }

    function NextBoundary(asset: Asset, after: int): Option<int>
      requires Valid()
    {
      if schedule.AtBorrowOnly? || asset !in rates then None
      else NextWholeInterval(period, after)
    }

    function Unit(asset: Asset): real {
      if asset in units then units[asset] else DEFAULT_UNIT
    }

    /** The annual rate in effect for `asset` at `time`. */
    function Rate(asset: Asset, time: int): Option<real> {
      if asset in rates then rates[asset].At(time) else None
    }

    /** What a loan is charged at `time`, or nothing where the asset has no rate. */
    function Charge(asset: Asset, principal: real, time: int): Option<real>
      requires Valid()
    {
      match Rate(asset, time)
      case None => None
      case Some(rate) => Some(PeriodCharge(principal, rate, period, basis, Unit(asset)))
    }

    /** When a loan of `asset` taken at `taken` is charged while it is open up to `until`. */
    function ChargeTimes(asset: Asset, taken: int, until: int): seq<int>
      requires Valid()
    {
      NextBoundaryAdvances(this, asset);
      [taken] + BoundariesThrough(t => NextBoundary(asset, t), taken, until)
    }
  }

  /** A series a builder takes: in time order, as a series is, and with no negative rate. */
  ghost predicate Chargeable(series: Series) {
    && Ascending(series.points)
    && forall i :: 0 <= i < |series.points| ==> series.points[i].rate >= 0.0
  }

  function NewPeriodic(period: int, basis: int): Option<Periodic> {
    if period <= 0 then None
    else Some(Periodic(period, basis, AtBorrowAndEachBoundary, map[], map[]))
  }

  /** The builders refuse exactly what would break the model, and keep it valid otherwise. */
  lemma BuildersKeepValid(m: Periodic, asset: Asset, series: Series, unit: real)
    requires m.Valid() && Ascending(series.points)
    ensures m.WithRates(asset, series).Some? <==> Chargeable(series)
    ensures m.WithRates(asset, series).Some? ==> m.WithRates(asset, series).value.Valid()
    ensures m.WithUnit(asset, unit).Some? <==> unit > 0.0
    ensures m.WithUnit(asset, unit).Some? ==> m.WithUnit(asset, unit).value.Valid()
  {
  }

  /** One builder call; a series is built from its points. */
  datatype Setting =
    | Rates(asset: Asset, points: seq<Point>)
    | Unit(asset: Asset, unit: real)
    | Charging(schedule: InterestSchedule)

  function Set(m: Periodic, setting: Setting): Option<Periodic> {
    match setting
    case Rates(asset, points) =>
      (match New(points)
       case Ok(series) => m.WithRates(asset, series)
       case Err(_) => None)
    case Unit(asset, unit) => m.WithUnit(asset, unit)
    case Charging(schedule) => Some(m.WithSchedule(schedule))
  }

  /** What the constructor and the builders make, or nothing where one of them panics. */
  function Built(period: int, basis: int, settings: seq<Setting>): Option<Periodic> {
    if settings == [] then NewPeriodic(period, basis)
    else
      var n := |settings| - 1;
      Built(period, basis, settings[..n]).AndThen((m: Periodic) => Set(m, settings[n]))
  }

  /** Whether a builder takes `setting`: rates in time order and not negative, or a positive unit. */
  ghost predicate Acceptable(setting: Setting) {
    match setting
    case Rates(_, points) => Chargeable(Series(points))
    case Unit(_, unit) => unit > 0.0
    case Charging(_) => true
  }

  /** Every model that can be built is valid, and one is built exactly from settings none refuses. */
  lemma {:induction false} EveryModelIsValid(period: int, basis: int, settings: seq<Setting>)
    requires basis == 360 || basis == 365
    ensures Built(period, basis, settings).Some?
            <==> period > 0 && forall i :: 0 <= i < |settings| ==> Acceptable(settings[i])
    ensures Built(period, basis, settings).Some? ==> Built(period, basis, settings).value.Valid()
  {
    if settings != [] {
      var n := |settings| - 1;
      var before := Built(period, basis, settings[..n]);
      EveryModelIsValid(period, basis, settings[..n]);
      if before.Some? {
        SettingKeepsValid(before.value, settings[n]);
      }
    }
  }

  lemma SettingKeepsValid(m: Periodic, setting: Setting)
    requires m.Valid()
    ensures Set(m, setting).Some? <==> Acceptable(setting)
    ensures Set(m, setting).Some? ==> Set(m, setting).value.Valid()
  {
    match setting
    case Rates(asset, points) =>
      NewAcceptsTheAscending(points);
      if New(points).Ok? {
        BuildersKeepValid(m, asset, New(points).value, 1.0);
      }
    case Unit(_, _) =>
    case Charging(_) =>
  }

  /** `settings[i]` is the last that sets the rates of `asset`, or none does and `i` is -1. */
  ghost predicate LastRates(settings: seq<Setting>, asset: Asset, i: int) {
    && -1 <= i < |settings|
    && (i >= 0 ==> settings[i].Rates? && settings[i].asset == asset)
    && forall j :: i < j < |settings| ==> !(settings[j].Rates? && settings[j].asset == asset)
  }

  ghost predicate LastUnit(settings: seq<Setting>, asset: Asset, i: int) {
    && -1 <= i < |settings|
    && (i >= 0 ==> settings[i].Unit? && settings[i].asset == asset)
    && forall j :: i < j < |settings| ==> !(settings[j].Unit? && settings[j].asset == asset)
  }

  ghost predicate LastSchedule(settings: seq<Setting>, i: int) {
    && -1 <= i < |settings|
    && (i >= 0 ==> settings[i].Charging?)
    && forall j :: i < j < |settings| ==> !settings[j].Charging?
  }

  /**
   A model is as it was last set: each asset's rates and unit, and the schedule, else the defaults of
   no rates, 1e-8, and a charge at each boundary.
   */
  lemma {:induction false} EveryModelIsAsSet(
    period: int, basis: int, settings: seq<Setting>, asset: Asset, i: int, j: int, k: int)
    requires Built(period, basis, settings).Some?
    requires LastRates(settings, asset, i) && LastUnit(settings, asset, j) && LastSchedule(settings, k)
    ensures var m := Built(period, basis, settings).value;
            && m.period == period && m.basis == basis
            && (if i < 0 then asset !in m.rates
                else asset in m.rates && m.rates[asset].points == settings[i].points)
            && m.Unit(asset) == (if j < 0 then 0.000_000_01 else settings[j].unit)
            && m.schedule == if k < 0 then AtBorrowAndEachBoundary else settings[k].schedule
  {
    if settings != [] {
      var n := |settings| - 1;
      var before := settings[..n];
      var i' := EarlierRates(before, asset);
      var j' := EarlierUnit(before, asset);
      var k' := EarlierSchedule(before);
      EveryModelIsAsSet(period, basis, before, asset, i', j', k');
      SettingSets(Built(period, basis, before).value, settings[n], asset);
      assert (settings[n].Rates? && settings[n].asset == asset) || i == i';
      assert (settings[n].Unit? && settings[n].asset == asset) || j == j';
      assert settings[n].Charging? || k == k';
    }
  }

  /** A setting leaves what it sets, for its asset if it is about one, and all else as it was. */
  lemma SettingSets(m: Periodic, setting: Setting, asset: Asset)
    requires Set(m, setting).Some?
    ensures var d := Set(m, setting).value;
            && d.period == m.period && d.basis == m.basis
            && (if setting.Rates? && setting.asset == asset
                then asset in d.rates && d.rates[asset].points == setting.points
                else (asset in d.rates <==> asset in m.rates)
                     && (asset in m.rates ==> d.rates[asset] == m.rates[asset]))
            && d.Unit(asset) == (if setting.Unit? && setting.asset == asset then setting.unit
                                 else m.Unit(asset))
            && d.schedule == if setting.Charging? then setting.schedule else m.schedule
  {
    if setting.Rates? {
      NewAcceptsTheAscending(setting.points);
    }
  }

  lemma {:induction false} EarlierRates(settings: seq<Setting>, asset: Asset) returns (i: int)
    ensures LastRates(settings, asset, i)
  {
    i := |settings| - 1;
    if i >= 0 && !(settings[i].Rates? && settings[i].asset == asset) {
      i := EarlierRates(settings[..i], asset);
    }
  }

  lemma {:induction false} EarlierUnit(settings: seq<Setting>, asset: Asset) returns (i: int)
    ensures LastUnit(settings, asset, i)
  {
    i := |settings| - 1;
    if i >= 0 && !(settings[i].Unit? && settings[i].asset == asset) {
      i := EarlierUnit(settings[..i], asset);
    }
  }

  lemma {:induction false} EarlierSchedule(settings: seq<Setting>) returns (i: int)
    ensures LastSchedule(settings, i)
  {
    i := |settings| - 1;
    if i >= 0 && !settings[i].Charging? {
      i := EarlierSchedule(settings[..i]);
    }
  }

  lemma NextBoundaryAdvances(m: Periodic, asset: Asset)
    requires m.Valid()
    ensures Advances(t => m.NextBoundary(asset, t))
  {
    forall t | m.NextBoundary(asset, t).Some?
      ensures m.NextBoundary(asset, t).value > t
    {
      NextWholeIntervalIsLeast(m.period, t);
    }
  }

  // ------------------------------------------------------------------------------ when

  function Min(a: int, b: int): int {
    if a <= b then a else b
  }

  /**
   A loan pays for each period it touches, once: its charges fall in consecutive periods, from the
   one it is taken in, even exactly on a boundary, to the one it is last open in.
   */
  lemma {:induction false} EachPeriodIsPaidOnce(m: Periodic, asset: Asset, taken: int, until: int)
    requires m.Valid() && m.schedule.AtBorrowAndEachBoundary? && asset in m.rates
    requires InI64(m.period) && InI64(taken) && taken <= until
    ensures var times, last := m.ChargeTimes(asset, taken, until), Min(until, I64_MAX);
            && |times| == last / m.period - taken / m.period + 1
            && (forall k :: 0 <= k < |times| ==> times[k] / m.period == taken / m.period + k)
    decreases until - taken
  {
    NextBoundaryAdvances(m, asset);
    NextWholeIntervalIsLeast(m.period, taken);
    var last := Min(until, I64_MAX);
    var next := m.NextBoundary(asset, taken);
    var times := m.ChargeTimes(asset, taken, until);
    if next.Some? && next.value <= until {
      EachPeriodIsPaidOnce(m, asset, next.value, until);
      assert times == [taken] + m.ChargeTimes(asset, next.value, until);
    } else {
      NoBoundaryMeansSamePeriod(m.period, taken, last);
    }
  }

  lemma NoBoundaryMeansSamePeriod(interval: int, after: int, last: int)
    requires interval > 0 && InI64(interval) && InI64(after) && InI64(last) && after <= last
    requires NextWholeInterval(interval, after).Some?
             ==> last < NextWholeInterval(interval, after).value
    ensures last / interval == after / interval
  {
    NextWholeIntervalIsLeast(interval, after);
    QuotientBounds(last, interval);
    QuotientBounds(after, interval);
    QuotientMonotone(after, last, interval);
    var t := last / interval * interval;
    if after < t {
      MultipleDivides(last / interval, interval);
      assert IsBoundary(interval, t) by {
        BetweenIsInI64(after, t, last);
      }
      assert false;
    }
    QuotientMonotone(t, after, interval);
    MultipleDivides(last / interval, interval);
  }

  lemma BetweenIsInI64(low: int, t: int, high: int)
    requires InI64(low) && InI64(high) && low <= t <= high
    ensures InI64(t)
  {
  }

  /** Where boundaries are off, or the period or the borrow is out of range, only the borrow pays. */
  lemma OtherwiseOnlyTheBorrowPays(m: Periodic, asset: Asset, taken: int, until: int)
    requires m.Valid()
    requires m.schedule.AtBorrowOnly? || asset !in m.rates || !InI64(m.period) || !InI64(taken)
    ensures m.ChargeTimes(asset, taken, until) == [taken]
  {
    NextBoundaryAdvances(m, asset);
  }

  /** A clock move reaches exactly the whole multiples of the period in its interval, in order. */
  lemma InterestFallsOnWholePeriods(m: Periodic, asset: Asset, after: int, through: int)
    requires m.Valid() && m.schedule.AtBorrowAndEachBoundary? && asset in m.rates
    requires InI64(m.period) && InI64(after)
    ensures Advances(t => m.NextBoundary(asset, t))
    ensures var bs := BoundariesThrough(t => m.NextBoundary(asset, t), after, through);
            && (forall t :: t in bs <==> IsBoundary(m.period, t) && after < t <= through)
            && (forall i, j :: 0 <= i < j < |bs| ==> bs[i] < bs[j])
  {
    NextBoundaryAdvances(m, asset);
    var next := t => m.NextBoundary(asset, t);
    var due := t => IsBoundary(m.period, t);
    forall s | InI64(s)
      ensures next(s).Some? ==>
                && due(next(s).value) && next(s).value > s
                && forall t :: due(t) && t > s ==> next(s).value <= t
      ensures next(s).None? ==> forall t :: due(t) ==> t <= s
    {
      NextWholeIntervalIsLeast(m.period, s);
    }
    assert AnswersLeast(next, due) && SilentAtTheEnd(next, due, after);
    WalkIsWhatIsDue(next, due, after, through);
  }

  /** A boundary model keeps its schedule however its venue's clock is moved. */
  lemma BoundariesDoNotDependOnTheClock(m: Periodic, asset: Asset, t1: int, t2: int, t3: int)
    requires m.Valid() && InI64(t1) && InI64(t2) && t1 <= t2 <= t3
    ensures Advances(t => m.NextBoundary(asset, t))
    ensures BoundariesThrough(t => m.NextBoundary(asset, t), t1, t3)
         == BoundariesThrough(t => m.NextBoundary(asset, t), t1, t2)
            + BoundariesThrough(t => m.NextBoundary(asset, t), t2, t3)
    decreases t3 - t1
  {
    NextBoundaryAdvances(m, asset);
    var next := t => m.NextBoundary(asset, t);
    if next(t1).Some? {
      NextWholeIntervalIsLeast(m.period, t1);
      if next(t1).value <= t2 {
        BoundariesDoNotDependOnTheClock(m, asset, next(t1).value, t2, t3);
      } else {
        NoBoundaryMeansSamePeriod(m.period, t1, t2);
      }
    } else if asset in m.rates && m.schedule.AtBorrowAndEachBoundary? && InI64(m.period) {
      NoBoundaryMeansSamePeriod(m.period, t1, t2);
    }
  }

  // ------------------------------------------------------------------------------ how much

  /** The least multiple of `unit` at or above `x`, as the ceiling of the quotient gives it. */
  function RoundUp(x: real, unit: real): real
    requires unit > 0.0
  {
    Times(Ceiling(x / unit) as real, unit)
  }

  function Ceiling(x: real): int {
    -(-x).Floor
  }

  /** The share of an annual amount for `span`, in a year taken as `basis` days. */
  function AccrueSpan(annual: real, span: int, basis: int): real
    requires basis > 0
  {
    annual * (span as real / 1_000_000_000.0) / (basis as real * 86_400.0)
  }

  /** One period's accrual of an annual amount, rounded up to `unit`. */
  function Rounded(annual: real, period: int, basis: int, unit: real): real
    requires basis > 0 && unit > 0.0
  {
    RoundUp(AccrueSpan(annual, period, basis), unit)
  }

  /** One period's charge on `principal` at an annual `rate`. */
  function PeriodCharge(principal: real, rate: real, period: int, basis: int, unit: real): real
    requires basis > 0 && unit > 0.0
  {
    Rounded(principal * rate, period, basis, unit)
  }

  predicate IsMultiple(x: real, unit: real, units: nat) {
    x == Times(units as real, unit)
  }

  lemma CeilingBounds(x: real)
    ensures x <= Ceiling(x) as real < x + 1.0
  {
  }

  lemma ScaledBounds(x: real, q: real, c: real, unit: real)
    requires unit > 0.0 && q <= c < q + 1.0 && Times(q, unit) == x
    ensures x <= Times(c, unit) < x + unit
  {
    TimesMonotone(q, c, unit);
    TimesStrict(c, q + 1.0, unit);
    TimesSum(q, 1.0, unit);
    TimesOne(unit);
  }

  lemma RoundUpBounds(x: real, unit: real)
    requires unit > 0.0
    ensures x <= RoundUp(x, unit) < x + unit
  {
    var q := x / unit;
    CeilingBounds(q);
    CancelReal(x, unit);
    ScaledBounds(x, q, Ceiling(q) as real, unit);
  }

  lemma RoundUpMonotone(x: real, y: real, unit: real)
    requires unit > 0.0 && x <= y
    ensures RoundUp(x, unit) <= RoundUp(y, unit)
  {
    DivideReal(x, y, unit);
    TimesMonotone(Ceiling(x / unit) as real, Ceiling(y / unit) as real, unit);
  }

  lemma CeilingSubadditive(p: real, q: real)
    ensures Ceiling(p + q) <= Ceiling(p) + Ceiling(q)
  {
  }

  lemma RoundUpSubadditive(x: real, y: real, unit: real)
    requires unit > 0.0
    ensures RoundUp(x + y, unit) <= RoundUp(x, unit) + RoundUp(y, unit)
  {
    var p, q := x / unit, y / unit;
    DivideSum(x, y, unit);
    CeilingSubadditive(p, q);
    TimesMonotone(Ceiling(p + q) as real, Ceiling(p) as real + Ceiling(q) as real, unit);
    TimesSum(Ceiling(p) as real, Ceiling(q) as real, unit);
  }

  lemma AccrueSpanMonotone(x: real, y: real, span: int, basis: int)
    requires basis > 0 && span > 0 && x <= y
    ensures AccrueSpan(x, span, basis) <= AccrueSpan(y, span, basis)
  {
    var seconds := span as real / 1_000_000_000.0;
    ScaleReal(x, y, seconds);
    DivideReal(x * seconds, y * seconds, basis as real * 86_400.0);
  }

  lemma AccrueSpanOfNothing(span: int, basis: int)
    requires basis > 0
    ensures AccrueSpan(0.0, span, basis) == 0.0
  {
  }

  lemma AccrueSpanAdds(x: real, y: real, span: int, basis: int)
    requires basis > 0
    ensures AccrueSpan(x + y, span, basis) == AccrueSpan(x, span, basis) + AccrueSpan(y, span, basis)
  {
    var seconds := span as real / 1_000_000_000.0;
    Distribute(x, y, seconds);
    DivideSum(x * seconds, y * seconds, basis as real * 86_400.0);
  }

  /**
   A charge is a whole number of units, never negative, at least the exact accrual and less than one
   unit above it.
   */
  lemma PeriodChargeRoundsUp(principal: real, rate: real, period: int, basis: int, unit: real)
    requires basis > 0 && unit > 0.0 && period > 0 && principal >= 0.0 && rate >= 0.0
    ensures exists units :: IsMultiple(PeriodCharge(principal, rate, period, basis, unit), unit, units)
    ensures 0.0 <= AccrueSpan(principal * rate, period, basis)
    ensures AccrueSpan(principal * rate, period, basis)
         <= PeriodCharge(principal, rate, period, basis, unit)
          < AccrueSpan(principal * rate, period, basis) + unit
  {
    var exact := AccrueSpan(principal * rate, period, basis);
    ScaleReal(0.0, principal, rate);
    AccrueSpanOfNothing(period, basis);
    AccrueSpanMonotone(0.0, principal * rate, period, basis);
    RoundUpBounds(exact, unit);
    DivideReal(0.0, exact, unit);
    var units: nat := Ceiling(exact / unit);
    assert IsMultiple(PeriodCharge(principal, rate, period, basis, unit), unit, units);
  }

  /** A larger principal is never charged less. */
  lemma PeriodChargeIsMonotone(
    p: real, q: real, rate: real, period: int, basis: int, unit: real)
    requires basis > 0 && unit > 0.0 && period > 0 && p <= q && rate >= 0.0
    ensures PeriodCharge(p, rate, period, basis, unit) <= PeriodCharge(q, rate, period, basis, unit)
  {
    ScaleReal(p, q, rate);
    AccrueSpanMonotone(p * rate, q * rate, period, basis);
    RoundUpMonotone(
      AccrueSpan(p * rate, period, basis), AccrueSpan(q * rate, period, basis), unit);
  }

  lemma RoundedIsSubadditive(x: real, y: real, period: int, basis: int, unit: real)
    requires basis > 0 && unit > 0.0
    ensures Rounded(x + y, period, basis, unit)
         <= Rounded(x, period, basis, unit) + Rounded(y, period, basis, unit)
  {
    AccrueSpanAdds(x, y, period, basis);
    RoundUpSubadditive(AccrueSpan(x, period, basis), AccrueSpan(y, period, basis), unit);
  }

  /** One loan is never charged more than two loans of the same total. */
  lemma PeriodChargeIsSubadditive(
    p: real, q: real, rate: real, period: int, basis: int, unit: real)
    requires basis > 0 && unit > 0.0
    ensures PeriodCharge(p + q, rate, period, basis, unit)
         <= PeriodCharge(p, rate, period, basis, unit) + PeriodCharge(q, rate, period, basis, unit)
  {
    Distribute(p, q, rate);
    RoundedIsSubadditive(p * rate, q * rate, period, basis, unit);
  }

  lemma RateIsNotNegative(m: Periodic, asset: Asset, time: int)
    requires m.Valid()
    ensures m.Rate(asset, time).Some? ==> m.Rate(asset, time).value >= 0.0
  {
    if asset in m.rates {
      var series := m.rates[asset];
      var after := series.PartitionPoint(time, 0, |series.points|);
      assert Chargeable(series);
      assert after > 0 ==> series.points[after - 1].rate >= 0.0;
    }
  }

  /** `point` is the last of the asset's points that starts at or before `time`. */
  ghost predicate IsLatest(points: seq<Point>, time: int, i: int) {
    && 0 <= i < |points| && points[i].start <= time
    && forall j :: i < j < |points| ==> time < points[j].start
  }

  /**
   A charge is the least whole multiple of the asset's unit at or above `principal * rate * period`
   over the year, the rate that of the latest point.
   */
  lemma ChargeIsTheLeastMultiple(
    m: Periodic, asset: Asset, principal: real, time: int, i: int, rate: real, exact: real)
    requires m.Valid() && asset in m.rates && IsLatest(m.rates[asset].points, time, i)
    requires rate == m.rates[asset].points[i].rate
    requires exact == principal * rate * (m.period as real / 1_000_000_000.0)
                      / (m.basis as real * 86_400.0)
    ensures m.Charge(asset, principal, time).Some?
    ensures IsLeastMultiple(m.Charge(asset, principal, time).value, exact,
                            if asset in m.units then m.units[asset] else 0.000_000_01)
  {
    RateIsTheLatest(m, asset, time, i);
    PeriodChargeIsLeast(principal, rate, m.period, m.basis, m.Unit(asset), exact);
  }

  /** There is a charge exactly where there is a rate, which is the latest point's. */
  lemma RateIsTheLatest(m: Periodic, asset: Asset, time: int, i: int)
    requires m.Valid()
    ensures m.Rate(asset, time).Some?
            <==> asset in m.rates && exists j :: IsLatest(m.rates[asset].points, time, j)
    ensures forall principal :: m.Charge(asset, principal, time).Some? <==> m.Rate(asset, time).Some?
    ensures asset in m.rates && IsLatest(m.rates[asset].points, time, i)
            ==> m.Rate(asset, time) == Some(m.rates[asset].points[i].rate)
  {
    if asset in m.rates {
      var points := m.rates[asset].points;
      assert Chargeable(m.rates[asset]);
      if IsLatest(points, time, i) {
        EachRateAppliesUntilTheNext(m.rates[asset], time, i);
      }
      if j :| IsLatest(points, time, j) {
        EachRateAppliesUntilTheNext(m.rates[asset], time, j);
      } else {
        NoneIsLatest(m.rates[asset], time);
      }
    }
  }

  lemma PeriodChargeIsLeast(
    principal: real, rate: real, period: int, basis: int, unit: real, exact: real)
    requires basis > 0 && unit > 0.0
    requires exact == principal * rate * (period as real / 1_000_000_000.0)
                      / (basis as real * 86_400.0)
    ensures IsLeastMultiple(PeriodCharge(principal, rate, period, basis, unit), exact, unit)
  {
    assert AccrueSpan(principal * rate, period, basis) == exact;
    RoundUpIsLeast(exact, unit);
  }

  /** `n` units. */
  function Whole(n: int, unit: real): real {
    n as real * unit
  }

  /** `x` is a whole multiple of `unit` at or above `exact`, and no lesser one is. */
  ghost predicate IsLeastMultiple(x: real, exact: real, unit: real) {
    exists n: int :: x == Whole(n, unit) && IsLeastAtOrAbove(n, exact, unit)
  }

  ghost predicate IsLeastAtOrAbove(n: int, exact: real, unit: real) {
    Whole(n, unit) >= exact && forall k: int :: Whole(k, unit) >= exact ==> k >= n
  }

  lemma RoundUpIsLeast(exact: real, unit: real)
    requires unit > 0.0
    ensures IsLeastMultiple(RoundUp(exact, unit), exact, unit)
  {
    var n := Ceiling(exact / unit);
    RoundUpBounds(exact, unit);
    assert RoundUp(exact, unit) == Whole(n, unit);
    forall k: int | Whole(k, unit) >= exact
      ensures k >= n
    {
      if k < n {
        BelowByAUnit(k, n, unit);
      }
    }
    assert IsLeastAtOrAbove(n, exact, unit);
  }

  lemma BelowByAUnit(k: int, n: int, unit: real)
    requires unit > 0.0 && k < n
    ensures Whole(k, unit) + unit <= Whole(n, unit)
  {
    TimesMonotone(k as real + 1.0, n as real, unit);
    TimesSum(k as real, 1.0, unit);
    TimesOne(unit);
    assert Whole(k, unit) == Times(k as real, unit) && Whole(n, unit) == Times(n as real, unit);
  }

  lemma {:induction false} LatestIsFound(points: seq<Point>, time: int)
    requires Ascending(points)
    ensures (exists i :: IsLatest(points, time, i)) <==> points != [] && points[0].start <= time
  {
    if points != [] {
      var n := |points| - 1;
      if points[n].start <= time {
        assert IsLatest(points, time, n);
        assert n == 0 || points[0].start < points[n].start;
      } else {
        LatestIsFound(points[..n], time);
        if i :| IsLatest(points[..n], time, i) {
          assert IsLatest(points, time, i);
        }
        if i :| IsLatest(points, time, i) {
          assert IsLatest(points[..n], time, i);
        }
      }
    }
  }

  lemma NoneIsLatest(series: Series, time: int)
    requires Ascending(series.points)
    requires forall i :: !IsLatest(series.points, time, i)
    ensures series.At(time).None?
  {
    LatestIsFound(series.points, time);
    EachRateAppliesUntilTheNext(series, time, -1);
  }

  /** A loan with a rate is charged the rounded accrual of one period, never a negative amount. */
  lemma ChargesAreNeverNegative(m: Periodic, asset: Asset, principal: real, time: int)
    requires m.Valid() && principal >= 0.0
    ensures m.Charge(asset, principal, time).Some? <==> m.Rate(asset, time).Some?
    ensures m.Charge(asset, principal, time).Some?
            ==> m.Charge(asset, principal, time).value >= 0.0
  {
    RateIsNotNegative(m, asset, time);
    if m.Rate(asset, time).Some? {
      PeriodChargeRoundsUp(
        principal, m.Rate(asset, time).value, m.period, m.basis, m.Unit(asset));
    }
  }

  function Sum(xs: seq<real>): real {
    if xs == [] then 0.0 else xs[0] + Sum(xs[1..])
  }

  /** What several loans are charged in all at one instant. */
  function TotalCharge(
    loans: seq<real>, rate: real, period: int, basis: int, unit: real): real
    requires basis > 0 && unit > 0.0
  {
    if loans == [] then 0.0
    else PeriodCharge(loans[0], rate, period, basis, unit)
         + TotalCharge(loans[1..], rate, period, basis, unit)
  }

  /** Splitting one loan into any number of loans never costs less. */
  lemma {:induction false} SplittingALoanCostsNoLess(
    loans: seq<real>, rate: real, period: int, basis: int, unit: real)
    requires basis > 0 && unit > 0.0
    ensures PeriodCharge(Sum(loans), rate, period, basis, unit)
         <= TotalCharge(loans, rate, period, basis, unit)
  {
    if loans == [] {
      assert 0.0 * rate == 0.0;
    } else {
      SplittingALoanCostsNoLess(loans[1..], rate, period, basis, unit);
      PeriodChargeIsSubadditive(loans[0], Sum(loans[1..]), rate, period, basis, unit);
    }
  }

  /** What several loans of an asset are charged in all at an instant. */
  function ChargeAll(m: Periodic, asset: Asset, loans: seq<real>, time: int): real
    requires m.Valid() && m.Rate(asset, time).Some?
  {
    if loans == [] then 0.0
    else m.Charge(asset, loans[0], time).value + ChargeAll(m, asset, loans[1..], time)
  }

  /** A larger loan is never charged less, and one loan never more than the same in parts. */
  lemma LargerLoansCostNoLess(
    m: Periodic, asset: Asset, p: real, q: real, loans: seq<real>, time: int)
    requires m.Valid() && m.Rate(asset, time).Some?
    ensures p <= q ==> m.Charge(asset, p, time).value <= m.Charge(asset, q, time).value
    ensures m.Charge(asset, Sum(loans), time).value <= ChargeAll(m, asset, loans, time)
  {
    var rate, unit := m.Rate(asset, time).value, m.Unit(asset);
    RateIsNotNegative(m, asset, time);
    if p <= q {
      PeriodChargeIsMonotone(p, q, rate, m.period, m.basis, unit);
    }
    SplittingALoanCostsNoLess(loans, rate, m.period, m.basis, unit);
    ChargeAllIsTotal(m, asset, loans, time);
  }

  lemma {:induction false} ChargeAllIsTotal(m: Periodic, asset: Asset, loans: seq<real>, time: int)
    requires m.Valid() && m.Rate(asset, time).Some?
    ensures ChargeAll(m, asset, loans, time)
         == TotalCharge(loans, m.Rate(asset, time).value, m.period, m.basis, m.Unit(asset))
  {
    if loans != [] {
      ChargeAllIsTotal(m, asset, loans[1..], time);
    }
  }
}
