/**
 Adverse slippage on simulated taker fills: a rate for each fill, drawn from a seeded stream that a
 restored venue resumes where it stood. Rates and prices are exact rationals inside `real`.
 */
module Slippage {
  import opened IntArith
  import opened Wrappers

  const U64_MAX: int := 0xFFFF_FFFF_FFFF_FFFF

  // ------------------------------------------------------------------------------ configuration

  datatype Repr = NoSlippage | Fixed(rate: real) | Uniform(low: real, high: real, seed: nat)

  datatype ConfigError =
    | Negative(rate: real)
    | NotBelowOne(rate: real)
    | Inverted(low: real, high: real)

  datatype Config = Config(repr: Repr) {

    function Low(): real {
      match repr
      case NoSlippage => 0.0
      case Fixed(rate) => rate
      case Uniform(low, _, _) => low
    }

    function High(): real {
      match repr
      case NoSlippage => 0.0
      case Fixed(rate) => rate
      case Uniform(_, high, _) => high
    }

    /** The seed, or the stream's default one, which is never read. */
    function Seed(): nat {
      if repr.Uniform? then repr.seed else 0
    }

    predicate Valid() {
      0.0 <= Low() <= High() < 1.0
    }
  }

  function Configured(repr: Repr): Result<Config, ConfigError> {
    var c := Config(repr);
    if repr.NoSlippage? then Ok(c)
    else if c.Low() < 0.0 then Err(Negative(c.Low()))
    else if c.High() >= 1.0 then Err(NotBelowOne(c.High()))
    else if c.Low() > c.High() then Err(Inverted(c.Low(), c.High()))
    else Ok(c)
  }

  /**
   No slippage, a fixed rate from zero up to one, and a range of such rates are accepted as they are,
   and nothing else; an error names what is wrong, the low end before the high.
   */
  lemma ConfiguredIsExact(repr: Repr)
    ensures Configured(repr).Ok? <==>
            match repr
            case NoSlippage => true
            case Fixed(rate) => 0.0 <= rate < 1.0
            case Uniform(low, high, _) => 0.0 <= low <= high < 1.0
    ensures Configured(repr).Ok? ==> Configured(repr).value == Config(repr) && Config(repr).Valid()
    ensures Configured(repr).Err? ==>
              match (repr, Configured(repr).error)
              case (Fixed(r), Negative(x)) => x == r < 0.0
              case (Fixed(r), NotBelowOne(x)) => x == r >= 1.0
              case (Uniform(low, _, _), Negative(x)) => x == low < 0.0
              case (Uniform(low, high, _), NotBelowOne(x)) => low >= 0.0 && x == high >= 1.0
              case (Uniform(low, high, _), Inverted(x, y)) =>
                0.0 <= low && x == low && y == high < 1.0 && high < low
              case _ => false
  {
  }

  // ------------------------------------------------------------------------------ one rate

  /** `x` to the nearest whole number, ties to the even one. */
  function Nearest(x: real): int {
    var floor := x.Floor;
    var rest := x - floor as real;
    if rest < 0.5 || (rest == 0.5 && floor % 2 == 0) then floor else floor + 1
  }

  const PLACES: real := 1_000_000_000_000.0

  /** `x` rounded to 12 decimal places. */
  function RoundDp(x: real): real {
    Nearest(x * PLACES) as real / PLACES
  }

  function Clamp(x: real, low: real, high: real): real {
    if x < low then low else if x > high then high else x
  }

  /** The point of the range a drawn value `k` of `0 ..= U64_MAX` falls on. */
  function Spread(low: real, high: real, k: int): real {
    low + (high - low) * (k as real / U64_MAX as real)
  }

  /** The rate a drawn value gives. */
  function RateOf(low: real, high: real, k: int): real {
    Clamp(RoundDp(Spread(low, high, k)), low, high)
  }

  /** A price moved against the order. */
  function Slipped(buys: bool, reference: real, rate: real): real {
    if rate == 0.0 then reference
    else Times(if buys then 1.0 + rate else 1.0 - rate, reference)
  }

  /** `n` is a whole number nearest to `x`, the even one of two as near. */
  predicate IsNearest(n: int, x: real) {
    && n as real - 0.5 <= x <= n as real + 0.5
    && (x == n as real - 0.5 || x == n as real + 0.5 ==> n % 2 == 0)
  }

  /** How many of the places kept `n` are worth. */
  function Placed(n: int): real {
    n as real / 1_000_000_000_000.0
  }

  /**
   A drawn value's rate is the point of the range as far along as it is from 0 to 2^64 - 1, rounded to
   12 places, the even one of two as near, and then brought back to the end it was rounded past.
   */
  lemma RateIsRounded(low: real, high: real, k: int, n: int, point: real)
    requires low <= high
    requires point == low + (high - low) * (k as real / 18_446_744_073_709_551_615.0)
    requires IsNearest(n, point * 1_000_000_000_000.0)
    ensures RateOf(low, high, k)
         == if Placed(n) < low then low else if Placed(n) > high then high else Placed(n)
  {
    assert point == Spread(low, high, k);
    NearestIs(point * PLACES, n);
    assert RoundDp(point) == Placed(n);
  }

  lemma NearestIs(x: real, n: int)
    requires IsNearest(n, x)
    ensures Nearest(x) == n
  {
  }

  lemma SpreadEnds(low: real, high: real)
    ensures Spread(low, high, 0) == low && Spread(low, high, U64_MAX) == high
  {
    assert U64_MAX as real / U64_MAX as real == 1.0;
  }

  /** Some value of the stream gives `rate`. */
  ghost predicate Gives(low: real, high: real, rate: real) {
    exists k :: 0 <= k <= U64_MAX && RateOf(low, high, k) == rate
  }

  /** Rounding can step past an end, so it decides which ends any draw reaches. */
  lemma EndsReached(low: real, high: real)
    requires low < high
    ensures Gives(low, high, low) <==> RoundDp(low) <= low
    ensures Gives(low, high, high) <==> RoundDp(high) >= high
  {
    SpreadEnds(low, high);
    var x, y := RoundDp(low), RoundDp(high);
    assert RateOf(low, high, 0) == Clamp(x, low, high);
    assert RateOf(low, high, U64_MAX) == Clamp(y, low, high);
    if k :| 0 <= k <= U64_MAX && RateOf(low, high, k) == low {
      RateIsMonotone(low, high, 0, k);
    }
    if k :| 0 <= k <= U64_MAX && RateOf(low, high, k) == high {
      RateIsMonotone(low, high, k, U64_MAX);
    }
  }

  /** A low end with more than 12 places that no draw gives. */
  lemma LowEndCanBeMissed()
    ensures !Gives(0.000_000_000_000_6, 0.000_000_000_002, 0.000_000_000_000_6)
  {
    var low, high := 0.000_000_000_000_6, 0.000_000_000_002;
    assert low * PLACES == 0.6;
    EndsReached(low, high);
  }

  /** A larger draw never gives a smaller rate. */
  lemma RateIsMonotone(low: real, high: real, j: int, k: int)
    requires low <= high && j <= k
    ensures RateOf(low, high, j) <= RateOf(low, high, k)
  {
    SpreadIsMonotone(low, high, j, k);
    RoundDpIsMonotone(Spread(low, high, j), Spread(low, high, k));
  }

  lemma SpreadIsMonotone(low: real, high: real, j: int, k: int)
    requires low <= high && j <= k
    ensures Spread(low, high, j) <= Spread(low, high, k)
  {
    var x, y, width := j as real / U64_MAX as real, k as real / U64_MAX as real, high - low;
    DivideReal(j as real, k as real, U64_MAX as real);
    ScaleReal(x, y, width);
    assert width * x <= width * y;
  }

  lemma RoundDpIsMonotone(x: real, y: real)
    requires x <= y
    ensures RoundDp(x) <= RoundDp(y)
  {
    NearestIsMonotone(x * PLACES, y * PLACES);
  }

  lemma NearestIsMonotone(x: real, y: real)
    requires x <= y
    ensures Nearest(x) <= Nearest(y)
  {
  }

  // ------------------------------------------------------------------------------ the stream

  /** A deterministic generator: its state at a seed, and each state's next value and state. */
  datatype Generator<!S> = Generator(seeded: nat -> S, value: S -> int, next: S -> S)

  /** The generator's state `n` values past a seed. */
  function After<S>(g: Generator<S>, seed: nat, n: nat): S {
    if n == 0 then g.seeded(seed) else g.next(After(g, seed, n - 1))
  }

  datatype Fill = Fill(buys: bool, reference: real)

  datatype State<S> = State(config: Config, rng: S, draws: nat)

  function Fresh<S>(g: Generator<S>, config: Config): State<S> {
    State(config, g.seeded(config.Seed()), 0)
  }

  /** The stream `draws` values past the start of its seed. */
  function ResumedAt<S>(g: Generator<S>, config: Config, draws: nat): State<S> {
    State(config, After(g, config.Seed(), draws), draws)
  }

  /** The rate for one fill: a range of one rate draws nothing. */
  function NextRate<S>(g: Generator<S>, s: State<S>): real {
    if s.config.Low() == s.config.High() then s.config.Low()
    else RateOf(s.config.Low(), s.config.High(), g.value(s.rng))
  }

  function NextState<S>(g: Generator<S>, s: State<S>): State<S> {
    if s.config.Low() == s.config.High() then s
    else State(s.config, g.next(s.rng), s.draws + 1)
  }

  function Apply<S>(g: Generator<S>, s: State<S>, fill: Fill): real {
    Slipped(fill.buys, fill.reference, NextRate(g, s))
  }

  /** The prices a run of fills gets, and the state it leaves. */
  function Prices<S>(g: Generator<S>, s: State<S>, fills: seq<Fill>): seq<real>
    decreases |fills|
  {
    if fills == [] then []
    else [Apply(g, s, fills[0])] + Prices(g, NextState(g, s), fills[1..])
  }

  function RunState<S>(g: Generator<S>, s: State<S>, fills: seq<Fill>): State<S>
    decreases |fills|
  {
    if fills == [] then s else RunState(g, NextState(g, s), fills[1..])
  }

  class Slippage<S> {
    const g: Generator<S>
    const config: Config
    var rng: S
    var draws: nat

    function Current(): State<S>
      reads this
    {
      State(config, rng, draws)
    }

    constructor (g: Generator<S>, config: Config)
      ensures this.g == g && Current() == Fresh(g, config)
    {
      this.g, this.config := g, config;
      rng, draws := g.seeded(config.Seed()), 0;
    }

    /** Steps a fresh stream past the draws already made. */
    constructor Resumed(g: Generator<S>, config: Config, draws: nat)
      ensures this.g == g && Current() == ResumedAt(g, config, draws)
    {
      this.g, this.config, this.draws := g, config, draws;
      var rng := g.seeded(config.Seed());
      for i := 0 to draws
        invariant rng == After(g, config.Seed(), i)
      {
        rng := g.next(rng);
      }
      this.rng := rng;
    }

    method Draw() returns (rate: real)
      modifies this
      ensures rate == NextRate(g, old(Current()))
      ensures Current() == NextState(g, old(Current()))
    {
      if config.Low() == config.High() {
        return config.Low();
      }
      draws := draws + 1;
      rate := RateOf(config.Low(), config.High(), g.value(rng));
      rng := g.next(rng);
    }

    method ApplyTo(fill: Fill) returns (price: real)
      modifies this
      ensures price == Apply(g, old(Current()), fill)
      ensures Current() == NextState(g, old(Current()))
    {
      var rate := Draw();
      price := Slipped(fill.buys, fill.reference, rate);
    }
  }

  // ------------------------------------------------------------------------------ resuming

  /** Every state a run reaches is the one its count of draws resumes. */
  lemma {:induction false} RunIsResumable<S>(g: Generator<S>, s: State<S>, fills: seq<Fill>)
    requires s == ResumedAt(g, s.config, s.draws)
    ensures var after := RunState(g, s, fills);
            after.config == s.config && after == ResumedAt(g, s.config, after.draws)
    ensures RunState(g, s, fills).draws
         == s.draws + if s.config.Low() == s.config.High() then 0 else |fills|
    decreases |fills|
  {
    if fills != [] {
      RunIsResumable(g, NextState(g, s), fills[1..]);
    }
  }

  lemma {:induction false} RunConcat<S>(
    g: Generator<S>, s: State<S>, before: seq<Fill>, after: seq<Fill>)
    ensures Prices(g, s, before + after)
         == Prices(g, s, before) + Prices(g, RunState(g, s, before), after)
    decreases |before|
  {
    if before == [] {
      assert before + after == after;
    } else {
      RunConcat(g, NextState(g, s), before[1..], after);
      assert (before + after)[1..] == before[1..] + after;
    }
  }

  /** A run stopped anywhere and resumed from its count of draws gets the unbroken run's prices. */
  lemma ResumingGivesTheSamePrices<S>(
    g: Generator<S>, config: Config, before: seq<Fill>, after: seq<Fill>)
    ensures Prices(g, Fresh(g, config), before + after)
         == Prices(g, Fresh(g, config), before)
            + Prices(g, ResumedAt(g, config, RunState(g, Fresh(g, config), before).draws), after)
  {
    RunIsResumable(g, Fresh(g, config), before);
    RunConcat(g, Fresh(g, config), before, after);
  }

  lemma {:induction false} StateAfter<S>(g: Generator<S>, s: State<S>, fills: seq<Fill>, i: nat)
    requires i < |fills|
    ensures |Prices(g, s, fills)| == |fills|
    ensures Prices(g, s, fills)[i] == Apply(g, RunState(g, s, fills[..i]), fills[i])
    decreases |fills|
  {
    PricesLength(g, s, fills);
    if i > 0 {
      StateAfter(g, NextState(g, s), fills[1..], i - 1);
      assert fills[..i][1..] == fills[1..][..i - 1];
    }
  }

  /** The price of a reference moved against its order by `rate`. */
  predicate IsSlipped(price: real, fill: Fill, rate: real) {
    price == if fill.buys then fill.reference * (1.0 + rate) else fill.reference * (1.0 - rate)
  }

  /**
   On a range, the i-th fill is moved by the rate of the i-th value of the seed's own stream; a single
   rate moves every fill.
   */
  lemma EachFillTakesTheNextValue<S>(g: Generator<S>, repr: Repr, fills: seq<Fill>, i: nat)
    requires i < |fills|
    ensures |Prices(g, Fresh(g, Config(repr)), fills)| == |fills|
    ensures var price := Prices(g, Fresh(g, Config(repr)), fills)[i];
            match repr
            case NoSlippage => price == fills[i].reference
            case Fixed(rate) => IsSlipped(price, fills[i], rate)
            case Uniform(low, high, seed) =>
              IsSlipped(price, fills[i],
                        if low == high then low else RateOf(low, high, g.value(After(g, seed, i))))
  {
    var s, c := Fresh(g, Config(repr)), Config(repr);
    StateAfter(g, s, fills, i);
    RunIsResumable(g, s, fills[..i]);
    var at := RunState(g, s, fills[..i]);
    SlippedIsSlipped(fills[i], NextRate(g, at));
    if repr.NoSlippage? {
      assert NextRate(g, at) == 0.0;
    }
  }

  lemma SlippedIsSlipped(fill: Fill, rate: real)
    ensures IsSlipped(Slipped(fill.buys, fill.reference, rate), fill, rate)
  {
    if rate == 0.0 {
      assert 1.0 + rate == 1.0 && 1.0 - rate == 1.0;
    }
  }

  /** A price moved by at least `low` and at most `high` against the order, never to zero. */
  predicate Moved(buys: bool, reference: real, price: real, low: real, high: real) {
    if buys then Times(1.0 + low, reference) <= price <= Times(1.0 + high, reference)
    else 0.0 < Times(1.0 - high, reference) <= price <= Times(1.0 - low, reference)
  }

  lemma SlippedIsMoved(buys: bool, reference: real, rate: real, low: real, high: real)
    requires reference > 0.0 && 0.0 <= low <= rate <= high < 1.0
    ensures Moved(buys, reference, Slipped(buys, reference, rate), low, high)
  {
    TimesOne(reference);
    if buys {
      TimesMonotone(1.0 + low, 1.0 + rate, reference);
      TimesMonotone(1.0 + rate, 1.0 + high, reference);
      assert rate == 0.0 ==> 1.0 + rate == 1.0;
    } else {
      NothingTimes(reference);
      TimesStrict(0.0, 1.0 - high, reference);
      TimesMonotone(1.0 - high, 1.0 - rate, reference);
      TimesMonotone(1.0 - rate, 1.0 - low, reference);
      assert rate == 0.0 ==> 1.0 - rate == 1.0;
    }
  }

  lemma NothingTimes(a: real)
    ensures Times(0.0, a) == 0.0
  {
  }

  /** Over any run of an accepted configuration, every positive price moves against its order, in range. */
  lemma {:induction false} EveryPriceIsAdverse<S>(
    g: Generator<S>, s: State<S>, fills: seq<Fill>, i: nat)
    requires Configured(s.config.repr).Ok? && i < |fills| && fills[i].reference > 0.0
    ensures |Prices(g, s, fills)| == |fills|
    ensures Moved(fills[i].buys, fills[i].reference, Prices(g, s, fills)[i],
                  s.config.Low(), s.config.High())
    decreases |fills|
  {
    PricesLength(g, s, fills);
    ConfiguredIsExact(s.config.repr);
    if i == 0 {
      SlippedIsMoved(fills[0].buys, fills[0].reference, NextRate(g, s),
                     s.config.Low(), s.config.High());
    } else {
      EveryPriceIsAdverse(g, NextState(g, s), fills[1..], i - 1);
    }
  }

  lemma {:induction false} PricesLength<S>(g: Generator<S>, s: State<S>, fills: seq<Fill>)
    ensures |Prices(g, s, fills)| == |fills|
    decreases |fills|
  {
    if fills != [] {
      PricesLength(g, NextState(g, s), fills[1..]);
    }
  }
}
