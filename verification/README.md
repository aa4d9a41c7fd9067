# Models of rustrade-execution

Dafny models of the parts of `rustrade-execution` that replace a plain rule with a search, a bound,
a cache or a rounding, and proofs that the two agree. `dafny verify dfyconfig.toml` checks the whole
project.

| module | what it models |
|---|---|
| `DailyAccrual`, `DailyCharges`, `DailyClock` | The daily holding-cost calendar: the search for the next cutoff and settlement dates; which days a run of charges is for; which cutoffs a move of the venue's clock reaches |
| `Schedule` | The venue's walk through any model's boundaries as its clock moves |
| `RateSeries` | A rate as a step function of time, searched by halving |
| `MarginInterest` | Interest charged a period at a time and rounded up to a unit |
| `Decimals`, `GridRounding`, `RoundingRoom`, `SharedGrid`, `OrderRules` | Decimals as a 96-bit mantissa and a scale of up to 28, rounding to a grid and where digits run out, the grid two steps share, and the order check |
| `ReduceOnlyBook`, `ReduceOnlyRuns`, `IndexMap` | The book of reduce-only orders as a class over two insertion-ordered maps, and every run of its operations against an unbounded log |
| `SpotMarginConfig` | What margin configurations are accepted, and in what form |
| `SpotMarginValue`, `SpotMarginLending` | What each asset is priced at, now and over the borrow price window, what an account is worth, what the venue lends it and when it liquidates it |
| `NameMap` | Exchange names resolved as registered or ignoring ASCII case |
| `Slippage` | The seeded stream of adverse rates, and resuming it |
| `Indexer` | Account events with names replaced by indices, and the snapshot split |

`Wrappers`, `Search`, `Spans` and `IntArith` hold what these share. A panic of the program is `None`. Instants
and spans are nanoseconds and dates are day numbers, both from the Unix epoch. Outside `Decimals`,
amounts are exact rationals inside `real`.

## What the proofs show about the code

- **A gap past midnight.** A cutoff in a daylight-saving gap is moved to the first local time after
  it. When that is on the next local date, the days of the charge are read from that date. The charge
  is still for the right days exactly when settlement lags and that date is closed
  (`DailyCharges.ChargeIsForItsDate`). The first cutoff of a run that is wrong leaves a day to no
  charge, so a run charges each day once exactly when every one of its cutoffs is right
  (`DailyCharges.EachDayIsChargedOnce`). The number of days can come out right where the days are
  wrong: `DailyCharges.DaysAreConserved` has its own condition.
- **A cutoff hidden by a gap.** A cutoff with seconds in it lands seconds past the gap, while the
  search starts from the local date it then is. Asked from those seconds, `next_boundary` passes over
  a cutoff still to come (`DailyCharges.AGapCanHideACutoff`), so where a clock move is split can change
  what it charges. `DailyAccrual.NextBoundaryIsLeast`, `DailyClock.ClockReachesTheCutoffs` and
  `DailyClock.WhenSplittingChangesNothing` say exactly when it does not. In an orderly zone it never
  does: one that places every cutoff in order, on its own date, and whose local dates never go back,
  as a fixed offset does (`DailyAccrual.OrderlyIsKeepingDates`, `DailyAccrual.FixedOffsetIsOrderly`).
- **The walk asks once more than it yields.** The boundary iterator finds each boundary's successor
  as it takes the boundary, so a move of the clock can panic for a boundary beyond it.
  `Schedule.Completes` says when it does not. Where asking later, short of the next boundary, gives
  the same boundary, as in an orderly zone, splitting a move does not change that
  (`Schedule.SplittingAWalk`).
- **A shared step is refused before its zeros are dropped.** `rules.rs` documents `None` for a step
  "a `Decimal` cannot hold", but the fit is decided at the finer scale, before trailing zeros are
  dropped. `SharedGrid.WhenARefusedStepExists` says exactly which refused steps a decimal holds.
- **Rounding near the ends of the range.** The grid check after a rounded difference keeps the
  answer on the grid, not next to the value: rounding down can skip a step
  (`RoundingRoom.RoundingCanSkipAStep`). The answer is the right multiple wherever a mantissa holds it
  at the finer scale, and beyond that no arithmetic that is merely exact where it can be is safe:
  one of them gives no answer, and another a wrong one (`RoundingRoom.RoundDownNeedsRoom`).
- **The ends of a slippage range.** Both ends are documented as included. A rate is rounded to 12
  places and then clamped, so an end given with more places can be out of reach of every draw:
  `Slippage.EndsReached` says exactly when.
- **Why the checks in the margin configuration are there.** Every liquidation level validation
  refuses is one the venue would lend into, and a borrow price window without the current prices
  would do the same (`SpotMarginLending.RefusedLevelWouldBeReached`,
  `SpotMarginLending.WindowAloneWouldReachLiquidation`).
- **The order a snapshot fails in.** Top-level balances are looked up before instruments but the
  strict form reports them last, so a snapshot with both an unregistered balance and an unregistered
  instrument fails on the instrument.

## Model

| member | source | states |
|---|---|---|
| DailyAccrual.FindNextBusinessDay | rustrade-execution/src/holding_cost.rs:456-465 | the loop answers as the search specification does, panics included |
| DailyAccrual.NextBusinessDayIsTheFirst | rustrade-execution/src/holding_cost.rs:456-465 | the answer is the first business day of the 3660 dates after the date given, and there is none exactly when none of them, up to the last representable date, is one |
| DailyAccrual.LagCountsBusinessDays | rustrade-execution/src/holding_cost.rs:467-470 | the date a lag leads to is exactly that many business days on, and itself one unless the lag is zero |
| DailyAccrual.LagCommutes | rustrade-execution/src/holding_cost.rs:468-470 | settling the next business day's trade is settling today's and stepping once more, for any calendar and lag, one side panicking exactly when the other does |
| DailyAccrual.Accrual.FindNextBoundary | rustrade-execution/src/holding_cost.rs:371-388 | the loop over dates answers as the search specification does, panics included |
| DailyAccrual.FixedOffsetIsOrderly | rustrade-execution/src/holding_cost.rs:422-434 | in a zone with a fixed offset every cutoff is placed on its own local date, in date order |
| DailyAccrual.CutoffKeepsItsDate | rustrade-execution/src/holding_cost.rs:422-434 | in any zone, a cutoff stepped past a gap is on its own local date if the gap ends before midnight, and otherwise on the next one |
| DailyAccrual.WhenCutoffsArePlaced | rustrade-execution/src/holding_cost.rs:340-345 | where later local times come later, cutoffs are placed in date order if and only if no gap takes one as far as the next date's |
| DailyAccrual.OrderlyIsKeepingDates | rustrade-execution/src/holding_cost.rs:422-434 | where local dates never go back, a zone is orderly if and only if every cutoff keeps its local date |
| DailyAccrual.NextBoundaryIsLeast | rustrade-execution/src/holding_cost.rs:366-388 | the next boundary is a cutoff strictly later, and the least if and only if no cutoff of an earlier local date is still to come; there is none exactly when no date of the search window has a later cutoff |
| DailyAccrual.NextBoundaryUnmoved | rustrade-execution/src/holding_cost.rs:371-388 | in an orderly zone, asked from any instant before the next boundary, the next boundary is the same |
| DailyAccrual.NextBoundaryIsOnNextDate | rustrade-execution/src/holding_cost.rs:371-388 | the boundary after a cutoff, wherever the clock puts it, is the cutoff of the next business day |
| DailyAccrual.DaysAreTheSettlementSpan | rustrade-execution/src/holding_cost.rs:397-412 | a charge covers exactly the days from its settlement to the next one's, at least 1 and at most 3660, so the conversion to 32 bits never saturates |
| DailyCharges.DaysOfALaterDate | rustrade-execution/src/holding_cost.rs:397-412 | a later date is for no earlier days, and for the same days if and only if the lag is positive and no business day comes between |
| DailyCharges.ChargeIsForItsDate | rustrade-execution/src/holding_cost.rs:324-331 | in any zone, a charge is for exactly the days of its cutoff's date if and only if the gap ends before midnight, or settlement lags and the next date is closed |
| DailyCharges.CutoffsAreInOrder | rustrade-execution/src/holding_cost.rs:422-434 | in any zone whose later local times come later, cutoffs that can be placed are on their own date or the next one, and in date order, two of them at one instant at most |
| DailyCharges.EachDayIsChargedOnce | rustrade-execution/src/holding_cost.rs:320-335 | a run from one date's cutoff to another's charges each calendar day from the first settlement to the last once, and no other, if and only if the cutoff of every date it spans is on that date, or lags past a closed next one; only those dates are asked to be placed in order |
| DailyCharges.SharedInstantLosesADate | rustrade-execution/src/holding_cost.rs:340-345 | where a gap takes a cutoff to the instant of the next date's, the one charge is for none of the earlier date's days, and no run over both dates charges each day once |
| DailyCharges.ChargeIsTheRightSpan | rustrade-execution/src/holding_cost.rs:397-412 | a charge is for as many days as its cutoff's date if and only if it is for those days, or is read on an open date and the two business days after the settlement are evenly spaced |
| DailyCharges.DaysAreConserved | rustrade-execution/src/holding_cost.rs:320-328 | the days charged add up at every date a run spans if and only if no two of those dates share an instant and every one's charge is for the right number |
| DailyCharges.OrderlyRunsChargeOnce | rustrade-execution/src/holding_cost.rs:320-335 | in an orderly zone every run charges each day once, and the days add up |
| DailyCharges.ConstantAmountAccruesByTheDay | rustrade-execution/src/holding_cost.rs:240-247 | a constant annual amount comes over a run, whose charges are for the right numbers of days, to that amount times the days the run settles over 360 or 365 |
| DailyCharges.AGapPastMidnightChargesADayTwice | rustrade-execution/src/holding_cost.rs:340-345 | an example, on any calendar with cutoffs on both dates and any lag: two consecutive charges for the same days, and none for the days of the first date |
| DailyCharges.AGapCanHideACutoff | rustrade-execution/src/holding_cost.rs:366-370 | an example: asked from the end of a gap, the next boundary passes over a cutoff half a minute away |
| DailyClock.WalkIsByDate | rustrade-execution/src/exchange/mock/venue.rs:5041-5049 | a clock move that completes reaches, in order and once each, the cutoffs in its interval of the dates from the local one it starts on |
| DailyClock.ClockReachesTheCutoffs | rustrade-execution/src/exchange/mock/venue.rs:5041-5049 | it reaches every cutoff of its interval if and only if none of an earlier local date falls there, as none does in an orderly zone |
| DailyClock.WhenSplittingChangesNothing | rustrade-execution/src/exchange/mock/venue.rs:1020-1034 | a move split in two reaches what the whole one does if and only if no cutoff of a local date between the one it starts on and the one it is split on is still to come, clocks set back over midnight included |
| DailyClock.WalkIsARun | rustrade-execution/src/exchange/mock/venue.rs:5041-5049 | what a move reaches is a run of consecutive cutoffs |
| DailyClock.ClockMovesChargeEachDayOnce | rustrade-execution/src/exchange/mock/venue.rs:1020-1034 | in an orderly zone, the charges of any completed moves of the clock are one run, and charge each calendar day from its first settlement to its last once |
| DailyClock.SplittingTheClockMove | rustrade-execution/src/exchange/mock/venue.rs:1020-1034 | in an orderly zone a move completes exactly when both moves it is split into do, and reaches what they reach |
| Schedule.WalkIsWhatIsDue | rustrade-execution/src/exchange/mock/venue.rs:5041-5049 | for any model that answers with the least due instant, a walk yields exactly what is due in its interval, in order |
| Schedule.WalkIsConsecutive | rustrade-execution/src/exchange/mock/venue.rs:5041-5049 | each boundary a walk yields is the next one from the boundary before |
| Schedule.CompletingIsAnswering | rustrade-execution/src/exchange/mock/venue.rs:5041-5049 | a walk panics nowhere exactly when there is a next boundary from its start and from each one it yields, and one more after each of those |
| Schedule.MovesAreOneMove | rustrade-execution/src/exchange/mock/venue.rs:1020-1034 | for any such model, any number of completed moves reach what one move over them all does |
| Schedule.SplittingAWalk | rustrade-execution/src/exchange/mock/venue.rs:5041-5049 | for any model whose next boundary does not move, one walk is the two walks it is split into, the look-ahead past the end included |
| RateSeries.NewAcceptsTheAscending | rustrade-execution/src/holding_cost.rs:179-189 | exactly the strictly ascending points are accepted, unchanged; otherwise the error names the first point that does not follow its predecessor, and both instants |
| RateSeries.AtIsTheScan | rustrade-execution/src/holding_cost.rs:198-203 | the binary search agrees with a linear scan for the latest point at or before the time |
| RateSeries.EachRateAppliesUntilTheNext | rustrade-execution/src/holding_cost.rs:140-144 | each rate applies from its own instant until the next point's, and none before the first |
| MarginInterest.NextWholeIntervalIsLeast | rustrade-execution/src/holding_cost.rs:437-448 | the answer is the least multiple of the interval strictly later, before the epoch too; there is none exactly when 64 bits hold no later multiple |
| MarginInterest.InterestFallsOnWholePeriods | rustrade-execution/src/exchange/mock/venue.rs:5041-5049 | a clock move reaches exactly the whole multiples of the period in its interval, in order, whether or not 64 bits run out |
| MarginInterest.EachPeriodIsPaidOnce | rustrade-execution/src/margin.rs:1112-1117 | a loan is charged floor(T/I) - floor(t/I) + 1 times, the k-th charge in the k-th period from the one the loan is taken in, loans taken on a boundary included |
| MarginInterest.OtherwiseOnlyTheBorrowPays | rustrade-execution/src/margin.rs:1198-1208 | with boundaries off, an asset without rates or an interval out of range, the only charge is the one at the borrow |
| MarginInterest.BoundariesDoNotDependOnTheClock | rustrade-execution/src/exchange/mock/venue.rs:5041-5049 | interest boundaries are the same however the clock is moved through an interval |
| MarginInterest.BuildersKeepValid | rustrade-execution/src/margin.rs:1161-1187 | the builders accept exactly non-negative rates and positive units, and keep a model valid |
| MarginInterest.EveryModelIsValid | rustrade-execution/src/margin.rs:1140-1195 | a model is built exactly from a positive period and settings no builder refuses, and every model that is built is valid |
| MarginInterest.EveryModelIsAsSet | rustrade-execution/src/margin.rs:1140-1195 | a built model has each asset's rates and unit as last set, and the schedule, else no rates, 1e-8 and a charge at each boundary |
| MarginInterest.ChargeIsTheLeastMultiple | rustrade-execution/src/margin.rs:1210-1228 | a charge is the least whole multiple of the asset's unit at or above principal times rate times period, over 360 or 365 days, with the rate of the last point at or before the instant |
| MarginInterest.RateIsTheLatest | rustrade-execution/src/margin.rs:1216 | a loan is charged exactly where one of the asset's points is at or before the instant, and at the rate of the last such |
| MarginInterest.LargerLoansCostNoLess | rustrade-execution/src/margin.rs:1210-1228 | a larger loan is never charged less, and one loan never more than any number of loans that make it up |
| MarginInterest.PeriodChargeRoundsUp | rustrade-execution/src/margin.rs:1210-1228 | a charge is a non-negative whole number of units, at least the exact accrual and less than one unit above it |
| MarginInterest.ChargesAreNeverNegative | rustrade-execution/src/margin.rs:1029-1030 | every charge of a model that can be built is non-negative, and there is one exactly when the asset has a rate then |
| ReduceOnlyBook.ReduceOnlyBook.constructor | rustrade-execution/src/reduce_only.rs:175-178 | a new book is the empty one |
| ReduceOnlyBook.ReduceOnlyBook.Register | rustrade-execution/src/reduce_only.rs:203-216 | the fields become those of the specification's registered book; the counter never falls below zero |
| ReduceOnlyBook.ReduceOnlyBook.Acknowledge | rustrade-execution/src/reduce_only.rs:224-228 | the venue id is set on the live order, else the retired one, else nothing changes |
| ReduceOnlyBook.ReduceOnlyBook.Retire | rustrade-execution/src/reduce_only.rs:234-241 | the fields become those of the specification's retired book; the counter never falls below zero |
| ReduceOnlyBook.ReduceOnlyBook.RetireUntracked | rustrade-execution/src/reduce_only.rs:248-267 | one pass leaves the specification's bulk retirement, in registration order |
| ReduceOnlyBook.ReduceOnlyBook.LookupIds | rustrade-execution/src/reduce_only.rs:284-311 | the answer is the first order the ids match, the live ones before the retired in the order they were sent and ended, and nothing exactly when none does; a client order id never falls back to the venue's |
| ReduceOnlyBook.ReduceOnlyBook.HasReduceOnly | rustrade-execution/src/reduce_only.rs:191-195 | the cached answer is true if and only if some lookup finds a reduce-only order |
| ReduceOnlyBook.ReduceOnlyBook.Clear | rustrade-execution/src/reduce_only.rs:323-328 | nothing is left |
| ReduceOnlyBook.HasReduceOnlyIsExact | rustrade-execution/src/reduce_only.rs:191-195 | on a consistent book the counter and the retired orders tell exactly whether any lookup can find a reduce-only order |
| ReduceOnlyBook.LookupFindsTheFirst | rustrade-execution/src/reduce_only.rs:269-311 | the specification's lookup is that first match, for any book |
| ReduceOnlyRuns.StepKeepsValid | rustrade-execution/src/reduce_only.rs:203-267 | every operation keeps live and retired ids distinct and disjoint, every retired order reduce-only, at most 64 of them, and the counter exact |
| ReduceOnlyRuns.RunKeepsValid | rustrade-execution/src/reduce_only.rs:203-328 | so does every run of operations |
| ReduceOnlyRuns.InsertRetiredFacts | rustrade-execution/src/reduce_only.rs:330-343 | a retirement keeps at most 64 orders, the new one last, at the cost of the oldest alone |
| ReduceOnlyRuns.BulkRetirementIsOneByOne | rustrade-execution/src/reduce_only.rs:243-267 | bulk retirement leaves what retiring each untracked order by itself in registration order does, evictions part-way included |
| ReduceOnlyRuns.LoadingMakesValid | rustrade-execution/src/reduce_only.rs:146-169 | loading any parts gives a consistent book, whose retired orders are a suffix of the loadable ones, all of them if fewer than 64 are kept |
| ReduceOnlyRuns.LoadingWhatWasSaved | rustrade-execution/src/reduce_only.rs:146-169 | loading the parts of any consistent book gives the same book, counter included |
| ReduceOnlyRuns.BookRefinesLog | rustrade-execution/src/reduce_only.rs:203-267 | after any run, the book holds the unbounded log's live orders and a suffix of its retired ones |
| ReduceOnlyRuns.HeldAsSent | rustrade-execution/src/reduce_only.rs:197-228 | after any run, every order held is as it was last sent and acknowledged, and exactly the open ones are live |
| ReduceOnlyRuns.LookupsAnswerAsSent | rustrade-execution/src/reduce_only.rs:269-311 | after any run, every open order is found under its client order id, and whatever is found by either id has the flag it was last sent with |
| ReduceOnlyRuns.RecentRetirementIsFound | rustrade-execution/src/reduce_only.rs:111-114 | a reduce-only order retired by itself or in a bulk pass is still found with its flag while fewer than 64 reduce-only orders are retired after it, later in that pass included, however many ordinary orders come and go |
| Decimals.RemIsZero | rustrade-execution/src/rules.rs:109-111 | the truncated remainder is zero exactly when the value is a whole multiple of the step, either sign, any two scales |
| Decimals.MantissasAreNinetySixBits | rustrade-execution/src/rules.rs:195-199 | a mantissa is any whole number of 96 bits and a sign, and a decimal has up to 28 places |
| SharedGrid.FindCommonStep | rustrade-execution/src/rules.rs:183-200 | Euclid's loop ends and answers as the specification does; no checked 128-bit step fails where the result would fit a mantissa |
| SharedGrid.LcmIsCommon | rustrade-execution/src/rules.rs:191-196 | the multiples of the computed least common multiple are exactly the common multiples |
| SharedGrid.CommonStepIsTheSharedGrid | rustrade-execution/src/rules.rs:181-200 | there is an answer if and only if the least common multiple at the finer scale fits 96 bits, its multiples are exactly the values on both grids, and it has no trailing zero after the point |
| SharedGrid.WhenARefusedStepExists | rustrade-execution/src/rules.rs:181-200 | a refused step is one a decimal holds if and only if the least common multiple does not fit at the finer scale, and does without some of its trailing zeros, no more than that scale has places |
| SharedGrid.SharedStepCanBeRefused | rustrade-execution/src/rules.rs:181-200 | an example: one of the two steps is the shared one, and is refused |
| GridRounding.RoundDownIsGreatest | rustrade-execution/src/rules.rs:138-155 | with any arithmetic that is exact where it can be, the answer is the greatest multiple at or below the value, either sign, where a mantissa holds it at the finer scale |
| GridRounding.RoundUpIsLeast | rustrade-execution/src/rules.rs:157-173 | under the mirrored condition, the answer is the least multiple at or above the value |
| GridRounding.RoundingStaysOnGrid | rustrade-execution/src/rules.rs:175-179 | whatever the arithmetic rounds, an answer is on the grid and rounds to itself |
| RoundingRoom.RoundDownNeedsRoom | rustrade-execution/src/rules.rs:80-85 | every arithmetic that is exact where it can be has an answer, and every one has no wrong answer, if and only if the value is on the grid or a mantissa holds the greatest multiple at the finer scale |
| RoundingRoom.RoundUpNeedsRoom | rustrade-execution/src/rules.rs:87-94 | the same for the least multiple at or above |
| RoundingRoom.RoundingCanSkipAStep | rustrade-execution/src/rules.rs:175-177 | an example: an arithmetic that is exact where it can be, and else rounds to one digit fewer, lands a whole step below the greatest multiple |
| OrderRules.RuleIsItsGridAndRange | rustrade-execution/src/rules.rs:102-135 | a value passes if and only if it is on the grid and in the range, and an error names a rule the value breaks, grid before range |
| OrderRules.QuantityGridExists | rustrade-execution/src/rules.rs:309-320 | there is a grid to round to if and only if the order is not a market order, or one of the two rules has no positive step, or a mantissa holds the least common multiple of the two at the finer scale |
| OrderRules.QuantityGridIsEveryGrid | rustrade-execution/src/rules.rs:309-320 | the quantity grid is exactly the quantities the quantity rule's grid and, for a market order, the market rule's grid accept |
| OrderRules.QuantityDownIsGreatest | rustrade-execution/src/rules.rs:289-300 | rounding a quantity down gives the greatest at or below it on every grid it is held to, where a mantissa holds it at the finer scale |
| OrderRules.QuantityUpIsLeast | rustrade-execution/src/rules.rs:302-307 | rounding a quantity up gives the least at or above it on every grid it is held to, where a mantissa holds it at the finer scale |
| OrderRules.RoundedQuantityPassesTheGrids | rustrade-execution/src/rules.rs:289-307 | a rounded quantity rounds to itself, and the check never answers that it is off its grid |
| OrderRules.CheckFindsTheFirstBreach | rustrade-execution/src/rules.rs:322-404 | the check passes if and only if everything the order is held to is met, and otherwise reports the first breach in the documented order |
| OrderRules.PercentIsHundredBasisPoints | rustrade-execution/src/rules.rs:443-458 | for trailing orders of any kinds, an offset in percent passes exactly when a hundred times it passes in basis points, where the limits divide by 100 without rounding |
| SpotMarginConfig.ValidationIsExact | rustrade-execution/src/margin.rs:656-740 | validation accepts exactly the configurations whose getters meet every rule, and pruning changes no rule |
| SpotMarginConfig.ErrorIsTheFirstFault | rustrade-execution/src/margin.rs:656-728 | a refusal names the first fault there is, of the checks in order and of the assets by name, with its values |
| SpotMarginConfig.LiquidationIsExact | rustrade-execution/src/margin.rs:985-1003 | a liquidation is accepted exactly with a level of at least 1, a fee from 0 up to 1 and a margin call above the level, and a refusal names the first it breaks |
| SpotMarginConfig.LendingAlikeIsEqual | rustrade-execution/src/margin.rs:729-738 | two configurations that lend alike, asset by asset, are equal once kept |
| SpotMarginConfig.EqualIsLendingAlike | rustrade-execution/src/margin.rs:729-738 | two configurations that are equal once kept lend alike |
| SpotMarginConfig.LoadingWhatWasSaved | rustrade-execution/src/margin.rs:742-746 | a kept configuration, saved and loaded, is accepted unchanged |
| SpotMarginConfig.BorrowRatioBuilderIsLocal | rustrade-execution/src/margin.rs:517-528 | a borrow ratio is refused only outside 0 to the asset's liquidation ratio, and changes nothing else |
| SpotMarginConfig.LiquidationRatioBuilderIsLocal | rustrade-execution/src/margin.rs:549-562 | a liquidation ratio is refused only outside the asset's borrow ratio to 1, and changes nothing else |
| SpotMarginConfig.RatiosBuilderIsLocal | rustrade-execution/src/margin.rs:579-602 | two ratios set together are accepted exactly when 0 <= borrow <= liquidation <= 1, whatever ratios they replace |
| SpotMarginConfig.MinBorrowBuilderIsLocal | rustrade-execution/src/margin.rs:430-446 | a minimum is refused only below zero, and an accepted one changes that asset's minimum and nothing else |
| SpotMarginConfig.MaxBorrowBuilderIsLocal | rustrade-execution/src/margin.rs:493-502 | a cap is refused only below zero, and an accepted one changes that asset's cap and nothing else |
| SpotMarginConfig.LiquidationBuilderIsLocal | rustrade-execution/src/margin.rs:633-647 | a valid liquidation is refused exactly when an account borrowed to the leverage limit would be at its level, and an accepted one replaces the liquidation and nothing else |
| SpotMarginValue.PricesAreExtremes | rustrade-execution/src/exchange/mock/venue.rs:1498-1560 | an asset owed or being borrowed is priced at the greatest of its current price and the window's highest, every other at the least of it and the lowest; outside the window at its current price; the valuation asset at one; one without a quote at nothing |
| SpotMarginValue.FindValue | rustrade-execution/src/exchange/mock/venue.rs:1446-1480 | the loop over the balances gives the specification's equity and debt, or nothing |
| SpotMarginValue.UnvaluedIsADebt | rustrade-execution/src/exchange/mock/venue.rs:1463-1468 | an account has no value exactly when something it owes cannot be priced |
| SpotMarginValue.OneBalanceIsWorth | rustrade-execution/src/exchange/mock/venue.rs:1469-1477 | a balance counts its net at its price, by the check's own ratio only where the net is positive, and its debt |
| SpotMarginValue.UnpricedIsWorthNothing | rustrade-execution/src/exchange/mock/venue.rs:1463-1468 | a balance that nothing is owed of and that cannot be priced counts for nothing |
| SpotMarginValue.AccountsAddUp | rustrade-execution/src/exchange/mock/venue.rs:1453-1479 | an account is worth what any two parts of it are |
| SpotMarginLending.BorrowRatiosAreStricter | rustrade-execution/src/margin.rs:257-259 | the liquidation check counts the same debt and at least the equity the borrow check counts |
| SpotMarginLending.LendingIsExact | rustrade-execution/src/exchange/mock/account.rs:563-574 | a loan raises what is held and owed of its asset by its amount, and touches no other |
| SpotMarginLending.LeverageRoomIsExact | rustrade-execution/src/exchange/mock/venue.rs:1340-1377 | there is room to speak of exactly when the asset and every debt can be priced, and a positive amount is within it if and only if lending it stays within the leverage limit at current prices and, with a window, at the window's |
| SpotMarginLending.LeverageLimitIsAboveLiquidation | rustrade-execution/src/margin.rs:718-728 | any holdings and debts within the leverage limit are above the liquidation level, on every configuration that can exist |
| SpotMarginLending.LendingMovesOnlyDebt | rustrade-execution/src/exchange/mock/account.rs:563-574 | a loan raises the account's debt by its worth and leaves its equity as it was, for either check |
| SpotMarginLending.LendingNeverReachesLiquidation | rustrade-execution/src/exchange/mock/venue.rs:1340-1377 | no loan within the room the venue computes leaves the account where it liquidates it, with a borrow price window or without |
| SpotMarginLending.RefusedLevelWouldBeReached | rustrade-execution/src/margin.rs:636-640 | for every liquidation level the configuration refuses, an account holding one unit of an asset both checks count alike, at any price, would be lent into it |
| SpotMarginLending.WindowAloneWouldReachLiquidation | rustrade-execution/src/margin.rs:277-281 | an example in numbers: the window's prices alone lend an account, of an asset counted in full, into its liquidation level, where the lesser of the two does not |
| NameMap.FoldNames | rustrade-execution/src/map.rs:245-267 | the loops bind a folded key to an index exactly when one name alone folds to it, however many clash |
| NameMap.FoldingIgnoresOrder | rustrade-execution/src/map.rs:240-267 | the folded map is the same for every permutation of the names |
| NameMap.DirectoryIgnoresOrder | rustrade-execution/src/map.rs:87-96 | a directory is the same whatever order its hash map is walked in |
| NameMap.FoldIgnoresCase | rustrade-execution/src/map.rs:24-30 | two names fold alike exactly when they are of one length and differ at most in the case of ASCII letters |
| NameMap.NamesOfIndices | rustrade-execution/src/map.rs:180-208 | an index has the name it is listed under whatever its exchange, and a name of this exchange's own exactly where this exchange lists it |
| NameMap.DeduplicatedIsASet | rustrade-execution/src/map.rs:72-76 | the set of listings holds each there is, once |
| NameMap.FindResolves | rustrade-execution/src/map.rs:157-178 | a name resolves to the listing registered under that spelling and, failing that, to the one spelling that differs in case alone, and to nothing if there is none or several |
| NameMap.RegisteredNameResolves | rustrade-execution/src/map.rs:59-113 | where no two listings of an exchange share a name, a registered name resolves to its own index, and the index back to the name |
| NameMap.SpellingsResolveAlike | rustrade-execution/src/map.rs:24-30 | where no two names differ only in case, any spelling resolves exactly to the listing whose name folds alike |
| NameMap.ResolvingComesBack | rustrade-execution/src/map.rs:180-208 | index to name after name to index gives a name of this exchange with the same fold |
| Slippage.ConfiguredIsExact | rustrade-execution/src/slippage.rs:141-161 | no slippage, a rate from 0 up to 1 and a range of such rates are accepted as they are, nothing else is, and a refusal names the first fault |
| Slippage.Slippage.constructor | rustrade-execution/src/slippage.rs:203-210 | a new stream is at the start of its seed |
| Slippage.Slippage.Resumed | rustrade-execution/src/slippage.rs:216-223 | the loop leaves the stream the given number of values past the start of its seed |
| Slippage.Slippage.Draw | rustrade-execution/src/slippage.rs:248-264 | one rate of the range, and one value of the stream unless the range is a single rate |
| Slippage.Slippage.ApplyTo | rustrade-execution/src/slippage.rs:236-245 | the reference moved against the order by the rate drawn, and the stream advanced once |
| Slippage.RunIsResumable | rustrade-execution/src/slippage.rs:195-223 | after any run of fills, resuming from the count of draws gives exactly the state reached |
| Slippage.ResumingGivesTheSamePrices | rustrade-execution/src/slippage.rs:212-223 | a run stopped anywhere and resumed gets the unbroken run's prices |
| Slippage.EveryPriceIsAdverse | rustrade-execution/src/slippage.rs:19-32 | over any run, every positive reference is moved against its order by a rate between low and high, and a sell stays positive |
| Slippage.EachFillTakesTheNextValue | rustrade-execution/src/slippage.rs:236-264 | the i-th fill is moved by the rate of the i-th value of the seed's stream, or by the one rate there is |
| Slippage.RateIsRounded | rustrade-execution/src/slippage.rs:253-263 | a value's rate is the point of the range as far along as it is from 0 to 2^64 - 1, to the nearest 12th place, ties to even, brought back to the end it is rounded past |
| Slippage.RateIsMonotone | rustrade-execution/src/slippage.rs:253-263 | a larger value of the stream never gives a smaller rate |
| Slippage.EndsReached | rustrade-execution/src/slippage.rs:253-263 | some draw gives low if and only if rounding low to 12 places does not raise it, and some draw gives high if and only if rounding high does not lower it |
| Slippage.LowEndCanBeMissed | rustrade-execution/src/slippage.rs:27-28 | an example: a low end with more than 12 places that no draw gives |
| Indexer.AccountEventIndexer.SnapshotPartitioned | rustrade-execution/src/indexer.rs:200-269 | the loop splits the balances into the indexed and the untracked as the specification does, with the same first failure |
| Indexer.EachBalanceIsInOneList | rustrade-execution/src/indexer.rs:212-224 | each balance is in exactly one of the two lists, at the place its order gives it, and the lists hold nothing else |
| Indexer.PartitionIsIndexed | rustrade-execution/src/indexer.rs:226-266 | a snapshot that is split keeps every instrument in order, with its orders, flags, position and isolated balances, each name replaced by the index its directory finds |
| Indexer.StrictIsNothingUntracked | rustrade-execution/src/indexer.rs:164-180 | the strict form succeeds exactly when the other does with nothing untracked, and then with the same snapshot; it fails on the first untracked asset otherwise |
| Indexer.SkippingHidesNothing | rustrade-execution/src/indexer.rs:186-189 | a snapshot fails exactly as it would with no top-level balances at all |
| Indexer.EventFailsOnItsFirstMiss | rustrade-execution/src/indexer.rs:93-152 | an event is indexed exactly when every name it needs is registered, and fails with the first that is not |
| Indexer.EventIsIndexed | rustrade-execution/src/indexer.rs:93-152 | an indexed event is of the same kind, with the same details and lists of the same length in the same order, each name replaced by the index its directory finds for it |
| Indexer.UntrackedIsABalanceAlone | rustrade-execution/src/indexer.rs:73-91 | an untracked balance is reported exactly for a balance event of this exchange whose asset is not registered; any other failure is the first name missing |
| Indexer.FeesNeverLoseATrade | rustrade-execution/src/indexer.rs:834-912 | a trade is kept exactly when its instrument is registered, its fee zeroed in the quote asset when the fee asset is not |
| Indexer.BuiltDirectoriesAreInRange | rustrade-execution/src/indexer.rs:871-883 | a name never resolves past the listings of a directory the builder's listings give |

## Left out

- The simulated venue's matching, settlement and order lifecycle, repayment and the steps of a liquidation: only valuation, the leverage room, lending and the level test are modelled.
- A liquidation already under way, which the venue carries on at any level.
- SpotMarginLending.LendingNeverReachesLiquidation: does not count interest charged at the borrow itself, because the leverage limit does not; it speaks of the account before that charge.
- Minimum loans and per-asset caps in how much is lent: they only raise a loan to a minimum or refuse it.
- Where the venue's prices come from: an asset's quote is any positive price, with any lowest and highest observed in the window; inverse pairs and the queues that keep a window's extremes are not modelled.
- When a borrow price window has nothing to look back on: whether it does is a parameter.
- Rounding at 28 digits in products and quotients outside `rules.rs`, where amounts are exact rationals.
- How `rust_decimal` rounds a sum or difference that does not fit: `Decimals.Arith` leaves it open, and results that need it exact ask for exactness only where a mantissa holds the result.
- OrderRules.PercentIsHundredBasisPoints: leaves out limits whose hundredth is rounded, because how a quotient rounds is not modelled.
- The scale of a remainder: it is the finer of the two, where `rust_decimal` can keep a smaller dividend at its own; the values agree.
- SpotMarginLending.WindowAloneWouldReachLiquidation: is one numeric example, not every window.
- The sign of a decimal zero, and panics of decimal division and multiplication near the ends of the range.
- Time zones as data: a zone is any pair of functions from local time to instant and back.
- DailyCharges.EachDayIsChargedOnce: says nothing where a search for a settlement date panics, or where one of the run's cutoffs cannot be placed at all.
- DailyAccrual.NextBoundaryIsOnNextDate: is about zones with no two dates' cutoffs at one instant, which `DailyAccrual.WhenCutoffsArePlaced` tells apart; the results on runs do not need it.
- DailyAccrual.NextBoundaryUnmoved: is about orderly zones; `DailyClock.WhenSplittingChangesNothing` has the exact condition for what it is used for.
- Slippage.EveryPriceIsAdverse: says nothing of a reference of zero or less, which the rate moves the other way or not at all.
- Leap seconds, and the earliest representable date; the last one is a parameter.
- Holding-cost models other than the calendar they share: borrow fees, financing and funding are one product each.
- Interleaving the charges of several models at one instant.
- Serialised text, the older forms of a retired order, display and logging: saved parts are taken as decoded.
- The venue window's conversion between milliseconds and a duration: a window is a number of milliseconds.
- `is_off`, `ValueRule::new` and `market_notional`, which no check reads.
- A trailing stop-limit's stop price and limit offset, which the check never reads.
- The generator behind the slippage stream: it is any deterministic step function, and its count of draws does not wrap at 64 bits.
- The uniform distribution of slippage rates.
- Sorting and deduplicating clashing names in `map.rs`: it only orders the warnings, and removing a key twice removes it once.
- Error texts, and the error mappings in `indexer.rs` that degrade a name to its text.
- Indexer.AccountEventIndexer.SnapshotPartitioned: has no branch for a lookup error that is not about an asset, because the asset lookup gives no other.
- The network clients and everything under `rustrade-data`.
