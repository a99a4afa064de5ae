# Four-percent-rule backtest: a Dafny model of the engine

The program estimates how often a retirement drawdown plan would have
survived in history. It treats every calendar day as a possible retirement
date. On that day it takes the first withdrawal from the capital and buys
whole S&P 500 index shares with the rest. In each later year it raises the
withdrawal by the previous month's inflation rate and sells enough whole shares
to cover it. Each trial is classified as no data, failure (shares ran out)
or success (the horizon was reached). The sweep counts the three
classifications over all start days.

The model has five modules:

- `Dates` models the date arithmetic. A calendar day is an integer day
  index. The next day is `d + 1`. Go's `AddDate` year step and the "first
  day of the previous month" computation are two functions of a
  `Calendar`. A calendar only has to satisfy `prevMonthStart(d) < d <
  addYear(d)`.
- `TimeSeries` models the `dateValue` record (a map from day to value,
  with a first and a last date) and the forward-fill lookup
  `findSAndP500Price`. The lookup is modelled twice: as a function that
  says where the scan stops, and as the scanning loop itself.
- `Rounding` models Go's two float-to-integer conversions: `int(x)`
  truncates toward zero, and `math.Ceil` rounds up.
- `Trial` models `runPlan` and the `result` enum. It contains:
  - `YearStep`, one pass of the yearly loop;
  - `YearLoop`, the loop;
  - `RunPlan`, the whole trial;
  - the counted loops `SimulatePlan` and `SimulateYears`;
  - a reference definition `Advance`, the state after `k` years, which
    most lemmas are stated against.
- `Sweep` models the counting loop in `main`. It runs one trial per day,
  from the later of the two series' first dates up to an end date, and
  adds each classification to one of three counters.
- `Scenarios` works through a small market by hand: a success, a no-data
  trial, a failure, a start past the data, and a two-day sweep.

Money, prices and CPI figures are Dafny `real`s. Share counts are `int`s.

## Behaviour worth knowing

The model follows the code in each of these places:

- There are no dividends, no dividend tax and no adaptive min/max rate
  policy. The only plan is the fixed-rate one that sells whole shares.
- CPI figures are percentages. The withdrawal grows by
  `1 + cpi / 100`.
- The yearly loop runs `years - 1` passes, not `years`. The first year's
  withdrawal is taken before the purchase (main.go:116-130). `YearLoop`
  is called with `cfg.years - 1`. `SimulateYears` reports how many passes
  finished.
- The sweep starts at the later of the two series' first dates. It stops
  before an end date (`time.Now()` in the code, a parameter here). It is
  not clipped to the series' last dates. A day past the index data, with
  no stored price on or after it, gives a no-data trial
  (`LateStartLacksData`). A day past the CPI data still gives a verdict
  when it has a price: a one-year plan reads no CPI figure and succeeds,
  and a purchase of no shares fails (`PastCpiDataStillDecides`).
- A missing price is the sentinel `0`, not a distinct "not found" value.
  A stored price of exactly 0 therefore reads as missing
  (`ZeroPriceIsAmbiguous`). A close that fails to parse is stored as 0
  (main.go:260). A negative close is stored as it is: the code does not
  check the sign. Index closes are assumed non-negative by the lemmas
  that need it (`NonNegativePrices`).
- The lookup examines the starting day before it compares against the
  last date. So a value stored at the starting day is found even when
  that day is after `LastDate` (`InScanRange`).
- A horizon that runs past the end of the inflation data does not always
  classify as no data. A trial that runs out of shares in an earlier year
  fails before the missing figure is reached. `MissingCpiStopsTrial`
  states what does hold: a missing CPI figure ends with no data when the
  trial is still running in the year that needs it.

## Model

| member | source | states |
|---|---|---|
| Dates.NextDay | main.go:104 | the next day is strictly later and no day is skipped |
| Dates.AddYear | main.go:136 | the year step moves strictly forward in time |
| Dates.PrevMonthStart | main.go:139-141 | the CPI key of a year lies strictly before the year's date |
| Dates.YearDate | main.go:132-136 | the date after `k` simulated years is at least `k` days later, and strictly later once `k > 0` |
| Dates.YearDatesIncrease | main.go:132-136 | the dates of successive simulated years strictly increase |
| TimeSeries.ResolveDate | main.go:97-109 | the scan stops at a day holding a value, with no stored day between the start and that day; when it finds nothing, no day it examines holds a value; it terminates because each step moves one day toward the last date |
| TimeSeries.FindPrice | main.go:97-109 | a non-zero result is the value at the first stored day the scan reaches; when no examined day holds a value the result is the sentinel 0 |
| TimeSeries.FindPriceScan | main.go:97-109 | the day-by-day loop (test the day, step forward, give up past the last date) returns the forward-filled price |
| TimeSeries.ForwardFillFindsFirstStored | main.go:98-104 | when `k` is the first stored day at or after `d` within the scan, the lookup returns the value at `k` |
| TimeSeries.ForwardFillBetween | main.go:98-104 | every day strictly after one stored day and up to the next stored day resolves to the later day's value, never the earlier one |
| TimeSeries.ZeroPriceIsAmbiguous | main.go:99-106 | the lookup gives 0 exactly when nothing is found, or when the first value found is a stored 0 |
| TimeSeries.LookupIgnoresEarlierDays | main.go:99-104 | values stored before the starting day cannot change the lookup: it only scans forward |
| Rounding.Trunc | main.go:124 | the conversion truncates toward zero: within one of `x`, never beyond it |
| Rounding.Ceil | main.go:157 | the result is the least whole number not below `x` |
| Rounding.BuysAShareIff | main.go:124-127 | at a positive price the truncated purchase is at least one share exactly when the cash covers one share's price |
| Rounding.PurchaseBounds | main.go:124-127 | at a positive price the truncated purchase is affordable when there is cash to spend, and negative cash buys no share |
| Rounding.PurchaseIsAffordable | main.go:124 | the shares bought never cost more than the cash, and the unspent cash is less than one share's price |
| Rounding.SaleCoversAmount | main.go:157 | the whole shares sold raise at least the withdrawal, and less than one share's price more |
| Rounding.SaleIsAtLeastOneShare | main.go:157-159 | a positive withdrawal at a positive price sells at least one share |
| Trial.YearStep | main.go:133-165 | a year stops with no data exactly when the CPI key of the new date is missing or the forward-filled price is 0; a year that carries on moves the date forward and keeps a positive share count; a single year never succeeds by itself |
| Trial.YearStepContinuesIff | main.go:149-165 | when a year's data is present, it carries on exactly when the shares left after selling `Ceil(withdraw / price)` for the inflation-raised withdrawal are positive, fails exactly otherwise, and carries on holding exactly those shares |
| Trial.YearLoop | main.go:130-169 | a loop with no passes left succeeds, so no data or failure needs at least one pass; a loop with passes to run succeeds only if its first year carries on |
| Trial.InitialHolding | main.go:116-127 | the first withdrawal is `capital * rate`, taken on the start day; with a positive price and a withdrawal within the capital, the shares bought cost at most the capital left, and one more share would cost more; at a positive price a withdrawal above the capital (a rate over 100%, or a negative capital) buys no share |
| Trial.InitialPurchaseIff | main.go:116-127 | at a positive price the purchase buys at least one share exactly when the capital left after the first withdrawal covers one share's price |
| Trial.RunPlan | main.go:111-170 | a start day with no price gives no data; a success needs a start price and at least one share bought; with a horizon of at most one year the trial succeeds exactly when the purchase buys a share |
| Trial.Advance | main.go:133-165 | after at least one year, a running trial holds a positive number of shares, and no year ends in success |
| Trial.SimulatePlan | main.go:111-170 | the imperative trial (start price, purchase, counted loop with early returns) classifies exactly as `RunPlan` |
| Trial.SimulateYears | main.go:130-169 | the counted loop classifies as `YearLoop`; it completes all `years - 1` passes exactly when it succeeds, and never more |
| Trial.LoopMatchesAdvance | main.go:130-169 | the loop of `n` passes ends with the classification of the state reached after `n` years |
| Trial.StopIsFinal | main.go:143-165 | once a year returns a classification, every later year count gives the same one |
| Trial.LoopSuccessIff | main.go:162-169 | the loop succeeds exactly when every one of its years finished with shares left |
| Trial.LoopStopIff | main.go:133-165 | the loop ends with no data (or failure) exactly when some year in it starts running and stops with that classification |
| Trial.AdvanceStopIff | main.go:133-165 | the reference stops after `n` years with no data (or failure) exactly when some year up to `n` is the first to stop, with that classification |
| Trial.MissingCpiStopsTrial | main.go:140-146 | a missing CPI figure ends the trial with no data when the trial is still running in the year that needs it |
| Trial.HoldingAfterYears | main.go:136-149 | after `k` years the date is the `k`-th anniversary of the start and the withdrawal is the first one raised by each year's CPI factor in turn |
| Trial.YearStepGrowsWithdrawal | main.go:136-149 | a year that carries on moves one year forward and multiplies the withdrawal by `1 + cpi / 100` |
| Trial.PricedYearSaleCoversWithdrawal | main.go:151-159 | in a year that carries on at a positive price, the shares sold cover that year's withdrawal, with less than one share's price of excess |
| Trial.YearSaleCoversWithdrawal | main.go:151-159 | with non-negative stored prices, every year that carries on has a positive price, and the shares sold cover that year's withdrawal, with less than one share's price of excess |
| Trial.YearSellsAShare | main.go:149-159 | with a positive withdrawal, non-negative stored prices and CPI figures above -100, each year's share count strictly decreases and the withdrawal stays positive |
| Trial.PricedYearSellsAShare | main.go:151-165 | a year that carries on with a positive price and a positive grown withdrawal leaves strictly fewer shares |
| Trial.SharesFallEveryYear | main.go:133-165 | under the same conditions, after `k` years at least `k` shares have been sold |
| Trial.TrialSuccessIff | main.go:116-169 | a trial succeeds exactly when the start price exists, the purchase buys at least one share, and every later year of the horizon finishes with shares left |
| Trial.TrialStopIff | main.go:116-169 | a trial has no data exactly when the start price is missing or a running year lacks data; it fails exactly when the purchase buys no share or a running year runs out of shares |
| Trial.SuccessNeedsShares | main.go:124-165 | with non-negative stored prices, CPI figures above -100 and a positive withdrawal, a successful `years`-year plan bought at least `years` shares |
| Sweep.SweepStart | main.go:72-75 | the sweep starts at one of the two series' first dates, and at or after both |
| Sweep.Record | main.go:79-85 | the counter for the trial's classification rises by one and the other two are unchanged |
| Sweep.SweepDays | main.go:77-87 | the loop visits each day before the end once: the counters sum to the number of days, and each counts exactly the days whose trial has its classification |
| Sweep.RunSweep | main.go:70-87 | the sweep from the later first date to the end: success, failure and no-data counts are the numbers of such days, and they sum to the days swept |
| Sweep.SweptTotal | main.go:77-87 | every day swept lands in exactly one counter |
| Sweep.SweptCountsDays | main.go:79-85 | each counter equals the number of days whose trial has its classification |
| Sweep.SweepSplits | main.go:77-87 | sweeping two adjacent ranges and adding the counters equals sweeping their union |
| Sweep.TallyCountsOccurrences | main.go:79-85 | each counter after recording a sequence of classifications is that classification's number of occurrences |
| Sweep.TallyIgnoresOrder | main.go:79-85 | recording the same classifications in any order gives the same counters |
| Sweep.SweptIsTally | main.go:77-87 | the sweep is the tally of the days' classifications in date order |
| Scenarios.TwoYearPlanSucceeds | main.go:116-169 | 1,000,000 at 4% buys 9600 shares at 100; the next year's 42000 sells 382 at 110, leaving 9218, and the trial succeeds |
| Scenarios.ThreeYearPlanLacksData | main.go:140-146 | the same plan over three years needs a CPI figure the data lacks and ends with no data |
| Scenarios.HalfWithdrawalFails | main.go:157-165 | 1000 at 50% buys 5 shares; the grown withdrawal of 525 sells all 5 and the trial fails |
| Scenarios.LateStartLacksData | main.go:105-121 | past the last index date the lookup gives 0 and the trial has no data |
| Scenarios.PastCpiDataStillDecides | main.go:116-133 | on a day past the CPI data with a price of 110, a one-year 4% plan on 1,000,000 buys 8727 shares and succeeds, and 5.0 buys no share and fails |
| Scenarios.ShortSweepLacksData | main.go:72-87 | the sweep starts at the later first date, and two days of no-data trials give counters (0, 0, 2) |

## Left out

- CSV parsing of the two input files (main.go:183-269). The series are given as maps with first and last dates.
- Reading the capital, percentage and horizon from standard input (main.go:37-68). They are parameters of `Config`. The rate is the entered percentage already divided by 100.
- The trace text and the output file (main.go:112-168, 91-92). They are diagnostics with no effect on the results.
- `time.Now()` as the sweep end (main.go:76). It is a parameter, because the clock is not deterministic.
- Go's calendar normalisation in `AddDate` and `time.Date` (month lengths, leap days). The calendar is abstract. Only the orderings the engine relies on are assumed, and `Scenarios` uses a 360-day calendar.
- IEEE-754 floating point. Real arithmetic is exact, so rounding differences in the withdrawal, the division or the ceiling are not modelled.
- Rounding.Trunc: Go's `int(x)` is unspecified when `x` does not fit in an `int`. The model truncates any real, with no overflow.
- The success-rate division and the log lines (main.go:88-89). They are output formatting.
- `printFirstN` (main.go:172-181). It is debug printing.
- Dividends, dividend tax and the adaptive dual-rate policy. The code does not contain them.
- Trial.YearSellsAShare: needs non-negative stored prices, CPI figures above -100 and a positive withdrawal. A zero price is allowed (it reads as missing data). Without the other two conditions the code can sell zero shares, or a negative number: a rate of 0 or below, or a CPI figure of -100 or below, makes the withdrawal 0 or negative. `PricedYearSellsAShare` states the local form, which needs only a positive price and a positive grown withdrawal in that year.
- Trial.NonNegativePrices: an assumption about the index file, not a guarantee of the code. main.go:260 stores any close `strconv.ParseFloat` accepts, and a negative price would make `Ceil(withdraw / price)` negative, so the year would buy shares instead of selling them.
- Trial.SharesFallEveryYear: needs the same conditions as `YearSellsAShare`.
- Trial.SuccessNeedsShares: needs the same conditions as `YearSellsAShare`.
- Rounding.Ceil: Go's `int(math.Ceil(withdraw / price))` (main.go:157) is implementation-defined when the result does not fit in an `int`, and `shares -= soldShare` (main.go:159) is a 64-bit subtraction that can wrap around. Both are unbounded integers here.
