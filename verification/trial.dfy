/**
 One backtest trial (`runPlan`): retire on a start date with some capital,
 buy whole index shares with what is left after the first withdrawal, then
 each later year raise the withdrawal by the previous month's inflation rate
 and sell enough whole shares to cover it. The trial ends with exactly one
 classification: no data, failure (no shares left) or success (the horizon
 was reached).
 */
module Trial {
  import opened Dates
  import opened TimeSeries
  import opened Rounding

  /** The classification of one trial (the `result` enum). */
  datatype Outcome = NoData | Fail | Success

  /** The data a trial reads: monthly inflation rates in percent keyed by the
      first day of the month, daily index prices, and the calendar. */
  datatype Market = Market(cpi: Series, index: Series, cal: Calendar)

  /** The plan under test: initial capital, the fraction of it withdrawn in
      the first year (the entered percentage divided by 100), and the
      horizon in years. */
  datatype Config = Config(capital: real, rate: real, years: int)

  /** The state between two simulated years: the current date, the current
      yearly withdrawal and the number of shares still held. */
  datatype Holding = Holding(date: Date, withdraw: real, shares: int)

  /** The result of simulating one more year: carry on, or stop with a
      classification. */
  datatype Step = Continue(next: Holding) | Stop(outcome: Outcome)

  /** A data point needed for the simulated year starting on `date` is
      missing: the CPI figure of the previous month, or any price on or after
      `date` within the index data (the lookup's sentinel 0). */
  predicate DataMissing(m: Market, date: Date) {
    PrevMonthStart(m.cal, date) !in m.cpi.values || FindPrice(m.index, date) == 0.0
  }

  /** One pass of the yearly loop. */
  function YearStep(m: Market, h: Holding): (r: Step)
    ensures r.Continue? ==> h.date < r.next.date && 0 < r.next.shares
    ensures r != Stop(Success)
    ensures r == Stop(NoData) <==> DataMissing(m, AddYear(m.cal, h.date))
  {
    var date := AddYear(m.cal, h.date);
    var cpiDate := PrevMonthStart(m.cal, date);
    if cpiDate !in m.cpi.values then Stop(NoData)
    else
      var withdraw := h.withdraw * (1.0 + m.cpi.values[cpiDate] / 100.0);
      var price := FindPrice(m.index, date);
      if price == 0.0 then Stop(NoData)
      else
        var shares := h.shares - Ceil(withdraw / price);
        if shares <= 0 then Stop(Fail)
        else Continue(Holding(date, withdraw, shares))
  }

  /** The yearly loop with `n` passes left: stop at the first pass that does
      not continue; succeed when no pass is left. It can only stop early
      while a pass is left, and it succeeds only if its first pass (if any)
      carries on. */
  function YearLoop(m: Market, h: Holding, n: int): (r: Outcome)
    ensures r != Success ==> 0 < n
    ensures r == Success ==> n <= 0 || YearStep(m, h).Continue?
    decreases n
  {
    if n <= 0 then Success
    else
      match YearStep(m, h)
      case Stop(o) => o
      case Continue(h') => YearLoop(m, h', n - 1)
  }

  /** The holding the initial purchase gives: the first withdrawal is taken
      from the capital and the rest buys whole shares, truncated. At a
      positive price, when the withdrawal does not exceed the capital, the
      shares cost no more than what is left, and one more would cost more.
      At a positive price a withdrawal above the capital buys no share. */
  function InitialHolding(cfg: Config, start: Date, price: real): (h: Holding)
    requires price != 0.0
    ensures h.date == start && h.withdraw == cfg.capital * cfg.rate
    ensures 0.0 < price && h.withdraw <= cfg.capital ==>
      && h.shares as real * price <= cfg.capital - h.withdraw
      && cfg.capital - h.withdraw < (h.shares + 1) as real * price
    ensures 0.0 < price && cfg.capital < h.withdraw ==> h.shares <= 0
  {
    var withdraw := cfg.capital * cfg.rate;
    PurchaseBounds(cfg.capital - withdraw, price);
    Holding(start, withdraw, Trunc((cfg.capital - withdraw) / price))
  }

  /** At a positive price the initial purchase buys at least one share
      exactly when the capital left after the first withdrawal covers one
      share's price. */
  lemma InitialPurchaseIff(cfg: Config, start: Date, price: real)
    requires 0.0 < price
    ensures 0 < InitialHolding(cfg, start, price).shares <==> price <= cfg.capital - cfg.capital * cfg.rate
  {
    var h := InitialHolding(cfg, start, price);
    var cash := cfg.capital - h.withdraw;
    if price <= cash && h.shares <= 0 {
      MultiplyPreservesOrder((h.shares + 1) as real, 1.0, price);
    } else if cash < price && 0 < h.shares {
      MultiplyPreservesOrder(1.0, h.shares as real, price);
    }
  }

  /** One trial starting on `start`. A missing start price gives no data; a
      success needs the start price and an initial purchase of at least one
      share; over a horizon of at most one year that purchase decides. */
  function RunPlan(m: Market, cfg: Config, start: Date): (r: Outcome)
    ensures FindPrice(m.index, start) == 0.0 ==> r == NoData
    ensures r == Success ==>
      FindPrice(m.index, start) != 0.0 && 0 < InitialHolding(cfg, start, FindPrice(m.index, start)).shares
    ensures FindPrice(m.index, start) != 0.0 && cfg.years <= 1 ==>
      (r == Success <==> 0 < InitialHolding(cfg, start, FindPrice(m.index, start)).shares)
  {
    var price := FindPrice(m.index, start);
    if price == 0.0 then NoData
    else
      var h := InitialHolding(cfg, start, price);
      if h.shares <= 0 then Fail
      else YearLoop(m, h, cfg.years - 1)
  }

  // ---------------------------------------------------------------------
  // A reference for the loop: the state after `k` years, counted from the
  // start of the trial.

  /** The step reached after `k` simulated years (a stop is final). */
  function Advance(m: Market, h: Holding, k: nat): (r: Step)
    ensures 0 < k && r.Continue? ==> 0 < r.next.shares
    ensures r != Stop(Success)
  {
    if k == 0 then Continue(h)
    else
      match Advance(m, h, k - 1)
      case Stop(o) => Stop(o)
      case Continue(h') => YearStep(m, h')
  }

  /** The classification a step would give if the loop ended there. */
  function Verdict(s: Step): Outcome {
    match s
    case Continue(_) => Success
    case Stop(o) => o
  }

  /** Unfolding the reference from the front: the first year, then the rest. */
  lemma {:induction false} AdvanceFront(m: Market, h: Holding, n: nat)
    requires 1 <= n
    ensures Advance(m, h, n) == match YearStep(m, h)
      case Stop(o) => Stop(o)
      case Continue(h') => Advance(m, h', n - 1)
  {
    if n > 1 {
      AdvanceFront(m, h, n - 1);
    }
  }

  /** The loop with `n` passes classifies as the reference after `n` years. */
  lemma {:induction false} LoopMatchesAdvance(m: Market, h: Holding, n: nat)
    ensures YearLoop(m, h, n) == Verdict(Advance(m, h, n))
    decreases n
  {
    if n > 0 {
      AdvanceFront(m, h, n);
      match YearStep(m, h)
      case Stop(o) =>
      case Continue(h') => LoopMatchesAdvance(m, h', n - 1);
    }
  }

  /** Once a trial stops, it stays stopped with the same classification. */
  lemma {:induction false} StopIsFinal(m: Market, h: Holding, j: nat, k: nat)
    requires j <= k
    requires Advance(m, h, j).Stop?
    ensures Advance(m, h, k) == Advance(m, h, j)
    decreases k
  {
    if j < k {
      StopIsFinal(m, h, j, k - 1);
    }
  }

  /** The loop succeeds exactly when every one of its years finished with
      shares left. */
  lemma LoopSuccessIff(m: Market, h: Holding, n: nat)
    ensures YearLoop(m, h, n) == Success <==>
      forall k :: 0 <= k <= n ==> Advance(m, h, k).Continue?
  {
    LoopMatchesAdvance(m, h, n);
    if Advance(m, h, n).Continue? {
      forall k | 0 <= k <= n
        ensures Advance(m, h, k).Continue?
      {
        if Advance(m, h, k).Stop? {
          StopIsFinal(m, h, k, n);
        }
      }
    }
  }

  /** The loop ends with no data, or with a failure, exactly when some year
      `k` of it starts with shares held and ends with that classification:
      the first year that stops decides the trial. */
  lemma LoopStopIff(m: Market, h: Holding, n: nat, o: Outcome)
    requires o != Success
    ensures YearLoop(m, h, n) == o <==>
      exists k :: 0 < k <= n && Advance(m, h, k - 1).Continue? && Advance(m, h, k) == Stop(o)
  {
    LoopMatchesAdvance(m, h, n);
    AdvanceStopIff(m, h, n, o);
  }

  /** The reference stops after `n` years with a classification exactly when
      some year up to `n` is the first to stop with it. */
  lemma AdvanceStopIff(m: Market, h: Holding, n: nat, o: Outcome)
    requires o != Success
    ensures Advance(m, h, n) == Stop(o) <==>
      exists k :: 0 < k <= n && Advance(m, h, k - 1).Continue? && Advance(m, h, k) == Stop(o)
  {
    forall k | 0 < k <= n && Advance(m, h, k - 1).Continue? && Advance(m, h, k) == Stop(o)
      ensures Advance(m, h, n) == Stop(o)
    {
      StopIsFinal(m, h, k, n);
    }
    if Advance(m, h, n) == Stop(o) {
      var k := FirstStop(m, h, n);
      assert 0 < k <= n && Advance(m, h, k - 1).Continue? && Advance(m, h, k) == Stop(o);
    }
  }


  /** The year in which a stopped trial stopped. */
  lemma {:induction false} FirstStop(m: Market, h: Holding, n: nat) returns (k: nat)
    requires Advance(m, h, n).Stop?
    ensures 0 < k <= n && Advance(m, h, k - 1).Continue? && Advance(m, h, k) == Advance(m, h, n)
  {
    if Advance(m, h, n - 1).Continue? {
      k := n;
    } else {
      k := FirstStop(m, h, n - 1);
    }
  }

  /** A missing CPI figure ends a trial with no data, provided the trial is
      still running in the year that needs it. */
  lemma MissingCpiStopsTrial(m: Market, h: Holding, n: nat, k: nat)
    requires k < n
    requires Advance(m, h, k).Continue?
    requires PrevMonthStart(m.cal, AddYear(m.cal, Advance(m, h, k).next.date)) !in m.cpi.values
    ensures YearLoop(m, h, n) == NoData
  {
    assert Advance(m, h, k + 1) == Stop(NoData);
    StopIsFinal(m, h, k + 1, n);
    LoopMatchesAdvance(m, h, n);
  }

  /** The trial as the imperative code runs it: look up the start price,
      buy, then run the yearly loop. */
  method SimulatePlan(m: Market, cfg: Config, start: Date) returns (r: Outcome)
    ensures r == RunPlan(m, cfg, start)
  {
    var price := FindPriceScan(m.index, start);
    if price == 0.0 {
      return NoData;
    }
    var first := InitialHolding(cfg, start, price);
    if first.shares <= 0 {
      return Fail;
    }
    var passes;
    r, passes := SimulateYears(m, first, cfg.years - 1);
  }

  /** The yearly loop as a counted loop of `years` passes, leaving at the
      first year that lacks data or runs out of shares. `done` is the number
      of passes that finished with shares left: all of them exactly when the
      trial succeeds. */
  method SimulateYears(m: Market, first: Holding, years: int) returns (r: Outcome, done: nat)
    ensures r == YearLoop(m, first, years)
    ensures r == Success <==> done == (if years < 0 then 0 else years)
    ensures done <= (if years < 0 then 0 else years)
  {
    var h := first;
    var i := 0;
    while i < years
      invariant 0 <= i <= (if years < 0 then 0 else years)
      invariant YearLoop(m, h, years - i) == YearLoop(m, first, years)
    {
      var step := YearStep(m, h);
      if step.Stop? {
        return step.outcome, i;
      }
      h := step.next;
      i := i + 1;
    }
    return Success, i;
  }

  // ---------------------------------------------------------------------
  // Money and shares over the years.

  /** The CPI growth factor applied in the simulated year starting on `date`
      (1 when the figure is missing; a running trial never uses that case). */
  function CpiFactor(m: Market, date: Date): real {
    var key := PrevMonthStart(m.cal, date);
    if key in m.cpi.values then 1.0 + m.cpi.values[key] / 100.0 else 1.0
  }

  /** The withdrawal `w` of the year starting on `d`, raised by the CPI
      factor of each of the next `k` simulated years in turn. */
  function Indexed(m: Market, w: real, d: Date, k: nat): real {
    if k == 0 then w else Indexed(m, w, d, k - 1) * CpiFactor(m, YearDate(m.cal, d, k))
  }

  /** After `k` years the trial is at the `k`-th anniversary of its start and
      withdraws the first withdrawal indexed by each year's CPI figure. */
  lemma {:induction false} HoldingAfterYears(m: Market, h: Holding, k: nat)
    requires Advance(m, h, k).Continue?
    ensures Advance(m, h, k).next.date == YearDate(m.cal, h.date, k)
    ensures Advance(m, h, k).next.withdraw == Indexed(m, h.withdraw, h.date, k)
  {
    if k > 0 {
      HoldingAfterYears(m, h, k - 1);
      var prev := Advance(m, h, k - 1).next;
      assert Advance(m, h, k) == YearStep(m, prev);
      YearStepGrowsWithdrawal(m, prev);
      IndexedStep(m, h.withdraw, h.date, k, prev.withdraw, prev.date);
    }
  }

  /** One more year of indexing: given the withdrawal and the date after
      `k - 1` years, the withdrawal after `k` years. */
  lemma IndexedStep(m: Market, w: real, d: Date, k: nat, w': real, d': Date)
    requires 0 < k
    requires Indexed(m, w, d, k - 1) == w' && YearDate(m.cal, d, k - 1) == d'
    ensures YearDate(m.cal, d, k) == AddYear(m.cal, d')
    ensures Indexed(m, w, d, k) == w' * CpiFactor(m, AddYear(m.cal, d'))
  {
  }

  /** The shares left after a year whose data is present: the year's
      withdrawal, raised by the previous month's inflation rate, sold as
      `Ceil(withdraw / price)` whole shares. */
  function LeftAfterSale(m: Market, h: Holding): int
    requires !DataMissing(m, AddYear(m.cal, h.date))
  {
    var date := AddYear(m.cal, h.date);
    var key := PrevMonthStart(m.cal, date);
    var withdraw := h.withdraw * (1.0 + m.cpi.values[key] / 100.0);
    h.shares - Ceil(withdraw / FindPrice(m.index, date))
  }

  /** A year whose data is present carries on exactly when shares are left
      after its sale, and fails otherwise; a year that carries on holds
      exactly the shares left. */
  lemma YearStepContinuesIff(m: Market, h: Holding)
    ensures !DataMissing(m, AddYear(m.cal, h.date)) ==>
      && (YearStep(m, h).Continue? <==> LeftAfterSale(m, h) > 0)
      && (YearStep(m, h) == Stop(Fail) <==> LeftAfterSale(m, h) <= 0)
      && (YearStep(m, h).Continue? ==> YearStep(m, h).next.shares == LeftAfterSale(m, h))
  {
  }

  /** A year that carries on moves to the anniversary of the year's start
      and grows the withdrawal by that year's CPI factor. */
  lemma YearStepGrowsWithdrawal(m: Market, h: Holding)
    requires YearStep(m, h).Continue?
    ensures YearStep(m, h).next.date == AddYear(m.cal, h.date)
    ensures YearStep(m, h).next.withdraw == h.withdraw * CpiFactor(m, AddYear(m.cal, h.date))
  {
  }

  /** An assumption about the index data: no stored close is negative. The
      code does not check it; a close that fails to parse is stored as 0,
      which reads as missing, but a negative close is stored as it is. */
  ghost predicate NonNegativePrices(m: Market) {
    forall k :: k in m.index.values ==> m.index.values[k] >= 0.0
  }

  /** Every monthly inflation rate is above -100%, so each year's withdrawal
      factor `1 + cpi / 100` is positive. */
  ghost predicate BoundedDeflation(m: Market) {
    forall k :: k in m.cpi.values ==> m.cpi.values[k] > -100.0
  }

  /** The local form: in a year that carries on at a positive price, the
      whole shares sold raise at least that year's withdrawal, and less than
      one share more. */
  lemma PricedYearSaleCoversWithdrawal(m: Market, h: Holding)
    requires YearStep(m, h).Continue?
    requires 0.0 < FindPrice(m.index, AddYear(m.cal, h.date))
    ensures var h' := YearStep(m, h).next;
      var price := FindPrice(m.index, h'.date);
      && (h.shares - h'.shares) as real * price >= h'.withdraw
      && (h.shares - h'.shares) as real * price < h'.withdraw + price
  {
    var h' := YearStep(m, h).next;
    var price := FindPrice(m.index, h'.date);
    assert h.shares - h'.shares == Ceil(h'.withdraw / price);
    SaleCoversAmount(h'.withdraw, price);
  }

  /** With non-negative prices every year that carries on has a positive
      price, so its sale covers the withdrawal with less than one share
      more. */
  lemma YearSaleCoversWithdrawal(m: Market, h: Holding)
    requires NonNegativePrices(m)
    requires YearStep(m, h).Continue?
    ensures var h' := YearStep(m, h).next;
      var price := FindPrice(m.index, h'.date);
      && 0.0 < price
      && (h.shares - h'.shares) as real * price >= h'.withdraw
      && (h.shares - h'.shares) as real * price < h'.withdraw + price
  {
    PricedYearSaleCoversWithdrawal(m, h);
  }

  /** With a positive withdrawal, non-negative prices and CPI figures above
      -100, every year sells at least one share and the withdrawal stays
      positive. */
  lemma YearSellsAShare(m: Market, h: Holding)
    requires NonNegativePrices(m) && BoundedDeflation(m)
    requires 0.0 < h.withdraw
    requires YearStep(m, h).Continue?
    ensures YearStep(m, h).next.shares < h.shares
    ensures 0.0 < YearStep(m, h).next.withdraw
  {
    var h' := YearStep(m, h).next;
    var cpiDate := PrevMonthStart(m.cal, h'.date);
    var factor := 1.0 + m.cpi.values[cpiDate] / 100.0;
    assert 0.0 < factor;
    assert h'.withdraw == h.withdraw * factor;
    var price := FindPrice(m.index, h'.date);
    SaleIsAtLeastOneShare(h'.withdraw, price);
  }

  /** The local form: a year that carries on with a positive price and a
      positive grown withdrawal sells at least one share. */
  lemma PricedYearSellsAShare(m: Market, h: Holding)
    requires YearStep(m, h).Continue?
    requires 0.0 < FindPrice(m.index, AddYear(m.cal, h.date))
    requires 0.0 < YearStep(m, h).next.withdraw
    ensures YearStep(m, h).next.shares < h.shares
  {
    var h' := YearStep(m, h).next;
    SaleIsAtLeastOneShare(h'.withdraw, FindPrice(m.index, h'.date));
  }

  /** Under the same conditions the share count falls by at least one every
      simulated year. */
  lemma {:induction false} SharesFallEveryYear(m: Market, h: Holding, k: nat)
    requires NonNegativePrices(m) && BoundedDeflation(m)
    requires 0.0 < h.withdraw
    requires Advance(m, h, k).Continue?
    ensures Advance(m, h, k).next.shares <= h.shares - k
    ensures 0.0 < Advance(m, h, k).next.withdraw
  {
    if k > 0 {
      SharesFallEveryYear(m, h, k - 1);
      YearSellsAShare(m, Advance(m, h, k - 1).next);
    }
  }

  // ---------------------------------------------------------------------
  // Whole trials.

  /** A trial succeeds exactly when the start price exists, the initial
      purchase buys at least one share, and every later year of the horizon
      finishes with shares left. */
  lemma TrialSuccessIff(m: Market, cfg: Config, start: Date)
    ensures RunPlan(m, cfg, start) == Success <==>
      var price := FindPrice(m.index, start);
      && price != 0.0
      && 0 < InitialHolding(cfg, start, price).shares
      && forall k :: 0 <= k < cfg.years ==> Advance(m, InitialHolding(cfg, start, price), k).Continue?
  {
    var price := FindPrice(m.index, start);
    if price != 0.0 {
      var h := InitialHolding(cfg, start, price);
      var n := if cfg.years - 1 < 0 then 0 else cfg.years - 1;
      LoopSuccessIff(m, h, n);
      assert YearLoop(m, h, cfg.years - 1) == YearLoop(m, h, n);
    }
  }

  /** A trial ends with no data, or fails, exactly when: the start price is
      missing (no data); or the initial purchase buys no share (failure); or
      some later year of the horizon starts with shares held and stops with
      that classification. */
  lemma TrialStopIff(m: Market, cfg: Config, start: Date, o: Outcome)
    requires o != Success
    ensures RunPlan(m, cfg, start) == o <==>
      var price := FindPrice(m.index, start);
      if price == 0.0 then o == NoData
      else
        var h := InitialHolding(cfg, start, price);
        if h.shares <= 0 then o == Fail
        else exists k :: 0 < k < cfg.years && Advance(m, h, k - 1).Continue? && Advance(m, h, k) == Stop(o)
  {
    var price := FindPrice(m.index, start);
    if price != 0.0 {
      var h := InitialHolding(cfg, start, price);
      var n := if cfg.years - 1 < 0 then 0 else cfg.years - 1;
      LoopStopIff(m, h, n, o);
      assert YearLoop(m, h, cfg.years - 1) == YearLoop(m, h, n);
    }
  }

  /** With non-negative prices, CPI figures above -100 and a positive first
      withdrawal, a trial over `years` years succeeds only if the initial
      purchase bought at least `years` shares: each later year sells one. */
  lemma SuccessNeedsShares(m: Market, cfg: Config, start: Date)
    requires NonNegativePrices(m) && BoundedDeflation(m)
    requires 0.0 < cfg.capital * cfg.rate
    ensures RunPlan(m, cfg, start) == Success ==>
      FindPrice(m.index, start) != 0.0 &&
      cfg.years <= InitialHolding(cfg, start, FindPrice(m.index, start)).shares
  {
    if RunPlan(m, cfg, start) == Success && cfg.years > 1 {
      var h := InitialHolding(cfg, start, FindPrice(m.index, start));
      LoopSuccessNeedsShares(m, h, cfg.years - 1);
    }
  }

  /** A loop of `n` passes that succeeds from a positive withdrawal sold
      at least one share per pass and kept one more. */
  lemma LoopSuccessNeedsShares(m: Market, h: Holding, n: nat)
    requires NonNegativePrices(m) && BoundedDeflation(m)
    requires 0.0 < h.withdraw
    requires YearLoop(m, h, n) == Success
    ensures n < h.shares || n == 0
  {
    if n > 0 {
      LoopSuccessIff(m, h, n);
      assert Advance(m, h, n).Continue?;
      SharesFallEveryYear(m, h, n);
    }
  }
}
