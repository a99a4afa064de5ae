/**
 Worked trials on a small market with a 360-day year of 30-day months:
 index prices on day 0 (100) and day 360 (110), and a 5% CPI figure for the
 month starting on day 330.
 */
module Scenarios {
  import opened Dates
  import opened TimeSeries
  import opened Rounding
  import opened Trial
  import opened Sweep

  /** A calendar of twelve 30-day months. */
  function TidyCalendar(): Calendar {
    CalendarOps(d => d + 360, d => d - d % 30 - 30)
  }

  function SampleMarket(): Market {
    Market(
      Series(map[330 := 5.0], 330, 330),
      Series(map[0 := 100.0, 360 := 110.0], 0, 360),
      TidyCalendar())
  }

  /** One million, 4% a year, over `years` years. */
  function FourPercent(years: int): Config {
    Config(1000000.0, 0.04, years)
  }

  /** The start price buys 9600 shares after the first 40000 withdrawal;
      a year later the withdrawal grows by 5% to 42000, which sells 382
      shares at 110, leaving 9218: a two-year plan succeeds. */
  lemma TwoYearPlanSucceeds()
    ensures InitialHolding(FourPercent(2), 0, 100.0) == Holding(0, 40000.0, 9600)
    ensures YearStep(SampleMarket(), Holding(0, 40000.0, 9600)) == Continue(Holding(360, 42000.0, 9218))
    ensures RunPlan(SampleMarket(), FourPercent(2), 0) == Success
  {
    var m := SampleMarket();
    assert FindPrice(m.index, 0) == 100.0;
    assert Trunc(960000.0 / 100.0) == 9600;
    assert PrevMonthStart(m.cal, 360) == 330;
    assert FindPrice(m.index, 360) == 110.0;
    assert 381.0 < 42000.0 / 110.0 < 382.0;
    assert Ceil(42000.0 / 110.0) == 382;
  }

  /** A third year would need the CPI figure of the month starting on day
      690, which the data does not have: the trial ends with no data. */
  lemma ThreeYearPlanLacksData()
    ensures RunPlan(SampleMarket(), FourPercent(3), 0) == NoData
  {
    TwoYearPlanSucceeds();
    var m := SampleMarket();
    assert PrevMonthStart(m.cal, 720) == 690;
  }

  /** With 1000 and a 50% withdrawal the purchase is 5 shares; the grown
      withdrawal of 525 sells all 5 at 110, so the trial fails. */
  lemma HalfWithdrawalFails()
    ensures InitialHolding(Config(1000.0, 0.5, 2), 0, 100.0).shares == 5
    ensures RunPlan(SampleMarket(), Config(1000.0, 0.5, 2), 0) == Fail
  {
    var m := SampleMarket();
    assert FindPrice(m.index, 0) == 100.0;
    assert Trunc(500.0 / 100.0) == 5;
    assert PrevMonthStart(m.cal, 360) == 330;
    assert FindPrice(m.index, 360) == 110.0;
    assert 4.0 < 525.0 / 110.0 < 5.0;
    assert Ceil(525.0 / 110.0) == 5;
  }

  /** Past the last index date there is no price, so a trial starting there
      has no data. */
  lemma LateStartLacksData()
    ensures FindPrice(SampleMarket().index, 361) == 0.0
    ensures RunPlan(SampleMarket(), FourPercent(2), 361) == NoData
  {
  }

  /** Day 360 is past the last CPI date but has a price. A one-year plan
      reads no CPI figure and succeeds there; a capital too small to buy a
      share fails there, whatever the horizon. Neither has no data. */
  lemma PastCpiDataStillDecides()
    ensures InitialHolding(FourPercent(1), 360, 110.0).shares == 8727
    ensures RunPlan(SampleMarket(), FourPercent(1), 360) == Success
    ensures RunPlan(SampleMarket(), Config(5.0, 0.04, 3), 360) == Fail
  {
    var m := SampleMarket();
    assert FindPrice(m.index, 360) == 110.0;
    assert 8727.0 < 960000.0 / 110.0 < 8728.0;
    assert Trunc(960000.0 / 110.0) == 8727;
    assert 0.0 < 4.8 / 110.0 < 1.0;
    assert Trunc(4.8 / 110.0) == 0;
  }

  /** The sweep starts at day 330, the later first date; a sweep to day 332
      runs two trials, both of which lack the CPI figure of their second
      year. */
  lemma ShortSweepLacksData()
    ensures SweepStart(SampleMarket()) == 330
    ensures Swept(Trials(SampleMarket(), FourPercent(2)), 330, 332) == Counters(0, 0, 2)
  {
    var m := SampleMarket();
    ForwardFillFindsFirstStored(m.index, 330, 360);
    ForwardFillFindsFirstStored(m.index, 331, 360);
    assert PrevMonthStart(m.cal, 690) == 660;
    assert PrevMonthStart(m.cal, 691) == 660;
  }
}
