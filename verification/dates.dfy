/**
 Calendar days as an ordered day index, and the three calendar steps the
 backtest takes: the next day, the same day one year later, and the first
 day of the month before a date's month.

 The calendar arithmetic itself (month lengths, leap years, normalising
 February 29th) is not modelled: a calendar is given as the two year/month
 functions, constrained only by the orderings the engine relies on.
 */
module Dates {

  /** A calendar day; consecutive days differ by one. */
  type Date = int

  /** The two calendar steps that depend on month and year lengths. */
  datatype CalendarOps = CalendarOps(addYear: Date -> Date, prevMonthStart: Date -> Date)

  /** A calendar's year step moves forward, and the start of the previous
      month lies strictly before the date it is taken from (the first day of
      the date's own month is not after the date; one month before it is
      strictly before). */
  ghost predicate Ordered(ops: CalendarOps) {
    forall d :: ops.prevMonthStart(d) < d < ops.addYear(d)
  }

  type Calendar = ops: CalendarOps | Ordered(ops)
    witness CalendarOps(d => d + 365, d => d - 31)

  /** The day after `d`: strictly later, with no day skipped. */
  function NextDay(d: Date): (r: Date)
    ensures d < r <= d + 1
  {
    d + 1
  }

  /** The same calendar day one year after `d`. */
  function AddYear(cal: Calendar, d: Date): (r: Date)
    ensures d < r
  {
    cal.addYear(d)
  }

  /** The first day of the month before the month of `d`: the date whose CPI
      figure is used for a simulated year starting on `d`. */
  function PrevMonthStart(cal: Calendar, d: Date): (r: Date)
    ensures r < d
  {
    cal.prevMonthStart(d)
  }

  /** The date `k` simulated years after `d`. */
  function YearDate(cal: Calendar, d: Date, k: nat): (r: Date)
    ensures r >= d + k
    ensures k > 0 ==> r > d
  {
    if k == 0 then d else AddYear(cal, YearDate(cal, d, k - 1))
  }

  /** Simulated year dates are strictly increasing in the year number. */
  lemma {:induction false} YearDatesIncrease(cal: Calendar, d: Date, j: nat, k: nat)
    requires j < k
    ensures YearDate(cal, d, j) < YearDate(cal, d, k)
    decreases k
  {
    if j < k - 1 {
      YearDatesIncrease(cal, d, j, k - 1);
    }
  }
}
