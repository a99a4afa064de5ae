/**
 The sweep: one trial per calendar day, from the later of the two series'
 first dates up to (not including) an end date, with each trial's
 classification added to one of three counters.
 */
module Sweep {
  import opened Dates
  import opened Trial

  /** The three counters: successes, failures, and trials without data. */
  datatype Counters = Counters(success: nat, failed: nat, na: nat)

  function Total(c: Counters): nat {
    c.success + c.failed + c.na
  }

  /** The counter that records classification `o`. */
  function Count(c: Counters, o: Outcome): nat {
    match o
    case Success => c.success
    case Fail => c.failed
    case NoData => c.na
  }

  /** Adds one trial's classification to the counters: successes and
      failures to their own counter, everything else to `na`. */
  function Record(c: Counters, o: Outcome): (r: Counters)
    ensures r.success == c.success + (if o == Success then 1 else 0)
    ensures r.failed == c.failed + (if o == Fail then 1 else 0)
    ensures r.na == c.na + (if o == NoData then 1 else 0)
  {
    match o
    case Success => c.(success := c.success + 1)
    case Fail => c.(failed := c.failed + 1)
    case NoData => c.(na := c.na + 1)
  }

  /** Counter-wise sum of two partial results. */
  function Add(a: Counters, b: Counters): Counters {
    Counters(a.success + b.success, a.failed + b.failed, a.na + b.na)
  }

  /** The first day swept: the later of the two series' first dates. */
  function SweepStart(m: Market): (r: Date)
    ensures m.index.first <= r && m.cpi.first <= r
    ensures r == m.index.first || r == m.cpi.first
  {
    if m.cpi.first > m.index.first then m.cpi.first else m.index.first
  }

  /** The number of days from `lo` up to, not including, `hi`. */
  function DaysBetween(lo: Date, hi: Date): nat {
    if lo < hi then hi - lo else 0
  }

  /** The trials of one plan against one market, by start day. */
  function Trials(m: Market, cfg: Config): Date -> Outcome {
    d => RunPlan(m, cfg, d)
  }

  /** The counters after recording, day by day, the classification of each
      trial starting from `lo` up to, not including, `hi`. */
  function Swept(trial: Date -> Outcome, lo: Date, hi: Date): Counters
    decreases DaysBetween(lo, hi)
  {
    if lo < hi then Record(Swept(trial, lo, hi - 1), trial(hi - 1)) else Counters(0, 0, 0)
  }

  /** The days from `lo` up to, not including, `hi` whose trial has
      classification `o`. */
  function DaysWith(trial: Date -> Outcome, lo: Date, hi: Date, o: Outcome): set<Date> {
    set d | lo <= d < hi && trial(d) == o
  }

  /** The sweep loop: run the trial of each day from `start` up to, not
      including, `end`, and count the classifications. */
  method SweepDays(trial: Date -> Outcome, start: Date, end: Date) returns (c: Counters)
    ensures Total(c) == DaysBetween(start, end)
    ensures forall o :: Count(c, o) == |DaysWith(trial, start, end, o)|
  {
    var current := start;
    c := Counters(0, 0, 0);
    while current < end
      invariant start <= current
      invariant current <= end || current == start
      invariant c == Swept(trial, start, current)
      decreases end - current
    {
      var r := trial(current);
      c := Record(c, r);
      current := NextDay(current);
    }
    SweptCountsAllDays(trial, start, end);
  }

  /** The sweep of a plan: one trial per day from the later of the two
      series' first dates up to, not including, `end`. Every day lands in
      exactly one counter, and each counter counts the days whose trial has
      its classification. */
  method RunSweep(m: Market, cfg: Config, end: Date) returns (c: Counters)
    ensures Total(c) == DaysBetween(SweepStart(m), end)
    ensures c.success == |DaysWith(Trials(m, cfg), SweepStart(m), end, Success)|
    ensures c.failed == |DaysWith(Trials(m, cfg), SweepStart(m), end, Fail)|
    ensures c.na == |DaysWith(Trials(m, cfg), SweepStart(m), end, NoData)|
  {
    c := SweepDays(Trials(m, cfg), SweepStart(m), end);
    assert Count(c, Success) == c.success && Count(c, Fail) == c.failed && Count(c, NoData) == c.na;
  }

  /** Every day swept lands in exactly one counter. */
  lemma {:induction false} SweptTotal(trial: Date -> Outcome, lo: Date, hi: Date)
    ensures Total(Swept(trial, lo, hi)) == DaysBetween(lo, hi)
    decreases DaysBetween(lo, hi)
  {
    if lo < hi {
      SweptTotal(trial, lo, hi - 1);
    }
  }

  /** Each counter counts the days whose trial has its classification. */
  lemma {:induction false} SweptCountsDays(trial: Date -> Outcome, lo: Date, hi: Date, o: Outcome)
    ensures Count(Swept(trial, lo, hi), o) == |DaysWith(trial, lo, hi, o)|
    decreases DaysBetween(lo, hi)
  {
    if lo < hi {
      SweptCountsDays(trial, lo, hi - 1, o);
      var before := DaysWith(trial, lo, hi - 1, o);
      if trial(hi - 1) == o {
        assert DaysWith(trial, lo, hi, o) == before + {hi - 1};
      } else {
        assert DaysWith(trial, lo, hi, o) == before;
      }
    } else {
      assert DaysWith(trial, lo, hi, o) == {};
    }
  }

  /** Both facts about the counters of a sweep, for every classification. */
  lemma SweptCountsAllDays(trial: Date -> Outcome, lo: Date, hi: Date)
    ensures Total(Swept(trial, lo, hi)) == DaysBetween(lo, hi)
    ensures forall o :: Count(Swept(trial, lo, hi), o) == |DaysWith(trial, lo, hi, o)|
  {
    SweptTotal(trial, lo, hi);
    forall o
      ensures Count(Swept(trial, lo, hi), o) == |DaysWith(trial, lo, hi, o)|
    {
      SweptCountsDays(trial, lo, hi, o);
    }
  }

  /** Sweeping two adjacent date ranges separately and adding the counters
      gives the counters of sweeping their union. */
  lemma {:induction false} SweepSplits(trial: Date -> Outcome, lo: Date, mid: Date, hi: Date)
    requires lo <= mid <= hi
    ensures Swept(trial, lo, hi) == Add(Swept(trial, lo, mid), Swept(trial, mid, hi))
    decreases hi - mid
  {
    if mid < hi {
      SweepSplits(trial, lo, mid, hi - 1);
    }
  }

  // ---------------------------------------------------------------------
  // Order independence: the counters are a function of how often each
  // classification occurs, whatever order the trials are recorded in.

  /** The counters after recording `os` in order. */
  function Tally(os: seq<Outcome>): Counters
    decreases |os|
  {
    if |os| == 0 then Counters(0, 0, 0) else Record(Tally(os[..|os| - 1]), os[|os| - 1])
  }

  /** Each counter of a tally is the number of occurrences of its
      classification. */
  lemma {:induction false} TallyCountsOccurrences(os: seq<Outcome>, o: Outcome)
    ensures Count(Tally(os), o) == multiset(os)[o]
    decreases |os|
  {
    if |os| > 0 {
      var init := os[..|os| - 1];
      assert os == init + [os[|os| - 1]];
      TallyCountsOccurrences(init, o);
    }
  }

  /** Recording the same classifications in any order gives the same
      counters. */
  lemma TallyIgnoresOrder(a: seq<Outcome>, b: seq<Outcome>)
    requires multiset(a) == multiset(b)
    ensures Tally(a) == Tally(b)
  {
    TallyCountsOccurrences(a, Success);
    TallyCountsOccurrences(a, Fail);
    TallyCountsOccurrences(a, NoData);
    TallyCountsOccurrences(b, Success);
    TallyCountsOccurrences(b, Fail);
    TallyCountsOccurrences(b, NoData);
  }

  /** The classifications of the trials from `lo` up to, not including,
      `hi`, in date order. */
  function Outcomes(trial: Date -> Outcome, lo: Date, hi: Date): seq<Outcome>
  {
    seq(DaysBetween(lo, hi), i => trial(lo + i))
  }

  /** The sweep is the tally of the days' classifications in date order, so
      by TallyIgnoresOrder any other order of the same trials gives the
      same counters. */
  lemma {:induction false} SweptIsTally(trial: Date -> Outcome, lo: Date, hi: Date)
    ensures Swept(trial, lo, hi) == Tally(Outcomes(trial, lo, hi))
    decreases DaysBetween(lo, hi)
  {
    if lo < hi {
      SweptIsTally(trial, lo, hi - 1);
      var os := Outcomes(trial, lo, hi);
      assert os[..|os| - 1] == Outcomes(trial, lo, hi - 1);
    }
  }
}
