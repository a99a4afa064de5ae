/**
 A dated series of values (the `dateValue` record) and the forward-fill
 price lookup `findSAndP500Price`.

 The lookup starts at a date and walks forward one day at a time. It stops
 at the first day that has a stored value. After each step forward it gives
 up, with the sentinel price 0, once the day is past the series' last date.
 The starting day itself is examined before that bound is consulted.
 */
module TimeSeries {
  import opened Dates

  datatype Option<T> = None | Some(value: T)

  /** Stored values keyed by date, and the first and last dates of the data. */
  datatype Series = Series(values: map<Date, real>, first: Date, last: Date)

  /** `k` is a day the forward scan from `d` examines: `d` itself, or a later
      day no later than the last date. */
  predicate InScanRange(s: Series, d: Date, k: Date) {
    d <= k && (k == d || k <= s.last)
  }

  /** `k` is the first stored day the forward scan from `d` reaches. */
  ghost predicate IsFirstStored(s: Series, d: Date, k: Date) {
    && k in s.values
    && InScanRange(s, d, k)
    && forall j :: d <= j < k ==> j !in s.values
  }

  /** No day the forward scan from `d` examines holds a value. */
  ghost predicate NothingInScanRange(s: Series, d: Date) {
    forall k :: InScanRange(s, d, k) ==> k !in s.values
  }

  /** The day at which the forward scan from `d` stops with a value, if any. */
  function ResolveDate(s: Series, d: Date): (r: Option<Date>)
    ensures r.Some? ==> IsFirstStored(s, d, r.value)
    ensures r.None? ==> NothingInScanRange(s, d)
    decreases s.last - d
  {
    if d in s.values then Some(d)
    else if NextDay(d) > s.last then None
    else ResolveDate(s, NextDay(d))
  }

  /** The forward-filled price on or after `d`; 0 when the scan runs past the
      last date without finding a stored value. */
  function FindPrice(s: Series, d: Date): (price: real)
    ensures price != 0.0 ==> exists k :: IsFirstStored(s, d, k) && s.values[k] == price
    ensures NothingInScanRange(s, d) ==> price == 0.0
  {
    match ResolveDate(s, d)
    case Some(k) => s.values[k]
    case None => 0.0
  }

  /** The scan as a loop: test the day, step one day forward, stop past the
      last date. */
  method FindPriceScan(s: Series, start: Date) returns (price: real)
    ensures price == FindPrice(s, start)
  {
    var day := start;
    while true
      invariant start <= day
      invariant ResolveDate(s, day) == ResolveDate(s, start)
      decreases s.last - day
    {
      if day in s.values {
        return s.values[day];
      }
      day := NextDay(day);
      if day > s.last {
        return 0.0;
      }
    }
  }

  /** There is only one first stored day. */
  lemma FirstStoredUnique(s: Series, d: Date, k1: Date, k2: Date)
    requires IsFirstStored(s, d, k1) && IsFirstStored(s, d, k2)
    ensures k1 == k2
  {
  }

  /** Forward-fill correctness: the lookup returns the value stored at the
      first stored day of the scan, and never one stored before `d`. */
  lemma ForwardFillFindsFirstStored(s: Series, d: Date, k: Date)
    requires IsFirstStored(s, d, k)
    ensures FindPrice(s, d) == s.values[k]
    ensures ResolveDate(s, d) == Some(k)
  {
    match ResolveDate(s, d)
    case Some(k') => FirstStoredUnique(s, d, k, k');
    case None =>
  }

  /** Between two consecutive stored days `a < b` (with `b` inside the data),
      every day after `a` up to `b` resolves to `b`'s value, never `a`'s. */
  lemma ForwardFillBetween(s: Series, a: Date, b: Date, d: Date)
    requires a in s.values && b in s.values
    requires a < d <= b <= s.last
    requires forall j :: a < j < b ==> j !in s.values
    ensures FindPrice(s, d) == s.values[b]
  {
    ForwardFillFindsFirstStored(s, d, b);
  }

  /** A stored price of exactly 0 cannot be told apart from a missing one:
      the lookup gives 0 exactly when nothing is found or the first stored
      value found is 0. */
  lemma ZeroPriceIsAmbiguous(s: Series, d: Date)
    ensures FindPrice(s, d) == 0.0 <==>
      (NothingInScanRange(s, d) || exists k :: IsFirstStored(s, d, k) && s.values[k] == 0.0)
  {
    match ResolveDate(s, d)
    case Some(k) =>
      if exists k' :: IsFirstStored(s, d, k') && s.values[k'] == 0.0 {
        var k' :| IsFirstStored(s, d, k') && s.values[k'] == 0.0;
        FirstStoredUnique(s, d, k, k');
      }
    case None =>
  }

  /** The lookup only looks forward: changing values stored before `d`
      cannot change its result. */
  lemma LookupIgnoresEarlierDays(s: Series, t: Series, d: Date)
    requires s.last == t.last
    requires forall k :: d <= k ==> (k in s.values <==> k in t.values)
    requires forall k :: d <= k && k in s.values ==> s.values[k] == t.values[k]
    ensures FindPrice(s, d) == FindPrice(t, d)
  {
    match ResolveDate(s, d)
    case Some(k) =>
      assert IsFirstStored(t, d, k);
      ForwardFillFindsFirstStored(t, d, k);
    case None =>
      assert NothingInScanRange(t, d);
  }
}
