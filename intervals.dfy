/**
 * The three monitoring intervals and their periods, in seconds.
 * The interval is stored as interval_ID 1, 2 or 3 and shown by its name.
 */
module Intervals {
  import opened Wrappers

  datatype Interval = Daily | Weekly | Monthly

  /** Seconds in one day. */
  const Day: int := 86400

  /** Length of the period in days, as the activation screen adds it (timedelta(days=...)). */
  function Days(i: Interval): (d: nat)
    ensures 1 <= d <= 30
  {
    match i
    case Daily => 1
    case Weekly => 7
    case Monthly => 30
  }

  /** The period of an interval, in seconds. */
  function Period(i: Interval): (p: int)
    ensures p > 0 && p % Day == 0
    ensures p == Days(i) * Day
  {
    Days(i) * Day
  }

  /** The interval_ID column of the monitoring_interval table. */
  function IntervalId(i: Interval): (id: int)
    ensures 1 <= id <= 3
  {
    match i
    case Daily => 1
    case Weekly => 2
    case Monthly => 3
  }

  /** The control_interval name shown in the active-habits table. */
  function Name(i: Interval): string
  {
    match i
    case Daily => "daily"
    case Weekly => "weekly"
    case Monthly => "monthly"
  }

  /** Check-off reads the interval text of the selected row; any other text is an error. */
  function ParseStrict(s: string): (r: Option<Interval>)
    ensures r.Some? <==> s == "daily" || s == "weekly" || s == "monthly"
    ensures r.Some? ==> Name(r.value) == s
  {
    if s == "daily" then Some(Daily)
    else if s == "weekly" then Some(Weekly)
    else if s == "monthly" then Some(Monthly)
    else None
  }

  /** Reactivation reads the same text but treats everything that is not daily or weekly as monthly. */
  function ParseLenient(s: string): (r: Interval)
    ensures ParseStrict(s).Some? ==> r == ParseStrict(s).value
    ensures ParseStrict(s).None? ==> r == Monthly
  {
    if s == "daily" then Daily
    else if s == "weekly" then Weekly
    else Monthly
  }

  /** Reactivation adds timedelta(hours=24/168/720). */
  function ReactivationHours(i: Interval): nat
  {
    match i
    case Daily => 24
    case Weekly => 168
    case Monthly => 720
  }

  /** The hour-based periods of reactivation are the day-based periods of activation. */
  lemma ReactivationPeriodIsPeriod(i: Interval)
    ensures ReactivationHours(i) * 3600 == Period(i)
  {
  }

  /** Every interval's name parses back to it, under both readings. */
  lemma {:induction false} NameRoundTrip(i: Interval)
    ensures ParseStrict(Name(i)) == Some(i)
    ensures ParseLenient(Name(i)) == i
  {
    match i
    case Daily =>
    case Weekly =>
      assert Name(i) != "daily";
    case Monthly =>
      assert Name(i) != "daily" && Name(i) != "weekly";
  }
}
