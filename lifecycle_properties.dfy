/** Properties of the lifecycle rules that relate several operations. */
module LifecycleProperties {
  import opened Wrappers
  import opened Intervals
  import opened ActiveUserHabits
  import opened Lifecycle

  /**
   * The duplicate query looks for any row that is not 'deleted': a 'failed'
   * row of the habit blocks a new activation until it is reactivated.
   */
  lemma FailedRowBlocksActivation(rows: seq<ActiveUserHabit>, user: int, habit: int, interval: Interval,
                                  goalStreak: Option<string>, endDate: Option<int>, now: int, i: int)
    requires 0 <= i < |rows| && rows[i].userId == user && rows[i].habitId == habit && rows[i].status == Failed
    requires endDate.None? || endDate.value > Today(now)
    ensures Activation(rows, user, habit, interval, goalStreak, endDate, now) == Failure(AlreadyActive)
  {
  }

  /** Archived rows do not count: when every row of the habit is 'deleted', the habit can be activated again. */
  lemma DeletedRowsDoNotBlock(rows: seq<ActiveUserHabit>, user: int, habit: int, interval: Interval,
                              goalStreak: Option<string>, endDate: Option<int>, now: int)
    requires forall i :: 0 <= i < |rows| && rows[i].userId == user && rows[i].habitId == habit ==> rows[i].status == Deleted
    requires endDate.None? || endDate.value > Today(now)
    ensures Activation(rows, user, habit, interval, goalStreak, endDate, now).Success?
  {
  }

  /** The first check-off after activation is accepted whatever the time. */
  lemma FirstCheckAlwaysAccepted(expiry: int, period: int, now: int)
    ensures Decide(0, expiry, period, now) == Accept
  {
  }

  /**
   * No double count: once a check-off is accepted, another one before the
   * old deadline is rejected, and the reported wait runs up to that deadline.
   */
  lemma NoDoubleCount(r: ActiveUserHabit, period: int, t1: int, t2: int)
    requires r.updateExpiry.Some? && period > 0
    requires Decide(r.streak, r.updateExpiry.value, period, t1) == Accept
    requires t2 < r.updateExpiry.value
    ensures var c := Checked(r, period, t1);
            Decide(c.streak, c.updateExpiry.value, period, t2) == TooEarly(r.updateExpiry.value - t2)
  {
  }

  /**
   * A check-off made after the deadline has passed, but before the sweep has
   * marked the row 'failed', is still accepted.
   */
  lemma LateCheckOffAccepted(r: ActiveUserHabit, period: int, now: int)
    requires r.updateExpiry.Some? && period > 0
    requires now >= r.updateExpiry.value
    ensures Decide(r.streak, r.updateExpiry.value, period, now) == Accept
  {
  }

  /** A series of check-off attempts on one record, at the given times. */
  function CheckSeries(r: ActiveUserHabit, period: int, times: seq<int>): (c: ActiveUserHabit)
    requires r.updateExpiry.Some?
    ensures c.updateExpiry.Some?
    decreases |times|
  {
    if times == [] then r else CheckSeries(CheckRecord(r, period, times[0]), period, times[1..])
  }

  /**
   * Over any series of attempts the streak never goes down, goes up by at most
   * one per attempt, and the deadline moves by exactly one period for each
   * accepted attempt; no other field but lastCheck changes.
   */
  lemma {:induction false} SeriesMovesDeadlineByAcceptedChecks(r: ActiveUserHabit, period: int, times: seq<int>)
    requires r.updateExpiry.Some?
    ensures var c := CheckSeries(r, period, times);
            && r.streak <= c.streak <= r.streak + |times|
            && c.updateExpiry.value == r.updateExpiry.value + (c.streak - r.streak) * period
            && c.(lastCheck := r.lastCheck, streak := r.streak, updateExpiry := r.updateExpiry) == r
    decreases |times|
  {
    if times != [] {
      var next := CheckRecord(r, period, times[0]);
      SeriesMovesDeadlineByAcceptedChecks(next, period, times[1..]);
      var c := CheckSeries(next, period, times[1..]);
      assert c == CheckSeries(r, period, times);
      if next != r {
        assert next.streak == r.streak + 1;
        calc {
          c.updateExpiry.value;
          next.updateExpiry.value + (c.streak - next.streak) * period;
          r.updateExpiry.value + period + (c.streak - r.streak - 1) * period;
          r.updateExpiry.value + (c.streak - r.streak) * period;
        }
      }
    }
  }

  /** Every attempt of the series accepted. */
  predicate AllAccepted(r: ActiveUserHabit, period: int, times: seq<int>)
    requires r.updateExpiry.Some?
    decreases |times|
  {
    times == [] ||
    (Decide(r.streak, r.updateExpiry.value, period, times[0]) == Accept &&
     AllAccepted(Checked(r, period, times[0]), period, times[1..]))
  }

  /** Streak monotonicity: n accepted check-offs add n to the streak and n periods to the deadline. */
  lemma {:induction false} AcceptedSeriesCounts(r: ActiveUserHabit, period: int, times: seq<int>)
    requires r.updateExpiry.Some? && AllAccepted(r, period, times)
    ensures CheckSeries(r, period, times).streak == r.streak + |times|
    ensures CheckSeries(r, period, times).updateExpiry == Some(r.updateExpiry.value + |times| * period)
    ensures times != [] ==> CheckSeries(r, period, times).lastCheck == Some(times[|times| - 1])
    decreases |times|
  {
    if times != [] {
      var next := Checked(r, period, times[0]);
      assert CheckRecord(r, period, times[0]) == next;
      AcceptedSeriesCounts(next, period, times[1..]);
      assert (|times| - 1) * period + period == |times| * period;
      if |times| > 1 {
        assert times[1..][|times[1..]| - 1] == times[|times| - 1];
      }
    }
  }

  /**
   * The worked daily example: activation at t0, an accepted check-off one
   * hour later, a rejected one an hour after that, the sweep at t0 + 50h marks
   * the row failed with its streak kept, and reactivation archives it and
   * starts a fresh row.
   */
  lemma DailyScenario(user: int, habit: int, t0: int)
    ensures var a := Activation([], user, habit, Daily, None, None, t0);
            && a.Success? && a.value.updateExpiry == Some(t0 + 24 * 3600)
            && var rows0 := [a.value];
               var c1 := CheckHabit(rows0, user, habit, "daily", t0 + 3600);
               && c1.0 == Accepted(0) && c1.1[0].streak == 1
               && c1.1[0].updateExpiry == Some(t0 + 48 * 3600)
               && var c2 := CheckHabit(c1.1, user, habit, "daily", t0 + 2 * 3600);
                  && c2.0 == AlreadyChecked(22 * 3600) && c2.1 == c1.1
                  && var swept := Swept(c1.1, user, t0 + 50 * 3600);
                     && swept[0].status == Failed && swept[0].streak == 1
                     && var re := ReactivateOne(swept, user, Selection("Read", habit, "daily", TimeIsUp),
                                                map[habit := "Read"], t0 + 50 * 3600);
                        && re.0 && |re.1| == 2
                        && re.1[0].status == Deleted && re.1[0].streak == 1
                        && re.1[1].status == InProgress && re.1[1].streak == 0
                        && re.1[1].updateExpiry == Some(t0 + 74 * 3600)
  {
    var a := Activation([], user, habit, Daily, None, None, t0);
    assert !HasLiveRecord([], user, habit);
    var rows0 := [a.value];
    assert FirstInProgress(rows0, user, habit, 0) == Some(0);
    var c1 := CheckHabit(rows0, user, habit, "daily", t0 + 3600);
    assert FirstInProgress(c1.1, user, habit, 0) == Some(0);
    var swept := Swept(c1.1, user, t0 + 50 * 3600);
    assert Expired(c1.1[0], user, t0 + 50 * 3600);
    assert ArchiveHits(swept[0], user, map[habit := "Read"], "Read");
  }
}
