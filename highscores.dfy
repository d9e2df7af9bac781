/**
 * The global points ranking of the highscore screen: every row of every
 * interval earns its streak times 1 (daily), 2 (weekly) or 3 (monthly), and
 * the points are summed per username. No status is filtered out.
 */
module Highscores {
  import opened Intervals
  import opened ActiveUserHabits

  datatype PointsEntry = PointsEntry(activeHabitId: nat, username: string, points: int)

  /** Points per streak unit. */
  function Weight(i: Interval): (w: nat)
    ensures w == IntervalId(i)
  {
    match i
    case Daily => 1
    case Weekly => 2
    case Monthly => 3
  }

  /** A row survives the joins with the habits and user tables. */
  predicate Joined(r: ActiveUserHabit, catalog: map<int, string>, usernames: map<int, string>)
  {
    r.habitId in catalog && r.userId in usernames
  }

  predicate ValidIds(rows: seq<ActiveUserHabit>, ids: seq<nat>, catalog: map<int, string>, usernames: map<int, string>)
  {
    forall k :: 0 <= k < |ids| ==> ids[k] < |rows| && Joined(rows[ids[k]], catalog, usernames)
  }

  /** The ids the query for one interval returns, among the first n rows. */
  function IntervalIds(rows: seq<ActiveUserHabit>, i: Interval, catalog: map<int, string>,
                       usernames: map<int, string>, n: nat): (ids: seq<nat>)
    requires n <= |rows|
    ensures ValidIds(rows, ids, catalog, usernames)
    ensures forall k :: 0 <= k < |ids| ==> ids[k] < n && rows[ids[k]].interval == i
  {
    if n == 0 then []
    else
      IntervalIds(rows, i, catalog, usernames, n - 1) +
      (if Joined(rows[n - 1], catalog, usernames) && rows[n - 1].interval == i then [n - 1] else [])
  }

  /** The query for one interval misses no joined row of that interval. */
  lemma {:induction false} IntervalIdsComplete(rows: seq<ActiveUserHabit>, i: Interval, catalog: map<int, string>,
                                               usernames: map<int, string>, n: nat)
    requires n <= |rows|
    ensures forall k :: 0 <= k < n && Joined(rows[k], catalog, usernames) && rows[k].interval == i ==>
              k in IntervalIds(rows, i, catalog, usernames, n)
  {
    if n > 0 {
      IntervalIdsComplete(rows, i, catalog, usernames, n - 1);
      var prev := IntervalIds(rows, i, catalog, usernames, n - 1);
      var ids := IntervalIds(rows, i, catalog, usernames, n);
      forall k | 0 <= k < n - 1 && k in prev
        ensures k in ids
      {
        var p :| 0 <= p < |prev| && prev[p] == k;
        assert ids[p] == k;
      }
    }
  }

  /** The query for one interval returns each row once, in table order. */
  lemma {:induction false} IntervalIdsAscending(rows: seq<ActiveUserHabit>, i: Interval, catalog: map<int, string>,
                                                usernames: map<int, string>, n: nat)
    requires n <= |rows|
    ensures forall a, b :: 0 <= a < b < |IntervalIds(rows, i, catalog, usernames, n)| ==>
              IntervalIds(rows, i, catalog, usernames, n)[a] < IntervalIds(rows, i, catalog, usernames, n)[b]
  {
    if n > 0 {
      IntervalIdsAscending(rows, i, catalog, usernames, n - 1);
      var prev := IntervalIds(rows, i, catalog, usernames, n - 1);
      var ids := IntervalIds(rows, i, catalog, usernames, n);
      forall a, b | 0 <= a < b < |ids|
        ensures ids[a] < ids[b]
      {
        assert ids[a] == prev[a] < n - 1;
        if b < |prev| {
          assert ids[b] == prev[b];
        } else {
          assert ids[b] == n - 1;
        }
      }
    }
  }

  /** The daily, then the weekly, then the monthly rows, as the three queries are concatenated. */
  function GlobalActiveHabits(rows: seq<ActiveUserHabit>, catalog: map<int, string>, usernames: map<int, string>)
    : (ids: seq<nat>)
    ensures ValidIds(rows, ids, catalog, usernames)
  {
    IntervalIds(rows, Daily, catalog, usernames, |rows|) +
    IntervalIds(rows, Weekly, catalog, usernames, |rows|) +
    IntervalIds(rows, Monthly, catalog, usernames, |rows|)
  }

  /** Every joined row, whatever its interval, is among the global rows. */
  lemma GlobalActiveHabitsComplete(rows: seq<ActiveUserHabit>, catalog: map<int, string>, usernames: map<int, string>, k: nat)
    requires k < |rows| && Joined(rows[k], catalog, usernames)
    ensures k in GlobalActiveHabits(rows, catalog, usernames)
  {
    IntervalIdsComplete(rows, rows[k].interval, catalog, usernames, |rows|);
  }

  /** The points of one row: its streak times the weight of its interval. */
  function Score(r: ActiveUserHabit): (p: int)
    ensures p == Weight(r.interval) * r.streak
  {
    match r.interval
    case Daily => r.streak
    case Weekly => r.streak * 2
    case Monthly => r.streak * 3
  }

  function EntriesOf(rows: seq<ActiveUserHabit>, ids: seq<nat>, catalog: map<int, string>,
                     usernames: map<int, string>): (es: seq<PointsEntry>)
    requires ValidIds(rows, ids, catalog, usernames)
    ensures |es| == |ids|
  {
    if ids == [] then []
    else
      var id := ids[|ids| - 1];
      EntriesOf(rows, ids[..|ids| - 1], catalog, usernames) +
      [PointsEntry(id, usernames[rows[id].userId], Score(rows[id]))]
  }

  /** The group-by-username sum of the points list. */
  function UserTotal(points: seq<PointsEntry>, username: string): int
  {
    if points == [] then 0
    else
      UserTotal(points[..|points| - 1], username) +
      (if points[|points| - 1].username == username then points[|points| - 1].points else 0)
  }

  /** Weighted streaks of all the user's rows among the first n, in every status. */
  function WeightedStreakSum(rows: seq<ActiveUserHabit>, username: string, catalog: map<int, string>,
                             usernames: map<int, string>, n: nat): int
    requires n <= |rows|
  {
    if n == 0 then 0
    else
      WeightedStreakSum(rows, username, catalog, usernames, n - 1) +
      (if Joined(rows[n - 1], catalog, usernames) && usernames[rows[n - 1].userId] == username
       then Score(rows[n - 1]) else 0)
  }

  lemma {:induction false} UserTotalAppend(a: seq<PointsEntry>, b: seq<PointsEntry>, username: string)
    ensures UserTotal(a + b, username) == UserTotal(a, username) + UserTotal(b, username)
    decreases |b|
  {
    if b == [] {
      assert a + b == a;
    } else {
      assert (a + b)[..|a + b| - 1] == a + b[..|b| - 1];
      UserTotalAppend(a, b[..|b| - 1], username);
    }
  }

  lemma {:induction false} EntriesOfAppend(rows: seq<ActiveUserHabit>, a: seq<nat>, b: seq<nat>,
                                           catalog: map<int, string>, usernames: map<int, string>)
    requires ValidIds(rows, a, catalog, usernames) && ValidIds(rows, b, catalog, usernames)
    ensures ValidIds(rows, a + b, catalog, usernames)
    ensures EntriesOf(rows, a + b, catalog, usernames) ==
            EntriesOf(rows, a, catalog, usernames) + EntriesOf(rows, b, catalog, usernames)
    decreases |b|
  {
    assert ValidIds(rows, a + b, catalog, usernames);
    if b == [] {
      assert a + b == a;
    } else {
      assert (a + b)[..|a + b| - 1] == a + b[..|b| - 1];
      EntriesOfAppend(rows, a, b[..|b| - 1], catalog, usernames);
    }
  }

  /** One interval's share of a username's total, over the first n rows. */
  function Part(rows: seq<ActiveUserHabit>, i: Interval, username: string, catalog: map<int, string>,
                usernames: map<int, string>, n: nat): int
    requires n <= |rows|
  {
    UserTotal(EntriesOf(rows, IntervalIds(rows, i, catalog, usernames, n), catalog, usernames), username)
  }

  function Contribution(r: ActiveUserHabit, i: Interval, username: string, catalog: map<int, string>,
                        usernames: map<int, string>): int
  {
    if Joined(r, catalog, usernames) && r.interval == i && usernames[r.userId] == username then Score(r) else 0
  }

  lemma PartStep(rows: seq<ActiveUserHabit>, i: Interval, username: string, catalog: map<int, string>,
                 usernames: map<int, string>, n: nat)
    requires 0 < n <= |rows|
    ensures Part(rows, i, username, catalog, usernames, n) ==
            Part(rows, i, username, catalog, usernames, n - 1) + Contribution(rows[n - 1], i, username, catalog, usernames)
  {
    var prev := IntervalIds(rows, i, catalog, usernames, n - 1);
    if Joined(rows[n - 1], catalog, usernames) && rows[n - 1].interval == i {
      var ids := IntervalIds(rows, i, catalog, usernames, n);
      assert ids == prev + [n - 1];
      assert ids[..|ids| - 1] == prev;
      var es := EntriesOf(rows, ids, catalog, usernames);
      assert es[..|es| - 1] == EntriesOf(rows, prev, catalog, usernames);
    } else {
      assert IntervalIds(rows, i, catalog, usernames, n) == prev;
    }
  }

  lemma ContributionSplit(r: ActiveUserHabit, username: string, catalog: map<int, string>, usernames: map<int, string>)
    ensures Contribution(r, Daily, username, catalog, usernames) +
            Contribution(r, Weekly, username, catalog, usernames) +
            Contribution(r, Monthly, username, catalog, usernames)
            == if Joined(r, catalog, usernames) && usernames[r.userId] == username then Score(r) else 0
  {
  }

  /** One interval's share of a username's total, summed row by row. */
  function IntervalSum(rows: seq<ActiveUserHabit>, i: Interval, username: string, catalog: map<int, string>,
                       usernames: map<int, string>, n: nat): int
    requires n <= |rows|
  {
    if n == 0 then 0
    else IntervalSum(rows, i, username, catalog, usernames, n - 1) + Contribution(rows[n - 1], i, username, catalog, usernames)
  }

  lemma {:induction false} PartIsIntervalSum(rows: seq<ActiveUserHabit>, i: Interval, username: string,
                                             catalog: map<int, string>, usernames: map<int, string>, n: nat)
    requires n <= |rows|
    ensures Part(rows, i, username, catalog, usernames, n) == IntervalSum(rows, i, username, catalog, usernames, n)
  {
    if n > 0 {
      PartIsIntervalSum(rows, i, username, catalog, usernames, n - 1);
      PartStep(rows, i, username, catalog, usernames, n);
    }
  }

  /** Each row lands in exactly one of the three interval queries. */
  lemma {:induction false} IntervalSplit(rows: seq<ActiveUserHabit>, username: string, catalog: map<int, string>,
                                         usernames: map<int, string>, n: nat)
    requires n <= |rows|
    ensures IntervalSum(rows, Daily, username, catalog, usernames, n) +
            IntervalSum(rows, Weekly, username, catalog, usernames, n) +
            IntervalSum(rows, Monthly, username, catalog, usernames, n)
            == WeightedStreakSum(rows, username, catalog, usernames, n)
  {
    if n > 0 {
      IntervalSplit(rows, username, catalog, usernames, n - 1);
      ContributionSplit(rows[n - 1], username, catalog, usernames);
    }
  }

  /** The three concatenated queries sum, per username, to the weighted streaks of all the user's rows. */
  lemma GlobalTotal(rows: seq<ActiveUserHabit>, username: string, catalog: map<int, string>, usernames: map<int, string>)
    ensures UserTotal(EntriesOf(rows, GlobalActiveHabits(rows, catalog, usernames), catalog, usernames), username)
            == WeightedStreakSum(rows, username, catalog, usernames, |rows|)
  {
    var d := IntervalIds(rows, Daily, catalog, usernames, |rows|);
    var w := IntervalIds(rows, Weekly, catalog, usernames, |rows|);
    var m := IntervalIds(rows, Monthly, catalog, usernames, |rows|);
    EntriesOfAppend(rows, d, w, catalog, usernames);
    EntriesOfAppend(rows, d + w, m, catalog, usernames);
    UserTotalAppend(EntriesOf(rows, d, catalog, usernames), EntriesOf(rows, w, catalog, usernames), username);
    UserTotalAppend(EntriesOf(rows, d + w, catalog, usernames), EntriesOf(rows, m, catalog, usernames), username);
    PartIsIntervalSum(rows, Daily, username, catalog, usernames, |rows|);
    PartIsIntervalSum(rows, Weekly, username, catalog, usernames, |rows|);
    PartIsIntervalSum(rows, Monthly, username, catalog, usernames, |rows|);
    IntervalSplit(rows, username, catalog, usernames, |rows|);
  }

  /**
   * The points loop of the highscore screen: one entry per row the three
   * queries return, and each username's total is the weighted sum of the
   * streaks of all that user's rows, whatever their status.
   */
  method ActiveHabitsPoints(rows: seq<ActiveUserHabit>, catalog: map<int, string>, usernames: map<int, string>)
    returns (points: seq<PointsEntry>)
    ensures points == EntriesOf(rows, GlobalActiveHabits(rows, catalog, usernames), catalog, usernames)
    ensures forall username :: UserTotal(points, username) == WeightedStreakSum(rows, username, catalog, usernames, |rows|)
  {
    var all := GlobalActiveHabits(rows, catalog, usernames);
    points := [];
    var k := 0;
    while k < |all|
      invariant 0 <= k <= |all|
      invariant points == EntriesOf(rows, all[..k], catalog, usernames)
    {
      assert all[..k + 1][..k] == all[..k];
      var habit := rows[all[k]];
      var streak := habit.streak;
      var habitPoints;
      if habit.interval == Daily {
        habitPoints := streak;
      } else if habit.interval == Weekly {
        habitPoints := streak * 2;
      } else {
        habitPoints := streak * 3;
      }
      points := points + [PointsEntry(all[k], usernames[habit.userId], habitPoints)];
      k := k + 1;
    }
    assert all[..k] == all;
    forall username
      ensures UserTotal(points, username) == WeightedStreakSum(rows, username, catalog, usernames, |rows|)
    {
      GlobalTotal(rows, username, catalog, usernames);
    }
  }

  /** Points ignore the status: a 'failed' or 'deleted' row still scores its streak. */
  lemma {:induction false} PointsIgnoreStatus(rows: seq<ActiveUserHabit>, j: nat, status: Status, username: string,
                                              catalog: map<int, string>, usernames: map<int, string>, n: nat)
    requires j < |rows| && n <= |rows|
    ensures WeightedStreakSum(rows[j := rows[j].(status := status)], username, catalog, usernames, n) ==
            WeightedStreakSum(rows, username, catalog, usernames, n)
  {
    if n > 0 {
      PointsIgnoreStatus(rows, j, status, username, catalog, usernames, n - 1);
    }
  }
}
