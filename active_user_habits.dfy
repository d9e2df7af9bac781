/** The record of one tracked habit instance (one row of active_user_habits). */
module ActiveUserHabits {
  import opened Wrappers
  import opened Intervals

  datatype Status = InProgress | Failed | Deleted

  /**
   * Times are integer seconds. lastCheck and updateExpiry are None when the
   * constructor was called without them; goalStreak is the text typed into the
   * activation form; endDate is a day number.
   */
  datatype ActiveUserHabit = ActiveUserHabit(
    userId: int,
    habitId: int,
    interval: Interval,
    startingDate: int,
    lastCheck: Option<int>,
    updateExpiry: Option<int>,
    streak: nat,
    status: Status,
    goalStreak: Option<string>,
    endDate: Option<int>)

  /**
   * The constructor: everything passed is stored as it is, the streak starts at
   * 0, the status is 'in progress' and the starting date is the creation time.
   */
  function NewActiveUserHabit(userId: int, habitId: int, interval: Interval,
                              goalStreak: Option<string>, endDate: Option<int>,
                              lastCheck: Option<int>, updateExpiry: Option<int>,
                              now: int): (r: ActiveUserHabit)
    ensures r.streak == 0 && r.status == InProgress && r.startingDate == now
    ensures r.userId == userId && r.habitId == habitId && r.interval == interval
    ensures r.goalStreak == goalStreak && r.endDate == endDate
    ensures r.lastCheck == lastCheck && r.updateExpiry == updateExpiry
  {
    ActiveUserHabit(userId, habitId, interval, now, lastCheck, updateExpiry, 0, InProgress, goalStreak, endDate)
  }

  /** A stored record always has a deadline, and the deadline lies after its start. */
  predicate Tracked(r: ActiveUserHabit)
  {
    r.updateExpiry.Some? && r.updateExpiry.value > r.startingDate
  }

  predicate AllTracked(rows: seq<ActiveUserHabit>)
  {
    forall i :: 0 <= i < |rows| ==> Tracked(rows[i])
  }

  /** Time left until the deadline; zero or negative means the time is up. */
  function Remaining(r: ActiveUserHabit, now: int): int
    requires r.updateExpiry.Some?
  {
    r.updateExpiry.value - now
  }
}
