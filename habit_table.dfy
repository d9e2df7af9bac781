/**
 * The active_user_habits table as the main screen's handlers change it: one
 * method per handler, each proved against the rule in Lifecycle.
 */
module HabitTable {
  import opened Wrappers
  import opened Intervals
  import opened ActiveUserHabits
  import opened Lifecycle

  /** Number of rows the sweep visits among the given rows (its display counter). */
  function VisibleCount(rows: seq<ActiveUserHabit>, user: int): (n: nat)
    ensures n <= |rows|
  {
    if rows == [] then 0
    else VisibleCount(rows[..|rows| - 1], user) + (if Visible(rows[|rows| - 1], user) then 1 else 0)
  }

  /** A row of the user whose habit carries one of the selected names. */
  predicate DeletedBySelection(r: ActiveUserHabit, user: int, catalog: map<int, string>, selected: seq<string>)
  {
    r.userId == user && r.habitId in catalog && catalog[r.habitId] in selected
  }

  class ActiveHabitTable {
    /** The rows, in insertion order; a row's id is its index. */
    var rows: seq<ActiveUserHabit>

    ghost predicate Valid()
      reads this
    {
      AllTracked(rows)
    }

    constructor ()
      ensures Valid() && rows == []
    {
      rows := [];
    }

    /** save_activation: guards, then one inserted row. */
    method Activate(user: int, habit: int, interval: Interval, goalStreak: Option<string>,
                    endDate: Option<int>, now: int) returns (r: Result<nat, ActivationError>)
      requires Valid()
      modifies this
      ensures Valid()
      ensures match Activation(old(rows), user, habit, interval, goalStreak, endDate, now)
              case Success(rec) => r == Success(|old(rows)|) && rows == old(rows) + [rec]
              case Failure(e) => r == Failure(e) && rows == old(rows)
    {
      if endDate.Some? && !(endDate.value > Today(now)) {
        return Failure(EndDateInPast);
      }
      if HasLiveRecord(rows, user, habit) {
        return Failure(AlreadyActive);
      }
      var lastCheck := now;
      var updateExpiry := lastCheck + Period(interval);
      var rec := NewActiveUserHabit(user, habit, interval, goalStreak, endDate, Some(lastCheck), Some(updateExpiry), now);
      r := Success(|rows|);
      rows := rows + [rec];
    }

    /** check_habit for one selected row. */
    method CheckHabit(user: int, habit: int, intervalText: string, now: int) returns (outcome: CheckOutcome)
      requires Valid()
      modifies this
      ensures Valid()
      ensures (outcome, rows) == Lifecycle.CheckHabit(old(rows), user, habit, intervalText, now)
    {
      var found := FirstInProgress(rows, user, habit, 0);
      if found.None? {
        return NoActiveRecord;
      }
      var id := found.value;
      var interval := ParseStrict(intervalText);
      if interval.None? {
        return UnknownInterval;
      }
      var period := Period(interval.value);
      var r := rows[id];
      var expiry := r.updateExpiry.value;
      var nextCheck := expiry - now;
      if r.streak == 0 || !(nextCheck > period) {
        rows := rows[id := r.(streak := r.streak + 1, lastCheck := Some(now), updateExpiry := Some(expiry + period))];
        outcome := Accepted(id);
      } else {
        outcome := AlreadyChecked((expiry - period) - now);
      }
    }

    /**
     * The loop of update_active_habits_tree: each of the user's rows that is
     * not 'deleted' is visited; one whose time is up is written 'failed'.
     * The counter numbers the visited rows.
     */
    method UpdateActiveHabitsTree(user: int, now: int) returns (counter: nat)
      requires Valid()
      modifies this
      ensures Valid()
      ensures rows == Swept(old(rows), user, now)
      ensures counter == VisibleCount(old(rows), user)
    {
      counter := 0;
      var i := 0;
      while i < |rows|
        invariant 0 <= i <= |rows| == |old(rows)|
        invariant forall j :: 0 <= j < i ==> rows[j] == SweptRow(old(rows)[j], user, now)
        invariant forall j :: i <= j < |rows| ==> rows[j] == old(rows)[j]
        invariant counter == VisibleCount(old(rows)[..i], user)
      {
        assert old(rows)[..i + 1][..i] == old(rows)[..i];
        var record := rows[i];
        if Visible(record, user) {
          if Remaining(record, now) <= 0 {
            rows := rows[i := record.(status := Failed)];
          }
          counter := counter + 1;
        }
        i := i + 1;
      }
      assert old(rows)[..i] == old(rows);
      assert forall j :: 0 <= j < |rows| ==> rows[j] == Swept(old(rows), user, now)[j];
    }

    /**
     * delete_active_habit: for each selected name, every row of the user for
     * a habit of that name becomes 'deleted', whatever its status.
     */
    method DeleteActiveHabit(user: int, selected: seq<string>, catalog: map<int, string>)
      requires Valid()
      modifies this
      ensures Valid() && |rows| == |old(rows)|
      ensures forall j :: 0 <= j < |rows| ==>
                rows[j] == old(rows)[j].(status :=
                  if DeletedBySelection(old(rows)[j], user, catalog, selected) then Deleted else old(rows)[j].status)
    {
      var i := 0;
      while i < |selected|
        invariant 0 <= i <= |selected|
        invariant |rows| == |old(rows)|
        invariant forall j :: 0 <= j < |rows| ==>
                    rows[j] == old(rows)[j].(status :=
                      if DeletedBySelection(old(rows)[j], user, catalog, selected[..i]) then Deleted else old(rows)[j].status)
      {
        var name := selected[i];
        assert selected[..i + 1] == selected[..i] + [name];
        var current := rows;
        rows := seq(|current|, j requires 0 <= j < |current| =>
                    if DeleteHits(current[j], user, catalog, name) then current[j].(status := Deleted) else current[j]);
        i := i + 1;
      }
      assert selected[..i] == selected;
    }

    /** reactivate_active_habit for the selected rows, one after the other. */
    method ReactivateActiveHabit(user: int, selected: seq<Selection>, catalog: map<int, string>, now: int)
      returns (reactivated: seq<bool>)
      requires Valid()
      modifies this
      ensures Valid()
      ensures (reactivated, rows) == ReactivateAll(old(rows), user, selected, catalog, now)
    {
      reactivated := [];
      var i := 0;
      while i < |selected|
        invariant 0 <= i <= |selected|
        invariant (reactivated, rows) == ReactivateAll(old(rows), user, selected[..i], catalog, now)
        invariant Valid()
      {
        assert selected[..i + 1][..i] == selected[..i];
        ReactivateAllSnoc(old(rows), user, selected[..i + 1], catalog, now);
        var ok := ReactivateSelected(user, selected[i], catalog, now);
        reactivated := reactivated + [ok];
        i := i + 1;
      }
      assert selected[..i] == selected;
    }

    /** The handler's work for one selected row. */
    method ReactivateSelected(user: int, sel: Selection, catalog: map<int, string>, now: int) returns (ok: bool)
      requires Valid()
      modifies this
      ensures Valid()
      ensures (ok, rows) == ReactivateOne(old(rows), user, sel, catalog, now)
    {
      if sel.remaining == TimeIsUp {
        // archive the user's 'failed' rows for this habit name, then insert the fresh row
        var current := rows;
        rows := seq(|current|, j requires 0 <= j < |current| =>
                    if ArchiveHits(current[j], user, catalog, sel.name) then current[j].(status := Deleted) else current[j]);
        rows := rows + [Reactivated(user, sel, now)];
        ok := true;
      } else {
        ok := false;
      }
    }
  }
}
