/**
 * The rules of the active-habit lifecycle on the main screen, stated on the
 * active_user_habits table as a sequence of rows: a row's id is its index
 * (the handlers modelled here only ever append rows and never remove one, so
 * ids are dense; deleting a habit from the catalogue, which removes its rows
 * by cascade, is not part of this model).
 * The GUI and the SQL are stripped away; `now` is a parameter.
 */
module Lifecycle {
  import opened Wrappers
  import opened Intervals
  import opened ActiveUserHabits

  /** The calendar day of a time (seconds since the epoch). */
  function Today(now: int): int
  {
    now / Day
  }

  // ---------------------------------------------------------------- activation

  datatype ActivationError = EndDateInPast | AlreadyActive

  /** The duplicate query: a row of the user for the habit whose status is not 'deleted'. */
  predicate HasLiveRecord(rows: seq<ActiveUserHabit>, user: int, habit: int)
  {
    exists i :: 0 <= i < |rows| && rows[i].userId == user && rows[i].habitId == habit && rows[i].status != Deleted
  }

  /**
   * The guards of the activation form and the record it inserts. The end
   * date is checked first, then the duplicate query; a 'failed' row also
   * blocks a new activation.
   */
  function Activation(rows: seq<ActiveUserHabit>, user: int, habit: int, interval: Interval,
                      goalStreak: Option<string>, endDate: Option<int>, now: int)
    : (r: Result<ActiveUserHabit, ActivationError>)
    ensures r == Failure(EndDateInPast) <==> endDate.Some? && endDate.value <= Today(now)
    ensures r == Failure(AlreadyActive) <==>
              (endDate.None? || endDate.value > Today(now)) && HasLiveRecord(rows, user, habit)
    ensures r.Success? ==>
              && r.value.userId == user && r.value.habitId == habit && r.value.interval == interval
              && r.value.streak == 0 && r.value.status == InProgress
              && r.value.startingDate == now && r.value.lastCheck == Some(now)
              && r.value.updateExpiry == Some(now + Period(interval))
              && r.value.goalStreak == goalStreak && r.value.endDate == endDate
              && Tracked(r.value)
  {
    if endDate.Some? && !(endDate.value > Today(now)) then
      Failure(EndDateInPast)
    else if HasLiveRecord(rows, user, habit) then
      Failure(AlreadyActive)
    else
      Success(NewActiveUserHabit(user, habit, interval, goalStreak, endDate, Some(now), Some(now + Period(interval)), now))
  }

  // ----------------------------------------------------------------- check-off

  datatype Decision = Accept | TooEarly(wait: int)

  /**
   * The accept/reject rule of a check-off: the first check-off is always
   * accepted; after that, one is accepted once no more than one period is
   * left before the stored deadline. A rejection reports the wait until then.
   */
  function Decide(streak: nat, expiry: int, period: int, now: int): (d: Decision)
    ensures d == Accept <==> streak == 0 || expiry - now <= period
    ensures d.TooEarly? ==> d.wait == (expiry - period) - now && d.wait > 0
  {
    if streak == 0 then Accept
    else if expiry - now > period then TooEarly((expiry - period) - now)
    else Accept
  }

  /** The update an accepted check-off writes. */
  function Checked(r: ActiveUserHabit, period: int, now: int): (c: ActiveUserHabit)
    requires r.updateExpiry.Some?
    ensures c.streak == r.streak + 1 && c.lastCheck == Some(now)
    ensures c.updateExpiry == Some(r.updateExpiry.value + period)
    ensures c.(streak := r.streak, lastCheck := r.lastCheck, updateExpiry := r.updateExpiry) == r
  {
    r.(streak := r.streak + 1, lastCheck := Some(now), updateExpiry := Some(r.updateExpiry.value + period))
  }

  /** One record checked off at `now`: accepted or left as it was. */
  function CheckRecord(r: ActiveUserHabit, period: int, now: int): ActiveUserHabit
    requires r.updateExpiry.Some?
  {
    if Decide(r.streak, r.updateExpiry.value, period, now) == Accept then Checked(r, period, now) else r
  }

  predicate IsInProgressOf(r: ActiveUserHabit, user: int, habit: int)
  {
    r.userId == user && r.habitId == habit && r.status == InProgress
  }

  /** The lookup of check-off: the first 'in progress' row of the user for the habit. */
  function FirstInProgress(rows: seq<ActiveUserHabit>, user: int, habit: int, from: nat): (r: Option<nat>)
    requires from <= |rows|
    decreases |rows| - from
    ensures r.Some? ==> from <= r.value < |rows| && IsInProgressOf(rows[r.value], user, habit)
    ensures r.Some? ==> forall j :: from <= j < r.value ==> !IsInProgressOf(rows[j], user, habit)
    ensures r.None? ==> forall j :: from <= j < |rows| ==> !IsInProgressOf(rows[j], user, habit)
  {
    if from == |rows| then None
    else if IsInProgressOf(rows[from], user, habit) then Some(from)
    else FirstInProgress(rows, user, habit, from + 1)
  }

  datatype CheckOutcome = Accepted(id: nat) | NoActiveRecord | UnknownInterval | AlreadyChecked(wait: int)

  /**
   * Check-off of the selected row: its habit, and its interval text as shown.
   * Only 'in progress' rows are found; the deadline itself is not compared
   * with `now`, so a late check-off made before the sweep is accepted.
   */
  function CheckHabit(rows: seq<ActiveUserHabit>, user: int, habit: int, intervalText: string, now: int)
    : (r: (CheckOutcome, seq<ActiveUserHabit>))
    requires AllTracked(rows)
    ensures r.0 == NoActiveRecord <==> forall j :: 0 <= j < |rows| ==> !IsInProgressOf(rows[j], user, habit)
    ensures r.0 == UnknownInterval <==>
              (exists j :: 0 <= j < |rows| && IsInProgressOf(rows[j], user, habit)) &&
              ParseStrict(intervalText).None?
    ensures !r.0.Accepted? ==> r.1 == rows
    ensures r.0.Accepted? || r.0.AlreadyChecked? ==>
              var id := FirstInProgress(rows, user, habit, 0).value;
              var period := Period(ParseStrict(intervalText).value);
              && ParseStrict(intervalText).Some?
              && (r.0.Accepted? <==> rows[id].streak == 0 || Remaining(rows[id], now) <= period)
              && (r.0.AlreadyChecked? ==> r.0.wait == Remaining(rows[id], now) - period > 0)
    ensures r.0.Accepted? ==>
              var id := r.0.id;
              var period := Period(ParseStrict(intervalText).value);
              && id < |rows| && IsInProgressOf(rows[id], user, habit)
              && (forall j :: 0 <= j < id ==> !IsInProgressOf(rows[j], user, habit))
              && |r.1| == |rows|
              && r.1[id] == Checked(rows[id], period, now)
              && r.1[id].streak == rows[id].streak + 1
              && r.1[id].lastCheck == Some(now)
              && r.1[id].updateExpiry == Some(rows[id].updateExpiry.value + period)
              && r.1[id].status == InProgress
              && (forall j :: 0 <= j < |rows| && j != id ==> r.1[j] == rows[j])
    ensures AllTracked(r.1)
  {
    match FirstInProgress(rows, user, habit, 0)
    case None => (NoActiveRecord, rows)
    case Some(id) =>
      match ParseStrict(intervalText)
      case None => (UnknownInterval, rows)
      case Some(interval) =>
        var period := Period(interval);
        match Decide(rows[id].streak, rows[id].updateExpiry.value, period, now)
        case Accept => (Accepted(id), rows[id := Checked(rows[id], period, now)])
        case TooEarly(wait) => (AlreadyChecked(wait), rows)
  }

  // -------------------------------------------------------------------- sweep

  /** The rows the sweep visits: the user's rows whose status is not 'deleted'. */
  predicate Visible(r: ActiveUserHabit, user: int)
  {
    r.userId == user && r.status != Deleted
  }

  predicate Expired(r: ActiveUserHabit, user: int, now: int)
    requires r.updateExpiry.Some?
  {
    Visible(r, user) && Remaining(r, now) <= 0
  }

  function SweptRow(r: ActiveUserHabit, user: int, now: int): ActiveUserHabit
    requires r.updateExpiry.Some?
  {
    if Expired(r, user, now) then r.(status := Failed) else r
  }

  /**
   * One pass of the failure sweep for a user: every visited row whose time
   * is up gets status 'failed' (again, if it already was); nothing else changes.
   */
  function Swept(rows: seq<ActiveUserHabit>, user: int, now: int): (s: seq<ActiveUserHabit>)
    requires AllTracked(rows)
    ensures |s| == |rows| && AllTracked(s)
    ensures forall i :: 0 <= i < |rows| && Expired(rows[i], user, now) ==> s[i] == rows[i].(status := Failed)
    ensures forall i :: 0 <= i < |rows| && !Expired(rows[i], user, now) ==> s[i] == rows[i]
  {
    seq(|rows|, i requires 0 <= i < |rows| => SweptRow(rows[i], user, now))
  }

  /** Running the sweep twice at the same time is running it once. */
  lemma SweepIdempotent(rows: seq<ActiveUserHabit>, user: int, now: int)
    requires AllTracked(rows)
    ensures Swept(Swept(rows, user, now), user, now) == Swept(rows, user, now)
  {
    var once := Swept(rows, user, now);
    var twice := Swept(once, user, now);
    forall i | 0 <= i < |rows|
      ensures twice[i] == once[i]
    {
      if Expired(rows[i], user, now) {
        assert Expired(once[i], user, now);
      }
    }
  }

  /** The sweep never changes a streak, a deadline or any field but the status. */
  lemma SweepChangesOnlyStatus(rows: seq<ActiveUserHabit>, user: int, now: int, i: int)
    requires AllTracked(rows) && 0 <= i < |rows|
    ensures Swept(rows, user, now)[i] == rows[i].(status := Swept(rows, user, now)[i].status)
    ensures Swept(rows, user, now)[i].streak == rows[i].streak
  {
  }

  /** After a sweep at `now`, every row check-off can still find has time left. */
  lemma SweptInProgressHasTimeLeft(rows: seq<ActiveUserHabit>, user: int, habit: int, now: int, j: int)
    requires AllTracked(rows) && 0 <= j < |rows|
    requires IsInProgressOf(Swept(rows, user, now)[j], user, habit)
    ensures Remaining(rows[j], now) > 0
  {
  }

  // ------------------------------------------------------------------- delete

  /** The join with the habits table: the habit has the given name. */
  predicate Named(catalog: map<int, string>, habit: int, name: string)
  {
    habit in catalog && catalog[habit] == name
  }

  /** The delete statement for one selected name: every row of the user for a habit of that name, whatever its status. */
  predicate DeleteHits(r: ActiveUserHabit, user: int, catalog: map<int, string>, name: string)
  {
    r.userId == user && Named(catalog, r.habitId, name)
  }

  // -------------------------------------------------------------- reactivation

  /** What the "Remaining Time" column of a row can show: a countdown, or 'Time is up!'. */
  datatype RemainingColumn = Countdown(seconds: int) | TimeIsUp

  /** A selected row of the active-habits table, with the habit id the name resolves to. */
  datatype Selection = Selection(name: string, habitId: int, intervalText: string, remaining: RemainingColumn)

  /** The archive statement: the user's 'failed' rows for a habit of that name become 'deleted'. */
  predicate ArchiveHits(r: ActiveUserHabit, user: int, catalog: map<int, string>, name: string)
  {
    r.userId == user && Named(catalog, r.habitId, name) && r.status == Failed
  }

  /** The fresh record reactivation inserts. */
  function Reactivated(user: int, sel: Selection, now: int): ActiveUserHabit
  {
    var interval := ParseLenient(sel.intervalText);
    NewActiveUserHabit(user, sel.habitId, interval, None, None, None,
                       Some(now + ReactivationHours(interval) * 3600), now)
  }

  /**
   * Reactivation of one selected row. Only a row showing 'Time is up!' is
   * reactivated: the old 'failed' rows are archived as 'deleted' with their
   * streaks kept, and one fresh row is appended. Any other row is an error.
   */
  function ReactivateOne(rows: seq<ActiveUserHabit>, user: int, sel: Selection,
                         catalog: map<int, string>, now: int): (r: (bool, seq<ActiveUserHabit>))
    ensures r.0 <==> sel.remaining == TimeIsUp
    ensures !r.0 ==> r.1 == rows
    ensures r.0 ==>
              && |r.1| == |rows| + 1
              && (forall i :: 0 <= i < |rows| ==>
                    r.1[i] == rows[i].(status := if ArchiveHits(rows[i], user, catalog, sel.name) then Deleted else rows[i].status))
              && r.1[|rows|].userId == user && r.1[|rows|].habitId == sel.habitId
              && r.1[|rows|].interval == ParseLenient(sel.intervalText)
              && r.1[|rows|].streak == 0 && r.1[|rows|].status == InProgress
              && r.1[|rows|].startingDate == now
              && r.1[|rows|].updateExpiry == Some(now + Period(ParseLenient(sel.intervalText)))
              && r.1[|rows|].lastCheck.None? && r.1[|rows|].goalStreak.None? && r.1[|rows|].endDate.None?
              && r.1[|rows|] == Reactivated(user, sel, now)
    ensures AllTracked(rows) ==> AllTracked(r.1)
  {
    if sel.remaining == TimeIsUp then
      ReactivationPeriodIsPeriod(ParseLenient(sel.intervalText));
      var archived := seq(|rows|, i requires 0 <= i < |rows| =>
                          if ArchiveHits(rows[i], user, catalog, sel.name) then rows[i].(status := Deleted) else rows[i]);
      (true, archived + [Reactivated(user, sel, now)])
    else
      (false, rows)
  }

  /** The selected rows that show 'Time is up!', in selection order. */
  function AcceptedSelections(sels: seq<Selection>): (acc: seq<Selection>)
    ensures |acc| <= |sels|
    ensures forall k :: 0 <= k < |acc| ==> acc[k] in sels && acc[k].remaining == TimeIsUp
    ensures forall k :: 0 <= k < |sels| && sels[k].remaining == TimeIsUp ==> sels[k] in acc
  {
    if sels == [] then []
    else
      var last := sels[|sels| - 1];
      AcceptedSelections(sels[..|sels| - 1]) + (if last.remaining == TimeIsUp then [last] else [])
  }

  /** The positions of the selected rows that show 'Time is up!', ascending. */
  ghost function AcceptedPositions(sels: seq<Selection>): seq<int>
  {
    if sels == [] then []
    else AcceptedPositions(sels[..|sels| - 1]) + (if sels[|sels| - 1].remaining == TimeIsUp then [|sels| - 1] else [])
  }

  /**
   * The accepted selections are the 'Time is up!' selections in selection
   * order, each once: they are read off at strictly increasing positions that
   * are exactly the positions showing 'Time is up!'.
   */
  lemma {:induction false} AcceptedSelectionsInOrder(sels: seq<Selection>)
    ensures |AcceptedPositions(sels)| == |AcceptedSelections(sels)|
    ensures forall k :: 0 <= k < |AcceptedPositions(sels)| ==>
              0 <= AcceptedPositions(sels)[k] < |sels| && AcceptedSelections(sels)[k] == sels[AcceptedPositions(sels)[k]]
    ensures forall k, l :: 0 <= k < l < |AcceptedPositions(sels)| ==> AcceptedPositions(sels)[k] < AcceptedPositions(sels)[l]
    ensures forall i :: 0 <= i < |sels| ==> (i in AcceptedPositions(sels) <==> sels[i].remaining == TimeIsUp)
  {
    if sels != [] {
      var init := sels[..|sels| - 1];
      AcceptedSelectionsInOrder(init);
      var pi := AcceptedPositions(init);
      forall k | 0 <= k < |pi|
        ensures init[pi[k]] == sels[pi[k]]
      {
      }
    }
  }

  /** Some accepted selection archives the row. */
  predicate ArchivedBy(r: ActiveUserHabit, user: int, catalog: map<int, string>, sels: seq<Selection>)
  {
    exists k :: 0 <= k < |sels| && sels[k].remaining == TimeIsUp && ArchiveHits(r, user, catalog, sels[k].name)
  }

  /** The table after reactivating a selection: every old row archived if some accepted selection hits it, then one fresh row per accepted selection. */
  predicate ReactivatedTable(rows: seq<ActiveUserHabit>, user: int, sels: seq<Selection>,
                             catalog: map<int, string>, now: int, table: seq<ActiveUserHabit>)
  {
    var acc := AcceptedSelections(sels);
    && |table| == |rows| + |acc|
    && (forall i :: 0 <= i < |rows| ==>
          table[i] == rows[i].(status := if ArchivedBy(rows[i], user, catalog, sels) then Deleted else rows[i].status))
    && (forall j :: 0 <= j < |acc| ==> table[|rows| + j] == Reactivated(user, acc[j], now))
  }

  /** Reactivating one more selection extends the table in the same way. */
  lemma ReactivateStep(rows: seq<ActiveUserHabit>, user: int, sels: seq<Selection>,
                       catalog: map<int, string>, now: int, before: seq<ActiveUserHabit>)
    requires sels != []
    requires ReactivatedTable(rows, user, sels[..|sels| - 1], catalog, now, before)
    ensures ReactivatedTable(rows, user, sels, catalog, now, ReactivateOne(before, user, sels[|sels| - 1], catalog, now).1)
  {
    var init := sels[..|sels| - 1];
    var sel := sels[|sels| - 1];
    var after := ReactivateOne(before, user, sel, catalog, now).1;
    var accInit := AcceptedSelections(init);
    if sel.remaining == TimeIsUp {
      forall i | 0 <= i < |rows|
        ensures after[i] == rows[i].(status := if ArchivedBy(rows[i], user, catalog, sels) then Deleted else rows[i].status)
      {
        ArchivedBySnoc(rows[i], user, catalog, sels);
      }
      forall j | 0 <= j < |accInit|
        ensures after[|rows| + j] == Reactivated(user, accInit[j], now)
      {
        assert before[|rows| + j] == Reactivated(user, accInit[j], now);
        assert !ArchiveHits(before[|rows| + j], user, catalog, sel.name);
      }
      assert AcceptedSelections(sels) == accInit + [sel];
    } else {
      forall i | 0 <= i < |rows|
        ensures ArchivedBy(rows[i], user, catalog, sels) == ArchivedBy(rows[i], user, catalog, init)
      {
        ArchivedBySnoc(rows[i], user, catalog, sels);
      }
    }
  }

  /** A row is archived by a selection iff it is archived by all but the last, or by the last. */
  lemma ArchivedBySnoc(r: ActiveUserHabit, user: int, catalog: map<int, string>, sels: seq<Selection>)
    requires sels != []
    ensures ArchivedBy(r, user, catalog, sels) <==>
              ArchivedBy(r, user, catalog, sels[..|sels| - 1]) ||
              (sels[|sels| - 1].remaining == TimeIsUp && ArchiveHits(r, user, catalog, sels[|sels| - 1].name))
  {
    var init := sels[..|sels| - 1];
    if ArchivedBy(r, user, catalog, init) {
      var k :| 0 <= k < |init| && init[k].remaining == TimeIsUp && ArchiveHits(r, user, catalog, init[k].name);
      assert sels[k] == init[k];
    }
    if ArchivedBy(r, user, catalog, sels) {
      var k :| 0 <= k < |sels| && sels[k].remaining == TimeIsUp && ArchiveHits(r, user, catalog, sels[k].name);
      if k < |init| {
        assert init[k] == sels[k];
      }
    }
  }

  /**
   * Reactivation of the selected rows, one after the other: the outcome of
   * each selected row is whether it shows 'Time is up!', the old rows hit by
   * an accepted selection are archived, and one fresh row per accepted
   * selection is appended in selection order.
   */
  function ReactivateAll(rows: seq<ActiveUserHabit>, user: int, sels: seq<Selection>,
                         catalog: map<int, string>, now: int): (r: (seq<bool>, seq<ActiveUserHabit>))
    ensures |r.0| == |sels|
    ensures forall k :: 0 <= k < |sels| ==> (r.0[k] <==> sels[k].remaining == TimeIsUp)
    ensures ReactivatedTable(rows, user, sels, catalog, now, r.1)
    ensures AllTracked(rows) ==> AllTracked(r.1)
  {
    if sels == [] then ([], rows)
    else
      var before := ReactivateAll(rows, user, sels[..|sels| - 1], catalog, now);
      var last := ReactivateOne(before.1, user, sels[|sels| - 1], catalog, now);
      ReactivateStep(rows, user, sels, catalog, now, before.1);
      (before.0 + [last.0], last.1)
  }

  /** Reactivating one more selected row is one more ReactivateOne on the table so far. */
  lemma ReactivateAllSnoc(rows: seq<ActiveUserHabit>, user: int, sels: seq<Selection>,
                          catalog: map<int, string>, now: int)
    requires sels != []
    ensures var before := ReactivateAll(rows, user, sels[..|sels| - 1], catalog, now);
            var last := ReactivateOne(before.1, user, sels[|sels| - 1], catalog, now);
            ReactivateAll(rows, user, sels, catalog, now) == (before.0 + [last.0], last.1)
  {
  }
}
