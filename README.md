# Habit tracker core, modelled and verified in Dafny

This project models the core of a desktop habit tracker. Users activate habits
for tracking with a daily, weekly or monthly interval. The main screen keeps
one `active_user_habits` row per tracked habit instance:

- a check-off adds one to its streak and moves its deadline by one period;
- a periodic sweep marks rows whose time is up as `failed`;
- a failed habit can be reactivated, which archives the old row and starts a fresh one;
- a habit can be deleted;
- a global ranking sums streak points per user.

The project also models:

- the registration form of the login screen;
- the `User` class and its `update_profile`;
- the profile editor's `save_profile_changes`;
- the pure string and dictionary builders of the database wrapper: `insert_data`, `update_data` and `get_user_credentials`.

Time is integer seconds and the current time `now` is a parameter. The three
periods are 1, 7 and 30 days. Database tables are values:

- `active_user_habits` is a sequence of rows whose index is the row id;
- the habits and user tables enter as maps from id to name;
- Python dicts are modelled by `Dicts.Dict`: a key list in insertion order plus a map.

Modules, one per file:

- `wrappers.dfy`: `Option` and `Result`.
- `intervals.dfy`: intervals, periods and the two readings of the interval text.
- `active_user_habits.dfy`: the record and its constructor.
- `lifecycle.dfy`: the rules of activation, check-off, sweep, delete and reactivation.
- `lifecycle_properties.dfy`: properties that relate several operations.
- `habit_table.dfy`: the `active_user_habits` table as a class. It has one method per main-screen handler, each proved against the rule in `Lifecycle`.
- `highscores.dfy`: the points ranking.
- `dicts.dfy`: Python dict semantics (assignment, displays, items).
- `database.dfy`: the statements `insert_data` and `update_data` build, and the dict `get_user_credentials` returns.
- `validation.dfy`: the digit and '@' checks.
- `users.dfy`: the `User` class.
- `profile_changes.dfy`: `save_profile_changes`.
- `registration.dfy`: `save_registration`.

Behaviour of the code that the model keeps as written:

- The sweep visits every row of the user that is not `deleted`, so it marks `failed` rows as `failed` again on every pass.
- Reactivation leaves the fresh row's `last_check` empty.
- Reactivation only acts on a row showing 'Time is up!'. The handler's branch for a `deleted` row cannot be reached, because the column it reads shows only a countdown or that text.
- A check-off finds only `in progress` rows and never compares the deadline with `now`, so a late check-off made before the sweep has marked the row `failed` is accepted.
- No version check guards an update, so concurrent edits are not detected.
- `update_data` ends its statement with a space after the id. The unit test's expected string has no trailing space.

## Model

| member | source | states |
|---|---|---|
| Intervals.Period | main_screen.py:1009-1036 | the period of an interval is a positive whole number of days: 1, 7 or 30 days in seconds |
| Intervals.ParseStrict | main_screen.py:588-676 | check-off knows exactly the texts daily, weekly and monthly, and each parses back to the interval of that name; any other text is an error |
| Intervals.ParseLenient | main_screen.py:506-513 | reactivation agrees with check-off on the three names and reads every other text as monthly |
| Intervals.ReactivationPeriodIsPeriod | main_screen.py:530-535 | the 24/168/720-hour periods of reactivation equal the 1/7/30-day periods of activation |
| Intervals.NameRoundTrip | main_screen.py:506-513 | the shown name of every interval parses back to that interval under both readings |
| ActiveUserHabits.NewActiveUserHabit | active_user_habits.py:10-20 | a new record stores user, habit, interval, goal, end date, last check and deadline as given; streak 0, status in progress, starting date = creation time |
| Lifecycle.Activation | main_screen.py:999-1047 | an end date not after today fails first. Otherwise, an existing row of the user for the habit that is not deleted (a failed one included) fails. Otherwise, one record with streak 0, in progress, last check now and deadline now + period |
| LifecycleProperties.FailedRowBlocksActivation | main_screen.py:1004 | a failed row of the user for the habit makes a new activation fail as already active |
| LifecycleProperties.DeletedRowsDoNotBlock | main_screen.py:1004 | when every row of the user for the habit is deleted, activation succeeds (given a valid end date) |
| Lifecycle.Decide | main_screen.py:599-617 | a check-off is accepted iff the streak is 0 or at most one period is left before the deadline; a rejection reports the positive wait (deadline - period) - now |
| Lifecycle.Checked | main_screen.py:600-616 | an accepted check-off adds one to the streak, sets last check to now, moves the deadline by exactly one period and changes nothing else |
| Lifecycle.FirstInProgress | main_screen.py:579 | the row found is the first in-progress row of the user for the habit; None iff there is none |
| Lifecycle.CheckHabit | main_screen.py:574-676 | no in-progress row or an unknown interval text gives an error and no change. Otherwise the first in-progress row is accepted or rejected by the window rule. An accepted row becomes Checked of it (streak + 1, last check now, deadline + one period), and no other row changes |
| Lifecycle.Swept | main_screen.py:255-339 | every visited row whose remaining time is <= 0 becomes failed; every other row is untouched |
| Lifecycle.SweepIdempotent | main_screen.py:278-288 | sweeping twice at the same time equals sweeping once |
| Lifecycle.SweepChangesOnlyStatus | main_screen.py:286-287 | the sweep changes no field but the status; in particular the streak is kept |
| Lifecycle.SweptInProgressHasTimeLeft | main_screen.py:278-288 | after a sweep, every row still in progress has time left |
| Lifecycle.ReactivateOne | main_screen.py:515-559 | succeeds iff the row shows 'Time is up!'. The user's failed rows for that habit name become deleted with their streaks kept, and one fresh row, the Reactivated record, is appended: same interval, streak 0, in progress, deadline now + period, no last check, goal or end date. Otherwise nothing changes |
| Lifecycle.ReactivateAll | main_screen.py:500-561 | each selected row is reactivated iff it shows 'Time is up!'. Afterwards every old row hit by an accepted selection (a failed row of the user for that habit name) is deleted and the others are unchanged, followed by one fresh record per accepted selection, in selection order. Every row stays tracked |
| Lifecycle.AcceptedSelections | main_screen.py:515 | every returned selection is a selected row showing 'Time is up!', every such row is returned, and there are no more of them than selections |
| Lifecycle.AcceptedSelectionsInOrder | main_screen.py:500-541 | the accepted selections are read off at strictly increasing positions that are exactly the 'Time is up!' positions: selection order, each selected row once |
| LifecycleProperties.FirstCheckAlwaysAccepted | main_screen.py:599-606 | the first check-off after activation is accepted at any time |
| LifecycleProperties.NoDoubleCount | main_screen.py:607-609 | after an accepted check-off, another before the old deadline is rejected with the wait up to that deadline |
| LifecycleProperties.LateCheckOffAccepted | main_screen.py:598-617 | a check-off after the deadline has passed, made before the sweep, is accepted |
| LifecycleProperties.SeriesMovesDeadlineByAcceptedChecks | main_screen.py:594-616 | over any series of attempts, the streak never decreases and rises by at most one per attempt. The deadline moves by one period per accepted attempt, and only the streak, last check and deadline change |
| LifecycleProperties.AcceptedSeriesCounts | main_screen.py:600-616 | n accepted check-offs add n to the streak and n periods to the deadline, and last check is the last attempt's time |
| LifecycleProperties.DailyScenario | main_screen.py:563-617 | daily example: activate at t0, accepted at t0+1h (deadline t0+48h), rejected at t0+2h, failed with streak 1 at t0+50h, then reactivated (old row deleted with streak 1, new deadline t0+74h) |
| HabitTable.ActiveHabitTable.Activate | main_screen.py:999-1047 | the table gains exactly the record Activation gives, with the new row's id, or is unchanged with the error |
| HabitTable.ActiveHabitTable.CheckHabit | main_screen.py:574-676 | the outcome and the new table are those of Lifecycle.CheckHabit, and all rows stay tracked |
| HabitTable.ActiveHabitTable.UpdateActiveHabitsTree | main_screen.py:252-339 | the loop leaves the table equal to Swept, and its counter equals the number of visited rows |
| HabitTable.ActiveHabitTable.DeleteActiveHabit | main_screen.py:354-372 | every row of the user whose habit carries a selected name becomes deleted, whatever its status; other fields and rows are untouched |
| HabitTable.ActiveHabitTable.ReactivateActiveHabit | main_screen.py:496-561 | the outcomes and the new table are those of ReactivateAll |
| HabitTable.ActiveHabitTable.ReactivateSelected | main_screen.py:515-559 | the handler's work for one selected row: archiving and the insert give exactly ReactivateOne's outcome and table |
| Highscores.Weight | main_screen.py:1669-1674 | points per streak unit equal the interval id: 1 daily, 2 weekly, 3 monthly |
| Highscores.IntervalIds | database.py:452-458 | one interval's query returns rows of that interval that survive the habit and user joins |
| Highscores.IntervalIdsComplete | database.py:452-458 | the query misses no row of its interval that survives the joins |
| Highscores.IntervalIdsAscending | database.py:452-458 | the query returns each row once, in ascending id order |
| Highscores.GlobalActiveHabits | main_screen.py:1660 | the concatenated daily, weekly and monthly queries return only rows that survive the joins |
| Highscores.GlobalActiveHabitsComplete | main_screen.py:1660 | every row that survives the joins is among the concatenated results |
| Highscores.UserTotalAppend | main_screen.py:1681 | grouping by username and summing distributes over a concatenation of entry lists |
| Highscores.Score | main_screen.py:1669-1674 | a row scores its streak times its interval's weight |
| Highscores.GlobalTotal | main_screen.py:1660-1681 | the three concatenated queries sum, per username, to the weighted streaks of all that user's rows |
| Highscores.ActiveHabitsPoints | main_screen.py:1660-1681 | the points loop yields one entry per returned row, and each username's grouped sum is the weighted sum of all that user's streaks |
| Highscores.PointsIgnoreStatus | database.py:452-458 | changing a row's status does not change any user's points |
| Dicts.Set | main_screen.py:1327-1342 | assigning a key sets its value; an existing key keeps its position and a new key goes last |
| Dicts.SetLookup | main_screen.py:1327-1342 | after an assignment, the key finds the new value and every other key its old one, and the dict stays well formed |
| Dicts.FromPairsLookup | main.py:248 | in a dict display, every key finds the value of its last pair |
| Dicts.FromPairsRepeat | main.py:248 | repeating a pair that is already the last word on its key leaves the display unchanged |
| Dicts.FromPairsDistinct | main.py:248 | a display without repeated keys has its keys and items in the order written |
| Dicts.Items | database.py:290-292 | items follow key order, one per key |
| Database.ColumnNameInjective | database.py:344 | different user_table columns have different names |
| Database.Join | database.py:290 | the joined string is as long as the parts with a separator after each, less one separator |
| Database.JoinPart | database.py:290 | each part appears in the joined string at its offset: after the parts before it, each followed by a separator |
| Database.JoinSeparator | database.py:290 | every part but the first is preceded by the separator |
| Database.JoinFront | database.py:290 | joining from the front agrees: the first part, a separator, then the rest joined |
| Database.JoinChars | database.py:290 | every character of the joined string comes from a part or from the separator |
| Database.PlaceholderCount | database.py:291 | the placeholder list has exactly one '%s' per column: n '%' signs in 4n - 2 characters |
| Database.InsertValues | database.py:292 | the value tuple keeps the order and number of the values and turns each '' into NULL, leaving all others as they are |
| Database.InsertValuesKeepsFilled | database.py:292 | with no empty-string value, the value tuple is the values unchanged |
| Database.InsertData | database.py:288-294 | the statement is INSERT INTO table (the keys joined by ', ') VALUES (one %s per key), and the value tuple is the dict's values in key order. With no '%' in the table or key names, the statement holds exactly as many '%' signs as there are values |
| Database.InsertStatementPlaceholders | database.py:290-293 | with no '%' in the table or column names, the statement's '%' signs are exactly its placeholders, one per column |
| Database.InsertDataExample | test_database.py:27-36 | {'ID': 1, 'username': 'test_user'} gives INSERT INTO user_table (ID, username) VALUES (%s, %s) with (1, 'test_user') |
| Database.NatToString | database.py:314 | the id is written as a non-empty string of decimal digits |
| Database.NatToStringRoundTrip | database.py:314 | the digits written for an id read back as the same number |
| Database.Assignments | database.py:311 | one "col = 'value'" per pair, in dict order |
| Database.UpdateData | database.py:305-314 | the statement is UPDATE table SET, then the "col = 'value'" assignments joined by ', ', then WHERE object_ID = id with a trailing space |
| Database.UpdateDataExample | test_database.py:45-57 | the update test's statement, with the trailing space the code writes |
| Database.ColumnIndex | database.py:344 | every column has its position in the user_table column list |
| Database.UserColumnsDistinct | database.py:344 | the column list names each column once, and ColumnIndex inverts it |
| Database.ColumnMap | database.py:356 | the first n columns map to the first n values, and no other column is mapped |
| Database.RowDict | database.py:356 | zip of the column names with a row: the keys are the first min(9, len) columns in order, each mapped to the value at its position |
| Database.UserCredentials | database.py:339-363 | no row (or an empty one) gives {}; otherwise the columns in order, each mapped to the row's value at that position; always well formed |
| Database.FullRowItems | test_database.py:85-109 | a full nine-value row gives the nine (column, value) items in column order |
| Users.NewProfile | user.py:9-17 | a new user stores the six fields as given; created time = last update = now |
| Users.ProfileAfterUpdate | user.py:23-36 | as written: names, username and password change only on a truthy argument. A truthy new email or a truthy new phone number assigns the new email. The phone number never changes, created time is kept and last update is now |
| Users.IntendedProfileAfterUpdate | user.py:23-36 | corrected: the email changes only on a truthy new email and the phone number on a truthy new number; created time kept, last update now |
| Users.PhoneUpdateOverwritesEmail | user.py:34-35 | updating only the phone number erases the email and keeps the old number |
| Users.IntendedUpdateSetsPhone | user.py:34-35 | the corrected update sets the number and keeps the email; without a new number it agrees with the code as written |
| Users.User.constructor | user.py:9-17 | the object holds NewProfile of its arguments |
| Users.User.UpdateProfile | user.py:23-36 | the object afterwards holds ProfileAfterUpdate of its old state |
| ProfileChanges.SetIfGiven | main_screen.py:1327-1338 | `if entry: d[col] = entry`: a non-empty entry sets the column and an empty one keeps it; other columns and the key order are untouched |
| ProfileChanges.MergeFieldsLookup | main_screen.py:1327-1338 | after the field assignments, a column holds the last non-empty entry typed for it, or keeps its value |
| ProfileChanges.MergeFieldsKeys | main_screen.py:1327-1338 | merging into a dict that has every field's column keeps its key order |
| ProfileChanges.TypedEntry | main_screen.py:1303-1308 | the entry reaching each column is the entry field of that column |
| ProfileChanges.MergedColumns | main_screen.py:1327-1342 | after the merge, last_update is now, a column with a non-empty entry holds it, and every other column keeps its stored value |
| ProfileChanges.MergedWellFormed | main_screen.py:1327-1342 | the merged dict is well formed |
| ProfileChanges.Rendered | database.py:311 | each credential is rendered under its column name, in key order |
| ProfileChanges.SaveProfileChanges | main_screen.py:1303-1345 | a non-empty non-digit phone number is the first error and a non-empty email without '@' the second (iff). Otherwise the merged credentials and the UPDATE user_table ... WHERE user_ID = id statement over them |
| ProfileChanges.ProfileDict | database.py:356 | the credentials dict of a stored profile has the nine columns in order |
| ProfileChanges.ProfileDictLookup | database.py:356 | each column of a stored profile's dict holds that profile's field |
| ProfileChanges.MergedProfileColumn | main_screen.py:1327-1342 | column by column, merging entries into a stored profile agrees with the corrected update_profile |
| ProfileChanges.SavedChangesFollowIntendedUpdate | main_screen.py:1327-1342 | merging entries into a stored profile's dict gives exactly the dict of the corrected update_profile result |
| Registration.SaveRegistration | main.py:224-252 | in order: an empty field fails, then a phone number that is not all digits, then an email without '@' (iff). Otherwise the INSERT for the user_table row built from the form |
| Registration.RepeatedUsernameIsHarmless | main.py:248 | the display that gives 'username' twice equals the display without the repetition |
| Registration.DistinctPairsKeys | main.py:248 | without the repetition, the display lists the eight distinct column names of the insert in order |
| Registration.RegistrationDataShape | main.py:248 | the data dict is well formed, with the keys username, first_name, last_name, password, email, phone_number, created_time and last_update in that order, and their values |
| Registration.FilledValues | main.py:248-252 | with every field filled, the inserted values are the six entries as typed and the creation time twice; none is NULL |
| Registration.RegisteredRow | main.py:247-252 | a successful registration inserts the six entries and equal created_time and last_update values |

## Left out

- The tkinter GUI: widgets, tree views, message boxes, popups and the one-second `after` polling. Each handler is one call over the table, and messages are error values.
- SQL execution, connections, commits and `initialize_database`. The handlers' queries become operations on the modelled tables.
- The MySQL IntegrityError raised for a duplicate username at registration. It comes from the database schema, which is not part of this model.
- Countdown formatting and the unused `timedelta(days=2)` of the sweep. Both are display only.
- The two further copies of the sweep in the table builders. They apply the same rule and are modelled once, as `Lifecycle.Swept`.
- pandas and matplotlib analyses and the sorting of the highscore table. These are library calls and floating point.
- Environment-variable session state. User ids are parameters.
- habit.py and category.py. They are value holders, not part of this model.
- Highscores.GlobalActiveHabits: rows come in table order, not ORDER BY streak DESC. The per-user totals do not depend on the order.
- Highscores.IntervalIds: returns its rows in table order, not ORDER BY streak DESC (database.py:458). Its only use is the per-user sum, which does not depend on the order.
- HabitTable.ActiveHabitTable.CheckHabit: one selected row per call. When a selected row has no 'in progress' record, the handler raises a TypeError (`len` of the `None` that `fetchone` returns, database.py:502) and abandons the rest of its selection. The model returns NoActiveRecord with the table unchanged; a caller that stops at the first such outcome reproduces the handler's loop.
- Deleting a habit from the catalogue (main_screen.py:789-813, database.py:539) removes its `active_user_habits` rows by cascade (database.py:170-172). That handler is not part of this model, so the modelled table only ever grows.
- Validation.IsNumeric: only the ASCII digits count. Python's `isnumeric` also accepts other Unicode numeric characters.
- ProfileChanges.Render: timestamps are rendered as integer seconds, not as Python's date-time text. SQL quoting of values is not modelled.
- Lifecycle.Activation: an interval id other than 1, 2 or 3 cannot be represented, so the handler's silent no-op for it is not modelled.
- Lifecycle.ReactivateOne: the 'in progress' and 'deleted' branches of the handler cannot be reached. The column it reads only shows a countdown or 'Time is up!', which the model's type expresses.

## Findings

| source | as written | input that shows it | evidently intended | confidence | as-written member | corrected member |
|---|---|---|---|---|---|---|
| user.py:34-35 | a truthy `new_phone_number` assigns `self.email = new_email`; the phone number is never updated | `update_profile(new_phone_number="0123")` on a user with an email: the email becomes None and the number stays | `self.phone_number = new_phone_number`, as save_profile_changes does for the stored row | not executed | Users.ProfileAfterUpdate, Users.PhoneUpdateOverwritesEmail | Users.IntendedProfileAfterUpdate, Users.IntendedUpdateSetsPhone, ProfileChanges.SavedChangesFollowIntendedUpdate |
