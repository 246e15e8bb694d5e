# Habit check-ins and streaks

This project models the core of a habit-tracking backend: the check-in handler
`checkInHabit` and the fresh habit state that `addHabit` creates. A user checks in
on a habit with a status, either `completed` or `missed`. The handler works in
four steps:

1. It refuses any other status before anything changes.
2. If an entry already exists for today's calendar day, the first such entry gets
   the new status. Otherwise it appends an entry dated now.
3. It sorts the habit's entries by date, in place. The sort is stable.
4. It walks the sorted entries once to recompute the two cached counters:
   - `currentStreak` is the run of completed entries that ends at the last entry.
   - `longestStreak` is the longest such run anywhere in the list.

A streak counts list positions, not calendar days. Gaps between days do not break
it, and the habit's target weekdays play no part.

The Dafny modules are:

- `CheckIns` (checkins.dfy): the entry and status types, validation of the request's
  status field, the search for today's entry, and the find-or-append step.
- `DateSort` (datesort.dfy): the stable ascending sort by date. It is specified as a
  recursive insertion sort and proved ordered, a permutation and stable.
- `Streaks` (streaks.dfy): the two streak values as recursive functions, with
  independent characterisations by runs of completed entries. `WalkStreaks` is the
  handler's loop, proved to compute them.
- `HabitController` (habit.dfy): the `Habit` class with the fields of a habit
  document. The constructor gives the state that `addHabit` builds. `RecordCheckIn`
  is the check-in handler and changes only the entries and the two counters. The
  module also holds lemmas about whole check-ins (count, one entry per day,
  idempotence) and worked examples.

The calendar day of a timestamp is given by the caller as a function
`dayOf: int -> int`, so the model fixes no time zone. The clock reading `now` is a
parameter.

## Model

| member | source | states |
|---|---|---|
| CheckIns.ParseStatus | controllers/habitController.js:138-141 | a status is accepted exactly when it is `"completed"` or `"missed"`; an absent field, an empty string and any other string are refused, and an accepted status is the one named |
| CheckIns.ParseStatusName | models/Habit.js:5 | each of the two status values, sent by its stored name, is accepted as that value |
| CheckIns.FirstOnDay | controllers/habitController.js:153-156 | finds the first entry whose calendar day equals today's: it is on today's day and no earlier entry is; when none is found, no entry is on today's day |
| CheckIns.FindOrAppend | controllers/habitController.js:153-164 | the find-or-append step keeps the length when an entry falls on today's day and adds one otherwise; every existing entry keeps its date, entries on other days are untouched, and an appended entry is `{date: now, status}` |
| CheckIns.FindOrAppendOverwrites | controllers/habitController.js:158-160 | when entry i is the first on today's day, only its status changes, to the new one; its date, the length and every other entry are unchanged |
| CheckIns.FindOrAppendAppends | controllers/habitController.js:161-164 | when no entry is on today's day, exactly one entry `{date: now, status}` is appended |
| CheckIns.FindOrAppendRecordsToday | controllers/habitController.js:153-164 | afterwards some entry on today's day has the new status; if at most one entry was on today's day before, every entry on today's day has it |
| CheckIns.FindOrAppendUnchanged | controllers/habitController.js:153-160 | when some entry is on today's day and every such entry already has the new status, the check-in changes no entry |
| CheckIns.FindOrAppendKeepsOnePerDay | controllers/habitController.js:153-164 | if no two entries shared a calendar day before, none do afterwards |
| DateSort.Insert | controllers/habitController.js:167 | inserting one entry adds exactly that entry to the multiset of entries |
| DateSort.InsertKeepsSorted | controllers/habitController.js:167 | inserting into a date-ordered list keeps it date-ordered |
| DateSort.SortByDate | controllers/habitController.js:167 | the result is in ascending date order and is a permutation of the input |
| DateSort.SortByDateSameEntries | controllers/habitController.js:167 | an entry occurs in the sorted list exactly when it occurs in the input |
| DateSort.SortByDateIsStable | controllers/habitController.js:167 | for every date, the entries with that date appear in the same relative order as in the input (stable sort) |
| DateSort.SortByDateOfSorted | controllers/habitController.js:167 | sorting a list already in date order returns it unchanged |
| DateSort.SortByDateKeepsOnePerDay | controllers/habitController.js:167 | sorting keeps "no two entries share a calendar day" |
| Streaks.CurrentStreak | controllers/habitController.js:168-177 | the running streak never exceeds the number of entries |
| Streaks.LongestStreak | controllers/habitController.js:168-177 | 0 <= currentStreak <= longestStreak <= number of entries |
| Streaks.CurrentStreakIsTrailingRun | controllers/habitController.js:170-176 | the current streak is the run of completed entries ending at the last entry, and the entry just before that run, if any, is missed |
| Streaks.TrailingRunBounded | controllers/habitController.js:170-176 | every run of completed entries that reaches the last entry is at most as long as the current streak |
| Streaks.LongestStreakIsLongestRun | controllers/habitController.js:170-176 | no run of consecutive completed entries is longer than the longest streak, and some run has exactly that length |
| Streaks.NoStreakIffAllMissed | controllers/habitController.js:168-177 | the longest streak is 0 if and only if every entry is missed (so also for an empty list) |
| Streaks.StreaksIgnoreDates | controllers/habitController.js:170-177 | both streaks depend only on the statuses in list order; changing dates, calendar gaps included, changes neither |
| Streaks.WalkStreaks | controllers/habitController.js:168-177 | the loop that raises the running streak on each completed entry, resets it on each missed entry and tracks its maximum ends with the current and the longest streak of the list |
| HabitController.AfterCheckIn | controllers/habitController.js:153-167 | the entries after a valid check-in (find-or-append, then the stable sort) are in date order and a permutation of the find-or-append result; their number is unchanged when an entry already fell on today's day and one larger otherwise |
| HabitController.CheckInKeepsOnePerDay | controllers/habitController.js:153-167 | a check-in keeps at most one entry per calendar day |
| HabitController.CheckInRecordsToday | controllers/habitController.js:153-167 | after any check-in some entry on today's day has the new status; if at most one entry fell on today's day before, every entry on today's day has it |
| HabitController.CheckInIdempotent | controllers/habitController.js:153-177 | a second check-in on the same day with the same status leaves the entries, and so the streaks, as the first one left them |
| HabitController.FirstCheckInExample | controllers/habitController.js:138-180 | on a new habit, a completed check-in gives one entry and streaks 1 and 1; a following check-in with status "pending" is refused with `InvalidStatus` and leaves that entry and both streaks as they were |
| HabitController.StreaksAfterOneMiss | controllers/habitController.js:168-177 | for statuses completed, completed, missed, completed the walk ends with current streak 1 and longest streak 2 |
| HabitController.AppendAfterMissedExample | controllers/habitController.js:153-177 | from completed, completed, missed on days 1 to 3, a completed check-in on day 4 appends an entry and gives current streak 1 and longest streak 2 |
| HabitController.StreaksAfterOverwrite | controllers/habitController.js:168-177 | for statuses missed, completed both streaks are 1 |
| HabitController.OverwriteExample | controllers/habitController.js:153-177 | from completed on days 1 and 2, a missed check-in later on day 1 overwrites day 1 in place and gives streaks 1 and 1 |
| HabitController.Habit.constructor | controllers/habitController.js:24-32 | a new habit has the given owner, name, target days and start date, no check-ins, both streaks 0, and its streaks agree with its entries |
| HabitController.Habit.RecordCheckIn | controllers/habitController.js:138-180 | an invalid status yields `InvalidStatus` and leaves the entries and both streaks unchanged; a valid one sets the entries to the sorted find-or-append result, with both streaks recomputed from them; the habit's other fields are outside its frame |

## Left out

- Persistence is not modelled: the ownership lookup, the "not found" answer and `habit.save()` (controllers/habitController.js:143-151, 182). `RecordCheckIn` is called on a habit that was found. A failed save is the datastore's concern.
- The other handlers are not modelled (creating, listing, updating, deleting and fetching habits), except the initial state that `addHabit` builds. They move documents in and out of the datastore and compute nothing.
- Authentication, request-schema validation, the Mongoose schema, routing, error middleware, console logging and the `catchAsync` wrapper are not part of this model. The schema is used only for the shapes of the status and weekday types.
- The local-time semantics of `toDateString()` are not modelled. The calendar day is the caller-supplied function `dayOf`.
- HabitController.Habit.RecordCheckIn: the source reads the clock twice, once for today's day (line 153) and once for a new entry's date (line 163). The model reads it once, as `now`. A check-in made across midnight could date its new entry one day later in the source.
- HabitController.Habit.RecordCheckIn: the status field is modelled as absent or a string. Other JSON values (numbers, booleans, null) are refused by the source as well.
- HabitController.CheckInIdempotent: requires that at most one entry fell on that calendar day beforehand. Without this, two entries on today's day, stored in reverse date order, let the second call overwrite a different entry than the first. Every check-in keeps the at-most-one condition (`CheckInKeepsOnePerDay`). The source does not enforce it on stored documents, so it is not part of the class invariant.
- `Array.prototype.sort` is a library routine. It is specified by the stable insertion sort `SortByDate`, and its in-place effect is the reassignment of the `checkIns` field.
- `checkInHabit` takes no check-in date from its caller; the day is always that of `now`. Entries are a list searched in order, not a map keyed by day.
