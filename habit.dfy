/**
 * A habit document and the check-in handler that updates it: validate the
 * status, overwrite or append today's entry, sort the entries by date in
 * place, and recompute the cached streaks from the sorted entries.
 */
module HabitController {
  import opened CheckIns
  import opened DateSort
  import opened Streaks

  /** The values the schema admits in a habit's target days. */
  datatype Weekday = Sunday | Monday | Tuesday | Wednesday | Thursday | Friday | Saturday

  /** Opaque identifier of the owning user. */
  type UserId = int

  datatype CheckInError = InvalidStatus

  datatype Outcome = Ok | Err(error: CheckInError)

  /**
   * The entries after a valid check-in with status `st` at time `now`: the
   * updated entries rearranged into date order, as many as before when an
   * entry already fell on today's day and one more otherwise.
   */
  function AfterCheckIn(s: seq<CheckIn>, dayOf: DayOf, now: Timestamp, st: Status): (r: seq<CheckIn>)
    ensures Sorted(r)
    ensures multiset(r) == multiset(FindOrAppend(s, dayOf, now, st))
    ensures |r| == if exists k :: 0 <= k < |s| && dayOf(s[k].date) == dayOf(now) then |s| else |s| + 1
  {
    var r := SortByDate(FindOrAppend(s, dayOf, now, st));
    assert |multiset(r)| == |multiset(FindOrAppend(s, dayOf, now, st))|;
    r
  }

  /** A check-in keeps at most one entry per calendar day. */
  lemma CheckInKeepsOnePerDay(s: seq<CheckIn>, dayOf: DayOf, now: Timestamp, st: Status)
    requires OnePerDay(dayOf, s)
    ensures OnePerDay(dayOf, AfterCheckIn(s, dayOf, now, st))
  {
    FindOrAppendKeepsOnePerDay(s, dayOf, now, st);
    SortByDateKeepsOnePerDay(dayOf, FindOrAppend(s, dayOf, now, st));
  }

  /**
   * After a check-in some entry on today's day has the new status, and when
   * at most one entry fell on today's day beforehand, every one does.
   */
  lemma CheckInRecordsToday(s: seq<CheckIn>, dayOf: DayOf, now: Timestamp, st: Status)
    ensures var t := AfterCheckIn(s, dayOf, now, st);
      exists j :: 0 <= j < |t| && dayOf(t[j].date) == dayOf(now) && t[j].status == st
    ensures AtMostOneOn(dayOf, s, dayOf(now)) ==>
      var t := AfterCheckIn(s, dayOf, now, st);
      forall i :: 0 <= i < |t| && dayOf(t[i].date) == dayOf(now) ==> t[i].status == st
  {
    var r := FindOrAppend(s, dayOf, now, st);
    var t := SortByDate(r);
    FindOrAppendRecordsToday(s, dayOf, now, st);
    SortByDateSameEntries(r);
    var k :| 0 <= k < |r| && dayOf(r[k].date) == dayOf(now) && r[k].status == st;
    assert r[k] in t;
    var j :| 0 <= j < |t| && t[j] == r[k];
    assert t == AfterCheckIn(s, dayOf, now, st);
    assert dayOf(t[j].date) == dayOf(now) && t[j].status == st;
    if AtMostOneOn(dayOf, s, dayOf(now)) {
      forall i | 0 <= i < |t| && dayOf(t[i].date) == dayOf(now) ensures t[i].status == st {
        assert t[i] in r;
        var m :| 0 <= m < |r| && r[m] == t[i];
      }
    }
  }

  /**
   * Checking in twice on the same day with the same status leaves the
   * entries as one check-in does, provided at most one entry fell on that
   * day to begin with (which OnePerDay guarantees).
   */
  lemma CheckInIdempotent(s: seq<CheckIn>, dayOf: DayOf, now: Timestamp, later: Timestamp, st: Status)
    requires dayOf(later) == dayOf(now)
    requires AtMostOneOn(dayOf, s, dayOf(now))
    ensures AfterCheckIn(AfterCheckIn(s, dayOf, now, st), dayOf, later, st) == AfterCheckIn(s, dayOf, now, st)
  {
    var t := AfterCheckIn(s, dayOf, now, st);
    CheckInRecordsToday(s, dayOf, now, st);
    var j :| 0 <= j < |t| && dayOf(t[j].date) == dayOf(now);
    FindOrAppendUnchanged(t, dayOf, later, st, j);
    SortByDateOfSorted(t);
  }

  class Habit {
    var user: UserId
    var habitName: string
    var targetDays: seq<Weekday>
    var startDate: Timestamp
    var checkIns: seq<CheckIn>
    var currentStreak: nat
    var longestStreak: nat

    /** The cached streaks agree with the entries, which are in date order. */
    ghost predicate StreaksUpToDate()
      reads this
    {
      Sorted(checkIns) &&
      currentStreak == CurrentStreak(checkIns) &&
      longestStreak == LongestStreak(checkIns)
    }

    /** A new habit: no check-ins yet and both streaks 0. */
    constructor (user: UserId, habitName: string, targetDays: seq<Weekday>, startDate: Timestamp)
      ensures this.user == user && this.habitName == habitName
      ensures this.targetDays == targetDays && this.startDate == startDate
      ensures checkIns == [] && currentStreak == 0 && longestStreak == 0
      ensures StreaksUpToDate()
    {
      this.user := user;
      this.habitName := habitName;
      this.targetDays := targetDays;
      this.startDate := startDate;
      checkIns := [];
      currentStreak := 0;
      longestStreak := 0;
    }

    /**
     * Records today's check-in. An invalid status is refused before
     * anything changes; otherwise today's entry is overwritten or appended,
     * the entries are sorted by date and both streaks are recomputed.
     */
    method RecordCheckIn(status: Option<string>, now: Timestamp, dayOf: DayOf) returns (outcome: Outcome)
      modifies this`checkIns, this`currentStreak, this`longestStreak
      ensures outcome.Err? <==> ParseStatus(status).None?
      ensures outcome.Err? ==> outcome.error == InvalidStatus
      ensures outcome.Err? ==>
        checkIns == old(checkIns) &&
        currentStreak == old(currentStreak) && longestStreak == old(longestStreak)
      ensures outcome.Ok? ==> checkIns == AfterCheckIn(old(checkIns), dayOf, now, ParseStatus(status).value)
      ensures outcome.Ok? ==> StreaksUpToDate()
    {
      var st := ParseStatus(status);
      if st.None? {
        return Err(InvalidStatus);
      }
      var existing := FirstOnDay(checkIns, dayOf, dayOf(now));
      if existing.Some? {
        var i := existing.value;
        checkIns := checkIns[i := checkIns[i].(status := st.value)];
      } else {
        checkIns := checkIns + [CheckIn(now, st.value)];
      }
      checkIns := SortByDate(checkIns);
      var current, longest := WalkStreaks(checkIns);
      currentStreak := current;
      longestStreak := longest;
      outcome := Ok;
    }
  }

  /** The calendar day in UTC, one possible day function for the examples below. */
  function UtcDay(t: Timestamp): int
  {
    t / 86_400_000
  }

  /**
   * A new habit's first check-in starts both streaks at 1; a later check-in
   * with status "pending" is refused and changes nothing. Returns what the
   * habit holds after both calls.
   */
  method FirstCheckInExample() returns (outcome: Outcome, entries: seq<CheckIn>, current: nat, longest: nat)
    ensures outcome == Err(InvalidStatus)
    ensures entries == [CheckIn(86_400_000, Completed)]
    ensures current == 1 && longest == 1
  {
    assert ParseStatus(Some("completed")) == Some(Completed);
    var h := new Habit(7, "Read", [Monday, Friday], 0);
    outcome := h.RecordCheckIn(Some("completed"), 86_400_000, UtcDay);
    assert FindOrAppend([], UtcDay, 86_400_000, Completed) == [CheckIn(86_400_000, Completed)];
    assert h.checkIns == [CheckIn(86_400_000, Completed)];
    assert h.currentStreak == 1 && h.longestStreak == 1;

    outcome := h.RecordCheckIn(Some("pending"), 172_800_000, UtcDay);
    entries, current, longest := h.checkIns, h.currentStreak, h.longestStreak;
  }

  /** Completed, completed, missed, completed: running streak 1, longest 2. */
  lemma StreaksAfterOneMiss(r: seq<CheckIn>)
    requires |r| == 4
    requires r[0].status == Completed && r[1].status == Completed
    requires r[2].status == Missed && r[3].status == Completed
    ensures CurrentStreak(r) == 1 && LongestStreak(r) == 2
  {
    assert r[..3][..2] == r[..2] && r[..2][..1] == r[..1] && r[..1][..0] == [];
    assert LongestStreak(r[..2]) == 2;
  }

  /** A missed day ends the running streak but not the longest one. */
  lemma AppendAfterMissedExample()
    ensures var s := [CheckIn(86_400_000, Completed), CheckIn(172_800_000, Completed), CheckIn(259_200_000, Missed)];
      var r := AfterCheckIn(s, UtcDay, 345_600_000, Completed);
      r == s + [CheckIn(345_600_000, Completed)] && CurrentStreak(r) == 1 && LongestStreak(r) == 2
  {
    var s := [CheckIn(86_400_000, Completed), CheckIn(172_800_000, Completed), CheckIn(259_200_000, Missed)];
    var r := s + [CheckIn(345_600_000, Completed)];
    FindOrAppendAppends(s, UtcDay, 345_600_000, Completed);
    SortByDateOfSorted(r);
    StreaksAfterOneMiss(r);
  }

  /** Missed, completed: both streaks 1. */
  lemma StreaksAfterOverwrite(r: seq<CheckIn>)
    requires |r| == 2 && r[0].status == Missed && r[1].status == Completed
    ensures CurrentStreak(r) == 1 && LongestStreak(r) == 1
  {
    assert r[..1][..0] == [];
  }

  /** Overwriting an earlier day's entry leaves the count and shortens the streaks. */
  lemma OverwriteExample()
    ensures var s := [CheckIn(86_400_000, Completed), CheckIn(172_800_000, Completed)];
      var r := AfterCheckIn(s, UtcDay, 86_400_005, Missed);
      r == [CheckIn(86_400_000, Missed), CheckIn(172_800_000, Completed)] &&
      CurrentStreak(r) == 1 && LongestStreak(r) == 1
  {
    var s := [CheckIn(86_400_000, Completed), CheckIn(172_800_000, Completed)];
    var r := [CheckIn(86_400_000, Missed), CheckIn(172_800_000, Completed)];
    FindOrAppendOverwrites(s, UtcDay, 86_400_005, Missed, 0);
    assert FindOrAppend(s, UtcDay, 86_400_005, Missed) == r;
    SortByDateOfSorted(r);
    StreaksAfterOverwrite(r);
  }
}
