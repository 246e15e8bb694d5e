/**
 * Streaks over a date-ordered list of check-ins. A streak is a run of
 * consecutive `completed` entries by position in the list; gaps between
 * calendar days and the habit's target weekdays play no part.
 */
module Streaks {
  import opened CheckIns

  function Max(a: int, b: int): int
  {
    if a >= b then a else b
  }

  /** Length of the run of completed entries that ends with the last entry. */
  function CurrentStreak(s: seq<CheckIn>): (r: nat)
    ensures r <= |s|
  {
    if s == [] then 0
    else if s[|s| - 1].status == Completed then CurrentStreak(s[..|s| - 1]) + 1
    else 0
  }

  /** The largest value the running streak reaches along `s`. */
  function LongestStreak(s: seq<CheckIn>): (r: nat)
    ensures CurrentStreak(s) <= r <= |s|
  {
    if s == [] then 0 else Max(LongestStreak(s[..|s| - 1]), CurrentStreak(s))
  }

  /** Entries `i` up to (not including) `j` are all completed. */
  predicate IsRun(s: seq<CheckIn>, i: int, j: int)
  {
    0 <= i <= j <= |s| && forall k :: i <= k < j ==> s[k].status == Completed
  }

  /**
   * The current streak is the trailing run of completed entries: the entry
   * just before it, if any, is missed.
   */
  lemma {:induction false} CurrentStreakIsTrailingRun(s: seq<CheckIn>)
    ensures IsRun(s, |s| - CurrentStreak(s), |s|)
    ensures CurrentStreak(s) < |s| ==> s[|s| - 1 - CurrentStreak(s)].status == Missed
  {
    if s != [] && s[|s| - 1].status == Completed {
      var p := s[..|s| - 1];
      CurrentStreakIsTrailingRun(p);
      assert forall k :: 0 <= k < |p| ==> s[k] == p[k];
    }
  }

  /** No run of completed entries reaching the end is longer than the current streak. */
  lemma {:induction false} TrailingRunBounded(s: seq<CheckIn>, i: int)
    requires IsRun(s, i, |s|)
    ensures |s| - i <= CurrentStreak(s)
  {
    if i < |s| {
      var p := s[..|s| - 1];
      assert IsRun(p, i, |p|);
      TrailingRunBounded(p, i);
    }
  }

  /**
   * The longest streak is the length of a longest run of consecutive
   * completed entries: every run is at most that long and one is exactly
   * that long.
   */
  lemma {:induction false} LongestStreakIsLongestRun(s: seq<CheckIn>)
    ensures forall i, j :: IsRun(s, i, j) ==> j - i <= LongestStreak(s)
    ensures exists i, j :: IsRun(s, i, j) && j - i == LongestStreak(s)
  {
    if s == [] {
      assert IsRun(s, 0, 0);
    } else {
      var p := s[..|s| - 1];
      LongestStreakIsLongestRun(p);
      forall i, j | IsRun(s, i, j) ensures j - i <= LongestStreak(s) {
        if j == |s| {
          TrailingRunBounded(s, i);
        } else {
          assert IsRun(p, i, j);
        }
      }
      if LongestStreak(s) == LongestStreak(p) {
        var i, j :| IsRun(p, i, j) && j - i == LongestStreak(p);
        assert IsRun(s, i, j);
      } else {
        CurrentStreakIsTrailingRun(s);
      }
    }
  }

  /** The longest streak is 0 exactly when no entry is completed. */
  lemma {:induction false} NoStreakIffAllMissed(s: seq<CheckIn>)
    ensures LongestStreak(s) == 0 <==> forall k :: 0 <= k < |s| ==> s[k].status == Missed
  {
    LongestStreakIsLongestRun(s);
    if LongestStreak(s) == 0 {
      forall k | 0 <= k < |s| ensures s[k].status == Missed {
        if s[k].status == Completed {
          assert IsRun(s, k, k + 1);
        }
      }
    } else {
      var i, j :| IsRun(s, i, j) && j - i == LongestStreak(s);
      assert s[i].status == Completed;
    }
  }

  /**
   * Streaks depend on the statuses in list order only: changing the dates
   * of entries, calendar gaps included, leaves both values as they are.
   */
  lemma {:induction false} StreaksIgnoreDates(s: seq<CheckIn>, t: seq<CheckIn>)
    requires |s| == |t|
    requires forall k :: 0 <= k < |s| ==> s[k].status == t[k].status
    ensures CurrentStreak(s) == CurrentStreak(t)
    ensures LongestStreak(s) == LongestStreak(t)
  {
    if s != [] {
      StreaksIgnoreDates(s[..|s| - 1], t[..|t| - 1]);
    }
  }

  /**
   * The walk over the sorted entries: each completed entry extends the
   * running streak and may raise the longest, each missed entry resets the
   * running streak.
   */
  method WalkStreaks(sorted: seq<CheckIn>) returns (current: nat, longest: nat)
    ensures current == CurrentStreak(sorted)
    ensures longest == LongestStreak(sorted)
  {
    current, longest := 0, 0;
    for i := 0 to |sorted|
      invariant current == CurrentStreak(sorted[..i])
      invariant longest == LongestStreak(sorted[..i])
    {
      assert sorted[..i + 1][..i] == sorted[..i];
      if sorted[i].status == Completed {
        current := current + 1;
        longest := Max(longest, current);
      } else {
        current := 0;
      }
    }
    assert sorted[..|sorted|] == sorted;
  }
}
