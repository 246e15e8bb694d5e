/**
 * Check-in entries of a habit, the status field of a check-in request, and
 * the find-or-append step that records today's entry.
 */
module CheckIns {

  /** Milliseconds since the epoch, as a JavaScript Date holds them. */
  type Timestamp = int

  /**
   * The calendar day a timestamp falls on: what comparing two
   * `toDateString()` results decides. The server's local time zone is not
   * fixed here, so the day function is supplied by the caller.
   */
  type DayOf = Timestamp -> int

  datatype Option<T> = None | Some(value: T)

  /** The two values the schema's status enum admits. */
  datatype Status = Completed | Missed

  datatype CheckIn = CheckIn(date: Timestamp, status: Status)

  /** The string a status is stored and sent as. */
  function StatusName(st: Status): string
  {
    match st
    case Completed => "completed"
    case Missed => "missed"
  }

  /**
   * Validates the request's status field (None when the field is absent).
   * A falsy value (absent or empty) and every string other than the two
   * allowed names is refused.
   */
  function ParseStatus(raw: Option<string>): (r: Option<Status>)
    ensures r.Some? <==> raw == Some("completed") || raw == Some("missed")
    ensures r.Some? ==> raw == Some(StatusName(r.value))
  {
    match raw
    case None => None
    case Some(text) =>
      if text == "" then None
      else if text == "completed" then Some(Completed)
      else if text == "missed" then Some(Missed)
      else None
  }

  lemma ParseStatusName(st: Status)
    ensures ParseStatus(Some(StatusName(st))) == Some(st)
  {
  }

  /** Index of the first entry whose calendar day is `d`, if any. */
  function FirstOnDay(s: seq<CheckIn>, dayOf: DayOf, d: int): (r: Option<nat>)
    ensures r.Some? ==> r.value < |s| && dayOf(s[r.value].date) == d
    ensures r.Some? ==> forall k :: 0 <= k < r.value ==> dayOf(s[k].date) != d
    ensures r.None? ==> forall k :: 0 <= k < |s| ==> dayOf(s[k].date) != d
  {
    if s == [] then None
    else if dayOf(s[0].date) == d then Some(0)
    else
      match FirstOnDay(s[1..], dayOf, d)
      case None => None
      case Some(i) => Some(i + 1)
  }

  /**
   * Today's entry after a check-in with status `st` at time `now`: the
   * first entry on now's calendar day gets the new status and keeps its
   * date, and when there is none an entry dated `now` is appended.
   */
  function FindOrAppend(s: seq<CheckIn>, dayOf: DayOf, now: Timestamp, st: Status): (r: seq<CheckIn>)
    ensures |r| == if exists k :: 0 <= k < |s| && dayOf(s[k].date) == dayOf(now) then |s| else |s| + 1
    ensures forall k :: 0 <= k < |s| ==> r[k].date == s[k].date
    ensures forall k :: 0 <= k < |s| && dayOf(s[k].date) != dayOf(now) ==> r[k] == s[k]
    ensures |r| == |s| + 1 ==> r[|s|] == CheckIn(now, st)
  {
    match FirstOnDay(s, dayOf, dayOf(now))
    case Some(i) => s[i := s[i].(status := st)]
    case None => s + [CheckIn(now, st)]
  }

  /** No two entries fall on the same calendar day. */
  predicate OnePerDay(dayOf: DayOf, s: seq<CheckIn>)
  {
    forall i, j :: 0 <= i < j < |s| ==> dayOf(s[i].date) != dayOf(s[j].date)
  }

  /** At most one entry falls on calendar day `d`. */
  predicate AtMostOneOn(dayOf: DayOf, s: seq<CheckIn>, d: int)
  {
    forall i, j :: 0 <= i < j < |s| && dayOf(s[i].date) == d ==> dayOf(s[j].date) != d
  }

  /** The first entry on today's day is overwritten; nothing else changes. */
  lemma FindOrAppendOverwrites(s: seq<CheckIn>, dayOf: DayOf, now: Timestamp, st: Status, i: nat)
    requires i < |s| && dayOf(s[i].date) == dayOf(now)
    requires forall k :: 0 <= k < i ==> dayOf(s[k].date) != dayOf(now)
    ensures var r := FindOrAppend(s, dayOf, now, st);
      |r| == |s| && r[i] == CheckIn(s[i].date, st) &&
      forall k :: 0 <= k < |s| && k != i ==> r[k] == s[k]
  {
  }

  /** Without an entry on today's day, exactly one entry dated now is appended. */
  lemma FindOrAppendAppends(s: seq<CheckIn>, dayOf: DayOf, now: Timestamp, st: Status)
    requires forall k :: 0 <= k < |s| ==> dayOf(s[k].date) != dayOf(now)
    ensures FindOrAppend(s, dayOf, now, st) == s + [CheckIn(now, st)]
  {
  }

  /**
   * Afterwards some entry is on today's day with the new status, and when
   * at most one entry was on today's day beforehand, every entry on today's
   * day has the new status.
   */
  lemma FindOrAppendRecordsToday(s: seq<CheckIn>, dayOf: DayOf, now: Timestamp, st: Status)
    ensures var r := FindOrAppend(s, dayOf, now, st);
      exists k :: 0 <= k < |r| && dayOf(r[k].date) == dayOf(now) && r[k].status == st
    ensures AtMostOneOn(dayOf, s, dayOf(now)) ==>
      var r := FindOrAppend(s, dayOf, now, st);
      forall k :: 0 <= k < |r| && dayOf(r[k].date) == dayOf(now) ==> r[k].status == st
  {
    var r := FindOrAppend(s, dayOf, now, st);
    match FirstOnDay(s, dayOf, dayOf(now))
    case Some(i) =>
      assert dayOf(r[i].date) == dayOf(now) && r[i].status == st;
      if AtMostOneOn(dayOf, s, dayOf(now)) {
        forall k | 0 <= k < |r| && dayOf(r[k].date) == dayOf(now)
          ensures r[k].status == st
        {
        }
      }
    case None =>
      assert r[|s|] == CheckIn(now, st);
  }

  /** Recording the status that every entry on today's day already has changes nothing. */
  lemma FindOrAppendUnchanged(s: seq<CheckIn>, dayOf: DayOf, now: Timestamp, st: Status, j: nat)
    requires j < |s| && dayOf(s[j].date) == dayOf(now)
    requires forall k :: 0 <= k < |s| && dayOf(s[k].date) == dayOf(now) ==> s[k].status == st
    ensures FindOrAppend(s, dayOf, now, st) == s
  {
  }

  /** The check-in keeps the one-entry-per-day invariant. */
  lemma FindOrAppendKeepsOnePerDay(s: seq<CheckIn>, dayOf: DayOf, now: Timestamp, st: Status)
    requires OnePerDay(dayOf, s)
    ensures OnePerDay(dayOf, FindOrAppend(s, dayOf, now, st))
  {
  }
}
