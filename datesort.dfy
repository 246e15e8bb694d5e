/**
 * The stable ascending sort by date that the check-in applies to the
 * habit's entries. The library sort is specified here by a recursive
 * insertion sort: the result is ordered by date, holds the same entries,
 * and keeps entries with equal dates in their original relative order.
 */
module DateSort {
  import opened CheckIns

  /** Entries are in ascending date order. */
  predicate Sorted(s: seq<CheckIn>)
  {
    forall i, j :: 0 <= i < j < |s| ==> s[i].date <= s[j].date
  }

  /**
   * Inserts `x` before the first entry of `t` that is not earlier than it,
   * so that `x` stays ahead of the entries with its own date.
   */
  function Insert(x: CheckIn, t: seq<CheckIn>): (r: seq<CheckIn>)
    ensures multiset(r) == multiset(t) + multiset{x}
  {
    if t == [] || x.date <= t[0].date then [x] + t
    else
      assert t == [t[0]] + t[1..];
      [t[0]] + Insert(x, t[1..])
  }

  /** No entry of `t` is dated before `b`. */
  predicate NotBefore(t: seq<CheckIn>, b: Timestamp)
  {
    forall k :: 0 <= k < |t| ==> b <= t[k].date
  }

  lemma {:induction false} InsertNotBefore(x: CheckIn, t: seq<CheckIn>, b: Timestamp)
    requires NotBefore(t, b) && b <= x.date
    ensures NotBefore(Insert(x, t), b)
  {
    if t != [] && t[0].date < x.date {
      InsertNotBefore(x, t[1..], b);
    }
  }

  lemma {:induction false} InsertKeepsSorted(x: CheckIn, t: seq<CheckIn>)
    requires Sorted(t)
    ensures Sorted(Insert(x, t))
  {
    if t != [] && t[0].date < x.date {
      var rest := Insert(x, t[1..]);
      InsertKeepsSorted(x, t[1..]);
      InsertNotBefore(x, t[1..], t[0].date);
      var r := [t[0]] + rest;
      forall i, j | 0 <= i < j < |r| ensures r[i].date <= r[j].date {
        assert r[j] == rest[j - 1];
        if i > 0 {
          assert r[i] == rest[i - 1];
        }
      }
    }
  }

  /** The entries of `s` in ascending date order (a stable sort). */
  function SortByDate(s: seq<CheckIn>): (r: seq<CheckIn>)
    ensures Sorted(r)
    ensures multiset(r) == multiset(s)
  {
    if s == [] then []
    else
      assert s == [s[0]] + s[1..];
      InsertKeepsSorted(s[0], SortByDate(s[1..]));
      Insert(s[0], SortByDate(s[1..]))
  }

  /** Sorting neither adds nor drops an entry. */
  lemma SortByDateSameEntries(s: seq<CheckIn>)
    ensures forall y :: y in SortByDate(s) <==> y in s
  {
    var r := SortByDate(s);
    forall y ensures y in r <==> y in s {
      assert y in r <==> y in multiset(r);
      assert y in s <==> y in multiset(s);
    }
  }

  /** The entries of `s` dated exactly `t`, in their order in `s`. */
  function OnDate(s: seq<CheckIn>, t: Timestamp): seq<CheckIn>
  {
    if s == [] then [] else (if s[0].date == t then [s[0]] else []) + OnDate(s[1..], t)
  }

  lemma {:induction false} InsertOnDate(x: CheckIn, u: seq<CheckIn>, t: Timestamp)
    ensures OnDate(Insert(x, u), t) == (if x.date == t then [x] else []) + OnDate(u, t)
  {
    if u == [] || x.date <= u[0].date {
      assert ([x] + u)[1..] == u;
    } else {
      InsertOnDate(x, u[1..], t);
      assert ([u[0]] + Insert(x, u[1..]))[1..] == Insert(x, u[1..]);
    }
  }

  /** Stability: for every date, the entries with that date keep their order. */
  lemma {:induction false} SortByDateIsStable(s: seq<CheckIn>, t: Timestamp)
    ensures OnDate(SortByDate(s), t) == OnDate(s, t)
  {
    if s != [] {
      SortByDateIsStable(s[1..], t);
      InsertOnDate(s[0], SortByDate(s[1..]), t);
    }
  }

  /** Sorting entries that are already in date order leaves them as they are. */
  lemma {:induction false} SortByDateOfSorted(s: seq<CheckIn>)
    requires Sorted(s)
    ensures SortByDate(s) == s
  {
    if s != [] {
      SortByDateOfSorted(s[1..]);
      assert s == [s[0]] + s[1..];
    }
  }

  /** Every entry on a given calendar day keeps being the only one. */
  lemma {:induction false} SortByDateKeepsOnePerDay(dayOf: DayOf, s: seq<CheckIn>)
    requires OnePerDay(dayOf, s)
    ensures OnePerDay(dayOf, SortByDate(s))
  {
    if s != [] {
      var rest := SortByDate(s[1..]);
      SortByDateKeepsOnePerDay(dayOf, s[1..]);
      forall y | y in rest ensures dayOf(y.date) != dayOf(s[0].date) {
        assert y in multiset(rest);
        var k :| 0 <= k < |s[1..]| && s[1..][k] == y;
        assert s[k + 1] == y;
      }
      InsertKeepsOnePerDay(dayOf, s[0], rest);
    }
  }

  lemma {:induction false} InsertKeepsOnePerDay(dayOf: DayOf, x: CheckIn, t: seq<CheckIn>)
    requires OnePerDay(dayOf, t)
    requires forall y :: y in t ==> dayOf(y.date) != dayOf(x.date)
    ensures OnePerDay(dayOf, Insert(x, t))
  {
    var r := Insert(x, t);
    if t == [] || x.date <= t[0].date {
      forall i, j | 0 <= i < j < |r| ensures dayOf(r[i].date) != dayOf(r[j].date) {
        assert r[j] == t[j - 1];
        if i > 0 {
          assert r[i] == t[i - 1];
        }
      }
    } else {
      var rest := Insert(x, t[1..]);
      InsertKeepsOnePerDay(dayOf, x, t[1..]);
      forall i, j | 0 <= i < j < |r| ensures dayOf(r[i].date) != dayOf(r[j].date) {
        if i == 0 {
          assert r[j] == rest[j - 1];
          assert r[j] in multiset(rest);
          if r[j] != x {
            var k :| 0 <= k < |t[1..]| && t[1..][k] == r[j];
            assert t[k + 1] == r[j];
          }
        } else {
          assert r[i] == rest[i - 1] && r[j] == rest[j - 1];
        }
      }
    }
  }
}
