/** Trips as loaded from the sheet, and the whole-days-abroad total of a list
    of trips inside a window (count_absences_in_window). */
module Trips {
  import opened Wrappers
  import opened Intervals
  import opened Absence

  /** One row of the trips sheet after date parsing: a date the parser could
      not read is None. */
  datatype Trip = Trip(leave: Option<Day>, ret: Option<Day>, note: string)

  /** Both dates of the row were parsed. */
  predicate Dated(t: Trip) {
    t.leave.Some? && t.ret.Some?
  }

  /** The whole days abroad of a row; none when a date is missing. */
  ghost function TripDays(t: Trip): set<Day> {
    if Dated(t) then AbroadDays(t.leave.value, t.ret.value) else {}
  }

  /** What one row adds to the window total: the number of its whole days
      abroad that fall inside the window. */
  function Contribution(t: Trip, window: Interval): (r: nat)
    ensures !Dated(t) ==> r == 0
    ensures r == |TripDays(t) * window.Days()|
    ensures Dated(t) ==> r <= WholeDaysAbroad(t.leave.value, t.ret.value)
    ensures r <= window.Length()
    ensures Dated(t) && (forall d :: t.leave.value < d < t.ret.value ==> window.Contains(d))
            ==> r == WholeDaysAbroad(t.leave.value, t.ret.value)
  {
    match (t.leave, t.ret)
    case (Some(leave), Some(ret)) =>
      var ci := CountableInterval(leave, ret);
      if ci.None? then
        assert TripDays(t) == {};
        0
      else
        var ov := IntervalOverlap(ci.value, window);
        if ov.None? then
          assert TripDays(t) * window.Days() == {};
          0
        else
          assert TripDays(t) * window.Days() == ov.value.Days();
          assert (forall d :: leave < d < ret ==> window.Contains(d))
                 ==> window.Contains(leave + 1) && window.Contains(ret - 1);
          DaysCardinality(ov.value);
          DaysCardinality(window);
          (ov.value.end - ov.value.start) + 1
    case _ => 0
  }

  /** The window total: every row's contribution, summed with no
      de-duplication of days that two rows both cover. */
  function TotalAbsence(trips: seq<Trip>, window: Interval): nat
  {
    if |trips| == 0 then 0
    else TotalAbsence(trips[..|trips| - 1], window) + Contribution(trips[|trips| - 1], window)
  }

  /** count_absences_in_window, as the loop over the rows. */
  method CountAbsencesInWindow(trips: seq<Trip>, windowStart: Day, windowEnd: Day) returns (total: nat)
    ensures total == TotalAbsence(trips, Interval(windowStart, windowEnd))
    ensures total >= |DaysAbroadIn(trips, Interval(windowStart, windowEnd))|
    ensures PairwiseDisjoint(trips) ==> total == |DaysAbroadIn(trips, Interval(windowStart, windowEnd))|
  {
    var window := Interval(windowStart, windowEnd);
    total := 0;
    var i := 0;
    while i < |trips|
      invariant 0 <= i <= |trips|
      invariant total == TotalAbsence(trips[..i], window)
    {
      assert trips[..i + 1][..i] == trips[..i];
      total := total + Contribution(trips[i], window);
      i := i + 1;
    }
    assert trips[..|trips|] == trips;
    TotalAbsenceCountsDistinctDays(trips, window);
    if PairwiseDisjoint(trips) {
      DisjointTotalAbsence(trips, window);
    }
  }

  /** The total over two lists of rows is the sum of their totals. */
  lemma {:induction false} TotalAbsenceAppend(a: seq<Trip>, b: seq<Trip>, window: Interval)
    ensures TotalAbsence(a + b, window) == TotalAbsence(a, window) + TotalAbsence(b, window)
    decreases |b|
  {
    if |b| == 0 {
      assert a + b == a;
    } else {
      var b' := b[..|b| - 1];
      TotalAbsenceAppend(a, b', window);
      assert (a + b)[..|a + b| - 1] == a + b';
    }
  }

  /** Removing the row at index i takes away exactly that row's contribution. */
  lemma TotalAbsenceRemove(s: seq<Trip>, i: int, window: Interval)
    requires 0 <= i < |s|
    ensures TotalAbsence(s, window)
            == TotalAbsence(s[..i] + s[i + 1..], window) + Contribution(s[i], window)
  {
    assert s == s[..i] + ([s[i]] + s[i + 1..]);
    TotalAbsenceAppend(s[..i], [s[i]] + s[i + 1..], window);
    TotalAbsenceAppend([s[i]], s[i + 1..], window);
    TotalAbsenceAppend(s[..i], s[i + 1..], window);
    assert [s[i]][..0] == [];
  }

  /** The order of the rows does not matter: any permutation has the same total. */
  lemma {:induction false} TotalAbsencePermutation(a: seq<Trip>, b: seq<Trip>, window: Interval)
    requires multiset(a) == multiset(b)
    ensures TotalAbsence(a, window) == TotalAbsence(b, window)
    decreases |a|
  {
    if |a| == 0 {
      assert |b| == |multiset(b)| == 0;
    } else {
      var n := |a| - 1;
      var x := a[n];
      assert x in multiset(b);
      var j :| 0 <= j < |b| && b[j] == x;
      var b' := b[..j] + b[j + 1..];
      assert b == b[..j] + [b[j]] + b[j + 1..];
      assert multiset(b) == multiset(b[..j]) + multiset{x} + multiset(b[j + 1..]);
      assert a == a[..n] + [x];
      assert multiset(a) == multiset(a[..n]) + multiset{x};
      assert multiset(b') == multiset(b[..j]) + multiset(b[j + 1..]);
      assert multiset(b') == multiset(b) - multiset{x};
      assert multiset(a[..n]) == multiset(a) - multiset{x};
      TotalAbsencePermutation(a[..n], b', window);
      TotalAbsenceRemove(b, j, window);
    }
  }

  /** Adding a row anywhere raises the total by that row's contribution, so the
      total never decreases. */
  lemma TotalAbsenceInsert(s: seq<Trip>, i: int, t: Trip, window: Interval)
    requires 0 <= i <= |s|
    ensures TotalAbsence(s[..i] + [t] + s[i..], window)
            == TotalAbsence(s, window) + Contribution(t, window)
    ensures TotalAbsence(s[..i] + [t] + s[i..], window) >= TotalAbsence(s, window)
  {
    var u := s[..i] + [t] + s[i..];
    assert u[..i] + u[i + 1..] == s;
    TotalAbsenceRemove(u, i, window);
  }

  /** A window inside another never has a larger total. */
  lemma {:induction false} TotalAbsenceWindowMonotone(trips: seq<Trip>, inner: Interval, outer: Interval)
    requires outer.start <= inner.start && inner.end <= outer.end
    ensures TotalAbsence(trips, inner) <= TotalAbsence(trips, outer)
    decreases |trips|
  {
    if |trips| > 0 {
      var t := trips[|trips| - 1];
      TotalAbsenceWindowMonotone(trips[..|trips| - 1], inner, outer);
      assert TripDays(t) * inner.Days() <= TripDays(t) * outer.Days();
      SubsetCardinality(TripDays(t) * inner.Days(), TripDays(t) * outer.Days());
    }
  }

  lemma SubsetCardinality<T>(a: set<T>, b: set<T>)
    requires a <= b
    ensures |a| <= |b|
  {
    assert b == a + (b - a);
  }

  /** The rows whose dates both parsed (dropna). */
  function DropUndated(rows: seq<Trip>): (r: seq<Trip>)
    ensures forall i :: 0 <= i < |r| ==> Dated(r[i])
    ensures forall t :: multiset(r)[t] == if Dated(t) then multiset(rows)[t] else 0
  {
    if |rows| == 0 then []
    else
      assert rows == [rows[0]] + rows[1..];
      (if Dated(rows[0]) then [rows[0]] else []) + DropUndated(rows[1..])
  }

  /** The total of a list is its first row's contribution plus the rest's total. */
  lemma TotalAbsenceCons(x: Trip, rest: seq<Trip>, window: Interval)
    ensures TotalAbsence([x] + rest, window) == Contribution(x, window) + TotalAbsence(rest, window)
  {
    TotalAbsenceAppend([x], rest, window);
    assert [x][..0] == [];
  }

  /** Rows with a missing date add nothing, so dropping them keeps the total. */
  lemma {:induction false} TotalAbsenceDropUndated(rows: seq<Trip>, window: Interval)
    ensures TotalAbsence(DropUndated(rows), window) == TotalAbsence(rows, window)
    decreases |rows|
  {
    if |rows| > 0 {
      var x, rest := rows[0], rows[1..];
      assert rows == [x] + rest;
      TotalAbsenceDropUndated(rest, window);
      TotalAbsenceCons(x, rest, window);
      if Dated(x) {
        assert DropUndated(rows) == [x] + DropUndated(rest);
        TotalAbsenceCons(x, DropUndated(rest), window);
      } else {
        assert DropUndated(rows) == DropUndated(rest);
      }
    }
  }

  /** Every day inside the window that some row has abroad. */
  ghost function DaysAbroadIn(trips: seq<Trip>, window: Interval): set<Day>
  {
    if |trips| == 0 then {}
    else DaysAbroadIn(trips[..|trips| - 1], window) + TripDays(trips[|trips| - 1]) * window.Days()
  }

  lemma {:induction false} DaysAbroadInMembers(trips: seq<Trip>, window: Interval, d: Day)
    ensures d in DaysAbroadIn(trips, window)
            <==> window.Contains(d) && exists i :: 0 <= i < |trips| && d in TripDays(trips[i])
    decreases |trips|
  {
    if |trips| > 0 {
      var n := |trips| - 1;
      DaysAbroadInMembers(trips[..n], window, d);
      if exists i :: 0 <= i < |trips| && d in TripDays(trips[i]) {
        var i :| 0 <= i < |trips| && d in TripDays(trips[i]);
        if i < n {
          assert trips[..n][i] == trips[i];
        }
      }
    }
  }

  /** No two rows are abroad on the same day. */
  ghost predicate PairwiseDisjoint(trips: seq<Trip>) {
    forall i, j :: 0 <= i < j < |trips| ==> TripDays(trips[i]) !! TripDays(trips[j])
  }

  /** Dropping the last row keeps the rest pairwise disjoint, and the last
      row's days abroad are none of the days abroad of the rows before it. */
  lemma DisjointFromEarlierRows(trips: seq<Trip>, window: Interval)
    requires |trips| > 0 && PairwiseDisjoint(trips)
    ensures PairwiseDisjoint(trips[..|trips| - 1])
    ensures DaysAbroadIn(trips[..|trips| - 1], window) * (TripDays(trips[|trips| - 1]) * window.Days()) == {}
  {
    var n := |trips| - 1;
    var init := trips[..n];
    forall i, j | 0 <= i < j < |init|
      ensures TripDays(init[i]) !! TripDays(init[j])
    {
      assert init[i] == trips[i] && init[j] == trips[j];
    }
    forall d | d in DaysAbroadIn(init, window)
      ensures d !in TripDays(trips[n])
    {
      DaysAbroadInMembers(init, window, d);
      var i :| 0 <= i < |init| && d in TripDays(init[i]);
      assert init[i] == trips[i];
    }
  }

  /** The days abroad in the window of all rows are those of the rows before
      the last together with the last row's. */
  lemma DaysAbroadInLast(trips: seq<Trip>, window: Interval)
    requires |trips| > 0
    ensures |DaysAbroadIn(trips, window)|
            + |DaysAbroadIn(trips[..|trips| - 1], window) * (TripDays(trips[|trips| - 1]) * window.Days())|
            == |DaysAbroadIn(trips[..|trips| - 1], window)| + Contribution(trips[|trips| - 1], window)
  {
    var u := DaysAbroadIn(trips[..|trips| - 1], window);
    var last := TripDays(trips[|trips| - 1]) * window.Days();
    assert |u + last| + |u * last| == |u| + |last|;
  }

  /** The total counts every day abroad in the window at least once: a day
      two rows share is counted once per row. */
  lemma {:induction false} TotalAbsenceCountsDistinctDays(trips: seq<Trip>, window: Interval)
    ensures |DaysAbroadIn(trips, window)| <= TotalAbsence(trips, window)
    decreases |trips|
  {
    if |trips| > 0 {
      TotalAbsenceCountsDistinctDays(trips[..|trips| - 1], window);
      DaysAbroadInLast(trips, window);
    }
  }

  /** When no two rows share a day abroad, the total is exactly the number of
      distinct days abroad in the window. */
  lemma {:induction false} DisjointTotalAbsence(trips: seq<Trip>, window: Interval)
    requires PairwiseDisjoint(trips)
    ensures |DaysAbroadIn(trips, window)| == TotalAbsence(trips, window)
    decreases |trips|
  {
    if |trips| > 0 {
      DisjointFromEarlierRows(trips, window);
      DisjointTotalAbsence(trips[..|trips| - 1], window);
      DaysAbroadInLast(trips, window);
    }
  }

  /** Two trips covering the same days are both counted: a repeated row with k
      whole days abroad inside the window adds 2k. */
  lemma DuplicateTripCountedTwice(t: Trip, window: Interval)
    ensures TotalAbsence([t, t], window) == 2 * Contribution(t, window)
  {
    assert [t, t][..1] == [t];
    assert [t][..0] == [];
    assert TotalAbsence([t], window) == Contribution(t, window);
  }

  /** A window of the 1st to the 5th and a trip leaving on the 2nd and returning
      on the 10th: the countable days 3rd..9th are clipped to 3rd..5th, 3 days. */
  lemma WindowClipExample(j: Day)
    ensures CountableInterval(j + 1, j + 9) == Some(Interval(j + 2, j + 8))
    ensures IntervalOverlap(Interval(j + 2, j + 8), Interval(j, j + 4)) == Some(Interval(j + 2, j + 4))
    ensures Contribution(Trip(Some(j + 1), Some(j + 9), ""), Interval(j, j + 4)) == 3
  {
  }
}
