/** What load_trips_df does to the parsed rows before the calculator sees
    them: drop rows with a missing date, order latest first, and attach each
    row's whole days abroad for the trips table. */
module Loading {
  import opened Wrappers
  import opened Intervals
  import opened Absence
  import opened Trips
  import opened Presence
  import opened Eligibility

  /** Row a may come before row b in a latest-first order; rows without a
      leaving date go last, as pandas places missing values. */
  predicate Precedes(a: Trip, b: Trip) {
    b.leave.None? || (a.leave.Some? && a.leave.value >= b.leave.value)
  }

  predicate LatestFirst(s: seq<Trip>) {
    forall i, j :: 0 <= i < j < |s| ==> Precedes(s[i], s[j])
  }

  /** A row that may come before every row of a latest-first list may head it. */
  lemma ConsLatestFirst(x: Trip, s: seq<Trip>)
    requires LatestFirst(s)
    requires forall k :: 0 <= k < |s| ==> Precedes(x, s[k])
    ensures LatestFirst([x] + s)
  {
    forall i, j | 0 <= i < j < |[x] + s|
      ensures Precedes(([x] + s)[i], ([x] + s)[j])
    {
      if i > 0 {
        assert ([x] + s)[i] == s[i - 1] && ([x] + s)[j] == s[j - 1];
      }
    }
  }

  /** Every row drawn from a latest-first list's tail, or any row the head may
      precede, comes after the head. */
  lemma HeadPrecedesAll(s: seq<Trip>, t: Trip, rest: seq<Trip>)
    requires |s| > 0 && LatestFirst(s) && Precedes(s[0], t)
    requires multiset(rest) == multiset(s[1..]) + multiset{t}
    ensures forall k :: 0 <= k < |rest| ==> Precedes(s[0], rest[k])
  {
    forall k | 0 <= k < |rest|
      ensures Precedes(s[0], rest[k])
    {
      assert rest[k] in multiset(rest);
      if rest[k] != t {
        assert rest[k] in multiset(s[1..]);
        var m :| 0 <= m < |s[1..]| && s[1..][m] == rest[k];
        assert s[m + 1] == rest[k];
      }
    }
  }

  function Insert(t: Trip, s: seq<Trip>): (r: seq<Trip>)
    requires LatestFirst(s)
    ensures LatestFirst(r)
    ensures multiset(r) == multiset(s) + multiset{t}
    decreases |s|
  {
    if |s| == 0 then [t]
    else if Precedes(t, s[0]) then
      ConsLatestFirst(t, s);
      [t] + s
    else
      assert s == [s[0]] + s[1..];
      var rest := Insert(t, s[1..]);
      HeadPrecedesAll(s, t, rest);
      ConsLatestFirst(s[0], rest);
      [s[0]] + rest
  }

  /** Orders rows latest leaving date first (sort_values descending). */
  function SortLatestFirst(s: seq<Trip>): (r: seq<Trip>)
    ensures LatestFirst(r)
    ensures multiset(r) == multiset(s)
    decreases |s|
  {
    if |s| == 0 then []
    else
      assert s == [s[0]] + s[1..];
      Insert(s[0], SortLatestFirst(s[1..]))
  }

  lemma PermutationKeepsDated(a: seq<Trip>, b: seq<Trip>)
    requires forall i :: 0 <= i < |a| ==> Dated(a[i])
    requires multiset(a) == multiset(b)
    ensures forall i :: 0 <= i < |b| ==> Dated(b[i])
  {
    forall i | 0 <= i < |b|
      ensures Dated(b[i])
    {
      assert b[i] in multiset(a);
    }
  }

  /** Among dated rows, latest first means non-increasing leaving dates. */
  lemma LatestFirstByLeave(s: seq<Trip>)
    requires forall i :: 0 <= i < |s| ==> s[i].leave.Some? && s[i].ret.Some?
    requires LatestFirst(s)
    ensures forall i, j :: 0 <= i < j < |s| ==> s[i].leave.value >= s[j].leave.value
  {
    forall i, j | 0 <= i < j < |s|
      ensures s[i].leave.value >= s[j].leave.value
    {
      assert Precedes(s[i], s[j]);
    }
  }

  /** The days_absent column: each dated row's whole days abroad. */
  function DaysAbsentColumn(s: seq<Trip>): (r: seq<nat>)
    requires forall i :: 0 <= i < |s| ==> s[i].leave.Some? && s[i].ret.Some?
    ensures |r| == |s|
    ensures forall i :: 0 <= i < |s| ==> r[i] == WholeDaysAbroad(s[i].leave.value, s[i].ret.value)
  {
    seq(|s|, i requires 0 <= i < |s| => WholeDaysAbroad(s[i].leave.value, s[i].ret.value))
  }

  /** The loaded trips table: the rows and, beside each, its days_absent. */
  datatype Table = Table(trips: seq<Trip>, daysAbsent: seq<nat>)

  /** Why loading stopped: every data row had a missing date, so after
      dropping them pandas cannot attach the days_absent column to the empty
      frame and raises a ValueError. */
  datatype LoadError = NoDatedRows

  /** No row has both dates exactly when dropping the undated rows leaves none. */
  lemma DropUndatedEmpty(rows: seq<Trip>)
    ensures DropUndated(rows) == [] <==> forall i :: 0 <= i < |rows| ==> !Dated(rows[i])
  {
    var r := DropUndated(rows);
    if r != [] {
      assert multiset(rows)[r[0]] == multiset(r)[r[0]] > 0;
      assert r[0] in rows;
    }
    if exists i :: 0 <= i < |rows| && Dated(rows[i]) {
      var i :| 0 <= i < |rows| && Dated(rows[i]);
      assert multiset(r)[rows[i]] == multiset(rows)[rows[i]] > 0;
    }
  }

  /** The post-parse steps of load_trips_df. A sheet without data rows loads
      as an empty table; one whose data rows all lack a date fails. */
  function Normalise(rows: seq<Trip>): (r: Result<Table, LoadError>)
    ensures r.Failure? <==> |rows| > 0 && forall i :: 0 <= i < |rows| ==> !Dated(rows[i])
    ensures rows == [] ==> r == Success(Table([], []))
    ensures r.Success? ==> |r.value.daysAbsent| == |r.value.trips|
    ensures r.Success? ==>
      forall i :: 0 <= i < |r.value.trips| ==> r.value.trips[i].leave.Some? && r.value.trips[i].ret.Some?
    ensures r.Success? ==>
      forall i, j :: 0 <= i < j < |r.value.trips| ==> r.value.trips[i].leave.value >= r.value.trips[j].leave.value
    ensures r.Success? ==>
      forall x :: multiset(r.value.trips)[x] == if Dated(x) then multiset(rows)[x] else 0
    ensures r.Success? ==>
      forall i :: 0 <= i < |r.value.trips|
        ==> r.value.daysAbsent[i] == WholeDaysAbroad(r.value.trips[i].leave.value, r.value.trips[i].ret.value)
  {
    var dated := DropUndated(rows);
    DropUndatedEmpty(rows);
    if |rows| > 0 && dated == [] then
      Failure(NoDatedRows)
    else
      var sorted := SortLatestFirst(dated);
      PermutationKeepsDated(dated, sorted);
      LatestFirstByLeave(sorted);
      Success(Table(sorted, DaysAbsentColumn(sorted)))
  }

  /** When loading succeeds, normalising the rows changes none of the signals,
      and makes the presence check always answer. */
  lemma NormalisePreservesSignals(rows: seq<Trip>, appDate: Day)
    ensures Normalise(rows).Success? ==> EligibilitySignals(Normalise(rows).value.trips, appDate).Success?
    ensures Normalise(rows).Success? ==>
      forall w: Interval :: TotalAbsence(Normalise(rows).value.trips, w) == TotalAbsence(rows, w)
  {
    if Normalise(rows).Success? {
      var t := Normalise(rows).value.trips;
      PresenceOfDatedTrips(t, appDate - FiveYearDays);
      forall w: Interval
        ensures TotalAbsence(t, w) == TotalAbsence(rows, w)
      {
        TotalAbsenceDropUndated(rows, w);
        TotalAbsencePermutation(t, DropUndated(rows), w);
      }
    }
  }
}
