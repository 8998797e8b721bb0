/** The presence check (is_in_uk_on_day): a person is abroad on a day exactly
    when some trip left before it and returned after it. */
module Presence {
  import opened Wrappers
  import opened Intervals
  import opened Absence
  import opened Trips

  /** The check compared the day with a date that is missing, which raises
      a TypeError in the source (it has no guard for unparsed rows). */
  datatype PresenceError = MissingDateCompared

  /** The row's trip has day d strictly between its leaving and return dates. */
  predicate AbroadOn(t: Trip, d: Day) {
    Dated(t) && t.leave.value < d < t.ret.value
  }

  /** Evaluating `leave < d < ret` on this row raises no error: the leaving
      date is present, and the return date is present whenever the chained
      comparison goes on to look at it (that is, when leave < d). */
  predicate Comparable(t: Trip, d: Day) {
    t.leave.Some? && (t.leave.value < d ==> t.ret.Some?)
  }

  /** Scans the rows in order and answers false at the first row abroad on
      day d, true when no row is. */
  function IsInUkOnDay(trips: seq<Trip>, d: Day): (r: Result<bool, PresenceError>)
    ensures trips == [] ==> r == Success(true)
    ensures r == Success(true)
            <==> forall i :: 0 <= i < |trips| ==> Comparable(trips[i], d) && !AbroadOn(trips[i], d)
    ensures r == Success(false)
            <==> exists i :: 0 <= i < |trips| && AbroadOn(trips[i], d)
                             && forall j :: 0 <= j < i ==> Comparable(trips[j], d)
    ensures (forall i :: 0 <= i < |trips| ==> Dated(trips[i])) ==> r.Success?
    decreases |trips|
  {
    if |trips| == 0 then Success(true)
    else
      var t := trips[0];
      match t.leave
      case None => Failure(MissingDateCompared)
      case Some(leave) =>
        if !(leave < d) then IsInUkOnDay(trips[1..], d)
        else
          match t.ret
          case None => Failure(MissingDateCompared)
          case Some(ret) =>
            if d < ret then Success(false) else IsInUkOnDay(trips[1..], d)
  }

  /** For rows whose dates all parsed the check always answers, and it answers
      false exactly when d lies in some trip's countable interval. */
  lemma PresenceOfDatedTrips(trips: seq<Trip>, d: Day)
    requires forall i :: 0 <= i < |trips| ==> Dated(trips[i])
    ensures IsInUkOnDay(trips, d).Success?
    ensures IsInUkOnDay(trips, d) == Success(false)
            <==> exists i :: 0 <= i < |trips|
                             && Covers(CountableInterval(trips[i].leave.value, trips[i].ret.value), d)
  {
    if exists i :: 0 <= i < |trips| && Covers(CountableInterval(trips[i].leave.value, trips[i].ret.value), d) {
      var i :| 0 <= i < |trips| && Covers(CountableInterval(trips[i].leave.value, trips[i].ret.value), d);
      assert AbroadOn(trips[i], d);
    }
  }

  /** For dated rows the answer does not depend on their order. */
  lemma PresencePermutation(a: seq<Trip>, b: seq<Trip>, d: Day)
    requires forall i :: 0 <= i < |a| ==> Dated(a[i])
    requires multiset(a) == multiset(b)
    ensures IsInUkOnDay(a, d) == IsInUkOnDay(b, d)
  {
    forall i | 0 <= i < |b|
      ensures Dated(b[i])
    {
      assert b[i] in multiset(a);
    }
    if IsInUkOnDay(a, d) == Success(false) {
      var i :| 0 <= i < |a| && AbroadOn(a[i], d);
      assert a[i] in multiset(b);
      var j :| 0 <= j < |b| && b[j] == a[i];
      assert AbroadOn(b[j], d);
    }
    if IsInUkOnDay(b, d) == Success(false) {
      var j :| 0 <= j < |b| && AbroadOn(b[j], d);
      assert b[j] in multiset(a);
    }
  }

  /** For dated rows, being abroad on a day of a window is the same as that day
      being one of the window's days abroad counted by the window total. */
  lemma PresenceMatchesDaysAbroad(trips: seq<Trip>, window: Interval, d: Day)
    requires forall i :: 0 <= i < |trips| ==> Dated(trips[i])
    requires window.Contains(d)
    ensures IsInUkOnDay(trips, d) == Success(d !in DaysAbroadIn(trips, window))
  {
    DaysAbroadInMembers(trips, window, d);
    if d in DaysAbroadIn(trips, window) {
      var i :| 0 <= i < |trips| && d in TripDays(trips[i]);
      assert AbroadOn(trips[i], d);
    }
  }
}
