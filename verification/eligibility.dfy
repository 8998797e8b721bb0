/** The eligibility signals derived from the trips and a planned application
    date: absence totals over the trailing 12-month and 5-year windows, and
    presence on the day five years before. */
module Eligibility {
  import opened Wrappers
  import opened Intervals
  import opened Trips
  import opened Presence

  /** The windows go back a fixed number of days, not calendar years. */
  const TwelveMonthDays: int := 365
  const FiveYearDays: int := 5 * 365

  /** Most whole days abroad allowed in each window. */
  const TwelveMonthLimit: int := 90
  const FiveYearLimit: int := 450

  datatype Signals = Signals(
    twelveMonths: Interval,
    fiveYears: Interval,
    absences12m: nat,
    absences5y: nat,
    anchor: Day,
    presentOnAnchor: bool,
    ok12m: bool,
    ok5y: bool)

  /** A day abroad on some trip inside a window makes the window total positive. */
  lemma AbroadDayIsCounted(trips: seq<Trip>, window: Interval, d: Day)
    requires window.Contains(d)
    ensures (exists i :: 0 <= i < |trips| && AbroadOn(trips[i], d)) ==> TotalAbsence(trips, window) >= 1
  {
    if exists i :: 0 <= i < |trips| && AbroadOn(trips[i], d) {
      var i :| 0 <= i < |trips| && AbroadOn(trips[i], d);
      assert d in TripDays(trips[i]);
      DaysAbroadInMembers(trips, window, d);
      TotalAbsenceCountsDistinctDays(trips, window);
    }
  }

  /** The signals shown for an application date. The presence check raises on
      a row with a missing date, and then no signals are produced. */
  function EligibilitySignals(trips: seq<Trip>, appDate: Day): (r: Result<Signals, PresenceError>)
    ensures r.Success? <==> IsInUkOnDay(trips, appDate - FiveYearDays).Success?
    ensures r.Success? ==>
      && r.value.twelveMonths.end == appDate
      && r.value.fiveYears.end == appDate
      && r.value.twelveMonths.Length() == TwelveMonthDays + 1
      && r.value.fiveYears.Length() == FiveYearDays + 1
      && r.value.anchor == r.value.fiveYears.start
    ensures r.Success? ==>
      && r.value.absences12m == TotalAbsence(trips, r.value.twelveMonths)
      && r.value.absences5y == TotalAbsence(trips, r.value.fiveYears)
    ensures r.Success? ==>
      (r.value.presentOnAnchor <==> forall i :: 0 <= i < |trips| ==> !AbroadOn(trips[i], r.value.anchor))
    ensures r.Success? ==> (r.value.ok12m <==> r.value.absences12m <= TwelveMonthLimit)
    ensures r.Success? ==> (r.value.ok5y <==> r.value.absences5y <= FiveYearLimit)
    ensures r.Success? ==> r.value.absences12m <= r.value.absences5y
    ensures r.Success? && !r.value.presentOnAnchor ==> r.value.absences5y >= 1
  {
    var windowEnd := appDate;
    var twelveMonths := Interval(appDate - TwelveMonthDays, windowEnd);
    var fiveYears := Interval(appDate - FiveYearDays, windowEnd);
    var abs12m := TotalAbsence(trips, twelveMonths);
    var abs5y := TotalAbsence(trips, fiveYears);
    var anchor := appDate - FiveYearDays;
    TotalAbsenceWindowMonotone(trips, twelveMonths, fiveYears);
    AbroadDayIsCounted(trips, fiveYears, anchor);
    match IsInUkOnDay(trips, anchor)
    case Failure(e) => Failure(e)
    case Success(present) =>
      Success(Signals(twelveMonths, fiveYears, abs12m, abs5y, anchor, present,
                      abs12m <= TwelveMonthLimit, abs5y <= FiveYearLimit))
  }
}
