/** The Form AN "whole days abroad" rule for one trip: neither the day of
    leaving nor the day of returning counts, only the days strictly between. */
module Absence {
  import opened Wrappers
  import opened Intervals

  /** The days strictly between leaving and returning. */
  ghost function AbroadDays(leave: Day, ret: Day): (s: set<Day>)
    ensures forall d :: d in s <==> leave < d < ret
  {
    Interval(leave + 1, ret - 1).Days()
  }

  /** Number of whole days abroad on a trip; a trip that returns on or before
      the day it leaves has none. */
  function WholeDaysAbroad(leave: Day, ret: Day): (r: nat)
    ensures r == |AbroadDays(leave, ret)|
    ensures ret <= leave ==> r == 0
  {
    DaysCardinality(Interval(leave + 1, ret - 1));
    if ret <= leave then 0 else Max(0, (ret - leave) - 1)
  }

  /** A trip of n days' span (return = leave + n) has n - 1 whole days abroad,
      and none when n <= 1. */
  lemma WholeDaysAbroadSpan(leave: Day, n: int)
    ensures WholeDaysAbroad(leave, leave + n) == if n <= 1 then 0 else n - 1
  {
  }

  /** The inclusive range of countable days of a trip, (leave+1)..(ret-1), or
      None when the trip has no whole day abroad. */
  function CountableInterval(leave: Day, ret: Day): (r: Option<Interval>)
    ensures r.None? <==> ret - leave <= 1
    ensures r.None? <==> WholeDaysAbroad(leave, ret) == 0
    ensures r.Some? ==> r.value.start == leave + 1 && r.value.end == ret - 1
    ensures r.Some? ==> r.value.Length() == WholeDaysAbroad(leave, ret)
    ensures forall d :: Covers(r, d) <==> leave < d < ret
  {
    var start := leave + 1;
    var end := ret - 1;
    if end < start then None else Some(Interval(start, end))
  }

  /** A trip leaving on day j and returning nine days later (1st to 10th of a
      month) has 8 whole days abroad, the 2nd to the 9th. */
  lemma TenDayTripExample(j: Day)
    ensures WholeDaysAbroad(j, j + 9) == 8
    ensures CountableInterval(j, j + 9) == Some(Interval(j + 1, j + 8))
  {
  }
}
