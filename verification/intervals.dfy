/** Calendar days as integer ordinals, and inclusive ranges of them. */
module Intervals {
  import opened Wrappers

  /** A calendar day as a proleptic Gregorian ordinal (as `date.toordinal`):
      consecutive days differ by one, so shifting a date by k days adds k. */
  type Day = int

  /** A closed range of days, both ends included; it holds no day when end < start. */
  datatype Interval = Interval(start: Day, end: Day) {

    predicate Contains(d: Day) {
      start <= d <= end
    }

    /** Number of days in the range, counting both ends. */
    function Length(): nat {
      if end < start then 0 else end - start + 1
    }

    /** The days of the range, as a set. The Contains conjunct repeats the
        bounds so that the comprehension has a term to trigger on. */
    ghost function Days(): set<Day> {
      set d | start <= d <= end && Contains(d)
    }
  }

  /** True when an optional range is present and holds day d. */
  predicate Covers(o: Option<Interval>, d: Day) {
    o.Some? && o.value.Contains(d)
  }

  function Max(a: int, b: int): int { if a < b then b else a }

  function Min(a: int, b: int): int { if a < b then a else b }

  /** The length of a range is the number of days it holds. */
  lemma {:induction false} DaysCardinality(iv: Interval)
    ensures |iv.Days()| == iv.Length()
    decreases iv.end - iv.start
  {
    if iv.end < iv.start {
      assert iv.Days() == {};
    } else {
      var shorter := Interval(iv.start, iv.end - 1);
      DaysCardinality(shorter);
      assert iv.Days() == shorter.Days() + {iv.end};
    }
  }

  /** Intersection of two closed ranges; None when they share no day. */
  function IntervalOverlap(a: Interval, b: Interval): (r: Option<Interval>)
    ensures r.None? <==> forall d :: !(a.Contains(d) && b.Contains(d))
    ensures r.Some? ==> r.value.start <= r.value.end
    ensures r.Some? ==> a.start <= r.value.start && r.value.end <= a.end
    ensures r.Some? ==> b.start <= r.value.start && r.value.end <= b.end
    ensures forall d :: Covers(r, d) <==> a.Contains(d) && b.Contains(d)
  {
    var s := Max(a.start, b.start);
    var e := Min(a.end, b.end);
    if e < s then
      None
    else
      assert a.Contains(s) && b.Contains(s);
      Some(Interval(s, e))
  }
}
