# Form AN whole-days-abroad absence calculator

A Dafny model of the absence calculator of a UK citizenship absence checker.
Under the Home Office Form AN guidance only whole days abroad count: neither
the day a person leaves nor the day they return. From a list of trips
(leaving date, return date, note) and a planned application date the
calculator derives three eligibility signals:

- the number of whole days abroad in the trailing 12-month window (at most 90 allowed),
- the number in the trailing 5-year window (at most 450 allowed),
- whether the person was in the UK on the day five years before the application.

Calendar dates are integer day ordinals (`Intervals.Day`, as Python's
`date.toordinal`), so moving a date by `k` days is adding `k`. A row of the
trips sheet is `Trips.Trip`, whose two dates are `Option<Day>`: `None` stands
for a cell the date parser could not read.

Modules, one per concern of `app.py`:

- `Wrappers`: `Option` and `Result`.
- `Intervals`: inclusive day ranges, their length, and `IntervalOverlap`.
- `Absence`: the one-trip rule, `WholeDaysAbroad` and `CountableInterval`.
- `Trips`: rows, a row's contribution to a window, the window total
  (`count_absences_in_window`) and its algebra.
- `Presence`: `is_in_uk_on_day`.
- `Eligibility`: the windows, thresholds and signals computed for an application date.
- `Loading`: what `load_trips_df` does to already-parsed rows. It drops rows
  with a missing date, sorts latest first and attaches `days_absent`.

Behaviour of `app.py` that the model keeps:

- The windows start a fixed 365 and 5 × 365 days before the application date
  (app.py:220-221), and the presence anchor is 5 × 365 days back (app.py:229).
  The code's own comments (app.py:218, 228) call this an approximation of
  calendar years. Both windows include their first day and the application
  date, so the 12-month window holds 366 days and the 5-year window 1826 days.
- `count_absences_in_window` skips rows whose dates are not dates
  (app.py:93-94).
- `is_in_uk_on_day` has no such guard (app.py:117-121). Comparing the day with
  a missing date raises a `TypeError` in Python. This is modelled as a
  `Failure` result that respects the chained comparison's short circuit: when
  `leave < d` is false, the return date is never looked at. On rows from a
  successful `Loading.Normalise`, which are all dated, this cannot happen
  (`Loading.NormalisePreservesSignals`).
- A sheet with data rows none of which has both dates fails to load: after
  `dropna` (app.py:169) the frame is empty, and attaching `days_absent`
  (app.py:175) raises a `ValueError`, which the caller reports as a load
  failure (app.py:212-216). `Loading.Normalise` returns `Failure` there.

## Model

| member | source | states |
|---|---|---|
| Absence.WholeDaysAbroad | app.py:58-61 | the result is the number of days strictly between leaving and returning, so it is never negative, and 0 when the return is on or before the leaving day |
| Absence.WholeDaysAbroadSpan | app.py:58-61 | a trip returning n days after it leaves has n - 1 whole days abroad, and 0 when n <= 1 (so 0 for adjacent days, 1 for a two-day span) |
| Absence.CountableInterval | app.py:64-74 | None exactly when return - leave <= 1, which is exactly when there is no whole day abroad; otherwise the range (leave+1)..(ret-1), whose length is the whole days abroad; a day is in the result iff it lies strictly between leave and return |
| Absence.TenDayTripExample | app.py:58-74 | leaving on the 1st and returning on the 10th gives 8 whole days abroad, the range 2nd..9th |
| Intervals.DaysCardinality | app.py:106 | the inclusive count end - start + 1 (0 for an empty range) is the number of days the range holds |
| Intervals.IntervalOverlap | app.py:77-82 | None iff the two ranges share no day; otherwise a non-empty range inside both whose days are exactly the days both ranges hold |
| Trips.Contribution | app.py:93-106 | a row with a missing date adds 0; a dated row adds the number of its whole days abroad inside the window, which is at most its whole days abroad and at most the window length, and equal to its whole days abroad when all of them lie inside the window |
| Trips.WindowClipExample | app.py:96-106 | a trip whose countable days are the 3rd..9th, clipped to a window of the 1st..5th, adds the 3 days 3rd..5th |
| Trips.CountAbsencesInWindow | app.py:85-107 | the loop over the rows returns the sum of every row's contribution to the window; this is at least the number of distinct days abroad in the window, and exactly that number when no two rows share a day abroad |
| Trips.TotalAbsenceAppend | app.py:89-107 | the total over two lists of rows concatenated is the sum of their totals |
| Trips.TotalAbsenceCons | app.py:89-107 | the total of a list is its first row's contribution plus the total of the rest |
| Trips.TotalAbsenceRemove | app.py:89-107 | removing one row lowers the total by exactly that row's contribution |
| Trips.TotalAbsencePermutation | app.py:89-107 | any reordering of the rows gives the same total |
| Trips.TotalAbsenceInsert | app.py:89-107 | adding a row at any position raises the total by that row's contribution, so the total never decreases |
| Trips.TotalAbsenceWindowMonotone | app.py:85-107 | a window contained in another never has a larger total |
| Trips.DropUndated | app.py:168-169 | the kept rows all have both dates, and each dated row is kept as many times as it occurs while every undated row is dropped |
| Trips.TotalAbsenceDropUndated | app.py:93-94 | dropping the rows with a missing date leaves every window total unchanged |
| Trips.DaysAbroadInMembers | app.py:96-106 | a day is among the window's days abroad iff it is in the window and strictly inside some dated row's trip |
| Trips.TotalAbsenceCountsDistinctDays | app.py:89-107 | the total is at least the number of distinct days abroad in the window; a day two rows share is counted once per row |
| Trips.DisjointTotalAbsence | app.py:89-107 | when no two rows share a day abroad, the total equals the number of distinct days abroad in the window |
| Trips.DuplicateTripCountedTwice | app.py:89-107 | a row listed twice is counted twice: overlapping trips are not de-duplicated |
| Presence.IsInUkOnDay | app.py:110-122 | true iff every row can be compared with the day and none has leave < d < return (so true for no rows); false iff some row has leave < d < return and every earlier row can be compared; rows that all have both dates always give an answer |
| Presence.PresenceOfDatedTrips | app.py:110-122 | on dated rows the check answers, and answers false exactly when the day lies in some trip's countable interval |
| Presence.PresencePermutation | app.py:117-122 | on dated rows the answer does not depend on the rows' order |
| Presence.PresenceMatchesDaysAbroad | app.py:110-122 | on dated rows and a day of a window, the answer is false exactly when the day is one of the window's days abroad |
| Eligibility.AbroadDayIsCounted | app.py:226-230 | if some trip is abroad on a day of a window, that window's total is at least 1 |
| Eligibility.EligibilitySignals | app.py:218-234 | both windows end on the application date and span 365 and 1825 days back; the anchor is the 5-year window's first day; the totals are the window totals; presence holds iff no row is abroad on the anchor; OK_12M iff the 12-month total <= 90 and OK_5Y iff the 5-year total <= 450; the 12-month total never exceeds the 5-year total; absence on the anchor day makes the 5-year total positive; no signals exactly when the presence check fails |
| Loading.Insert | app.py:172 | inserting a row into a latest-first list keeps it latest first and adds exactly that row |
| Loading.SortLatestFirst | app.py:171-172 | the result is a permutation of the rows, ordered by non-increasing leaving date, with rows that have no leaving date last |
| Loading.LatestFirstByLeave | app.py:172 | among dated rows, latest first means non-increasing leaving dates |
| Loading.PermutationKeepsDated | app.py:169-172 | reordering dated rows keeps them dated |
| Loading.DaysAbsentColumn | app.py:175 | one entry per row, each the row's whole days abroad |
| Loading.DropUndatedEmpty | app.py:169 | dropping the undated rows leaves none exactly when no row has both dates |
| Loading.Normalise | app.py:141-175 | fails exactly when there are data rows but none has both dates; no rows give an empty table; on success every remaining row has both dates, leaving dates are non-increasing, the rows are exactly the dated input rows with their multiplicities, and each row's days_absent is its whole days abroad |
| Loading.NormalisePreservesSignals | app.py:168-175 | when loading succeeds, the presence check on the normalised rows always answers, and every window total equals the total over the raw rows |

## Left out

- Streamlit rendering, metrics, tick marks and page text (app.py:183-266): presentation only.
- Google Sheets access, service-account credentials, `.env` loading and the environment configuration (app.py:9-22, 133-139, 194-216): network and I/O through foreign libraries.
- The 60-second `st.cache_data` memoisation of the loader (app.py:132): a runtime caching side effect.
- Date text parsing and formatting (`parse_iso_yyyy_mm_dd`, `parse_uk_dd_mm_yyyy`, `safe_parse_date`, `uk_fmt`; app.py:31-50, 125-126): library parsing whose acceptance rules are not visible. Parsed rows arrive as `Option<Day>` dates instead.
- Header lookup, column renaming, the missing-column `ValueError` and the note column's `fillna("")` (app.py:144-166): DataFrame plumbing before the dates exist.
- The default application date read from the clock or the environment (app.py:202-209): the application date is a parameter.
- Calendar arithmetic (leap days, month lengths): the code uses fixed day offsets, and ordinals suffice.
- Python's date range (years 1 to 9999) is not modelled. Days are unbounded integers, so `leave + 1 day` at the last representable date, and an application date less than 1825 days after the first one, do not raise the `OverflowError` Python would.
- Loading.SortLatestFirst: states only the latest-first order and the permutation. pandas' default sort is not stable, so the source fixes no order among rows with equal leaving dates. The model's insertion sort picks one such order.
