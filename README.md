# eon: date ranges and their calendar cycles, in Dafny

This project models the core of `eon`, a small Python module for working with
dates and date ranges (`eon/__init__.py`).

## What is modelled

**`DateRange`**
- A `DateRange` is a segment, ray or line on the time axis. Each bound is a
  `datetime.date`, a `datetime.datetime`, or absent (`None`, meaning
  unbounded).
- The model covers:
  - construction from two bounds, from a bound and a timedelta, or from
    another range;
  - the bound check `_validate` and the class cast `_cast`;
  - the `start`/`end` getters and setters;
  - containment of a point or of a range;
  - `intersection`, `span`, and the four comparisons;
  - `startat`, `endat` and `slide`.
- The class `DateRanges.DateRange` holds the five fields that the Python
  object updates in place: `_start`, `_end`, `_dateclass`, `_resolution` and
  `_nobounds`.
  - Its constructor and setters are methods proved against the functions of
    `Ranges`.
  - The read-only queries are those functions applied to the object's
    `State()`.

**Point generators** (`cycles`, `hours`, `days`, `pentads`, `months`,
`years`)
- Each has a setup, followed by the shared loop `while d in self: yield d;
  <advance>`.
- The setup is a function (`Generators.*Setup`). It yields the loop's first
  cursor and its advance, or the exception the setup raises.
- `Generators.Run` is the loop. The method `DateRanges.DateRange.Walk` runs
  that loop and is proved to produce exactly what `Run` describes.
- A Python generator is lazy and can be infinite. So each generator is
  modelled as its first `limit` pulls:
  - `Gen(items, stop)` is the result.
  - `stop` says how the last pull ended: the loop test failed
    (`Exhausted`), an exception was raised (`Raised(e)`), or the caller
    stopped pulling (`LimitReached`).

**`rcycle`**
- `rcycle` turns a generator of points into a generator of tiles. A tile is
  the sub-range from one point up to one resolution step before the next
  point.
- `Tiling.RCycle` is the function. The method `DateRanges.DateRange.RCycle`
  implements it with the source's loop.
- The model takes the inner generator as a `Gen` value: its points, and how
  the next pull ends.

**Calendar helpers**
- `date_to_dayofyear`, `dayofyear_to_date(time)`, `date_to_pentad`,
  `pentad_to_dayofyear`, `pentad_to_date(time)`, `pentad_to_daterange`,
  `bound_cyclic`/`bound_hour`/`bound_month`/`bound_pentad` and
  `month_to_daterange`.
- They rest on a proleptic Gregorian calendar with Python's day ordinals:
  `Calendar.Ordinal` is `toordinal`, and `Calendar.ToYmd` is `fromordinal`.

**`DateList`**
- The constructor and `intersection` with a `DateRange`.

### Python semantics assumed

The model assumes Python 3 up to 3.6:
- Division is true division. `int()` truncates toward zero, which matters
  for `bound_cyclic` on negative indices (`Cyclic.TruncDiv`).
- Comparing a `date` with a `datetime` raises TypeError.
- `raise StopIteration` inside a generator ends the generator.

How points are represented:
- A `date` is a day ordinal.
- A `datetime` is a count of microseconds from the midnight that starts
  ordinal 0.
- Timedeltas are microseconds.
- Adding a timedelta to a `date` moves it by the timedelta's whole days,
  rounded down (`Time.Add`).

### Where the code does not do what its comments say

The model follows the code in each of these cases:
- **`_cast`.** The comment at `eon/__init__.py:172-174` says the cast
  raises TypeError when converting a `datetime` to a `date`. The code at
  176-191 does the opposite. It drops the time of day from a `datetime` put
  into a date range (`d.date()`). It raises TypeError for a `date` put into
  a datetime range, because a `date` has no `.date()` (`Ranges.Cast`,
  `Ranges.CastTruncates`).
- **`intersection` of disjoint ranges.** The comment at line 348 says the
  result is `None` when the ranges do not overlap. The code returns the
  range between the crossed bounds, reordered by the constructor (see
  Findings).

Other behaviour of the code that the model keeps:
- **`slide` with an absent bound.** `slide` adds the timedelta to both
  bounds, so an absent bound gives `None + timedelta`, which raises
  TypeError (`Ranges.SlideOpenRaises`).
- **`DateList.intersection`.** It calls `other.contains(d)` for each
  element. A `DateList` argument fails with NameError, because
  `DateList.__contains__` uses the undefined names `date` and `datetimes`.
  Only a `DateRange` filter is modelled.
- **The first tests of `intersection`.** The code's
  `... and self.start is None` compares a bound method with `None`, so the
  test is always false. The remaining branches compute the same values,
  which is what `Ranges.Intersection` states.

## Model

| member | source | states |
|---|---|---|
| Time.LessEq | eon/__init__.py:114-118 | ordering two points fails with TypeError exactly when one is a date and the other a datetime; otherwise it is the order on their axis |
| Time.Add | eon/__init__.py:106-107 | adding a timedelta keeps the kind; a datetime moves by exactly the timedelta, a date by its floor in whole days |
| Time.MakeDateTime | eon/__init__.py:502 | `datetime(y, m, d)` succeeds exactly for a valid calendar date and is the midnight of that date's ordinal |
| Time.DateOf | eon/__init__.py:502 | the year, month and day of a point form a valid date whose ordinal is the point's day |
| Time.AddDiff | eon/__init__.py:502-512 | `b + (a - b) == a` for two points of one kind, so `dsnap + d_offset` rebuilds the starting point |
| Time.AddQuantum | eon/__init__.py:798 | adding one resolution step moves a point to the next tick of its own axis |
| Calendar.ToYmd | eon/__init__.py:502 | the calendar date of a day ordinal is the one valid date with that ordinal |
| Calendar.ToYmdOrdinal | eon/__init__.py:502 | `fromordinal(toordinal(x)) == x` for every valid date |
| Calendar.YearOf | eon/__init__.py:839 | the year CPython's cycle arithmetic finds for an ordinal really contains it |
| Calendar.YearUnique | eon/__init__.py:839 | only one year contains a given day ordinal |
| Calendar.YearOfDayOfYear | eon/__init__.py:842-843 | day `doy` of year `y`, for `doy` within the year, lies in year `y` |
| Cyclic.TruncDiv | eon/__init__.py:903-905 | `int(a / b)` truncates toward zero, unlike Euclidean division, for negative `a` |
| Cyclic.BoundCyclic | eon/__init__.py:899-905 | `bound_cyclic(i, period)` returns rolled-over periods and an index with `periods * period + index == i`; indices already in `[1, period]` are returned unchanged; the index lies in `[0, period]`, and it is 0 exactly for the multiples of the period above the period |
| Cyclic.BoundCyclicMultiple | eon/__init__.py:903 | concrete values: `bound_cyclic(24, 12) == (2, 0)`, `bound_cyclic(146, 73) == (2, 0)`, `bound_cyclic(13, 12) == (1, 1)`, `bound_cyclic(0, 12) == (-1, 12)` |
| Cyclic.BoundCyclicFixed | eon/__init__.py:899-905 | the evidently intended reduction: the same identity with the index always in `[1, period]` |
| Cyclic.ReductionUnique | eon/__init__.py:899-905 | two reductions onto `[1, period]` satisfying the identity are equal, so the intended reduction is unique |
| Cyclic.BoundCyclicAgrees | eon/__init__.py:899-905 | everywhere except the multiples of the period above it, the source's reduction is the intended one |
| Cyclic.BoundCyclicNeighbours | eon/__init__.py:594 | one step from an index in `[1, period]` wraps from the last index to the first of the next period and from the first back to the last of the previous one |
| Cyclic.BoundPentad | eon/__init__.py:916-921 | `bound_pentad` is `bound_cyclic(pentad, 73)`, with the year added to the rolled-over count when one is given |
| Cyclic.DateToDayOfYear | eon/__init__.py:834-839 | the day of year lies in `[1, days in that year]` and, added to the days before the year, gives the point's ordinal |
| Cyclic.DateToPentad | eon/__init__.py:850-864 | an integer day of year in `[1, 366]` maps into pentad `[1, 73]`; day 366 maps to pentad 73; any other day lies in the five days of its pentad |
| Cyclic.PointToPentad | eon/__init__.py:850-864 | the pentad of a date or datetime lies in `[1, 73]` |
| Cyclic.PentadToDayOfYear | eon/__init__.py:867-872 | fails with the plain exception exactly outside `[1, 73]`; otherwise returns the first day `(k - 1) * 5 + 1` |
| Cyclic.PentadRoundTrip | eon/__init__.py:850-872 | `date_to_pentad(pentad_to_dayofyear(k)) == k` for every pentad |
| Cyclic.PentadOfDay | eon/__init__.py:850-872 | a day's pentad starts on or before the day and less than five days before it, except that day 366 belongs to the pentad starting on day 361 |
| Cyclic.DayOfYearToDate | eon/__init__.py:842-843 | `dayofyear_to_date(y, doy)` is the date `doy - 1` days after January 1 of `y` |
| Cyclic.DayOfYearToDateTime | eon/__init__.py:846-847 | the same as a datetime at midnight |
| Cyclic.DayOfYearToDateInverse | eon/__init__.py:834-843 | for `doy` within year `y`, `dayofyear_to_date(y, doy)` lies in year `y` and `date_to_dayofyear` gives back `doy` |
| Cyclic.DayOfYearToDateTimeInverse | eon/__init__.py:834-847 | the same for `dayofyear_to_datetime`, which is the midnight starting that date |
| Cyclic.DateToDayOfYearInverse | eon/__init__.py:834-847 | conversely, the year and day of year of any point rebuild its day, as a date and as the midnight starting it |
| Cyclic.PentadToDate | eon/__init__.py:875-876 | fails exactly outside `[1, 73]` (no rollover); otherwise gives the pentad's first day |
| Cyclic.PentadToDateTime | eon/__init__.py:879-881 | fails exactly for the multiples of 73 above 73; on `[1, 73]` gives the midnight of the pentad's first day |
| Cyclic.PentadToDateTimeRolls | eon/__init__.py:879-881 | outside `[1, 73]`, except for the failing multiples, the index is rolled onto the neighbouring years as the intended reduction says |
| Cyclic.PentadReduction | eon/__init__.py:880 | `bound_pentad` without a year leaves `[1, 73]` unchanged and gives index 0 exactly for the multiples of 73 above 73 |
| Grid.CastTo | eon/__init__.py:181-187 | casting a datetime onto a range's class keeps its calendar day |
| Grid.DayStart | eon/__init__.py:502 | `_cast(datetime(d.year, d.month, d.day))` is the midnight of `d`'s day, of the range's class |
| Grid.PentadStartFields | eon/__init__.py:584-586 | the first day of pentad `p` of year `y` lies in `y`, is day `(p - 1) * 5 + 1` of it, and `date_to_pentad` maps it back to `p` |
| Grid.PentadToDateTimeInYear | eon/__init__.py:879-881 | `pentad_to_datetime` on `[1, 73]` stays in the same year |
| Grid.PentadNextIndex | eon/__init__.py:606-607 | the advance of `pentads` moves from the start of one pentad to the start of the next one in the direction of travel, across year ends |
| Grid.NextMonthStart | eon/__init__.py:681-682 | the first of the next month, found with `bound_month(m + 1)`, lies one month length after the first of month `m`; December rolls into January |
| Grid.MonthNextIndex | eon/__init__.py:681-682 | the advance of `months` from any point lands on the first of the month after that point's month in the direction of travel |
| Ranges.FromBounds | eon/__init__.py:113-139 | the end of construction keeps the two bounds in chronological order, infers the date class from whichever bound is present, and yields a valid range |
| Ranges.Finish | eon/__init__.py:113-118 | the reordering raises TypeError exactly when the two bounds are of different kinds |
| Ranges.Construct | eon/__init__.py:62-157 | every range the constructor builds is valid: its bounds are of its class and in order |
| Ranges.ConstructBounds | eon/__init__.py:97-118 | construction from two optional bounds fails exactly when they are of different kinds, and otherwise keeps both in chronological order |
| Ranges.ConstructOffset | eon/__init__.py:106-118 | a timedelta second argument gives the range between the bound and the bound plus the timedelta, reordered when the timedelta is negative |
| Ranges.ConstructOffsetUnbounded | eon/__init__.py:106-107 | a timedelta after an absent first bound raises TypeError |
| Ranges.ConstructCopy | eon/__init__.py:88-95 | copying a range keeps both of its bounds; giving a second argument with a copy raises ValueError |
| Ranges.Cast | eon/__init__.py:159-191 | `_cast` succeeds exactly when the point is an instance of the range's class (every datetime is a date); the result has the range's class and the point's day; an absent point or an unbounded class leaves the point as it is |
| Ranges.CastTruncates | eon/__init__.py:181-187 | a datetime cast onto a date range becomes the date of its day |
| Ranges.SetStart | eon/__init__.py:193-234 | the start setter keeps the range valid and never changes the end, the class or the resolution |
| Ranges.SetEnd | eon/__init__.py:236-278 | the end setter keeps the range valid and never changes the start, the class or the resolution |
| Ranges.SetStartGuard | eon/__init__.py:207-224 | a start of the range's class is set unless it passes the end, which raises ValueError |
| Ranges.SetEndGuard | eon/__init__.py:250-268 | an end of the range's class is set unless it precedes the start, which raises ValueError |
| Ranges.SetOnUnboundedFails | eon/__init__.py:216-228 | a range with no bounds cannot be given one by either setter |
| Ranges.ClearBounds | eon/__init__.py:210-257 | clearing a bound never fails, and clearing the last one raises `_nobounds` |
| Ranges.Contains | eon/__init__.py:301-311 | `p in self` is membership in the range (an absent bound does not constrain) whenever `p` can be compared with every present bound; otherwise it raises TypeError |
| Ranges.AllTimeContainsAll | eon/__init__.py:302-304 | a range with no bounds contains every date and datetime |
| Ranges.Within | eon/__init__.py:313-314 | `other in self` for a range of the same class raises exactly when `other` has an absent start, or has its start inside `self` and an absent end |
| Ranges.WithinMeansSubset | eon/__init__.py:313-314 | a range reported inside another has each of its points inside it |
| Ranges.SubsetMeansWithin | eon/__init__.py:313-314 | a finite range whose two bounds lie in `self` is reported inside it |
| Ranges.Max | eon/__init__.py:365 | `max` of two points of one kind is one of them and not before either; mixed kinds raise |
| Ranges.Min | eon/__init__.py:374 | `min` of two points of one kind is one of them and not after either; mixed kinds raise |
| Ranges.IntersectionSelf | eon/__init__.py:356-376 | intersecting a range with an equal one gives back its bounds |
| Ranges.IntersectionSymmetric | eon/__init__.py:356-376 | the intersection does not depend on the order of its arguments |
| Ranges.IntersectionOverlap | eon/__init__.py:356-376 | for overlapping ranges of one class, or where one of them has no bounds, the intersection holds exactly the points that lie in both |
| Ranges.IntersectionAllTime | eon/__init__.py:356-376 | intersecting with a range without bounds, on either side, gives back the other range's bounds |
| Ranges.IntersectionOfDisjoint | eon/__init__.py:347-376 | for the disjoint ranges [day 1, day 2] and [day 5, day 6], the intersection is [day 2, day 5], which holds day 3 although neither range does |
| Ranges.IntersectionOrNone | eon/__init__.py:347-348 | the documented intersection, for ranges of one class or where one has no bounds: `None` exactly when the ranges do not overlap; otherwise a valid range holding exactly the common points |
| Ranges.Span | eon/__init__.py:379-398 | the span exists exactly for a finite range, and is its inclusive length: one resolution step more than the distance between the bounds |
| Ranges.Trichotomy | eon/__init__.py:400-413 | a point of a finite range's class is before it, inside it or after it, and exactly one of these; `<=` and `>=` each add the inside to one side |
| Ranges.OpenSideRaises | eon/__init__.py:400-413 | ordering against an absent end (`<`, `<=`) or an absent start (`>`, `>=`) raises TypeError |
| Ranges.StartAtReorders | eon/__init__.py:429-431 | `startat(d)` never raises on a crossing bound: the new range runs from `d` to the end, reordered when `d` is after the end |
| Ranges.EndAtReorders | eon/__init__.py:433-435 | `endat(d)` likewise runs from the start to `d`, reordered when `d` is before the start |
| Ranges.StartAtEndAtSame | eon/__init__.py:429-435 | re-setting a finite range's own bounds with `startat` and `endat` rebuilds a range holding exactly its points |
| Ranges.SlideKeepsSpan | eon/__init__.py:438-439 | sliding a finite range moves both bounds by the timedelta and keeps the span |
| Ranges.SlideOpenRaises | eon/__init__.py:438-439 | sliding a range with an absent bound raises TypeError |
| DateRanges.DateRange.Blank | eon/__init__.py:85-86 | the object begins with both bounds absent |
| DateRanges.DateRange.Create | eon/__init__.py:62-140 | the constructor fails exactly when `Ranges.Construct` fails, with the same exception; otherwise the new object is valid and holds the state `Construct` describes |
| DateRanges.DateRange.SetStart | eon/__init__.py:193-234 | the start setter succeeds exactly when `Ranges.SetStart` does, and then leaves that state; on an error nothing changes; validity is kept |
| DateRanges.DateRange.SetEnd | eon/__init__.py:236-278 | the end setter, likewise against `Ranges.SetEnd` |
| DateRanges.DateRange.Walk | eon/__init__.py:463-465 | the loop of the generators, run step by step, yields exactly what `Generators.Run` describes |
| DateRanges.DateRange.Cycles | eon/__init__.py:447-465 | `cycles(dt)` yields its setup followed by its loop |
| DateRanges.DateRange.Hours | eon/__init__.py:468-484 | `hours` likewise, with `snap` ignored |
| DateRanges.DateRange.Days | eon/__init__.py:487-522 | `days` likewise |
| DateRanges.DateRange.Pentads | eon/__init__.py:529-608 | `pentads` likewise |
| DateRanges.DateRange.Months | eon/__init__.py:646-683 | `months`, as written, likewise |
| DateRanges.DateRange.Years | eon/__init__.py:689-719 | `years` likewise |
| DateRanges.DateRange.RCycle | eon/__init__.py:725-831 | the flag checks, the resolution and the first pulls, followed by the tiling loop, produce exactly the tiles described by `Tiling.RCycle` |
| DateRanges.DateRange.Tiles | eon/__init__.py:798-831 | the loop `while end in self` and the closing tile produce exactly `Tiling.Enter` |
| Generators.Run | eon/__init__.py:463-465 | the loop makes at most `limit` pulls, reaches the limit only by making them all, and yields only points inside the range |
| Generators.RunIterates | eon/__init__.py:463-465 | the loop yields the points of the successive cursors, and ends by itself only at a cursor whose point tests outside the range |
| Generators.RunEnds | eon/__init__.py:463-465 | one pass of the loop ends the generator in one of four ways: the test raises, the point is outside, the pulls run out, or the advance raises |
| Generators.Generate | eon/__init__.py:447-465 | a generator whose setup raises raises at its first pull, before yielding anything; otherwise it has the loop's bounds |
| Generators.ContainsMeansInRange | eon/__init__.py:301-311 | a point the range reports as inside lies in the range |
| Generators.YearStartCast | eon/__init__.py:704 | January 1 from `_cast(datetime(y, 1, 1))` is the midnight that starts year `y` |
| Walks.RunTrack | eon/__init__.py:463-465 | a loop whose advances follow a track yields the track's points in order, and stops only at a point that tests outside the range or cannot be compared |
| Walks.RunTrackExhausts | eon/__init__.py:463-465 | a loop that moves towards a present bound by at least one tick per step stops by itself once the pulls outnumber the ticks left |
| Walks.RunTrackForever | eon/__init__.py:463-465 | a loop whose every point lies in the range runs until the pulls run out |
| Walks.CyclesRaises | eon/__init__.py:447-461 | `cycles(dt)` raises ValueError before yielding anything exactly when `dt` is zero, or starts from an absent bound |
| Walks.CyclesPoints | eon/__init__.py:447-465 | `cycles(dt)` yields the starting bound moved `i` steps, as long as those points lie in the range; it never raises once started |
| Walks.CyclesCount | eon/__init__.py:447-465 | on a finite range, `cycles` with a step of at least one tick yields exactly `(end - start) / step + 1` points and then stops |
| Walks.HoursRaises | eon/__init__.py:468-482 | `hours` raises the plain exception when the end is absent, in either direction; going forward it raises TypeError at the first test when the start is absent |
| Walks.HoursAreCycles | eon/__init__.py:468-484 | once started, `hours` is `cycles` by one hour, forward or backward |
| Walks.HoursStallOnDates | eon/__init__.py:482-484 | on a range of dates, forward `hours` yields the start again and again and never stops by itself |
| Walks.DaysSetupOnTrack | eon/__init__.py:502-512 | the setup of `days` starts on the starting bound's day (or, with `snap`, the next day in the direction of travel when that midnight is outside), with its time of day or, with `snap`, at midnight |
| Walks.DaysRaises | eon/__init__.py:487-497 | `days` raises the plain exception before yielding anything exactly when it starts from an absent bound |
| Walks.DaysPoints | eon/__init__.py:487-522 | point `i` of `days` lies `i` days from the first day at the same time of day, as long as those points lie in the range; it never raises |
| Walks.DaysStartAtBound | eon/__init__.py:502-512 | without `snap`, `days` yields the starting bound first |
| Walks.DaysEnd | eon/__init__.py:514-522 | on a finite range, `days` stops by itself once the caller pulls enough |
| Walks.PentadsAscend | eon/__init__.py:606-607 | consecutive pentads start at least five days apart |
| Walks.PentadsSetupOnTrack | eon/__init__.py:584-597 | the setup of `pentads` starts on the pentad holding the starting bound (or, with `snap`, on the neighbouring pentad when that one starts outside), keeping the bound's offset from the pentad's start unless `snap` drops it |
| Walks.PentadsRaises | eon/__init__.py:573-580 | `pentads` raises ValueError before yielding anything exactly when it starts from an absent bound |
| Walks.PentadsPoints | eon/__init__.py:584-608 | point `i` of `pentads` is the offset after the start of the `i`-th pentad from the first, across year ends and leap days, as long as those points lie in the range; it never raises |
| Walks.PentadsSnapClean | eon/__init__.py:529-608 | with `snap`, `pentads` yields only clean pentads (the midnight of a pentad's first day) inside the range |
| Walks.PentadsEnd | eon/__init__.py:599-608 | on a finite range, `pentads` stops by itself once the caller pulls enough |
| Walks.MonthsAscend | eon/__init__.py:681-682 | consecutive months start at least 28 days apart |
| Walks.MonthsSetupOnTrack | eon/__init__.py:660-672 | the setup of `months` starts on the month of the starting bound (or, with `snap`, on the next month when its first is outside), with the bound's offset from the first of its month unless `snap` drops it |
| Walks.MonthsRaises | eon/__init__.py:648-658 | `months` raises ValueError before yielding anything exactly when it starts from an absent bound |
| Walks.MonthsPoints | eon/__init__.py:660-683 | with `snap`, or with the anchor tracked, point `i` of `months` is the offset after the first of the `i`-th month from the first, as long as those points lie in the range; it never raises |
| Walks.MonthsSnapAgree | eon/__init__.py:665-683 | with `snap`, `months` as written yields the same as with the anchor tracked |
| Walks.MonthsEnd | eon/__init__.py:674-683 | with the anchor tracked, or with `snap`, `months` stops by itself on a finite range once the caller pulls enough |
| Walks.PlainMonthStep | eon/__init__.py:681-683 | one step of `months` as written takes its next anchor from the month of the yielded point, not from the anchor |
| YearWalks.YearsRaises | eon/__init__.py:691-701 | `years` raises ValueError before yielding anything exactly when it starts from an absent bound |
| YearWalks.YearsSnapSetup | eon/__init__.py:703-706 | with `snap`, the loop starts on January 1 of the first year, which is the bound's year, or the next year in the direction of travel when that January 1 is outside |
| YearWalks.YearsSnapPoints | eon/__init__.py:703-716 | with `snap`, `years` yields January 1 of each year from the first in turn, as long as those lie in the range; it never raises |
| YearWalks.YearsSnapEnd | eon/__init__.py:712-716 | on a finite range, `years(snap=True)` stops by itself once the caller pulls enough |
| YearWalks.TimeOfDayRebuilds | eon/__init__.py:709-710 | a point equals its own date plus its own time of day, which lies within one day |
| YearWalks.YearsPlainSetup | eon/__init__.py:708-710 | without `snap`, the loop starts on the bound itself and keeps its month, day and time of day |
| YearWalks.YearPointCast | eon/__init__.py:718-719 | the next point is `_cast(datetime(y, month, day) + d_offset)` |
| YearWalks.YearWalkStep | eon/__init__.py:718-719 | one plain step gives the same month, day and time of day in the next year, or ValueError when that year has no such day |
| YearWalks.YearsPoints | eon/__init__.py:708-719 | without `snap`, from a bound that is not February 29, `years` yields the bound and then the same month, day and time of day in each following year, as long as those lie in the range; it never raises, and when it ends by itself the point of the next year lies outside the range |
| YearWalks.YearsEnd | eon/__init__.py:712-719 | on a finite range, plain `years` from a bound that is not February 29 stops by itself once the caller pulls enough |
| YearWalks.YearsLeapDayRaises | eon/__init__.py:708-719 | plain `years` from a February 29 inside the range yields it, then raises ValueError on the next pull |
| MonthsAsWritten.StuckSetup | eon/__init__.py:660-672 | reverse `months` on 2021-01-01..2021-03-31 starts on March 31 with the anchor March 1 and a 30-day offset |
| MonthsAsWritten.LaterStep | eon/__init__.py:681-683 | from March 3 the as-written step goes back to February 1 plus 30 days, which is March 3 again |
| MonthsAsWritten.MonthsReverseRepeats | eon/__init__.py:646-683 | reverse `months` as written on the first quarter of 2021 yields March 31, then March 3 on every later pull, and never stops by itself |
| Units.MonthToDateRange | eon/__init__.py:924-933 | `month_to_daterange` raises ValueError exactly for a month outside `[1, 12]`; otherwise it is the datetime range from the first of the month to one microsecond before the first of the next |
| Units.MonthBlock | eon/__init__.py:926-933 | the two bounds the source computes make exactly the block of the month's days |
| Units.MonthRangeSpan | eon/__init__.py:924-933 | a month range spans exactly the days of its month |
| Units.MonthRangeExact | eon/__init__.py:924-933 | a datetime lies in a month range exactly when it falls in that calendar month |
| Units.PentadRangeAt | eon/__init__.py:886-896 | once `bound_pentad` has reduced the index, an index in `[1, 73]` gives that pentad's block of days, and index 0 gives five days from the start of the previous year's pentad 73 |
| Units.PentadToDateRange | eon/__init__.py:884-896 | `pentad_to_daterange` never raises, whatever the index |
| Units.LastPentad | eon/__init__.py:890-892 | pentad 73 runs to one microsecond before the next January 1 |
| Units.FiveDays | eon/__init__.py:893-894 | the other pentads run five days less one microsecond |
| Units.PentadRangeBlock | eon/__init__.py:884-896 | wherever `bound_pentad` reduces onto `[1, 73]`, the range is the reduced pentad's block of days in the reduced year |
| Units.PentadRangeSpan | eon/__init__.py:884-896 | a pentad range spans five days, or six for pentad 73 of a leap year |
| Units.PentadBlockExact | eon/__init__.py:884-896 | a datetime lies in the block of pentad `p` of year `y` exactly when `date_to_pentad` puts it in that pentad of that year |
| Units.PentadRangeOfMultiple | eon/__init__.py:886-896 | `pentad_to_daterange(2019, 146)` gives five days from the start of pentad 73 of 2020, while that pentad has six days |
| Units.PentadToDateRangeFixedExact | eon/__init__.py:884-896 | with the intended reduction, every index, multiples of 73 included, names exactly the datetimes that `date_to_pentad` places in the reduced pentad of the reduced year |
| Units.PentadToDateRangeAgrees | eon/__init__.py:884-896 | where the source's reduction is right, the source and the corrected function give the same range |
| Tiling.TileSpan | eon/__init__.py:798-811 | a tile from one point to one step short of the next (forward or backward) holds exactly the instants from the first point up to but not including the next, so successive tiles neither overlap nor leave a gap |
| Tiling.LoopTile | eon/__init__.py:809-816 | the loop, started at anchor `j`, yields as its tile `k` the main tile `j + k`, from anchor `j + k` to one resolution step before anchor `j + k + 1`, ending inside the range |
| Tiling.EnterTile | eon/__init__.py:798-816 | the same from the first end test: a first end outside the range gives at most one partial tile |
| Tiling.RCycleTiles | eon/__init__.py:725-831 | every tile `rcycle` yields, except perhaps the last when partial tiles are allowed, runs from one anchor (the natural start when it precedes the first point, then the points) to one step before the next, inside the range |
| PentadTiles.PentadsSnapped | eon/__init__.py:584-608 | forward `pentads(snap=True)` on a datetime range yields the midnights starting the pentads `g0`, `g0 + 1`, ... in turn, all inside the range |
| PentadTiles.PentadPointsTile | eon/__init__.py:725-831 | `rcycle(snap=True, full=True)` forward over such points yields as tile `k` the range from the start of pentad `g0 + k` to one microsecond before the next pentad starts, inside the range |
| PentadTiles.PentadTile | eon/__init__.py:884-896 | those bounds are the bounds of the block of that pentad (`pentad_to_daterange`), pentad 73 running to the end of the year |
| PentadTiles.TileExact | eon/__init__.py:630 | a range with those bounds holds exactly the datetimes `date_to_pentad` places in that pentad of that year |
| PentadTiles.RPentadsTile | eon/__init__.py:611-642 | tile `k` of forward `rpentads(snap=True, full=True)` on a datetime range runs from the start of the `k`-th pentad after the first snapped one to one microsecond before the next, and both ends lie in the range |
| PentadTiles.RPentadsExact | eon/__init__.py:628-630 | each tile covers exactly one pentad: a datetime lies in tile `k` exactly when its year and pentad are those of pentad `g0 + k` |
| PentadTiles.RPentadsMeet | eon/__init__.py:633-635 | successive tiles neither overlap nor leave a gap: each starts one microsecond after the previous one ends |
| PentadTiles.PentadPointsMeet | eon/__init__.py:633-635 | the same for `rcycle` over any generator of such points |
| PentadTiles.PentadPointsExact | eon/__init__.py:628-630 | the same exact cover for `rcycle` over any generator of such points |
| Tiling.LoopErrors | eon/__init__.py:808-816 | the loop raises only TypeError or what the point generator raises |
| Tiling.EnterErrors | eon/__init__.py:798-831 | the same from the first end test, closing tile included |
| Tiling.RCycleErrors | eon/__init__.py:725-831 | every exception of `rcycle` is a ValueError for a non-boolean flag, an AttributeError for a range without a resolution, a TypeError, or the generator's own exception |
| Tiling.RCycleValueError | eon/__init__.py:748-753 | unless the generator itself raises ValueError, `rcycle` raises ValueError exactly when a flag is not a bool, and then before yielding anything |
| Tiling.RCycleAttributeError | eon/__init__.py:755-763 | with boolean flags, `rcycle` raises AttributeError exactly for a range built without bounds, and before yielding anything |
| Tiling.RCycleEmpty | eon/__init__.py:766-775 | an empty generator gives the whole range as one tile, or nothing when only full tiles are wanted |
| DateLists.PointsOf | eon/__init__.py:19-25 | the element check succeeds exactly when every element is a date, and then keeps every element in order; otherwise it raises the plain exception |
| DateLists.Build | eon/__init__.py:12-25 | a single datetime gives a list of one and a single date raises TypeError; an object without length raises TypeError; a collection is kept exactly when every element is a date |
| DateLists.KeptMembers | eon/__init__.py:56-57 | the filter fails (with TypeError) exactly when some point cannot be compared with the range, and otherwise keeps exactly the points that lie in the range |
| DateLists.KeptAppend | eon/__init__.py:56-57 | filtering a concatenation is concatenating the filtered parts, so the kept points stay in order |
| DateLists.DateList.Create | eon/__init__.py:12-25 | the constructor's loop fails exactly when `Build` fails, with the same exception, and otherwise keeps `Build`'s list in a fresh object |
| DateLists.DateList.Of | eon/__init__.py:25 | the list as the constructor keeps it |
| DateLists.DateList.Intersection | eon/__init__.py:56-57 | `intersection` with a range fails exactly when the filter does, and otherwise returns a fresh list of the kept points in order |

## Left out

- `print('hai')` in `rcycle`: output is not modelled.
- `__str__`, `__repr__` (both classes): string formatting is not modelled.
- `DateList.__getitem__`, `__iter__`, `__len__`, `__nonzero__`, `__contains__`, `contains`: these are pass-throughs or broken. `__getitem__` reads an undefined attribute `dates`. `__contains__` uses the undefined names `date` and `datetimes`.
- `DateList.intersection` with a `DateList` argument: it fails with NameError through `DateList.__contains__`, so only a `DateRange` filter is modelled.
- Aliasing: `DateList` keeps the very collection it is given (`self._dates = dates`). The model keeps the elements as a value.
- `other is self` in `__contains__` and `intersection`: identity is not modelled. An equal range gives the same answer (`Ranges.IntersectionSelf`).
- `__contains__` with an argument that is neither a date nor a range: the model's points are always dates or datetimes.
- `MINYEAR`/`MAXYEAR`: years are unbounded, so the OverflowError that `datetime` raises for a year outside 1 to 9999 is not modelled.
- `int(i / period)` is computed in floating point in the source. The model computes the exact truncated quotient, which differs only for indices beyond 2^53.
- Laziness: every generator is modelled as its first `limit` pulls. An infinite generator therefore appears as one that reached the limit.
- `rcycle` takes the inner generator as a finite list of points plus how the next pull ends. It does not model a generator whose later pulls depend on when they happen.
- `snap` in `hours` and in `rcycle`: it is accepted and has no effect, as in the source.
- `rdays`, `rmonths`, `ryears`: each is `rcycle` over the corresponding point generator. They are not modelled as separate members, because `Tiling.RCycle` takes any generator. `rpentads` is stated in `PentadTiles`.
- `reverse` that is neither True nor False in the point generators: the model's flags there are booleans. In `rcycle`, a non-boolean flag is modelled (`Tiling.Arg`).
- `bound_hour`: it is `bound_cyclic(hr, 24)` and is covered by `Cyclic.BoundCyclic`. No caller in the core uses it.
- Python's `datetime` internals: a date is its day ordinal and a datetime a count of microseconds. Time zones do not exist in the model.
- Walks.MonthsPoints: it states the points of `months` as written only with `snap`. Without `snap`, the as-written walk is described by `Walks.PlainMonthStep` and by the finding below.
- Tiling.RCycleTiles: the last tile, when partial tiles are allowed, is stated only as `Tiling.Closing` computes it. No lemma gives its span.
- PentadTiles.RPentadsTile: the exact pentad tiling is proved for forward `rpentads(snap=True, full=True)` on a datetime range. Without `snap` the tiles are offset from the pentad starts. In reverse, and for the partial tiles at either end, only `Tiling.RCycleTiles` applies. On a range of dates the tiles are whole days, which `Tiling.TileSpan` covers.
- Ranges.Construct: the arguments are always a date, a datetime, None, a timedelta or a range, and the same holds for `Ranges.Cast`, `Ranges.SetStart` and `Ranges.SetEnd`. So the TypeError that `DateRange(date1, date2)` raises for an argument of any other type (eon/__init__.py lines 79-80, 97-101 and 109-111), and that the setters raise through `_cast`'s bare `except` (lines 189-191), for example `DateRange(5)` or `r.start(0)`, is not modelled.
- `intersection` with an argument that is not a `DateRange`: the code falls past the `isinstance` test and returns `None`, although its comment promises TypeError. The model's arguments are always ranges.
- A `snap` argument that is neither True nor False in `days`, `pentads`, `months` and `years`: the code tests `snap is True`, so any other value acts as False. The model's `snap` there is a boolean.
- `<`, `>`, `<=`, `>=` with a `DateRange` argument: the model compares a range only with a point.
- YearWalks.YearsPoints: it excludes a starting bound on February 29. That case is `YearWalks.YearsLeapDayRaises`.

## Findings

| source | as written | input that shows it | evidently intended | confidence | as-written member | corrected member |
|---|---|---|---|---|---|---|
| eon/__init__.py:681-683 | `months` takes its next anchor from the month of the yielded point `d`, not from the anchor `dsnap`, while `d` carries the offset | `DateRange(date(2021,1,1), date(2021,3,31)).months(reverse=True)` yields March 31, then March 3 for ever | step the anchor month by month, as `pentads` steps `dsnap` | not executed | MonthsAsWritten.MonthsReverseRepeats | Walks.MonthsEnd |
| eon/__init__.py:903 | `bound_cyclic` returns index 0 for a multiple of the period above the period | `bound_cyclic(24, 12) == (2, 0)`; `pentad_to_daterange(2019, 146)` gives five days of pentad 73 of 2020, missing December 31, and `pentad_to_datetime(2019, 146)` raises | index in `[1, period]`: `(1, 12)` and `(1, 73)` | not executed | Units.PentadRangeOfMultiple | Units.PentadToDateRangeFixedExact |
| eon/__init__.py:347-376 | `intersection` of disjoint ranges builds a range from the later start to the earlier end, which the constructor reorders | day 1 to day 2 intersected with day 5 to day 6 gives day 2 to day 5 | `None` when the ranges do not overlap, as the comment at line 348 says | not executed | Ranges.IntersectionOfDisjoint | Ranges.IntersectionOrNone |
