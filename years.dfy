/** What `years(reverse, snap)` yields. Unlike the other calendar
    generators it keeps no anchor: the snapped walk reads the year of the
    point itself, and the plain walk keeps the month, day and time of day of
    the first point. A track here is a walk over years whose second cursor
    field never changes. */
module YearWalks {
  import opened Base
  import opened Calendar
  import opened Time
  import opened Grid
  import opened Ranges
  import opened Generators
  import opened Walks

  // ------------------------------------------------------------------
  // With snap: January 1 of every year
  // ------------------------------------------------------------------

  /** The cursor of the snapped walk `n` years from year `y0`. */
  function SnapYearCursor(k: Kind, y0: int, dir: Dir, fixed: TimePoint, n: nat): Cursor {
    Cursor(YearStart(k, Along(y0, dir, n)), fixed)
  }

  /** January 1 of year `y` lies in year `y`. */
  lemma YearStartYear(k: Kind, y: int)
    ensures DateOf(YearStart(k, y)).year == y
  {
    YearOfDayOfYear(y, 1);
  }

  /** The snapped walk moves from January 1 of one year to January 1 of the
      next year in the direction of travel. */
  lemma YearSnapStep(k: Kind, dir: Dir, y: int, fixed: TimePoint)
    ensures Next(YearSnapWalk(k, dir), Cursor(YearStart(k, y), fixed)) == Ok(Cursor(YearStart(k, y + dir), fixed))
  {
    YearStartYear(k, y);
    YearSnapNext(k, dir, Cursor(YearStart(k, y), fixed), y);
  }

  lemma YearSnapNext(k: Kind, dir: Dir, c: Cursor, y: int)
    requires DateOf(c.d).year == y
    ensures Next(YearSnapWalk(k, dir), c) == Ok(Cursor(YearStart(k, y + dir), c.dsnap))
  {
  }

  lemma YearSnapTrack(k: Kind, y0: int, dir: Dir, fixed: TimePoint)
    ensures Tracks(Advance(YearSnapWalk(k, dir)), (n: nat) => SnapYearCursor(k, y0, dir, fixed, n))
  {
    forall n: nat
      ensures Advance(YearSnapWalk(k, dir))(SnapYearCursor(k, y0, dir, fixed, n)) == Ok(SnapYearCursor(k, y0, dir, fixed, n + 1))
    {
      assert Along(y0, dir, n + 1) == Along(y0, dir, n) + dir;
      YearSnapStep(k, dir, Along(y0, dir, n), fixed);
    }
  }

  /** January 1 of a year is at least one tick before January 1 of the next. */
  lemma YearStartsAscend(k: Kind, y: int)
    ensures Ticks(YearStart(k, y)) + 1 <= Ticks(YearStart(k, y + 1))
  {
    YearStep(y);
  }

  lemma YearSnapProgress(k: Kind, y0: int, dir: Dir, fixed: TimePoint)
    ensures Progresses((n: nat) => SnapYearCursor(k, y0, dir, fixed, n), dir == 1)
  {
    forall n: nat
      ensures if dir == 1 then Ticks(SnapYearCursor(k, y0, dir, fixed, n).d) + 1 <= Ticks(SnapYearCursor(k, y0, dir, fixed, n + 1).d)
              else Ticks(SnapYearCursor(k, y0, dir, fixed, n + 1).d) + 1 <= Ticks(SnapYearCursor(k, y0, dir, fixed, n).d)
    {
      var y := Along(y0, dir, n);
      if dir == 1 {
        assert Along(y0, dir, n + 1) == y + 1;
        YearStartsAscend(k, y);
      } else {
        assert Along(y0, dir, n + 1) + 1 == y;
        YearStartsAscend(k, y - 1);
      }
    }
  }

  /** The year of the first point of `years(reverse, snap=True)`: the year of
      the starting bound, or the next year in the direction of travel when
      January 1 of that year is outside the range. */
  function FirstYear(s: RangeState, reverse: bool): int
    requires Valid(s) && Origin(s, reverse, ValueError).Ok?
  {
    var y := DateOf(Origin(s, reverse, ValueError).value).year;
    if InRange(s, YearStart(s.dateClass.value, y)) then y else Along(y, Direction(reverse), 1)
  }

  /** The setup of the snapped walk starts on January 1 of the first year. */
  lemma YearsSnapSetup(s: RangeState, reverse: bool)
    requires Valid(s) && Origin(s, reverse, ValueError).Ok?
    ensures var st := YearsSetup(s, reverse, true);
            && st.Ok? && st.value.w == YearSnapWalk(s.dateClass.value, Direction(reverse))
            && st.value.c.d == YearStart(s.dateClass.value, FirstYear(s, reverse))
  {
    var y := DateOf(Origin(s, reverse, ValueError).value).year;
    YearsSnapSetupFrom(s, reverse, y, YearStart(s.dateClass.value, y));
  }

  lemma YearsSnapSetupFrom(s: RangeState, reverse: bool, y: int, a: TimePoint)
    requires Valid(s) && Origin(s, reverse, ValueError).Ok?
    requires y == DateOf(Origin(s, reverse, ValueError).value).year && a == YearStart(s.dateClass.value, y)
    ensures var b := if InRange(s, a) then a else YearStart(s.dateClass.value, y + Direction(reverse));
            && YearsSetup(s, reverse, true) == Ok(Setup(YearSnapWalk(s.dateClass.value, Direction(reverse)), Cursor(b, b)))
            && b == YearStart(s.dateClass.value, FirstYear(s, reverse))
  {
    YearStartYear(s.dateClass.value, y);
    YearsSnapSetupAt(s, reverse, y, a);
    SnapYearsSetupAt(s, Direction(reverse), y, a);
  }

  lemma YearsSnapSetupAt(s: RangeState, reverse: bool, y: int, a: TimePoint)
    requires Valid(s) && Origin(s, reverse, ValueError).Ok?
    requires DateOf(Origin(s, reverse, ValueError).value).year == y && a == YearStart(s.dateClass.value, y) && DateOf(a).year == y
    ensures YearsSetup(s, reverse, true) == SnapYearsSetup(s, Direction(reverse), a, y)
  {
  }

  lemma SnapYearsSetupAt(s: RangeState, dir: Dir, y: int, a: TimePoint)
    requires Valid(s) && s.dateClass.Some? && a == YearStart(s.dateClass.value, y)
    ensures var b := if InRange(s, a) then a else YearStart(s.dateClass.value, y + dir);
            SnapYearsSetup(s, dir, a, y) == Ok(Setup(YearSnapWalk(s.dateClass.value, dir), Cursor(b, b)))
  {
    assert Comparable(s, a);
  }

  /** `years(reverse, snap=True)` yields January 1 of every year from the
      first year in turn, for as long as those points lie in the range, and
      never raises once the setup has passed. */
  lemma YearsSnapPoints(s: RangeState, reverse: bool, limit: nat)
    requires Valid(s) && Origin(s, reverse, ValueError).Ok?
    ensures var g := Generate(s, YearsSetup(s, reverse, true), limit);
            var k, dir, y0 := s.dateClass.value, Direction(reverse), FirstYear(s, reverse);
            && (forall i :: 0 <= i < |g.items| ==> g.items[i] == YearStart(k, Along(y0, dir, i)))
            && !g.stop.Raised?
            && (g.stop == Exhausted ==> !InRange(s, YearStart(k, Along(y0, dir, |g.items|))))
  {
    var k, dir, y0 := s.dateClass.value, Direction(reverse), FirstYear(s, reverse);
    var setup := YearsSetup(s, reverse, true);
    YearsSnapSetup(s, reverse);
    var track := (n: nat) => SnapYearCursor(k, y0, dir, setup.value.c.dsnap, n);
    assert track(0) == setup.value.c;
    YearSnapTrack(k, y0, dir, setup.value.c.dsnap);
    GenerateTrack(s, setup, track, limit);
  }

  /** On a range with both bounds, `years(reverse, snap=True)` stops by
      itself once the caller pulls enough. */
  lemma YearsSnapEnd(s: RangeState, reverse: bool, limit: nat)
    requires Valid(s) && s.start.Some? && s.end.Some?
    requires limit > Ticks(s.end.value) - Ticks(s.start.value) + 1
    ensures Generate(s, YearsSetup(s, reverse, true), limit).stop == Exhausted
  {
    var k, dir, y0 := s.dateClass.value, Direction(reverse), FirstYear(s, reverse);
    var setup := YearsSetup(s, reverse, true);
    YearsSnapSetup(s, reverse);
    var track := (n: nat) => SnapYearCursor(k, y0, dir, setup.value.c.dsnap, n);
    assert track(0) == setup.value.c;
    YearSnapTrack(k, y0, dir, setup.value.c.dsnap);
    YearSnapProgress(k, y0, dir, setup.value.c.dsnap);
    RunTrackEnds(s, Advance(setup.value.w), track, dir == 1, limit);
    assert Run(s, Advance(setup.value.w), track(0), limit) == Generate(s, setup, limit);
  }

  // ------------------------------------------------------------------
  // Without snap: the month, day and time of day of the first point
  // ------------------------------------------------------------------

  /** The point `off` after the midnight that starts `y-m-dd`, as a point
      of kind `k`. */
  function YearPoint(k: Kind, y: int, m: int, dd: int, off: int): TimePoint
    requires ValidDate(y, m, dd)
  {
    Add(Midnight(k, Ordinal(y, m, dd)), off)
  }

  /** `YearPoint` is `self._cast(datetime.datetime(y, month, day) + d_offset)`. */
  lemma YearPointCast(k: Kind, y: int, m: int, dd: int, off: int)
    requires ValidDate(y, m, dd)
    ensures YearPoint(k, y, m, dd, off) == CastTo(k, Add(MakeDateTime(y, m, dd).value, off))
  {
    var o := Ordinal(y, m, dd);
    assert (o * 86_400_000_000 + off) / 86_400_000_000 == o + off / 86_400_000_000;
  }

  /** A month and day that every year has: any but February 29 (year 1 is
      not a leap year). */
  lemma EveryYear(m: int, dd: int, y: int)
    requires ValidDate(1, m, dd)
    ensures ValidDate(y, m, dd)
  {
  }

  /** The cursor of the plain walk `n` years from year `y0`. */
  function YearCursor(k: Kind, y0: int, dir: Dir, m: int, dd: int, off: int, fixed: TimePoint, n: nat): Cursor
    requires ValidDate(1, m, dd)
  {
    EveryYear(m, dd, Along(y0, dir, n));
    Cursor(YearPoint(k, Along(y0, dir, n), m, dd, off), fixed)
  }

  /** With a time of day as the offset, the point keeps its date. */
  lemma YearPointDate(k: Kind, y: int, m: int, dd: int, off: int)
    requires ValidDate(y, m, dd) && 0 <= off < 86_400_000_000
    ensures KindOf(YearPoint(k, y, m, dd, off)) == k
    ensures DayOf(YearPoint(k, y, m, dd, off)) == Ordinal(y, m, dd)
    ensures DateOf(YearPoint(k, y, m, dd, off)) == Ymd(y, m, dd)
  {
    ToYmdOrdinal(y, m, dd);
  }

  /** One step of the plain walk: the same month, day and time of day in
      the next year, or ValueError when that year has no such day. */
  lemma YearWalkStep(k: Kind, dir: Dir, m: int, dd: int, off: int, y: int, fixed: TimePoint)
    requires ValidDate(y, m, dd) && 0 <= off < 86_400_000_000
    ensures Next(YearWalk(k, dir, m, dd, off), Cursor(YearPoint(k, y, m, dd, off), fixed)) ==
            if ValidDate(y + dir, m, dd) then Ok(Cursor(YearPoint(k, y + dir, m, dd, off), fixed)) else Err(ValueError)
  {
    YearPointDate(k, y, m, dd, off);
    if ValidDate(y + dir, m, dd) {
      YearPointCast(k, y + dir, m, dd, off);
    }
  }

  lemma YearTrack(k: Kind, y0: int, dir: Dir, m: int, dd: int, off: int, fixed: TimePoint)
    requires ValidDate(1, m, dd) && 0 <= off < 86_400_000_000
    ensures Tracks(Advance(YearWalk(k, dir, m, dd, off)), (n: nat) => YearCursor(k, y0, dir, m, dd, off, fixed, n))
  {
    forall n: nat
      ensures Advance(YearWalk(k, dir, m, dd, off))(YearCursor(k, y0, dir, m, dd, off, fixed, n)) ==
              Ok(YearCursor(k, y0, dir, m, dd, off, fixed, n + 1))
    {
      YearCursorStep(k, y0, dir, m, dd, off, fixed, n);
    }
  }

  lemma YearCursorStep(k: Kind, y0: int, dir: Dir, m: int, dd: int, off: int, fixed: TimePoint, n: nat)
    requires ValidDate(1, m, dd) && 0 <= off < 86_400_000_000
    ensures Next(YearWalk(k, dir, m, dd, off), YearCursor(k, y0, dir, m, dd, off, fixed, n)) ==
            Ok(YearCursor(k, y0, dir, m, dd, off, fixed, n + 1))
  {
    var y := Along(y0, dir, n);
    assert Along(y0, dir, n + 1) == y + dir;
    EveryYear(m, dd, y);
    EveryYear(m, dd, y + dir);
    YearWalkStep(k, dir, m, dd, off, y, fixed);
  }

  /** The same date a year later is at least one tick later. */
  lemma YearPointsAscend(k: Kind, y: int, m: int, dd: int, off: int)
    requires ValidDate(1, m, dd) && 0 <= off < 86_400_000_000
    ensures ValidDate(y, m, dd) && ValidDate(y + 1, m, dd) &&
            Ticks(YearPoint(k, y, m, dd, off)) + 1 <= Ticks(YearPoint(k, y + 1, m, dd, off))
  {
    EveryYear(m, dd, y);
    EveryYear(m, dd, y + 1);
    YearPointDate(k, y, m, dd, off);
    YearPointDate(k, y + 1, m, dd, off);
    YearStep(y);
  }

  lemma YearProgress(k: Kind, y0: int, dir: Dir, m: int, dd: int, off: int, fixed: TimePoint)
    requires ValidDate(1, m, dd) && 0 <= off < 86_400_000_000
    ensures Progresses((n: nat) => YearCursor(k, y0, dir, m, dd, off, fixed, n), dir == 1)
  {
    forall n: nat
      ensures if dir == 1 then Ticks(YearCursor(k, y0, dir, m, dd, off, fixed, n).d) + 1 <= Ticks(YearCursor(k, y0, dir, m, dd, off, fixed, n + 1).d)
              else Ticks(YearCursor(k, y0, dir, m, dd, off, fixed, n + 1).d) + 1 <= Ticks(YearCursor(k, y0, dir, m, dd, off, fixed, n).d)
    {
      var y := Along(y0, dir, n);
      if dir == 1 {
        assert Along(y0, dir, n + 1) == y + 1;
        YearPointsAscend(k, y, m, dd, off);
      } else {
        assert Along(y0, dir, n + 1) + 1 == y;
        YearPointsAscend(k, y - 1, m, dd, off);
      }
    }
  }

  /** The time of day of `d`: `d - datetime(d.year, d.month, d.day)`. */
  function TimeOfDay(d: TimePoint): int {
    Diff(d, DayStart(KindOf(d), d))
  }

  /** A point is the point of its own date with its own time of day. */
  lemma TimeOfDayRebuilds(d: TimePoint)
    ensures 0 <= TimeOfDay(d) < 86_400_000_000
    ensures YearPoint(KindOf(d), DateOf(d).year, DateOf(d).month, DateOf(d).day, TimeOfDay(d)) == d
  {
    var ymd := DateOf(d);
    assert MakeDateTime(ymd.year, ymd.month, ymd.day).value == Midnight(DateTimeKind, DayOf(d));
  }

  /** The setup of the plain walk starts on the starting bound, keeping its
      month, day and time of day. */
  lemma YearsPlainSetup(s: RangeState, reverse: bool)
    requires Valid(s) && Origin(s, reverse, ValueError).Ok?
    ensures var d := Origin(s, reverse, ValueError).value;
            YearsSetup(s, reverse, false) ==
              Ok(Setup(YearWalk(s.dateClass.value, Direction(reverse), DateOf(d).month, DateOf(d).day, TimeOfDay(d)), Cursor(d, d)))
  {
  }

  /** `years(reverse, snap=False)` from a bound that is not February 29
      yields the same month, day and time of day in every year from the
      bound's year in turn, for as long as those points lie in the range,
      never raises once the setup has passed, and stops at the first year
      whose point falls outside the range. */
  lemma YearsPoints(s: RangeState, reverse: bool, limit: nat)
    requires Valid(s) && Origin(s, reverse, ValueError).Ok?
    requires var d := Origin(s, reverse, ValueError).value; ValidDate(1, DateOf(d).month, DateOf(d).day)
    ensures var g := Generate(s, YearsSetup(s, reverse, false), limit);
            var d := Origin(s, reverse, ValueError).value;
            var ymd := DateOf(d);
            var dir := Direction(reverse);
            && (forall i :: 0 <= i < |g.items| ==>
                  ValidDate(Along(ymd.year, dir, i), ymd.month, ymd.day) &&
                  g.items[i] == YearPoint(KindOf(d), Along(ymd.year, dir, i), ymd.month, ymd.day, TimeOfDay(d)))
            && (limit >= 1 && InRange(s, d) ==> |g.items| >= 1 && g.items[0] == d)
            && !g.stop.Raised?
            && (g.stop == Exhausted ==>
                  !InRange(s, YearPoint(KindOf(d), Along(ymd.year, dir, |g.items|), ymd.month, ymd.day, TimeOfDay(d))))
  {
    var d := Origin(s, reverse, ValueError).value;
    var ymd := DateOf(d);
    var k, dir, off := KindOf(d), Direction(reverse), TimeOfDay(d);
    var setup := YearsSetup(s, reverse, false);
    YearsPlainSetup(s, reverse);
    TimeOfDayRebuilds(d);
    var track := (n: nat) => YearCursor(k, ymd.year, dir, ymd.month, ymd.day, off, d, n);
    assert track(0) == setup.value.c;
    YearTrack(k, ymd.year, dir, ymd.month, ymd.day, off, d);
    GenerateTrack(s, setup, track, limit);
    var g := Generate(s, setup, limit);
    var y := Along(ymd.year, dir, |g.items|);
    EveryYear(ymd.month, ymd.day, y);
    YearPointDate(k, y, ymd.month, ymd.day, off);
    assert Comparable(s, track(|g.items|).d);
    if limit >= 1 && InRange(s, d) {
      RunEnds(s, Advance(setup.value.w), track(0), limit);
    }
  }

  /** On a range with both bounds, `years(reverse, snap=False)` from a bound
      that is not February 29 stops by itself once the caller pulls enough. */
  lemma YearsEnd(s: RangeState, reverse: bool, limit: nat)
    requires Valid(s) && s.start.Some? && s.end.Some?
    requires var d := Origin(s, reverse, ValueError).value; ValidDate(1, DateOf(d).month, DateOf(d).day)
    requires limit > Ticks(s.end.value) - Ticks(s.start.value) + 1
    ensures Generate(s, YearsSetup(s, reverse, false), limit).stop == Exhausted
  {
    var d := Origin(s, reverse, ValueError).value;
    var ymd := DateOf(d);
    var k, dir, off := KindOf(d), Direction(reverse), TimeOfDay(d);
    var setup := YearsSetup(s, reverse, false);
    YearsPlainSetup(s, reverse);
    TimeOfDayRebuilds(d);
    var track := (n: nat) => YearCursor(k, ymd.year, dir, ymd.month, ymd.day, off, d, n);
    assert track(0) == setup.value.c;
    YearTrack(k, ymd.year, dir, ymd.month, ymd.day, off, d);
    YearProgress(k, ymd.year, dir, ymd.month, ymd.day, off, d);
    forall n: nat
      ensures Comparable(s, track(n).d)
    {
      var y := Along(ymd.year, dir, n);
      EveryYear(ymd.month, ymd.day, y);
      YearPointDate(k, y, ymd.month, ymd.day, off);
    }
    RunTrackEnds(s, Advance(setup.value.w), track, dir == 1, limit);
    assert Run(s, Advance(setup.value.w), track(0), limit) == Generate(s, setup, limit);
  }

  /** The years next to a leap year are not leap years. */
  lemma LeapNeighbours(y: int, dir: Dir)
    requires IsLeap(y)
    ensures !IsLeap(y + dir)
  {
  }

  /** The walk from a February 29 fails on its first advance. */
  lemma LeapDayStep(k: Kind, dir: Dir, y: int, off: int, fixed: TimePoint)
    requires ValidDate(y, 2, 29) && 0 <= off < 86_400_000_000
    ensures Next(YearWalk(k, dir, 2, 29, off), Cursor(YearPoint(k, y, 2, 29, off), fixed)) == Err(ValueError)
  {
    LeapNeighbours(y, dir);
    YearWalkStep(k, dir, 2, 29, off, y, fixed);
  }

  /** `years(reverse, snap=False)` from a February 29 inside the range yields
      it, then raises ValueError on the next pull: the next year has no
      February 29. */
  lemma YearsLeapDayRaises(s: RangeState, reverse: bool, limit: nat)
    requires Valid(s) && Origin(s, reverse, ValueError).Ok?
    requires var d := Origin(s, reverse, ValueError).value; DateOf(d).month == 2 && DateOf(d).day == 29 && InRange(s, d)
    requires limit >= 2
    ensures Generate(s, YearsSetup(s, reverse, false), limit) == Gen([Origin(s, reverse, ValueError).value], Raised(ValueError))
  {
    var d := Origin(s, reverse, ValueError).value;
    var ymd := DateOf(d);
    var k, dir, off := KindOf(d), Direction(reverse), TimeOfDay(d);
    var w := YearWalk(k, dir, 2, 29, off);
    YearsPlainSetup(s, reverse);
    assert YearsSetup(s, reverse, false) == Ok(Setup(w, Cursor(d, d)));
    TimeOfDayRebuilds(d);
    assert ValidDate(ymd.year, 2, 29);
    LeapDayStep(k, dir, ymd.year, off, d);
    assert Advance(w)(Cursor(d, d)) == Err(ValueError);
    RunEnds(s, Advance(w), Cursor(d, d), limit);
  }

  /** `years(reverse, snap)` raises ValueError, before yielding anything,
      exactly when it starts from an absent bound. */
  lemma YearsRaises(s: RangeState, reverse: bool, snap: bool, limit: nat)
    requires Valid(s) && limit >= 1
    ensures Generate(s, YearsSetup(s, reverse, snap), limit) == Gen([], Raised(ValueError))
            <==> Origin(s, reverse, ValueError).Err?
  {
    if Origin(s, reverse, ValueError).Ok? {
      var setup := YearsSetup(s, reverse, snap);
      if snap {
        YearsSnapSetup(s, reverse);
      } else {
        YearsPlainSetup(s, reverse);
      }
      RunEnds(s, Advance(setup.value.w), setup.value.c, limit);
      var c := setup.value.c;
      if snap {
        assert Comparable(s, c.d);
      } else {
        assert c.d == Origin(s, reverse, ValueError).value;
      }
    }
  }
}
