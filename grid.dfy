/** The calendar grids the generators walk: pentads and months numbered
    consecutively across years, so that one step of a generator is one step
    of an integer index. */
module Grid {
  import opened Base
  import opened Calendar
  import opened Time
  import opened Cyclic

  /** Day ordinal of the first day of pentad `p` (in `[1, 73]`) of year `y`. */
  function PentadFirstDay(y: int, p: int): int {
    DaysBeforeYear(y) + (p - 1) * 5 + 1
  }

  /** Pentad 73 takes the rest of the year: 6 days in a leap year. */
  function PentadLength(y: int, p: int): int {
    if p == 73 then DaysInYear(y) - 360 else 5
  }

  /** Index `g` is pentad `g % 73 + 1` of year `g / 73`. */
  function PentadIndexStart(g: int): int {
    PentadFirstDay(g / 73, g % 73 + 1)
  }

  function PentadIndexOf(y: int, p: int): int {
    y * 73 + p - 1
  }

  lemma {:induction false} PentadIndexRoundTrip(y: int, p: int)
    requires 1 <= p <= 73
    ensures PentadIndexOf(y, p) / 73 == y && PentadIndexOf(y, p) % 73 == p - 1
    ensures PentadIndexStart(PentadIndexOf(y, p)) == PentadFirstDay(y, p)
  {
    DivUnique(PentadIndexOf(y, p), 73, y, p - 1);
  }

  /** Consecutive pentads are one pentad length apart. */
  lemma {:induction false} PentadIndexStep(g: int)
    ensures PentadIndexStart(g + 1) == PentadIndexStart(g) + PentadLength(g / 73, g % 73 + 1)
  {
    var y, r := g / 73, g % 73;
    DivMod(g, 73);
    if r < 72 {
      DivUnique(g + 1, 73, y, r + 1);
    } else {
      DivUnique(g + 1, 73, y + 1, 0);
      YearStep(y);
    }
  }

  /** The first day of a pentad is day `(p - 1) * 5 + 1` of its year, and
      `date_to_pentad` maps it back to `p`. */
  lemma {:induction false} PentadStartFields(k: Kind, y: int, p: int)
    requires 1 <= p <= 73
    ensures DateOf(Midnight(k, PentadFirstDay(y, p))).year == y
    ensures DateToDayOfYear(Midnight(k, PentadFirstDay(y, p))) == (p - 1) * 5 + 1
    ensures PointToPentad(Midnight(k, PentadFirstDay(y, p))) == p
  {
    var d := Midnight(k, PentadFirstDay(y, p));
    var yy := DateOf(d).year;
    var doy := DateToDayOfYear(d);
    YearOfUnique(DayOf(d), y);
    YearOfUnique(DayOf(d), yy);
    PentadRoundTrip(p);
  }

  lemma BoundCyclicFixedInRange(p: int, period: int)
    requires period >= 1 && 1 <= p <= period
    ensures BoundCyclicFixed(p, period) == (0, p)
  {
    BoundCyclicAgrees(p, period);
  }

  /** The year and pentad of the start of pentad index `g`. */
  lemma {:induction false} PentadIndexFields(k: Kind, g: int) returns (y: int, p: int)
    ensures y == g / 73 && p == g % 73 + 1 && 1 <= p <= 73
    ensures DateOf(Midnight(k, PentadIndexStart(g))).year == y
    ensures PointToPentad(Midnight(k, PentadIndexStart(g))) == p
  {
    y, p := g / 73, g % 73 + 1;
    PentadStartFields(k, y, p);
  }

  /** `pentad_to_datetime` on a pentad of `[1, 73]` does not roll the year. */
  lemma PentadToDateTimeInYear(y: int, p: int)
    requires 1 <= p <= 73
    ensures PentadToDateTime(y, p) == Ok(Midnight(DateTimeKind, PentadFirstDay(y, p)))
  {
    BoundCyclicFixedInRange(p, 73);
  }

  /** The pentad next to pentad `p`, with the year it rolls into. */
  lemma {:induction false} PentadNeighbour(p: int, dir: int)
    requires 1 <= p <= 73 && (dir == 1 || dir == -1)
    ensures 1 <= BoundPentad(p + dir, None).1 <= 73
    ensures BoundPentad(p + dir, None).0 * 73 + BoundPentad(p + dir, None).1 == p + dir
  {
    BoundCyclicNeighbours(p, 73);
  }

  /** Index `g` is month `g % 12 + 1` of year `g / 12`. */
  function MonthIndexStart(g: int): int {
    DivMod(g, 12);
    Ordinal(g / 12, g % 12 + 1, 1)
  }

  function MonthIndexOf(y: int, m: int): int {
    y * 12 + m - 1
  }

  lemma {:induction false} MonthIndexRoundTrip(y: int, m: int)
    requires 1 <= m <= 12
    ensures MonthIndexOf(y, m) / 12 == y && MonthIndexOf(y, m) % 12 == m - 1
    ensures MonthIndexStart(MonthIndexOf(y, m)) == Ordinal(y, m, 1)
  {
    DivUnique(MonthIndexOf(y, m), 12, y, m - 1);
  }

  /** The first of the next month is one month length later; December
      rolls into January of the next year. */
  lemma {:induction false} NextMonthStart(y: int, m: int)
    requires 1 <= m <= 12
    ensures ValidDate(y + BoundMonth(m + 1).0, BoundMonth(m + 1).1, 1)
    ensures Ordinal(y + BoundMonth(m + 1).0, BoundMonth(m + 1).1, 1) == Ordinal(y, m, 1) + DaysInMonth(y, m)
  {
    BoundCyclicNeighbours(m, 12);
    if m == 12 {
      YearStep(y);
    }
  }

  /** Consecutive month indices are one month length apart. */
  lemma {:induction false} MonthIndexStep(g: int)
    ensures g % 12 + 1 <= 12
    ensures MonthIndexStart(g + 1) == MonthIndexStart(g) + DaysInMonth(g / 12, g % 12 + 1)
  {
    DivMod(g, 12);
    assert g == MonthIndexOf(g / 12, g % 12 + 1);
    MonthIndexStepAt(g / 12, g % 12 + 1);
  }

  lemma MonthIndexStepAt(y: int, m: int)
    requires 1 <= m <= 12
    ensures MonthIndexStart(MonthIndexOf(y, m) + 1) == MonthIndexStart(MonthIndexOf(y, m)) + DaysInMonth(y, m)
  {
    MonthIndexRoundTrip(y, m);
    if m < 12 {
      MonthIndexRoundTrip(y, m + 1);
      assert MonthIndexOf(y, m + 1) == MonthIndexOf(y, m) + 1;
    } else {
      MonthIndexRoundTrip(y + 1, 1);
      assert MonthIndexOf(y + 1, 1) == MonthIndexOf(y, m) + 1;
      YearStep(y);
    }
  }

  /** The month index of the calendar month holding a point. */
  function MonthIndexOfPoint(p: TimePoint): int {
    MonthIndexOf(DateOf(p).year, DateOf(p).month)
  }

  /** The month next to month `m`, with the year it rolls into. */
  lemma {:induction false} MonthNeighbour(m: int, dir: int)
    requires 1 <= m <= 12 && (dir == 1 || dir == -1)
    ensures 1 <= BoundMonth(m + dir).1 <= 12
    ensures BoundMonth(m + dir).0 * 12 + BoundMonth(m + dir).1 == m + dir
  {
    BoundCyclicNeighbours(m, 12);
  }

  /** The first of a month lies in that month. */
  lemma {:induction false} MonthStartFields(k: Kind, g: int)
    ensures MonthIndexOfPoint(Midnight(k, MonthIndexStart(g))) == g
  {
    var y, m := g / 12, g % 12 + 1;
    DivMod(g, 12);
    ToYmdOrdinal(y, m, 1);
    DivUnique(g, 12, y, m - 1);
  }

  // ------------------------------------------------------------------
  // The anchor steps of the generators, as the source computes them
  // ------------------------------------------------------------------

  /** `_cast` of a datetime onto a range of class `k`: a date range keeps
      only its calendar day (see `Ranges.CastDateTime`). */
  function CastTo(k: Kind, p: TimePoint): (r: TimePoint)
    ensures KindOf(p) == DateTimeKind ==> KindOf(r) == k && DayOf(r) == DayOf(p)
  {
    match k
    case DateKind => Date(DayOf(p))
    case DateTimeKind => p
  }

  lemma CastMidnight(k: Kind, o: int)
    ensures CastTo(k, Midnight(DateTimeKind, o)) == Midnight(k, o)
  {
  }

  /** `self._cast(datetime.datetime(d.year, d.month, d.day))`. */
  function DayStart(k: Kind, d: TimePoint): (r: TimePoint)
    ensures r == Midnight(k, DayOf(d))
  {
    var ymd := DateOf(d);
    CastTo(k, MakeDateTime(ymd.year, ymd.month, ymd.day).value)
  }

  /** `self._cast(pentad_to_datetime(d.year, date_to_pentad(d)))`: the start
      of the pentad that holds `d`. */
  function PentadStart(k: Kind, d: TimePoint): (r: TimePoint)
    ensures KindOf(r) == k
  {
    PentadToDateTimeInYear(DateOf(d).year, PointToPentad(d));
    CastTo(k, PentadToDateTime(DateOf(d).year, PointToPentad(d)).value)
  }

  /** `bound_pentad(p + dir)` followed by
      `self._cast(pentad_to_datetime(y + dy, p'))`. */
  function PentadStep(k: Kind, y: int, p: int, dir: int): TimePoint
    requires 1 <= p <= 73 && (dir == 1 || dir == -1)
  {
    PentadNeighbour(p, dir);
    PentadLand(k, y, BoundPentad(p + dir, None))
  }

  /** `self._cast(pentad_to_datetime(y + r.0, r.1))` for an index `r.1` in `[1, 73]`. */
  function PentadLand(k: Kind, y: int, r: (int, int)): TimePoint
    requires 1 <= r.1 <= 73
  {
    PentadToDateTimeInYear(y + r.0, r.1);
    CastTo(k, PentadToDateTime(y + r.0, r.1).value)
  }

  /** One step of the anchor of `pentads`, from `dsnap.year` and
      `date_to_pentad(dsnap)`. */
  function PentadNext(k: Kind, dsnap: TimePoint, dir: int): TimePoint
    requires dir == 1 || dir == -1
  {
    PentadStep(k, DateOf(dsnap).year, PointToPentad(dsnap), dir)
  }

  /** `bound_month(m + dir)` followed by `self._cast(datetime.datetime(y + dy, m', 1))`. */
  function MonthStep(k: Kind, y: int, m: int, dir: int): TimePoint
    requires 1 <= m <= 12 && (dir == 1 || dir == -1)
  {
    MonthNeighbour(m, dir);
    MonthLand(k, y, BoundMonth(m + dir))
  }

  /** `self._cast(datetime.datetime(y + r.0, r.1, 1))` for a month `r.1` in `[1, 12]`. */
  function MonthLand(k: Kind, y: int, r: (int, int)): TimePoint
    requires 1 <= r.1 <= 12
  {
    CastTo(k, MakeDateTime(y + r.0, r.1, 1).value)
  }

  /** One step of the anchor of `months`, from `d.year` and `d.month`. */
  function MonthNext(k: Kind, d: TimePoint, dir: int): TimePoint
    requires dir == 1 || dir == -1
  {
    MonthStep(k, DateOf(d).year, DateOf(d).month, dir)
  }

  /** `self._cast(datetime.datetime(d.year, d.month, 1))`. */
  function MonthStart(k: Kind, d: TimePoint): (r: TimePoint)
    ensures KindOf(r) == k
  {
    CastTo(k, MakeDateTime(DateOf(d).year, DateOf(d).month, 1).value)
  }

  /** The pentad holding a point starts at the start of its pentad index. */
  lemma {:induction false} PentadStartIndex(k: Kind, d: TimePoint)
    ensures PentadStart(k, d) == Midnight(k, PentadIndexStart(PentadIndexOf(DateOf(d).year, PointToPentad(d))))
  {
    var y, p := DateOf(d).year, PointToPentad(d);
    PentadToDateTimeInYear(y, p);
    PentadIndexRoundTrip(y, p);
  }

  /** Stepping from the start of pentad index `g` reaches the start of index `g + dir`. */
  lemma {:induction false} PentadNextIndex(k: Kind, g: int, dir: int)
    requires dir == 1 || dir == -1
    ensures PentadNext(k, Midnight(k, PentadIndexStart(g)), dir) == Midnight(k, PentadIndexStart(g + dir))
  {
    var y, p := PentadIndexFields(k, g);
    DivMod(g, 73);
    assert PentadIndexOf(y, p) == g;
    PentadStepIndex(k, y, p, dir);
  }

  /** From pentad `p` of year `y`, the step lands on the neighbouring pentad index. */
  lemma {:induction false} PentadStepIndex(k: Kind, y: int, p: int, dir: int)
    requires 1 <= p <= 73 && (dir == 1 || dir == -1)
    ensures PentadStep(k, y, p, dir) == Midnight(k, PentadIndexStart(PentadIndexOf(y, p) + dir))
  {
    PentadNeighbour(p, dir);
    PentadLandIndex(k, y, p, dir, BoundPentad(p + dir, None));
  }

  /** Landing on the reduced pair `r` of `p + dir` is landing on index
      `PentadIndexOf(y, p) + dir`. */
  lemma PentadLandIndex(k: Kind, y: int, p: int, dir: int, r: (int, int))
    requires r.0 * 73 + r.1 == p + dir && 1 <= r.1 <= 73
    ensures PentadLand(k, y, r) == Midnight(k, PentadIndexStart(PentadIndexOf(y, p) + dir))
  {
    PentadLandAt(k, y, r);
    PentadIndexNeighbour(y, p, dir, r.0, r.1);
  }

  lemma PentadLandAt(k: Kind, y: int, r: (int, int))
    requires 1 <= r.1 <= 73
    ensures PentadLand(k, y, r) == Midnight(k, PentadFirstDay(y + r.0, r.1))
  {
    PentadToDateTimeInYear(y + r.0, r.1);
    CastMidnight(k, PentadFirstDay(y + r.0, r.1));
  }

  lemma PentadIndexNeighbour(y: int, p: int, dir: int, a: int, b: int)
    requires a * 73 + b == p + dir && 1 <= b <= 73
    ensures PentadIndexStart(PentadIndexOf(y, p) + dir) == PentadFirstDay(y + a, b)
  {
    PentadIndexRoundTrip(y + a, b);
    assert PentadIndexOf(y + a, b) == PentadIndexOf(y, p) + dir;
  }

  /** The first of the month holding a point is the start of its month index. */
  lemma {:induction false} MonthStartIndex(k: Kind, d: TimePoint)
    ensures MonthStart(k, d) == Midnight(k, MonthIndexStart(MonthIndexOfPoint(d)))
  {
    MonthIndexRoundTrip(DateOf(d).year, DateOf(d).month);
  }

  /** Stepping from any point reaches the first of the month `dir` months
      from the month of that point. */
  lemma {:induction false} MonthNextIndex(k: Kind, d: TimePoint, dir: int)
    requires dir == 1 || dir == -1
    ensures MonthNext(k, d, dir) == Midnight(k, MonthIndexStart(MonthIndexOfPoint(d) + dir))
  {
    var ymd := DateOf(d);
    MonthStepIndex(k, ymd.year, ymd.month, dir);
    assert MonthIndexOfPoint(d) == MonthIndexOf(ymd.year, ymd.month);
  }

  /** From month `m` of year `y`, the step lands on the neighbouring month index. */
  lemma {:induction false} MonthStepIndex(k: Kind, y: int, m: int, dir: int)
    requires 1 <= m <= 12 && (dir == 1 || dir == -1)
    ensures MonthStep(k, y, m, dir) == Midnight(k, MonthIndexStart(MonthIndexOf(y, m) + dir))
  {
    MonthNeighbour(m, dir);
    MonthLandIndex(k, y, m, dir, BoundMonth(m + dir));
  }

  /** Landing on the reduced pair `r` of `m + dir` is landing on index
      `MonthIndexOf(y, m) + dir`. */
  lemma MonthLandIndex(k: Kind, y: int, m: int, dir: int, r: (int, int))
    requires r.0 * 12 + r.1 == m + dir && 1 <= r.1 <= 12
    ensures MonthLand(k, y, r) == Midnight(k, MonthIndexStart(MonthIndexOf(y, m) + dir))
  {
    MonthLandAt(k, y, r);
    MonthIndexNeighbour(y, m, dir, r.0, r.1);
  }

  lemma MonthLandAt(k: Kind, y: int, r: (int, int))
    requires 1 <= r.1 <= 12
    ensures MonthLand(k, y, r) == Midnight(k, Ordinal(y + r.0, r.1, 1))
  {
    CastMidnight(k, Ordinal(y + r.0, r.1, 1));
  }

  lemma MonthIndexNeighbour(y: int, m: int, dir: int, a: int, b: int)
    requires a * 12 + b == m + dir && 1 <= b <= 12
    ensures MonthIndexStart(MonthIndexOf(y, m) + dir) == Ordinal(y + a, b, 1)
  {
    MonthIndexRoundTrip(y + a, b);
    assert MonthIndexOf(y + a, b) == MonthIndexOf(y, m) + dir;
  }
}
