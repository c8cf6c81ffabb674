/** The calendar helpers of `eon/__init__.py`: day of year, pentads (73 per
    year, the last taking the leap day) and the cyclic index reduction shared
    by hours, months and pentads. */
module Cyclic {
  import opened Base
  import opened Calendar
  import opened Time


  /** Python's `int(a / b)` for a positive divisor: the quotient truncated
      toward zero (Dafny's own `/` floors). */
  function TruncDiv(a: int, b: int): (q: int)
    requires b > 0
    ensures a >= 0 ==> q == a / b
    ensures a < 0 ==> q == -((-a) / b)
  {
    if a >= 0 then a / b else -((-a) / b)
  }

  function Abs(i: int): nat {
    if i < 0 then -i else i
  }

  /** `bound_cyclic(i, period)`: reduces index `i` onto `[1, period]` and
      counts the periods rolled over. Every caller passes a positive constant
      period. A positive multiple of the period beyond the period itself
      comes back with index 0 (see `BoundCyclicMultiple`). */
  function BoundCyclic(i: int, period: int): (r: (int, int))
    requires period >= 1
    ensures r.0 * period + r.1 == i
    ensures 1 <= i <= period ==> r == (0, i)
    ensures 0 <= r.1 <= period
    ensures r.1 == 0 <==> i > period && i % period == 0
  {
    DivMod(i, period);
    DivMod(-i, period);
    DivShift(-i, period);
    if 1 <= i <= period then (0, i)
    else if i > period then (TruncDiv(i, period), i % period)
    else (TruncDiv(i - period, period), period - (Abs(i) % period))
  }

  lemma DivMod(a: int, b: int)
    requires b >= 1
    ensures a == (a / b) * b + a % b && 0 <= a % b < b
  {
  }

  /** `k * b >= b` for positive `k` and `b`. */
  lemma {:induction false} MulAtLeast(k: int, b: int)
    requires k >= 1 && b >= 1
    ensures k * b >= b
    decreases k
  {
    if k > 1 {
      MulAtLeast(k - 1, b);
    }
  }

  /** Euclidean division is determined by the identity and the remainder bound. */
  lemma DivUnique(a: int, b: int, q: int, r: int)
    requires b >= 1 && a == q * b + r && 0 <= r < b
    ensures a / b == q && a % b == r
  {
    DivMod(a, b);
    var q', r' := a / b, a % b;
    if q < q' {
      MulAtLeast(q' - q, b);
    } else if q' < q {
      MulAtLeast(q - q', b);
    }
  }

  lemma DivShift(n: int, b: int)
    requires b >= 1
    ensures (n + b) / b == n / b + 1 && (n + b) % b == n % b
  {
    DivMod(n, b);
    DivUnique(n + b, b, n / b + 1, n % b);
  }

  lemma BoundCyclicMultiple()
    ensures BoundCyclic(24, 12) == (2, 0)
    ensures BoundCyclic(146, 73) == (2, 0)
    ensures BoundCyclic(13, 12) == (1, 1) && BoundCyclic(0, 12) == (-1, 12)
    ensures BoundCyclic(24, 24) == (0, 24)
  {
  }

  /** The reduction that keeps the index in `[1, period]` for every input. */
  function BoundCyclicFixed(i: int, period: int): (r: (int, int))
    requires period >= 1
    ensures r.0 * period + r.1 == i
    ensures 1 <= r.1 <= period
  {
    DivMod(i - 1, period);
    ((i - 1) / period, (i - 1) % period + 1)
  }

  /** Two reductions onto `[1, period]` with the same index identity agree. */
  lemma ReductionUnique(i: int, period: int, a: (int, int), b: (int, int))
    requires period >= 1
    requires a.0 * period + a.1 == i && 1 <= a.1 <= period
    requires b.0 * period + b.1 == i && 1 <= b.1 <= period
    ensures a == b
  {
    DivUnique(i - 1, period, a.0, a.1 - 1);
    DivUnique(i - 1, period, b.0, b.1 - 1);
  }

  /** Wherever the source's reduction yields an index in range, it is the
      fixed reduction; in particular on the whole window `[0, period + 1]`
      that the generators step through. */
  lemma BoundCyclicAgrees(i: int, period: int)
    requires period >= 1
    ensures !(i > period && i % period == 0) ==> BoundCyclic(i, period) == BoundCyclicFixed(i, period)
  {
    if !(i > period && i % period == 0) {
      ReductionUnique(i, period, BoundCyclic(i, period), BoundCyclicFixed(i, period));
    }
  }

  lemma BoundCyclicNeighbours(p: int, period: int)
    requires period >= 2 && 1 <= p <= period
    ensures BoundCyclic(p + 1, period) == (if p == period then (1, 1) else (0, p + 1))
    ensures BoundCyclic(p - 1, period) == (if p == 1 then (-1, period) else (0, p - 1))
  {
    if p == period {
      DivUnique(p + 1, period, 1, 1);
    }
    if p == 1 {
      DivUnique(period, period, 1, 0);
    }
  }

  function BoundHour(hr: int): (int, int) {
    BoundCyclic(hr, 24)
  }

  function BoundMonth(m: int): (int, int) {
    BoundCyclic(m, 12)
  }

  /** `bound_pentad(pentad, year)`: with a year, the rolled-over count is
      added to it. */
  function BoundPentad(pentad: int, year: Option<int>): (r: (int, int))
    ensures year.Some? ==> r == (BoundCyclic(pentad, 73).0 + year.value,
                                 BoundCyclic(pentad, 73).1)
    ensures year.None? ==> r == BoundCyclic(pentad, 73)
  {
    var r := BoundCyclic(pentad, 73);
    if year.Some? then (r.0 + year.value, r.1) else r
  }

  /** `date_to_dayofyear(d)`: the 1-based day of its year. */
  function DateToDayOfYear(p: TimePoint): (doy: int)
    ensures 1 <= doy <= DaysInYear(DateOf(p).year)
    ensures DaysBeforeYear(DateOf(p).year) + doy == DayOf(p)
  {
    var ymd := DateOf(p);
    DayOf(p) - Ordinal(ymd.year, 1, 1) + 1
  }

  /** `date_to_pentad` on an integer day of year. */
  function DateToPentad(doy: int): (k: int)
    ensures 1 <= doy <= 366 ==> 1 <= k <= 73
    ensures doy == 366 ==> k == 73
    ensures 1 <= doy <= 365 ==> (k - 1) * 5 < doy <= k * 5
  {
    var d := if doy == 366 then 365 else doy;
    TruncDiv(d - 1, 5) + 1
  }

  /** `date_to_pentad` on a date or datetime. */
  function PointToPentad(p: TimePoint): (k: int)
    ensures 1 <= k <= 73
  {
    DateToPentad(DateToDayOfYear(p))
  }

  /** `pentad_to_dayofyear`: the first day of pentad `k`. */
  function PentadToDayOfYear(k: int): (r: Result<int>)
    ensures r.Err? <==> !(1 <= k <= 73)
    ensures r.Err? ==> r.error == PlainException
    ensures r.Ok? ==> r.value == (k - 1) * 5 + 1
  {
    if k > 73 || k < 1 then Err(PlainException) else Ok((k - 1) * 5 + 1)
  }

  /** Every pentad starts on a day that lies in that pentad. */
  lemma {:induction false} PentadRoundTrip(k: int)
    requires 1 <= k <= 73
    ensures PentadToDayOfYear(k).Ok?
    ensures DateToPentad(PentadToDayOfYear(k).value) == k
  {
    var doy := (k - 1) * 5 + 1;
    assert TruncDiv(doy - 1, 5) == k - 1;
  }

  /** The pentad of a day starts on or before the day, fewer than five days
      earlier, except that day 366 belongs to pentad 73, which starts on day 361. */
  lemma {:induction false} PentadOfDay(doy: int)
    requires 1 <= doy <= 366
    ensures PentadToDayOfYear(DateToPentad(doy)).Ok?
    ensures var s := PentadToDayOfYear(DateToPentad(doy)).value;
            s <= doy && (doy < 366 ==> doy < s + 5) && (doy == 366 ==> s == 361)
  {
  }

  function DayOfYearToDate(year: int, doy: int): (r: TimePoint)
    ensures r == Date(DaysBeforeYear(year) + doy)
  {
    Date(Ordinal(year, 1, 1) + doy - 1)
  }

  function DayOfYearToDateTime(year: int, doy: int): (r: TimePoint)
    ensures r == DateTime((DaysBeforeYear(year) + doy) * 86_400_000_000)
  {
    DateTime((Ordinal(year, 1, 1) + doy - 1) * 86_400_000_000)
  }

  /** `dayofyear_to_date` lands in the requested year, on the requested day of it. */
  lemma {:induction false} DayOfYearToDateInverse(year: int, doy: int)
    requires 1 <= doy <= DaysInYear(year)
    ensures DateOf(DayOfYearToDate(year, doy)).year == year
    ensures DateToDayOfYear(DayOfYearToDate(year, doy)) == doy
  {
    YearOfDayOfYear(year, doy);
  }

  /** `dayofyear_to_datetime` lands at midnight of the requested day of the requested year. */
  lemma {:induction false} DayOfYearToDateTimeInverse(year: int, doy: int)
    requires 1 <= doy <= DaysInYear(year)
    ensures DateOf(DayOfYearToDateTime(year, doy)).year == year
    ensures DateToDayOfYear(DayOfYearToDateTime(year, doy)) == doy
    ensures DayOfYearToDateTime(year, doy) == Midnight(DateTimeKind, DayOf(DayOfYearToDate(year, doy)))
  {
    YearOfDayOfYear(year, doy);
  }

  /** Conversely, the year and day of year of a point rebuild the day it falls on. */
  lemma {:induction false} DateToDayOfYearInverse(p: TimePoint)
    ensures DayOfYearToDate(DateOf(p).year, DateToDayOfYear(p)) == Date(DayOf(p))
    ensures DayOfYearToDateTime(DateOf(p).year, DateToDayOfYear(p)) == Midnight(DateTimeKind, DayOf(p))
  {
  }

  /** `pentad_to_date`: no rollover, so the pentad must be in `[1, 73]`. */
  function PentadToDate(year: int, pentad: int): (r: Result<TimePoint>)
    ensures r.Err? <==> !(1 <= pentad <= 73)
    ensures r.Ok? ==> r.value == Date(DaysBeforeYear(year) + (pentad - 1) * 5 + 1)
  {
    match PentadToDayOfYear(pentad)
    case Err(e) => Err(e)
    case Ok(doy) => Ok(DayOfYearToDate(year, doy))
  }

  /** `pentad_to_datetime`: the pentad is first rolled onto the year. */
  function PentadToDateTime(year: int, pentad: int): (r: Result<TimePoint>)
    ensures r.Err? <==> pentad > 73 && pentad % 73 == 0
    ensures 1 <= pentad <= 73 ==> r == Ok(DateTime((DaysBeforeYear(year) + (pentad - 1) * 5 + 1) * 86_400_000_000))
  {
    var b := BoundPentad(pentad, None);
    PentadReduction(pentad, b);
    RolledPentadStart(year, b)
  }

  /** The rest of `pentad_to_datetime` once `bound_pentad` has given the
      rolled-over years `b.0` and the index `b.1`. */
  function RolledPentadStart(year: int, b: (int, int)): (r: Result<TimePoint>)
    ensures r.Err? <==> !(1 <= b.1 <= 73)
    ensures r.Ok? ==> r.value == DateTime((DaysBeforeYear(year + b.0) + (b.1 - 1) * 5 + 1) * 86_400_000_000)
  {
    match PentadToDayOfYear(b.1)
    case Err(e) => Err(e)
    case Ok(doy) => Ok(DayOfYearToDateTime(year + b.0, doy))
  }

  /** Out of `[1, 73]`, `pentad_to_datetime` rolls the index onto the
      neighbouring years. */
  lemma PentadToDateTimeRolls(year: int, pentad: int)
    requires !(pentad > 73 && pentad % 73 == 0)
    ensures PentadToDateTime(year, pentad) == RolledPentadStart(year, BoundCyclicFixed(pentad, 73))
  {
    var b := BoundPentad(pentad, None);
    PentadReduction(pentad, b);
    PentadReductionFixed(pentad, b);
  }

  /** What `pentad_to_datetime` needs of `bound_pentad` without a year. */
  lemma PentadReduction(pentad: int, b: (int, int))
    requires b == BoundPentad(pentad, None)
    ensures 0 <= b.1 <= 73
    ensures b.1 == 0 <==> pentad > 73 && pentad % 73 == 0
    ensures 1 <= pentad <= 73 ==> b == (0, pentad)
  {
  }

  lemma PentadReductionFixed(pentad: int, b: (int, int))
    requires b == BoundPentad(pentad, None) && b.1 != 0
    ensures b == BoundCyclicFixed(pentad, 73)
  {
    BoundCyclicAgrees(pentad, 73);
  }
}
