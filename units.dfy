/** `month_to_daterange` and `pentad_to_daterange`: the datetime range that
    covers one calendar month or one pentad, ending one microsecond before
    the next unit starts. */
module Units {
  import opened Base
  import opened Calendar
  import opened Time
  import opened Cyclic
  import opened Grid
  import opened Ranges

  /** The datetime range from the midnight starting day `first` to one
      microsecond before the midnight starting day `first + days`. */
  function DayBlock(first: int, days: int): RangeState
    requires days >= 1
  {
    FromBounds(Some(DateTime(first * 86_400_000_000)), Some(DateTime((first + days) * 86_400_000_000 - 1)))
  }

  /** A block of `days` days spans that many days of microseconds. */
  lemma DayBlockSpan(first: int, days: int)
    requires days >= 1
    ensures Span(DayBlock(first, days)) == Some(days * 86_400_000_000)
  {
  }

  /** The constructor given the two bounds of a day block. */
  lemma BlockBounds(first: int, days: int)
    requires days >= 1
    ensures Construct(Bound(Some(DateTime(first * 86_400_000_000))), At(DateTime((first + days) * 86_400_000_000 - 1))) ==
            Ok(DayBlock(first, days))
  {
    ConstructBounds(Some(DateTime(first * 86_400_000_000)), Some(DateTime((first + days) * 86_400_000_000 - 1)));
  }

  /** `month_to_daterange(year, month)`. */
  function MonthToDateRange(year: int, month: int): (r: Result<RangeState>)
    ensures r.Err? <==> !(1 <= month <= 12)
    ensures r.Err? ==> r.error == ValueError
    ensures r.Ok? ==> r.value == DayBlock(Ordinal(year, month, 1), DaysInMonth(year, month))
  {
    match MakeDateTime(year, month, 1)
    case Err(e) => Err(e)
    case Ok(d1) =>
      assert 1 <= month <= 12;
      MonthBlock(year, month);
      var r := BoundMonth(month + 1);
      var n := MakeDateTime(year + r.0, r.1, 1).value;
      Construct(Bound(Some(d1)), At(Add(n, -1)))
  }

  /** The first of month `m` up to one microsecond before the first of the
      month after it is the block of the days of month `m`. */
  lemma MonthBlock(y: int, m: int)
    requires 1 <= m <= 12
    ensures MakeDateTime(y, m, 1).Ok?
    ensures MakeDateTime(y + BoundMonth(m + 1).0, BoundMonth(m + 1).1, 1).Ok?
    ensures Construct(Bound(Some(MakeDateTime(y, m, 1).value)),
                      At(Add(MakeDateTime(y + BoundMonth(m + 1).0, BoundMonth(m + 1).1, 1).value, -1))) ==
            Ok(DayBlock(Ordinal(y, m, 1), DaysInMonth(y, m)))
  {
    NextMonthStart(y, m);
    BlockBounds(Ordinal(y, m, 1), DaysInMonth(y, m));
  }

  /** A month range spans the days of that month. */
  lemma {:induction false} MonthRangeSpan(year: int, month: int)
    requires 1 <= month <= 12
    ensures MonthToDateRange(year, month).Ok?
    ensures Span(MonthToDateRange(year, month).value) == Some(DaysInMonth(year, month) * 86_400_000_000)
  {
  }

  /** A datetime lies in a month range exactly when it falls in that
      calendar month. */
  lemma MonthRangeExact(year: int, month: int, u: int)
    requires 1 <= month <= 12
    ensures MonthToDateRange(year, month).Ok?
    ensures InRange(MonthToDateRange(year, month).value, DateTime(u)) <==>
            DateOf(DateTime(u)).year == year && DateOf(DateTime(u)).month == month
  {
    DayBlockIn(Ordinal(year, month, 1), DaysInMonth(year, month), u);
    MonthDayExact(year, month, u / 86_400_000_000);
  }

  /** Day `n` lies in the days of month `m` of year `y` exactly when
      `fromordinal(n)` falls in that month. */
  lemma {:induction false} MonthDayExact(y: int, m: int, n: int)
    requires 1 <= m <= 12
    ensures Ordinal(y, m, 1) <= n < Ordinal(y, m, 1) + DaysInMonth(y, m) <==>
            ToYmd(n).year == y && ToYmd(n).month == m
  {
    var first := Ordinal(y, m, 1);
    if first <= n < first + DaysInMonth(y, m) {
      assert n == Ordinal(y, m, n - first + 1);
      ToYmdOrdinal(y, m, n - first + 1);
    }
    var r := ToYmd(n);
    if r.year == y && r.month == m {
      assert n == first + r.day - 1;
    }
  }

  /** `pentad_to_daterange(year, pentad)`: the pentad index is first rolled
      onto the year with `bound_pentad`. */
  function PentadToDateRange(year: int, pentad: int): (r: Result<RangeState>)
    ensures r.Ok?
  {
    PentadRangeAt(year, BoundPentad(pentad, None))
  }

  /** The rest of `pentad_to_daterange` once `bound_pentad` has given the
      rolled-over years `r.0` and the index `r.1` in `[0, 73]`. An index in
      `[1, 73]` gives that pentad's block of days; index 0 (which
      `bound_cyclic` returns for multiples of 73) gives the first five days
      of the last pentad of the year before. */
  function PentadRangeAt(year: int, r: (int, int)): (res: Result<RangeState>)
    requires 0 <= r.1 <= 73
    ensures 1 <= r.1 <= 73 ==> res == Ok(PentadBlock(year + r.0, r.1))
    ensures r.1 == 0 ==> res == Ok(DayBlock(PentadFirstDay(year + r.0 - 1, 73), 5))
  {
    var y, p := year + r.0, r.1;
    var d1 := PentadToDateTime(y, p).value;
    if p == 73 then
      LastPentad(y);
      var n := MakeDateTime(y + 1, 1, 1).value;
      Construct(Bound(Some(d1)), At(Add(n, -1)))
    else
      FiveDays(y, p);
      Construct(Bound(Some(d1)), At(Add(d1, 5 * 86_400_000_000 - 1)))
  }

  /** Pentad `p` of year `y` as a block of days: pentad 73 runs to the end
      of the year. */
  function PentadBlock(y: int, p: int): RangeState {
    DayBlock(PentadFirstDay(y, p), PentadLength(y, p))
  }

  /** Pentad 73 runs from its start to the first of January after it. */
  lemma LastPentad(y: int)
    ensures PentadToDateTime(y, 73).Ok? && MakeDateTime(y + 1, 1, 1).Ok?
    ensures Construct(Bound(Some(PentadToDateTime(y, 73).value)), At(Add(MakeDateTime(y + 1, 1, 1).value, -1))) ==
            Ok(PentadBlock(y, 73))
  {
    YearStep(y);
    assert Ordinal(y + 1, 1, 1) == PentadFirstDay(y, 73) + PentadLength(y, 73);
    BlockBounds(PentadFirstDay(y, 73), PentadLength(y, 73));
  }

  /** `pentad_to_datetime` rolls index 0 back onto pentad 73 of the year before. */
  lemma PentadZeroStart(y: int)
    ensures PentadToDateTime(y, 0) == Ok(DateTime(PentadFirstDay(y - 1, 73) * 86_400_000_000))
  {
    DivUnique(-1, 73, -1, 72);
    assert BoundCyclicFixed(0, 73) == (-1, 73);
    PentadToDateTimeRolls(y, 0);
  }

  /** The five-day range from the start that `pentad_to_datetime` gives index `p`. */
  lemma FiveDays(y: int, p: int)
    requires 0 <= p <= 72
    ensures PentadToDateTime(y, p).Ok?
    ensures var d1 := PentadToDateTime(y, p).value;
            Construct(Bound(Some(d1)), At(Add(d1, 5 * 86_400_000_000 - 1))) ==
            Ok(if p == 0 then DayBlock(PentadFirstDay(y - 1, 73), 5) else PentadBlock(y, p))
  {
    if p == 0 {
      PentadZeroStart(y);
      BlockBounds(PentadFirstDay(y - 1, 73), 5);
    } else {
      BlockBounds(PentadFirstDay(y, p), 5);
    }
  }

  /** Wherever `bound_pentad` reduces onto `[1, 73]` (every index but the
      positive multiples of 73 above 73), the range is that pentad's block
      of days: 6 days for pentad 73 of a leap year, 5 days otherwise. */
  lemma {:induction false} PentadRangeBlock(year: int, pentad: int)
    requires !(pentad > 73 && pentad % 73 == 0)
    ensures PentadToDateRange(year, pentad) ==
            Ok(PentadBlock(year + BoundCyclicFixed(pentad, 73).0, BoundCyclicFixed(pentad, 73).1))
  {
    var b := BoundPentad(pentad, None);
    PentadReduction(pentad, b);
    PentadReductionFixed(pentad, b);
    assert PentadToDateRange(year, pentad) == PentadRangeAt(year, b);
  }

  /** The span of a pentad range in the reduced range. */
  lemma {:induction false} PentadRangeSpan(year: int, pentad: int)
    requires 1 <= pentad <= 73
    ensures PentadToDateRange(year, pentad).Ok?
    ensures Span(PentadToDateRange(year, pentad).value) ==
            Some((if pentad == 73 && IsLeap(year) then 6 else 5) * 86_400_000_000)
  {
    var b := BoundPentad(pentad, None);
    PentadReduction(pentad, b);
    assert PentadToDateRange(year, pentad) == PentadRangeAt(year, b);
    DayBlockSpan(PentadFirstDay(year, pentad), PentadLength(year, pentad));
  }

  /** A datetime lies in the block of pentad `p` of year `y` exactly when
      `date_to_pentad` puts it in pentad `p` of year `y`. */
  lemma {:induction false} PentadBlockExact(y: int, p: int, u: int)
    requires 1 <= p <= 73
    ensures InRange(PentadBlock(y, p), DateTime(u)) <==>
            DateOf(DateTime(u)).year == y && PointToPentad(DateTime(u)) == p
  {
    DayBlockIn(PentadFirstDay(y, p), PentadLength(y, p), u);
    var n := u / 86_400_000_000;
    PentadDayExact(y, p, n);
    ToYmdYear(n);
    assert DateToDayOfYear(DateTime(u)) == n - DaysBeforeYear(YearOf(n));
  }

  /** Membership of a datetime in a block of days is membership of its day. */
  lemma DayBlockIn(first: int, days: int, u: int)
    requires days >= 1
    ensures InRange(DayBlock(first, days), DateTime(u)) <==> first <= u / 86_400_000_000 < first + days
  {
  }

  /** Day `n` lies in the block of pentad `p` of year `y` exactly when it
      lies in year `y` and that year's day of `n` lies in pentad `p`. */
  lemma {:induction false} PentadDayExact(y: int, p: int, n: int)
    requires 1 <= p <= 73
    ensures PentadFirstDay(y, p) <= n < PentadFirstDay(y, p) + PentadLength(y, p) <==>
            YearOf(n) == y && DateToPentad(n - DaysBeforeYear(y)) == p
  {
    var doy := n - DaysBeforeYear(y);
    if PentadFirstDay(y, p) <= n < PentadFirstDay(y, p) + PentadLength(y, p) {
      YearOfUnique(n, y);
    }
    if YearOf(n) == y && DateToPentad(doy) == p {
      PentadOfDay(doy);
    }
  }

  /** `pentad_to_daterange(y, 146)` ought to be pentad 73 of year `y + 1`;
      `bound_cyclic` gives index 0, which `pentad_to_datetime` rolls back onto
      day 361 of year `y + 1`, and the range then takes five days: in a leap
      year it misses the year's last day. */
  lemma PentadRangeOfMultiple()
    ensures PentadToDateRange(2019, 146) == Ok(DayBlock(PentadFirstDay(2020, 73), 5))
    ensures PentadBlock(2020, 73) == DayBlock(PentadFirstDay(2020, 73), 6)
  {
    BoundCyclicMultiple();
    assert IsLeap(2020);
  }

  /** The reduction `bound_cyclic` is meant to perform, applied to pentads:
      every index names one pentad of one year. */
  function PentadToDateRangeFixed(year: int, pentad: int): RangeState {
    PentadBlock(year + BoundCyclicFixed(pentad, 73).0, BoundCyclicFixed(pentad, 73).1)
  }

  /** Every index, multiples of 73 included, names exactly the datetimes of
      one pentad: those that `date_to_pentad` places in the reduced pentad
      of the reduced year. */
  lemma {:induction false} PentadToDateRangeFixedExact(year: int, pentad: int, u: int)
    ensures InRange(PentadToDateRangeFixed(year, pentad), DateTime(u)) <==>
            DateOf(DateTime(u)).year == year + BoundCyclicFixed(pentad, 73).0 &&
            PointToPentad(DateTime(u)) == BoundCyclicFixed(pentad, 73).1
  {
    var b := BoundCyclicFixed(pentad, 73);
    var y, p := year + b.0, b.1;
    assert PentadToDateRangeFixed(year, pentad) == PentadBlock(y, p);
    PentadBlockExact(y, p, u);
  }

  /** Where `bound_cyclic` reduces correctly the source and the fixed
      reduction give the same range. */
  lemma PentadToDateRangeAgrees(year: int, pentad: int)
    requires !(pentad > 73 && pentad % 73 == 0)
    ensures PentadToDateRange(year, pentad) == Ok(PentadToDateRangeFixed(year, pentad))
  {
    PentadRangeBlock(year, pentad);
  }
}
