/** The proleptic Gregorian calendar on day ordinals, numbered as Python's
    `date.toordinal()` numbers them (0001-01-01 is day 1). The ordinal is used
    for every year, not only for years 1 to 9999. */
module Calendar {

  predicate IsLeap(y: int) {
    y % 4 == 0 && (y % 100 != 0 || y % 400 == 0)
  }

  function DaysInYear(y: int): int {
    if IsLeap(y) then 366 else 365
  }

  /** Days in all years before year `y` (counted from year 1; negative before it). */
  function DaysBeforeYear(y: int): int {
    var x := y - 1;
    365 * x + x / 4 - x / 100 + x / 400
  }

  function DaysInMonth(y: int, m: int): int
    requires 1 <= m <= 12
  {
    if m == 2 then (if IsLeap(y) then 29 else 28)
    else if m == 4 || m == 6 || m == 9 || m == 11 then 30
    else 31
  }

  /** Days of year `y` before the first of month `m`. */
  function DaysBeforeMonth(y: int, m: int): int
    requires 1 <= m <= 12
  {
    [0, 31, 59, 90, 120, 151, 181, 212, 243, 273, 304, 334][m - 1]
      + (if m > 2 && IsLeap(y) then 1 else 0)
  }

  /** The arguments that `datetime.date(y, m, d)` accepts (years unbounded). */
  predicate ValidDate(y: int, m: int, d: int) {
    1 <= m <= 12 && 1 <= d <= DaysInMonth(y, m)
  }

  function Ordinal(y: int, m: int, d: int): int
    requires ValidDate(y, m, d)
  {
    DaysBeforeYear(y) + DaysBeforeMonth(y, m) + d
  }

  datatype Ymd = Ymd(year: int, month: int, day: int)

  /** `y / k` exceeds `(y - 1) / k` by one exactly when `k` divides `y`. */
  lemma QuotStep4(y: int)
    ensures y / 4 - (y - 1) / 4 == (if y % 4 == 0 then 1 else 0)
  {
  }

  lemma QuotStep100(y: int)
    ensures y / 100 - (y - 1) / 100 == (if y % 100 == 0 then 1 else 0)
  {
  }

  lemma QuotStep400(y: int)
    ensures y / 400 - (y - 1) / 400 == (if y % 400 == 0 then 1 else 0)
  {
  }

  /** Consecutive year starts are one year length apart. */
  lemma YearStep(y: int)
    ensures DaysBeforeYear(y + 1) == DaysBeforeYear(y) + DaysInYear(y)
  {
    QuotStep4(y);
    QuotStep100(y);
    QuotStep400(y);
    assert DaysBeforeYear(y + 1) - DaysBeforeYear(y) ==
           365 + (y / 4 - (y - 1) / 4) - (y / 100 - (y - 1) / 100) + (y / 400 - (y - 1) / 400);
  }

  /** Year starts strictly increase. */
  lemma {:induction false} YearsIncrease(a: int, b: int)
    requires a < b
    ensures DaysBeforeYear(a + 1) <= DaysBeforeYear(b)
    decreases b - a
  {
    if a + 1 < b {
      YearsIncrease(a + 1, b);
      YearStep(a + 1);
    }
  }

  /** The year start of the year whose offset from year 1 is split into
      400-, 100-, 4- and 1-year cycles. */
  lemma DaysBeforeCycles(a: int, b: int, c: int, d: int)
    requires 0 <= b <= 3 && 0 <= c <= 24 && 0 <= d <= 3
    ensures DaysBeforeYear(400 * a + 100 * b + 4 * c + d + 1) == 146097 * a + 36524 * b + 1461 * c + 365 * d
  {
    var x := 400 * a + 100 * b + 4 * c + d;
    assert x / 4 == 100 * a + 25 * b + c;
    assert x / 100 == 4 * a + b;
    assert x / 400 == a;
  }

  /** The offset `n - 1` of day ordinal `n` split into whole 400-, 100-, 4-
      and 1-year cycles, with `r` days left over. */
  predicate Cycles(n: int, a: int, b: int, c: int, d: int, r: int) {
    0 <= b <= 4 && 0 <= c <= 24 && 0 <= d <= 4 && 0 <= r < 365 &&
    n - 1 == 146097 * a + 36524 * b + 1461 * c + 365 * d + r &&
    36524 * b + 1461 * c + 365 * d + r < 146097 &&
    1461 * c + 365 * d + r < 36524 &&
    365 * d + r < 1461
  }

  /** The year that contains day ordinal `n`, found as CPython's `_ord2ymd`
      finds it: by whole 400-, 100-, 4- and 1-year cycles. */
  function YearOf(n: int): (y: int)
    ensures DaysBeforeYear(y) < n <= DaysBeforeYear(y) + DaysInYear(y)
  {
    var n0 := n - 1;
    var a, r1 := n0 / 146097, n0 % 146097;
    var b, r2 := r1 / 36524, r1 % 36524;
    var c, r3 := r2 / 1461, r2 % 1461;
    var d, r4 := r3 / 365, r3 % 365;
    YearOfCycles(n, a, b, c, d, r4);
    if d == 4 || b == 4 then 400 * a + 100 * b + 4 * c + d
    else 400 * a + 100 * b + 4 * c + d + 1
  }

  lemma YearOfCycles(n: int, a: int, b: int, c: int, d: int, r: int)
    requires Cycles(n, a, b, c, d, r)
    ensures var y := if d == 4 || b == 4 then 400 * a + 100 * b + 4 * c + d
                     else 400 * a + 100 * b + 4 * c + d + 1;
            DaysBeforeYear(y) < n <= DaysBeforeYear(y) + DaysInYear(y)
  {
    if b == 4 {
      YearOfCentury(n, a);
    } else if d == 4 {
      YearOfQuad(n, a, b, c);
    } else {
      DaysBeforeCycles(a, b, c, d);
    }
  }

  /** The last day of a 400-year cycle lies in its leap year `400 * (a + 1)`. */
  lemma YearOfCentury(n: int, a: int)
    requires n - 1 == 146097 * a + 146096
    ensures var y := 400 * a + 400;
            DaysBeforeYear(y) < n <= DaysBeforeYear(y) + DaysInYear(y)
  {
    DaysBeforeCycles(a, 3, 24, 3);
    LeapCentury(a + 1);
  }

  /** `x = k * q + r` with `0 <= r < k` fixes `x % k` (here for the
      divisors of the leap rule, each a literal). */
  lemma Rem4(x: int, q: int, r: int)
    requires x == 4 * q + r && 0 <= r < 4
    ensures x % 4 == r
  {
    var q', r' := x / 4, x % 4;
    assert 4 * (q - q') == r' - r;
  }

  lemma Rem100(x: int, q: int, r: int)
    requires x == 100 * q + r && 0 <= r < 100
    ensures x % 100 == r
  {
    var q', r' := x / 100, x % 100;
    assert 100 * (q - q') == r' - r;
  }

  lemma Rem400(x: int, q: int, r: int)
    requires x == 400 * q + r && 0 <= r < 400
    ensures x % 400 == r
  {
    var q', r' := x / 400, x % 400;
    assert 400 * (q - q') == r' - r;
  }

  lemma LeapCentury(t: int)
    ensures DaysInYear(400 * t) == 366
  {
    Rem400(400 * t, t, 0);
    Rem4(400 * t, 100 * t, 0);
  }

  lemma LeapQuad(y: int, q: int, s: int)
    requires y == 100 * q + 4 * s && 0 < s < 25
    ensures DaysInYear(y) == 366
  {
    Rem4(y, 25 * q + s, 0);
    Rem100(y, q, 4 * s);
  }

  /** The last day of a 4-year cycle lies in its leap year. */
  lemma YearOfQuad(n: int, a: int, b: int, c: int)
    requires 0 <= b <= 3 && 0 <= c <= 23
    requires n - 1 == 146097 * a + 36524 * b + 1461 * c + 1460
    ensures var y := 400 * a + 100 * b + 4 * c + 4;
            DaysBeforeYear(y) < n <= DaysBeforeYear(y) + DaysInYear(y)
  {
    var y := 400 * a + 100 * b + 4 * c + 4;
    DaysBeforeCycles(a, b, c, 3);
    LeapQuad(y, 4 * a + b, c + 1);
  }

  /** Only one year contains day ordinal `n`. */
  lemma YearUnique(n: int, y: int, y': int)
    requires DaysBeforeYear(y) < n <= DaysBeforeYear(y) + DaysInYear(y)
    requires DaysBeforeYear(y') < n <= DaysBeforeYear(y') + DaysInYear(y')
    ensures y == y'
  {
    YearStep(y);
    YearStep(y');
    if y < y' {
      YearsIncrease(y, y');
    } else if y' < y {
      YearsIncrease(y', y);
    }
  }

  lemma YearOfUnique(n: int, y: int)
    requires DaysBeforeYear(y) < n <= DaysBeforeYear(y) + DaysInYear(y)
    ensures YearOf(n) == y
  {
    YearUnique(n, YearOf(n), y);
  }

  function MonthFrom(y: int, doy: int, m: int): (r: int)
    requires 1 <= m <= 12 && 1 <= doy <= DaysBeforeMonth(y, m) + DaysInMonth(y, m)
    ensures 1 <= r <= m
    ensures DaysBeforeMonth(y, r) < doy <= DaysBeforeMonth(y, r) + DaysInMonth(y, r)
  {
    if DaysBeforeMonth(y, m) < doy || m == 1 then m else MonthFrom(y, doy, m - 1)
  }

  /** The month of year `y` that contains its day `doy`. */
  function MonthOf(y: int, doy: int): (m: int)
    requires 1 <= doy <= DaysInYear(y)
    ensures 1 <= m <= 12
    ensures DaysBeforeMonth(y, m) < doy <= DaysBeforeMonth(y, m) + DaysInMonth(y, m)
  {
    MonthFrom(y, doy, 12)
  }

  lemma MonthOfUnique(y: int, doy: int, m: int)
    requires 1 <= m <= 12
    requires DaysBeforeMonth(y, m) < doy <= DaysBeforeMonth(y, m) + DaysInMonth(y, m)
    ensures 1 <= doy <= DaysInYear(y) && MonthOf(y, doy) == m
  {
  }

  /** `r` is the calendar date of day ordinal `n`. */
  predicate IsDateOf(r: Ymd, n: int) {
    ValidDate(r.year, r.month, r.day) && Ordinal(r.year, r.month, r.day) == n
  }

  /** A valid date is a day of its year. */
  lemma DateInYear(r: Ymd)
    requires ValidDate(r.year, r.month, r.day)
    ensures 1 <= DaysBeforeMonth(r.year, r.month) + r.day <= DaysInYear(r.year)
  {
  }

  /** Every ordinal has a calendar date: the year `YearOf` finds, then the
      month `MonthOf` finds. */
  lemma DateExists(n: int)
    ensures exists r :: IsDateOf(r, n)
  {
    var y := YearOf(n);
    var doy := n - DaysBeforeYear(y);
    var m := MonthOf(y, doy);
    assert IsDateOf(Ymd(y, m, doy - DaysBeforeMonth(y, m)), n);
  }

  /** Two valid dates with the same ordinal are the same date. */
  lemma SameDate(r: Ymd, r': Ymd, n: int)
    requires IsDateOf(r, n) && IsDateOf(r', n)
    ensures r == r'
  {
    DateInYear(r);
    DateInYear(r');
    YearUnique(n, r.year, r'.year);
    MonthOfUnique(r.year, n - DaysBeforeYear(r.year), r.month);
    MonthOfUnique(r.year, n - DaysBeforeYear(r.year), r'.month);
  }

  lemma DatesUnique(n: int)
    ensures forall r, r' :: IsDateOf(r, n) && IsDateOf(r', n) ==> r == r'
  {
    forall r, r' | IsDateOf(r, n) && IsDateOf(r', n)
      ensures r == r'
    {
      SameDate(r, r', n);
    }
  }

  /** The calendar date of day ordinal `n` (Python's `date.fromordinal`):
      the one valid date whose ordinal is `n`. */
  function ToYmd(n: int): (r: Ymd)
    ensures ValidDate(r.year, r.month, r.day)
    ensures Ordinal(r.year, r.month, r.day) == n
  {
    DateExists(n);
    DatesUnique(n);
    var r :| IsDateOf(r, n);
    r
  }

  /** The year of `fromordinal(n)` is the year `YearOf` computes. */
  lemma ToYmdYear(n: int)
    ensures ToYmd(n).year == YearOf(n)
  {
    DateInYear(ToYmd(n));
    YearUnique(n, ToYmd(n).year, YearOf(n));
  }

  /** `fromordinal(toordinal(x)) == x` for every valid date. */
  lemma ToYmdOrdinal(y: int, m: int, d: int)
    requires ValidDate(y, m, d)
    ensures ToYmd(Ordinal(y, m, d)) == Ymd(y, m, d)
  {
    SameDate(ToYmd(Ordinal(y, m, d)), Ymd(y, m, d), Ordinal(y, m, d));
  }

  /** Day `doy` (1-based) of year `y` lies in year `y`. */
  lemma YearOfDayOfYear(y: int, doy: int)
    requires 1 <= doy <= DaysInYear(y)
    ensures ToYmd(DaysBeforeYear(y) + doy).year == y
  {
    var r := ToYmd(DaysBeforeYear(y) + doy);
    DateInYear(r);
    YearUnique(DaysBeforeYear(y) + doy, r.year, y);
  }
}
