/** Time points: Python `datetime.date` and `datetime.datetime` values as integer
    counts of their own quantum, and `timedelta` values as signed microsecond counts. */
module Time {
  import opened Base
  import opened Calendar

  // A day is 86_400_000_000 microseconds and an hour 3_600_000_000. They are
  // written as literals so that every product with them stays linear.

  /** The two date classes. `datetime` is a subclass of `date` in Python. */
  datatype Kind = DateKind | DateTimeKind

  /** A `date` is its day ordinal; a `datetime` is microseconds since the
      midnight that starts day ordinal 0. */
  datatype TimePoint = Date(ordinal: int) | DateTime(micros: int)

  function KindOf(p: TimePoint): Kind {
    match p
    case Date(_) => DateKind
    case DateTime(_) => DateTimeKind
  }

  /** The position of a point on its own kind's axis; points of one kind are
      ordered by it. */
  function Ticks(p: TimePoint): int {
    match p
    case Date(o) => o
    case DateTime(u) => u
  }

  /** The resolution of a kind as a timedelta in microseconds: one day for
      `date`, one microsecond for `datetime`. */
  function Quantum(k: Kind): (q: int)
    ensures q > 0
  {
    match k
    case DateKind => 86_400_000_000
    case DateTimeKind => 1
  }

  /** `isinstance(p, k)`: every datetime is also a date. */
  predicate IsInstance(p: TimePoint, k: Kind) {
    KindOf(p) == k || k == DateKind
  }

  /** `a <= b`; ordering a date against a datetime raises TypeError. */
  function LessEq(a: TimePoint, b: TimePoint): (r: Result<bool>)
    ensures r.Err? <==> KindOf(a) != KindOf(b)
    ensures r.Ok? ==> (r.value <==> Ticks(a) <= Ticks(b))
  {
    if KindOf(a) != KindOf(b) then Err(TypeError) else Ok(Ticks(a) <= Ticks(b))
  }

  /** `p + td`: a date moves by `td.days` whole days (the floor of `td` in days),
      a datetime by exactly `td`. */
  function Add(p: TimePoint, td: int): (r: TimePoint)
    ensures KindOf(r) == KindOf(p)
    ensures KindOf(p) == DateTimeKind ==> Ticks(r) == Ticks(p) + td
    ensures KindOf(p) == DateKind ==> Ticks(r) == Ticks(p) + td / 86_400_000_000
  {
    match p
    case Date(o) => Date(o + td / 86_400_000_000)
    case DateTime(u) => DateTime(u + td)
  }

  /** `a - b` as a timedelta in microseconds, for two points of one kind. */
  function Diff(a: TimePoint, b: TimePoint): (td: int)
    requires KindOf(a) == KindOf(b)
    ensures td == (Ticks(a) - Ticks(b)) * Quantum(KindOf(a))
  {
    match a
    case Date(o) => (o - Ticks(b)) * 86_400_000_000
    case DateTime(u) => u - Ticks(b)
  }

  /** The day ordinal of a point (`p.date()` for a datetime). */
  function DayOf(p: TimePoint): int {
    match p
    case Date(o) => o
    case DateTime(u) => u / 86_400_000_000
  }

  /** The point of kind `k` that starts day ordinal `o`: `datetime(y, m, d)`
      cast to the kind of a range. */
  function Midnight(k: Kind, o: int): (r: TimePoint)
    ensures KindOf(r) == k && DayOf(r) == o
    ensures Ticks(r) == if k == DateKind then o else o * 86_400_000_000
  {
    match k
    case DateKind => Date(o)
    case DateTimeKind => DateTime(o * 86_400_000_000)
  }

  /** `datetime.datetime(y, m, d)`. */
  function MakeDateTime(y: int, m: int, d: int): (r: Result<TimePoint>)
    ensures r.Ok? <==> ValidDate(y, m, d)
    ensures r.Ok? ==> r.value == DateTime(Ordinal(y, m, d) * 86_400_000_000)
  {
    if ValidDate(y, m, d) then Ok(DateTime(Ordinal(y, m, d) * 86_400_000_000)) else Err(ValueError)
  }

  /** The calendar date of a point (`p.year`, `p.month`, `p.day`). */
  function DateOf(p: TimePoint): (r: Ymd)
    ensures ValidDate(r.year, r.month, r.day) && Ordinal(r.year, r.month, r.day) == DayOf(p)
  {
    ToYmd(DayOf(p))
  }

  /** Adding a quantum moves a point to the next tick of its own axis. */
  lemma AddQuantum(p: TimePoint, sign: int)
    requires sign == 1 || sign == -1
    ensures Ticks(Add(p, sign * Quantum(KindOf(p)))) == Ticks(p) + sign
  {
  }

  /** `b + (a - b) == a` for two points of one kind. */
  lemma AddDiff(a: TimePoint, b: TimePoint)
    requires KindOf(a) == KindOf(b)
    ensures Add(b, Diff(a, b)) == a
  {
  }
}
