/** The point generators of `DateRange` (`cycles`, `hours`, `days`,
    `pentads`, `months`, `years`) as values. Each generator is a setup,
    computed on the first pull, followed by the same loop: while the point
    `d` is in the range, yield it and advance. `Walker` says how each
    generator advances; `Run` is the loop; the methods of
    `DateRanges.DateRange` run the loops imperatively and are specified by
    these functions. */
module Generators {
  import opened Base
  import opened Calendar
  import opened Time
  import opened Cyclic
  import opened Grid
  import opened Ranges

  /** The loop variables: the point `d` tested and yielded next, and the
      calendar anchor `dsnap` it was derived from. */
  datatype Cursor = Cursor(d: TimePoint, dsnap: TimePoint)

  /** How each loop advances its cursor. `Shift` is the `d += dt` of `cycles`
      and `hours`; the others move the anchor one day, pentad, month or year
      and add the offset back. `MonthWalk` is `months` as written, which
      takes the next anchor from `d`; `AnchoredMonthWalk` takes it from
      `dsnap`, as `days` and `pentads` do. */
  datatype Walker =
    | Shift(dt: int)
    | DayWalk(dtime: int, offset: int)
    | PentadWalk(k: Kind, dir: Dir, offset: int)
    | MonthWalk(k: Kind, dir: Dir, offset: int)
    | AnchoredMonthWalk(k: Kind, dir: Dir, offset: int)
    | YearSnapWalk(k: Kind, dir: Dir)
    | YearWalk(k: Kind, dir: Dir, month: int, day: int, offset: int)

  /** The direction of travel: one unit forwards or backwards. */
  type Dir = d: int | d == 1 || d == -1 witness 1

  /** January 1 of year `y` as a point of kind `k`: the first day after
      the days of all earlier years. */
  function YearStart(k: Kind, y: int): (r: TimePoint)
    ensures KindOf(r) == k
  {
    Midnight(k, DaysBeforeYear(y) + 1)
  }

  /** `YearStart` is `self._cast(datetime.datetime(y, 1, 1))`. */
  lemma YearStartCast(k: Kind, y: int)
    ensures YearStart(k, y) == CastTo(k, MakeDateTime(y, 1, 1).value)
  {
    CastMidnight(k, DaysBeforeYear(y) + 1);
  }

  /** One pass through the end of a loop body: the cursor of the next pull. */
  function Next(w: Walker, c: Cursor): Result<Cursor> {
    match w
    case Shift(dt) => Ok(Cursor(Add(c.d, dt), c.dsnap))
    case DayWalk(dtime, offset) =>
      var a := Add(c.dsnap, dtime);
      Ok(Cursor(Add(a, offset), a))
    case PentadWalk(k, dir, offset) =>
      var a := PentadNext(k, c.dsnap, dir);
      Ok(Cursor(Add(a, offset), a))
    case MonthWalk(k, dir, offset) =>
      var a := MonthNext(k, c.d, dir);
      Ok(Cursor(Add(a, offset), a))
    case AnchoredMonthWalk(k, dir, offset) =>
      var a := MonthNext(k, c.dsnap, dir);
      Ok(Cursor(Add(a, offset), a))
    case YearSnapWalk(k, dir) => Ok(Cursor(YearStart(k, DateOf(c.d).year + dir), c.dsnap))
    case YearWalk(k, dir, month, day, offset) =>
      match MakeDateTime(DateOf(c.d).year + dir, month, day)
      case Err(e) => Err(e)
      case Ok(t) => Ok(Cursor(CastTo(k, Add(t, offset)), c.dsnap))
  }

  /** The advance of a walker as a step function. */
  function Advance(w: Walker): Cursor -> Result<Cursor> {
    c => Next(w, c)
  }

  /** A point the range reports as inside lies in it. */
  lemma ContainsMeansInRange(s: RangeState, p: TimePoint)
    requires Valid(s) && Contains(s, p) == Ok(true)
    ensures InRange(s, p)
  {
  }

  /** The loop `while d in self: yield d; <advance>` under a budget of
      `limit` pulls. The advance runs only when the caller pulls again. */
  function Run(s: RangeState, step: Cursor -> Result<Cursor>, c: Cursor, limit: nat): (g: Gen<TimePoint>)
    requires Valid(s)
    ensures |g.items| <= limit
    ensures g.stop == LimitReached ==> |g.items| == limit
    ensures forall i :: 0 <= i < |g.items| ==> InRange(s, g.items[i])
    decreases limit
  {
    if limit == 0 then Gen([], LimitReached)
    else match Contains(s, c.d)
      case Err(e) => Gen([], Raised(e))
      case Ok(inside) =>
        if !inside then Gen([], Exhausted)
        else
          ContainsMeansInRange(s, c.d);
          var rest :=
            if limit == 1 then Gen([], LimitReached)
            else match step(c)
              case Err(e) => Gen([], Raised(e))
              case Ok(c') => Run(s, step, c', limit - 1);
          Gen([c.d] + rest.items, rest.stop)
  }

  /** The cursor after `i` advances, unless one of them raised. */
  function Iterate(step: Cursor -> Result<Cursor>, c: Cursor, i: nat): Result<Cursor>
    decreases i
  {
    if i == 0 then Ok(c)
    else match step(c)
      case Err(e) => Err(e)
      case Ok(c') => Iterate(step, c', i - 1)
  }

  /** The loop yields the points of the successive cursors, and stops only
      at a point outside the range, at an advance that raised, or when the
      pulls run out. */
  lemma {:induction false} RunIterates(s: RangeState, step: Cursor -> Result<Cursor>, c: Cursor, limit: nat)
    requires Valid(s)
    ensures forall i :: 0 <= i < |Run(s, step, c, limit).items| ==>
              Iterate(step, c, i).Ok? && Run(s, step, c, limit).items[i] == Iterate(step, c, i).value.d
    ensures Run(s, step, c, limit).stop == Exhausted ==>
              var n := |Run(s, step, c, limit).items|;
              Iterate(step, c, n).Ok? && Contains(s, Iterate(step, c, n).value.d) == Ok(false)
    decreases limit
  {
    if limit >= 2 && Contains(s, c.d) == Ok(true) && step(c).Ok? {
      var c' := step(c).value;
      RunIterates(s, step, c', limit - 1);
      RunStep(s, step, c, limit);
      var g, g' := Run(s, step, c, limit), Run(s, step, c', limit - 1);
      forall i | 0 <= i < |g.items|
        ensures Iterate(step, c, i).Ok? && g.items[i] == Iterate(step, c, i).value.d
      {
        if i > 0 {
          assert g.items[i] == g'.items[i - 1];
        }
      }
    }
  }

  /** One turn of the loop, when the point is inside and the advance succeeds. */
  lemma RunStep(s: RangeState, step: Cursor -> Result<Cursor>, c: Cursor, limit: nat)
    requires Valid(s)
    requires limit >= 2 && Contains(s, c.d) == Ok(true) && step(c).Ok?
    ensures Run(s, step, c, limit).items == [c.d] + Run(s, step, step(c).value, limit - 1).items
    ensures Run(s, step, c, limit).stop == Run(s, step, step(c).value, limit - 1).stop
    ensures forall i :: 0 < i ==> Iterate(step, c, i) == Iterate(step, step(c).value, i - 1)
  {
  }

  /** The four ways one pass of the loop can end the generator. */
  lemma RunEnds(s: RangeState, step: Cursor -> Result<Cursor>, c: Cursor, limit: nat)
    requires Valid(s) && limit >= 1
    ensures Contains(s, c.d).Err? ==> Run(s, step, c, limit) == Gen([], Raised(Contains(s, c.d).error))
    ensures Contains(s, c.d) == Ok(false) ==> Run(s, step, c, limit) == Gen([], Exhausted)
    ensures Contains(s, c.d) == Ok(true) && limit == 1 ==> Run(s, step, c, limit) == Gen([c.d], LimitReached)
    ensures Contains(s, c.d) == Ok(true) && limit >= 2 && step(c).Err? ==>
              Run(s, step, c, limit) == Gen([c.d], Raised(step(c).error))
  {
  }

  /** One full pass of the loop moves the point tested from the cursor to
      the items yielded. */
  lemma RunMoves(s: RangeState, step: Cursor -> Result<Cursor>, items: seq<TimePoint>, c: Cursor, limit: nat)
    requires Valid(s)
    requires limit >= 2 && Contains(s, c.d) == Ok(true) && step(c).Ok?
    ensures Gen(items + Run(s, step, c, limit).items, Run(s, step, c, limit).stop) ==
            Gen((items + [c.d]) + Run(s, step, step(c).value, limit - 1).items, Run(s, step, step(c).value, limit - 1).stop)
  {
    RunStep(s, step, c, limit);
    var rest := Run(s, step, step(c).value, limit - 1).items;
    assert items + ([c.d] + rest) == (items + [c.d]) + rest;
  }

  /** When the advance from `track(j)` is always `track(j + 1)`, the cursors
      are the track. */
  lemma {:induction false} IterateTracks(step: Cursor -> Result<Cursor>, track: nat -> Cursor, j: nat, i: nat)
    requires forall n: nat :: step(track(n)) == Ok(track(n + 1))
    ensures Iterate(step, track(j), i) == Ok(track(j + i))
    decreases i
  {
    if i > 0 {
      IterateTracks(step, track, j + 1, i - 1);
    }
  }

  // ------------------------------------------------------------------
  // The setups
  // ------------------------------------------------------------------

  /** A loop ready to start: how it advances and its first cursor. */
  datatype Setup = Setup(w: Walker, c: Cursor)

  /** A generator: nothing runs until the first pull, which runs the setup
      and then the loop. */
  function Generate(s: RangeState, setup: Result<Setup>, limit: nat): (g: Gen<TimePoint>)
    requires Valid(s)
    ensures |g.items| <= limit
    ensures g.stop == LimitReached ==> |g.items| == limit
    ensures forall i :: 0 <= i < |g.items| ==> InRange(s, g.items[i])
    ensures setup.Err? && limit >= 1 ==> g == Gen([], Raised(setup.error))
  {
    if limit == 0 then Gen([], LimitReached)
    else match setup
      case Err(e) => Gen([], Raised(e))
      case Ok(st) => Run(s, Advance(st.w), st.c, limit)
  }

  /** `cycles(dt)`: from the start for a positive `dt`, from the end for a
      negative one. */
  function CyclesSetup(s: RangeState, dt: int): Result<Setup> {
    if dt > 0 then
      if s.start.None? then Err(ValueError) else Ok(Setup(Shift(dt), Cursor(s.start.value, s.start.value)))
    else if dt < 0 then
      if s.end.None? then Err(ValueError) else Ok(Setup(Shift(dt), Cursor(s.end.value, s.end.value)))
    else Err(ValueError)
  }

  /** `hours()`: both directions test the end for infinity; forwards the loop
      then starts at the start, and `None in self` raises TypeError. */
  function HoursSetup(s: RangeState, reverse: bool): Result<Setup> {
    if s.end.None? then Err(PlainException)
    else if reverse then Ok(Setup(Shift(-3_600_000_000), Cursor(s.end.value, s.end.value)))
    else if s.start.None? then Err(TypeError)
    else Ok(Setup(Shift(3_600_000_000), Cursor(s.start.value, s.start.value)))
  }

  /** The bound a generator starts from, or the error for an absent one. */
  function Origin(s: RangeState, reverse: bool, e: Error): Result<TimePoint> {
    if reverse then (if s.end.None? then Err(e) else Ok(s.end.value))
    else (if s.start.None? then Err(e) else Ok(s.start.value))
  }

  function Direction(reverse: bool): Dir {
    if reverse then -1 else 1
  }

  /** The end of the setups of `days`, `pentads` and `months`. Without
      `snap` the loop starts `off` after the anchor `a`; with `snap` the
      offset is dropped and the loop starts on `a`, or on the neighbouring
      anchor `a'` when `a` is outside the range. */
  function SnapSetup(s: RangeState, w: Walker, snap: bool, a: TimePoint, off: int, a': TimePoint): Result<Setup> {
    if !snap then Ok(Setup(WithOffset(w, off), Cursor(Add(a, off), a)))
    else match Contains(s, a)
      case Err(e) => Err(e)
      case Ok(inside) =>
        var b := if inside then a else a';
        Ok(Setup(WithOffset(w, 0), Cursor(Add(b, 0), b)))
  }

  /** The walker `w` adding the offset `off` to its anchors. */
  function WithOffset(w: Walker, off: int): Walker {
    match w
    case DayWalk(dtime, _) => DayWalk(dtime, off)
    case PentadWalk(k, dir, _) => PentadWalk(k, dir, off)
    case MonthWalk(k, dir, _) => MonthWalk(k, dir, off)
    case AnchoredMonthWalk(k, dir, _) => AnchoredMonthWalk(k, dir, off)
    case YearWalk(k, dir, month, day, _) => YearWalk(k, dir, month, day, off)
    case _ => w
  }

  /** `days(snap, reverse)`: the anchor is the midnight of the first day; with
      `snap` an anchor outside the range is moved one day in the direction of
      travel. */
  function DaysSetup(s: RangeState, snap: bool, reverse: bool): Result<Setup>
    requires Valid(s)
  {
    match Origin(s, reverse, PlainException)
    case Err(e) => Err(e)
    case Ok(d1) =>
      var k := s.dateClass.value;
      var dtime := Direction(reverse) * 86_400_000_000;
      var a := DayStart(k, d1);
      SnapSetup(s, DayWalk(dtime, 0), snap, a, Diff(d1, a), Add(DayStart(k, d1), dtime))
  }

  /** `pentads(snap, reverse)`: the anchor is the start of the pentad holding
      the first point; with `snap` an anchor outside the range is moved to
      the neighbouring pentad. */
  function PentadsSetup(s: RangeState, snap: bool, reverse: bool): Result<Setup>
    requires Valid(s)
  {
    match Origin(s, reverse, ValueError)
    case Err(e) => Err(e)
    case Ok(d1) =>
      var k := s.dateClass.value;
      var dir := Direction(reverse);
      var p := PointToPentad(d1);
      var a := PentadStart(k, d1);
      SnapSetup(s, PentadWalk(k, dir, 0), snap, a, Diff(d1, a), PentadStep(k, DateOf(a).year, p, dir))
  }

  /** `months(snap, reverse)` as written, or with the anchor tracked
      (`anchored`). The anchor is the first of the month of the first point;
      with `snap` an anchor outside the range is moved to the neighbouring
      month. */
  function MonthsSetup(s: RangeState, snap: bool, reverse: bool, anchored: bool): Result<Setup>
    requires Valid(s)
  {
    match Origin(s, reverse, ValueError)
    case Err(e) => Err(e)
    case Ok(d) =>
      var k := s.dateClass.value;
      var dir := Direction(reverse);
      var m := DateOf(d).month;
      var a := MonthStart(k, d);
      SnapSetup(s, MonthWalker(anchored, k, dir, 0), snap, a, Diff(d, a), MonthStep(k, DateOf(a).year, m, dir))
  }

  /** The walker of `months`: as written, or with the anchor tracked. */
  function MonthWalker(anchored: bool, k: Kind, dir: Dir, offset: int): Walker {
    if anchored then AnchoredMonthWalk(k, dir, offset) else MonthWalk(k, dir, offset)
  }

  /** `years(reverse, snap)`: with `snap`, Januaries the first; otherwise the
      month, day and time of day of the first point in every year. */
  function YearsSetup(s: RangeState, reverse: bool, snap: bool): Result<Setup>
    requires Valid(s)
  {
    match Origin(s, reverse, ValueError)
    case Err(e) => Err(e)
    case Ok(d) =>
      var k := s.dateClass.value;
      if snap then
        var a := YearStart(k, DateOf(d).year);
        SnapYearsSetup(s, Direction(reverse), a, DateOf(a).year)
      else PlainYearsSetup(k, Direction(reverse), d)
  }

  /** With `snap`: January 1 `a` of the first year, or January 1 of the
      year after `a`'s year `ya` in the direction of travel when `a` is
      outside the range. */
  function SnapYearsSetup(s: RangeState, dir: Dir, a: TimePoint, ya: int): Result<Setup>
    requires Valid(s) && s.dateClass.Some?
  {
    var k := s.dateClass.value;
    match Contains(s, a)
    case Err(e) => Err(e)
    case Ok(inside) =>
      var a' := if inside then a else YearStart(k, ya + dir);
      Ok(Setup(YearSnapWalk(k, dir), Cursor(a', a')))
  }

  /** Without `snap`: the loop starts on `d`, keeping its month, day and
      time of day. */
  function PlainYearsSetup(k: Kind, dir: Dir, d: TimePoint): Result<Setup>
    requires KindOf(d) == k
  {
    var offset := Diff(d, DayStart(k, d));
    Ok(Setup(YearWalk(k, dir, DateOf(d).month, DateOf(d).day, offset), Cursor(d, d)))
  }
}
