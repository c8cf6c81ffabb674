/** What the point generators of `DateRange` yield: the points of each
    generator in closed form, the errors of its setup, and when it ends.
    Every result comes from one argument: the cursors of a loop follow a
    track (`Tracks`), so the loop yields the track's points up to the first
    one outside the range. */
module Walks {
  import opened Base
  import opened Calendar
  import opened Time
  import opened Cyclic
  import opened Grid
  import opened Ranges
  import opened Generators

  // ------------------------------------------------------------------
  // Loops along a track
  // ------------------------------------------------------------------

  /** The advance from each cursor of `track` is the next cursor. */
  ghost predicate Tracks(step: Cursor -> Result<Cursor>, track: nat -> Cursor) {
    forall n: nat :: step(track(n)) == Ok(track(n + 1))
  }

  /** A loop along a track yields the track's points in order, and stops only
      at a point the range reports outside, or cannot compare, or when the
      pulls run out. */
  lemma {:induction false} RunTrack(s: RangeState, step: Cursor -> Result<Cursor>, track: nat -> Cursor, j: nat, limit: nat)
    requires Valid(s) && Tracks(step, track)
    ensures var g := Run(s, step, track(j), limit);
            && (forall i :: 0 <= i < |g.items| ==> g.items[i] == track(j + i).d)
            && (g.stop == Exhausted ==> Contains(s, track(j + |g.items|).d) == Ok(false))
            && (g.stop.Raised? ==> Contains(s, track(j + |g.items|).d) == Err(g.stop.error))
    decreases limit
  {
    if limit == 0 {
    } else if limit == 1 || Contains(s, track(j).d) != Ok(true) {
      RunEnds(s, step, track(j), limit);
      assert track(j + 0) == track(j);
    } else {
      assert step(track(j)) == Ok(track(j + 1));
      RunTrack(s, step, track, j + 1, limit - 1);
      RunStep(s, step, track(j), limit);
      ConsTrack(track, j, Run(s, step, track(j), limit), Run(s, step, track(j + 1), limit - 1));
    }
  }

  /** A yield of `track(j)` in front of the points of the track from `j + 1`
      gives the points of the track from `j`. */
  lemma ConsTrack(track: nat -> Cursor, j: nat, g: Gen<TimePoint>, g': Gen<TimePoint>)
    requires g.items == [track(j).d] + g'.items
    requires forall i :: 0 <= i < |g'.items| ==> g'.items[i] == track(j + 1 + i).d
    ensures forall i :: 0 <= i < |g.items| ==> g.items[i] == track(j + i).d
    ensures track(j + |g.items|) == track(j + 1 + |g'.items|)
  {
    forall i | 0 <= i < |g.items|
      ensures g.items[i] == track(j + i).d
    {
      if i > 0 {
        assert g.items[i] == g'.items[i - 1];
        assert track(j + 1 + (i - 1)) == track(j + i);
      } else {
        assert track(j + 0) == track(j);
      }
    }
    assert j + |g.items| == j + 1 + |g'.items|;
  }

  /** Two loops whose advances agree along a track run alike. */
  lemma {:induction false} RunAgree(s: RangeState, step: Cursor -> Result<Cursor>, step': Cursor -> Result<Cursor>,
                                     track: nat -> Cursor, j: nat, limit: nat)
    requires Valid(s) && Tracks(step, track) && Tracks(step', track)
    ensures Run(s, step, track(j), limit) == Run(s, step', track(j), limit)
    decreases limit
  {
    if limit >= 2 && Contains(s, track(j).d) == Ok(true) {
      assert step(track(j)) == Ok(track(j + 1)) && step'(track(j)) == Ok(track(j + 1));
      RunAgree(s, step, step', track, j + 1, limit - 1);
    }
  }

  /** A generator whose setup starts its loop on a track yields the track's
      points, as `RunTrack` says. */
  lemma GenerateTrack(s: RangeState, setup: Result<Setup>, track: nat -> Cursor, limit: nat)
    requires Valid(s) && setup.Ok? && setup.value.c == track(0) && Tracks(Advance(setup.value.w), track)
    ensures var g := Generate(s, setup, limit);
            && (forall i :: 0 <= i < |g.items| ==> g.items[i] == track(i).d)
            && (g.stop == Exhausted ==> Contains(s, track(|g.items|).d) == Ok(false))
            && (g.stop.Raised? ==> Contains(s, track(|g.items|).d) == Err(g.stop.error))
  {
    var g := Generate(s, setup, limit);
    RunTrack(s, Advance(setup.value.w), track, 0, limit);
    if limit >= 1 {
      assert g == Run(s, Advance(setup.value.w), track(0), limit);
    }
    assert track(0 + |g.items|) == track(|g.items|);
    forall i | 0 <= i < |g.items|
      ensures g.items[i] == track(i).d
    {
      assert track(0 + i) == track(i);
    }
  }

  /** Every step moves the point at least one tick forwards (or backwards). */
  ghost predicate Progresses(track: nat -> Cursor, forward: bool) {
    forall n: nat ::
      if forward then Ticks(track(n).d) + 1 <= Ticks(track(n + 1).d)
      else Ticks(track(n + 1).d) + 1 <= Ticks(track(n).d)
  }

  /** A loop that makes progress towards a bound of the range leaves it: once
      the pulls outnumber the ticks left to that bound, the loop has stopped
      at a point outside the range. */
  lemma {:induction false} RunTrackExhausts(s: RangeState, step: Cursor -> Result<Cursor>, track: nat -> Cursor,
                                             forward: bool, j: nat, limit: nat)
    requires Valid(s) && Tracks(step, track) && Progresses(track, forward)
    requires forall n: nat :: Comparable(s, track(n).d)
    requires forward ==> s.end.Some? && limit > Ticks(s.end.value) - Ticks(track(j).d) + 1
    requires !forward ==> s.start.Some? && limit > Ticks(track(j).d) - Ticks(s.start.value) + 1
    requires limit >= 1
    ensures Run(s, step, track(j), limit).stop == Exhausted
    decreases limit
  {
    RunEnds(s, step, track(j), limit);
    if InRange(s, track(j).d) {
      assert step(track(j)) == Ok(track(j + 1));
      RunStep(s, step, track(j), limit);
      RunTrackExhausts(s, step, track, forward, j + 1, limit - 1);
    }
  }

  /** On a range with both bounds, a loop that makes progress stops at a
      point outside the range within `end - start + 2` pulls. */
  lemma RunTrackEnds(s: RangeState, step: Cursor -> Result<Cursor>, track: nat -> Cursor, forward: bool, limit: nat)
    requires Valid(s) && Tracks(step, track) && Progresses(track, forward)
    requires forall n: nat :: Comparable(s, track(n).d)
    requires s.start.Some? && s.end.Some? && limit > Ticks(s.end.value) - Ticks(s.start.value) + 1
    ensures Run(s, step, track(0), limit).stop == Exhausted
  {
    RunEnds(s, step, track(0), limit);
    if InRange(s, track(0).d) {
      RunTrackExhausts(s, step, track, forward, 0, limit);
    }
  }

  /** A loop whose every point lies in the range runs until the pulls run out. */
  lemma {:induction false} RunTrackForever(s: RangeState, step: Cursor -> Result<Cursor>, track: nat -> Cursor, j: nat, limit: nat)
    requires Valid(s) && Tracks(step, track)
    requires forall n: nat :: Contains(s, track(n).d) == Ok(true)
    ensures Run(s, step, track(j), limit).stop == LimitReached
    decreases limit
  {
    if limit >= 1 {
      RunEnds(s, step, track(j), limit);
    }
    if limit >= 2 {
      assert step(track(j)) == Ok(track(j + 1));
      RunStep(s, step, track(j), limit);
      RunTrackForever(s, step, track, j + 1, limit - 1);
    }
  }

  /** A generator whose setup starts its loop on a track that never leaves
      the range yields the track's points until the pulls run out. */
  lemma GenerateForever(s: RangeState, setup: Result<Setup>, track: nat -> Cursor, limit: nat)
    requires Valid(s) && setup.Ok? && setup.value.c == track(0) && Tracks(Advance(setup.value.w), track)
    requires forall n: nat :: Contains(s, track(n).d) == Ok(true)
    ensures var g := Generate(s, setup, limit);
            && g.stop == LimitReached && |g.items| == limit
            && (forall i :: 0 <= i < limit ==> g.items[i] == track(i).d)
  {
    GenerateTrack(s, setup, track, limit);
    if limit >= 1 {
      RunTrackForever(s, Advance(setup.value.w), track, 0, limit);
    }
  }

  // ------------------------------------------------------------------
  // cycles and hours
  // ------------------------------------------------------------------

  /** The point `t` ticks from `p` on its own axis. */
  function Shifted(p: TimePoint, t: int): (r: TimePoint)
    ensures KindOf(r) == KindOf(p) && Ticks(r) == Ticks(p) + t
  {
    match p
    case Date(o) => Date(o + t)
    case DateTime(u) => DateTime(u + t)
  }

  /** The ticks that adding the timedelta `dt` moves a point of kind `k`:
      whole days, rounded down, for a date. */
  function StepTicks(k: Kind, dt: int): int {
    if k == DateKind then dt / 86_400_000_000 else dt
  }

  lemma AddIsShift(p: TimePoint, dt: int)
    ensures Add(p, dt) == Shifted(p, StepTicks(KindOf(p), dt))
  {
  }

  function CycleCursor(p0: TimePoint, t: int, n: nat): Cursor {
    Cursor(Shifted(p0, n * t), p0)
  }

  lemma CyclesTrack(p0: TimePoint, dt: int)
    ensures Tracks(Advance(Shift(dt)), (n: nat) => CycleCursor(p0, StepTicks(KindOf(p0), dt), n))
  {
    var t := StepTicks(KindOf(p0), dt);
    forall n: nat
      ensures Advance(Shift(dt))(CycleCursor(p0, t, n)) == Ok(CycleCursor(p0, t, n + 1))
    {
      AddIsShift(Shifted(p0, n * t), dt);
      assert n * t + t == (n + 1) * t;
    }
  }

  /** `cycles(dt)` raises ValueError, before yielding anything, exactly for a
      zero `dt` and for a `dt` that starts from an absent bound. */
  lemma CyclesRaises(s: RangeState, dt: int, limit: nat)
    requires Valid(s) && limit >= 1
    ensures Generate(s, CyclesSetup(s, dt), limit) == Gen([], Raised(ValueError))
            <==> dt == 0 || (dt > 0 && s.start.None?) || (dt < 0 && s.end.None?)
  {
    if CyclesSetup(s, dt).Ok? {
      var p0 := CyclesSetup(s, dt).value.c.d;
      RunEnds(s, Advance(Shift(dt)), Cursor(p0, p0), limit);
    }
  }

  /** `cycles(dt)` yields the starting bound moved `i` steps of `dt`, for as
      long as those points lie in the range: the start for a positive `dt`,
      the end for a negative one. It never raises once started. */
  lemma CyclesPoints(s: RangeState, dt: int, limit: nat)
    requires Valid(s) && CyclesSetup(s, dt).Ok?
    ensures var p0 := if dt > 0 then s.start.value else s.end.value;
            var t := StepTicks(KindOf(p0), dt);
            var g := Generate(s, CyclesSetup(s, dt), limit);
            && (forall i :: 0 <= i < |g.items| ==> g.items[i] == Shifted(p0, i * t))
            && !g.stop.Raised?
            && (g.stop == Exhausted ==> !InRange(s, Shifted(p0, |g.items| * t)))
  {
    var p0 := if dt > 0 then s.start.value else s.end.value;
    var t := StepTicks(KindOf(p0), dt);
    var track := (n: nat) => CycleCursor(p0, t, n);
    CyclesTrack(p0, dt);
    assert Shifted(p0, 0 * t) == p0;
    assert CyclesSetup(s, dt).value == Setup(Shift(dt), track(0));
    GenerateTrack(s, CyclesSetup(s, dt), track, limit);
  }

  /** The points of `cycles` make progress of one tick or more per step. */
  lemma CyclesProgress(p0: TimePoint, t: int, forward: bool)
    requires forward ==> t >= 1
    requires !forward ==> t <= -1
    ensures Progresses((n: nat) => CycleCursor(p0, t, n), forward)
  {
    forall n: nat
      ensures Ticks(CycleCursor(p0, t, n + 1).d) == Ticks(CycleCursor(p0, t, n).d) + t
    {
      assert (n + 1) * t == n * t + t;
    }
  }

  /** `n` points `a` apart, the last within `span` of the first and the next
      beyond it, number `span / a + 1`. */
  lemma PointsInSpan(span: int, a: int, n: int)
    requires a >= 1 && n >= 1
    requires (n - 1) * a <= span < n * a
    ensures span / a == n - 1
  {
    assert n * a == (n - 1) * a + a;
    DivUnique(span, a, n - 1, span - (n - 1) * a);
  }

  /** On a range with both bounds, `cycles(dt)` with a step of at least one
      tick yields exactly `(end - start) / step + 1` points and then stops,
      once the caller pulls enough. */
  lemma CyclesCount(s: RangeState, dt: int, limit: nat)
    requires Valid(s) && s.start.Some? && s.end.Some?
    requires dt > 0 ==> StepTicks(KindOf(s.start.value), dt) >= 1
    requires dt < 0 ==> StepTicks(KindOf(s.end.value), dt) <= -1
    requires dt != 0 && limit > Ticks(s.end.value) - Ticks(s.start.value) + 1
    ensures var t := StepTicks(KindOf(s.start.value), dt);
            var g := Generate(s, CyclesSetup(s, dt), limit);
            g.stop == Exhausted && |g.items| == (Ticks(s.end.value) - Ticks(s.start.value)) / Abs(t) + 1
  {
    var p0 := if dt > 0 then s.start.value else s.end.value;
    var t := StepTicks(KindOf(p0), dt);
    var track := (n: nat) => CycleCursor(p0, t, n);
    CyclesTrack(p0, dt);
    CyclesProgress(p0, t, dt > 0);
    RunTrackExhausts(s, Advance(Shift(dt)), track, dt > 0, 0, limit);
    CyclesPoints(s, dt, limit);
    var g := Generate(s, CyclesSetup(s, dt), limit);
    RunEnds(s, Advance(Shift(dt)), track(0), limit);
    var n := |g.items|;
    assert InRange(s, g.items[n - 1]) && g.items[n - 1] == Shifted(p0, (n - 1) * t);
    CyclesEnd(s, p0, t, n);
  }

  /** The arithmetic of the count: the last point yielded lies in the range
      and the point after it does not. */
  lemma CyclesEnd(s: RangeState, p0: TimePoint, t: int, n: int)
    requires s.start.Some? && s.end.Some? && n >= 1 && t != 0
    requires p0 == if t > 0 then s.start.value else s.end.value
    requires InRange(s, Shifted(p0, (n - 1) * t)) && !InRange(s, Shifted(p0, n * t))
    ensures (Ticks(s.end.value) - Ticks(s.start.value)) / Abs(t) == n - 1
  {
    assert (n - 1) * t + t == n * t;
    if t < 0 {
      assert (n - 1) * Abs(t) == -((n - 1) * t) && n * Abs(t) == -(n * t);
    }
    PointsInSpan(Ticks(s.end.value) - Ticks(s.start.value), Abs(t), n);
  }

  /** `hours()` tests the end for infinity in both directions; forwards it
      then starts from the start, and an absent start raises TypeError when
      the loop first tests it. */
  lemma HoursRaises(s: RangeState, reverse: bool, limit: nat)
    requires Valid(s) && limit >= 1
    ensures s.end.None? ==> Generate(s, HoursSetup(s, reverse), limit) == Gen([], Raised(PlainException))
    ensures s.end.Some? && s.start.None? && !reverse ==> Generate(s, HoursSetup(s, reverse), limit) == Gen([], Raised(TypeError))
    ensures s.end.Some? && (s.start.Some? || reverse) ==> HoursSetup(s, reverse).Ok?
  {
  }

  /** Once started, `hours()` is `cycles` by one hour, forwards from the start
      or backwards from the end. */
  lemma HoursAreCycles(s: RangeState, reverse: bool)
    requires Valid(s) && HoursSetup(s, reverse).Ok?
    ensures HoursSetup(s, reverse) == CyclesSetup(s, if reverse then -3_600_000_000 else 3_600_000_000)
  {
  }

  /** On a range of dates an hour moves a date by no whole day, so `hours()`
      forwards yields the start again and again and never stops by itself. */
  lemma HoursStallOnDates(s: RangeState, limit: nat)
    requires Valid(s) && s.dateClass == Some(DateKind) && s.start.Some? && s.end.Some?
    ensures var g := Generate(s, HoursSetup(s, false), limit);
            g.stop == LimitReached && |g.items| == limit &&
            forall i :: 0 <= i < |g.items| ==> g.items[i] == s.start.value
  {
    var p0 := s.start.value;
    var track := (n: nat) => CycleCursor(p0, 0, n);
    CyclesTrack(p0, 3_600_000_000);
    assert StepTicks(KindOf(p0), 3_600_000_000) == 0;
    if limit >= 1 {
      forall n: nat
        ensures Contains(s, track(n).d) == Ok(true)
      {
        assert track(n).d == p0;
      }
      RunTrackForever(s, Advance(Shift(3_600_000_000)), track, 0, limit);
      RunTrack(s, Advance(Shift(3_600_000_000)), track, 0, limit);
    }
  }

  // ------------------------------------------------------------------
  // Walks along a calendar index: days, pentads, months
  // ------------------------------------------------------------------

  /** `g + dir * n`. */
  function Along(g: int, dir: Dir, n: nat): int {
    if dir == 1 then g + n else g - n
  }

  /** The cursor of an index walk `n` steps along: the anchor of index
      `g0 + dir * n`, and the point `off` after it. */
  function AnchorCursor(anchor: int -> TimePoint, g0: int, dir: Dir, off: int, n: nat): Cursor {
    var a := anchor(Along(g0, dir, n));
    Cursor(Add(a, off), a)
  }

  /** The walker moves the anchor from each index to the next index in the
      direction of travel, keeping the offset. */
  ghost predicate Steps(w: Walker, anchor: int -> TimePoint, dir: Dir, off: int) {
    forall g: int :: Next(w, Cursor(Add(anchor(g), off), anchor(g))) == Ok(Cursor(Add(anchor(g + dir), off), anchor(g + dir)))
  }

  /** Anchors of kind `k` whose ticks grow by at least one from each index
      to the next. */
  ghost predicate Ascending(anchor: int -> TimePoint, k: Kind) {
    && (forall g: int :: KindOf(anchor(g)) == k)
    && (forall g: int :: Ticks(anchor(g)) + 1 <= Ticks(anchor(g + 1)))
  }

  lemma AnchorTrack(w: Walker, anchor: int -> TimePoint, g0: int, dir: Dir, off: int)
    requires Steps(w, anchor, dir, off)
    ensures Tracks(Advance(w), (n: nat) => AnchorCursor(anchor, g0, dir, off, n))
  {
    forall n: nat
      ensures Advance(w)(AnchorCursor(anchor, g0, dir, off, n)) == Ok(AnchorCursor(anchor, g0, dir, off, n + 1))
    {
      assert Along(g0, dir, n + 1) == Along(g0, dir, n) + dir;
    }
  }

  lemma AnchorProgress(anchor: int -> TimePoint, k: Kind, g0: int, dir: Dir, off: int)
    requires Ascending(anchor, k)
    ensures Progresses((n: nat) => AnchorCursor(anchor, g0, dir, off, n), dir == 1)
  {
    forall n: nat
      ensures if dir == 1 then Ticks(AnchorCursor(anchor, g0, dir, off, n).d) + 1 <= Ticks(AnchorCursor(anchor, g0, dir, off, n + 1).d)
              else Ticks(AnchorCursor(anchor, g0, dir, off, n + 1).d) + 1 <= Ticks(AnchorCursor(anchor, g0, dir, off, n).d)
    {
      var g := Along(g0, dir, n);
      if dir == 1 {
        assert Along(g0, dir, n + 1) == g + 1;
      } else {
        assert Along(g0, dir, n + 1) + 1 == g;
      }
    }
  }

  /** The shared end of the setups starts the loop on an index walk: on
      index `g`, or with `snap`, when its anchor is outside the range, on
      the next index in the direction of travel. */
  lemma SnapSetupOnTrack(s: RangeState, w: Walker, snap: bool, anchor: int -> TimePoint, g: int, dir: Dir, off: int,
                         a: TimePoint, a': TimePoint)
    requires Valid(s) && s.dateClass.Some? && KindOf(anchor(g)) == s.dateClass.value
    requires a == anchor(g) && a' == anchor(Along(g, dir, 1))
    ensures var off' := if snap then 0 else off;
            var g' := if snap && !InRange(s, anchor(g)) then Along(g, dir, 1) else g;
            SnapSetup(s, w, snap, a, off, a') ==
              Ok(Setup(WithOffset(w, off'), AnchorCursor(anchor, g', dir, off', 0)))
  {
  }

  /** A generator that walks an index yields the offset after each anchor in
      turn, for as long as those points lie in the range, and never raises. */
  lemma AnchoredPoints(s: RangeState, setup: Result<Setup>, anchor: int -> TimePoint, g0: int, dir: Dir, off: int, limit: nat)
    requires Valid(s) && s.dateClass.Some?
    requires setup.Ok? && setup.value.c == AnchorCursor(anchor, g0, dir, off, 0)
    requires Steps(setup.value.w, anchor, dir, off)
    requires forall g: int :: KindOf(anchor(g)) == s.dateClass.value
    ensures var gen := Generate(s, setup, limit);
            && (forall i :: 0 <= i < |gen.items| ==> gen.items[i] == Add(anchor(Along(g0, dir, i)), off))
            && !gen.stop.Raised?
            && (gen.stop == Exhausted ==> !InRange(s, Add(anchor(Along(g0, dir, |gen.items|)), off)))
  {
    AnchorTrack(setup.value.w, anchor, g0, dir, off);
    GenerateTrack(s, setup, (n: nat) => AnchorCursor(anchor, g0, dir, off, n), limit);
  }

  /** On a range with both bounds, a generator whose anchors ascend stops by
      itself once the caller pulls enough. */
  lemma AnchoredEnd(s: RangeState, setup: Result<Setup>, anchor: int -> TimePoint, g0: int, dir: Dir, off: int, limit: nat)
    requires Valid(s) && s.start.Some? && s.end.Some?
    requires limit > Ticks(s.end.value) - Ticks(s.start.value) + 1
    requires setup.Ok? && setup.value.c == AnchorCursor(anchor, g0, dir, off, 0)
    requires Steps(setup.value.w, anchor, dir, off)
    requires Ascending(anchor, s.dateClass.value)
    ensures Generate(s, setup, limit).stop == Exhausted
  {
    var track := (n: nat) => AnchorCursor(anchor, g0, dir, off, n);
    AnchorTrack(setup.value.w, anchor, g0, dir, off);
    AnchorProgress(anchor, s.dateClass.value, g0, dir, off);
    RunTrackEnds(s, Advance(setup.value.w), track, dir == 1, limit);
  }

  // ------------------------------------------------------------------
  // days
  // ------------------------------------------------------------------

  /** The anchors of `days`: the midnight of each day ordinal. */
  function DayAnchor(k: Kind): int -> TimePoint {
    (o: int) => Midnight(k, o)
  }

  /** One day's advance moves the anchor to the next midnight. */
  lemma NextMidnight(k: Kind, o: int, dir: Dir)
    ensures Add(Midnight(k, o), dir * 86_400_000_000) == Midnight(k, o + dir)
  {
  }

  lemma DaysSteps(k: Kind, dir: Dir, off: int)
    ensures Steps(DayWalk(dir * 86_400_000_000, off), DayAnchor(k), dir, off)
    ensures Ascending(DayAnchor(k), k)
  {
    forall o: int
      ensures Next(DayWalk(dir * 86_400_000_000, off), Cursor(Add(Midnight(k, o), off), Midnight(k, o))) ==
              Ok(Cursor(Add(Midnight(k, o + dir), off), Midnight(k, o + dir)))
    {
      NextMidnight(k, o, dir);
    }
  }

  /** The day of the first point of `days(snap, reverse)`: the day of the
      starting bound, or with `snap`, when that day's midnight is outside the
      range, the next day in the direction of travel. */
  function FirstDay(s: RangeState, snap: bool, reverse: bool): int
    requires Origin(s, reverse, PlainException).Ok?
  {
    var d1 := Origin(s, reverse, PlainException).value;
    var o := DayOf(d1);
    if snap && !InRange(s, Midnight(KindOf(d1), o)) then Along(o, Direction(reverse), 1) else o
  }

  /** The time of day of every point of `days(snap, reverse)`: that of the
      starting bound, or midnight with `snap`. */
  function DayOffset(s: RangeState, snap: bool, reverse: bool): int
    requires Origin(s, reverse, PlainException).Ok?
  {
    var d1 := Origin(s, reverse, PlainException).value;
    if snap then 0 else Diff(d1, DayStart(KindOf(d1), d1))
  }

  /** The setup of `days` starts the loop on its day walk. */
  lemma DaysSetupOnTrack(s: RangeState, snap: bool, reverse: bool)
    requires Valid(s) && Origin(s, reverse, PlainException).Ok?
    ensures var dir := Direction(reverse);
            var off := DayOffset(s, snap, reverse);
            DaysSetup(s, snap, reverse) ==
              Ok(Setup(DayWalk(dir * 86_400_000_000, off),
                       AnchorCursor(DayAnchor(s.dateClass.value), FirstDay(s, snap, reverse), dir, off, 0)))
  {
    var d1 := Origin(s, reverse, PlainException).value;
    var k, dir := KindOf(d1), Direction(reverse);
    NextMidnight(k, DayOf(d1), dir);
    SnapSetupOnTrack(s, DayWalk((dir as int) * 86_400_000_000, 0), snap, DayAnchor(k), DayOf(d1), dir, Diff(d1, DayStart(k, d1)),
                     DayStart(k, d1), Add(DayStart(k, d1), (dir as int) * 86_400_000_000));
  }

  /** `days(snap, reverse)` raises the plain exception, before yielding
      anything, exactly when it starts from an absent bound. */
  lemma DaysRaises(s: RangeState, snap: bool, reverse: bool, limit: nat)
    requires Valid(s) && limit >= 1
    ensures Generate(s, DaysSetup(s, snap, reverse), limit) == Gen([], Raised(PlainException))
            <==> Origin(s, reverse, PlainException).Err?
  {
    if Origin(s, reverse, PlainException).Ok? {
      DaysPoints(s, snap, reverse, limit);
    }
  }

  /** Otherwise the `i`-th point of `days(snap, reverse)` is `i` days from
      the first day, at the same time of day, for as long as those points lie
      in the range, and it never raises. */
  lemma DaysPoints(s: RangeState, snap: bool, reverse: bool, limit: nat)
    requires Valid(s) && Origin(s, reverse, PlainException).Ok?
    ensures var g := Generate(s, DaysSetup(s, snap, reverse), limit);
            var k := s.dateClass.value;
            var dir := Direction(reverse);
            var o, off := FirstDay(s, snap, reverse), DayOffset(s, snap, reverse);
            && (forall i :: 0 <= i < |g.items| ==> g.items[i] == Add(Midnight(k, Along(o, dir, i)), off))
            && !g.stop.Raised?
            && (g.stop == Exhausted ==> !InRange(s, Add(Midnight(k, Along(o, dir, |g.items|)), off)))
  {
    var k := s.dateClass.value;
    var dir := Direction(reverse);
    var o, off := FirstDay(s, snap, reverse), DayOffset(s, snap, reverse);
    DaysSetupOnTrack(s, snap, reverse);
    DaysSteps(k, dir, off);
    AnchoredPoints(s, DaysSetup(s, snap, reverse), DayAnchor(k), o, dir, off, limit);
  }

  /** Without `snap`, `days` yields the starting bound first. */
  lemma DaysStartAtBound(s: RangeState, reverse: bool, limit: nat)
    requires Valid(s) && Origin(s, reverse, PlainException).Ok? && limit >= 1
    ensures var g := Generate(s, DaysSetup(s, false, reverse), limit);
            |g.items| >= 1 && g.items[0] == Origin(s, reverse, PlainException).value
  {
    var d1 := Origin(s, reverse, PlainException).value;
    var st := DaysSetup(s, false, reverse).value;
    assert st.c.d == d1;
    RunEnds(s, Advance(st.w), st.c, limit);
  }

  /** On a range with both bounds, `days` stops by itself once the caller
      pulls enough. */
  lemma DaysEnd(s: RangeState, snap: bool, reverse: bool, limit: nat)
    requires Valid(s) && s.start.Some? && s.end.Some?
    requires limit > Ticks(s.end.value) - Ticks(s.start.value) + 1
    ensures Generate(s, DaysSetup(s, snap, reverse), limit).stop == Exhausted
  {
    var k := s.dateClass.value;
    var dir := Direction(reverse);
    var o, off := FirstDay(s, snap, reverse), DayOffset(s, snap, reverse);
    DaysSetupOnTrack(s, snap, reverse);
    DaysSteps(k, dir, off);
    AnchoredEnd(s, DaysSetup(s, snap, reverse), DayAnchor(k), o, dir, off, limit);
  }

  // ------------------------------------------------------------------
  // pentads
  // ------------------------------------------------------------------

  /** The anchors of `pentads`: the midnight that starts each pentad index. */
  function PentadAnchor(k: Kind): int -> TimePoint {
    (g: int) => Midnight(k, PentadIndexStart(g))
  }

  lemma PentadWalkStep(k: Kind, dir: Dir, off: int, a: TimePoint, a': TimePoint)
    requires PentadNext(k, a, dir) == a'
    ensures Next(PentadWalk(k, dir, off), Cursor(Add(a, off), a)) == Ok(Cursor(Add(a', off), a'))
  {
  }

  lemma PentadIndexWalkStep(k: Kind, dir: Dir, off: int, g: int)
    ensures Next(PentadWalk(k, dir, off), Cursor(Add(Midnight(k, PentadIndexStart(g)), off), Midnight(k, PentadIndexStart(g)))) ==
            Ok(Cursor(Add(Midnight(k, PentadIndexStart(g + dir)), off), Midnight(k, PentadIndexStart(g + dir))))
  {
    PentadNextIndex(k, g, dir);
    PentadWalkStep(k, dir, off, Midnight(k, PentadIndexStart(g)), Midnight(k, PentadIndexStart(g + dir)));
  }

  lemma PentadsSteps(k: Kind, dir: Dir, off: int)
    ensures Steps(PentadWalk(k, dir, off), PentadAnchor(k), dir, off)
  {
    forall g: int
      ensures Next(PentadWalk(k, dir, off), Cursor(Add(PentadAnchor(k)(g), off), PentadAnchor(k)(g))) ==
              Ok(Cursor(Add(PentadAnchor(k)(g + dir), off), PentadAnchor(k)(g + dir)))
    {
      assert PentadAnchor(k)(g) == Midnight(k, PentadIndexStart(g));
      assert PentadAnchor(k)(g + dir) == Midnight(k, PentadIndexStart(g + dir));
      PentadIndexWalkStep(k, dir, off, g);
    }
  }

  /** Consecutive pentads start at least five days apart. */
  lemma PentadsAscend(k: Kind)
    ensures Ascending(PentadAnchor(k), k)
  {
    forall g: int
      ensures Ticks(PentadAnchor(k)(g)) + 1 <= Ticks(PentadAnchor(k)(g + 1))
    {
      PentadIndexStep(g);
    }
  }

  /** The pentad index of the first point of `pentads(snap, reverse)`: the
      pentad of the starting bound, or with `snap`, when that pentad starts
      outside the range, the neighbouring one in the direction of travel. */
  function FirstPentad(s: RangeState, snap: bool, reverse: bool): int
    requires Valid(s) && Origin(s, reverse, ValueError).Ok?
  {
    var g := PentadIndexOfPoint(Origin(s, reverse, ValueError).value);
    if snap && !InRange(s, PentadAnchor(s.dateClass.value)(g)) then Along(g, Direction(reverse), 1) else g
  }

  /** The offset of every point of `pentads(snap, reverse)` from the start of
      its pentad: that of the starting bound, or none with `snap`. */
  function PentadOffset(s: RangeState, snap: bool, reverse: bool): int
    requires Valid(s) && Origin(s, reverse, ValueError).Ok?
  {
    var d1 := Origin(s, reverse, ValueError).value;
    if snap then 0 else Diff(d1, PentadStart(s.dateClass.value, d1))
  }

  /** The pentad index of the pentad holding a point. */
  function PentadIndexOfPoint(d: TimePoint): int {
    PentadIndexOf(DateOf(d).year, PointToPentad(d))
  }

  /** The start of the pentad of `d1`, and the step the setup takes from it
      with `snap`, on the pentad index. */
  lemma PentadsFirstAnchor(k: Kind, d1: TimePoint, dir: Dir)
    ensures PentadStart(k, d1) == PentadAnchor(k)(PentadIndexOfPoint(d1))
    ensures PentadStep(k, DateOf(PentadStart(k, d1)).year, PointToPentad(d1), dir) == PentadAnchor(k)(Along(PentadIndexOfPoint(d1), dir, 1))
  {
    PentadStartIndex(k, d1);
    PentadStartYear(k, d1);
    PentadNextAnchor(k, DateOf(d1).year, PointToPentad(d1), dir);
  }

  /** The start of the pentad of `d1` lies in the year of `d1`. */
  lemma PentadStartYear(k: Kind, d1: TimePoint)
    ensures DateOf(PentadStart(k, d1)).year == DateOf(d1).year
  {
    var y, p := DateOf(d1).year, PointToPentad(d1);
    PentadStartIndex(k, d1);
    PentadIndexRoundTrip(y, p);
    PentadStartFields(k, y, p);
  }

  /** The step from pentad `p` of year `y` lands on the next pentad index. */
  lemma PentadNextAnchor(k: Kind, y: int, p: int, dir: Dir)
    requires 1 <= p <= 73
    ensures PentadStep(k, y, p, dir) == PentadAnchor(k)(Along(PentadIndexOf(y, p), dir, 1))
  {
    PentadStepIndex(k, y, p, dir);
  }

  /** `pentads` takes its anchor and its neighbour from the first point. */
  lemma PentadsSetupAt(s: RangeState, snap: bool, reverse: bool, d1: TimePoint, k: Kind)
    requires Valid(s) && Origin(s, reverse, ValueError) == Ok(d1) && s.dateClass == Some(k)
    ensures var g := PentadIndexOfPoint(d1);
            PentadsSetup(s, snap, reverse) ==
              SnapSetup(s, PentadWalk(k, Direction(reverse), 0), snap, PentadAnchor(k)(g), Diff(d1, PentadStart(k, d1)),
                        PentadAnchor(k)(Along(g, Direction(reverse), 1)))
  {
    PentadsFirstAnchor(k, d1, Direction(reverse));
  }

  /** The end of the setup of `pentads`, on any pentad index `g`. */
  lemma PentadsSetupVia(s: RangeState, snap: bool, dir: Dir, k: Kind, g: int, off: int, setup: Result<Setup>)
    requires Valid(s) && s.dateClass == Some(k)
    requires setup == SnapSetup(s, PentadWalk(k, dir, 0), snap, PentadAnchor(k)(g), off, PentadAnchor(k)(Along(g, dir, 1)))
    ensures var off' := if snap then 0 else off;
            setup ==
              Ok(Setup(PentadWalk(k, dir, off'),
                       AnchorCursor(PentadAnchor(k), if snap && !InRange(s, PentadAnchor(k)(g)) then Along(g, dir, 1) else g,
                                    dir, off', 0)))
  {
    SnapSetupOnTrack(s, PentadWalk(k, dir, 0), snap, PentadAnchor(k), g, dir, off,
                     PentadAnchor(k)(g), PentadAnchor(k)(Along(g, dir, 1)));
  }

  /** The setup of `pentads` starts the loop on its pentad walk. */
  lemma PentadsSetupOnTrack(s: RangeState, snap: bool, reverse: bool)
    requires Valid(s) && Origin(s, reverse, ValueError).Ok?
    ensures var dir := Direction(reverse);
            var off := PentadOffset(s, snap, reverse);
            PentadsSetup(s, snap, reverse) ==
              Ok(Setup(PentadWalk(s.dateClass.value, dir, off),
                       AnchorCursor(PentadAnchor(s.dateClass.value), FirstPentad(s, snap, reverse), dir, off, 0)))
  {
    var d1 := Origin(s, reverse, ValueError).value;
    PentadsSetupAt(s, snap, reverse, d1, s.dateClass.value);
    PentadsSetupVia(s, snap, Direction(reverse), s.dateClass.value, PentadIndexOfPoint(d1),
                    Diff(d1, PentadStart(s.dateClass.value, d1)), PentadsSetup(s, snap, reverse));
  }

  /** `pentads(snap, reverse)` raises ValueError, before yielding anything,
      exactly when it starts from an absent bound. */
  lemma PentadsRaises(s: RangeState, snap: bool, reverse: bool, limit: nat)
    requires Valid(s) && limit >= 1
    ensures Generate(s, PentadsSetup(s, snap, reverse), limit) == Gen([], Raised(ValueError))
            <==> Origin(s, reverse, ValueError).Err?
  {
    if Origin(s, reverse, ValueError).Ok? {
      PentadsPoints(s, snap, reverse, limit);
    }
  }

  /** Otherwise the `i`-th point of `pentads(snap, reverse)` lies the offset
      after the start of the `i`-th pentad from the first one, for as long as
      those points lie in the range, and it never raises. */
  lemma PentadsPoints(s: RangeState, snap: bool, reverse: bool, limit: nat)
    requires Valid(s) && Origin(s, reverse, ValueError).Ok?
    ensures var g := Generate(s, PentadsSetup(s, snap, reverse), limit);
            var k := s.dateClass.value;
            var dir := Direction(reverse);
            var g0, off := FirstPentad(s, snap, reverse), PentadOffset(s, snap, reverse);
            && (forall i :: 0 <= i < |g.items| ==>
                  g.items[i] == Add(Midnight(k, PentadIndexStart(Along(g0, dir, i))), off))
            && !g.stop.Raised?
            && (g.stop == Exhausted ==> !InRange(s, Add(Midnight(k, PentadIndexStart(Along(g0, dir, |g.items|))), off)))
  {
    var k := s.dateClass.value;
    var dir := Direction(reverse);
    var g0, off := FirstPentad(s, snap, reverse), PentadOffset(s, snap, reverse);
    PentadsSetupOnTrack(s, snap, reverse);
    PentadsSteps(k, dir, off);
    AnchoredPoints(s, PentadsSetup(s, snap, reverse), PentadAnchor(k), g0, dir, off, limit);
  }

  /** A clean pentad: midnight of the first day of its own pentad. */
  predicate CleanPentad(k: Kind, p: TimePoint) {
    && p == Midnight(k, DayOf(p))
    && DateToDayOfYear(p) == (PointToPentad(p) - 1) * 5 + 1
  }

  lemma PentadIndexClean(k: Kind, g: int)
    ensures CleanPentad(k, Midnight(k, PentadIndexStart(g)))
  {
    var y, p := g / 73, g % 73 + 1;
    DivMod(g, 73);
    PentadStartFields(k, y, p);
  }

  /** Points at the starts of successive pentad indices are clean pentads. */
  lemma PentadItemsClean(k: Kind, g0: int, dir: Dir, items: seq<TimePoint>)
    requires forall i :: 0 <= i < |items| ==> items[i] == Add(Midnight(k, PentadIndexStart(Along(g0, dir, i))), 0)
    ensures forall i :: 0 <= i < |items| ==> CleanPentad(k, items[i])
  {
    forall i | 0 <= i < |items|
      ensures CleanPentad(k, items[i])
    {
      var a := Midnight(k, PentadIndexStart(Along(g0, dir, i)));
      assert Add(a, 0) == a;
      PentadIndexClean(k, Along(g0, dir, i));
    }
  }

  /** With `snap`, `pentads` yields only clean pentads of the range. */
  lemma PentadsSnapClean(s: RangeState, reverse: bool, limit: nat)
    requires Valid(s) && Origin(s, reverse, ValueError).Ok?
    ensures var g := Generate(s, PentadsSetup(s, true, reverse), limit);
            forall i :: 0 <= i < |g.items| ==> CleanPentad(s.dateClass.value, g.items[i]) && InRange(s, g.items[i])
  {
    PentadsPoints(s, true, reverse, limit);
    PentadItemsClean(s.dateClass.value, FirstPentad(s, true, reverse), Direction(reverse),
                     Generate(s, PentadsSetup(s, true, reverse), limit).items);
  }

  /** On a range with both bounds, `pentads` stops by itself once the caller
      pulls enough. */
  lemma PentadsEnd(s: RangeState, snap: bool, reverse: bool, limit: nat)
    requires Valid(s) && s.start.Some? && s.end.Some?
    requires limit > Ticks(s.end.value) - Ticks(s.start.value) + 1
    ensures Generate(s, PentadsSetup(s, snap, reverse), limit).stop == Exhausted
  {
    var k := s.dateClass.value;
    var dir := Direction(reverse);
    var g0, off := FirstPentad(s, snap, reverse), PentadOffset(s, snap, reverse);
    PentadsSetupOnTrack(s, snap, reverse);
    PentadsSteps(k, dir, off);
    PentadsAscend(k);
    AnchoredEnd(s, PentadsSetup(s, snap, reverse), PentadAnchor(k), g0, dir, off, limit);
  }

  // ------------------------------------------------------------------
  // months
  // ------------------------------------------------------------------

  /** The anchors of `months`: the first of each month index. */
  function MonthAnchor(k: Kind): int -> TimePoint {
    (g: int) => Midnight(k, MonthIndexStart(g))
  }

  /** From the first of month index `g`, the walk with the anchor tracked
      moves to the first of index `g + dir`, and so does the walk as written
      when it adds no offset. */
  lemma MonthIndexWalkStep(k: Kind, dir: Dir, off: int, g: int, anchored: bool)
    requires anchored || off == 0
    ensures Next(MonthWalker(anchored, k, dir, off), Cursor(Add(Midnight(k, MonthIndexStart(g)), off), Midnight(k, MonthIndexStart(g)))) ==
            Ok(Cursor(Add(Midnight(k, MonthIndexStart(g + dir)), off), Midnight(k, MonthIndexStart(g + dir))))
  {
    MonthAnchorNext(k, g, dir);
    MonthWalkStep(k, dir, off, anchored, Midnight(k, MonthIndexStart(g)), Midnight(k, MonthIndexStart(g + dir)));
  }

  lemma MonthWalkStep(k: Kind, dir: Dir, off: int, anchored: bool, a: TimePoint, a': TimePoint)
    requires anchored || off == 0
    requires MonthNext(k, a, dir) == a'
    ensures Next(MonthWalker(anchored, k, dir, off), Cursor(Add(a, off), a)) == Ok(Cursor(Add(a', off), a'))
  {
    if anchored {
      AnchoredMonthWalkStep(k, dir, off, a, a');
    } else {
      PlainMonthWalkStep(k, dir, a, a');
    }
  }

  lemma AnchoredMonthWalkStep(k: Kind, dir: Dir, off: int, a: TimePoint, a': TimePoint)
    requires MonthNext(k, a, dir) == a'
    ensures Next(AnchoredMonthWalk(k, dir, off), Cursor(Add(a, off), a)) == Ok(Cursor(Add(a', off), a'))
  {
  }

  lemma PlainMonthWalkStep(k: Kind, dir: Dir, a: TimePoint, a': TimePoint)
    requires MonthNext(k, a, dir) == a'
    ensures Next(MonthWalk(k, dir, 0), Cursor(Add(a, 0), a)) == Ok(Cursor(Add(a', 0), a'))
  {
    assert Add(a, 0) == a;
  }

  /** The step of `months` from the first of month index `g` lands on the
      first of index `g + dir`. */
  lemma MonthAnchorNext(k: Kind, g: int, dir: Dir)
    ensures MonthNext(k, Midnight(k, MonthIndexStart(g)), dir) == Midnight(k, MonthIndexStart(g + dir))
  {
    MonthStartFields(k, g);
    MonthNextIndex(k, Midnight(k, MonthIndexStart(g)), dir);
  }

  lemma MonthsSteps(k: Kind, dir: Dir, off: int, anchored: bool)
    requires anchored || off == 0
    ensures Steps(MonthWalker(anchored, k, dir, off), MonthAnchor(k), dir, off)
  {
    forall g: int
      ensures Next(MonthWalker(anchored, k, dir, off), Cursor(Add(MonthAnchor(k)(g), off), MonthAnchor(k)(g))) ==
              Ok(Cursor(Add(MonthAnchor(k)(g + dir), off), MonthAnchor(k)(g + dir)))
    {
      assert MonthAnchor(k)(g) == Midnight(k, MonthIndexStart(g));
      assert MonthAnchor(k)(g + dir) == Midnight(k, MonthIndexStart(g + dir));
      MonthIndexWalkStep(k, dir, off, g, anchored);
    }
  }

  /** Consecutive months start at least 28 days apart. */
  lemma MonthsAscend(k: Kind)
    ensures Ascending(MonthAnchor(k), k)
  {
    forall g: int
      ensures Ticks(MonthAnchor(k)(g)) + 1 <= Ticks(MonthAnchor(k)(g + 1))
    {
      MonthIndexStep(g);
    }
  }

  /** The month index of the first point of `months(snap, reverse)`: the
      month of the starting bound, or with `snap`, when the first of that
      month is outside the range, the next month in the direction of travel. */
  function FirstMonth(s: RangeState, snap: bool, reverse: bool): int
    requires Valid(s) && Origin(s, reverse, ValueError).Ok?
  {
    var g := MonthIndexOfPoint(Origin(s, reverse, ValueError).value);
    if snap && !InRange(s, MonthAnchor(s.dateClass.value)(g)) then Along(g, Direction(reverse), 1) else g
  }

  /** The offset `months(snap, reverse)` adds to each anchor. */
  function MonthOffset(s: RangeState, snap: bool, reverse: bool): int
    requires Valid(s) && Origin(s, reverse, ValueError).Ok?
  {
    var d := Origin(s, reverse, ValueError).value;
    if snap then 0 else Diff(d, MonthStart(s.dateClass.value, d))
  }

  /** The first of the month of `d`, and the step the setup takes from it
      with `snap`, on the month index. */
  lemma MonthsFirstAnchor(k: Kind, d: TimePoint, dir: Dir)
    ensures MonthStart(k, d) == MonthAnchor(k)(MonthIndexOfPoint(d))
    ensures MonthStep(k, DateOf(MonthStart(k, d)).year, DateOf(d).month, dir) == MonthAnchor(k)(Along(MonthIndexOfPoint(d), dir, 1))
  {
    MonthStartIndex(k, d);
    MonthStartYear(k, d);
    MonthNextAnchor(k, DateOf(d).year, DateOf(d).month, dir);
  }

  /** The first of the month of `d` lies in the year of `d`. */
  lemma MonthStartYear(k: Kind, d: TimePoint)
    ensures DateOf(MonthStart(k, d)).year == DateOf(d).year
  {
    var g := MonthIndexOfPoint(d);
    MonthStartIndex(k, d);
    MonthStartFields(k, g);
  }

  /** The step from month `m` of year `y` lands on the next month index. */
  lemma MonthNextAnchor(k: Kind, y: int, m: int, dir: Dir)
    requires 1 <= m <= 12
    ensures MonthStep(k, y, m, dir) == MonthAnchor(k)(Along(MonthIndexOf(y, m), dir, 1))
  {
    MonthStepIndex(k, y, m, dir);
  }

  /** `months` takes its anchor and its neighbour from the first point. */
  lemma MonthsSetupAt(s: RangeState, snap: bool, reverse: bool, anchored: bool, d: TimePoint, k: Kind)
    requires Valid(s) && Origin(s, reverse, ValueError) == Ok(d) && s.dateClass == Some(k)
    ensures var g := MonthIndexOfPoint(d);
            MonthsSetup(s, snap, reverse, anchored) ==
              SnapSetup(s, MonthWalker(anchored, k, Direction(reverse), 0), snap, MonthAnchor(k)(g), Diff(d, MonthStart(k, d)),
                        MonthAnchor(k)(Along(g, Direction(reverse), 1)))
  {
    MonthsFirstAnchor(k, d, Direction(reverse));
  }

  /** The end of the setup of `months`, on any month index `g`. */
  lemma MonthsSetupVia(s: RangeState, snap: bool, dir: Dir, k: Kind, anchored: bool, g: int, off: int, setup: Result<Setup>)
    requires Valid(s) && s.dateClass == Some(k)
    requires setup == SnapSetup(s, MonthWalker(anchored, k, dir, 0), snap, MonthAnchor(k)(g), off, MonthAnchor(k)(Along(g, dir, 1)))
    ensures var off' := if snap then 0 else off;
            setup ==
              Ok(Setup(MonthWalker(anchored, k, dir, off'),
                       AnchorCursor(MonthAnchor(k), if snap && !InRange(s, MonthAnchor(k)(g)) then Along(g, dir, 1) else g,
                                    dir, off', 0)))
  {
    SnapSetupOnTrack(s, MonthWalker(anchored, k, dir, 0), snap, MonthAnchor(k), g, dir, off,
                     MonthAnchor(k)(g), MonthAnchor(k)(Along(g, dir, 1)));
  }

  /** The setup of `months` starts the loop on its month walk. */
  lemma MonthsSetupOnTrack(s: RangeState, snap: bool, reverse: bool, anchored: bool)
    requires Valid(s) && Origin(s, reverse, ValueError).Ok?
    ensures var dir := Direction(reverse);
            var off := MonthOffset(s, snap, reverse);
            MonthsSetup(s, snap, reverse, anchored) ==
              Ok(Setup(MonthWalker(anchored, s.dateClass.value, dir, off),
                       AnchorCursor(MonthAnchor(s.dateClass.value), FirstMonth(s, snap, reverse), dir, off, 0)))
  {
    var d := Origin(s, reverse, ValueError).value;
    MonthsSetupAt(s, snap, reverse, anchored, d, s.dateClass.value);
    MonthsSetupVia(s, snap, Direction(reverse), s.dateClass.value, anchored, MonthIndexOfPoint(d),
                   Diff(d, MonthStart(s.dateClass.value, d)), MonthsSetup(s, snap, reverse, anchored));
  }

  /** `months(snap, reverse)` raises ValueError, before yielding anything,
      exactly when it starts from an absent bound; as written and with the
      anchor tracked alike. */
  lemma MonthsRaises(s: RangeState, snap: bool, reverse: bool, anchored: bool, limit: nat)
    requires Valid(s) && limit >= 1
    ensures Generate(s, MonthsSetup(s, snap, reverse, anchored), limit) == Gen([], Raised(ValueError))
            <==> Origin(s, reverse, ValueError).Err?
  {
    if Origin(s, reverse, ValueError).Ok? {
      var k := s.dateClass.value;
      var c := AnchorCursor(MonthAnchor(k), FirstMonth(s, snap, reverse), Direction(reverse), MonthOffset(s, snap, reverse), 0);
      MonthsSetupOnTrack(s, snap, reverse, anchored);
      RunEnds(s, Advance(MonthWalker(anchored, k, Direction(reverse), MonthOffset(s, snap, reverse))), c, limit);
    }
  }

  /** With the anchor tracked, or with `snap` (which drops the offset, so
      that both walks agree), the `i`-th point of `months` lies the offset
      after the first of the `i`-th month from the first one, for as long as
      those points lie in the range, and it never raises. */
  lemma MonthsPoints(s: RangeState, snap: bool, reverse: bool, anchored: bool, limit: nat)
    requires Valid(s) && Origin(s, reverse, ValueError).Ok? && (anchored || snap)
    ensures var g := Generate(s, MonthsSetup(s, snap, reverse, anchored), limit);
            var k := s.dateClass.value;
            var dir := Direction(reverse);
            var g0, off := FirstMonth(s, snap, reverse), MonthOffset(s, snap, reverse);
            && (forall i :: 0 <= i < |g.items| ==>
                  g.items[i] == Add(Midnight(k, MonthIndexStart(Along(g0, dir, i))), off))
            && !g.stop.Raised?
            && (g.stop == Exhausted ==> !InRange(s, Add(Midnight(k, MonthIndexStart(Along(g0, dir, |g.items|))), off)))
  {
    var k := s.dateClass.value;
    var dir := Direction(reverse);
    var g0, off := FirstMonth(s, snap, reverse), MonthOffset(s, snap, reverse);
    MonthsSetupOnTrack(s, snap, reverse, anchored);
    MonthsSteps(k, dir, off, anchored);
    AnchoredPoints(s, MonthsSetup(s, snap, reverse, anchored), MonthAnchor(k), g0, dir, off, limit);
  }

  /** With `snap`, `months` as written yields what it yields with the anchor
      tracked. */
  lemma MonthsSnapAgree(s: RangeState, reverse: bool, limit: nat)
    requires Valid(s)
    ensures Generate(s, MonthsSetup(s, true, reverse, false), limit) == Generate(s, MonthsSetup(s, true, reverse, true), limit)
  {
    if Origin(s, reverse, ValueError).Ok? && limit >= 1 {
      var k, dir, g0 := s.dateClass.value, Direction(reverse), FirstMonth(s, true, reverse);
      MonthsSetupOnTrack(s, true, reverse, false);
      MonthsSetupOnTrack(s, true, reverse, true);
      MonthsSteps(k, dir, 0, false);
      MonthsSteps(k, dir, 0, true);
      AnchorTrack(MonthWalk(k, dir, 0), MonthAnchor(k), g0, dir, 0);
      AnchorTrack(AnchoredMonthWalk(k, dir, 0), MonthAnchor(k), g0, dir, 0);
      RunAgree(s, Advance(MonthWalk(k, dir, 0)), Advance(AnchoredMonthWalk(k, dir, 0)),
               (n: nat) => AnchorCursor(MonthAnchor(k), g0, dir, 0, n), 0, limit);
    }
  }

  /** With the anchor tracked, `months` stops by itself on a range with both
      bounds once the caller pulls enough; with `snap` so does `months` as
      written. */
  lemma MonthsEnd(s: RangeState, snap: bool, reverse: bool, anchored: bool, limit: nat)
    requires Valid(s) && s.start.Some? && s.end.Some? && (anchored || snap)
    requires limit > Ticks(s.end.value) - Ticks(s.start.value) + 1
    ensures Generate(s, MonthsSetup(s, snap, reverse, anchored), limit).stop == Exhausted
  {
    var k := s.dateClass.value;
    var dir := Direction(reverse);
    var g0, off := FirstMonth(s, snap, reverse), MonthOffset(s, snap, reverse);
    MonthsSetupOnTrack(s, snap, reverse, anchored);
    MonthsSteps(k, dir, off, anchored);
    MonthsAscend(k);
    AnchoredEnd(s, MonthsSetup(s, snap, reverse, anchored), MonthAnchor(k), g0, dir, off, limit);
  }

  /** The setup of `months` as written, without `snap`, from the first
      point `d`: the loop starts on `d` itself, with the first of its month
      as the anchor and the time from that anchor to `d` as the offset. */
  lemma PlainMonthsSetup(s: RangeState, reverse: bool, d: TimePoint, a: TimePoint, off: int, a': TimePoint)
    requires Valid(s) && Origin(s, reverse, ValueError) == Ok(d)
    requires MonthStart(s.dateClass.value, d) == a && Diff(d, a) == off
    requires MonthStep(s.dateClass.value, DateOf(a).year, DateOf(d).month, Direction(reverse)) == a'
    ensures MonthsSetup(s, false, reverse, false) == Ok(Setup(MonthWalk(s.dateClass.value, Direction(reverse), off), Cursor(d, a)))
  {
    PlainMonthsSetupAt(s, reverse, d, a, off, a');
    PlainSnapSetup(s, s.dateClass.value, Direction(reverse), d, a, off, a');
  }

  lemma PlainMonthsSetupAt(s: RangeState, reverse: bool, d: TimePoint, a: TimePoint, off: int, a': TimePoint)
    requires Valid(s) && Origin(s, reverse, ValueError) == Ok(d)
    requires MonthStart(s.dateClass.value, d) == a && Diff(d, a) == off
    requires MonthStep(s.dateClass.value, DateOf(a).year, DateOf(d).month, Direction(reverse)) == a'
    ensures MonthsSetup(s, false, reverse, false) == SnapSetup(s, MonthWalk(s.dateClass.value, Direction(reverse), 0), false, a, off, a')
  {
  }

  lemma PlainSnapSetup(s: RangeState, k: Kind, dir: Dir, d: TimePoint, a: TimePoint, off: int, a': TimePoint)
    requires KindOf(a) == KindOf(d) && Diff(d, a) == off
    ensures SnapSetup(s, MonthWalk(k, dir, 0), false, a, off, a') == Ok(Setup(MonthWalk(k, dir, off), Cursor(d, a)))
  {
    AddDiff(d, a);
  }

  /** One step of `months` as written: the next anchor is the first of the
      month next to the month of the point `d`, not of the anchor. */
  lemma PlainMonthStep(k: Kind, dir: Dir, off: int, c: Cursor, a': TimePoint)
    requires MonthNext(k, c.d, dir) == a'
    ensures Next(MonthWalk(k, dir, off), c) == Ok(Cursor(Add(a', off), a'))
  {
  }
}
