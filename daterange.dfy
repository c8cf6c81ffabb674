/** The class `DateRange` of `eon/__init__.py`: its five fields, the
    constructor and the two setters that assign them, and the loops of the
    point generators. The queries that only read the fields (`in`,
    `intersection`, `span`, the comparisons, `startat`, `endat`, `slide`) are
    the functions of `Ranges` applied to `State()`. */
module DateRanges {
  import opened Base
  import opened Time
  import opened Grid
  import opened Ranges
  import opened Generators
  import opened Tiling

  /** The items of `g` after `items`. */
  function Then<T>(items: seq<T>, g: Gen<T>): Gen<T> {
    Gen(items + g.items, g.stop)
  }

  class DateRange {
    var start: Option<TimePoint>
    var end: Option<TimePoint>
    var dateClass: Option<Kind>
    var resolution: Option<int>
    var noBounds: bool

    function State(): RangeState
      reads this
    {
      RangeState(start, end, dateClass, resolution, noBounds)
    }

    predicate Valid()
      reads this
    {
      Ranges.Valid(State())
    }

    /** The object as `__init__` first makes it: `_start` and `_end` are None
        and nothing else is set yet. */
    constructor Blank()
      ensures State() == RangeState(None, None, None, None, false)
    {
      start, end, dateClass, resolution, noBounds := None, None, None, None, false;
    }

    /** `DateRange(date1, date2)`: the bounds are assigned one at a time,
        swapped when they are out of order, and the date class and resolution
        are taken from whichever bound is present. */
    static method Create(first: First, second: Second) returns (r: Result<DateRange>)
      ensures r.Err? <==> Construct(first, second).Err?
      ensures r.Err? ==> r.error == Construct(first, second).error
      ensures r.Ok? ==> fresh(r.value) && r.value.Valid()
      ensures r.Ok? ==> r.value.State() == Construct(first, second).value
    {
      var dr := new DateRange.Blank();
      match first {
        case CopyOf(src) =>
          if second != Absent {
            return Err(ValueError);
          }
          dr.start, dr.end := src.start, src.end;
        case Bound(p) =>
          // `_validate(date1)` holds: both bounds are still None and every
          // point is a `datetime.date`.
          dr.start := p;
          match second {
            case Absent =>
              dr.end := None;
            case At(q) =>
              if !Validates(dr.start, dr.end, q) {
                return Err(TypeError);
              }
              dr.end := Some(q);
            case Offset(td) =>
              if dr.start.None? {
                return Err(TypeError);
              }
              dr.end := Some(Add(dr.start.value, td));
          }
      }
      if dr.end.Some? && dr.start.Some? {
        if KindOf(dr.start.value) != KindOf(dr.end.value) {
          return Err(TypeError);
        }
        if Ticks(dr.start.value) > Ticks(dr.end.value) {
          dr.end, dr.start := dr.start, dr.end;
        }
      }
      if dr.start.Some? {
        dr.dateClass := Some(KindOf(dr.start.value));
      } else if dr.end.Some? {
        dr.dateClass := Some(KindOf(dr.end.value));
      }
      if dr.dateClass.Some? {
        dr.resolution := Some(Quantum(dr.dateClass.value));
      }
      r := Ok(dr);
    }

    /** `start(setdate)`: the new start is cast to the date class first;
        on any error nothing changes. */
    method SetStart(setdate: Option<TimePoint>) returns (out: Outcome)
      requires Valid()
      modifies this
      ensures Valid()
      ensures out == Pass <==> Ranges.SetStart(old(State()), setdate).Ok?
      ensures out == Pass ==> State() == Ranges.SetStart(old(State()), setdate).value
      ensures out.Fail? ==> out.error == Ranges.SetStart(old(State()), setdate).error && State() == old(State())
    {
      var c := Cast(State(), setdate);
      if c.Err? {
        return Fail(c.error);
      }
      var d := c.value;
      if d.None? {
        start := None;
        if end.None? {
          noBounds := true;
        }
      } else if end.Some? && IsInstance(d.value, KindOf(end.value)) {
        if KindOf(d.value) != KindOf(end.value) {
          return Fail(TypeError);
        }
        if Ticks(d.value) > Ticks(end.value) {
          return Fail(ValueError);
        }
        start := d;
      } else if end.None? && start.Some? && IsInstance(d.value, KindOf(start.value)) {
        start := d;
      } else {
        return Fail(TypeError);
      }
      return Pass;
    }

    /** `end(setdate)`, the mirror image of `start(setdate)`. */
    method SetEnd(setdate: Option<TimePoint>) returns (out: Outcome)
      requires Valid()
      modifies this
      ensures Valid()
      ensures out == Pass <==> Ranges.SetEnd(old(State()), setdate).Ok?
      ensures out == Pass ==> State() == Ranges.SetEnd(old(State()), setdate).value
      ensures out.Fail? ==> out.error == Ranges.SetEnd(old(State()), setdate).error && State() == old(State())
    {
      var c := Cast(State(), setdate);
      if c.Err? {
        return Fail(c.error);
      }
      var d := c.value;
      if d.None? {
        end := None;
        if start.None? {
          noBounds := true;
        }
      } else if start.Some? && IsInstance(d.value, KindOf(start.value)) {
        if KindOf(d.value) != KindOf(start.value) {
          return Fail(TypeError);
        }
        if Ticks(d.value) < Ticks(start.value) {
          return Fail(ValueError);
        }
        end := d;
      } else if start.None? && end.Some? && IsInstance(d.value, KindOf(end.value)) {
        end := d;
      } else {
        return Fail(TypeError);
      }
      return Pass;
    }

    /** The loop shared by the generators: `while d in self: yield d`, then
        the advance `step` of `d` and `dsnap`; at most `limit` pulls. */
    method Walk(step: Cursor -> Result<Cursor>, d0: TimePoint, dsnap0: TimePoint, limit: nat) returns (g: Gen<TimePoint>)
      requires Valid()
      ensures g == Run(State(), step, Cursor(d0, dsnap0), limit)
    {
      var s := State();
      var d, dsnap := d0, dsnap0;
      var items: seq<TimePoint> := [];
      var pulls: nat := 0;
      while pulls < limit
        invariant pulls <= limit
        invariant Run(s, step, Cursor(d0, dsnap0), limit) ==
                  Then(items, Run(s, step, Cursor(d, dsnap), limit - pulls))
        decreases limit - pulls
      {
        var inside := Contains(s, d);
        RunEnds(s, step, Cursor(d, dsnap), limit - pulls);
        if inside.Err? {
          return Gen(items, Raised(inside.error));
        }
        if !inside.value {
          return Gen(items, Exhausted);
        }
        if pulls + 1 == limit {
          return Gen(items + [d], LimitReached);
        }
        var next := step(Cursor(d, dsnap));
        if next.Err? {
          return Gen(items + [d], Raised(next.error));
        }
        RunMoves(s, step, items, Cursor(d, dsnap), limit - pulls);
        items, pulls := items + [d], pulls + 1;
        d, dsnap := next.value.d, next.value.dsnap;
      }
      return Gen(items, LimitReached);
    }

    /** `cycles(dt)`. */
    method Cycles(dt: int, limit: nat) returns (g: Gen<TimePoint>)
      requires Valid()
      ensures g == Generate(State(), CyclesSetup(State(), dt), limit)
    {
      g := Launch(CyclesSetup(State(), dt), limit);
    }

    /** `hours(snap, reverse)`; `snap` is accepted and ignored. */
    method Hours(snap: bool, reverse: bool, limit: nat) returns (g: Gen<TimePoint>)
      requires Valid()
      ensures g == Generate(State(), HoursSetup(State(), reverse), limit)
    {
      g := Launch(HoursSetup(State(), reverse), limit);
    }

    /** `days(snap, reverse)`. */
    method Days(snap: bool, reverse: bool, limit: nat) returns (g: Gen<TimePoint>)
      requires Valid()
      ensures g == Generate(State(), DaysSetup(State(), snap, reverse), limit)
    {
      g := Launch(DaysSetup(State(), snap, reverse), limit);
    }

    /** `pentads(snap, reverse)`. */
    method Pentads(snap: bool, reverse: bool, limit: nat) returns (g: Gen<TimePoint>)
      requires Valid()
      ensures g == Generate(State(), PentadsSetup(State(), snap, reverse), limit)
    {
      g := Launch(PentadsSetup(State(), snap, reverse), limit);
    }

    /** `months(snap, reverse)`, as written. */
    method Months(snap: bool, reverse: bool, limit: nat) returns (g: Gen<TimePoint>)
      requires Valid()
      ensures g == Generate(State(), MonthsSetup(State(), snap, reverse, false), limit)
    {
      g := Launch(MonthsSetup(State(), snap, reverse, false), limit);
    }

    /** `years(reverse, snap)`. */
    method Years(reverse: bool, snap: bool, limit: nat) returns (g: Gen<TimePoint>)
      requires Valid()
      ensures g == Generate(State(), YearsSetup(State(), reverse, snap), limit)
    {
      g := Launch(YearsSetup(State(), reverse, snap), limit);
    }

    /** `rcycle(gen, snap, reverse, full)`: the checks and the first pulls,
        then `while end in self`, which yields a tile and advances `start`,
        `_start` and `end`, and the closing tile when `gen` runs out. */
    method RCycle(gen: Gen<TimePoint>, snap: Arg, reverse: Arg, full: Arg) returns (out: Gen<RangeState>)
      requires Valid()
      ensures out == Tiling.RCycle(State(), gen, snap, reverse, full)
    {
      if full.Other? || reverse.Other? || snap.Other? {
        return Gen([], Raised(ValueError));
      }
      if resolution.None? {
        return Gen([], Raised(AttributeError));
      }
      var modifier := if reverse.b then resolution.value else -resolution.value;
      var t := Tiler(State(), gen, reverse.b, full.b, modifier);
      var naturalStart, naturalEnd := NaturalStart(t), NaturalEnd(t);
      var start: Option<TimePoint>;
      var next: TimePoint;
      var i: nat;
      match Pull(gen, 0) {
        case Failed(e) => return Gen([], Raised(e));
        case Unknown => return Gen([], LimitReached);
        case Stopped =>
          if full.b {
            return Gen([], Exhausted);
          }
          return Yield(Tile(this.start, end), Gen([], Exhausted));
        case Got(p0) =>
          if full.b || naturalStart == Some(p0) {
            start := Some(p0);
            match Pull(gen, 1) {
              case Got(p1) => next, i := p1, 2;
              case Stopped =>
                if full.b {
                  return Gen([], Exhausted);
                }
                return Yield(Tile(naturalStart, naturalEnd), Gen([], Exhausted));
              case Failed(e) => return Gen([], Raised(e));
              case Unknown => return Gen([], LimitReached);
            }
          } else {
            start, next, i := naturalStart, p0, 1;
          }
      }
      assert Tiling.RCycle(State(), gen, snap, reverse, full) == Enter(t, start, next, i);
      out := Tiles(t, start, next, i);
    }

    /** From `end = _start + resolution_modifier` on: the test `end not in
        self`, the loop and the closing tile. */
    method Tiles(t: Tiler, start0: Option<TimePoint>, next0: TimePoint, i0: nat) returns (out: Gen<RangeState>)
      requires Valid() && t.s == State() && i0 <= |t.gen.items|
      ensures out == Enter(t, start0, next0, i0)
    {
      var s := State();
      var inside := Contains(s, Add(next0, t.modifier));
      if inside.Err? {
        return Gen([], Raised(inside.error));
      }
      if !inside.value {
        if t.full {
          return Gen([], Exhausted);
        }
        return Yield(Tile(NaturalStart(t), NaturalEnd(t)), Gen([], Exhausted));
      }
      var start, next, i := start0, next0, i0;
      var items: seq<RangeState> := [];
      while true
        invariant i <= |t.gen.items|
        invariant Enter(t, start0, next0, i0) == Then(items, Loop(t, start, next, i))
        decreases |t.gen.items| - i
      {
        var tile := Tile(start, Some(Add(next, t.modifier)));
        if tile.Err? {
          return Gen(items, Raised(tile.error));
        }
        ghost var rest := After(t, next, i);
        assert items + ([tile.value] + rest.items) == (items + [tile.value]) + rest.items;
        items := items + [tile.value];
        match Pull(t.gen, i) {
          case Got(p) =>
            inside := Contains(s, Add(p, t.modifier));
            if inside.Err? {
              return Gen(items, Raised(inside.error));
            }
            if !inside.value {
              return Gen(items, Exhausted);
            }
            start, next, i := Some(next), p, i + 1;
          case Stopped =>
            // `start = _start` has run: `next` is the new `start`.
            if t.full {
              return Gen(items, Exhausted);
            }
            var last := Contains(s, next);
            if last.Err? {
              return Gen(items, Raised(last.error));
            }
            if !last.value {
              return Gen(items, Exhausted);
            }
            var closing := if t.reverse then Tile(Some(next), this.start) else Tile(end, Some(next));
            if closing.Err? {
              return Gen(items, Raised(closing.error));
            }
            return Gen(items + [closing.value], Exhausted);
          case Failed(e) => return Gen(items, Raised(e));
          case Unknown => return Gen(items, LimitReached);
        }
      }
    }

    /** The first pull runs the setup, then the loop. */
    method Launch(setup: Result<Setup>, limit: nat) returns (g: Gen<TimePoint>)
      requires Valid()
      ensures g == Generate(State(), setup, limit)
    {
      if limit == 0 {
        return Gen([], LimitReached);
      }
      match setup
      case Err(e) =>
        g := Gen([], Raised(e));
      case Ok(st) =>
        g := Walk(Advance(st.w), st.c.d, st.c.dsnap, limit);
    }
  }
}
