/** `DateRange.rcycle(gen, snap, reverse, full)` of `eon/__init__.py`: cut
    the range into the sub-ranges between successive points of a point
    generator. The generator is given as what it produces (`Gen`), so a pull
    of it yields a point, raises StopIteration, raises an exception, or lies
    beyond the pulls that were made. */
module Tiling {
  import opened Base
  import opened Time
  import opened Ranges
  import opened Generators

  /** A flag argument: `True`, `False`, or any other object. */
  datatype Arg = Bool(b: bool) | Other

  /** What the `i`-th `next(gen)` gives. */
  datatype Pulled = Got(p: TimePoint) | Stopped | Failed(error: Error) | Unknown

  function Pull(g: Gen<TimePoint>, i: nat): (r: Pulled)
    ensures r.Got? ==> i < |g.items| && r.p == g.items[i]
  {
    if i < |g.items| then Got(g.items[i])
    else match g.stop
      case Exhausted => Stopped
      case Raised(e) => Failed(e)
      case LimitReached => Unknown
  }

  /** `DateRange(a, b)` for two optional bounds. */
  function Tile(a: Option<TimePoint>, b: Option<TimePoint>): Result<RangeState> {
    Construct(Bound(a), SecondOf(b))
  }

  /** `yield DateRange(...)`, then the rest of the generator; a tile that
      cannot be built raises instead. */
  function Yield(t: Result<RangeState>, rest: Gen<RangeState>): Gen<RangeState> {
    match t
    case Err(e) => Gen([], Raised(e))
    case Ok(r) => Gen([r] + rest.items, rest.stop)
  }

  /** The fixed context of one call: the range, the point generator, the two
      flags that matter after the checks, and `resolution_modifier` (the
      resolution, negated when walking forward). */
  datatype Tiler = Tiler(s: RangeState, gen: Gen<TimePoint>, reverse: bool, full: bool, modifier: int)

  /** The bound the walk starts from, and the one it walks towards. */
  function NaturalStart(t: Tiler): Option<TimePoint> {
    if t.reverse then t.s.end else t.s.start
  }

  function NaturalEnd(t: Tiler): Option<TimePoint> {
    if t.reverse then t.s.start else t.s.end
  }

  /** The generator's points, as optional bounds. */
  function Points(g: Gen<TimePoint>): (a: seq<Option<TimePoint>>)
    ensures |a| == |g.items|
    ensures forall m :: 0 <= m < |a| ==> a[m] == Some(g.items[m])
  {
    seq(|g.items|, m requires 0 <= m < |g.items| => Some(g.items[m]))
  }

  /** `rcycle`, from its first pull. The flags are checked first, then the
      resolution is read (a range built without bounds never sets it). */
  function RCycle(s: RangeState, gen: Gen<TimePoint>, snap: Arg, reverse: Arg, full: Arg): Gen<RangeState> {
    if full.Other? || reverse.Other? || snap.Other? then Gen([], Raised(ValueError))
    else if s.resolution.None? then Gen([], Raised(AttributeError))
    else
      var t := Tiler(s, gen, reverse.b, full.b, if reverse.b then s.resolution.value else -s.resolution.value);
      match Pull(gen, 0)
      case Failed(e) => Gen([], Raised(e))
      case Unknown => Gen([], LimitReached)
      case Stopped =>
        // Not a single point: the whole range, unless only full tiles are wanted.
        if t.full then Gen([], Exhausted) else Yield(Tile(s.start, s.end), Gen([], Exhausted))
      case Got(p0) =>
        if t.full || NaturalStart(t) == Some(p0) then
          match Pull(gen, 1)
          case Got(p1) => Enter(t, Some(p0), p1, 2)
          case Stopped =>
            if t.full then Gen([], Exhausted) else Yield(Tile(NaturalStart(t), NaturalEnd(t)), Gen([], Exhausted))
          case Failed(e) => Gen([], Raised(e))
          case Unknown => Gen([], LimitReached)
        else Enter(t, NaturalStart(t), p0, 1)
  }

  /** `end = _start + resolution_modifier`, the test `end not in self`, and
      the loop when the first end is inside. `i` is the index of the next pull. */
  function Enter(t: Tiler, start: Option<TimePoint>, next: TimePoint, i: nat): Gen<RangeState> {
    match Contains(t.s, Add(next, t.modifier))
    case Err(e) => Gen([], Raised(e))
    case Ok(inside) =>
      if inside then Loop(t, start, next, i)
      else if t.full then Gen([], Exhausted)
      else Yield(Tile(NaturalStart(t), NaturalEnd(t)), Gen([], Exhausted))
  }

  /** One turn of `while end in self`, entered with the test passed: yield
      `DateRange(start, end)`, then go on as `After` says. */
  function Loop(t: Tiler, start: Option<TimePoint>, next: TimePoint, i: nat): Gen<RangeState>
    decreases |t.gen.items| - i, 1
  {
    Yield(Tile(start, Some(Add(next, t.modifier))), After(t, next, i))
  }

  /** The rest of a turn: `start = _start`, pull the next point and test
      its end. */
  function After(t: Tiler, next: TimePoint, i: nat): Gen<RangeState>
    decreases |t.gen.items| - i, 0
  {
    match Pull(t.gen, i)
    case Got(p) =>
      (match Contains(t.s, Add(p, t.modifier))
       case Err(e) => Gen([], Raised(e))
       case Ok(inside) => if inside then Loop(t, Some(next), p, i + 1) else Gen([], Exhausted))
    case Stopped => Closing(t, next)
    case Failed(e) => Gen([], Raised(e))
    case Unknown => Gen([], LimitReached)
  }

  /** The generator ran out inside the loop: unless only full tiles are
      wanted, the part between the last point and the far bound, provided the
      last point lies inside. */
  function Closing(t: Tiler, last: TimePoint): Gen<RangeState> {
    if t.full then Gen([], Exhausted)
    else match Contains(t.s, last)
      case Err(e) => Gen([], Raised(e))
      case Ok(inside) =>
        if !inside then Gen([], Exhausted)
        else Yield(if t.reverse then Tile(Some(last), t.s.start) else Tile(t.s.end, Some(last)), Gen([], Exhausted))
  }

  // ------------------------------------------------------------------
  // The tiles
  // ------------------------------------------------------------------

  /** The start of each tile in turn: the generator's points, after the
      natural start when the first point is not it (and full tiles are not
      asked for). */
  function Anchors(t: Tiler): seq<Option<TimePoint>> {
    if t.full || (|t.gen.items| > 0 && NaturalStart(t) == Some(t.gen.items[0])) then Points(t.gen)
    else [NaturalStart(t)] + Points(t.gen)
  }

  /** Tile `k` runs from anchor `k` to one resolution step before anchor
      `k + 1` (towards anchor `k`), and that end lies in the range. */
  predicate MainTile(t: Tiler, a: seq<Option<TimePoint>>, k: nat, r: RangeState) {
    && k + 1 < |a| && a[k + 1].Some?
    && InRange(t.s, Add(a[k + 1].value, t.modifier))
    && Tile(a[k], Some(Add(a[k + 1].value, t.modifier))) == Ok(r)
  }

  /** The loop, started at anchor `j`, yields as its tile `k` the main tile
      `j + k`, unless that is its last tile and partial tiles are allowed. */
  lemma {:induction false} LoopTile(t: Tiler, a: seq<Option<TimePoint>>, d: nat, j: nat, start: Option<TimePoint>, next: TimePoint, i: nat, k: nat)
    requires Valid(t.s)
    requires d <= 1 && |a| == |t.gen.items| + d
    requires forall m :: d <= m < |a| ==> a[m] == Some(t.gen.items[m - d])
    requires j + 1 < |a| && a[j] == start && a[j + 1] == Some(next) && i == j + 2 - d
    requires InRange(t.s, Add(next, t.modifier))
    requires k < |Loop(t, start, next, i).items| && (t.full || k + 1 < |Loop(t, start, next, i).items|)
    ensures MainTile(t, a, j + k, Loop(t, start, next, i).items[k])
    decreases k
  {
    var g := Loop(t, start, next, i);
    var tile := Tile(start, Some(Add(next, t.modifier)));
    var rest := After(t, next, i);
    assert tile.Ok? && g.items == [tile.value] + rest.items;
    if k > 0 {
      var p := t.gen.items[i];
      assert Pull(t.gen, i) == Got(p) && a[j + 2] == Some(p);
      assert Contains(t.s, Add(p, t.modifier)) == Ok(true);
      ContainsMeansInRange(t.s, Add(p, t.modifier));
      assert rest == Loop(t, Some(next), p, i + 1) && g.items[k] == rest.items[k - 1];
      LoopTile(t, a, d, j + 1, Some(next), p, i + 1, k - 1);
    }
  }

  /** The same from the test before the loop: a first end outside the range
      gives at most the one partial tile. */
  lemma EnterTile(t: Tiler, a: seq<Option<TimePoint>>, d: nat, i: nat, k: nat)
    requires Valid(t.s)
    requires d <= 1 && |a| == |t.gen.items| + d
    requires forall m :: d <= m < |a| ==> a[m] == Some(t.gen.items[m - d])
    requires 1 < |a| && a[1].Some? && i == 2 - d
    requires k < |Enter(t, a[0], a[1].value, i).items| && (t.full || k + 1 < |Enter(t, a[0], a[1].value, i).items|)
    ensures MainTile(t, a, k, Enter(t, a[0], a[1].value, i).items[k])
  {
    var e := Add(a[1].value, t.modifier);
    assert Contains(t.s, e) == Ok(true);
    ContainsMeansInRange(t.s, e);
    LoopTile(t, a, d, 0, a[0], a[1].value, i, k);
  }

  /** Every tile `rcycle` yields is a main tile, except perhaps the last one
      when partial tiles are allowed: the tiles follow the generator's points,
      each ending one resolution step short of the next point, inside the range. */
  lemma RCycleTiles(s: RangeState, gen: Gen<TimePoint>, snap: bool, reverse: bool, full: bool)
    requires Valid(s) && s.resolution.Some?
    ensures var g := RCycle(s, gen, Bool(snap), Bool(reverse), Bool(full));
            var t := Tiler(s, gen, reverse, full, if reverse then s.resolution.value else -s.resolution.value);
            forall k :: 0 <= k < |g.items| && (full || k + 1 < |g.items|) ==> MainTile(t, Anchors(t), k, g.items[k])
  {
    var t := Tiler(s, gen, reverse, full, if reverse then s.resolution.value else -s.resolution.value);
    var a := Anchors(t);
    var g := RCycle(s, gen, Bool(snap), Bool(reverse), Bool(full));
    forall k | 0 <= k < |g.items| && (full || k + 1 < |g.items|)
      ensures MainTile(t, a, k, g.items[k])
    {
      var p0 := gen.items[0];
      if t.full || NaturalStart(t) == Some(p0) {
        assert a == Points(gen);
        assert g == Enter(t, a[0], a[1].value, 2);
        EnterTile(t, a, 0, 2, k);
      } else {
        assert a == [NaturalStart(t)] + Points(gen);
        assert g == Enter(t, a[0], a[1].value, 1);
        EnterTile(t, a, 1, 1, k);
      }
    }
  }

  /** A tile between two points of the range's kind, walking forward from
      `a` to a later `b`, holds exactly the instants from `a` up to but not
      including `b`; walking backward from `a` to an earlier `b`, exactly
      those after `b` up to `a`. So successive tiles neither overlap nor
      leave a gap. */
  lemma TileSpan(s: RangeState, a: TimePoint, b: TimePoint, reverse: bool)
    requires Valid(s) && s.dateClass == Some(KindOf(a)) && KindOf(b) == KindOf(a)
    requires if reverse then Ticks(b) < Ticks(a) else Ticks(a) < Ticks(b)
    ensures var q := Quantum(KindOf(a));
            var r := Tile(Some(a), Some(Add(b, if reverse then q else -q)));
            && r.Ok?
            && (forall p :: KindOf(p) == KindOf(a) ==>
                 (InRange(r.value, p) <==>
                  if reverse then Ticks(b) < Ticks(p) <= Ticks(a) else Ticks(a) <= Ticks(p) < Ticks(b)))
  {
    var q := Quantum(KindOf(a));
    var e := Add(b, if reverse then q else -q);
    AddQuantum(b, if reverse then 1 else -1);
    assert Ticks(e) == Ticks(b) + (if reverse then 1 else -1);
    ConstructBounds(Some(a), Some(e));
  }

  // ------------------------------------------------------------------
  // The errors
  // ------------------------------------------------------------------

  /** The loop raises only a TypeError (a tile or an end that cannot be
      compared) or what the point generator raised. */
  lemma {:induction false} LoopErrors(t: Tiler, start: Option<TimePoint>, next: TimePoint, i: nat)
    requires Valid(t.s)
    ensures Loop(t, start, next, i).stop.Raised? ==>
              Loop(t, start, next, i).stop.error == TypeError || t.gen.stop == Loop(t, start, next, i).stop
    decreases |t.gen.items| - i
  {
    match Pull(t.gen, i)
    case Got(p) =>
      if Contains(t.s, Add(p, t.modifier)) == Ok(true) {
        assert After(t, next, i) == Loop(t, Some(next), p, i + 1);
        LoopErrors(t, Some(next), p, i + 1);
      }
      TileError(start, Some(Add(next, t.modifier)));
    case Stopped =>
      TileError(Some(next), t.s.start);
      TileError(t.s.end, Some(next));
    case Failed(_) =>
    case Unknown =>
  }

  /** A tile that cannot be built fails with TypeError. */
  lemma TileError(a: Option<TimePoint>, b: Option<TimePoint>)
    ensures Tile(a, b).Err? ==> Tile(a, b).error == TypeError
  {
  }

  /** The same for the test before the loop and for a partial tile. */
  lemma EnterErrors(t: Tiler, start: Option<TimePoint>, next: TimePoint, i: nat)
    requires Valid(t.s)
    ensures Enter(t, start, next, i).stop.Raised? ==>
              Enter(t, start, next, i).stop.error == TypeError || t.gen.stop == Enter(t, start, next, i).stop
  {
    TileError(NaturalStart(t), NaturalEnd(t));
    if Contains(t.s, Add(next, t.modifier)) == Ok(true) {
      LoopErrors(t, start, next, i);
    }
  }

  /** Every exception `rcycle` raises is a ValueError for a flag that is not
      a bool, an AttributeError for a range without a resolution, a
      TypeError from a tile or a test, or the generator's own exception. */
  lemma RCycleErrors(s: RangeState, gen: Gen<TimePoint>, snap: Arg, reverse: Arg, full: Arg)
    requires Valid(s)
    ensures var g := RCycle(s, gen, snap, reverse, full);
            g.stop.Raised? ==>
              || (g.stop.error == ValueError && (snap.Other? || reverse.Other? || full.Other?))
              || (g.stop.error == AttributeError && s.resolution.None?)
              || g.stop.error == TypeError
              || gen.stop == g.stop
  {
    if !(full.Other? || reverse.Other? || snap.Other?) && s.resolution.Some? {
      var t := Tiler(s, gen, reverse.b, full.b, if reverse.b then s.resolution.value else -s.resolution.value);
      var g := RCycle(s, gen, snap, reverse, full);
      TileError(s.start, s.end);
      TileError(NaturalStart(t), NaturalEnd(t));
      if |gen.items| > 0 {
        var p0 := gen.items[0];
        if t.full || NaturalStart(t) == Some(p0) {
          if |gen.items| > 1 {
            assert g == Enter(t, Some(p0), gen.items[1], 2);
            EnterErrors(t, Some(p0), gen.items[1], 2);
          }
        } else {
          assert g == Enter(t, NaturalStart(t), p0, 1);
          EnterErrors(t, NaturalStart(t), p0, 1);
        }
      }
    }
  }

  /** Unless the generator itself raises ValueError, `rcycle` raises
      ValueError exactly when a flag is not a bool, and then before yielding
      anything. */
  lemma RCycleValueError(s: RangeState, gen: Gen<TimePoint>, snap: Arg, reverse: Arg, full: Arg)
    requires Valid(s) && gen.stop != Raised(ValueError)
    ensures RCycle(s, gen, snap, reverse, full).stop == Raised(ValueError) <==>
            (snap.Other? || reverse.Other? || full.Other?)
    ensures (snap.Other? || reverse.Other? || full.Other?) ==>
            RCycle(s, gen, snap, reverse, full) == Gen([], Raised(ValueError))
  {
    RCycleErrors(s, gen, snap, reverse, full);
  }

  /** With boolean flags and unless the generator itself raises
      AttributeError, `rcycle` raises AttributeError exactly when the range
      was built with neither bound, and then before yielding anything. */
  lemma RCycleAttributeError(s: RangeState, gen: Gen<TimePoint>, snap: bool, reverse: bool, full: bool)
    requires Valid(s) && gen.stop != Raised(AttributeError)
    ensures RCycle(s, gen, Bool(snap), Bool(reverse), Bool(full)).stop == Raised(AttributeError) <==>
            s.dateClass.None?
    ensures s.dateClass.None? ==> RCycle(s, gen, Bool(snap), Bool(reverse), Bool(full)) == Gen([], Raised(AttributeError))
  {
    RCycleErrors(s, gen, Bool(snap), Bool(reverse), Bool(full));
  }

  /** A generator that produces nothing gives the whole range as one tile,
      or no tile at all when only full tiles are wanted. */
  lemma RCycleEmpty(s: RangeState, snap: bool, reverse: bool, full: bool)
    requires Valid(s) && s.resolution.Some?
    ensures RCycle(s, Gen([], Exhausted), Bool(snap), Bool(reverse), Bool(full)) ==
            if full then Gen([], Exhausted) else Gen([Tile(s.start, s.end).value], Exhausted)
  {
    ConstructBounds(s.start, s.end);
  }
}
