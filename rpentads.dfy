/** `DateRange.rpentads(snap, reverse, full)` of `eon/__init__.py`: `rcycle`
    over `pentads` with the same flags. Snapped, forward and with full tiles
    only, every tile is exactly one pentad of the calendar and each starts one
    microsecond after the previous one ends. */
module PentadTiles {
  import opened Base
  import opened Time
  import opened Cyclic
  import opened Ranges
  import opened Generators
  import opened Walks
  import opened Grid
  import opened Units
  import opened Tiling

  /** The bounds of tile `g`: the midnight starting pentad index `g`, and one
      microsecond before the midnight starting index `g + 1`. */
  function TileStart(g: int): TimePoint {
    Midnight(DateTimeKind, PentadIndexStart(g))
  }

  function TileEnd(g: int): TimePoint {
    DateTime(PentadIndexStart(g + 1) * 86_400_000_000 - 1)
  }

  /** Tile `g` starts more than four days before it ends. */
  lemma {:induction false} TileOrdered(g: int)
    ensures PentadIndexStart(g + 1) >= PentadIndexStart(g) + 5
    ensures Ticks(TileStart(g)) < Ticks(TileEnd(g))
  {
    PentadIndexStep(g);
    var p := g % 73 + 1;
    assert PentadLength(g / 73, p) >= 5;
  }

  /** Those bounds are the bounds of the block of pentad `g % 73 + 1` of
      year `g / 73`. */
  lemma {:induction false} PentadTile(g: int)
    ensures var b := PentadBlock(g / 73, g % 73 + 1);
            b.start == Some(TileStart(g)) && b.end == Some(TileEnd(g))
  {
    PentadIndexStep(g);
    TileOrdered(g);
    var y, p := g / 73, g % 73 + 1;
    var first, days := PentadIndexStart(g), PentadLength(y, p);
    assert PentadIndexStart(g + 1) == first + days;
    assert PentadFirstDay(y, p) == first;
  }

  /** The tile built from them is ordered as given. */
  lemma {:induction false} TileBuilt(g: int)
    ensures Add(Midnight(DateTimeKind, PentadIndexStart(g + 1)), -1) == TileEnd(g)
    ensures var t := Tile(Some(TileStart(g)), Some(TileEnd(g)));
            t.Ok? && t.value.start == Some(TileStart(g)) && t.value.end == Some(TileEnd(g))
  {
    TileOrdered(g);
    ConstructBounds(Some(TileStart(g)), Some(TileEnd(g)));
  }

  /** The block of index `g` ends one microsecond before that of `g + 1` starts. */
  lemma {:induction false} TilesMeet(g: int)
    ensures Ticks(TileEnd(g)) + 1 == Ticks(TileStart(g + 1))
  {
  }

  /** The tile from the start of index `g` to one step before the start of
      `g + 1` has the bounds of tile `g`. */
  lemma {:induction false} TileBounds(g: int, p: TimePoint, q: TimePoint, r: RangeState)
    requires p == TileStart(g) && q == TileStart(g + 1)
    requires Tile(Some(p), Some(Add(q, -1))) == Ok(r)
    ensures Add(q, -1) == TileEnd(g)
    ensures r.start == Some(TileStart(g)) && r.end == Some(TileEnd(g))
  {
    TileBuilt(g);
  }

  /** Ranges with the bounds of tiles `g` and `g + 1` meet. */
  lemma {:induction false} RangesMeet(g: int, r1: RangeState, r2: RangeState)
    requires r1.end == Some(TileEnd(g)) && r2.start == Some(TileStart(g + 1))
    ensures Ticks(r1.end.value) + 1 == Ticks(r2.start.value)
  {
    TilesMeet(g);
  }

  /** A range with the bounds of tile `g` holds exactly the datetimes of
      pentad `g % 73 + 1` of year `g / 73`. */
  lemma {:induction false} TileExact(g: int, u: int, r: RangeState)
    requires r.start == Some(TileStart(g)) && r.end == Some(TileEnd(g))
    ensures InRange(r, DateTime(u)) <==> DateOf(DateTime(u)).year == g / 73 && PointToPentad(DateTime(u)) == g % 73 + 1
  {
    var y, p := g / 73, g % 73 + 1;
    PentadTile(g);
    assert InRange(r, DateTime(u)) == InRange(PentadBlock(y, p), DateTime(u));
    PentadBlockExact(y, p, u);
  }

  /** The points are the midnights starting pentad indices `g0`, `g0 + 1`,
      ... in turn, all inside the range. */
  ghost predicate SnappedPentads(s: RangeState, gen: Gen<TimePoint>, g0: int) {
    forall i :: 0 <= i < |gen.items| ==> gen.items[i] == TileStart(g0 + i) && InRange(s, gen.items[i])
  }

  /** `pentads(snap=True)` forward on a datetime range yields such points. */
  lemma {:induction false} PentadsSnapped(s: RangeState, snap: bool, limit: nat)
    requires Valid(s) && s.dateClass == Some(DateTimeKind) && s.start.Some? && snap
    ensures SnappedPentads(s, Generate(s, PentadsSetup(s, snap, false), limit), FirstPentad(s, snap, false))
  {
    var gen := Generate(s, PentadsSetup(s, snap, false), limit);
    var g0 := FirstPentad(s, snap, false);
    PentadsPoints(s, snap, false, limit);
    PentadsSnapClean(s, false, limit);
    assert PentadOffset(s, snap, false) == 0 && s.dateClass.value == DateTimeKind && Direction(false) == 1;
    forall i | 0 <= i < |gen.items|
      ensures gen.items[i] == TileStart(g0 + i)
    {
      var x := Midnight(DateTimeKind, PentadIndexStart(Along(g0, 1, i)));
      assert gen.items[i] == Add(x, 0);
      assert Along(g0, 1, i) == g0 + i;
    }
  }

  /** A main tile of the forward walk over such points runs from the start
      of pentad index `g0 + k` to the end of it, inside the range. */
  lemma {:induction false} MainTilePentad(s: RangeState, gen: Gen<TimePoint>, full: bool, g0: int, k: nat, r: RangeState)
    requires Valid(s) && s.dateClass == Some(DateTimeKind)
    requires SnappedPentads(s, gen, g0)
    requires MainTile(Tiler(s, gen, false, full, -1), Points(gen), k, r)
    ensures r.start == Some(TileStart(g0 + k)) && r.end == Some(TileEnd(g0 + k))
    ensures InRange(s, TileStart(g0 + k)) && InRange(s, TileEnd(g0 + k))
  {
    var a := Points(gen);
    var g := g0 + k;
    var p, q := gen.items[k], gen.items[k + 1];
    assert a[k] == Some(p) && a[k + 1] == Some(q);
    assert p == TileStart(g) && InRange(s, p);
    assert q == TileStart(g + 1) by {
      assert g0 + (k + 1) == g + 1;
    }
    TileBounds(g, p, q, r);
  }

  /** `rcycle(snap=True, full=True)` forward over such points yields as tile
      `k` the span of pentad index `g0 + k`, inside the range. */
  lemma {:induction false} PentadPointsTile(s: RangeState, gen: Gen<TimePoint>, snap: bool, full: bool, g0: int, k: nat)
    requires Valid(s) && s.dateClass == Some(DateTimeKind) && snap && full
    requires SnappedPentads(s, gen, g0)
    requires k < |RCycle(s, gen, Bool(snap), Bool(false), Bool(full)).items|
    ensures var r := RCycle(s, gen, Bool(snap), Bool(false), Bool(full)).items[k];
            r.start == Some(TileStart(g0 + k)) && r.end == Some(TileEnd(g0 + k))
    ensures InRange(s, TileStart(g0 + k)) && InRange(s, TileEnd(g0 + k))
  {
    var r := RCycle(s, gen, Bool(snap), Bool(false), Bool(full)).items[k];
    var t := Tiler(s, gen, false, full, -s.resolution.value);
    RCycleTiles(s, gen, snap, false, full);
    assert Anchors(t) == Points(gen);
    assert MainTile(t, Points(gen), k, r);
    MainTilePentad(s, gen, full, g0, k, r);
  }

  /** Successive tiles of `rcycle(snap=True, full=True)` forward over such
      points meet: each starts one microsecond after the previous one ends. */
  lemma {:induction false} PentadPointsMeet(s: RangeState, gen: Gen<TimePoint>, snap: bool, full: bool, g0: int, k: nat)
    requires Valid(s) && s.dateClass == Some(DateTimeKind) && snap && full
    requires SnappedPentads(s, gen, g0)
    requires k + 1 < |RCycle(s, gen, Bool(snap), Bool(false), Bool(full)).items|
    ensures var tiles := RCycle(s, gen, Bool(snap), Bool(false), Bool(full)).items;
            && tiles[k].end.Some? && tiles[k + 1].start.Some?
            && Ticks(tiles[k].end.value) + 1 == Ticks(tiles[k + 1].start.value)
  {
    var tiles := RCycle(s, gen, Bool(snap), Bool(false), Bool(full)).items;
    PentadPointsTile(s, gen, snap, full, g0, k);
    PentadPointsTile(s, gen, snap, full, g0, k + 1);
    RangesMeet(g0 + k, tiles[k], tiles[k + 1]);
  }

  /** A datetime lies in tile `k` of `rcycle(snap=True, full=True)` forward
      over such points exactly when it lies in pentad index `g0 + k`. */
  lemma {:induction false} PentadPointsExact(s: RangeState, gen: Gen<TimePoint>, snap: bool, full: bool, g0: int, k: nat, u: int)
    requires Valid(s) && s.dateClass == Some(DateTimeKind) && snap && full
    requires SnappedPentads(s, gen, g0)
    requires k < |RCycle(s, gen, Bool(snap), Bool(false), Bool(full)).items|
    ensures InRange(RCycle(s, gen, Bool(snap), Bool(false), Bool(full)).items[k], DateTime(u)) <==>
            DateOf(DateTime(u)).year == (g0 + k) / 73 && PointToPentad(DateTime(u)) == (g0 + k) % 73 + 1
  {
    PentadPointsTile(s, gen, snap, full, g0, k);
    TileExact(g0 + k, u, RCycle(s, gen, Bool(snap), Bool(false), Bool(full)).items[k]);
  }

  /** `rpentads(snap=True, full=True)` forward on a datetime range is
      `rcycle` over `gen`, the points of `pentads(snap=True)`, whose first
      pentad index is `g0`. Its tile `k` runs from the midnight starting
      pentad index `g0 + k` to one microsecond before the next pentad starts,
      and both ends lie in the range. */
  lemma {:induction false} RPentadsTile(s: RangeState, snap: bool, full: bool, limit: nat, gen: Gen<TimePoint>, g0: int, k: nat)
    requires Valid(s) && s.dateClass == Some(DateTimeKind) && s.start.Some? && snap && full
    requires gen == Generate(s, PentadsSetup(s, snap, false), limit) && g0 == FirstPentad(s, snap, false)
    requires k < |RCycle(s, gen, Bool(snap), Bool(false), Bool(full)).items|
    ensures var r := RCycle(s, gen, Bool(snap), Bool(false), Bool(full)).items[k];
            r.start == Some(TileStart(g0 + k)) && r.end == Some(TileEnd(g0 + k))
    ensures InRange(s, TileStart(g0 + k)) && InRange(s, TileEnd(g0 + k))
  {
    PentadsSnapped(s, snap, limit);
    PentadPointsTile(s, gen, snap, full, g0, k);
  }

  /** The tiles cover exactly one pentad each: a datetime lies in tile `k`
      exactly when its year and `date_to_pentad` name pentad index `g0 + k`. */
  lemma {:induction false} RPentadsExact(s: RangeState, snap: bool, full: bool, limit: nat, gen: Gen<TimePoint>, g0: int, k: nat, u: int)
    requires Valid(s) && s.dateClass == Some(DateTimeKind) && s.start.Some? && snap && full
    requires gen == Generate(s, PentadsSetup(s, snap, false), limit) && g0 == FirstPentad(s, snap, false)
    requires k < |RCycle(s, gen, Bool(snap), Bool(false), Bool(full)).items|
    ensures InRange(RCycle(s, gen, Bool(snap), Bool(false), Bool(full)).items[k], DateTime(u)) <==>
            DateOf(DateTime(u)).year == (g0 + k) / 73 && PointToPentad(DateTime(u)) == (g0 + k) % 73 + 1
  {
    PentadsSnapped(s, snap, limit);
    PentadPointsExact(s, gen, snap, full, g0, k, u);
  }

  /** Successive tiles neither overlap nor leave a gap. */
  lemma {:induction false} RPentadsMeet(s: RangeState, snap: bool, full: bool, limit: nat, gen: Gen<TimePoint>, g0: int, k: nat)
    requires Valid(s) && s.dateClass == Some(DateTimeKind) && s.start.Some? && snap && full
    requires gen == Generate(s, PentadsSetup(s, snap, false), limit) && g0 == FirstPentad(s, snap, false)
    requires k + 1 < |RCycle(s, gen, Bool(snap), Bool(false), Bool(full)).items|
    ensures var tiles := RCycle(s, gen, Bool(snap), Bool(false), Bool(full)).items;
            && tiles[k].end.Some? && tiles[k + 1].start.Some?
            && Ticks(tiles[k].end.value) + 1 == Ticks(tiles[k + 1].start.value)
  {
    PentadsSnapped(s, snap, limit);
    PentadPointsMeet(s, gen, snap, full, g0, k);
  }
}
