/** The state of a `DateRange` as a value, and the operations of
    `eon/__init__.py` that compute with it without changing it. The class
    `DateRanges.DateRange` keeps the same five fields and its methods are
    specified by these functions. */
module Ranges {
  import opened Base
  import opened Time

  /** The fields `_start`, `_end`, `_dateclass`, `_resolution` (a timedelta in
      microseconds; absent when the range was built without bounds) and
      `_nobounds` (false until a setter clears the last bound). */
  datatype RangeState = RangeState(
    start: Option<TimePoint>,
    end: Option<TimePoint>,
    dateClass: Option<Kind>,
    resolution: Option<int>,
    noBounds: bool)

  function QuantumOf(c: Option<Kind>): Option<int> {
    if c.Some? then Some(Quantum(c.value)) else None
  }

  /** Both present bounds are of the range's date class and in order. */
  predicate Valid(s: RangeState) {
    && s.resolution == QuantumOf(s.dateClass)
    && (s.start.Some? ==> s.dateClass == Some(KindOf(s.start.value)))
    && (s.end.Some? ==> s.dateClass == Some(KindOf(s.end.value)))
    && (s.start.Some? && s.end.Some? ==> Ticks(s.start.value) <= Ticks(s.end.value))
  }

  /** Two optional bounds that can be compared: at most one present, or both of one kind. */
  predicate Compatible(a: Option<TimePoint>, b: Option<TimePoint>) {
    a.None? || b.None? || KindOf(a.value) == KindOf(b.value)
  }

  predicate Ordered(a: Option<TimePoint>, b: Option<TimePoint>) {
    a.None? || b.None? || Ticks(a.value) <= Ticks(b.value)
  }

  /** `p` lies inside the range: an absent bound does not constrain. */
  predicate InRange(s: RangeState, p: TimePoint) {
    && (s.start.None? || Ticks(s.start.value) <= Ticks(p))
    && (s.end.None? || Ticks(p) <= Ticks(s.end.value))
  }

  /** `p` can be compared with every present bound. */
  predicate Comparable(s: RangeState, p: TimePoint) {
    && (s.start.None? || KindOf(s.start.value) == KindOf(p))
    && (s.end.None? || KindOf(s.end.value) == KindOf(p))
  }

  // ------------------------------------------------------------------
  // Construction
  // ------------------------------------------------------------------

  /** The first constructor argument: another DateRange, or a bound. */
  datatype First = CopyOf(source: RangeState) | Bound(point: Option<TimePoint>)

  /** The second constructor argument: left out (None), a bound, or a timedelta. */
  datatype Second = Absent | At(point: TimePoint) | Offset(td: int)

  function SecondOf(b: Option<TimePoint>): Second {
    if b.Some? then At(b.value) else Absent
  }

  /** The end of the constructor: order two comparable bounds and record the
      date class and resolution of whichever is present. */
  function FromBounds(a: Option<TimePoint>, b: Option<TimePoint>): (r: RangeState)
    requires Compatible(a, b)
    ensures Valid(r) && !r.noBounds
    ensures (r.start, r.end) == (a, b) || (r.start, r.end) == (b, a)
    ensures Ordered(a, b) ==> r.start == a && r.end == b
    ensures r.dateClass.None? <==> a.None? && b.None?
  {
    var swap := a.Some? && b.Some? && Ticks(a.value) > Ticks(b.value);
    var lo := if swap then b else a;
    var hi := if swap then a else b;
    var c := if lo.Some? then Some(KindOf(lo.value)) else if hi.Some? then Some(KindOf(hi.value)) else None;
    RangeState(lo, hi, c, QuantumOf(c), false)
  }

  /** Reordering two bounds needs `start > end`, which raises on mixed kinds. */
  function Finish(a: Option<TimePoint>, b: Option<TimePoint>): (r: Result<RangeState>)
    ensures r.Err? <==> !Compatible(a, b)
    ensures r.Err? ==> r.error == TypeError
    ensures r.Ok? ==> r.value == FromBounds(a, b)
  {
    if Compatible(a, b) then Ok(FromBounds(a, b)) else Err(TypeError)
  }

  /** `_validate(d)` for a present `d`, against the bounds set so far. */
  predicate Validates(start: Option<TimePoint>, end: Option<TimePoint>, d: TimePoint) {
    if start.None? then (end.None? || IsInstance(d, KindOf(end.value)))
    else IsInstance(d, KindOf(start.value))
  }

  /** `DateRange(date1, date2)`. */
  function Construct(first: First, second: Second): (r: Result<RangeState>)
    ensures r.Ok? ==> Valid(r.value) && !r.value.noBounds
  {
    match first
    case CopyOf(src) =>
      if second != Absent then Err(ValueError) else Finish(src.start, src.end)
    case Bound(p) =>
      match second
      case Absent => Finish(p, None)
      case At(q) => if Validates(p, None, q) then Finish(p, Some(q)) else Err(TypeError)
      case Offset(td) => if p.None? then Err(TypeError) else Finish(p, Some(Add(p.value, td)))
  }

  /** Construction from two bounds keeps them, in chronological order, and
      fails exactly when the two are of different kinds. */
  lemma ConstructBounds(a: Option<TimePoint>, b: Option<TimePoint>)
    ensures Construct(Bound(a), SecondOf(b)).Err? <==> !Compatible(a, b)
    ensures Compatible(a, b) ==> Construct(Bound(a), SecondOf(b)) == Ok(FromBounds(a, b))
  {
  }

  /** A timedelta second argument gives `end = start + td` before the reordering,
      so a negative timedelta builds the range that ends at the given bound. */
  lemma {:induction false} ConstructOffset(p: TimePoint, td: int)
    ensures Construct(Bound(Some(p)), Offset(td)).Ok?
    ensures var r := Construct(Bound(Some(p)), Offset(td)).value;
            var q := Add(p, td);
            (Ticks(p) <= Ticks(q) ==> r.start == Some(p) && r.end == Some(q))
            && (Ticks(q) < Ticks(p) ==> r.start == Some(q) && r.end == Some(p))
  {
    var q := Add(p, td);
    assert Compatible(Some(p), Some(q));
  }

  /** A timedelta needs a present first bound. */
  lemma ConstructOffsetUnbounded(td: int)
    ensures Construct(Bound(None), Offset(td)) == Err(TypeError)
  {
  }

  /** Copying a range keeps its bounds; a second argument with a copy raises ValueError. */
  lemma {:induction false} ConstructCopy(src: RangeState, second: Second)
    requires Valid(src)
    ensures second != Absent ==> Construct(CopyOf(src), second) == Err(ValueError)
    ensures second == Absent ==> Construct(CopyOf(src), second).Ok?
    ensures second == Absent ==> var r := Construct(CopyOf(src), second).value;
            r.start == src.start && r.end == src.end
  {
    if second == Absent {
      assert Compatible(src.start, src.end);
    }
  }

  // ------------------------------------------------------------------
  // Casting and the two setters
  // ------------------------------------------------------------------

  /** `_cast(d)`: a datetime put into a date range loses its time of day; a
      date put into a datetime range raises TypeError (a date has no `.date()`). */
  function Cast(s: RangeState, d: Option<TimePoint>): (r: Result<Option<TimePoint>>)
    ensures Valid(s) && d.Some? && s.dateClass.Some? ==>
              (r.Ok? <==> IsInstance(d.value, s.dateClass.value))
    ensures Valid(s) && r.Ok? && d.Some? && r.value.Some? && s.dateClass.Some? ==>
              KindOf(r.value.value) == s.dateClass.value && DayOf(r.value.value) == DayOf(d.value)
    ensures r.Ok? && (d.None? || s.dateClass.None?) ==> r.value == d
    ensures r.Ok? ==> (r.value.None? <==> d.None?)
  {
    if d.None? || s.dateClass.None? || KindOf(d.value) == s.dateClass.value then Ok(d)
    else match d.value
      case DateTime(_) =>
        var x := Date(DayOf(d.value));
        if Validates(s.start, s.end, x) then Ok(Some(x)) else Err(TypeError)
      case Date(_) => Err(TypeError)
  }

  /** `start(setdate)`. */
  function SetStart(s: RangeState, setdate: Option<TimePoint>): (r: Result<RangeState>)
    ensures Valid(s) && r.Ok? ==> Valid(r.value)
    ensures r.Ok? ==> r.value.end == s.end && r.value.dateClass == s.dateClass
                      && r.value.resolution == s.resolution
  {
    match Cast(s, setdate)
    case Err(e) => Err(e)
    case Ok(d) =>
      if d.None? then
        Ok(s.(start := None, noBounds := if s.end.None? then true else s.noBounds))
      else if s.end.Some? && IsInstance(d.value, KindOf(s.end.value)) then
        if KindOf(d.value) != KindOf(s.end.value) then Err(TypeError)
        else if Ticks(d.value) > Ticks(s.end.value) then Err(ValueError)
        else Ok(s.(start := d))
      else if s.end.None? && s.start.Some? && IsInstance(d.value, KindOf(s.start.value)) then
        Ok(s.(start := d))
      else Err(TypeError)
  }

  /** `end(setdate)`. */
  function SetEnd(s: RangeState, setdate: Option<TimePoint>): (r: Result<RangeState>)
    ensures Valid(s) && r.Ok? ==> Valid(r.value)
    ensures r.Ok? ==> r.value.start == s.start && r.value.dateClass == s.dateClass
                      && r.value.resolution == s.resolution
  {
    match Cast(s, setdate)
    case Err(e) => Err(e)
    case Ok(d) =>
      if d.None? then
        Ok(s.(end := None, noBounds := if s.start.None? then true else s.noBounds))
      else if s.start.Some? && IsInstance(d.value, KindOf(s.start.value)) then
        if KindOf(d.value) != KindOf(s.start.value) then Err(TypeError)
        else if Ticks(d.value) < Ticks(s.start.value) then Err(ValueError)
        else Ok(s.(end := d))
      else if s.start.None? && s.end.Some? && IsInstance(d.value, KindOf(s.end.value)) then
        Ok(s.(end := d))
      else Err(TypeError)
  }

  /** The start setter moves the start to the given point of the range's class
      unless that would pass the end, which raises ValueError. */
  lemma {:induction false} SetStartGuard(s: RangeState, d: TimePoint)
    requires Valid(s) && s.dateClass == Some(KindOf(d))
    requires s.start.Some? || s.end.Some?
    ensures s.end.Some? && Ticks(d) > Ticks(s.end.value) ==> SetStart(s, Some(d)) == Err(ValueError)
    ensures !(s.end.Some? && Ticks(d) > Ticks(s.end.value)) ==> SetStart(s, Some(d)) == Ok(s.(start := Some(d)))
  {
  }

  /** The end setter is the mirror image: it raises ValueError before the end
      could precede the start. */
  lemma {:induction false} SetEndGuard(s: RangeState, d: TimePoint)
    requires Valid(s) && s.dateClass == Some(KindOf(d))
    requires s.start.Some? || s.end.Some?
    ensures s.start.Some? && Ticks(d) < Ticks(s.start.value) ==> SetEnd(s, Some(d)) == Err(ValueError)
    ensures !(s.start.Some? && Ticks(d) < Ticks(s.start.value)) ==> SetEnd(s, Some(d)) == Ok(s.(end := Some(d)))
  {
  }

  /** Once a range has no bound, a setter can only leave it without one: the
      type test in the setter compares against `type(None)`. */
  lemma {:induction false} SetOnUnboundedFails(s: RangeState, d: TimePoint)
    requires Valid(s) && s.start.None? && s.end.None?
    ensures SetStart(s, Some(d)).Err? && SetEnd(s, Some(d)).Err?
  {
  }

  /** Clearing a bound never fails, and clearing the last one raises the
      `_nobounds` flag. */
  lemma {:induction false} ClearBounds(s: RangeState)
    ensures SetStart(s, None) == Ok(s.(start := None, noBounds := s.noBounds || s.end.None?))
    ensures SetEnd(s, None) == Ok(s.(end := None, noBounds := s.noBounds || s.start.None?))
  {
  }

  /** A datetime handed to a date range keeps its calendar day. */
  lemma CastTruncates(s: RangeState, u: int)
    requires Valid(s) && s.dateClass == Some(DateKind)
    ensures Cast(s, Some(DateTime(u))) == Ok(Some(Date(u / 86_400_000_000)))
  {
  }

  // ------------------------------------------------------------------
  // Containment
  // ------------------------------------------------------------------

  /** `p in self` for a date or datetime `p`. */
  function Contains(s: RangeState, p: TimePoint): (r: Result<bool>)
    ensures Comparable(s, p) ==> r == Ok(InRange(s, p))
    ensures Valid(s) && !Comparable(s, p) ==> r == Err(TypeError)
  {
    if s.start.None? then
      if s.end.None? then Ok(true) else LessEq(p, s.end.value)
    else if s.end.None? then LessEq(s.start.value, p)
    else
      match LessEq(s.start.value, p)
      case Err(e) => Err(e)
      case Ok(b) => if !b then Ok(false) else LessEq(p, s.end.value)
  }

  /** A range without bounds contains every date and datetime. */
  lemma AllTimeContainsAll(s: RangeState, p: TimePoint)
    requires s.start.None? && s.end.None?
    ensures Contains(s, p) == Ok(true)
  {
  }

  /** `other in self` for a DateRange `other` that is not `self`: both of its
      bounds are tested as points, so an absent bound raises TypeError. */
  function Within(s: RangeState, o: RangeState): (r: Result<bool>)
    ensures Valid(s) && Valid(o) && s.dateClass.Some? && o.dateClass == s.dateClass ==>
              (r.Err? <==> o.start.None? || (InRange(s, o.start.value) && o.end.None?))
  {
    if o.start.None? then Err(TypeError)
    else
      match Contains(s, o.start.value)
      case Err(e) => Err(e)
      case Ok(b) =>
        if !b then Ok(false)
        else if o.end.None? then Err(TypeError)
        else Contains(s, o.end.value)
  }

  /** A range that tests as inside another has each of its points inside it. */
  lemma {:induction false} WithinMeansSubset(s: RangeState, o: RangeState, p: TimePoint)
    requires Valid(s) && Valid(o) && o.dateClass == s.dateClass
    requires Within(s, o) == Ok(true)
    requires InRange(o, p)
    ensures InRange(s, p)
  {
  }

  /** Conversely, a finite range whose bounds both lie in `s` tests as inside it. */
  lemma {:induction false} SubsetMeansWithin(s: RangeState, o: RangeState)
    requires Valid(s) && Valid(o) && o.dateClass == s.dateClass
    requires o.start.Some? && o.end.Some?
    requires InRange(s, o.start.value) && InRange(s, o.end.value)
    ensures Within(s, o) == Ok(true)
  {
  }

  // ------------------------------------------------------------------
  // Intersection
  // ------------------------------------------------------------------

  /** `max(x, y)`: `y` only when `y > x`; ordering mixed kinds raises. */
  function Max(x: TimePoint, y: TimePoint): (r: Result<TimePoint>)
    ensures r.Err? <==> KindOf(x) != KindOf(y)
    ensures r.Ok? ==> (r.value == x || r.value == y)
                      && Ticks(x) <= Ticks(r.value) && Ticks(y) <= Ticks(r.value)
  {
    if KindOf(x) != KindOf(y) then Err(TypeError)
    else if Ticks(y) > Ticks(x) then Ok(y) else Ok(x)
  }

  /** `min(x, y)`: `y` only when `y < x`. */
  function Min(x: TimePoint, y: TimePoint): (r: Result<TimePoint>)
    ensures r.Err? <==> KindOf(x) != KindOf(y)
    ensures r.Ok? ==> (r.value == x || r.value == y)
                      && Ticks(r.value) <= Ticks(x) && Ticks(r.value) <= Ticks(y)
  {
    if KindOf(x) != KindOf(y) then Err(TypeError)
    else if Ticks(y) < Ticks(x) then Ok(y) else Ok(x)
  }

  /** The later of two optional starts, an absent one being unbounded. */
  function LaterStart(self: RangeState, other: RangeState): Result<Option<TimePoint>> {
    if other.start.None? then Ok(self.start)
    else if self.start.None? then Ok(other.start)
    else match Max(other.start.value, self.start.value)
      case Err(e) => Err(e)
      case Ok(t) => Ok(Some(t))
  }

  /** The earlier of two optional ends, an absent one being unbounded. */
  function EarlierEnd(self: RangeState, other: RangeState): Result<Option<TimePoint>> {
    if other.end.None? then Ok(self.end)
    else if self.end.None? then Ok(other.end)
    else match Min(other.end.value, self.end.value)
      case Err(e) => Err(e)
      case Ok(t) => Ok(Some(t))
  }

  /** `self.intersection(other)` for two distinct objects: a new range from the
      later start to the earlier end. The source's first tests,
      `... and self.start is None`, look at a bound method, which is never
      None, so they are left out: the remaining branches give the same values. */
  function Intersection(self: RangeState, other: RangeState): Result<RangeState> {
    match LaterStart(self, other)
    case Err(e) => Err(e)
    case Ok(st) =>
      match EarlierEnd(self, other)
      case Err(e) => Err(e)
      case Ok(en) => Construct(Bound(st), SecondOf(en))
  }

  /** Intersecting a range with an equal one gives back its bounds. */
  lemma {:induction false} IntersectionSelf(a: RangeState)
    requires Valid(a)
    ensures Intersection(a, a).Ok?
    ensures Intersection(a, a).value.start == a.start && Intersection(a, a).value.end == a.end
  {
    assert Compatible(a.start, a.end);
  }

  /** Intersecting with a range without bounds gives back the other range's bounds. */
  lemma {:induction false} IntersectionAllTime(all: RangeState, a: RangeState)
    requires all.start.None? && all.end.None?
    requires Valid(a)
    ensures Intersection(all, a).Ok? && Intersection(a, all).Ok?
    ensures Intersection(all, a).value.start == a.start && Intersection(all, a).value.end == a.end
    ensures Intersection(a, all) == Intersection(all, a)
  {
    assert Compatible(a.start, a.end);
    IntersectionSymmetric(all, a);
  }

  /** The result does not depend on the order of the two arguments. */
  lemma {:induction false} IntersectionSymmetric(a: RangeState, b: RangeState)
    ensures Intersection(a, b) == Intersection(b, a)
  {
    assert LaterStart(a, b) == LaterStart(b, a);
    assert EarlierEnd(a, b) == EarlierEnd(b, a);
  }

  /** Two ranges overlap when no bound of one passes the other. */
  predicate Overlap(a: RangeState, b: RangeState) {
    Ordered(a.start, b.end) && Ordered(b.start, a.end)
  }

  /** For overlapping ranges of one class, or with a range without bounds,
      the intersection runs from the later start to the earlier end and holds
      exactly the points of both. */
  lemma {:induction false} IntersectionOverlap(a: RangeState, b: RangeState, p: TimePoint)
    requires Valid(a) && Valid(b)
    requires a.dateClass.None? || b.dateClass.None? || a.dateClass == b.dateClass
    requires Overlap(a, b)
    ensures Intersection(a, b).Ok?
    ensures InRange(Intersection(a, b).value, p) <==> InRange(a, p) && InRange(b, p)
  {
    var st := LaterStart(a, b).value;
    var en := EarlierEnd(a, b).value;
    assert Compatible(st, en) && Ordered(st, en);
  }

  /** Disjoint ranges are not reported as `None`: the constructor swaps the
      crossed bounds and the result covers the gap between them. */
  lemma IntersectionOfDisjoint()
    ensures var a := FromBounds(Some(Date(1)), Some(Date(2)));
            var b := FromBounds(Some(Date(5)), Some(Date(6)));
            && Intersection(a, b) == Ok(FromBounds(Some(Date(2)), Some(Date(5))))
            && InRange(Intersection(a, b).value, Date(3))
            && !InRange(a, Date(3)) && !InRange(b, Date(3))
  {
  }

  /** The intersection the documentation describes: `None` when the ranges
      do not overlap. */
  function IntersectionOrNone(self: RangeState, other: RangeState): (r: Result<Option<RangeState>>)
    requires Valid(self) && Valid(other)
    requires self.dateClass.None? || other.dateClass.None? || self.dateClass == other.dateClass
    ensures r.Ok?
    ensures r.value.None? <==> !Overlap(self, other)
    ensures r.value.Some? ==> Valid(r.value.value)
    ensures r.value.Some? ==> forall p :: InRange(r.value.value, p) <==> InRange(self, p) && InRange(other, p)
  {
    var st := LaterStart(self, other).value;
    var en := EarlierEnd(self, other).value;
    if Ordered(st, en) then
      assert Compatible(st, en);
      Ok(Some(FromBounds(st, en)))
    else Ok(None)
  }

  // ------------------------------------------------------------------
  // Span and comparisons with a point
  // ------------------------------------------------------------------

  /** `span()`: the inclusive length, in microseconds, of a finite range. */
  function Span(s: RangeState): (r: Option<int>)
    requires Valid(s)
    ensures r.Some? <==> s.start.Some? && s.end.Some?
    ensures r.Some? ==> var q := Quantum(KindOf(s.start.value));
                        r.value == (Ticks(s.end.value) - Ticks(s.start.value) + 1) * q && r.value >= q
  {
    if s.end.Some? && s.start.Some? then
      Some(Diff(s.end.value, s.start.value) + s.resolution.value)
    else None
  }

  /** `self < d`: `d` is after the end; without an end, TypeError. */
  function Lt(s: RangeState, d: TimePoint): Result<bool> {
    if s.end.None? then Err(TypeError)
    else match LessEq(d, s.end.value)
      case Err(e) => Err(e)
      case Ok(b) => Ok(!b)
  }

  /** `self > d`: `d` is before the start; without a start, TypeError. */
  function Gt(s: RangeState, d: TimePoint): Result<bool> {
    if s.start.None? then Err(TypeError)
    else match LessEq(s.start.value, d)
      case Err(e) => Err(e)
      case Ok(b) => Ok(!b)
  }

  /** `self >= d`: `self > d or d in self`. */
  function Ge(s: RangeState, d: TimePoint): Result<bool> {
    match Gt(s, d)
    case Err(e) => Err(e)
    case Ok(b) => if b then Ok(true) else Contains(s, d)
  }

  /** `self <= d`: `self < d or d in self`. */
  function Le(s: RangeState, d: TimePoint): Result<bool> {
    match Lt(s, d)
    case Err(e) => Err(e)
    case Ok(b) => if b then Ok(true) else Contains(s, d)
  }

  /** A point of the range's class is before, inside or after a finite range,
      and exactly one of these; `<=` and `>=` take one side together with the inside. */
  lemma {:induction false} Trichotomy(s: RangeState, d: TimePoint)
    requires Valid(s) && s.start.Some? && s.end.Some? && s.dateClass == Some(KindOf(d))
    ensures Lt(s, d).Ok? && Gt(s, d).Ok? && Contains(s, d).Ok?
    ensures (if Lt(s, d).value then 1 else 0) + (if Gt(s, d).value then 1 else 0)
            + (if Contains(s, d).value then 1 else 0) == 1
    ensures Le(s, d) == Ok(Ticks(s.start.value) <= Ticks(d))
    ensures Ge(s, d) == Ok(Ticks(d) <= Ticks(s.end.value))
  {
  }

  /** Ordering against a range with an absent bound raises TypeError. */
  lemma OpenSideRaises(s: RangeState, d: TimePoint)
    ensures s.end.None? ==> Lt(s, d) == Err(TypeError) && Le(s, d) == Err(TypeError)
    ensures s.start.None? ==> Gt(s, d) == Err(TypeError) && Ge(s, d) == Err(TypeError)
  {
  }

  // ------------------------------------------------------------------
  // Moving bounds
  // ------------------------------------------------------------------

  /** `startat(d)`: a new range from `d` (cast to the class) to this end. */
  function StartAt(s: RangeState, d: Option<TimePoint>): Result<RangeState> {
    match Cast(s, d)
    case Err(e) => Err(e)
    case Ok(c) => Construct(Bound(c), SecondOf(s.end))
  }

  /** `endat(d)`: a new range from this start to `d` (cast to the class). */
  function EndAt(s: RangeState, d: Option<TimePoint>): Result<RangeState> {
    match Cast(s, d)
    case Err(e) => Err(e)
    case Ok(c) => Construct(Bound(s.start), SecondOf(c))
  }

  /** `startat` and `endat` do not raise on a crossing bound, unlike the
      setters: the new range is reordered. */
  lemma {:induction false} StartAtReorders(s: RangeState, d: TimePoint)
    requires Valid(s) && s.dateClass == Some(KindOf(d))
    ensures StartAt(s, Some(d)).Ok?
    ensures var r := StartAt(s, Some(d)).value;
            if s.end.Some? && Ticks(d) > Ticks(s.end.value)
            then r.start == s.end && r.end == Some(d)
            else r.start == Some(d) && r.end == s.end
  {
    ConstructBounds(Some(d), s.end);
  }

  lemma {:induction false} EndAtReorders(s: RangeState, d: TimePoint)
    requires Valid(s) && s.dateClass == Some(KindOf(d))
    ensures EndAt(s, Some(d)).Ok?
    ensures var r := EndAt(s, Some(d)).value;
            if s.start.Some? && Ticks(d) < Ticks(s.start.value)
            then r.start == Some(d) && r.end == s.start
            else r.start == s.start && r.end == Some(d)
  {
    ConstructBounds(s.start, Some(d));
  }

  /** Re-setting a finite range's own bounds rebuilds the same range. */
  lemma {:induction false} StartAtEndAtSame(s: RangeState, p: TimePoint)
    requires Valid(s) && s.start.Some? && s.end.Some?
    ensures StartAt(s, s.start).Ok? && EndAt(StartAt(s, s.start).value, s.end).Ok?
    ensures InRange(EndAt(StartAt(s, s.start).value, s.end).value, p) <==>
            Ticks(s.start.value) <= Ticks(p) <= Ticks(s.end.value)
  {
    StartAtReorders(s, s.start.value);
    EndAtReorders(StartAt(s, s.start).value, s.end.value);
  }

  /** `slide(td)`: both bounds moved by `td`; an absent bound raises TypeError. */
  function Slide(s: RangeState, td: int): Result<RangeState> {
    if s.start.None? || s.end.None? then Err(TypeError)
    else Construct(Bound(Some(Add(s.start.value, td))), At(Add(s.end.value, td)))
  }

  /** Sliding moves both bounds by the same amount and keeps the span. */
  lemma {:induction false} SlideKeepsSpan(s: RangeState, td: int)
    requires Valid(s) && s.start.Some? && s.end.Some?
    ensures Slide(s, td).Ok?
    ensures Slide(s, td).value.start == Some(Add(s.start.value, td))
    ensures Slide(s, td).value.end == Some(Add(s.end.value, td))
    ensures Span(Slide(s, td).value) == Span(s)
  {
    var a, b := Add(s.start.value, td), Add(s.end.value, td);
    assert Validates(Some(a), None, b);
    assert Compatible(Some(a), Some(b)) && Ordered(Some(a), Some(b));
  }

  lemma SlideOpenRaises(s: RangeState, td: int)
    requires s.start.None? || s.end.None?
    ensures Slide(s, td) == Err(TypeError)
  {
  }
}
