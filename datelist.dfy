/** The class `DateList` of `eon/__init__.py`: a list of dates, built from one
    datetime or from a collection whose every element is a date, and
    filtered by a `DateRange`. */
module DateLists {
  import opened Base
  import opened Time
  import opened Ranges

  /** An element of the collection given to the constructor. */
  datatype Element = Point(p: TimePoint) | NotDate

  /** The constructor's argument: one date or datetime, a collection, or an
      object that has no length. */
  datatype Dates = Single(point: TimePoint) | Collection(elements: seq<Element>) | NoLength

  /** The points of a collection, or the exception raised at its first
      element that is not a date. */
  function PointsOf(es: seq<Element>): (r: Result<seq<TimePoint>>)
    ensures r.Ok? <==> forall k :: 0 <= k < |es| ==> es[k].Point?
    ensures r.Err? ==> r.error == PlainException
    ensures r.Ok? ==> |r.value| == |es| && forall k :: 0 <= k < |es| ==> es[k] == Point(r.value[k])
  {
    if |es| == 0 then Ok([])
    else match es[0]
      case NotDate => Err(PlainException)
      case Point(p) =>
        match PointsOf(es[1..])
        case Err(e) => Err(e)
        case Ok(ps) =>
          assert forall k :: 1 <= k < |es| ==> es[k] == es[1..][k - 1];
          Ok([p] + ps)
  }

  /** `DateList(dates)`: a single datetime becomes a list of one; an empty
      collection an empty list; otherwise every element must be a date
      (datetimes are dates too). A single date has no length, so `len`
      raises TypeError. */
  function Build(dates: Dates): (r: Result<seq<TimePoint>>)
    ensures dates.Single? ==> (r.Ok? <==> KindOf(dates.point) == DateTimeKind)
    ensures dates.Single? && r.Ok? ==> r.value == [dates.point]
    ensures dates.Collection? ==> (r.Ok? <==> forall k :: 0 <= k < |dates.elements| ==> dates.elements[k].Point?)
    ensures dates.Collection? && r.Ok? ==>
              |r.value| == |dates.elements| && forall k :: 0 <= k < |r.value| ==> dates.elements[k] == Point(r.value[k])
    ensures dates.Collection? && r.Err? ==> r.error == PlainException
    ensures dates.NoLength? ==> r == Err(TypeError)
  {
    match dates
    case Single(p) => if KindOf(p) == DateTimeKind then Ok([p]) else Err(TypeError)
    case NoLength => Err(TypeError)
    case Collection(es) => if |es| == 0 then Ok([]) else PointsOf(es)
  }

  /** `[d for d in dates if other.contains(d)]`; the first point that cannot
      be compared with a bound of `other` raises. */
  function Kept(other: RangeState, dates: seq<TimePoint>): Result<seq<TimePoint>> {
    if |dates| == 0 then Ok([])
    else match Contains(other, dates[0])
      case Err(e) => Err(e)
      case Ok(inside) =>
        match Kept(other, dates[1..])
        case Err(e) => Err(e)
        case Ok(rest) => Ok(if inside then [dates[0]] + rest else rest)
  }

  /** The filter fails exactly when some point cannot be compared with a
      bound of the range, and keeps exactly the points that lie in the range. */
  lemma {:induction false} KeptMembers(other: RangeState, dates: seq<TimePoint>)
    requires Valid(other)
    ensures Kept(other, dates).Ok? <==> forall k :: 0 <= k < |dates| ==> Comparable(other, dates[k])
    ensures Kept(other, dates).Err? ==> Kept(other, dates).error == TypeError
    ensures Kept(other, dates).Ok? ==>
              forall d :: d in Kept(other, dates).value <==> d in dates && InRange(other, d)
    ensures Kept(other, dates).Ok? ==> |Kept(other, dates).value| <= |dates|
  {
    if |dates| > 0 {
      var tail := dates[1..];
      KeptMembers(other, tail);
      assert dates == [dates[0]] + tail;
      assert forall k :: 1 <= k < |dates| ==> dates[k] == tail[k - 1];
    }
  }

  /** Filtering two lists one after the other is filtering their
      concatenation: the kept points stay in their order. */
  lemma {:induction false} KeptAppend(other: RangeState, xs: seq<TimePoint>, ys: seq<TimePoint>)
    ensures Kept(other, xs + ys) ==
            match Kept(other, xs)
            case Err(e) => Err(e)
            case Ok(a) =>
              match Kept(other, ys)
              case Err(e) => Err(e)
              case Ok(b) => Ok(a + b)
  {
    if |xs| == 0 {
      assert xs + ys == ys;
      match Kept(other, ys) {
        case Err(_) =>
        case Ok(b) => assert [] + b == b;
      }
    } else {
      assert (xs + ys)[1..] == xs[1..] + ys;
      KeptAppend(other, xs[1..], ys);
      match Kept(other, xs[1..]) {
        case Err(_) =>
        case Ok(a) =>
          match Kept(other, ys) {
            case Err(_) =>
            case Ok(b) => assert [xs[0]] + a + b == [xs[0]] + (a + b);
          }
      }
    }
  }

  class DateList {
    var dates: seq<TimePoint>

    /** `DateList(dates)`: the loop checks each element of a collection
        before the list is kept. */
    static method Create(arg: Dates) returns (r: Result<DateList>)
      ensures r.Err? <==> Build(arg).Err?
      ensures r.Err? ==> r.error == Build(arg).error
      ensures r.Ok? ==> fresh(r.value) && r.value.dates == Build(arg).value
    {
      var ps: seq<TimePoint>;
      match arg {
        case Single(p) =>
          if KindOf(p) != DateTimeKind {
            return Err(TypeError);
          }
          ps := [p];
        case NoLength =>
          return Err(TypeError);
        case Collection(es) =>
          var i := 0;
          while i < |es|
            invariant 0 <= i <= |es|
            invariant forall k :: 0 <= k < i ==> es[k].Point?
          {
            if es[i].NotDate? {
              return Err(PlainException);
            }
            i := i + 1;
          }
          ps := seq(|es|, k requires 0 <= k < |es| => es[k].p);
      }
      var dl := new DateList.Of(ps);
      return Ok(dl);
    }

    /** The list as the constructor keeps it. */
    constructor Of(ps: seq<TimePoint>)
      ensures dates == ps
    {
      dates := ps;
    }

    /** `intersection(other)` with a `DateRange`: a new list of the points
        that lie in it, in their order. */
    method Intersection(other: RangeState) returns (r: Result<DateList>)
      ensures r.Err? <==> Kept(other, dates).Err?
      ensures r.Err? ==> r.error == Kept(other, dates).error
      ensures r.Ok? ==> fresh(r.value) && r.value.dates == Kept(other, dates).value
    {
      var kept := Kept(other, dates);
      if kept.Err? {
        return Err(kept.error);
      }
      var built := Create(Collection(seq(|kept.value|, k requires 0 <= k < |kept.value| => Point(kept.value[k]))));
      assert Build(Collection(seq(|kept.value|, k requires 0 <= k < |kept.value| => Point(kept.value[k])))).Ok?;
      r := built;
    }
  }
}
