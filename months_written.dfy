/** A range on which `months` as written never stops. */
module MonthsAsWritten {
  import opened Base
  import opened Calendar
  import opened Time
  import opened Cyclic
  import opened Grid
  import opened Ranges
  import opened Generators
  import opened Walks

  /** `DateRange(date(2021, 1, 1), date(2021, 3, 31))`: day ordinals 737791
      to 737880. */
  function FirstQuarter(): (s: RangeState)
    ensures Valid(s)
  {
    RangeState(Some(Date(737791)), Some(Date(737880)), Some(DateKind), Some(86_400_000_000), false)
  }

  /** The cursors of reverse `months` on the first quarter of 2021: March 31
      on the anchor March 1, then March 3 (February 1 plus the 30 days from
      March 1 to March 31) on the anchor February 1, for ever. */
  function StuckCursor(n: nat): Cursor {
    if n == 0 then Cursor(Date(737880), Date(737850)) else Cursor(Date(737852), Date(737822))
  }

  /** The date of day ordinal `n`, once its ordinal is known. */
  lemma DateAt(y: int, m: int, d: int, n: int)
    requires ValidDate(y, m, d) && Ordinal(y, m, d) == n
    ensures DateOf(Date(n)) == Ymd(y, m, d)
  {
    ToYmdOrdinal(y, m, d);
  }

  lemma March31()
    ensures DateOf(Date(737880)) == Ymd(2021, 3, 31)
  {
    DateAt(2021, 3, 31, 737880);
  }

  lemma March3()
    ensures DateOf(Date(737852)) == Ymd(2021, 3, 3)
  {
    DateAt(2021, 3, 3, 737852);
  }

  lemma March1()
    ensures DateOf(Date(737850)) == Ymd(2021, 3, 1)
    ensures MakeDateTime(2021, 3, 1).value == Midnight(DateTimeKind, 737850)
  {
    DateAt(2021, 3, 1, 737850);
  }

  /** From March 2021 the anchor steps back to February 1. */
  lemma StepBack()
    ensures MonthStep(DateKind, 2021, 3, -1) == Date(737822)
  {
    MonthNeighbour(3, -1);
    assert BoundMonth(2) == (0, 2);
    assert ValidDate(2021, 2, 1) && Ordinal(2021, 2, 1) == 737822;
  }

  /** Every point of March 2021 steps back to February 1. */
  lemma MarchStepsBack(d: TimePoint)
    requires DateOf(d).year == 2021 && DateOf(d).month == 3
    ensures MonthNext(DateKind, d, -1) == Date(737822)
  {
    StepBack();
  }

  lemma StuckAnchor()
    ensures MonthStart(DateKind, Date(737880)) == Date(737850)
  {
    March31();
    March1();
    CastMidnight(DateKind, 737850);
  }

  lemma StuckNeighbour()
    ensures MonthStep(DateKind, DateOf(Date(737850)).year, DateOf(Date(737880)).month, Direction(true)) == Date(737822)
  {
    March31();
    March1();
    StepBack();
  }

  lemma StuckSetup(s: RangeState)
    requires s == FirstQuarter()
    ensures MonthsSetup(s, false, true, false) ==
            Ok(Setup(MonthWalk(DateKind, -1, 30 * 86_400_000_000), StuckCursor(0)))
  {
    StuckAnchor();
    StuckNeighbour();
    PlainMonthsSetup(s, true, Date(737880), Date(737850), 30 * 86_400_000_000, Date(737822));
  }

  /** March 31 steps back to March 3. */
  lemma FirstStep()
    ensures Next(MonthWalk(DateKind, -1, 30 * 86_400_000_000), StuckCursor(0)) == Ok(StuckCursor(1))
  {
    March31();
    MarchStepsBack(Date(737880));
    PlainMonthStep(DateKind, -1, 30 * 86_400_000_000, StuckCursor(0), Date(737822));
  }

  /** March 3 steps back to itself. */
  lemma LaterStep()
    ensures Next(MonthWalk(DateKind, -1, 30 * 86_400_000_000), StuckCursor(1)) == Ok(StuckCursor(1))
  {
    March3();
    MarchStepsBack(Date(737852));
    PlainMonthStep(DateKind, -1, 30 * 86_400_000_000, StuckCursor(1), Date(737822));
  }

  lemma StuckTrack()
    ensures Tracks(Advance(MonthWalk(DateKind, -1, 30 * 86_400_000_000)), StuckCursor)
  {
    var w := MonthWalk(DateKind, -1, 30 * 86_400_000_000);
    FirstStep();
    LaterStep();
    forall n: nat
      ensures Advance(w)(StuckCursor(n)) == Ok(StuckCursor(n + 1))
    {
      assert Advance(w)(StuckCursor(n)) == Next(w, StuckCursor(n));
      if n > 0 {
        assert StuckCursor(n) == StuckCursor(1) && StuckCursor(n + 1) == StuckCursor(1);
      }
    }
  }

  lemma StuckInside()
    ensures forall n: nat :: Contains(FirstQuarter(), StuckCursor(n).d) == Ok(true)
  {
  }

  /** Reverse `months` as written on the first quarter of 2021 yields March
      31, then March 3 on every later pull, and never stops by itself. */
  lemma MonthsReverseRepeats(limit: nat)
    ensures var g := Generate(FirstQuarter(), MonthsSetup(FirstQuarter(), false, true, false), limit);
            && g.stop == LimitReached && |g.items| == limit
            && (limit >= 1 ==> g.items[0] == Date(737880))
            && (forall i :: 1 <= i < limit ==> g.items[i] == Date(737852))
  {
    StuckSetup(FirstQuarter());
    StuckTrack();
    StuckInside();
    GenerateForever(FirstQuarter(), MonthsSetup(FirstQuarter(), false, true, false), StuckCursor, limit);
  }
}
