/**
  The clock (`ClockView`): five rings — seconds, minutes, hours, days of the
  month and months — and a year label. On every tick each ring is turned by
  the rotation `handleTick` gives it: the seconds ring by second+1, the day
  ring over the month length read at that tick. The lemmas below establish
  which tick that brings to the reference direction. That is the current value
  for minutes, hours and months, the next second for seconds, and for the
  days only while the ring's tick count matches the month length.
 */
module Clock {
  import opened Wrappers
  import opened Turns
  import opened Ring
  import Format

  /** The date formatter's fields for the current moment, as text: the patterns
      "YYYY", "MM", "dd", "HH", "mm" and "ss". */
  datatype DateText = DateText(year: string, month: string, day: string,
                               hour: string, minute: string, second: string)

  /** `Date.monthLength`: the number of days the calendar reports for the
      current month (`dayCount`, never zero), or 30 when it reports no range. */
  function MonthLength(dayCount: Option<pos>): (n: pos)
    ensures dayCount.None? ==> n == 30
    ensures dayCount.Some? ==> n == dayCount.value
  {
    dayCount.GetOr(30)
  }

  // ---- the rotations handleTick gives the rings ----

  /** The seconds ring is turned one step further than the current second. */
  function SecondRotation(second: int): Angle
  {
    Turn(second + 1, 60)
  }

  function MinuteRotation(minute: int): Angle
  {
    Turn(minute, 60)
  }

  function HourRotation(hour: int): Angle
  {
    Turn(hour, 24)
  }

  /** The day ring's rotation divides by the month length read at this tick. */
  function DayRotation(day: int, monthLength: pos): Angle
  {
    Turn(day, monthLength)
  }

  function MonthRotation(month: int): Angle
  {
    Turn(month, 12)
  }

  /** The ring `view` has the given unit and range and has drawn its ticks once. */
  ghost predicate Drawn(view: TimeView, unit: string, start: int, end: int)
    reads view
  {
    view.unit == unit && view.start == start && view.end == end &&
    start <= end && view.components == Layout(start, end, unit)
  }

  class ClockView {
    const secondView: TimeView
    const minuteView: TimeView
    const hourView: TimeView
    /** Laid out for the month length read when the clock was created. */
    const dayView: TimeView
    const monthView: TimeView
    /** The year label's text: none until the first tick. */
    var yearText: Option<string>

    ghost predicate Valid()
      reads this, secondView, minuteView, hourView, dayView, monthView
    {
      Drawn(secondView, "秒", 0, 59) &&
      Drawn(minuteView, "分", 0, 59) &&
      Drawn(hourView, "时", 0, 23) &&
      Drawn(dayView, "日", 1, dayView.end) &&
      Drawn(monthView, "月", 1, 12) &&
      // five separate rings
      secondView != minuteView && secondView != hourView && secondView != dayView &&
      secondView != monthView && minuteView != hourView && minuteView != dayView &&
      minuteView != monthView && hourView != dayView && hourView != monthView &&
      dayView != monthView
    }

    /** Builds the five rings, the day ring with as many ticks as the month
        length that `dayCount` gives now; no ring is turned yet. */
    constructor (dayCount: Option<pos>)
      ensures Valid()
      ensures dayView.end == MonthLength(dayCount)
      ensures fresh(secondView) && fresh(minuteView) && fresh(hourView) && fresh(dayView) && fresh(monthView)
      ensures secondView.rotation == Zero && minuteView.rotation == Zero && hourView.rotation == Zero
      ensures dayView.rotation == Zero && monthView.rotation == Zero
      ensures yearText == None
    {
      secondView := new TimeView("秒", 0, 59);
      minuteView := new TimeView("分", 0, 59);
      hourView := new TimeView("时", 0, 23);
      dayView := new TimeView("日", 1, MonthLength(dayCount));
      monthView := new TimeView("月", 1, 12);
      yearText := None;
    }

    /** One timer tick: turns every ring for the date `date` and the calendar's
        current day count `dayCount`, and sets the year label. The ticks of the
        rings stay as they were drawn. */
    method HandleTick(date: DateText, dayCount: Option<pos>)
      requires Valid()
      modifies this, secondView, minuteView, hourView, dayView, monthView
      ensures Valid()
      ensures secondView.rotation == SecondRotation(Format.IntValue(date.second))
      ensures minuteView.rotation == MinuteRotation(Format.IntValue(date.minute))
      ensures hourView.rotation == HourRotation(Format.IntValue(date.hour))
      ensures dayView.rotation == DayRotation(Format.IntValue(date.day), MonthLength(dayCount))
      ensures monthView.rotation == MonthRotation(Format.IntValue(date.month))
      ensures yearText == Some(date.year + "年")
      // which tick each ring then shows at the reference direction
      ensures var s := Format.IntValue(date.second);
        0 <= s <= 59 ==> Shown(secondView) == {(s + 1) % 60}
      ensures var m := Format.IntValue(date.minute);
        0 <= m <= 59 ==> Shown(minuteView) == {m}
      ensures var h := Format.IntValue(date.hour);
        0 <= h <= 23 ==> Shown(hourView) == {h}
      ensures var d := Format.IntValue(date.day);
        dayView.end == MonthLength(dayCount) && 1 <= d <= dayView.end ==> Shown(dayView) == {d}
      ensures var mo := Format.IntValue(date.month);
        1 <= mo <= 12 ==> Shown(monthView) == {mo}
    {
      var monthLength := MonthLength(dayCount);
      secondView.rotation := Turn(Format.IntValue(date.second) + 1, 60);
      minuteView.rotation := Turn(Format.IntValue(date.minute), 60);
      hourView.rotation := Turn(Format.IntValue(date.hour), 24);
      dayView.rotation := Turn(Format.IntValue(date.day), monthLength);
      monthView.rotation := Turn(Format.IntValue(date.month), 12);
      yearText := Some(date.year + "年");
      TickShowsDate(this, date, dayCount);
    }
  }

  /** The ticks a ring shows at the reference direction in its current state. */
  ghost function Shown(view: TimeView): set<int>
    reads view
  {
    AtReference(view.components, view.rotation)
  }

  /** Once the rings are turned for `date`, the minutes, hours and months rings
      show the current value, the day ring does when it was laid out for the
      month length of this tick, and the seconds ring shows the next second. */
  lemma TickShowsDate(c: ClockView, date: DateText, dayCount: Option<pos>)
    requires c.Valid()
    requires c.secondView.rotation == SecondRotation(Format.IntValue(date.second))
    requires c.minuteView.rotation == MinuteRotation(Format.IntValue(date.minute))
    requires c.hourView.rotation == HourRotation(Format.IntValue(date.hour))
    requires c.dayView.rotation == DayRotation(Format.IntValue(date.day), MonthLength(dayCount))
    requires c.monthView.rotation == MonthRotation(Format.IntValue(date.month))
    ensures var s := Format.IntValue(date.second);
      0 <= s <= 59 ==> Shown(c.secondView) == {(s + 1) % 60}
    ensures var m := Format.IntValue(date.minute);
      0 <= m <= 59 ==> Shown(c.minuteView) == {m}
    ensures var h := Format.IntValue(date.hour);
      0 <= h <= 23 ==> Shown(c.hourView) == {h}
    ensures var d := Format.IntValue(date.day);
      c.dayView.end == MonthLength(dayCount) && 1 <= d <= c.dayView.end ==> Shown(c.dayView) == {d}
    ensures var mo := Format.IntValue(date.month);
      1 <= mo <= 12 ==> Shown(c.monthView) == {mo}
  {
    var s := Format.IntValue(date.second);
    if 0 <= s <= 59 {
      SecondsLeadByOne(s);
    }
    var m := Format.IntValue(date.minute);
    if 0 <= m <= 59 {
      MinuteRing(m);
    }
    var h := Format.IntValue(date.hour);
    if 0 <= h <= 23 {
      HourRing(h);
    }
    var d := Format.IntValue(date.day);
    if c.dayView.end == MonthLength(dayCount) && 1 <= d <= c.dayView.end {
      DayRing(d, c.dayView.end);
    }
    var mo := Format.IntValue(date.month);
    if 1 <= mo <= 12 {
      MonthRing(mo);
    }
  }

  // ---- which tick each ring shows ----

  /** Turning the minutes ring by m/60 brings tick m, and only it, to the
      reference direction. */
  lemma MinuteRing(m: int)
    requires 0 <= m <= 59
    ensures AtReference(Layout(0, 59, "分"), MinuteRotation(m)) == {m}
  {
    OwnValueAtReference(0, 59, "分", m);
  }

  lemma HourRing(h: int)
    requires 0 <= h <= 23
    ensures AtReference(Layout(0, 23, "时"), HourRotation(h)) == {h}
  {
    OwnValueAtReference(0, 23, "时", h);
  }

  lemma MonthRing(mo: int)
    requires 1 <= mo <= 12
    ensures AtReference(Layout(1, 12, "月"), MonthRotation(mo)) == {mo}
  {
    OwnValueAtReference(1, 12, "月", mo);
  }

  /** When the day ring was laid out for the month length the rotation divides
      by, it shows the current day. */
  lemma DayRing(d: int, monthLength: pos)
    requires 1 <= d <= monthLength
    ensures AtReference(Layout(1, monthLength, "日"), DayRotation(d, monthLength)) == {d}
  {
    OwnValueAtReference(1, monthLength, "日", d);
  }

  /** The seconds ring shows the second after the current one: tick
      (s+1) mod 60, never tick s. */
  lemma SecondsLeadByOne(s: int)
    requires 0 <= s <= 59
    ensures AtReference(Layout(0, 59, "秒"), SecondRotation(s)) == {(s + 1) % 60}
    ensures s !in AtReference(Layout(0, 59, "秒"), SecondRotation(s))
  {
    assert SecondRotation(s) == Turn(s + 1, Count(0, 59));
    RingAtReference(0, 59, "秒", s + 1);
    assert (s + 1) % 60 != s;
  }

  /** At second 59 the seconds ring is turned by exactly one full turn, a
      whole number of turns, which is the same transform as no rotation. */
  lemma SecondsWrap()
    ensures Value(SecondRotation(59)) == 1.0
    ensures Whole(SecondRotation(59))
  {
  }

  // ---- the stale day ring ----

  /** A day ring laid out for n days but turned by d/monthLength shows tick d
      exactly when n is that month length: once the month length changes
      while the clock runs, no day the two months share is shown correctly. */
  lemma StaleDayRing(n: pos, monthLength: pos, d: int)
    requires 1 <= d <= n && d <= monthLength
    ensures d in AtReference(Layout(1, n, "日"), DayRotation(d, monthLength)) <==> n == monthLength
  {
    AtReferenceMember(1, n, "日", DayRotation(d, monthLength), d);
    StaleSum(n, monthLength, d);
  }

  /** Tick d's placement on an n-tick ring plus the rotation d/monthLength is
      a whole number of turns exactly when n is the month length. */
  lemma StaleSum(n: pos, monthLength: pos, d: int)
    requires 1 <= d <= n && d <= monthLength
    ensures Whole(Plus(DayRotation(d, monthLength), Placement(d, n))) <==> n == monthLength
  {
    var sum := Plus(Turn(d, monthLength), Turn(-d, n));
    assert sum.num == d * (n - monthLength) by {
      assert sum.num == d * n + -d * monthLength;
    }
    if n != monthLength {
      assert sum.den == monthLength * n;
      StaleBound(n, monthLength, d);
      SmallMultiple(sum.num, sum.den);
      ProductNonZero(d, n - monthLength);
    }
  }

  /** On the last day of a month of monthLength days, a day ring laid out for n
      days shows tick n, whatever the month length. */
  lemma StaleLastDay(n: pos, monthLength: pos)
    ensures AtReference(Layout(1, n, "日"), DayRotation(monthLength, monthLength)) == {n}
  {
    var shown := AtReference(Layout(1, n, "日"), DayRotation(monthLength, monthLength));
    forall i
      ensures i in shown <==> i == n
    {
      AtReferenceMember(1, n, "日", DayRotation(monthLength, monthLength), i);
      var sum := Plus(Turn(monthLength, monthLength), Placement(i, n));
      assert sum.num == monthLength * (n - i) by {
        assert sum.num == monthLength * n + -i * monthLength;
      }
      MulModCancel(monthLength, n - i, n);
      if 1 <= i <= n {
        SmallMultiple(n - i, n);
      }
    }
  }

  /** A ring made in a 31-day month and still running on the 30th of a 30-day
      month shows "31日". */
  lemma StaleDayExample()
    ensures AtReference(Layout(1, 31, "日"), DayRotation(30, 30)) == {31}
  {
    StaleLastDay(31, 30);
  }

  /** On most days a stale day ring brings no tick to the reference at all: a
      ring made in a 31-day month, on the 15th of a 30-day month. */
  lemma StaleMidMonthExample()
    ensures AtReference(Layout(1, 31, "日"), DayRotation(15, 30)) == {}
  {
    var shown := AtReference(Layout(1, 31, "日"), DayRotation(15, 30));
    forall i
      ensures i !in shown
    {
      AtReferenceMember(1, 31, "日", DayRotation(15, 30), i);
      assert Plus(Turn(15, 30), Placement(i, 31)) == Turn(465 - 30 * i, 930);
      HalfTickOff(i);
    }
  }

  /** 15/30 - i/31 is never a whole turn: its numerator over 930 is odd. */
  lemma HalfTickOff(i: int)
    ensures (465 - 30 * i) % 930 != 0
  {
    var x := 465 - 30 * i;
    var q, r := x / 930, x % 930;
    assert x == 930 * q + r;
    assert r != 0 by {
      assert r == 15 * (31 - 2 * i - 62 * q);
    }
  }

  // ---- bounds on the rotations ----

  /** The minutes and hours rings turn by less than a full turn. */
  lemma MinuteHourBounds(m: int, h: int)
    requires 0 <= m <= 59 && 0 <= h <= 23
    ensures 0.0 <= Value(MinuteRotation(m)) < 1.0
    ensures 0.0 <= Value(HourRotation(h)) < 1.0
  {
  }

  /** The day and month rings turn by more than nothing and at most a full
      turn, which they reach on the last value. */
  lemma DayMonthBounds(d: int, monthLength: pos, mo: int)
    requires 1 <= d <= monthLength && 1 <= mo <= 12
    ensures 0.0 < Value(DayRotation(d, monthLength)) <= 1.0
    ensures Value(DayRotation(d, monthLength)) == 1.0 <==> d == monthLength
    ensures 0.0 < Value(MonthRotation(mo)) <= 1.0
    ensures Value(MonthRotation(mo)) == 1.0 <==> mo == 12
  {
    UnitFraction(d, monthLength);
  }

  /** The seconds ring turns by between 1/60 of a turn and a full turn. */
  lemma SecondBounds(s: int)
    requires 0 <= s <= 59
    ensures 1.0 / 60.0 <= Value(SecondRotation(s)) <= 1.0
    ensures Value(SecondRotation(s)) == 1.0 <==> s == 59
  {
  }

  /** A later value turns a ring further. */
  lemma RotationIncreases(x: int, y: int, n: pos)
    requires x < y
    ensures Value(Turn(x, n)) < Value(Turn(y, n))
  {
    assert Value(Turn(y, n)) - Value(Turn(x, n)) == (y - x) as real / n as real;
  }

  // ---- arithmetic helpers ----

  lemma UnitFraction(d: int, n: pos)
    requires 1 <= d <= n
    ensures 0.0 < Value(Turn(d, n)) <= 1.0
    ensures Value(Turn(d, n)) == 1.0 <==> d == n
  {
    var v := Value(Turn(d, n));
    assert v * n as real == d as real;
  }

  lemma ProductNonZero(a: int, b: int)
    requires a != 0 && b != 0
    ensures a * b != 0
  {
  }

  /** The numerator of a stale day rotation stays strictly inside one turn. */
  lemma StaleBound(n: pos, monthLength: pos, d: int)
    requires 1 <= d <= n && d <= monthLength && n != monthLength
    ensures -(monthLength * n) < d * (n - monthLength) < monthLength * n
  {
    if n > monthLength {
      MulMonotone(d, monthLength, n - monthLength);
      assert monthLength * (n - monthLength) < monthLength * n;
    } else {
      MulMonotone(d, n, monthLength - n);
      assert n * (monthLength - n) < monthLength * n;
      assert d * (n - monthLength) == -(d * (monthLength - n));
    }
  }

  lemma MulMonotone(a: int, b: int, c: int)
    requires 0 <= a <= b && 0 <= c
    ensures a * c <= b * c
  {
  }
}
