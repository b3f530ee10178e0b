/** The calendar the timestamps are read in is the Gregorian one. */
module Calendar {
  import opened GaussDates

  lemma Fourth(y: nat)
    requires y >= 1
    ensures y / 4 == (y - 1) / 4 + if y % 4 == 0 then 1 else 0
    ensures (y + 400) / 4 == y / 4 + 100
  {
  }

  lemma Hundredth(y: nat)
    requires y >= 1
    ensures y / 100 == (y - 1) / 100 + if y % 100 == 0 then 1 else 0
    ensures (y + 400) / 100 == y / 100 + 4
  {
  }

  lemma FourHundredth(y: nat)
    requires y >= 1
    ensures y / 400 == (y - 1) / 400 + if y % 400 == 0 then 1 else 0
    ensures (y + 400) / 400 == y / 400 + 1
  {
  }

  lemma Divides(y: nat)
    ensures y % 400 == 0 ==> y % 100 == 0
    ensures y % 100 == 0 ==> y % 4 == 0
  {
    if y % 400 == 0 {
      assert y == 100 * (4 * (y / 400));
    }
    if y % 100 == 0 {
      assert y == 4 * (25 * (y / 100));
    }
  }

  predicate Leap(y: nat) {
    (y % 4 == 0 && y % 100 != 0) || y % 400 == 0
  }

  /** Leap days before the year, counted at once. */
  function LeapDaysBefore(y: nat): int
    requires y >= 1
  {
    (y - 1) / 4 - (y - 1) / 100 + (y - 1) / 400
  }

  lemma LeapDaySteps(y: nat)
    requires y >= 1
    ensures LeapDaysBefore(y + 1) == LeapDaysBefore(y) + if Leap(y) then 1 else 0
  {
    Fourth(y);
    Hundredth(y);
    FourHundredth(y);
    Divides(y);
    var a, b, c := y / 4, y / 100, y / 400;
    var a', b', c' := (y - 1) / 4, (y - 1) / 100, (y - 1) / 400;
    assert a - b + c - (a' - b' + c') == if Leap(y) then 1 else 0;
  }

  lemma YearLength(y: nat)
    ensures DaysBeforeMonth(y, 13) == 365 + if Leap(y) then 1 else 0
  {
    MonthsCounted(y);
  }

  /** The days before each month, in a year with and without the leap day. */
  lemma MonthsCounted(y: nat)
    ensures var leap := DaysIn(y, 2) - 28;
      && [DaysBeforeMonth(y, 1), DaysBeforeMonth(y, 2)] == [0, 31]
      && [DaysBeforeMonth(y, 3), DaysBeforeMonth(y, 4), DaysBeforeMonth(y, 5)] == [59 + leap, 90 + leap, 120 + leap]
      && [DaysBeforeMonth(y, 6), DaysBeforeMonth(y, 7), DaysBeforeMonth(y, 8)] == [151 + leap, 181 + leap, 212 + leap]
      && [DaysBeforeMonth(y, 9), DaysBeforeMonth(y, 10), DaysBeforeMonth(y, 11)] == [243 + leap, 273 + leap, 304 + leap]
      && [DaysBeforeMonth(y, 12), DaysBeforeMonth(y, 13)] == [334 + leap, 365 + leap]
  {
    MonthsTo(y, 1);
    MonthsTo(y, 4);
    MonthsTo(y, 7);
    MonthsTo(y, 10);
    hide DaysBeforeMonth;
  }

  lemma MonthsTo(y: nat, m: nat)
    requires m >= 1
    ensures DaysBeforeMonth(y, m + 1) == DaysBeforeMonth(y, m) + DaysIn(y, m)
    ensures DaysBeforeMonth(y, m + 2) == DaysBeforeMonth(y, m + 1) + DaysIn(y, m + 1)
    ensures DaysBeforeMonth(y, m + 3) == DaysBeforeMonth(y, m + 2) + DaysIn(y, m + 2)
    ensures m == 1 ==> DaysBeforeMonth(y, m) == 0
  {
  }

  lemma NextYear(y: nat)
    requires y > 1
    ensures DaysBeforeYear(y) == DaysBeforeYear(y - 1) + 365 + if Leap(y - 1) then 1 else 0
  {
    hide DaysBeforeMonth, Leap;
    YearLength(y - 1);
  }

  /** The days before a year, counted at once: 365 a year and one for every leap day. */
  lemma {:induction false} DaysCounted(y: nat)
    requires y >= 1
    ensures DaysBeforeYear(y) == 365 * (y - 1) + LeapDaysBefore(y)
  {
    if y == 1 {
    } else {
      hide DaysBeforeYear, LeapDaysBefore, Leap;
      DaysCounted(y - 1);
      NextYear(y);
      LeapDaySteps(y - 1);
    }
  }

  lemma LeapDaysRepeat(y: nat)
    requires y >= 1
    ensures LeapDaysBefore(y + 400) == LeapDaysBefore(y) + 97
  {
    var z := y - 1;
    assert y + 400 - 1 == z + 400;
    if z >= 1 {
      Fourth(z);
      Hundredth(z);
      FourHundredth(z);
    }
  }

  /** So the calendar repeats after four hundred years of 146097 days. */
  lemma CalendarRepeats(y: nat)
    requires y >= 1
    ensures DaysBeforeYear(y + 400) == DaysBeforeYear(y) + 146097
  {
    hide DaysBeforeYear, LeapDaysBefore;
    DaysCounted(y);
    DaysCounted(y + 400);
    LeapDaysRepeat(y);
  }

  // ----- one second after the other -----

  /** The second after t, carried into the minute, the hour, the day, the month and the
      year. */
  function Tick(t: Stamp): Stamp {
    if t.second < 59 then t.(second := t.second + 1)
    else if t.minute < 59 then t.(minute := t.minute + 1, second := 0)
    else if t.hour < 23 then t.(hour := t.hour + 1, minute := 0, second := 0)
    else if t.day < DaysIn(t.year, t.month) then t.(day := t.day + 1, hour := 0, minute := 0, second := 0)
    else if t.month < 12 then t.(month := t.month + 1, day := 1, hour := 0, minute := 0, second := 0)
    else Stamp(t.year + 1, 1, 1, 0, 0, 0)
  }

  /** The day a moment lies on, counted from the start of year 1. */
  function Day(t: Stamp): nat {
    DaysBeforeYear(t.year) + DaysBeforeMonth(t.year, t.month) + t.day
  }

  lemma NextDay(y: nat, m: nat)
    requires 1 <= m
    ensures Day(Stamp(y, m + 1, 1, 0, 0, 0)) == Day(Stamp(y, m, DaysIn(y, m), 0, 0, 0)) + 1
    ensures y >= 1 ==> Day(Stamp(y + 1, 1, 1, 0, 0, 0)) == Day(Stamp(y, 12, DaysIn(y, 12), 0, 0, 0)) + 1
  {
    hide DaysIn;
    assert DaysBeforeMonth(y, 13) == DaysBeforeMonth(y, 12) + DaysIn(y, 12);
    assert DaysBeforeMonth(y, m + 1) == DaysBeforeMonth(y, m) + DaysIn(y, m);
  }

  lemma SecondsAre(t: Stamp)
    ensures Seconds(t) == 86400 * Day(t) + 3600 * t.hour + 60 * t.minute + t.second
  {
    hide DaysBeforeYear, DaysBeforeMonth;
  }

  lemma DayTicks(t: Stamp)
    requires t.Valid()
    ensures Day(Tick(t)) == Day(t) + if t.second == 59 && t.minute == 59 && t.hour == 23 then 1 else 0
  {
    hide DaysIn, DaysBeforeYear, DaysBeforeMonth;
    NextDay(t.year, t.month);
  }

  /** Moments are counted in seconds without a gap. */
  lemma SecondsTick(t: Stamp)
    requires t.Valid()
    ensures Seconds(Tick(t)) == Seconds(t) + 1
  {
    hide DaysIn, Day, Seconds;
    SecondsAre(t);
    SecondsAre(Tick(t));
    DayTicks(t);
  }
}
