/**
 * Calendar dates as the JavaScript `Date` object gives them (year, month
 * 1-12, day of month) and as day numbers, in the proleptic Gregorian
 * calendar. The date picker compares, parses and shifts dates; here a
 * date's instant is its day number, counted from 1 January of year 1.
 */
module Calendar {
  datatype CalendarDate = CalendarDate(year: int, month: int, day: int)

  predicate Leap(y: int) {
    y % 4 == 0 && (y % 100 != 0 || y % 400 == 0)
  }

  function YearLength(y: int): int {
    if Leap(y) then 366 else 365
  }

  function DaysIn(y: int, m: int): int {
    if m == 2 then (if Leap(y) then 29 else 28)
    else if m == 4 || m == 6 || m == 9 || m == 11 then 30
    else 31
  }

  predicate Valid(x: CalendarDate) {
    1 <= x.month <= 12 && 1 <= x.day <= DaysIn(x.year, x.month)
  }

  /** The dates a `Date` object can hold. */
  type Date = x: CalendarDate | Valid(x) witness CalendarDate(1970, 1, 1)

  const Epoch: Date := CalendarDate(1, 1, 1)

  /** The days from 1 January of year 1 to 1 January of year `y`, counted year by year. */
  function DaysBeforeYear(y: int): int
    decreases if y >= 1 then y - 1 else 1 - y
  {
    if y == 1 then 0
    else if y > 1 then DaysBeforeYear(y - 1) + YearLength(y - 1)
    else DaysBeforeYear(y + 1) - YearLength(y)
  }

  /** The days of year `y` before the first of month `m`. */
  function DaysBeforeMonth(y: int, m: int): nat
    requires 1 <= m <= 12
  {
    if m == 1 then 0 else DaysBeforeMonth(y, m - 1) + DaysIn(y, m - 1)
  }

  /** The year and month that a month number outside 1 to 12 rolls over to. */
  function NormalMonth(y: int, m: int): (r: (int, int))
    ensures 1 <= r.1 <= 12
    decreases if m > 12 then m else if m < 1 then 1 - m else 0
  {
    if m > 12 then NormalMonth(y + 1, m - 12)
    else if m < 1 then NormalMonth(y - 1, m + 12)
    else (y, m)
  }

  /**
   * The day number of a year, month and day, which may lie outside their
   * ranges: a month beyond 12 or below 1 moves the year, and a day beyond
   * the month runs on into the next, as `new Date(y, m - 1, d)` does.
   */
  function DayNumber(x: CalendarDate): int {
    var ym := NormalMonth(x.year, x.month);
    DaysBeforeYear(ym.0) + DaysBeforeMonth(ym.0, ym.1) + x.day - 1
  }

  /** Chronological order of valid dates, field by field. */
  predicate Before(a: CalendarDate, b: CalendarDate) {
    a.year < b.year || (a.year == b.year && (a.month < b.month || (a.month == b.month && a.day < b.day)))
  }

  function NextDay(x: Date): Date {
    if x.day < DaysIn(x.year, x.month) then x.(day := x.day + 1)
    else if x.month < 12 then CalendarDate(x.year, x.month + 1, 1)
    else CalendarDate(x.year + 1, 1, 1)
  }

  function PrevDay(x: Date): Date {
    if x.day > 1 then x.(day := x.day - 1)
    else if x.month > 1 then CalendarDate(x.year, x.month - 1, DaysIn(x.year, x.month - 1))
    else CalendarDate(x.year - 1, 12, 31)
  }

  /** The date `k` days after `x` (before it when `k` is negative). */
  function ShiftDays(x: Date, k: int): Date
    decreases if k >= 0 then k else -k
  {
    if k == 0 then x
    else if k > 0 then ShiftDays(NextDay(x), k - 1)
    else ShiftDays(PrevDay(x), k + 1)
  }

  /** The date with day number `n`. */
  function Civil(n: int): (r: Date)
    ensures DayNumber(r) == n
  {
    EpochIsZero();
    ShiftNumber(Epoch, n);
    NumbersDiffer();
    var r: Date :| DayNumber(r) == n;
    r
  }

  lemma EpochIsZero()
    ensures DayNumber(Epoch) == 0
  {
    ValidNumber(Epoch);
  }

  // ---------------------------------------------------------------------------
  // Lemmas
  // ---------------------------------------------------------------------------

  /** A year's days run from its first day number to the next year's. */
  lemma YearStep(y: int)
    ensures DaysBeforeYear(y + 1) == DaysBeforeYear(y) + YearLength(y)
  {
  }

  lemma DivSteps(y: int)
    ensures y / 4 - (y - 1) / 4 == if y % 4 == 0 then 1 else 0
    ensures y / 100 - (y - 1) / 100 == if y % 100 == 0 then 1 else 0
    ensures y / 400 - (y - 1) / 400 == if y % 400 == 0 then 1 else 0
  {
  }

  /** The number of days before year `y` is the Gregorian count: 365 a year, plus the leap days. */
  lemma {:induction false} ClosedForm(y: int)
    ensures var p := y - 1; DaysBeforeYear(y) == 365 * p + p / 4 - p / 100 + p / 400
    decreases if y >= 1 then y - 1 else 1 - y
  {
    if y > 1 {
      ClosedForm(y - 1);
      LeapStep(y - 1);
    } else if y < 1 {
      ClosedForm(y + 1);
      LeapStep(y);
    }
  }

  lemma LeapStep(y: int)
    ensures var p, q := y - 1, y;
      (365 * q + q / 4 - q / 100 + q / 400) - (365 * p + p / 4 - p / 100 + p / 400) == YearLength(y)
  {
    DivSteps(y);
    if y % 100 == 0 {
      Divides(y, 4, 100);
    }
    if y % 400 == 0 {
      Divides(y, 100, 400);
    }
  }

  lemma Divides(y: int, a: int, b: int)
    requires (a == 4 && b == 100) || (a == 100 && b == 400)
    requires y % b == 0
    ensures y % a == 0
  {
    var k := y / b;
    assert y == b * k;
    assert y == a * ((b / a) * k);
  }

  lemma {:induction false} YearsMonotone(y1: int, y2: int)
    requires y1 <= y2
    ensures DaysBeforeYear(y1) <= DaysBeforeYear(y2)
    decreases y2 - y1
  {
    if y1 < y2 {
      YearStep(y2 - 1);
      YearsMonotone(y1, y2 - 1);
    }
  }

  lemma MonthStep(y: int, m: int)
    requires 1 <= m < 12
    ensures DaysBeforeMonth(y, m + 1) == DaysBeforeMonth(y, m) + DaysIn(y, m)
  {
  }

  lemma {:induction false} MonthsMonotone(y: int, m1: int, m2: int)
    requires 1 <= m1 < m2 <= 12
    ensures DaysBeforeMonth(y, m1) + DaysIn(y, m1) <= DaysBeforeMonth(y, m2)
    decreases m2 - m1
  {
    if m1 + 1 < m2 {
      MonthsMonotone(y, m1, m2 - 1);
    }
  }

  /** The months of a year add up to the year's length. */
  lemma LastMonth(y: int)
    ensures DaysBeforeMonth(y, 12) + DaysIn(y, 12) == YearLength(y)
  {
    var l := if Leap(y) then 1 else 0;
    assert DaysBeforeMonth(y, 2) == 31;
    assert DaysBeforeMonth(y, 3) == 59 + l;
    assert DaysBeforeMonth(y, 4) == 90 + l;
    assert DaysBeforeMonth(y, 5) == 120 + l;
    assert DaysBeforeMonth(y, 6) == 151 + l;
    assert DaysBeforeMonth(y, 7) == 181 + l;
    assert DaysBeforeMonth(y, 8) == 212 + l;
    assert DaysBeforeMonth(y, 9) == 243 + l;
    assert DaysBeforeMonth(y, 10) == 273 + l;
    assert DaysBeforeMonth(y, 11) == 304 + l;
    assert DaysBeforeMonth(y, 12) == 334 + l;
  }

  /** A valid date's day number, written without the roll-over. */
  lemma ValidNumber(x: Date)
    ensures DayNumber(x) == DaysBeforeYear(x.year) + DaysBeforeMonth(x.year, x.month) + x.day - 1
  {
  }

  /** A valid date's day number lies within its year. */
  lemma WithinYear(x: Date)
    ensures DaysBeforeYear(x.year) <= DayNumber(x) < DaysBeforeYear(x.year + 1)
  {
    ValidNumber(x);
    YearStep(x.year);
    LastMonth(x.year);
    if x.month < 12 {
      MonthsMonotone(x.year, x.month, 12);
    }
  }

  lemma NextDayNumber(x: Date)
    ensures DayNumber(NextDay(x)) == DayNumber(x) + 1
  {
    var n := NextDay(x);
    ValidNumber(x);
    ValidNumber(n);
    if x.day < DaysIn(x.year, x.month) {
      assert n == x.(day := x.day + 1);
    } else if x.month < 12 {
      assert n == CalendarDate(x.year, x.month + 1, 1);
      MonthStep(x.year, x.month);
    } else {
      assert n == CalendarDate(x.year + 1, 1, 1);
      YearStep(x.year);
      LastMonth(x.year);
    }
  }

  lemma NextOfPrev(x: Date)
    ensures NextDay(PrevDay(x)) == x
  {
  }

  lemma PrevDayNumber(x: Date)
    ensures DayNumber(PrevDay(x)) == DayNumber(x) - 1
  {
    NextOfPrev(x);
    NextDayNumber(PrevDay(x));
  }

  /** Shifting by `k` days adds `k` to the day number. */
  lemma ShiftNumber(x: Date, k: int)
    ensures DayNumber(ShiftDays(x, k)) == DayNumber(x) + k
  {
    if k >= 0 {
      ShiftForward(x, k);
    } else {
      ShiftBackward(x, -k);
    }
  }

  lemma {:induction false} ShiftForward(x: Date, k: nat)
    ensures DayNumber(ShiftDays(x, k)) == DayNumber(x) + k
    decreases k
  {
    if k > 0 {
      var n := NextDay(x);
      assert ShiftDays(x, k) == ShiftDays(n, k - 1);
      ShiftForward(n, k - 1);
      NextDayNumber(x);
    }
  }

  lemma {:induction false} ShiftBackward(x: Date, k: nat)
    ensures DayNumber(ShiftDays(x, -(k as int))) == DayNumber(x) - k
    decreases k
  {
    if k > 0 {
      var p := PrevDay(x);
      assert ShiftDays(x, -(k as int)) == ShiftDays(p, -((k - 1) as int));
      ShiftBackward(p, k - 1);
      PrevDayNumber(x);
    }
  }

  lemma BeforeNumber(a: Date, b: Date)
    requires Before(a, b)
    ensures DayNumber(a) < DayNumber(b)
  {
    ValidNumber(a);
    ValidNumber(b);
    if a.year < b.year {
      WithinYear(a);
      WithinYear(b);
      YearsMonotone(a.year + 1, b.year);
    } else if a.month < b.month {
      MonthsMonotone(a.year, a.month, b.month);
    }
  }

  /** Day numbers order valid dates as the calendar does. */
  lemma OrderMatches(a: Date, b: Date)
    ensures Before(a, b) <==> DayNumber(a) < DayNumber(b)
    ensures a == b <==> DayNumber(a) == DayNumber(b)
  {
    if Before(a, b) {
      BeforeNumber(a, b);
    } else if Before(b, a) {
      BeforeNumber(b, a);
    }
  }

  /** Different dates have different day numbers. */
  lemma NumbersDiffer()
    ensures forall a: Date, b: Date :: DayNumber(a) == DayNumber(b) ==> a == b
  {
    forall a: Date, b: Date | DayNumber(a) == DayNumber(b) ensures a == b {
      OrderMatches(a, b);
    }
  }

  /** Every valid date is the date of its day number. */
  lemma CivilOfNumber(x: Date)
    ensures Civil(DayNumber(x)) == x
  {
    OrderMatches(Civil(DayNumber(x)), x);
  }

  /** The month and day roll over into the next months and years as the `Date` constructor makes them. */
  lemma RollOver(y: int, m: int, d: int)
    ensures DayNumber(CalendarDate(y, m + 12, d)) == DayNumber(CalendarDate(y + 1, m, d))
    ensures DayNumber(CalendarDate(y, m, d + 1)) == DayNumber(CalendarDate(y, m, d)) + 1
  {
  }
}
