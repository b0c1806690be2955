/**
 * Calendar arithmetic for release dates.  A release date is a valid date of
 * the proleptic Gregorian calendar.  The analysis reads its month
 * (`.dt.month`), its weekday name (`.dt.day_name()`), and compares dates by
 * the number of days between them; for that a date is mapped to its day
 * number, the count of days since 1970-01-01 (the origin of pandas'
 * timestamps).
 */
module Calendar {

  predicate IsLeapYear(y: int) {
    y % 4 == 0 && (y % 100 != 0 || y % 400 == 0)
  }

  function DaysInMonth(y: int, m: int): int {
    if m == 2 then (if IsLeapYear(y) then 29 else 28)
    else if m == 4 || m == 6 || m == 9 || m == 11 then 30
    else 31
  }

  datatype Date = Date(year: int, month: int, day: int)

  predicate IsValidDate(d: Date) {
    1 <= d.month <= 12 && 1 <= d.day <= DaysInMonth(d.year, d.month)
  }

  /** A date that exists in the calendar. */
  type CivilDate = d: Date | IsValidDate(d) witness Date(1970, 1, 1)

  /** The days from the start of an era to 1 March of its year yoe. */
  function EraDays(yoe: int): int {
    yoe * 365 + yoe / 4 - yoe / 100
  }

  /** The day number of 1 March of year y.  Years are counted from March so
      that the leap day falls at the end of a year; an era is 400 years. */
  function MarchFirst(y: int): int {
    var era := y / 400;
    era * 146097 + EraDays(y - era * 400) - 719468
  }

  /** The day number of a date: 1 March of its March-based year, plus the
      days since then. */
  function DayNumber(date: CivilDate): int {
    var y, m := date.year, date.month;
    var mp := if m > 2 then m - 3 else m + 9;
    MarchFirst(if m <= 2 then y - 1 else y) + (153 * mp + 2) / 5 + date.day - 1
  }

  /** The next day within the same month has the next day number. */
  lemma NextDayInMonth(y: int, m: int, d: int)
    requires 1 <= m <= 12 && 1 <= d < DaysInMonth(y, m)
    ensures DayNumber(Date(y, m, d + 1)) == DayNumber(Date(y, m, d)) + 1
  {
  }

  /** Within an era, a year has 366 days when it ends in a February of a
      year count divisible by 4 but not by 100. */
  lemma EraDaysStep(yoe: int)
    requires 0 <= yoe < 399
    ensures EraDays(yoe + 1) ==
      EraDays(yoe) + (if (yoe + 1) % 4 == 0 && (yoe + 1) % 100 != 0 then 366 else 365)
  {
    QuotientStep4(yoe);
    QuotientStep100(yoe);
  }

  lemma QuotientStep4(n: int)
    requires n >= 0
    ensures (n + 1) / 4 == n / 4 + (if (n + 1) % 4 == 0 then 1 else 0)
  {
    var q, r := n / 4, n % 4;
    if r == 3 {
      assert n + 1 == (q + 1) * 4;
    } else {
      assert n + 1 == q * 4 + (r + 1);
    }
  }

  lemma QuotientStep100(n: int)
    requires n >= 0
    ensures (n + 1) / 100 == n / 100 + (if (n + 1) % 100 == 0 then 1 else 0)
  {
    var q, r := n / 100, n % 100;
    if r == 99 {
      assert n + 1 == (q + 1) * 100;
    } else {
      assert n + 1 == q * 100 + (r + 1);
    }
  }

  /** The last year of an era ends in a leap day, completing the era's
      146097 days. */
  lemma EraEnd()
    ensures EraDays(399) + 366 == 146097
  {
  }

  /** Division by 400 of a number written as q * 400 + r. */
  lemma EraOf(n: int, q: int, r: int)
    requires n == q * 400 + r && 0 <= r < 400
    ensures n / 400 == q && n - q * 400 == r
    ensures n % 4 == r % 4 && n % 100 == r % 100 && n % 400 == r
  {
  }

  /** A year counted from 1 March has 366 days when the February at its end
      has a leap day, and 365 otherwise. */
  lemma YearLength(y: int)
    ensures MarchFirst(y + 1) == MarchFirst(y) + (if IsLeapYear(y + 1) then 366 else 365)
  {
    var era := y / 400;
    var yoe := y - era * 400;
    if yoe < 399 {
      EraOf(y + 1, era, yoe + 1);
      EraDaysStep(yoe);
    } else {
      EraOf(y + 1, era + 1, 0);
      EraEnd();
    }
  }

  /** From January to November, except February, the first of a month follows
      the last day of the month before. */
  lemma NextMonthStart(y: int, m: int)
    requires 1 <= m <= 11 && m != 2
    ensures DayNumber(Date(y, m + 1, 1)) == DayNumber(Date(y, m, DaysInMonth(y, m))) + 1
  {
  }

  /** 1 March follows the last day of February, 28 or 29 February. */
  lemma MarchStart(y: int)
    ensures DayNumber(Date(y, 3, 1)) == DayNumber(Date(y, 2, DaysInMonth(y, 2))) + 1
  {
    var f := DaysInMonth(y, 2);
    assert DayNumber(Date(y, 2, f)) == MarchFirst(y - 1) + 336 + f;
    assert DayNumber(Date(y, 3, 1)) == MarchFirst(y);
    YearLength(y - 1);
  }

  /** 1 January follows 31 December of the year before. */
  lemma NextYearStart(y: int)
    ensures DayNumber(Date(y + 1, 1, 1)) == DayNumber(Date(y, 12, 31)) + 1
  {
  }

  /** The date after a date in the calendar. */
  function NextDate(date: CivilDate): CivilDate {
    if date.day < DaysInMonth(date.year, date.month) then Date(date.year, date.month, date.day + 1)
    else if date.month < 12 then Date(date.year, date.month + 1, 1)
    else Date(date.year + 1, 1, 1)
  }

  /** Day numbers count the days: the next date has the next day number. */
  lemma NextDateIsNextDay(date: CivilDate)
    ensures DayNumber(NextDate(date)) == DayNumber(date) + 1
  {
    var y, m, d := date.year, date.month, date.day;
    if d < DaysInMonth(y, m) {
      assert NextDate(date) == Date(y, m, d + 1);
      NextDayInMonth(y, m, d);
    } else if m == 2 {
      assert NextDate(date) == Date(y, 3, 1) && date == Date(y, 2, DaysInMonth(y, 2));
      MarchStart(y);
    } else if m < 12 {
      assert NextDate(date) == Date(y, m + 1, 1) && date == Date(y, m, DaysInMonth(y, m));
      NextMonthStart(y, m);
    } else {
      assert NextDate(date) == Date(y + 1, 1, 1) && date == Date(y, 12, 31);
      NextYearStart(y);
    }
  }

  datatype Weekday = Monday | Tuesday | Wednesday | Thursday | Friday | Saturday | Sunday

  /** The weekdays in the order the analysis presents them. */
  const WeekOrder: seq<Weekday> := [Monday, Tuesday, Wednesday, Thursday, Friday, Saturday, Sunday]

  /** The weekday of a day number; day number 0 (1970-01-01) was a Thursday. */
  function WeekdayOfDay(n: int): Weekday {
    WeekOrder[(n + 3) % 7]
  }

  /** The weekday of a date. */
  function WeekdayOf(date: CivilDate): Weekday {
    WeekdayOfDay(DayNumber(date))
  }

  /** The weekday after w, Sunday wrapping round to Monday. */
  function NextWeekday(w: Weekday): Weekday {
    match w
    case Monday => Tuesday
    case Tuesday => Wednesday
    case Wednesday => Thursday
    case Thursday => Friday
    case Friday => Saturday
    case Saturday => Sunday
    case Sunday => Monday
  }

  /** Day after day, the weekday walks through the week in order, and it
      repeats every seven days. */
  lemma {:induction false} NextDayIsNextWeekday(n: int)
    ensures WeekdayOfDay(n + 1) == NextWeekday(WeekdayOfDay(n))
    ensures WeekdayOfDay(n + 7) == WeekdayOfDay(n)
  {
    var i := (n + 3) % 7;
    assert (n + 1 + 3) % 7 == (i + 1) % 7;
    assert (n + 7 + 3) % 7 == i;
  }

  /** The next date falls on the next weekday. */
  lemma NextDateIsNextWeekday(date: CivilDate)
    ensures WeekdayOf(NextDate(date)) == NextWeekday(WeekdayOf(date))
  {
    NextDateIsNextDay(date);
    NextDayIsNextWeekday(DayNumber(date));
  }

  /** Day number 0 is 1970-01-01, a Thursday. */
  lemma EpochIsThursday()
    ensures DayNumber(Date(1970, 1, 1)) == 0 && WeekdayOf(Date(1970, 1, 1)) == Thursday
  {
  }

  /** 2023-12-25, day number 19716, was a Monday. */
  lemma Christmas2023WasMonday()
    ensures DayNumber(Date(2023, 12, 25)) == 19716 && WeekdayOf(Date(2023, 12, 25)) == Monday
  {
    DayNumberIn2023(12, 25);
  }

  /** The day numbers of the dates of 2023: 2022-03-01 is day 19052 and
      2023-03-01 is day 19417. */
  lemma DayNumberIn2023(m: int, d: int)
    requires 1 <= m <= 12 && 1 <= d <= DaysInMonth(2023, m)
    ensures DayNumber(Date(2023, m, d)) ==
      (if m <= 2 then 19052 else 19417) + (153 * (if m > 2 then m - 3 else m + 9) + 2) / 5 + d - 1
  {
  }
}
