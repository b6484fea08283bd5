/** The fiscal-calendar arithmetic of the date picker (`getDaysInMonth`, `getFiscalWeek`,
    `getFiscalYear`). A fiscal year starts on the first day of month `fiscalStartMonth`,
    counted from 1 = January, and is named after the calendar year that follows the
    start month's year. */
module FiscalMath {
  import opened JsDate

  /** The values the start-month selector offers: 1 (January) to 12 (December). */
  predicate ValidStartMonth(fiscalStartMonth: int) {
    1 <= fiscalStartMonth <= 12
  }

  /** The constructor resolves the day before the first of month `month + 1` to the
      last day of month `month`, whatever the overflow of `month + 1`. */
  lemma LastDayOfMonth(year: int, month: int)
    ensures MakeDate(year, month + 1, 0) ==
              Date(year + month / 12, month % 12, MonthLength(12 * year + month))
  {
    var k := 12 * year + month;
    var last := Date(year + month / 12, month % 12, MonthLength(k));
    assert k / 12 == year + month / 12 && k % 12 == month % 12;
    MonthStep(k);
    MakeDayByIndex(year, month + 1, 0);
    DayNumberByIndex(last);
    DayNumberInjective(MakeDate(year, month + 1, 0), last);
  }

  /** `getDaysInMonth(year, month)`: the day of `new Date(year, month + 1, 0)`, the
      length of month index 12 * year + month. The month may be -1 or 12, which stand for
      December of the year before and January of the year after. */
  function GetDaysInMonth(year: int, month: int): (n: int)
    ensures 28 <= n <= 31
    ensures n == MonthLength(12 * year + month)
  {
    LastDayOfMonth(year, month);
    MakeDate(year, month + 1, 0).day
  }

  /** The length is that of the calendar month the overflow lands on, and February has
      29 days exactly in leap years. */
  lemma GetDaysInMonthCalendar(year: int, month: int)
    ensures GetDaysInMonth(year, month) == DaysInMonthOf(year + month / 12, month % 12)
    ensures month % 12 == 1 ==> (GetDaysInMonth(year, month) == 29 <==> IsLeapYear(year + month / 12))
  {
    assert (12 * year + month) / 12 == year + month / 12;
    assert (12 * year + month) % 12 == month % 12;
  }

  /** The two overflowing months `generateCalendar` asks for. */
  lemma GetDaysInMonthWraps(year: int)
    ensures GetDaysInMonth(year, -1) == DaysInMonthOf(year - 1, 11) == 31
    ensures GetDaysInMonth(year, 12) == DaysInMonthOf(year + 1, 0) == 31
  {
    assert 12 * year - 1 == 12 * (year - 1) + 11;
    assert (12 * (year - 1) + 11) / 12 == year - 1 && (12 * (year - 1) + 11) % 12 == 11;
    assert (12 * year + 12) / 12 == year + 1 && (12 * year + 12) % 12 == 0;
  }

  /** `getFiscalYear(date)`: the calendar year for months before the start month, the
      next calendar year from the start month on. */
  function FiscalYear(d: Date, fiscalStartMonth: int): (fy: int)
    ensures fy == d.year || fy == d.year + 1
    ensures fy == d.year <==> d.month < fiscalStartMonth - 1
  {
    if d.month < fiscalStartMonth - 1 then d.year else d.year + 1
  }

  /** The `fiscalYearStart` of `getFiscalWeek`: day 1 of month `fiscalStartMonth - 1` in
      the year before the date's for months before it, in the date's year otherwise, so
      that its year is one less than the fiscal year of the date. */
  function FiscalYearStart(d: Date, fiscalStartMonth: int): (s: Date)
    requires d.Valid() && ValidStartMonth(fiscalStartMonth)
    ensures s.Valid()
    ensures s == Date(FiscalYear(d, fiscalStartMonth) - 1, fiscalStartMonth - 1, 1)
  {
    var year := if d.month < fiscalStartMonth - 1 then d.year - 1 else d.year;
    FirstOfMonth(year, fiscalStartMonth - 1);
    MakeDate(year, fiscalStartMonth - 1, 1)
  }

  /** The constructor leaves the first of a month in range as it is. */
  lemma FirstOfMonth(year: int, month: int)
    requires 0 <= month < 12
    ensures MakeDate(year, month, 1) == Date(year, month, 1)
  {
    MakeDateInMonth(year, month, 1);
    assert month / 12 == 0 && month % 12 == month;
  }

  /** A date lies between the start of its fiscal year and the start of the next. */
  lemma FiscalYearContains(d: Date, fiscalStartMonth: int)
    requires d.Valid() && ValidStartMonth(fiscalStartMonth)
    ensures var s := FiscalYearStart(d, fiscalStartMonth);
            DayNumber(s) <= DayNumber(d) < DayNumber(Date(s.year + 1, s.month, 1))
  {
    var s := FiscalYearStart(d, fiscalStartMonth);
    var next := Date(s.year + 1, s.month, 1);
    var ks, kd := MonthIndex(s), MonthIndex(d);
    assert ks <= kd < ks + 12;
    DayNumberByIndex(s);
    DayNumberByIndex(next);
    assert MonthIndex(next) == ks + 12;
    WithinMonth(d);
    if ks < kd {
      StartsIncrease(ks, kd);
    }
    if kd + 1 < ks + 12 {
      StartsIncrease(kd + 1, ks + 12);
    }
  }

  /** `Math.ceil(x / 7)` for an integer x. */
  function CeilDiv7(x: int): (c: int)
    ensures 7 * (c - 1) < x <= 7 * c
  {
    (x + 6) / 7
  }

  /** `getFiscalWeek(date)`: whole days since the fiscal-year start, plus the start's day
      of the week, divided by 7 and rounded up. It lies in 0..53. */
  function FiscalWeek(d: Date, fiscalStartMonth: int): (w: int)
    requires d.Valid() && ValidStartMonth(fiscalStartMonth)
    ensures 0 <= w <= 53
  {
    var start := FiscalYearStart(d, fiscalStartMonth);
    var diffDays := DayNumber(d) - DayNumber(start);
    FiscalYearLength(d, fiscalStartMonth);
    CeilDiv7(diffDays + GetDay(start))
  }

  /** Week 0 is the fiscal-year start itself when it falls on a Sunday, and no other
      day. */
  lemma FiscalWeekZero(d: Date, fiscalStartMonth: int)
    requires d.Valid() && ValidStartMonth(fiscalStartMonth)
    ensures FiscalWeek(d, fiscalStartMonth) == 0 <==>
              d == FiscalYearStart(d, fiscalStartMonth) && GetDay(d) == 0
  {
    var start := FiscalYearStart(d, fiscalStartMonth);
    FiscalYearLength(d, fiscalStartMonth);
    SameDayIff(d, start);
  }

  /** A date lies fewer than 366 days after the start of its fiscal year. */
  lemma FiscalYearLength(d: Date, fiscalStartMonth: int)
    requires d.Valid() && ValidStartMonth(fiscalStartMonth)
    ensures 0 <= DayNumber(d) - DayNumber(FiscalYearStart(d, fiscalStartMonth)) < 366
  {
    var start := FiscalYearStart(d, fiscalStartMonth);
    var next := Date(start.year + 1, start.month, 1);
    FiscalYearContains(d, fiscalStartMonth);
    YearSpan(MonthIndex(start));
    DayNumberByIndex(start);
    DayNumberByIndex(next);
    assert MonthIndex(next) == MonthIndex(start) + 12;
  }

  /** Two dates are in the same fiscal year exactly when they share its start. */
  lemma SameFiscalYear(d1: Date, d2: Date, fiscalStartMonth: int)
    requires d1.Valid() && d2.Valid() && ValidStartMonth(fiscalStartMonth)
    ensures FiscalYear(d1, fiscalStartMonth) == FiscalYear(d2, fiscalStartMonth) <==>
            FiscalYearStart(d1, fiscalStartMonth) == FiscalYearStart(d2, fiscalStartMonth)
  {
  }

  /** The fiscal year never goes back as the date advances. */
  lemma FiscalYearMonotone(d1: Date, d2: Date, fiscalStartMonth: int)
    requires d1.Valid() && d2.Valid() && ValidStartMonth(fiscalStartMonth)
    requires DayNumber(d1) <= DayNumber(d2)
    ensures FiscalYear(d1, fiscalStartMonth) <= FiscalYear(d2, fiscalStartMonth)
  {
    DayNumberOrder(d1, d2);
  }

  /** Worked values: with April as start month, 1 April 2024 opens fiscal year 2025 and
      31 March 2024 closes fiscal year 2024; 15 February 2024 lies in fiscal year 2024,
      which began on 1 April 2023; with January as start month every date belongs to
      the fiscal year named after the next calendar year. */
  lemma FiscalYearExamples(d: Date)
    requires d.Valid()
    ensures FiscalYear(Date(2024, 3, 1), 4) == 2025
    ensures FiscalYear(Date(2024, 2, 31), 4) == 2024
    ensures FiscalYearStart(Date(2024, 1, 15), 4) == Date(2023, 3, 1)
    ensures FiscalYear(d, 1) == d.year + 1
  {
  }

  /** On the fiscal-year start itself the week is 1, or 0 when that day is a Sunday. */
  lemma FiscalWeekAtStart(year: int, fiscalStartMonth: int)
    requires ValidStartMonth(fiscalStartMonth)
    ensures var s := Date(year, fiscalStartMonth - 1, 1);
            FiscalWeek(s, fiscalStartMonth) == if GetDay(s) == 0 then 0 else 1
  {
    var s := Date(year, fiscalStartMonth - 1, 1);
    assert FiscalYearStart(s, fiscalStartMonth) == s;
  }

  /** Within one fiscal year the week number never decreases as the date advances. */
  lemma FiscalWeekMonotone(d1: Date, d2: Date, fiscalStartMonth: int)
    requires d1.Valid() && d2.Valid() && ValidStartMonth(fiscalStartMonth)
    requires FiscalYear(d1, fiscalStartMonth) == FiscalYear(d2, fiscalStartMonth)
    requires OnOrBefore(d1, d2)
    ensures FiscalWeek(d1, fiscalStartMonth) <= FiscalWeek(d2, fiscalStartMonth)
  {
    DayNumberOrder(d1, d2);
  }

  /** The weekday of a date, from its offset to the fiscal-year start. */
  lemma WeekDayFromStart(d: Date, fiscalStartMonth: int)
    requires d.Valid() && ValidStartMonth(fiscalStartMonth)
    ensures var s := FiscalYearStart(d, fiscalStartMonth);
            GetDay(d) == (DayNumber(d) - DayNumber(s) + GetDay(s)) % 7
  {
    var s := FiscalYearStart(d, fiscalStartMonth);
    WeekDayShift(DayNumber(s), DayNumber(d) - DayNumber(s));
  }

  /** Fiscal weeks run from Monday to Sunday: inside one fiscal year the week number
      grows by one from a Sunday to the Monday after it, and stays put on every other
      day. */
  lemma FiscalWeekNextDay(d1: Date, d2: Date, fiscalStartMonth: int)
    requires d1.Valid() && d2.Valid() && ValidStartMonth(fiscalStartMonth)
    requires FiscalYear(d1, fiscalStartMonth) == FiscalYear(d2, fiscalStartMonth)
    requires DayNumber(d2) == DayNumber(d1) + 1
    ensures FiscalWeek(d2, fiscalStartMonth) ==
              FiscalWeek(d1, fiscalStartMonth) + (if GetDay(d1) == 0 then 1 else 0)
  {
    WeekDayFromStart(d1, fiscalStartMonth);
    FiscalYearLength(d1, fiscalStartMonth);
    var s := FiscalYearStart(d1, fiscalStartMonth);
    var x := DayNumber(d1) - DayNumber(s) + GetDay(s);
    assert x >= 0;
    var q, r := x / 7, x % 7;
    assert x == 7 * q + r;
    assert GetDay(d1) == r;
    if r == 0 {
      assert CeilDiv7(x) == q;
      assert CeilDiv7(x + 1) == q + 1;
    } else {
      assert CeilDiv7(x) == q + 1;
      assert CeilDiv7(x + 1) == q + 1;
    }
  }

  /** The six days after a Monday share its fiscal week, as long as they share its
      fiscal year. */
  lemma FiscalWeekFromMonday(monday: Date, d: Date, fiscalStartMonth: int)
    requires monday.Valid() && d.Valid() && ValidStartMonth(fiscalStartMonth)
    requires GetDay(monday) == 1
    requires DayNumber(monday) <= DayNumber(d) < DayNumber(monday) + 7
    requires FiscalYear(monday, fiscalStartMonth) == FiscalYear(d, fiscalStartMonth)
    ensures FiscalWeek(d, fiscalStartMonth) == FiscalWeek(monday, fiscalStartMonth)
  {
    WeekDayFromStart(monday, fiscalStartMonth);
    FiscalYearLength(monday, fiscalStartMonth);
    var s := FiscalYearStart(monday, fiscalStartMonth);
    assert FiscalYearStart(d, fiscalStartMonth) == s;
    var x := DayNumber(monday) - DayNumber(s) + GetDay(s);
    var q := x / 7;
    assert x == 7 * q + 1;
    var j := DayNumber(d) - DayNumber(monday);
    assert CeilDiv7(x) == q + 1;
    assert CeilDiv7(x + j) == q + 1;
  }
}
