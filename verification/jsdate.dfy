/** The part of ECMAScript's Date object that the picker relies on, after section 15.9
    of ECMA-262 5.1: proleptic-Gregorian calendar dates, day numbers counted from
    1 January 1970 (section 15.9.1.3), the normalising constructor `new Date(y, m, d)`
    (MakeDay, section 15.9.1.12) and the day of the week (WeekDay, section 15.9.1.6).
    Time of day, time zones and the time-value range are not modelled. */
module JsDate {

  /** A calendar date: year, zero-based month (0 = January) and day of the month. */
  datatype Date = Date(year: int, month: int, day: int) {
    /** The date names an existing calendar day, as the fields of every JavaScript Date do. */
    predicate Valid() {
      0 <= month < 12 && 1 <= day <= DaysInMonthOf(year, month)
    }
  }

  predicate IsLeapYear(y: int) {
    y % 4 == 0 && (y % 100 != 0 || y % 400 == 0)
  }

  /** DaysInYear of section 15.9.1.3. */
  function DaysInYear(y: int): int {
    if IsLeapYear(y) then 366 else 365
  }

  function DaysInMonthOf(y: int, m: int): (n: int)
    requires 0 <= m < 12
    ensures 28 <= n <= 31
  {
    if m == 1 then (if IsLeapYear(y) then 29 else 28)
    else if m == 3 || m == 5 || m == 8 || m == 10 then 30
    else 31
  }

  /** Day number of 1 January of year y (DayFromYear, section 15.9.1.3); `/` by a
      positive constant is floor division, as the standard asks. */
  function DayFromYear(y: int): int {
    365 * (y - 1970) + (y - 1969) / 4 - (y - 1901) / 100 + (y - 1601) / 400
  }

  /** Days of year y before the first of month m (the month table of section 15.9.1.4),
      summed month by month. */
  function DaysBeforeMonth(y: int, m: int): int
    requires 0 <= m < 12
  {
    if m == 0 then 0 else DaysBeforeMonth(y, m - 1) + DaysInMonthOf(y, m - 1)
  }

  /** The table of section 15.9.1.4: February adds the leap day to every later month. */
  lemma {:induction false} DaysBeforeMonthTable(y: int, m: int)
    requires 0 <= m < 12
    ensures DaysBeforeMonth(y, m) == [0, 31, 59, 90, 120, 151, 181, 212, 243, 273, 304, 334][m]
                                     + (if m >= 2 && IsLeapYear(y) then 1 else 0)
  {
    if m > 0 {
      DaysBeforeMonthTable(y, m - 1);
    }
  }

  /** The twelve months make up the year. */
  lemma MonthsMakeYear(y: int)
    ensures DaysBeforeMonth(y, 11) + DaysInMonthOf(y, 11) == DaysInYear(y)
  {
    DaysBeforeMonthTable(y, 11);
  }

  /** MakeDay(year, month, date) of section 15.9.1.12: the month may lie outside 0..11
      and is carried into the year, the date may lie outside the month. */
  function MakeDay(year: int, month: int, date: int): int {
    var ym := year + month / 12;
    var mn := month % 12;
    DayFromYear(ym) + DaysBeforeMonth(ym, mn) + date - 1
  }

  /** WeekDay of section 15.9.1.6: 0 is Sunday, 1 January 1970 (day 0) was a Thursday. */
  function WeekDay(t: int): (w: int)
    ensures 0 <= w < 7
  {
    (t + 4) % 7
  }

  /** Moving n days on moves the weekday n places on, modulo 7. */
  lemma WeekDayShift(t: int, n: int)
    ensures WeekDay(t + n) == (WeekDay(t) + n) % 7
  {
    var q := (t + 4) / 7;
    assert t + n + 4 == 7 * q + (WeekDay(t) + n);
  }

  /** `getDay()` of a date. */
  function GetDay(d: Date): (w: int)
    requires 0 <= d.month < 12
    ensures 0 <= w < 7
  {
    WeekDay(DayNumber(d))
  }

  /** Months counted from January of year 0: the month index of (y, m) is 12 * y + m. */
  function MonthIndex(d: Date): int {
    12 * d.year + d.month
  }

  /** Number of days of the month with index k. */
  function MonthLength(k: int): (n: int)
    ensures 28 <= n <= 31
  {
    DaysInMonthOf(k / 12, k % 12)
  }

  /** The month index of January 1970, the month of day 0. */
  const EpochMonth: int := 12 * 1970

  /** Days in the n months from January 1970 on. */
  function SpanAfterEpoch(n: nat): int {
    if n == 0 then 0 else SpanAfterEpoch(n - 1) + MonthLength(EpochMonth + n - 1)
  }

  /** Days in the n months before January 1970. */
  function SpanBeforeEpoch(n: nat): int {
    if n == 0 then 0 else SpanBeforeEpoch(n - 1) + MonthLength(EpochMonth - n)
  }

  /** Day number of the first day of the month with index k, counting the months
      between it and January 1970. */
  function StartOfMonth(k: int): int {
    if k >= EpochMonth then SpanAfterEpoch(k - EpochMonth) else -SpanBeforeEpoch(EpochMonth - k)
  }

  /** The months follow each other without gap. */
  lemma MonthStep(k: int)
    ensures StartOfMonth(k + 1) == StartOfMonth(k) + MonthLength(k)
  {
    if k < EpochMonth {
      assert SpanBeforeEpoch(EpochMonth - k) == SpanBeforeEpoch(EpochMonth - k - 1) + MonthLength(k);
    }
  }

  /** Day number of a date whose month is in range: Day(t) of the date's midnight. */
  function DayNumber(d: Date): int
    requires 0 <= d.month < 12
  {
    StartOfMonth(MonthIndex(d)) + d.day - 1
  }

  /** The year and month of a date are recovered from its month index. */
  lemma DayNumberByIndex(d: Date)
    requires 0 <= d.month < 12
    ensures MonthIndex(d) / 12 == d.year && MonthIndex(d) % 12 == d.month
    ensures DayNumber(d) == StartOfMonth(MonthIndex(d)) + d.day - 1
  {
  }

  lemma LeapTerm4(y: int)
    ensures (y - 1968) / 4 - (y - 1969) / 4 == if y % 4 == 0 then 1 else 0
  {
    var q, r := y / 4, y % 4;
    assert y - 1968 == 4 * (q - 492) + r;
    if r == 0 {
      assert y - 1969 == 4 * (q - 493) + 3;
    } else {
      assert y - 1969 == 4 * (q - 492) + (r - 1);
    }
  }

  lemma LeapTerm100(y: int)
    ensures (y - 1900) / 100 - (y - 1901) / 100 == if y % 100 == 0 then 1 else 0
  {
    var q, r := y / 100, y % 100;
    assert y - 1900 == 100 * (q - 19) + r;
    if r == 0 {
      assert y - 1901 == 100 * (q - 20) + 99;
    } else {
      assert y - 1901 == 100 * (q - 19) + (r - 1);
    }
  }

  lemma LeapTerm400(y: int)
    ensures (y - 1600) / 400 - (y - 1601) / 400 == if y % 400 == 0 then 1 else 0
  {
    var q, r := y / 400, y % 400;
    assert y - 1600 == 400 * (q - 4) + r;
    if r == 0 {
      assert y - 1601 == 400 * (q - 5) + 399;
    } else {
      assert y - 1601 == 400 * (q - 4) + (r - 1);
    }
  }

  lemma CenturyDivisibleBy4(y: int)
    requires y % 100 == 0
    ensures y % 4 == 0
  {
    var q := y / 100;
    assert y == 4 * (25 * q);
  }

  lemma QuadCenturyDivisibleBy100(y: int)
    requires y % 400 == 0
    ensures y % 100 == 0
  {
    var q := y / 400;
    assert y == 100 * (4 * q);
  }

  /** Consecutive years' first days lie DaysInYear apart: the closed form of
      DayFromYear agrees with the Gregorian leap-year rule. */
  lemma DayFromYearStep(y: int)
    ensures DayFromYear(y + 1) == DayFromYear(y) + DaysInYear(y)
  {
    LeapTerm4(y);
    LeapTerm100(y);
    LeapTerm400(y);
    var a := if y % 4 == 0 then 1 else 0;
    var b := if y % 100 == 0 then 1 else 0;
    var c := if y % 400 == 0 then 1 else 0;
    assert DayFromYear(y + 1) - DayFromYear(y) == 365 + a - b + c;
    if y % 400 == 0 {
      QuadCenturyDivisibleBy100(y);
      CenturyDivisibleBy4(y);
    } else if y % 100 == 0 {
      CenturyDivisibleBy4(y);
    }
  }

  /** The first day of month k in the closed form of section 15.9.1.3 and the month
      table of section 15.9.1.4. */
  function ClosedFormStart(k: int): int {
    DayFromYear(k / 12) + DaysBeforeMonth(k / 12, k % 12)
  }

  /** One month on, in the closed form. */
  lemma ClosedFormStep(k: int)
    ensures ClosedFormStart(k + 1) == ClosedFormStart(k) + MonthLength(k)
  {
    var y, m := k / 12, k % 12;
    if m == 11 {
      assert (k + 1) / 12 == y + 1 && (k + 1) % 12 == 0;
      DayFromYearStep(y);
      MonthsMakeYear(y);
    } else {
      assert (k + 1) / 12 == y && (k + 1) % 12 == m + 1;
    }
  }

  /** The walk and the closed form agree on January 1970, day 0. */
  lemma ClosedFormAtEpoch()
    ensures StartOfMonth(EpochMonth) == ClosedFormStart(EpochMonth) == 0
  {
    assert EpochMonth / 12 == 1970 && EpochMonth % 12 == 0;
  }

  /** Agreement carries over one month forward. */
  lemma ClosedFormForward(k: int)
    requires StartOfMonth(k - 1) == ClosedFormStart(k - 1)
    ensures StartOfMonth(k) == ClosedFormStart(k)
  {
    ClosedFormStep(k - 1);
    MonthStep(k - 1);
  }

  /** Agreement carries over one month backward. */
  lemma ClosedFormBackward(k: int)
    requires StartOfMonth(k + 1) == ClosedFormStart(k + 1)
    ensures StartOfMonth(k) == ClosedFormStart(k)
  {
    ClosedFormStep(k);
    MonthStep(k);
  }

  /** The month-by-month walk agrees with the closed form of the standard. */
  lemma {:induction false} StartOfMonthClosedForm(k: int)
    ensures StartOfMonth(k) == ClosedFormStart(k)
    decreases if k < EpochMonth then EpochMonth - k else k - EpochMonth
  {
    if k == EpochMonth {
      ClosedFormAtEpoch();
    } else if k > EpochMonth {
      StartOfMonthClosedForm(k - 1);
      ClosedFormForward(k);
    } else {
      StartOfMonthClosedForm(k + 1);
      ClosedFormBackward(k);
    }
  }

  /** MakeDay of the standard is the first day of month 12 * year + month moved on by
      date - 1 days. */
  lemma MakeDayByIndex(year: int, month: int, date: int)
    ensures MakeDay(year, month, date) == StartOfMonth(12 * year + month) + date - 1
  {
    var k := 12 * year + month;
    assert k / 12 == year + month / 12 && k % 12 == month % 12;
    assert MakeDay(year, month, date) == ClosedFormStart(k) + date - 1;
    StartOfMonthClosedForm(k);
  }

  /** The date `date` days after the day before the first of month k, for a positive
      date: whole months are carried forward until the date fits, as YearFromTime,
      MonthFromTime and DateFromTime would find it. */
  function NormaliseForward(k: int, date: int): (r: Date)
    requires date >= 1
    ensures r.Valid()
    ensures DayNumber(r) == StartOfMonth(k) + date - 1
    decreases date
  {
    if date > MonthLength(k) then
      MonthStep(k);
      NormaliseForward(k + 1, date - MonthLength(k))
    else
      DayNumberByIndex(Date(k / 12, k % 12, date));
      Date(k / 12, k % 12, date)
  }

  /** The same for a date of 0 or less: whole months are borrowed backward until the
      date is positive. */
  function NormaliseBackward(k: int, date: int): (r: Date)
    requires date < 1
    ensures r.Valid()
    ensures DayNumber(r) == StartOfMonth(k) + date - 1
    decreases 1 - date
  {
    MonthStep(k - 1);
    if date + MonthLength(k - 1) >= 1 then
      NormaliseForward(k - 1, date + MonthLength(k - 1))
    else
      NormaliseBackward(k - 1, date + MonthLength(k - 1))
  }

  /** The date `date` days after the day before the first of month k. */
  function Normalise(k: int, date: int): (r: Date)
    ensures r.Valid()
    ensures DayNumber(r) == StartOfMonth(k) + date - 1
  {
    if date >= 1 then NormaliseForward(k, date) else NormaliseBackward(k, date)
  }

  /** `new Date(year, month, date)`: month and date may overflow; the result is the
      calendar date whose day number is MakeDay(year, month, date). */
  function MakeDate(year: int, month: int, date: int): (r: Date)
    ensures r.Valid()
    ensures DayNumber(r) == StartOfMonth(12 * year + month) + date - 1
  {
    Normalise(12 * year + month, date)
  }

  /** The date the constructor returns has the day number MakeDay gives. */
  lemma MakeDateIsMakeDay(year: int, month: int, date: int)
    ensures DayNumber(MakeDate(year, month, date)) == MakeDay(year, month, date)
  {
    MakeDayByIndex(year, month, date);
  }

  /** A date inside its month is not moved; only the month's overflow is carried into
      the year. */
  lemma MakeDateInMonth(year: int, month: int, date: int)
    requires 1 <= date <= MonthLength(12 * year + month)
    ensures MakeDate(year, month, date) == Date(year + month / 12, month % 12, date)
  {
    assert (12 * year + month) / 12 == year + month / 12;
    assert (12 * year + month) % 12 == month % 12;
  }

  /** Months start later the later they come: the first day of month j, plus j's
      length, is no later than the first day of any later month k. */
  lemma {:induction false} StartsIncrease(j: int, k: int)
    requires j < k
    ensures StartOfMonth(j) + MonthLength(j) <= StartOfMonth(k)
    decreases k - j
  {
    MonthStep(j);
    if j + 1 < k {
      StartsIncrease(j + 1, k);
    }
  }

  /** A valid date lies inside its month. */
  lemma WithinMonth(d: Date)
    requires d.Valid()
    ensures StartOfMonth(MonthIndex(d)) <= DayNumber(d) < StartOfMonth(MonthIndex(d) + 1)
  {
    DayNumberByIndex(d);
    MonthStep(MonthIndex(d));
  }

  /** The month a valid date lies in is the one whose span holds its day number. */
  lemma MonthOfDayNumber(d: Date, k: int)
    requires d.Valid()
    requires StartOfMonth(k) <= DayNumber(d) < StartOfMonth(k + 1)
    ensures MonthIndex(d) == k
  {
    WithinMonth(d);
    MonthStep(k);
    if MonthIndex(d) < k {
      StartsIncrease(MonthIndex(d), k);
    } else if MonthIndex(d) > k {
      StartsIncrease(k, MonthIndex(d));
    }
  }

  /** The length of a date's month, through its month index. */
  lemma MonthLengthOf(d: Date)
    requires 0 <= d.month < 12
    ensures MonthLength(MonthIndex(d)) == DaysInMonthOf(d.year, d.month)
  {
    DayNumberByIndex(d);
  }

  /** The month index determines the year and the month. */
  lemma MonthIndexInjective(a: Date, b: Date)
    requires 0 <= a.month < 12 && 0 <= b.month < 12
    ensures MonthIndex(a) == MonthIndex(b) <==> a.year == b.year && a.month == b.month
  {
    DayNumberByIndex(a);
    DayNumberByIndex(b);
  }

  /** Months less than a year apart have different month numbers. */
  lemma NearbyMonthsDiffer(a: Date, b: Date)
    requires 0 <= a.month < 12 && 0 <= b.month < 12
    requires 0 < MonthIndex(b) - MonthIndex(a) < 12
    ensures a.month != b.month
  {
  }

  /** Day numbers order valid dates by month index first. */
  lemma IndexOrder(a: Date, b: Date)
    requires a.Valid() && b.Valid()
    requires MonthIndex(a) < MonthIndex(b)
    ensures DayNumber(a) < DayNumber(b)
  {
    WithinMonth(a);
    WithinMonth(b);
    if MonthIndex(a) + 1 < MonthIndex(b) {
      StartsIncrease(MonthIndex(a) + 1, MonthIndex(b));
    }
  }

  /** Calendar order on dates: by year, then month, then day. */
  predicate OnOrBefore(a: Date, b: Date) {
    a.year < b.year || (a.year == b.year && (a.month < b.month || (a.month == b.month && a.day <= b.day)))
  }

  /** Day numbers order valid dates exactly as the calendar does, so comparing
      `getTime()` values is comparing dates. */
  lemma DayNumberOrder(a: Date, b: Date)
    requires a.Valid() && b.Valid()
    ensures DayNumber(a) <= DayNumber(b) <==> OnOrBefore(a, b)
  {
    DayNumberByIndex(a);
    DayNumberByIndex(b);
    if MonthIndex(a) < MonthIndex(b) {
      IndexOrder(a, b);
    } else if MonthIndex(b) < MonthIndex(a) {
      IndexOrder(b, a);
    }
  }

  /** Two valid dates with the same day number are the same date: a date key such
      as `toDateString()` identifies one calendar day. */
  lemma DayNumberInjective(a: Date, b: Date)
    requires a.Valid() && b.Valid()
    requires DayNumber(a) == DayNumber(b)
    ensures a == b
  {
    DayNumberOrder(a, b);
    DayNumberOrder(b, a);
  }

  /** Day-number equality is date equality on valid dates. */
  lemma SameDayIff(a: Date, b: Date)
    requires a.Valid() && b.Valid()
    ensures DayNumber(a) == DayNumber(b) <==> a == b
  {
    if DayNumber(a) == DayNumber(b) {
      DayNumberInjective(a, b);
    }
  }

  /** Twelve consecutive months make up 365 or 366 days. */
  lemma YearSpan(k: int)
    ensures 365 <= StartOfMonth(k + 12) - StartOfMonth(k) <= 366
  {
    assert (k + 12) / 12 == k / 12 + 1 && (k + 12) % 12 == k % 12;
    StartOfMonthClosedForm(k);
    StartOfMonthClosedForm(k + 12);
    DayFromYearStep(k / 12);
    DaysBeforeMonthTable(k / 12, k % 12);
    DaysBeforeMonthTable(k / 12 + 1, k % 12);
  }

  /** Two constructor calls that denote the same day yield the same date. */
  lemma MakeDateSameDay(y1: int, m1: int, d1: int, y2: int, m2: int, d2: int)
    requires StartOfMonth(12 * y1 + m1) + d1 == StartOfMonth(12 * y2 + m2) + d2
    ensures MakeDate(y1, m1, d1) == MakeDate(y2, m2, d2)
  {
    DayNumberInjective(MakeDate(y1, m1, d1), MakeDate(y2, m2, d2));
  }

  /** The constructor returns a valid date unchanged. */
  lemma MakeDateOfValid(d: Date)
    requires d.Valid()
    ensures MakeDate(d.year, d.month, d.day) == d
  {
    DayNumberByIndex(d);
    assert MonthLength(12 * d.year + d.month) == DaysInMonthOf(d.year, d.month);
    assert d.month / 12 == 0 && d.month % 12 == d.month;
  }
}
