/** The fiscal date picker: the cells it generates for its day and month views and the
    selection state it keeps (`currentDate`, `selectedDates`, `selectedMonths`,
    `selectedQuarters`, `selectedYears`) with the handlers that replace that state.
    The props `mode` and `fiscalStartMonth` may change from one render to the next, so
    they are parameters of the handlers rather than fields. */
module FiscalDatePicker {
  import opened JsDate
  import opened FiscalMath
  import opened KeyedSeq

  /** The four picker modes. */
  datatype Mode = DateMode | YearMonth | YearQuarterMonth | MultiYearQuarterMonth

  /** The key `${year}-${month}` of a month. */
  datatype MonthKey = MonthKey(year: int, month: int)

  /** The key `${year}-Q${quarter}` of a quarter. */
  datatype QuarterKey = QuarterKey(year: int, quarter: int)

  function MonthKeyOf(d: Date): MonthKey {
    MonthKey(d.year, d.month)
  }

  /** The month keys of a list of dates, in order. */
  function MonthKeys(dates: seq<Date>): (keys: seq<MonthKey>)
    ensures |keys| == |dates|
    ensures forall i :: 0 <= i < |dates| ==> keys[i] == MonthKeyOf(dates[i])
  {
    seq(|dates|, i requires 0 <= i < |dates| => MonthKeyOf(dates[i]))
  }

  /** A cell of the day grid. */
  datatype DayCell = DayCell(date: Date, fiscalWeek: int)

  /** A cell of the month grid. */
  datatype MonthCell = MonthCell(date: Date, fiscalYear: int)

  function DayCellOf(date: Date, fiscalStartMonth: int): DayCell
    requires date.Valid() && ValidStartMonth(fiscalStartMonth)
  {
    DayCell(date, FiscalWeek(date, fiscalStartMonth))
  }

  /** `firstDay` of `generateCalendar`: the weekday of the first of the anchor month. */
  function FirstDay(anchor: Date): (w: int)
    ensures 0 <= w < 7
  {
    GetDay(MakeDate(anchor.year, anchor.month, 1))
  }

  /** The date of cell k of the day grid: the first of the anchor month moved by
      k - firstDay days. */
  function GridDate(anchor: Date, k: int): (d: Date)
    ensures d.Valid()
  {
    MakeDate(anchor.year, anchor.month, 1 + k - FirstDay(anchor))
  }

  /** Cell k lies k - firstDay days after the first of the anchor month, whose weekday
      firstDay is. */
  lemma GridDateShift(anchor: Date, k: int)
    ensures DayNumber(GridDate(anchor, k)) == StartOfMonth(MonthIndex(anchor)) + k - FirstDay(anchor)
    ensures FirstDay(anchor) == WeekDay(StartOfMonth(MonthIndex(anchor)))
  {
  }

  /** Moving back to the Sunday on or before day t, then k days on, lands on weekday
      k % 7. */
  lemma SundayAligned(t: int, k: int)
    ensures WeekDay(t + k - WeekDay(t)) == k % 7
  {
    WeekDayShift(t, k - WeekDay(t));
  }

  /** Column c of the grid holds weekday c, counting from Sunday = 0. */
  lemma GridWeekDay(anchor: Date, k: int)
    ensures GetDay(GridDate(anchor, k)) == k % 7
  {
    GridDateShift(anchor, k);
    SundayAligned(StartOfMonth(MonthIndex(anchor)), k);
  }

  /** The cells in the anchor's month (the `isCurrentMonth` cells) are exactly the
      indices firstDay .. firstDay + daysInMonth - 1, and there cell k holds day
      k - firstDay + 1; every other cell lies in the month before or after. */
  lemma GridCurrentMonth(anchor: Date, k: int)
    requires anchor.Valid()
    requires 0 <= k < 42
    ensures GridDate(anchor, k).month == anchor.month <==>
              FirstDay(anchor) <= k < FirstDay(anchor) + DaysInMonthOf(anchor.year, anchor.month)
    ensures FirstDay(anchor) <= k < FirstDay(anchor) + DaysInMonthOf(anchor.year, anchor.month) ==>
              GridDate(anchor, k) == Date(anchor.year, anchor.month, k - FirstDay(anchor) + 1)
  {
    MonthLengthOf(anchor);
    if k < FirstDay(anchor) {
      GridBeforeMonth(anchor, k);
    } else if k < FirstDay(anchor) + MonthLength(MonthIndex(anchor)) {
      GridInMonth(anchor, k);
    } else {
      GridAfterMonth(anchor, k);
    }
  }

  /** The cells before index firstDay lie in the month before the anchor's. */
  lemma GridBeforeMonth(anchor: Date, k: int)
    requires 0 <= anchor.month < 12
    requires 0 <= k < FirstDay(anchor)
    ensures MonthIndex(GridDate(anchor, k)) == MonthIndex(anchor) - 1
    ensures GridDate(anchor, k).month != anchor.month
  {
    var idx := MonthIndex(anchor);
    var g := GridDate(anchor, k);
    GridDateShift(anchor, k);
    MonthStep(idx - 1);
    MonthOfDayNumber(g, idx - 1);
    NearbyMonthsDiffer(g, anchor);
  }

  /** The cells from index firstDay on, for the length of the month, are its days. */
  lemma GridInMonth(anchor: Date, k: int)
    requires 0 <= anchor.month < 12
    requires FirstDay(anchor) <= k < FirstDay(anchor) + MonthLength(MonthIndex(anchor))
    ensures GridDate(anchor, k) == Date(anchor.year, anchor.month, k - FirstDay(anchor) + 1)
  {
    var idx := MonthIndex(anchor);
    var g := GridDate(anchor, k);
    GridDateShift(anchor, k);
    MonthStep(idx);
    MonthOfDayNumber(g, idx);
    MonthIndexInjective(g, anchor);
  }

  /** The cells after the anchor's month, up to index 41, lie in the month after it. */
  lemma GridAfterMonth(anchor: Date, k: int)
    requires 0 <= anchor.month < 12
    requires FirstDay(anchor) + MonthLength(MonthIndex(anchor)) <= k < 42
    ensures MonthIndex(GridDate(anchor, k)) == MonthIndex(anchor) + 1
    ensures GridDate(anchor, k).month != anchor.month
  {
    var idx := MonthIndex(anchor);
    var g := GridDate(anchor, k);
    GridDateShift(anchor, k);
    MonthStep(idx);
    MonthStep(idx + 1);
    MonthOfDayNumber(g, idx + 1);
    NearbyMonthsDiffer(anchor, g);
  }

  /** The constructor call of the first loop of `generateCalendar` yields grid cell
      firstDay - 1 - i. */
  lemma PrevMonthCell(anchor: Date, i: int)
    ensures MakeDate(anchor.year, anchor.month - 1, GetDaysInMonth(anchor.year, anchor.month - 1) - i) ==
            GridDate(anchor, FirstDay(anchor) - 1 - i)
  {
    var k := MonthIndex(anchor);
    MonthStep(k - 1);
    assert 12 * anchor.year + (anchor.month - 1) == k - 1;
    GridCellOf(anchor, FirstDay(anchor) - 1 - i,
               anchor.year, anchor.month - 1, GetDaysInMonth(anchor.year, anchor.month - 1) - i);
  }

  /** The constructor call of the second loop yields grid cell firstDay + i - 1. */
  lemma CurrentMonthCell(anchor: Date, i: int)
    ensures MakeDate(anchor.year, anchor.month, i) == GridDate(anchor, FirstDay(anchor) + i - 1)
  {
    MakeDateSameDay(anchor.year, anchor.month, i,
                    anchor.year, anchor.month, 1 + (FirstDay(anchor) + i - 1) - FirstDay(anchor));
  }

  /** The constructor call of the third loop yields grid cell
      firstDay + daysInMonth + i - 1. */
  lemma NextMonthCell(anchor: Date, i: int)
    ensures MakeDate(anchor.year, anchor.month + 1, i) ==
            GridDate(anchor, FirstDay(anchor) + GetDaysInMonth(anchor.year, anchor.month) + i - 1)
  {
    var k := MonthIndex(anchor);
    MonthStep(k);
    assert 12 * anchor.year + (anchor.month + 1) == k + 1;
    GridCellOf(anchor, FirstDay(anchor) + GetDaysInMonth(anchor.year, anchor.month) + i - 1,
               anchor.year, anchor.month + 1, i);
  }

  /** A constructor call that lands on the day of grid cell k yields that cell. */
  lemma GridCellOf(anchor: Date, k: int, year: int, month: int, date: int)
    requires StartOfMonth(12 * year + month) + date == StartOfMonth(MonthIndex(anchor)) + 1 + k - FirstDay(anchor)
    ensures MakeDate(year, month, date) == GridDate(anchor, k)
  {
    MakeDateSameDay(year, month, date, anchor.year, anchor.month, 1 + k - FirstDay(anchor));
  }

  /** The first n cells of a calendar are grid cells 0 .. n - 1, each tagged with its
      fiscal week. */
  predicate GridPrefix(calendar: seq<DayCell>, anchor: Date, fiscalStartMonth: int)
    requires ValidStartMonth(fiscalStartMonth)
  {
    forall k :: 0 <= k < |calendar| ==> calendar[k] == DayCellOf(GridDate(anchor, k), fiscalStartMonth)
  }

  /** The first loop of `generateCalendar`: the last `firstDay` days of the previous
      month, oldest first. */
  method AppendPrevMonthDays(anchor: Date, fiscalStartMonth: int, firstDay: int, daysInPrevMonth: int)
    returns (calendar: seq<DayCell>)
    requires ValidStartMonth(fiscalStartMonth) && firstDay == FirstDay(anchor)
    requires daysInPrevMonth == GetDaysInMonth(anchor.year, anchor.month - 1)
    ensures |calendar| == firstDay && GridPrefix(calendar, anchor, fiscalStartMonth)
  {
    calendar := [];
    var i := firstDay - 1;
    while i >= 0
      invariant -1 <= i < firstDay
      invariant |calendar| == firstDay - 1 - i
      invariant GridPrefix(calendar, anchor, fiscalStartMonth)
    {
      var date := MakeDate(anchor.year, anchor.month - 1, daysInPrevMonth - i);
      PrevMonthCell(anchor, i);
      calendar := calendar + [DayCellOf(date, fiscalStartMonth)];
      i := i - 1;
    }
  }

  /** The second loop of `generateCalendar`: days 1 .. daysInMonth of the anchor month. */
  method AppendCurrentMonthDays(anchor: Date, fiscalStartMonth: int, prefix: seq<DayCell>, daysInMonth: int)
    returns (calendar: seq<DayCell>)
    requires ValidStartMonth(fiscalStartMonth)
    requires |prefix| == FirstDay(anchor) && GridPrefix(prefix, anchor, fiscalStartMonth)
    requires daysInMonth == GetDaysInMonth(anchor.year, anchor.month)
    ensures |calendar| == FirstDay(anchor) + daysInMonth && GridPrefix(calendar, anchor, fiscalStartMonth)
  {
    calendar := prefix;
    var i := 1;
    while i <= daysInMonth
      invariant 1 <= i <= daysInMonth + 1
      invariant |calendar| == FirstDay(anchor) + i - 1
      invariant GridPrefix(calendar, anchor, fiscalStartMonth)
    {
      var date := MakeDate(anchor.year, anchor.month, i);
      CurrentMonthCell(anchor, i);
      calendar := calendar + [DayCellOf(date, fiscalStartMonth)];
      i := i + 1;
    }
  }

  /** The third loop of `generateCalendar`: days 1 .. remainingDays of the next month,
      which bring the grid to 42 cells. */
  method AppendNextMonthDays(anchor: Date, fiscalStartMonth: int, prefix: seq<DayCell>, remainingDays: int)
    returns (calendar: seq<DayCell>)
    requires ValidStartMonth(fiscalStartMonth)
    requires |prefix| == FirstDay(anchor) + GetDaysInMonth(anchor.year, anchor.month)
    requires GridPrefix(prefix, anchor, fiscalStartMonth)
    requires remainingDays == 42 - |prefix|
    ensures |calendar| == 42 && GridPrefix(calendar, anchor, fiscalStartMonth)
  {
    calendar := prefix;
    var i := 1;
    while i <= remainingDays
      invariant 1 <= i <= remainingDays + 1
      invariant |calendar| == |prefix| + i - 1
      invariant GridPrefix(calendar, anchor, fiscalStartMonth)
    {
      var date := MakeDate(anchor.year, anchor.month + 1, i);
      NextMonthCell(anchor, i);
      calendar := calendar + [DayCellOf(date, fiscalStartMonth)];
      i := i + 1;
    }
  }

  /** The weekday header of the day grid, Monday first. */
  const WeekDayHeader: string := "MTWTFSS"

  /** The initial of each weekday, Sunday = 0 first. */
  const WeekDayInitials: string := "SMTWTFS"

  /** As written, the grid is laid out from Sunday (`firstDay` is `getDay()`), while the
      header reads Monday first: six of the seven columns stand under the initial of
      another weekday, the cells under "M" being Sundays. */
  lemma SundayFirstGridMislabelled(anchor: Date, k: int)
    requires 0 <= k && k % 7 < 6
    ensures WeekDayInitials[GetDay(GridDate(anchor, k))] != WeekDayHeader[k % 7]
    ensures k % 7 == 0 ==> GetDay(GridDate(anchor, k)) == 0
  {
    GridWeekDay(anchor, k);
  }

  /** Fiscal weeks run from Monday to Sunday, so in a Sunday-first row whose Sunday and
      Monday lie in one fiscal year the week shown for the row (the week of its Sunday
      cell) is one less than the week of the six days after it. */
  lemma SundayFirstRowSplitsWeek(anchor: Date, row: int, fiscalStartMonth: int)
    requires ValidStartMonth(fiscalStartMonth)
    requires 0 <= row
    requires FiscalYear(GridDate(anchor, 7 * row), fiscalStartMonth) == FiscalYear(GridDate(anchor, 7 * row + 1), fiscalStartMonth)
    ensures FiscalWeek(GridDate(anchor, 7 * row + 1), fiscalStartMonth) ==
            FiscalWeek(GridDate(anchor, 7 * row), fiscalStartMonth) + 1
  {
    GridWeekDay(anchor, 7 * row);
    assert (7 * row) % 7 == 0;
    GridDateShift(anchor, 7 * row);
    GridDateShift(anchor, 7 * row + 1);
    FiscalWeekNextDay(GridDate(anchor, 7 * row), GridDate(anchor, 7 * row + 1), fiscalStartMonth);
  }

  /** A grid that shows it: February 1970 with a January start. Its first row opens on
      Sunday 1 February, under "M", and Monday 2 February is a week later than the
      row's label. */
  lemma SundayFirstGridExample()
    ensures WeekDayHeader[0] == 'M' && GetDay(Date(1970, 1, 1)) == 0
    ensures GridDate(Date(1970, 1, 1), 0) == Date(1970, 1, 1)
    ensures GridDate(Date(1970, 1, 1), 1) == Date(1970, 1, 2)
    ensures FiscalWeek(Date(1970, 1, 2), 1) == FiscalWeek(Date(1970, 1, 1), 1) + 1
  {
    February1970StartsOnSunday();
    February1970FirstCell();
    February1970SecondCell();
    February1970Weeks();
  }

  lemma February1970Weeks()
    ensures FiscalWeek(Date(1970, 1, 2), 1) == FiscalWeek(Date(1970, 1, 1), 1) + 1
  {
    February1970StartsOnSunday();
    FiscalWeekNextDay(Date(1970, 1, 1), Date(1970, 1, 2), 1);
  }

  lemma February1970StartsOnSunday()
    ensures GetDay(Date(1970, 1, 1)) == 0 && FirstDay(Date(1970, 1, 1)) == 0
  {
    FirstOfMonth(1970, 1);
  }

  lemma February1970FirstCell()
    ensures GridDate(Date(1970, 1, 1), 0) == Date(1970, 1, 1)
  {
    February1970StartsOnSunday();
    assert MonthLength(MonthIndex(Date(1970, 1, 1))) == 28;
    GridInMonth(Date(1970, 1, 1), 0);
  }

  lemma February1970SecondCell()
    ensures GridDate(Date(1970, 1, 1), 1) == Date(1970, 1, 2)
  {
    February1970StartsOnSunday();
    assert MonthLength(MonthIndex(Date(1970, 1, 1))) == 28;
    GridInMonth(Date(1970, 1, 1), 1);
  }

  /** The evidently intended layout: the grid starts on Monday, under the header's "M". */
  function MondayFirstGridDate(anchor: Date, k: int): (d: Date)
    ensures d.Valid()
  {
    MakeDate(anchor.year, anchor.month, 1 + k - (FirstDay(anchor) + 6) % 7)
  }

  /** Moving back to the Monday on or before day t, then k days on, lands on weekday
      (k + 1) % 7. */
  lemma MondayAligned(t: int, k: int)
    ensures WeekDay(t + k - (WeekDay(t) + 6) % 7) == (k + 1) % 7
  {
    var w := WeekDay(t);
    WeekDayShift(t, k - (w + 6) % 7);
    if w == 0 {
      assert (w + 6) % 7 == 6;
    } else {
      assert (w + 6) % 7 == w - 1;
    }
  }

  /** Cell k of the Monday-first grid falls on weekday (k + 1) % 7, and consecutive
      cells are consecutive days. */
  lemma MondayFirstWeekDay(anchor: Date, k: int)
    ensures GetDay(MondayFirstGridDate(anchor, k)) == (k + 1) % 7
    ensures DayNumber(MondayFirstGridDate(anchor, k + 1)) == DayNumber(MondayFirstGridDate(anchor, k)) + 1
  {
    GridDateShift(anchor, k);
    MondayAligned(StartOfMonth(MonthIndex(anchor)), k);
  }

  /** Later cells of the Monday-first grid are later days. */
  lemma MondayFirstDayNumber(anchor: Date, k: int, j: int)
    ensures DayNumber(MondayFirstGridDate(anchor, k + j)) == DayNumber(MondayFirstGridDate(anchor, k)) + j
  {
  }

  /** In the Monday-first grid every column holds the weekday its header names. */
  lemma MondayFirstHeader(anchor: Date, row: int, col: int)
    requires 0 <= row && 0 <= col < 7
    ensures WeekDayInitials[GetDay(MondayFirstGridDate(anchor, 7 * row + col))] == WeekDayHeader[col]
  {
    MondayFirstWeekDay(anchor, 7 * row + col);
    HeaderShiftsInitials(row, col);
  }

  /** The header is the list of initials started one day later, in every row. */
  lemma HeaderShiftsInitials(row: int, col: int)
    requires 0 <= col < 7
    ensures WeekDayInitials[(7 * row + col + 1) % 7] == WeekDayHeader[col]
  {
    assert (7 * row + col + 1) % 7 == (col + 1) % 7;
  }

  /** Every row of the Monday-first grid opens on a Monday. */
  lemma MondayFirstRowStart(anchor: Date, row: int)
    ensures GetDay(MondayFirstGridDate(anchor, 7 * row)) == 1
  {
    MondayFirstWeekDay(anchor, 7 * row);
    assert (7 * row + 1) % 7 == 1;
  }

  /** The seven days of a Monday-first row share one fiscal week wherever they share
      the fiscal year of the row's first cell, so the week shown for the row is the week
      of the whole row. */
  lemma MondayFirstRowWeek(anchor: Date, row: int, col: int, fiscalStartMonth: int)
    requires ValidStartMonth(fiscalStartMonth)
    requires 0 <= row && 0 <= col < 7
    requires FiscalYear(MondayFirstGridDate(anchor, 7 * row + col), fiscalStartMonth) ==
             FiscalYear(MondayFirstGridDate(anchor, 7 * row), fiscalStartMonth)
    ensures FiscalWeek(MondayFirstGridDate(anchor, 7 * row + col), fiscalStartMonth) ==
            FiscalWeek(MondayFirstGridDate(anchor, 7 * row), fiscalStartMonth)
  {
    MondayFirstRowStart(anchor, row);
    MondayFirstDayNumber(anchor, 7 * row, col);
    FiscalWeekFromMonday(MondayFirstGridDate(anchor, 7 * row), MondayFirstGridDate(anchor, 7 * row + col), fiscalStartMonth);
  }

  /** The text of the selection banner: `${count} ${noun}`, the noun in the plural for
      every count but 1. */
  datatype Count = Count(n: nat, noun: string)

  function Counted(n: nat, word: string): (c: Count)
    ensures c.n == n
    ensures c.noun == word + "s" <==> n != 1
    ensures c.noun == word <==> n == 1
  {
    Count(n, if n != 1 then word + "s" else word)
  }

  /** The counts the banner text names in each mode. */
  function BannerCounts(mode: Mode, dates: nat, months: nat, quarters: nat): seq<Count> {
    match mode
    case DateMode => [Counted(dates, "date")]
    case YearMonth => [Counted(months, "month")]
    case _ => [Counted(quarters, "quarter"), Counted(months, "month")]
  }

  /** The condition under which the banner with the Clear button shows. */
  predicate BannerShown(mode: Mode, dates: nat, months: nat, quarters: nat) {
    (mode == DateMode && dates > 0) ||
    (mode == YearMonth && months > 0) ||
    (mode == YearQuarterMonth && (months > 0 || quarters > 0))
  }

  /** The banner shows exactly when some count its text names is non-zero, and never
      in the multi-year mode. */
  lemma BannerShownIffCount(mode: Mode, dates: nat, months: nat, quarters: nat)
    ensures BannerShown(mode, dates, months, quarters) <==>
              mode != MultiYearQuarterMonth &&
              exists i :: 0 <= i < |BannerCounts(mode, dates, months, quarters)| &&
                          BannerCounts(mode, dates, months, quarters)[i].n > 0
  {
    var counts := BannerCounts(mode, dates, months, quarters);
    match mode
    case DateMode =>
      if dates > 0 { assert counts[0].n > 0; }
    case YearMonth =>
      if months > 0 { assert counts[0].n > 0; }
    case YearQuarterMonth =>
      if quarters > 0 { assert counts[0].n > 0; }
      if months > 0 { assert counts[1].n > 0; }
    case MultiYearQuarterMonth =>
  }

  /** Advancing the anchor by `increment` months: day 1 of the month whose index is
      shifted by `increment`. */
  function ShiftMonth(d: Date, increment: int): (r: Date)
    ensures r.Valid() && r.day == 1
    ensures MonthIndex(r) == MonthIndex(d) + increment
  {
    MakeDateInMonth(d.year, d.month + increment, 1);
    MakeDate(d.year, d.month + increment, 1)
  }

  /** Moving back as many months as forward returns to the same year and month. */
  lemma ShiftMonthRoundTrip(d: Date, increment: int)
    requires d.Valid()
    ensures ShiftMonth(ShiftMonth(d, increment), -increment) == Date(d.year, d.month, 1)
  {
    var r := ShiftMonth(ShiftMonth(d, increment), -increment);
    DayNumberByIndex(r);
    DayNumberByIndex(d);
  }

  /** The picker's state: one field per `useState` of the component. */
  class PickerState {
    var currentDate: Date
    var selectedDates: seq<Date>
    var selectedMonths: seq<MonthKey>
    var selectedQuarters: seq<QuarterKey>
    var selectedYears: seq<int>

    ghost predicate Valid()
      reads this
    {
      currentDate.Valid() && forall d :: d in selectedDates ==> d.Valid()
    }

    /** The initial state: anchored on today, nothing selected but today's year. */
    constructor (today: Date)
      requires today.Valid()
      ensures Valid()
      ensures currentDate == today
      ensures selectedDates == [] && selectedMonths == [] && selectedQuarters == []
      ensures selectedYears == [today.year]
    {
      currentDate := today;
      selectedDates := [];
      selectedMonths := [];
      selectedQuarters := [];
      selectedYears := [today.year];
    }

    /** `isDateSelected`: some selected date has the same date key. */
    predicate IsDateSelected(date: Date)
      reads this
      ensures IsDateSelected(date) <==> exists i :: 0 <= i < |selectedDates| && selectedDates[i] == date
    {
      date in selectedDates
    }

    /** `isMonthSelected`: the date's month key is in the selected months. */
    predicate IsMonthSelected(date: Date)
      reads this
      ensures IsMonthSelected(date) <==>
                exists i :: 0 <= i < |selectedMonths| && selectedMonths[i] == MonthKey(date.year, date.month)
    {
      MonthKeyOf(date) in selectedMonths
    }

    /** `isQuarterSelected`: the quarter key is in the selected quarters. */
    predicate IsQuarterSelected(key: QuarterKey)
      reads this
      ensures IsQuarterSelected(key) <==> exists i :: 0 <= i < |selectedQuarters| && selectedQuarters[i] == key
    {
      key in selectedQuarters
    }

    /** The three years shown in the multi-year mode, around the anchor's year. */
    function YearRange(): (r: seq<int>)
      reads this
      ensures |r| == 3 && r[1] == currentDate.year && r[0] + 1 == r[1] && r[1] + 1 == r[2]
    {
      [currentDate.year - 1, currentDate.year, currentDate.year + 1]
    }

    /** `generateCalendar`: 42 cells, from the days of the previous month that fill the
        first row, through the days of the anchor month, to the days of the next month. */
    method GenerateCalendar(fiscalStartMonth: int) returns (calendar: seq<DayCell>)
      requires Valid() && ValidStartMonth(fiscalStartMonth)
      ensures |calendar| == 42 && GridPrefix(calendar, currentDate, fiscalStartMonth)
    {
      var year := currentDate.year;
      var month := currentDate.month;
      var firstDay := GetDay(MakeDate(year, month, 1));
      var daysInMonth := GetDaysInMonth(year, month);
      var daysInPrevMonth := GetDaysInMonth(year, month - 1);
      calendar := AppendPrevMonthDays(currentDate, fiscalStartMonth, firstDay, daysInPrevMonth);
      calendar := AppendCurrentMonthDays(currentDate, fiscalStartMonth, calendar, daysInMonth);
      var remainingDays := 42 - |calendar|;
      calendar := AppendNextMonthDays(currentDate, fiscalStartMonth, calendar, remainingDays);
    }

    /** `generateYearMonths`: the first days of the anchor year's twelve months, each
        tagged with its fiscal year. */
    method GenerateYearMonths(fiscalStartMonth: int) returns (months: seq<MonthCell>)
      ensures |months| == 12
      ensures forall i :: 0 <= i < 12 ==>
                months[i] == MonthCell(Date(currentDate.year, i, 1), FiscalYear(Date(currentDate.year, i, 1), fiscalStartMonth))
    {
      var year := currentDate.year;
      months := [];
      for month := 0 to 12
        invariant |months| == month
        invariant forall i :: 0 <= i < month ==>
                    months[i] == MonthCell(Date(year, i, 1), FiscalYear(Date(year, i, 1), fiscalStartMonth))
      {
        var date := MakeDate(year, month, 1);
        FirstOfMonth(year, month);
        var fiscalYear := FiscalYear(date, fiscalStartMonth);
        months := months + [MonthCell(date, fiscalYear)];
      }
    }

    /** `changeMonth`: day 1 of the month `increment` months away. */
    method ChangeMonth(increment: int)
      requires Valid()
      modifies this`currentDate
      ensures Valid()
      ensures currentDate == ShiftMonth(old(currentDate), increment)
    {
      currentDate := MakeDate(currentDate.year, currentDate.month + increment, 1);
    }

    /** `changeYear`: day 1 of the same month `increment` years away. */
    method ChangeYear(increment: int)
      requires Valid()
      modifies this`currentDate
      ensures Valid()
      ensures currentDate == Date(old(currentDate.year) + increment, old(currentDate.month), 1)
    {
      currentDate := MakeDate(currentDate.year + increment, currentDate.month, 1);
    }

    /** `changeYears`: only logs its argument; no state changes. */
    method ChangeYears(increment: int)
      ensures currentDate == old(currentDate) && YearRange() == old(YearRange())
    {
    }

    /** The arrows of the header: months in the day view, years in the month and
        quarter views, and nothing in the multi-year view. */
    method Navigate(mode: Mode, increment: int)
      requires Valid()
      modifies this`currentDate
      ensures Valid()
      ensures mode == DateMode ==> currentDate == ShiftMonth(old(currentDate), increment)
      ensures mode == YearMonth || mode == YearQuarterMonth ==>
                currentDate == Date(old(currentDate.year) + increment, old(currentDate.month), 1)
      ensures mode == MultiYearQuarterMonth ==> currentDate == old(currentDate)
    {
      if mode == DateMode {
        ChangeMonth(increment);
      } else if mode == YearQuarterMonth || mode == YearMonth {
        ChangeYear(increment);
      } else {
        ChangeYears(increment);
      }
    }

    /** `toggleDateSelection`: removes every date with the clicked date's key when one
        is selected, appends the date otherwise. */
    method ToggleDateSelection(date: Date)
      requires Valid() && date.Valid()
      modifies this`selectedDates
      ensures Valid()
      ensures selectedDates == Toggled(old(selectedDates), date)
      ensures IsDateSelected(date) == !old(IsDateSelected(date))
    {
      var isSelected := IsDateSelected(date);
      if isSelected {
        selectedDates := Without(selectedDates, date);
      } else {
        selectedDates := selectedDates + [date];
      }
    }

    /** `toggleMonthSelection`: the same on the month key of the date. */
    method ToggleMonthSelection(date: Date)
      modifies this`selectedMonths
      ensures selectedMonths == Toggled(old(selectedMonths), MonthKeyOf(date))
      ensures IsMonthSelected(date) == !old(IsMonthSelected(date))
    {
      var monthKey := MonthKeyOf(date);
      var isSelected := monthKey in selectedMonths;
      if isSelected {
        selectedMonths := Without(selectedMonths, monthKey);
      } else {
        selectedMonths := selectedMonths + [monthKey];
      }
    }

    /** `toggleQuarterSelection`: walks the dates in order over a copy of the selected
        months, filtering a month out when it is present and `selected` holds, appending
        it in every other case. */
    method ToggleQuarterSelection(dateArr: seq<Date>, selected: bool)
      modifies this`selectedMonths
      ensures selectedMonths == Cascade(old(selectedMonths), MonthKeys(dateArr), selected)
    {
      var localMonths := selectedMonths;
      var i := 0;
      while i < |dateArr|
        invariant 0 <= i <= |dateArr|
        invariant localMonths == Cascade(old(selectedMonths), MonthKeys(dateArr[..i]), selected)
      {
        var monthKey := MonthKeyOf(dateArr[i]);
        var isSelected := monthKey in localMonths;
        assert MonthKeys(dateArr[..i + 1])[..i] == MonthKeys(dateArr[..i]);
        if isSelected && selected {
          localMonths := Without(localMonths, monthKey);
        } else {
          localMonths := localMonths + [monthKey];
        }
        i := i + 1;
      }
      assert dateArr[..|dateArr|] == dateArr;
      selectedMonths := localMonths;
    }

    /** The `onQuarterSelect` callback: toggles a quarter key. */
    method ToggleQuarterKey(quarter: QuarterKey)
      modifies this`selectedQuarters
      ensures selectedQuarters == Toggled(old(selectedQuarters), quarter)
      ensures IsQuarterSelected(quarter) == !old(IsQuarterSelected(quarter))
    {
      var isSelected := quarter in selectedQuarters;
      if isSelected {
        selectedQuarters := Without(selectedQuarters, quarter);
      } else {
        selectedQuarters := selectedQuarters + [quarter];
      }
    }

    /** `clearSelection`: the day view drops its dates, the month view its months, the
        quarter views their months and quarters; afterwards the banner is hidden. */
    method ClearSelection(mode: Mode)
      requires Valid()
      modifies this`selectedDates, this`selectedMonths, this`selectedQuarters
      ensures Valid()
      ensures mode == DateMode ==>
                selectedDates == [] && selectedMonths == old(selectedMonths) && selectedQuarters == old(selectedQuarters)
      ensures mode == YearMonth ==>
                selectedMonths == [] && selectedDates == old(selectedDates) && selectedQuarters == old(selectedQuarters)
      ensures mode == YearQuarterMonth || mode == MultiYearQuarterMonth ==>
                selectedMonths == [] && selectedQuarters == [] && selectedDates == old(selectedDates)
      ensures !BannerShown(mode, |selectedDates|, |selectedMonths|, |selectedQuarters|)
    {
      if mode == DateMode {
        selectedDates := [];
      } else if mode == YearMonth {
        selectedMonths := [];
      } else {
        selectedMonths := [];
        selectedQuarters := [];
      }
    }
  }

  /** `isDateSelected` compares `toDateString()`, that is, the calendar day: on valid
      dates a date is selected exactly when some selected date falls on the same day. */
  lemma DateSelectedBySameDay(picker: PickerState, date: Date)
    requires picker.Valid() && date.Valid()
    ensures picker.IsDateSelected(date) <==>
              exists i :: 0 <= i < |picker.selectedDates| && picker.selectedDates[i].Valid() &&
                          DayNumber(picker.selectedDates[i]) == DayNumber(date)
  {
    if i :| 0 <= i < |picker.selectedDates| && picker.selectedDates[i].Valid() &&
            DayNumber(picker.selectedDates[i]) == DayNumber(date) {
      SameDayIff(picker.selectedDates[i], date);
    }
    if date in picker.selectedDates {
      var i :| 0 <= i < |picker.selectedDates| && picker.selectedDates[i] == date;
    }
  }
}
