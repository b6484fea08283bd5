/** The quarter view of the picker: the months of each fiscal quarter and the two click
    handlers, which act on the parent's state through its callbacks (`onQuarterSelect`,
    `onQuarterToggleSelect`, `onMonthSelect`). The handlers take that state object. */
module FiscalQuarterPicker {
  import opened JsDate
  import opened FiscalMath
  import opened KeyedSeq
  import opened FiscalDatePicker

  /** The quarters the view lists, Q1 to Q4. */
  const Quarters: seq<int> := [1, 2, 3, 4]

  predicate ValidQuarter(quarter: int) {
    1 <= quarter <= 4
  }

  /** `getQuarterMonths(quarter)`: three consecutive calendar months, wrapping from
      December to January, the first of them 3 * (quarter - 1) months after the start
      month. The left operand of `%` is never negative here, so the remainder is the
      same as in the source. */
  function QuarterMonths(quarter: int, fiscalStartMonth: int): (months: seq<int>)
    requires ValidQuarter(quarter) && ValidStartMonth(fiscalStartMonth)
    ensures |months| == 3
    ensures months[0] == (3 * (quarter - 1) + fiscalStartMonth - 1) % 12
    ensures forall i :: 0 <= i < 3 ==> 0 <= months[i] < 12
    ensures forall i :: 0 <= i < 2 ==> months[i + 1] == (months[i] + 1) % 12
  {
    var startMonth := ((quarter - 1) * 3 + fiscalStartMonth - 1 + 12) % 12;
    seq(3, i requires 0 <= i < 3 => (startMonth + i) % 12)
  }

  /** The first fiscal quarter opens with the start month. */
  lemma FirstQuarterStarts(fiscalStartMonth: int)
    requires ValidStartMonth(fiscalStartMonth)
    ensures QuarterMonths(1, fiscalStartMonth)[0] == fiscalStartMonth - 1
  {
  }

  /** An independent reference: the quarter a calendar month belongs to, from how many
      months it lies after the start month. */
  function QuarterOf(month: int, fiscalStartMonth: int): (q: int)
    ensures ValidQuarter(q)
  {
    (month - fiscalStartMonth + 1) % 12 / 3 + 1
  }

  /** A month is one of a quarter's months exactly when it is the reference quarter's. */
  lemma QuarterMonthsPartition(quarter: int, fiscalStartMonth: int, month: int)
    requires ValidQuarter(quarter) && ValidStartMonth(fiscalStartMonth)
    requires 0 <= month < 12
    ensures month in QuarterMonths(quarter, fiscalStartMonth) <==> quarter == QuarterOf(month, fiscalStartMonth)
  {
    var months := QuarterMonths(quarter, fiscalStartMonth);
    var start := 3 * (quarter - 1) + fiscalStartMonth - 1;
    Mod12(start + 12);
    var first := if start < 12 then start else start - 12;
    assert months[0] == first;
    Mod12(first + 1);
    Mod12(first + 2);
    assert months[1] == (first + 1) % 12 && months[2] == (first + 2) % 12;
    Mod12(month - fiscalStartMonth + 1);
    var offset := (month - fiscalStartMonth + 1) % 12;
    assert 0 <= offset < 12;
    forall j | 0 <= j < 3
      ensures months[j] == month <==> offset == 3 * (quarter - 1) + j
    {
    }
    Div3(offset, quarter - 1);
  }

  /** x lies in the block of three that starts at 3 * b exactly when x / 3 is b. */
  lemma Div3(x: int, b: int)
    requires 0 <= x < 12 && 0 <= b < 4
    ensures x / 3 == b <==> x == 3 * b || x == 3 * b + 1 || x == 3 * b + 2
  {
  }

  /** The remainder by 12 of a number in -12 .. 35, without division. */
  lemma Mod12(x: int)
    requires -12 <= x < 36
    ensures x % 12 == if x < 0 then x + 12 else if x < 12 then x else if x < 24 then x - 12 else x - 24
  {
  }

  /** Every calendar month lies in one of the four quarters... */
  lemma QuartersCover(fiscalStartMonth: int, month: int)
    requires ValidStartMonth(fiscalStartMonth)
    requires 0 <= month < 12
    ensures exists quarter :: quarter in Quarters && month in QuarterMonths(quarter, fiscalStartMonth)
  {
    var q := QuarterOf(month, fiscalStartMonth);
    QuarterMonthsPartition(q, fiscalStartMonth, month);
    assert q in Quarters;
  }

  /** ...and in no two of them. */
  lemma QuartersDisjoint(fiscalStartMonth: int, q1: int, q2: int, month: int)
    requires ValidStartMonth(fiscalStartMonth)
    requires q1 in Quarters && q2 in Quarters && q1 != q2
    ensures !(month in QuarterMonths(q1, fiscalStartMonth) && month in QuarterMonths(q2, fiscalStartMonth))
  {
    if 0 <= month < 12 {
      QuarterMonthsPartition(q1, fiscalStartMonth, month);
      QuarterMonthsPartition(q2, fiscalStartMonth, month);
    }
  }

  /** The month keys of a quarter in the anchor's year: three different keys. */
  function QuarterMonthKeys(year: int, quarter: int, fiscalStartMonth: int): (keys: seq<MonthKey>)
    requires ValidQuarter(quarter) && ValidStartMonth(fiscalStartMonth)
    ensures |keys| == 3
    ensures forall i :: 0 <= i < 3 ==> keys[i] == MonthKey(year, QuarterMonths(quarter, fiscalStartMonth)[i])
    ensures Distinct(keys)
  {
    var months := QuarterMonths(quarter, fiscalStartMonth);
    [MonthKey(year, months[0]), MonthKey(year, months[1]), MonthKey(year, months[2])]
  }

  /** The `dateArr` loop of `handleQuarterSelect`: day 1 of each of the quarter's
      months, in the anchor's calendar year. */
  method QuarterDates(year: int, quarter: int, fiscalStartMonth: int) returns (dateArr: seq<Date>)
    requires ValidQuarter(quarter) && ValidStartMonth(fiscalStartMonth)
    ensures |dateArr| == 3
    ensures forall i :: 0 <= i < 3 ==> dateArr[i] == Date(year, QuarterMonths(quarter, fiscalStartMonth)[i], 1)
    ensures MonthKeys(dateArr) == QuarterMonthKeys(year, quarter, fiscalStartMonth)
  {
    var quarterMonths := QuarterMonths(quarter, fiscalStartMonth);
    dateArr := [];
    var i := 0;
    while i < |quarterMonths|
      invariant 0 <= i <= 3
      invariant |dateArr| == i
      invariant forall j :: 0 <= j < i ==> dateArr[j] == Date(year, quarterMonths[j], 1)
    {
      var date := MakeDate(year, quarterMonths[i], 1);
      FirstOfMonth(year, quarterMonths[i]);
      dateArr := dateArr + [date];
      i := i + 1;
    }
  }

  /** The selected months and quarters after a click on a quarter: the quarter key is
      toggled and the quarter's months are cascaded, filtered out only when the quarter
      was selected before the click. */
  function AfterQuarterClick(months: seq<MonthKey>, quarters: seq<QuarterKey>, year: int,
                             quarter: int, fiscalStartMonth: int): (after: (seq<MonthKey>, seq<QuarterKey>))
    requires ValidQuarter(quarter) && ValidStartMonth(fiscalStartMonth)
  {
    var key := QuarterKey(year, quarter);
    (Cascade(months, QuarterMonthKeys(year, quarter, fiscalStartMonth), key in quarters),
     Toggled(quarters, key))
  }

  /** With the quarter and its months unselected, a click selects the quarter and all
      three months, appended in order; a second click gives back both lists as they were. */
  lemma QuarterClickTwice(months: seq<MonthKey>, quarters: seq<QuarterKey>, year: int,
                          quarter: int, fiscalStartMonth: int)
    requires ValidQuarter(quarter) && ValidStartMonth(fiscalStartMonth)
    requires QuarterKey(year, quarter) !in quarters
    requires forall k :: k in QuarterMonthKeys(year, quarter, fiscalStartMonth) ==> k !in months
    ensures var once := AfterQuarterClick(months, quarters, year, quarter, fiscalStartMonth);
            once == (months + QuarterMonthKeys(year, quarter, fiscalStartMonth),
                     quarters + [QuarterKey(year, quarter)])
    ensures var once := AfterQuarterClick(months, quarters, year, quarter, fiscalStartMonth);
            AfterQuarterClick(once.0, once.1, year, quarter, fiscalStartMonth) == (months, quarters)
  {
    var key := QuarterKey(year, quarter);
    var keys := QuarterMonthKeys(year, quarter, fiscalStartMonth);
    CascadeAppends(months, keys);
    ToggleTwice(quarters, key);
    assert key in quarters + [key];
    CascadeUndoesAppend(months, keys);
  }

  /** A quarter click keeps a consistent selection consistent: when the quarter was
      selected exactly when all three of its months were, the same holds after the
      click, and no other month or quarter changes its membership. */
  lemma QuarterClickReconciles(months: seq<MonthKey>, quarters: seq<QuarterKey>, year: int,
                               quarter: int, fiscalStartMonth: int)
    requires ValidQuarter(quarter) && ValidStartMonth(fiscalStartMonth)
    requires QuarterKey(year, quarter) in quarters <==>
               forall k :: k in QuarterMonthKeys(year, quarter, fiscalStartMonth) ==> k in months
    ensures var after := AfterQuarterClick(months, quarters, year, quarter, fiscalStartMonth);
            QuarterKey(year, quarter) in after.1 <==>
              forall k :: k in QuarterMonthKeys(year, quarter, fiscalStartMonth) ==> k in after.0
    ensures var after := AfterQuarterClick(months, quarters, year, quarter, fiscalStartMonth);
            (forall k :: k !in QuarterMonthKeys(year, quarter, fiscalStartMonth) ==> (k in after.0 <==> k in months)) &&
            (forall q :: q != QuarterKey(year, quarter) ==> (q in after.1 <==> q in quarters))
  {
    var keys := QuarterMonthKeys(year, quarter, fiscalStartMonth);
    var selected := QuarterKey(year, quarter) in quarters;
    forall k | k !in keys
      ensures k in Cascade(months, keys, selected) <==> k in months
    {
      CascadeOutside(months, keys, selected, k);
    }
    if selected {
      // All three months were selected, so the cascade filters the first one out.
      assert keys[0] in keys;
      CascadeFlips(months, keys, keys[0]);
    } else {
      // The cascade appends all three months.
      CascadeAppends(months, keys);
      assert forall k :: k in keys ==> k in months + keys;
    }
  }

  /** `handleQuarterSelect(quarter)`: reads whether the quarter is selected, toggles its
      key, builds the quarter's dates and cascades them with that earlier answer. */
  method HandleQuarterSelect(picker: PickerState, quarter: int, fiscalStartMonth: int)
    requires ValidQuarter(quarter) && ValidStartMonth(fiscalStartMonth)
    modifies picker`selectedMonths, picker`selectedQuarters
    ensures (picker.selectedMonths, picker.selectedQuarters) ==
              AfterQuarterClick(old(picker.selectedMonths), old(picker.selectedQuarters),
                                picker.currentDate.year, quarter, fiscalStartMonth)
  {
    var year := picker.currentDate.year;
    var quarterKey := QuarterKey(year, quarter);
    var isSelected := picker.IsQuarterSelected(quarterKey);
    picker.ToggleQuarterKey(quarterKey);
    var dateArr := QuarterDates(year, quarter, fiscalStartMonth);
    picker.ToggleQuarterSelection(dateArr, isSelected);
  }

  /** The `every` check of `handleMonthSelect`, on the months as they were before the
      click: the clicked month counts as selected when it was not, every other month of
      the quarter when it was. */
  predicate PredictedAllSelected(months: seq<MonthKey>, keys: seq<MonthKey>, clicked: MonthKey) {
    forall i :: 0 <= i < |keys| ==> if keys[i] == clicked then keys[i] !in months else keys[i] in months
  }

  /** The prediction is right: it holds exactly when all of the quarter's months are
      selected once the clicked month is toggled. */
  lemma PredictionMatchesToggle(months: seq<MonthKey>, keys: seq<MonthKey>, clicked: MonthKey)
    ensures PredictedAllSelected(months, keys, clicked) <==>
              forall k :: k in keys ==> k in Toggled(months, clicked)
  {
    if PredictedAllSelected(months, keys, clicked) {
      forall k | k in keys ensures k in Toggled(months, clicked) {
        var i :| 0 <= i < |keys| && keys[i] == k;
      }
    } else {
      var i :| 0 <= i < |keys| && !(if keys[i] == clicked then keys[i] !in months else keys[i] in months);
      assert keys[i] !in Toggled(months, clicked);
    }
  }

  /** The selected months and quarters after a click on a month: the month key is
      toggled, and the quarter key is toggled when the prediction disagrees with the
      quarter's selection. */
  function AfterMonthClick(months: seq<MonthKey>, quarters: seq<QuarterKey>, year: int, quarter: int,
                           fiscalStartMonth: int, clicked: MonthKey): (after: (seq<MonthKey>, seq<QuarterKey>))
    requires ValidQuarter(quarter) && ValidStartMonth(fiscalStartMonth)
  {
    var key := QuarterKey(year, quarter);
    var allMonthsSelected := PredictedAllSelected(months, QuarterMonthKeys(year, quarter, fiscalStartMonth), clicked);
    var isQuarterAlreadySelected := key in quarters;
    (Toggled(months, clicked),
     if allMonthsSelected != isQuarterAlreadySelected then Toggled(quarters, key) else quarters)
  }

  /** After a month click the quarter is selected exactly when all three of its months
      are, and no other month or quarter changes its membership. */
  lemma MonthClickReconciles(months: seq<MonthKey>, quarters: seq<QuarterKey>, year: int, quarter: int,
                             fiscalStartMonth: int, clicked: MonthKey)
    requires ValidQuarter(quarter) && ValidStartMonth(fiscalStartMonth)
    ensures var after := AfterMonthClick(months, quarters, year, quarter, fiscalStartMonth, clicked);
            QuarterKey(year, quarter) in after.1 <==>
              forall k :: k in QuarterMonthKeys(year, quarter, fiscalStartMonth) ==> k in after.0
    ensures var after := AfterMonthClick(months, quarters, year, quarter, fiscalStartMonth, clicked);
            (forall k :: k != clicked ==> (k in after.0 <==> k in months)) &&
            (forall q :: q != QuarterKey(year, quarter) ==> (q in after.1 <==> q in quarters))
  {
    PredictionMatchesToggle(months, QuarterMonthKeys(year, quarter, fiscalStartMonth), clicked);
  }

  /** `handleMonthSelect(date, quarter)`: toggles the clicked month, then, from the
      months as the view received them before the click, decides whether the quarter's
      selection must follow. */
  method HandleMonthSelect(picker: PickerState, date: Date, quarter: int, fiscalStartMonth: int)
    requires ValidQuarter(quarter) && ValidStartMonth(fiscalStartMonth)
    modifies picker`selectedMonths, picker`selectedQuarters
    ensures (picker.selectedMonths, picker.selectedQuarters) ==
              AfterMonthClick(old(picker.selectedMonths), old(picker.selectedQuarters),
                              picker.currentDate.year, quarter, fiscalStartMonth, MonthKeyOf(date))
  {
    var selectedMonths := picker.selectedMonths;
    picker.ToggleMonthSelection(date);
    var year := picker.currentDate.year;
    var quarterKey := QuarterKey(year, quarter);
    var isQuarterAlreadySelected := picker.IsQuarterSelected(quarterKey);
    var monthDates := QuarterDates(year, quarter, fiscalStartMonth);
    var allMonthsSelected := PredictedAllSelected(selectedMonths, MonthKeys(monthDates), MonthKeyOf(date));
    if allMonthsSelected && !isQuarterAlreadySelected {
      picker.ToggleQuarterKey(quarterKey);
    } else if !allMonthsSelected && isQuarterAlreadySelected {
      picker.ToggleQuarterKey(quarterKey);
    }
  }
}
