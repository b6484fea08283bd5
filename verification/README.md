# Fiscal date picker — a verified model

This project models the core of the fiscal date picker of `visualbis/date-picker`, a
React component. The model has two parts.

- **The fiscal calendar.**
  - `getDaysInMonth`, `getFiscalYear` and `getFiscalWeek`.
  - The day grid of `generateCalendar` (42 cells padded with days of the adjacent
    months, each tagged with its fiscal week) and the month cells of `generateYearMonths`.
  - The quarter months of `getQuarterMonths`.
- **The selection state machine.**
  - The state lives in `currentDate`, `selectedDates`, `selectedMonths`,
    `selectedQuarters` and `selectedYears`.
  - The handlers that change it: navigation, the date and month toggles, the quarter
    cascade, the quarter-key toggle, clear, and the two click handlers of the quarter
    view, which keep a quarter's selection in step with its months.

The JavaScript `Date` the component uses is modelled after section 15.9 of ECMA-262 5.1:

- proleptic-Gregorian dates with day numbers counted from 1 January 1970;
- the normalising constructor `new Date(y, m, d)`, as in MakeDay of section 15.9.1.12;
- `getDay`, as in WeekDay of section 15.9.1.6.

The `getTime` difference of `getFiscalWeek` becomes a difference of day numbers.

Files, one module each:

| file | module | contents |
|---|---|---|
| `jsdate.dfy` | `JsDate` | dates, day numbers, the constructor's normalisation, weekdays |
| `keyed_seq.dfy` | `KeyedSeq` | the list idioms of the handlers: `filter`, the toggle, the cascade of `toggleQuarterSelection` |
| `fiscal_math.dfy` | `FiscalMath` | `getDaysInMonth`, `getFiscalYear`, the fiscal-year start, `getFiscalWeek` |
| `fiscal_date_picker.dfy` | `FiscalDatePicker` | keys and cells, the day grid, the banner, navigation, and the class `PickerState` with one field per `useState` and one method per handler |
| `fiscal_quarter_picker.dfy` | `FiscalQuarterPicker` | `getQuarterMonths`, the quarter partition, `handleQuarterSelect` and `handleMonthSelect` acting on a `PickerState` |

The props `mode` and `fiscalStartMonth` are parameters of the methods, not fields,
because the parent may change them between renders. `fiscalStartMonth` is taken to be
1..12, the values the host application offers.

The selections stay sequences:

- an append does not deduplicate;
- a removal filters out every occurrence;
- the banner counts by length.

Keys are tuples:

- `MonthKey(year, month)` for `${year}-${month}`;
- `QuarterKey(year, quarter)` for `${year}-Q${quarter}`;
- the date itself for `toDateString()`.

Where a reading of the component's behaviour and its code differ, the model follows the
code:

- `getFiscalYear` gives the next calendar year from the start month on. With a January
  start every date is in the fiscal year of the following calendar year.
- The fiscal week is 0 on a fiscal-year start that falls on a Sunday.
- The cascade with `selected` true flips an absent month in instead of forcing it out.
- With `selected` false the cascade appends even months already present.
- `changeYears` only logs.
- `clearSelection` never touches `selectedYears` or `currentDate`.
- There is no year-toggle state.

## Model

| member | source | states |
|---|---|---|
| JsDate.MakeDate | src/components/FiscalDatePicker.tsx:18 | `new Date(y, m, d)` yields a valid date whose day number is the start of month index 12·y + m plus d − 1, whatever the overflow of m and d |
| JsDate.MakeDateIsMakeDay | src/components/FiscalDatePicker.tsx:18 | that day number is MakeDay(y, m, d) of ECMA-262 section 15.9.1.12 |
| JsDate.StartOfMonthClosedForm | src/components/FiscalDatePicker.tsx:18 | counting month lengths from January 1970 agrees with DayFromYear plus the cumulative month table of the standard |
| JsDate.MakeDateInMonth | src/components/FiscalDatePicker.tsx:98 | a day inside its month, with the month overflowing the year, gives (y + m div 12, m mod 12, d) |
| JsDate.MakeDateOfValid | src/components/FiscalDatePicker.tsx:61 | the constructor returns an existing date unchanged |
| JsDate.WeekDayShift | src/components/FiscalDatePicker.tsx:44 | n days later the weekday has advanced by n modulo 7 |
| JsDate.DayNumberOrder | src/components/FiscalDatePicker.tsx:30-31 | day numbers are ordered exactly as the dates are in the calendar |
| JsDate.SameDayIff | src/components/FiscalDatePicker.tsx:30-31 | two dates have the same day number exactly when they are the same date |
| JsDate.YearSpan | src/components/FiscalDatePicker.tsx:30-31 | any twelve consecutive months span 365 or 366 days |
| JsDate.DayNumber | src/components/FiscalDatePicker.tsx:30 | definition: the whole days since 1 January 1970 that `getTime` measures; pinned by `MakeDateIsMakeDay`, `DayNumberOrder` and `SameDayIff` |
| JsDate.GetDay | src/components/FiscalDatePicker.tsx:44 | `getDay()`: a weekday 0..6, Sunday 0, as WeekDay of ECMA-262 section 15.9.1.6; `WeekDayShift` is its partner |
| KeyedSeq.Without | src/components/FiscalDatePicker.tsx:125 | `filter(k => k !== key)` keeps every other key with its multiplicity and drops every occurrence of the key |
| KeyedSeq.Toggled | src/components/FiscalDatePicker.tsx:120-129 | the toggle flips the key's membership and keeps every other key's; removal clears all copies, addition adds one |
| KeyedSeq.ToggleTwice | src/components/FiscalDatePicker.tsx:120-129 | toggling twice restores every membership, and the list itself when the key was absent |
| KeyedSeq.CascadeStep | src/components/FiscalDatePicker.tsx:135-141 | definition: one pass of the loop body, filtering a present key out only when `selected` holds and appending it otherwise |
| KeyedSeq.Cascade | src/components/FiscalDatePicker.tsx:133-141 | definition: the `forEach` over the keys, in order; its properties are the four lemmas below |
| KeyedSeq.CascadeAppends | src/components/FiscalDatePicker.tsx:131-144 | with `selected` false the cascade appends all keys, present or not |
| KeyedSeq.CascadeOutside | src/components/FiscalDatePicker.tsx:131-144 | keys not cascaded keep their membership |
| KeyedSeq.CascadeFlips | src/components/FiscalDatePicker.tsx:131-144 | with `selected` true and distinct keys each cascaded key's membership flips |
| KeyedSeq.CascadeUndoesAppend | src/components/FiscalDatePicker.tsx:131-144 | with `selected` true the cascade removes exactly the distinct keys an earlier append added |
| FiscalMath.LastDayOfMonth | src/components/FiscalDatePicker.tsx:18 | day 0 of month m + 1 is the last day of month m, for any overflow of m |
| FiscalMath.GetDaysInMonth | src/components/FiscalDatePicker.tsx:17-19 | the result lies in 28..31 and is the length of month index 12·y + m |
| FiscalMath.GetDaysInMonthCalendar | src/components/FiscalDatePicker.tsx:17-19 | it is the length of the calendar month the overflow lands on; February has 29 days exactly in Gregorian leap years |
| FiscalMath.GetDaysInMonthWraps | src/components/FiscalDatePicker.tsx:46 | month −1 is December of the year before and month 12 is January of the year after, both 31 days |
| FiscalMath.FiscalYear | src/components/FiscalDatePicker.tsx:35-39 | the calendar year exactly when the month precedes the start month, else the next year |
| FiscalMath.FiscalYearExamples | src/components/FiscalDatePicker.tsx:35-39 | April start: 2024-04-01 is FY2025 and 2024-03-31 is FY2024; January start: always year + 1 |
| FiscalMath.FiscalYearStart | src/components/FiscalDatePicker.tsx:22-28 | the start is day 1 of month `fiscalStartMonth − 1` in the year before the fiscal year |
| FiscalMath.FirstOfMonth | src/components/FiscalDatePicker.tsx:86 | the constructor keeps the first of an in-range month as it is |
| FiscalMath.FiscalYearContains | src/components/FiscalDatePicker.tsx:22-28 | a date lies on or after its fiscal-year start and before the next one |
| FiscalMath.FiscalYearLength | src/components/FiscalDatePicker.tsx:30-31 | the day difference to the fiscal-year start is in 0..365 |
| FiscalMath.CeilDiv7 | src/components/FiscalDatePicker.tsx:32 | `Math.ceil(x / 7)`: the least c with x ≤ 7c |
| FiscalMath.FiscalWeek | src/components/FiscalDatePicker.tsx:21-33 | the fiscal week lies in 0..53 |
| FiscalMath.FiscalWeekZero | src/components/FiscalDatePicker.tsx:32 | week 0 occurs exactly on a fiscal-year start that is a Sunday |
| FiscalMath.FiscalWeekAtStart | src/components/FiscalDatePicker.tsx:21-33 | on the fiscal-year start the week is 1, or 0 on a Sunday |
| FiscalMath.FiscalWeekMonotone | src/components/FiscalDatePicker.tsx:21-33 | within one fiscal year the week never decreases as the date advances |
| FiscalMath.FiscalWeekNextDay | src/components/FiscalDatePicker.tsx:21-33 | from one day to the next in one fiscal year the week grows by one after a Sunday and stays put otherwise |
| FiscalMath.FiscalWeekFromMonday | src/components/FiscalDatePicker.tsx:21-33 | a Monday and the six days after it share the fiscal week wherever they share the fiscal year |
| FiscalMath.WeekDayFromStart | src/components/FiscalDatePicker.tsx:32 | a date's weekday is its offset from the fiscal-year start plus the start's weekday, modulo 7 |
| FiscalMath.SameFiscalYear | src/components/FiscalDatePicker.tsx:21-39 | two dates share the fiscal year exactly when they share the fiscal-year start |
| FiscalMath.FiscalYearMonotone | src/components/FiscalDatePicker.tsx:35-39 | the fiscal year never decreases as the date advances |
| FiscalDatePicker.MonthKeyOf | src/components/FiscalDatePicker.tsx:121 | definition: the key `${getFullYear()}-${getMonth()}` as the pair (year, month) |
| FiscalDatePicker.DayCellOf | src/components/FiscalDatePicker.tsx:53-56 | definition: the pushed cell `{date, fiscalWeek}`, the date with its `getFiscalWeek` |
| FiscalDatePicker.MonthKeys | src/components/FiscalDatePicker.tsx:134 | one month key per date, in order; `QuarterDates` proves that a quarter's dates give exactly the quarter's keys |
| FiscalDatePicker.FirstDay | src/components/FiscalDatePicker.tsx:44 | `firstDay` is a weekday 0..6 |
| FiscalDatePicker.GridDate | src/components/FiscalDatePicker.tsx:41-79 | every cell of the grid is a valid date |
| FiscalDatePicker.GridDateShift | src/components/FiscalDatePicker.tsx:44 | cell k lies k − firstDay days after the first of the anchor month, and firstDay is that day's weekday |
| FiscalDatePicker.GridWeekDay | src/components/FiscalDatePicker.tsx:41-79 | cell k falls on weekday k mod 7, so the grid is laid out from Sunday |
| FiscalDatePicker.GridCurrentMonth | src/components/FiscalDatePicker.tsx:191 | a cell is in the anchor month exactly for k in firstDay .. firstDay + daysInMonth − 1, and there it holds day k − firstDay + 1 |
| FiscalDatePicker.GridBeforeMonth | src/components/FiscalDatePicker.tsx:51-57 | the cells before firstDay lie in the month before, so not in the anchor month |
| FiscalDatePicker.GridInMonth | src/components/FiscalDatePicker.tsx:60-66 | the cells from firstDay hold the days of the anchor month |
| FiscalDatePicker.GridAfterMonth | src/components/FiscalDatePicker.tsx:69-76 | the cells after the anchor month, up to 41, lie in the month after, so not in the anchor month |
| FiscalDatePicker.PrevMonthCell | src/components/FiscalDatePicker.tsx:51-52 | the constructor call of the first loop gives cell firstDay − 1 − i |
| FiscalDatePicker.CurrentMonthCell | src/components/FiscalDatePicker.tsx:60-61 | the constructor call of the second loop gives cell firstDay + i − 1 |
| FiscalDatePicker.NextMonthCell | src/components/FiscalDatePicker.tsx:70-71 | the constructor call of the third loop gives cell firstDay + daysInMonth + i − 1 |
| FiscalDatePicker.AppendPrevMonthDays | src/components/FiscalDatePicker.tsx:50-57 | the first loop produces grid cells 0 .. firstDay − 1, each with its fiscal week |
| FiscalDatePicker.AppendCurrentMonthDays | src/components/FiscalDatePicker.tsx:59-66 | the second loop extends them to cell firstDay + daysInMonth − 1 |
| FiscalDatePicker.AppendNextMonthDays | src/components/FiscalDatePicker.tsx:68-76 | the third loop completes exactly 42 grid cells |
| FiscalDatePicker.PickerState.GenerateCalendar | src/components/FiscalDatePicker.tsx:41-79 | 42 cells; cell k is the first of the anchor month moved by k − firstDay days, tagged with its fiscal week |
| FiscalDatePicker.PickerState.GenerateYearMonths | src/components/FiscalDatePicker.tsx:81-95 | 12 cells; cell i is (anchor year, i, 1) with that date's fiscal year |
| FiscalDatePicker.SundayFirstGridMislabelled | src/components/FiscalDatePicker.tsx:168 | as written, six of seven columns stand under another weekday's initial in the header `WeekDayHeader` ("MTWTFSS"); the column under "M" holds Sundays |
| FiscalDatePicker.SundayFirstRowSplitsWeek | src/components/FiscalDatePicker.tsx:185-188 | as written, a row's label (the week of its Sunday) is one less than the week of the next day whenever both are in one fiscal year, with weeks counted in whole days |
| FiscalDatePicker.SundayFirstGridExample | src/components/FiscalDatePicker.tsx:166-190 | February 1970, January start: the row opens on Sunday 1 February under "M", and 2 February is a week later than the row's label |
| FiscalDatePicker.MondayFirstGridDate | src/components/FiscalDatePicker.tsx:166-190 | the corrected Monday-first grid holds valid dates |
| FiscalDatePicker.MondayFirstHeader | src/components/FiscalDatePicker.tsx:168 | in the corrected grid every column holds the weekday its header names |
| FiscalDatePicker.MondayFirstRowWeek | src/components/FiscalDatePicker.tsx:185-188 | in the corrected grid every cell of a row that shares the fiscal year of the row's Monday has that Monday's week, so the row label is the week of the row, with weeks counted in whole days |
| FiscalDatePicker.Counted | src/components/FiscalDatePicker.tsx:305-308 | the noun takes an "s" exactly when the count is not 1 |
| FiscalDatePicker.BannerCounts | src/components/FiscalDatePicker.tsx:304-308 | definition: the counts the banner text names in each mode |
| FiscalDatePicker.BannerShown | src/components/FiscalDatePicker.tsx:299-301 | definition: the banner's condition; `BannerShownIffCount` is its partner |
| FiscalDatePicker.BannerShownIffCount | src/components/FiscalDatePicker.tsx:299-301 | the banner shows exactly when some count its text names is non-zero, and never in the multi-year mode |
| FiscalDatePicker.ShiftMonth | src/components/FiscalDatePicker.tsx:97-99 | the new anchor is day 1 of the month whose index is shifted by the increment |
| FiscalDatePicker.ShiftMonthRoundTrip | src/components/FiscalDatePicker.tsx:97-99 | shifting by k and then −k restores the year and month |
| FiscalDatePicker.PickerState.constructor | src/components/FiscalDatePicker.tsx:11-15 | anchored on today, nothing selected, today's year in `selectedYears` |
| FiscalDatePicker.PickerState.IsDateSelected | src/components/FiscalDatePicker.tsx:146-148 | membership of the date; `DateSelectedBySameDay` ties it to the calendar day and `ToggleDateSelection` flips it |
| FiscalDatePicker.DateSelectedBySameDay | src/components/FiscalDatePicker.tsx:146-148 | on valid dates a date is selected exactly when some selected date has its day number, which is what comparing `toDateString()` decides |
| FiscalDatePicker.PickerState.IsMonthSelected | src/components/FiscalDatePicker.tsx:150-153 | the date's month key is selected; `ToggleMonthSelection` flips it for the clicked date |
| FiscalDatePicker.PickerState.IsQuarterSelected | src/components/FiscalQuarterPicker.tsx:32-34 | the quarter key is selected; `ToggleQuarterKey` flips it for the clicked key |
| FiscalDatePicker.PickerState.YearRange | src/components/FiscalDatePicker.tsx:282 | three consecutive years centred on the anchor's |
| FiscalDatePicker.PickerState.ChangeMonth | src/components/FiscalDatePicker.tsx:97-99 | the anchor becomes `ShiftMonth` of the old anchor; nothing else changes |
| FiscalDatePicker.PickerState.ChangeYear | src/components/FiscalDatePicker.tsx:101-103 | the anchor becomes day 1 of the same month `increment` years away |
| FiscalDatePicker.PickerState.ChangeYears | src/components/FiscalDatePicker.tsx:105-107 | no state changes |
| FiscalDatePicker.PickerState.Navigate | src/components/FiscalDatePicker.tsx:276 | months in the day view, years in the month and quarter views, nothing in the multi-year view |
| FiscalDatePicker.PickerState.ToggleDateSelection | src/components/FiscalDatePicker.tsx:109-118 | the dates become `Toggled` of the old dates; the date's membership flips |
| FiscalDatePicker.PickerState.ToggleMonthSelection | src/components/FiscalDatePicker.tsx:120-129 | the months become `Toggled` of the old months on the date's key |
| FiscalDatePicker.PickerState.ToggleQuarterSelection | src/components/FiscalDatePicker.tsx:131-144 | the months become the cascade of the old months over the dates' keys, in order |
| FiscalDatePicker.PickerState.ToggleQuarterKey | src/components/FiscalDatePicker.tsx:330-337 | the quarters become `Toggled` of the old quarters on the key |
| FiscalDatePicker.PickerState.ClearSelection | src/components/FiscalDatePicker.tsx:155-164 | each mode empties exactly its own lists; afterwards the banner is hidden |
| FiscalQuarterPicker.QuarterMonths | src/components/FiscalQuarterPicker.tsx:22-25 | three months in 0..11, each one after the previous modulo 12, the first 3·(q − 1) after the start month |
| FiscalQuarterPicker.FirstQuarterStarts | src/components/FiscalQuarterPicker.tsx:23 | Q1 opens with month `fiscalStartMonth − 1` |
| FiscalQuarterPicker.QuarterOf | src/components/FiscalQuarterPicker.tsx:22-25 | the reference quarter of a month is one of 1..4 |
| FiscalQuarterPicker.QuarterMonthsPartition | src/components/FiscalQuarterPicker.tsx:22-25 | a month is in quarter q's months exactly when q is its reference quarter |
| FiscalQuarterPicker.QuartersCover | src/components/FiscalQuarterPicker.tsx:75 | every month lies in one of the quarters the view lists (`Quarters`, Q1..Q4) |
| FiscalQuarterPicker.QuartersDisjoint | src/components/FiscalQuarterPicker.tsx:75 | no month lies in two quarters |
| FiscalQuarterPicker.QuarterMonthKeys | src/components/FiscalQuarterPicker.tsx:60-62 | a quarter's three month keys in the anchor year, all different |
| FiscalQuarterPicker.QuarterDates | src/components/FiscalQuarterPicker.tsx:44-48 | day 1 of each quarter month in the anchor's calendar year, whose keys are the quarter's month keys |
| FiscalQuarterPicker.HandleQuarterSelect | src/components/FiscalQuarterPicker.tsx:36-50 | the two lists become `AfterQuarterClick` of the lists before the click: the key (anchor year, q) is toggled and the quarter's months are cascaded with the quarter's membership before the click |
| FiscalQuarterPicker.QuarterClickTwice | src/components/FiscalQuarterPicker.tsx:36-50 | from an unselected quarter and months one click selects the quarter and appends its three months; a second click restores both lists |
| FiscalQuarterPicker.QuarterClickReconciles | src/components/FiscalQuarterPicker.tsx:36-50 | when the quarter was selected exactly when all three of its months were, the same holds after the click; no other month or quarter changes membership |
| FiscalQuarterPicker.PredictedAllSelected | src/components/FiscalQuarterPicker.tsx:60-66 | definition: the `every` check on the months before the click; `PredictionMatchesToggle` is its partner |
| FiscalQuarterPicker.PredictionMatchesToggle | src/components/FiscalQuarterPicker.tsx:60-66 | the `every` check on the months before the click holds exactly when all the quarter's months are selected after the toggle |
| FiscalQuarterPicker.HandleMonthSelect | src/components/FiscalQuarterPicker.tsx:52-73 | the two lists become `AfterMonthClick` of the lists before the click: the clicked month is toggled, and the quarter key exactly when the prediction disagrees with the quarter's selection |
| FiscalQuarterPicker.MonthClickReconciles | src/components/FiscalQuarterPicker.tsx:52-73 | afterwards the quarter is selected exactly when all three of its months are; no other month or quarter changes membership |

## Left out

- Time of day, time zones and daylight-saving shifts. `getTime` and the `Math.floor`
  over milliseconds (src/components/FiscalDatePicker.tsx:30-31) become a whole-day
  difference of day numbers. Every statement about fiscal weeks, here and in the
  lemmas, holds under this abstraction. In a zone with daylight saving the source
  differs whenever the fiscal-year start is in standard time and the date is in
  summer time: the millisecond difference is then one hour short of whole days, the
  floor gives one day less, and the week turns over on Tuesday instead of Monday.
  With the default January start in America/New_York, Monday 1 April 2024 gets week
  13 there and week 14 in the model. The model does not capture that shift.
- The constructor's mapping of years 0..99 to 1900..1999 (ECMA-262 section 15.9.3.1)
  and the time-value range limit (TimeClip). Years are unbounded integers.
- Rendering:
  - JSX, CSS classes and styles;
  - the `isToday` and `isCurrentMonth` flags;
  - `toLocaleString` and `toDateString` text, replaced by tuple keys.

  The row label `calendar[weekIndex * 7]?.fiscalWeek` enters only through the lemmas
  about cell 7·row.
- The clock. `new Date()` is the `today` parameter of the constructor.
- The `console.log` of `changeYears`.
- React's rendering, re-rendering and setter batching. Each handler is one atomic state
  change.
- The host application. It is not part of this model; its choice of `fiscalStartMonth`
  in 1..12 is a precondition.
- FiscalQuarterPicker.QuarterMonths: requires a quarter in 1..4, the only values the
  view passes (src/components/FiscalQuarterPicker.tsx:75). The remainder of a negative
  operand is therefore not modelled.
- The quarter view's own `isMonthSelected` and `isQuarterSelected`
  (src/components/FiscalQuarterPicker.tsx:27-34) read the parent's lists as props. They
  are the parent's `PickerState.IsMonthSelected` and `PickerState.IsQuarterSelected`.
- The three loops of `generateCalendar` are three helper methods called in order.
- The quarter handlers are module methods that take the parent's `PickerState`. They do
  not live in the class, because the callbacks they call belong to the parent.

## Findings

| source | as written | input that shows it | evidently intended | confidence | as-written member | corrected member |
|---|---|---|---|---|---|---|
| src/components/FiscalDatePicker.tsx:44 | The grid starts on Sunday: cell 0 is moved back `getDay()` days, to a Sunday. The header at :168 reads M T W T F S S, so each column stands under the wrong initial. Within one fiscal year and outside daylight-saving changes (the day-number abstraction, see Left out), fiscal weeks turn over on Monday, so the row label (the week of the row's Sunday) is one less than the week of the row's other six days wherever they share the Sunday's fiscal year. | February 1970, January start: the first row opens with Sunday 1 February under "M", and Monday 2 February has a week one greater than the row label | a Monday-first grid (offset `(firstDay + 6) % 7`), whose columns match the header and, outside daylight-saving changes, whose rows, except one that holds a fiscal-year start, are single fiscal weeks | high (not executed) | FiscalDatePicker.SundayFirstGridExample | FiscalDatePicker.MondayFirstRowWeek |

The state class keeps the as-written Sunday-first grid, because nothing else in the
model reads the grid's layout. The corrected grid is `MondayFirstGridDate`. Its header
property is `MondayFirstHeader`.
