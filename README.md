# date-bling calendar components in Dafny

This project models the two calendar components of date-bling and proves
properties about them.

- `calendar-month` draws one month as a grid of week rows.
- `calendar-month-multi` pages through a range of months.

The date library the components call is replaced by an explicit Gregorian
model (module `Gregorian`, file `gregorian.dfy`):

- A moment, at day granularity, is an integer day number: days since
  1 January 1970.
- `Civil(n)` gives the calendar fields of a day number, as
  `Date(year, month, day)` with a 0-indexed month. `DayNumber` goes the
  other way, and the two are proved inverse on valid dates.
- Adding days is integer addition.
- `AddMonths` is `add(k, 'months')`. It keeps the day of the month and
  clamps it to the length of the target month.
- `MonthOf(n)` is the month position `year * 12 + month`.
- `Weekday(n, weekStart)` is the locale weekday. `weekStart` is the locale's
  first day of the week (0 = Sunday, 1 = Monday, ...).
- `StartOfWeek` and `SameWeek` are `startOf('week')` and
  `isSame(.., 'week')`.

Module `CalendarMonth` (`calendar_month.dfy`) holds the month grid.

- `NumberOfWeeksInMonth` and `FirstMondayOfMonth` are methods with the
  source's `while` loops. `FirstMondayOfMonth` runs its loop through
  `NextWeekStart`.
- `DisplayWeeks` builds its rows with the source's nested `for` loops, which
  sit in `GridRows`.

Module `CalendarMonthMulti` (`calendar_month_multi.dfy`) holds the range
planner.

- The component is the class `CalendarMonthMulti`. Its `monthOffset` field
  is changed by `Previous` and `Next`.
- `DisplayMonths` applies the one-week correction, then runs the listing
  loop in `ListMonths`.
- The month count, the page length and the two button conditions are
  functions.

`wrappers.dfy` holds `Option` and `Outcome`.

## Model

| member | source | states |
|---|---|---|
| CalendarMonth.MonthName | addon/components/calendar-month.js:30-32 | Returns a name exactly for months 0..11, and that name is the month's entry in the name table. |
| CalendarMonth.MonthNamesDistinct | addon/components/calendar-month.js:13 | Different months get different names. |
| CalendarMonth.NumberOfDaysInMonth | addon/components/calendar-month.js:65-67 | The month has 28 days iff it is February of a common year and 29 iff February of a leap year. It has 30 days iff it is April, June, September or November, and 31 otherwise. |
| Gregorian.DaysInMonth | addon/components/calendar-month.js:65-67 | A month has 28 to 31 days. |
| Gregorian.DaysInMonthClosedForm | addon/components/calendar-month.js:65-67 | The month table agrees with a closed form. February has 29 days in leap years (divisible by 4 and not by 100, or by 400) and 28 otherwise. Any other month has 31 - (month % 7) % 2 days. |
| CalendarMonth.WeekCount | addon/components/calendar-month.js:69-79 | The count is the number of step days (1st, 8th, 15th, ...) inside the month. It is 4 exactly for a common-year February and 5 otherwise. |
| CalendarMonth.NumberOfWeeksInMonth | addon/components/calendar-month.js:69-79 | The week-stepping loop terminates and returns WeekCount. |
| CalendarMonth.FirstMondayOfMonth | addon/components/calendar-month.js:56-63 | The result is the earliest day from the 1st on whose weekday is 0. It is one of days 1..7 of the same month, with those calendar fields. |
| CalendarMonth.NextWeekStart | addon/components/calendar-month.js:58-60 | The day-stepping loop stops within 6 steps, on a weekday 0, with no weekday 0 before it. |
| CalendarMonth.FirstMondayFromStartOfWeek | addon/components/calendar-month.js:51-63 | The search takes (7 - weekday of the 1st) % 7 steps. It lands on startOf('week') of the 1st iff the 1st is a week start, and one week later otherwise. |
| CalendarMonth.DisplayWeeks | addon/components/calendar-month.js:81-101 | There are NumberOfWeeksInMonth rows of exactly 7 cells. Cell (w, d) is the cell of day startOfWeek(1st) + 7w + d. |
| CalendarMonth.GridRows | addon/components/calendar-month.js:87-98 | The nested loops emit `count` rows of 7 cells. Each cell is the cell of the day its position reaches from the start. |
| CalendarMonth.Cell | addon/components/calendar-month.js:90-94 | `DisplayDate.create`: the day of the month, whether that number is in selectedDays, and whether the day's month number is the grid's month. It has no contract of its own; CellMembership states what the tags mean. |
| CalendarMonth.GridDay | addon/components/calendar-month.js:85-95 | The day of cell k: `startOf('week')` of the 1st, then k steps of `add(1, 'days')`. It has no contract of its own; GridWeekdays, GridConsecutive and CellMembership describe it. |
| CalendarMonth.GridWeekdays | addon/components/calendar-month.js:84-95 | Cell k falls on weekday k % 7, so cell (0,0) has weekday 0. |
| CalendarMonth.GridConsecutive | addon/components/calendar-month.js:84-95 | A later cell holds a strictly later calendar date, so there is no repeat. That cells k and j are k - j days apart holds by the definition of GridDay; with it, there is no gap. |
| CalendarMonth.CellMembership | addon/components/calendar-month.js:85-93 | `isThisMonth` holds iff the cell lies after the Weekday(1st) leading filler cells and within the month's length. Such a cell shows its day of the month. `isSelected` holds iff the shown day number is listed, whatever the month. |
| CalendarMonth.NoLeadingFillerOnWeekStart | addon/components/calendar-month.js:85-93 | When the 1st is a week start, cell (0,0) is the 1st of the month. |
| CalendarMonth.DrawnDays | addon/components/calendar-month.js:84-98 | A day of the month is drawn iff its day plus the weekday of the 1st is at most 7 * WeekCount. |
| CalendarMonth.LastDayDrawn | addon/components/calendar-month.js:69-98 | The month's last day is drawn exactly for a 28-day month whose 1st is a week start, any 29-day month, a 30-day month whose 1st has weekday 0..5, and a 31-day month whose 1st has weekday 0..4. For example, February 2017 with Monday weeks starts on weekday 2 and loses 27 and 28 February. |
| CalendarMonth.AdjacentGridsAlign | addon/components/calendar-month.js:84-98 | The next month's grid starts where this grid's rows end, or one week earlier. |
| Gregorian.Civil | addon/components/calendar-month.js:91-93 | The fields read from a day (`date()`, `month()`, `year()`) form a valid date whose day number is that day. |
| Gregorian.CivilOfDayNumber | addon/components/calendar-month.js:91-93 | Reading the fields of a valid date's day number returns that date. |
| Gregorian.FirstOfMonth | addon/components/calendar-month.js:46-48 | `canonicalFirstDayOfMonth`: the day number of the 1st of (year, month). It has no contract of its own; OffsetWithinMonth, OffsetBeforeMonth and OffsetAfterMonth prove which month and day its neighbours fall on. |
| Gregorian.FirstOfMonthIndex | addon/components/calendar-month-multi.js:155 | The 1st of the month at a month position (such as the month after the current one) is a valid date, on day 1, at that position. |
| Gregorian.OffsetWithinMonth | addon/components/calendar-month.js:84-95 | Counting j days on from the 1st, for j below the month's length, reaches day j + 1 of the same month. |
| Gregorian.OffsetBeforeMonth | addon/components/calendar-month.js:84-95 | Up to four weeks before the 1st lie in the previous month. |
| Gregorian.OffsetAfterMonth | addon/components/calendar-month.js:84-95 | Up to four weeks past the month's last day lie in the next month, on the day counted from its 1st. |
| Gregorian.IsLeapYear | addon/components/calendar-month.js:66 | The leap-year rule behind `daysInMonth()`: divisible by 4 and not by 100, or divisible by 400. It has no contract of its own; NumberOfDaysInMonth and DaysInMonthClosedForm tie February's length to it. |
| Gregorian.StartOfMonth | addon/components/calendar-month-multi.js:155 | `startOf('month')` is the 1st of the same month, and the day lies in that month's days. |
| Gregorian.EndOfMonth | addon/components/calendar-month-multi.js:193 | `endOf('month')` is the month's last day, its length minus one after the 1st. |
| Gregorian.AddMonths | addon/components/calendar-month-multi.js:152 | Moves k positions on the month line and keeps the day of the month, clamped to the target month's length. |
| Gregorian.AddMonthsZero | addon/components/calendar-month-multi.js:152 | Adding zero months changes nothing. |
| Gregorian.MonthOrder | addon/components/calendar-month-multi.js:178-195 | A day in an earlier month comes earlier. |
| Gregorian.EarlierIsLexicographic | addon/components/calendar-month-multi.js:118 | Day numbers are ordered exactly as their calendar dates are, lexicographically. |
| Gregorian.StartOfWeek | addon/components/calendar-month.js:85 | `startOf('week')` has weekday 0 and lies within the six days before the day. |
| Gregorian.StartOfWeekUnique | addon/components/calendar-month.js:85 | It is the only weekday-0 day among the day and the six before it. |
| Gregorian.SameWeekRange | addon/components/calendar-month-multi.js:156 | Two days are in the same week iff the second lies in the seven days from the first's week start. |
| Gregorian.Weekday | addon/components/calendar-month.js:58 | The locale `weekday()`, always in 0..6. WeekdayFromWeekStart ties it to the absolute day of the week and WeekdayShift to moving by days. |
| Gregorian.SameWeek | addon/components/calendar-month-multi.js:156 | `isSame(.., 'week')`: both days have the same week start. It has no contract of its own; SameWeekRange characterises it. |
| Gregorian.WeekdayFromWeekStart | addon/components/calendar-month.js:58 | The locale weekday plus the week start is the absolute day of the week, mod 7. |
| CalendarMonthMulti.CheckRange | addon/components/calendar-month-multi.js:117-120 | Fails iff the end date is strictly before the start date in calendar order, and then carries the source's message. |
| CalendarMonthMulti.CheckRangeReflexive | addon/components/calendar-month-multi.js:117-120 | Equal dates are accepted. |
| CalendarMonthMulti.CalendarMonthMulti.ReceiveAttrs | addon/components/calendar-month-multi.js:99-121 | Stores the new range and reports the ordering check. Page size and offset are unchanged. The component is valid iff the check passed. |
| CalendarMonthMulti.CalendarMonthMulti.Previous | addon/components/calendar-month-multi.js:124-127 | The offset decreases by exactly maxMonthsToShow, with no clamping. Nothing else changes. |
| CalendarMonthMulti.CalendarMonthMulti.Next | addon/components/calendar-month-multi.js:129-132 | The offset increases by exactly maxMonthsToShow, with no clamping. Nothing else changes. |
| CalendarMonthMulti.CalendarMonthMulti.NextThenPrevious | addon/components/calendar-month-multi.js:124-132 | Next followed by previous restores the offset. |
| CalendarMonthMulti.MonthsBetween | addon/components/calendar-month-multi.js:201-205 | A non-negative whole-month count. That many months after the start is not after the end, and the count is the month-position difference or one less. |
| CalendarMonthMulti.MonthsBetweenIsLargest | addon/components/calendar-month-multi.js:201-205 | Any larger shift lands after the end, so the count is the largest such m. |
| CalendarMonthMulti.MonthsBetweenSameMonth | addon/components/calendar-month-multi.js:201-205 | A range within one calendar month spans zero whole months. |
| CalendarMonthMulti.NumberOfMonthsToDisplay | addon/components/calendar-month-multi.js:211-220 | The page length is difference + 1 while that stays within the maximum, the maximum when the difference exceeds it, and maximum + 1 when they are equal. For a valid range it is between 1 and maximum + 1. |
| CalendarMonthMulti.PageOverflowsOnlyAtMax | addon/components/calendar-month-multi.js:215-219 | The page exceeds maxMonthsToShow iff the difference equals it. |
| CalendarMonthMulti.FirstOfNextMonth | addon/components/calendar-month-multi.js:155 | `clone().add(1, 'month').startOf('month')`. It has no contract of its own; FirstOfNextMonthIs states what it is. |
| CalendarMonthMulti.FirstOfNextMonthIs | addon/components/calendar-month-multi.js:155 | The 1st of the next month is the day after this month's last day, one month position later, on day 1. |
| CalendarMonthMulti.CorrectedStart | addon/components/calendar-month-multi.js:152-158 | The page start is the shifted start or exactly one week after it. |
| CalendarMonthMulti.CorrectionMovesToNextMonth | addon/components/calendar-month-multi.js:152-158 | The week is added iff the week start of the next month's 1st is on or before the shifted start. The corrected day is then in the next month, on day 2..7. |
| CalendarMonthMulti.CorrectedStartMonth | addon/components/calendar-month-multi.js:152-158 | The page's first month is monthOffset months after the start's month, or one more. |
| CalendarMonthMulti.PageAdvance | addon/components/calendar-month-multi.js:124-158 | One step of paging moves the first month by maxMonthsToShow, plus or minus one. |
| CalendarMonthMulti.LastDayOnWeekStart | addon/components/calendar-month-multi.js:154-158 | When a month's last day is a week start, a page starting there begins with the next month, on its 7th. |
| CalendarMonthMulti.JulyThirtyFirstIsMonday | addon/components/calendar-month-multi.js:154 | 31 July 2017 is day 17378, a Monday. |
| CalendarMonthMulti.JulyThirtyFirstStartsInAugust | addon/components/calendar-month-multi.js:154-158 | With Monday weeks, a page starting on 31 July 2017 starts on 7 August 2017 and lists August first. |
| CalendarMonthMulti.PlannedMonths | addon/components/calendar-month-multi.js:160-168 | The planned page has exactly `count` entries. |
| CalendarMonthMulti.PlannedMonthsShape | addon/components/calendar-month-multi.js:160-168 | The first entry is the start's month and year. Months are in 0..11. Each entry is the calendar month after the previous one, wrapping December to January of the next year. Only the last entry has showLastPartialWeek. |
| CalendarMonthMulti.ListMonths | addon/components/calendar-month-multi.js:160-168 | The listing loop produces the planned months. |
| CalendarMonthMulti.CalendarMonthMulti.PageLength | addon/components/calendar-month-multi.js:211-213 | The `numberOfMonthsToDisplay` property, fed with the whole-month count of the stored range. It is between 1 and maxMonthsToShow + 1. |
| CalendarMonthMulti.CalendarMonthMulti.constructor | addon/components/calendar-month-multi.js:97 | Stores the range, page size and week start, and starts at the `monthOffset: 0` default. |
| CalendarMonthMulti.CalendarMonthMulti.DisplayMonths | addon/components/calendar-month-multi.js:150-171 | The page is the planned list from the corrected start, with PageLength entries. |
| CalendarMonthMulti.ShouldShowPreviousButton | addon/components/calendar-month-multi.js:178-183 | The button shows iff the 1st of the first listed month is after the start day, which holds iff that month is later than the start's month. |
| CalendarMonthMulti.ShouldShowNextButton | addon/components/calendar-month-multi.js:190-195 | The button shows iff the last day of the last listed month is before the end day, which holds iff that month is earlier than the end's month. |
| CalendarMonthMulti.FirstPagePreviousButton | addon/components/calendar-month-multi.js:152-183 | On the first page the previous button shows iff the week correction moved the start. |
| CalendarMonthMulti.NextButtonBeyondPage | addon/components/calendar-month-multi.js:160-195 | The next button shows iff the end day's month lies beyond the page's last month. |

## Left out

- Ember plumbing is not modelled: layouts, class names, templates, `computed`/`on` dependency keys and `Ember.Object` creation. This includes the misspelled dependency key of `firstMondayOfMonth`, which only affects when Ember recomputes the value.
- Conversion and validity checks of incoming dates (calendar-month-multi.js:101-115) are left out, because they belong to the date library. Dates enter the model as day numbers, which are always valid.
- Time of day is dropped: both range ends enter the model as whole days (midnight). The comparisons at calendar-month-multi.js:156, :182 and :194 involve a value that `startOf`/`endOf` reduced to whole days, so day granularity decides them the same way. The "now" that seeds the button dates (calendar-month-multi.js:181, :193) is overwritten by the month and year, so it does not matter.
- The locale's first day of the week is a parameter, `weekStart`, not a locale lookup.
- CalendarMonthMulti.CheckRange: with a time of day the source's `isBefore` at calendar-month-multi.js:118 compares milliseconds, so an end earlier in the same day than the start is refused there but accepted here.
- CalendarMonthMulti.MonthsBetween: with a time of day the source's `diff` at calendar-month-multi.js:204 can count one month fewer, as from the 15th at 10:00 to the 15th of the next month at 09:00; the model counts whole days.
- CalendarMonthMulti.MonthsBetween: the date library's fractional `diff(.., 'months')` is not available. The count is defined as the largest m with AddMonths(start, m) <= end.
- CalendarMonthMulti.MonthsBetween: requires the start not after the end. The source computes the difference only after the ordering check has passed.
- `customClassFunction` (calendar-month-multi.js:140-142) is a caller hook that the component never calls.
- Display-only constants are not modelled: weekday names, CSS class names and the `show*` flags.
- `addObject` and `push` are modelled as appending to a sequence. `addObject` de-duplicates by object identity, and every `Month.create` (calendar-month-multi.js:161) makes a new object, so the de-duplication never applies.
- CalendarMonthMulti.CalendarMonthMulti.DisplayMonths: requires maxMonthsToShow >= 1 and an accepted range (Valid). With a smaller page size the source lists no month or a single one.
- CalendarMonthMulti.ShouldShowPreviousButton: requires a non-empty page with a month in 0..11. On an empty page the source reads properties of an absent first entry.
- CalendarMonthMulti.ShouldShowNextButton: requires a non-empty page with a month in 0..11. On an empty page the source reads properties of an absent last entry.
- The doc comments of the multi-month component call the month 1-indexed, but the code stores the 0-indexed `current.month()`. The model follows the code.
- Months outside 0..11 given to the single-month component are not modelled: the month model requires 0..11. The library would roll such a month over into another year.
- Cells compare only the month number for `isThisMonth`, as the source does. A cell of the same month in another year cannot occur, because a grid spans at most five weeks.
