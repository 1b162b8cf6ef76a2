/** The multi-month calendar: between a start and an end day it lists a
    page of consecutive months, pages through the range by a fixed number
    of months, and decides whether the previous and next buttons appear.
    Days are day numbers (see module Gregorian); `weekStart` is the locale's
    first day of the week (0 = Sunday, 1 = Monday, ...). */
module CalendarMonthMulti {
  import opened Gregorian
  import opened Wrappers

  /** One month of the page: 0-indexed month, year, and whether it is the
      page's last month. */
  datatype MonthEntry = MonthEntry(month: int, year: int, showLastPartialWeek: bool)

  const RangeError := "Start date must be before end date"

  /** The ordering check on the range: an end day before the start day is
      refused; equal days are accepted. */
  function CheckRange(startDate: int, endDate: int): (r: Outcome<string>)
    ensures r.Fail? <==> LexLess(Civil(endDate), Civil(startDate))
    ensures r.Fail? ==> r.error == RangeError
  {
    EarlierIsLexicographic(endDate, startDate);
    if endDate < startDate then Fail(RangeError) else Pass
  }

  /** No day is refused against itself. */
  lemma CheckRangeReflexive(day: int)
    ensures CheckRange(day, day) == Pass
  {
  }

  /** Whole calendar months from `startDate` to `endDate`: that many months
      after the start is still not after the end, and it is the difference
      of the month positions or one less. */
  function MonthsBetween(startDate: int, endDate: int): (r: nat)
    requires startDate <= endDate
    ensures AddMonths(startDate, r) <= endDate
    ensures r <= MonthOf(endDate) - MonthOf(startDate) <= r + 1
  {
    var w := MonthOf(endDate) - MonthOf(startDate);
    MonthsBetweenCases(startDate, endDate, w);
    if AddMonths(startDate, w) <= endDate then w else w - 1
  }

  /** The month difference is not negative, and when shifting by it
      overshoots the end, shifting by one month less does not. */
  lemma MonthsBetweenCases(startDate: int, endDate: int, w: int)
    requires startDate <= endDate && w == MonthOf(endDate) - MonthOf(startDate)
    ensures 0 <= w
    ensures AddMonths(startDate, w) > endDate ==> 1 <= w && AddMonths(startDate, w - 1) <= endDate
  {
    MonthOfMonotone(startDate, endDate);
    AddMonthsZero(startDate);
    if AddMonths(startDate, w) > endDate {
      ShiftIntoEarlierMonth(startDate, w - 1, endDate);
    }
  }

  /** Shifting into a month before the month of `endDate` lands before it. */
  lemma ShiftIntoEarlierMonth(startDate: int, k: int, endDate: int)
    requires MonthOf(startDate) + k < MonthOf(endDate)
    ensures AddMonths(startDate, k) < endDate
  {
    MonthOrder(AddMonths(startDate, k), endDate);
  }

  /** The count is the largest m for which m months after the start is not
      after the end. */
  lemma MonthsBetweenIsLargest(startDate: int, endDate: int, m: int)
    requires startDate <= endDate && m > MonthsBetween(startDate, endDate)
    ensures AddMonths(startDate, m) > endDate
  {
    if m > MonthOf(endDate) - MonthOf(startDate) {
      ShiftIntoLaterMonth(startDate, m, endDate);
    }
  }

  /** Shifting into a month after the month of `endDate` lands after it. */
  lemma ShiftIntoLaterMonth(startDate: int, k: int, endDate: int)
    requires MonthOf(endDate) < MonthOf(startDate) + k
    ensures endDate < AddMonths(startDate, k)
  {
    MonthOrder(endDate, AddMonths(startDate, k));
  }

  /** A range inside one calendar month spans no whole month. */
  lemma MonthsBetweenSameMonth(startDate: int, endDate: int)
    requires startDate <= endDate && MonthOf(startDate) == MonthOf(endDate)
    ensures MonthsBetween(startDate, endDate) == 0
  {
  }

  /** How many months one page shows: the months of the range when there
      are at most `maxMonthsToShow` whole months between its ends, else a
      full page. */
  function NumberOfMonthsToDisplay(monthsBetween: int, maxMonthsToShow: int): (r: int)
    ensures r == (if monthsBetween == maxMonthsToShow then maxMonthsToShow + 1
                  else if monthsBetween + 1 < maxMonthsToShow then monthsBetween + 1
                  else maxMonthsToShow)
    ensures 0 <= monthsBetween && 1 <= maxMonthsToShow ==> 1 <= r <= maxMonthsToShow + 1
  {
    if monthsBetween > maxMonthsToShow then maxMonthsToShow else monthsBetween + 1
  }

  /** The page shows one month more than `maxMonthsToShow` exactly when the
      range spans exactly that many whole months. */
  lemma PageOverflowsOnlyAtMax(monthsBetween: int, maxMonthsToShow: int)
    ensures NumberOfMonthsToDisplay(monthsBetween, maxMonthsToShow) > maxMonthsToShow
      <==> monthsBetween == maxMonthsToShow
  {
  }

  // ---------------------------------------------------------------------
  // The first month of the page

  /** The 1st of the month after day `n`'s month. */
  function FirstOfNextMonth(n: int): int {
    StartOfMonth(AddMonths(n, 1))
  }

  lemma FirstOfNextMonthIs(n: int)
    ensures FirstOfNextMonth(n) == EndOfMonth(n) + 1
    ensures MonthOf(FirstOfNextMonth(n)) == MonthOf(n) + 1
    ensures Civil(FirstOfNextMonth(n)).day == 1
  {
    var d := Civil(n);
    var x := Civil(AddMonths(n, 1));
    MonthIndexDecode(x.year, x.month);
    assert FirstOfMonthIndex(MonthOf(n) + 1) == Date(x.year, x.month, 1);
    NextMonthStart(d.year, d.month);
  }

  /** The page's first day: `monthOffset` months after the start, moved on
      by one week when it shares a week with the 1st of the following
      month (that week is drawn as part of the following month). */
  function CorrectedStart(startDate: int, monthOffset: int, weekStart: int): (r: int)
    requires 0 <= weekStart < 7
    ensures r == AddMonths(startDate, monthOffset) || r == AddMonths(startDate, monthOffset) + 7
  {
    var current := AddMonths(startDate, monthOffset);
    var firstOfNextMonth := FirstOfNextMonth(current);
    if SameWeek(current, firstOfNextMonth, weekStart) then current + 7 else current
  }

  /** The correction fires exactly when the shifted start lies in the week
      of the next month's 1st; it then lands on day 2..7 of that month. */
  lemma CorrectionMovesToNextMonth(startDate: int, monthOffset: int, weekStart: int)
    requires 0 <= weekStart < 7
    ensures var current := AddMonths(startDate, monthOffset);
      var r := CorrectedStart(startDate, monthOffset, weekStart);
      (r != current <==> StartOfWeek(FirstOfNextMonth(current), weekStart) <= current)
      && (r != current ==> MonthOf(r) == MonthOf(current) + 1 && 2 <= Civil(r).day <= 7)
  {
    var current := AddMonths(startDate, monthOffset);
    var next := FirstOfNextMonth(current);
    FirstOfNextMonthIs(current);
    SameWeekRange(next, current, weekStart);
    if SameWeek(current, next, weekStart) {
      EarlyInMonth(next, current + 7);
    }
  }

  /** The page's first month is the month `monthOffset` months after the
      start's month, or the one after it when the correction fires. */
  lemma CorrectedStartMonth(startDate: int, monthOffset: int, weekStart: int)
    requires 0 <= weekStart < 7
    ensures var k := MonthOf(CorrectedStart(startDate, monthOffset, weekStart)) - MonthOf(startDate) - monthOffset;
      k == 0 || k == 1
  {
    CorrectionMovesToNextMonth(startDate, monthOffset, weekStart);
  }

  /** Paging moves the first month of the page by `maxMonthsToShow`, give or
      take one month for the week correction on either page. */
  lemma PageAdvance(startDate: int, monthOffset: int, nextOffset: int, maxMonthsToShow: int, weekStart: int)
    requires 0 <= weekStart < 7 && nextOffset == monthOffset + maxMonthsToShow
    ensures var here := MonthOf(CorrectedStart(startDate, monthOffset, weekStart));
      var there := MonthOf(CorrectedStart(startDate, nextOffset, weekStart));
      maxMonthsToShow - 1 <= there - here <= maxMonthsToShow + 1
  {
    CorrectedStartMonth(startDate, monthOffset, weekStart);
    CorrectedStartMonth(startDate, nextOffset, weekStart);
  }

  // ---------------------------------------------------------------------
  // The months of the page

  /** `count` consecutive calendar months from the month of day `first`;
      only the last one is flagged. */
  function PlannedMonths(first: int, count: nat): (r: seq<MonthEntry>)
    ensures |r| == count
  {
    seq(count, i => MonthEntry((MonthOf(first) + i) % 12, (MonthOf(first) + i) / 12, i == count - 1))
  }

  /** The calendar month after (month, year), wrapping December into January. */
  function FollowingMonth(e: MonthEntry): (int, int) {
    if e.month == 11 then (0, e.year + 1) else (e.month + 1, e.year)
  }

  /** The page starts at the month of `first`, each entry follows the previous
      one in the calendar, and only the last entry is flagged. */
  lemma PlannedMonthsShape(first: int, count: nat)
    ensures var r := PlannedMonths(first, count);
      (count > 0 ==> r[0].month == Civil(first).month && r[0].year == Civil(first).year)
      && (forall i :: 0 <= i < count ==> 0 <= r[i].month < 12)
      && (forall i :: 0 <= i < count - 1 ==> FollowingMonth(r[i]) == (r[i + 1].month, r[i + 1].year))
      && (forall i :: 0 <= i < count ==> (r[i].showLastPartialWeek <==> i == count - 1))
  {
    var r := PlannedMonths(first, count);
    MonthIndexDecode(Civil(first).year, Civil(first).month);
    forall i | 0 <= i < count - 1
      ensures FollowingMonth(r[i]) == (r[i + 1].month, r[i + 1].year)
    {
      var k := MonthOf(first) + i;
      FollowingIndex(k, k + 1, i == count - 1);
    }
  }

  /** The entry for month position `k` is followed by the one for `k + 1`. */
  lemma FollowingIndex(k: int, k1: int, flag: bool)
    requires k1 == k + 1
    ensures FollowingMonth(MonthEntry(k % 12, k / 12, flag)) == (k1 % 12, k1 / 12)
  {
    MonthIndexDecode(k / 12, k % 12);
    if k % 12 == 11 {
      MonthIndexDecode(k / 12 + 1, 0);
    } else {
      MonthIndexDecode(k / 12, k % 12 + 1);
    }
  }

  /** The loop of the page listing: one entry per month from day `first`,
      stepping one calendar month (`add(1, 'month')`) at a time. */
  method ListMonths(first: int, count: nat) returns (months: seq<MonthEntry>)
    ensures months == PlannedMonths(first, count)
  {
    var current := first;
    months := [];
    for i := 0 to count
      invariant MonthOf(current) == MonthOf(first) + i
      invariant |months| == i
      invariant forall j :: 0 <= j < i ==> months[j] == PlannedMonths(first, count)[j]
    {
      var date := Civil(current);
      MonthIndexDecode(date.year, date.month);
      months := months + [MonthEntry(date.month, date.year, i == count - 1)];
      current := AddMonths(current, 1);
    }
  }

  /** The previous button appears when the page's first month starts after
      the start day (`isAfter` of its 1st). */
  function ShouldShowPreviousButton(months: seq<MonthEntry>, startDate: int): (r: bool)
    requires |months| > 0 && 0 <= months[0].month < 12
    ensures r <==> MonthOf(startDate) < MonthIndex(Date(months[0].year, months[0].month, 1))
  {
    BeforeFirstOfMonth(startDate, months[0].year, months[0].month);
    FirstOfMonth(months[0].year, months[0].month) > startDate
  }

  /** The next button appears when the page's last month ends before the
      end day (`isBefore` of its last day). */
  function ShouldShowNextButton(months: seq<MonthEntry>, endDate: int): (r: bool)
    requires |months| > 0 && 0 <= months[|months| - 1].month < 12
    ensures r <==> MonthIndex(Date(months[|months| - 1].year, months[|months| - 1].month, 1)) < MonthOf(endDate)
  {
    var m := months[|months| - 1];
    AfterLastOfMonth(endDate, m.year, m.month);
    FirstOfMonth(m.year, m.month) + DaysInMonth(m.year, m.month) - 1 < endDate
  }

  /** On the first page the previous button appears exactly when the week
      correction moved the start into the next month. */
  lemma FirstPagePreviousButton(startDate: int, count: nat, weekStart: int)
    requires 0 <= weekStart < 7 && count > 0
    ensures var c := CorrectedStart(startDate, 0, weekStart);
      ShouldShowPreviousButton(PlannedMonths(c, count), startDate) <==> c != startDate
  {
    var c := CorrectedStart(startDate, 0, weekStart);
    PlannedMonthsShape(c, count);
    AddMonthsZero(startDate);
    CorrectionMovesToNextMonth(startDate, 0, weekStart);
  }

  /** The next button appears exactly when the end day lies beyond the
      page's last month. */
  lemma NextButtonBeyondPage(first: int, count: nat, endDate: int)
    requires count > 0
    ensures ShouldShowNextButton(PlannedMonths(first, count), endDate) <==> MonthOf(first) + count - 1 < MonthOf(endDate)
  {
    PlannedMonthsShape(first, count);
    var k := MonthOf(first) + count - 1;
    MonthIndexDecode(k / 12, k % 12);
  }

  /** When a month's last day is a week start, the next month's 1st falls
      in that week, so a page starting on that last day begins with the next
      month, on its 7th. */
  lemma LastDayOnWeekStart(n: int, weekStart: int)
    requires 0 <= weekStart < 7 && Weekday(n, weekStart) == 0
    requires Civil(n).day == DaysInMonth(Civil(n).year, Civil(n).month)
    ensures var r := CorrectedStart(n, 0, weekStart);
      r == n + 7 && MonthOf(r) == MonthOf(n) + 1 && Civil(r).day == 7
  {
    var next := FirstOfNextMonth(n);
    FirstOfNextMonthIs(n);
    EndOfMonthOnLastDay(n);
    AddMonthsZero(n);
    WeekStartBeforeFirst(n, next, weekStart);
    CorrectionMovesToNextMonth(n, 0, weekStart);
    EarlyInMonth(next, n + 7);
  }

  /** A week start on the eve of a 1st begins the week of that 1st. */
  lemma WeekStartBeforeFirst(n: int, next: int, weekStart: int)
    requires 0 <= weekStart < 7 && Weekday(n, weekStart) == 0 && next == n + 1
    ensures SameWeek(n, next, weekStart)
  {
    WeekdayShift(n, 1, weekStart);
  }

  /** 1 January 2017 is day 17167. */
  lemma StartOf2017()
    ensures DaysBeforeYear(2017) == 17167
  {
    DaysBeforeYearClosedForm(2017);
  }

  /** 31 July 2017 is day 17378, a Monday. */
  lemma JulyThirtyFirstIsMonday(july31: int)
    requires july31 == DayNumber(Date(2017, 6, 31))
    ensures july31 == 17378 && Weekday(july31, 1) == 0
  {
    StartOf2017();
  }

  /** With weeks starting on Monday, a page starting on 31 July 2017 begins
      with August, on the 7th. */
  lemma JulyThirtyFirstStartsInAugust(july31: int)
    requires july31 == DayNumber(Date(2017, 6, 31))
    ensures var r := CorrectedStart(july31, 0, 1);
      r == july31 + 7 && Civil(r) == Date(2017, 7, 7)
      && PlannedMonths(r, 1) == [MonthEntry(7, 2017, true)]
  {
    var r := CorrectedStart(july31, 0, 1);
    JulyPageStart(july31);
    MonthOfDecode(r, 2017, 7);
    PlannedMonthsOne(r);
  }

  lemma PlannedMonthsOne(first: int)
    ensures PlannedMonths(first, 1) == [MonthEntry(MonthOf(first) % 12, MonthOf(first) / 12, true)]
  {
  }

  lemma JulyPageStart(july31: int)
    requires july31 == DayNumber(Date(2017, 6, 31))
    ensures var r := CorrectedStart(july31, 0, 1);
      r == july31 + 7 && MonthOf(r) == 2017 * 12 + 7 && Civil(r).day == 7
  {
    JulyThirtyFirstIsMonday(july31);
    JulyThirtyFirstFields(july31);
    LastDayOnWeekStart(july31, 1);
  }

  lemma JulyThirtyFirstFields(july31: int)
    requires july31 == DayNumber(Date(2017, 6, 31))
    ensures Civil(july31) == Date(2017, 6, 31)
  {
    CivilOfDayNumber(Date(2017, 6, 31));
  }

  // ---------------------------------------------------------------------
  // The component

  class CalendarMonthMulti {
    var startDate: int
    var endDate: int
    var maxMonthsToShow: int
    var monthOffset: int
    const weekStart: int

    /** What the page computations need: a week start, a positive page size
        and a range that passed the ordering check. */
    predicate Valid()
      reads this
    {
      0 <= weekStart < 7 && 1 <= maxMonthsToShow && startDate <= endDate
    }

    constructor (startDate: int, endDate: int, maxMonthsToShow: int, weekStart: int)
      ensures this.startDate == startDate && this.endDate == endDate
      ensures this.maxMonthsToShow == maxMonthsToShow && this.weekStart == weekStart
      ensures monthOffset == 0
    {
      this.startDate := startDate;
      this.endDate := endDate;
      this.maxMonthsToShow := maxMonthsToShow;
      this.monthOffset := 0;
      this.weekStart := weekStart;
    }

    /** New range attributes arrive and are checked; the page offset is kept. */
    method ReceiveAttrs(newStart: int, newEnd: int) returns (outcome: Outcome<string>)
      modifies this
      ensures startDate == newStart && endDate == newEnd
      ensures maxMonthsToShow == old(maxMonthsToShow) && monthOffset == old(monthOffset)
      ensures outcome == CheckRange(newStart, newEnd)
      ensures 0 <= weekStart < 7 && 1 <= maxMonthsToShow ==> (Valid() <==> outcome.Pass?)
    {
      startDate := newStart;
      endDate := newEnd;
      if endDate < startDate {
        outcome := Fail(RangeError);
      } else {
        outcome := Pass;
      }
    }

    method Previous()
      modifies this`monthOffset
      ensures monthOffset == old(monthOffset) - maxMonthsToShow
    {
      monthOffset := monthOffset - maxMonthsToShow;
    }

    method Next()
      modifies this`monthOffset
      ensures monthOffset == old(monthOffset) + maxMonthsToShow
    {
      monthOffset := monthOffset + maxMonthsToShow;
    }

    /** Paging forward and back again returns to the same page. */
    method NextThenPrevious()
      modifies this`monthOffset
      ensures monthOffset == old(monthOffset)
    {
      Next();
      Previous();
    }

    /** The number of months on a page. */
    function PageLength(): (r: nat)
      reads this
      requires Valid()
      ensures 1 <= r <= maxMonthsToShow + 1
    {
      NumberOfMonthsToDisplay(MonthsBetween(startDate, endDate), maxMonthsToShow)
    }

    /** Lists the page: from the corrected start, one entry per month, moving
        one calendar month at a time. */
    method DisplayMonths() returns (months: seq<MonthEntry>)
      requires Valid()
      ensures months == PlannedMonths(CorrectedStart(startDate, monthOffset, weekStart), PageLength())
    {
      var current := AddMonths(startDate, monthOffset);
      var firstOfNextMonth := FirstOfNextMonth(current);
      if SameWeek(current, firstOfNextMonth, weekStart) {
        current := current + 7;
      }
      months := ListMonths(current, PageLength());
    }
  }
}
