/** The single-month calendar: for a year and a 0-indexed month it names
    the month, counts the rows to draw, finds the first week-start day of
    the month and builds the rows of day cells. `weekStart` is the day of
    the week (0 = Sunday, 1 = Monday, ...) on which the locale's weeks
    begin; days are day numbers (see module Gregorian). */
module CalendarMonth {
  import opened Gregorian
  import opened Wrappers

  const MonthNames: seq<string> := [
    "January", "February", "March", "April", "May", "June",
    "July", "August", "September", "October", "November", "December"
  ]

  /** The month's display name; an index outside the table has none. */
  function MonthName(month: int): (r: Option<string>)
    ensures r.Some? <==> 0 <= month < 12
    ensures r.Some? ==> r.value == MonthNames[month]
  {
    if 0 <= month < |MonthNames| then Some(MonthNames[month]) else None
  }

  /** The names are pairwise different, so a name identifies its month. */
  lemma MonthNamesDistinct(i: int, j: int)
    requires 0 <= i < 12 && 0 <= j < 12 && i != j
    ensures MonthName(i) != MonthName(j)
  {
  }

  /** The month has 28 days exactly when it is February of a common year,
      29 when it is February of a leap year, and otherwise 30 or 31 as the
      month table says. */
  lemma NumberOfDaysInMonth(year: int, month: int)
    requires 0 <= month < 12
    ensures DaysInMonth(year, month) == 28 <==> month == 1 && !IsLeapYear(year)
    ensures DaysInMonth(year, month) == 29 <==> month == 1 && IsLeapYear(year)
    ensures DaysInMonth(year, month) == 30 <==> month in {3, 5, 8, 10}
    ensures DaysInMonth(year, month) == 31 <==> month in {0, 2, 4, 6, 7, 9, 11}
  {
  }

  /** Number of rows of the month: the days 1, 8, 15, ... reached from the
      1st by whole weeks without leaving the month. */
  function WeekCount(year: int, month: int): (r: int)
    requires 0 <= month < 12
    ensures forall k :: 0 <= k < r ==> 1 + 7 * k <= DaysInMonth(year, month)
    ensures 1 + 7 * r > DaysInMonth(year, month)
    ensures r == 4 <==> month == 1 && !IsLeapYear(year)
    ensures r == 4 || r == 5
  {
    if DaysInMonth(year, month) == 28 then 4 else 5
  }

  /** Walks from the 1st in steps of one week while still inside the month. */
  method NumberOfWeeksInMonth(year: int, month: int) returns (numWeeks: int)
    requires 0 <= month < 12
    ensures numWeeks == WeekCount(year, month)
  {
    var start := FirstOfMonth(year, month);
    var dim := DaysInMonth(year, month);
    var first := start;
    numWeeks := 0;
    while Civil(first).month == month
      invariant 0 <= numWeeks && 7 * (numWeeks - 1) < dim
      invariant first == start + 7 * numWeeks
      decreases dim - 7 * numWeeks
    {
      if 7 * numWeeks >= dim {
        OffsetAfterMonth(year, month, 7 * numWeeks);
        assert false;
      }
      numWeeks := numWeeks + 1;
      first := first + 7;
    }
    if 7 * numWeeks < dim {
      OffsetWithinMonth(year, month, 7 * numWeeks);
      assert false;
    }
  }

  /** The earliest day of the month, from the 1st on, that starts a week. */
  method FirstMondayOfMonth(year: int, month: int, weekStart: int) returns (r: int)
    requires 0 <= month < 12 && 0 <= weekStart < 7
    ensures Civil(r) == Date(year, month, r - FirstOfMonth(year, month) + 1)
    ensures FirstOfMonth(year, month) <= r < FirstOfMonth(year, month) + 7
    ensures Weekday(r, weekStart) == 0
    ensures forall n :: FirstOfMonth(year, month) <= n < r ==> Weekday(n, weekStart) != 0
  {
    r := NextWeekStart(FirstOfMonth(year, month), weekStart);
    FirstWeekOfMonth(year, month, r);
  }

  /** The loop of the search: step a day at a time from `first` until the
      weekday is the locale's first day of the week. */
  method NextWeekStart(first: int, weekStart: int) returns (r: int)
    requires 0 <= weekStart < 7
    ensures first <= r < first + 7 && Weekday(r, weekStart) == 0
    ensures forall n :: first <= n < r ==> Weekday(n, weekStart) != 0
  {
    r := first;
    while Weekday(r, weekStart) != 0
      invariant first <= r <= first + 6
      invariant r - first <= (7 - Weekday(first, weekStart)) % 7
      invariant forall n :: first <= n < r ==> Weekday(n, weekStart) != 0
      decreases first + 6 - r
    {
      WeekdayShift(first, r - first, weekStart);
      r := r + 1;
    }
  }

  /** The first seven days from the 1st are days 1..7 of the month. */
  lemma FirstWeekOfMonth(year: int, month: int, n: int)
    requires 0 <= month < 12 && FirstOfMonth(year, month) <= n < FirstOfMonth(year, month) + 7
    ensures Civil(n) == Date(year, month, n - FirstOfMonth(year, month) + 1)
  {
    OffsetWithinMonth(year, month, n - FirstOfMonth(year, month));
  }

  /** The search lands on the week start of the 1st's week when the 1st is
      itself a week start, and one week after it otherwise; it takes
      (7 - weekday of the 1st) % 7 steps. */
  lemma FirstMondayFromStartOfWeek(year: int, month: int, weekStart: int, r: int)
    requires 0 <= month < 12 && 0 <= weekStart < 7
    requires FirstOfMonth(year, month) <= r < FirstOfMonth(year, month) + 7
    requires Weekday(r, weekStart) == 0
    ensures var first := FirstOfMonth(year, month);
      r - first == (7 - Weekday(first, weekStart)) % 7
      && (r == StartOfWeek(first, weekStart) <==> Weekday(first, weekStart) == 0)
      && (r != StartOfWeek(first, weekStart) ==> r == StartOfWeek(first, weekStart) + 7)
  {
    FirstWeekStartFrom(FirstOfMonth(year, month), r, weekStart);
  }

  // ---------------------------------------------------------------------
  // The grid of day cells

  /** One cell of the grid: day-of-month number, selection and month membership. */
  datatype DisplayDate = DisplayDate(date: int, isSelected: bool, isThisMonth: bool)

  /** The cell drawn for day `n` in the grid of `month`. */
  function Cell(n: int, month: int, selectedDays: seq<int>): DisplayDate {
    DisplayDate(Civil(n).day, Civil(n).day in selectedDays, month == Civil(n).month)
  }

  /** The day in cell number `k` (row k / 7, column k % 7): k days after the
      start of the week that contains the 1st. */
  function GridDay(year: int, month: int, weekStart: int, k: int): int
    requires 0 <= month < 12 && 0 <= weekStart < 7
  {
    StartOfWeek(FirstOfMonth(year, month), weekStart) + k
  }

  /** Emits WeekCount rows of seven consecutive day cells, starting at the
      start of the week that contains the 1st. */
  method DisplayWeeks(year: int, month: int, selectedDays: seq<int>, weekStart: int)
    returns (weeks: seq<seq<DisplayDate>>)
    requires 0 <= month < 12 && 0 <= weekStart < 7
    ensures |weeks| == WeekCount(year, month)
    ensures forall w :: 0 <= w < |weeks| ==> |weeks[w]| == 7
    ensures forall w, d :: 0 <= w < |weeks| && 0 <= d < 7 ==>
      weeks[w][d] == Cell(GridDay(year, month, weekStart, 7 * w + d), month, selectedDays)
  {
    var numberOfWeeks := NumberOfWeeksInMonth(year, month);
    weeks := GridRows(StartOfWeek(FirstOfMonth(year, month), weekStart), numberOfWeeks, month, selectedDays);
  }

  /** The two loops of the grid: `count` rows of seven cells, day by day from `start`. */
  method GridRows(start: int, count: nat, month: int, selectedDays: seq<int>)
    returns (weeks: seq<seq<DisplayDate>>)
    ensures |weeks| == count
    ensures forall w :: 0 <= w < count ==> |weeks[w]| == 7
    ensures forall w, d :: 0 <= w < count && 0 <= d < 7 ==>
      weeks[w][d] == Cell(start + 7 * w + d, month, selectedDays)
  {
    var current := start;
    weeks := [];
    for i := 0 to count
      invariant |weeks| == i
      invariant current == start + 7 * i
      invariant forall w :: 0 <= w < i ==> |weeks[w]| == 7
      invariant forall w, d :: 0 <= w < i && 0 <= d < 7 ==>
        weeks[w][d] == Cell(start + 7 * w + d, month, selectedDays)
    {
      var days: seq<DisplayDate> := [];
      for j := 0 to 7
        invariant |days| == j
        invariant current == start + 7 * i + j
        invariant forall d :: 0 <= d < j ==>
          days[d] == Cell(start + 7 * i + d, month, selectedDays)
      {
        var date := Civil(current);
        days := days + [DisplayDate(date.day, date.day in selectedDays, month == date.month)];
        current := current + 1;
      }
      weeks := weeks + [days];
    }
  }

  // ---------------------------------------------------------------------
  // Properties of the grid

  /** Column d of every row falls on weekday d: the grid starts on the week
      start and advances one day per cell, so cell 0 has weekday 0. */
  lemma GridWeekdays(year: int, month: int, weekStart: int, k: nat)
    requires 0 <= month < 12 && 0 <= weekStart < 7
    ensures Weekday(GridDay(year, month, weekStart, k), weekStart) == k % 7
  {
    WeekdayFromStartOfWeek(FirstOfMonth(year, month), k, weekStart);
  }

  /** Consecutive cells hold consecutive dates: the next cell's date is the
      calendar successor of this cell's date, so there is no gap and no repeat. */
  lemma GridConsecutive(year: int, month: int, weekStart: int, j: int, k: int)
    requires 0 <= month < 12 && 0 <= weekStart < 7
    ensures GridDay(year, month, weekStart, k) - GridDay(year, month, weekStart, j) == k - j
    ensures j < k ==> LexLess(Civil(GridDay(year, month, weekStart, j)), Civil(GridDay(year, month, weekStart, k)))
  {
    EarlierIsLexicographic(GridDay(year, month, weekStart, j), GridDay(year, month, weekStart, k));
  }

  /** A cell belongs to the month exactly when it is not one of the
      Weekday(1st) leading filler cells nor past the month's last day; a cell
      of the month shows its own day number; a cell is selected exactly when
      its day number is listed, whichever month it belongs to. */
  lemma CellMembership(year: int, month: int, weekStart: int, selectedDays: seq<int>, k: int)
    requires 0 <= month < 12 && 0 <= weekStart < 7
    requires 0 <= k < 7 * WeekCount(year, month)
    ensures var w1 := Weekday(FirstOfMonth(year, month), weekStart);
      var c := Cell(GridDay(year, month, weekStart, k), month, selectedDays);
      (c.isThisMonth <==> w1 <= k < w1 + DaysInMonth(year, month))
      && (c.isThisMonth ==> c.date == k - w1 + 1
                            && Civil(GridDay(year, month, weekStart, k)) == Date(year, month, c.date))
      && (c.isSelected <==> c.date in selectedDays)
  {
    var w1 := Weekday(FirstOfMonth(year, month), weekStart);
    if k < w1 {
      OffsetBeforeMonth(year, month, k - w1);
      MonthIndexDecode(year, month);
    } else if k < w1 + DaysInMonth(year, month) {
      OffsetWithinMonth(year, month, k - w1);
    } else {
      OffsetAfterMonth(year, month, k - w1);
      MonthIndexDecode(year, month);
    }
  }

  /** A month that starts on the week start has no leading filler cell. */
  lemma NoLeadingFillerOnWeekStart(year: int, month: int, weekStart: int, selectedDays: seq<int>)
    requires 0 <= month < 12 && 0 <= weekStart < 7
    requires Weekday(FirstOfMonth(year, month), weekStart) == 0
    ensures Cell(GridDay(year, month, weekStart, 0), month, selectedDays) == DisplayDate(1, 1 in selectedDays, true)
  {
    CellMembership(year, month, weekStart, selectedDays, 0);
  }

  /** Day `day` of the month is drawn exactly when it falls before the end
      of the last row, that is when day + Weekday(1st) <= 7 * WeekCount. */
  lemma DrawnDays(year: int, month: int, weekStart: int, day: int)
    requires 0 <= month < 12 && 0 <= weekStart < 7
    requires 1 <= day <= DaysInMonth(year, month)
    ensures var n := FirstOfMonth(year, month) + day - 1;
      var start := GridDay(year, month, weekStart, 0);
      (start <= n < start + 7 * WeekCount(year, month))
        <==> day + Weekday(FirstOfMonth(year, month), weekStart) <= 7 * WeekCount(year, month)
  {
  }

  /** The month's last day is drawn only in these cases: a 28-day month
      whose 1st is a week start, any 29-day month, a 30-day month whose 1st
      has weekday 0..5, and a 31-day month whose 1st has weekday 0..4. Every
      other month loses its last Weekday(1st) + days - 7 * WeekCount days. */
  lemma LastDayDrawn(year: int, month: int, weekStart: int)
    requires 0 <= month < 12 && 0 <= weekStart < 7
    ensures var dim := DaysInMonth(year, month);
      var w1 := Weekday(FirstOfMonth(year, month), weekStart);
      var start := GridDay(year, month, weekStart, 0);
      (start <= FirstOfMonth(year, month) + dim - 1 < start + 7 * WeekCount(year, month))
        <==> (dim == 28 && w1 == 0) || dim == 29 || (dim == 30 && w1 <= 5) || (dim == 31 && w1 <= 4)
  {
    DrawnDays(year, month, weekStart, DaysInMonth(year, month));
  }

  /** Row arithmetic behind AdjacentGridsAlign: with w1 leading filler
      cells, a month of dim days in wc rows, and the next month's filler
      (w1 + dim) % 7, the rows end where the next grid starts or one week later. */
  lemma RowsMeet(w1: int, dim: int, wc: int)
    requires 0 <= w1 < 7 && 28 <= dim <= 31 && (wc == 4 <==> dim == 28) && (wc == 4 || wc == 5)
    ensures var gap := 7 * wc - dim - w1 + (w1 + dim) % 7; gap == 0 || gap == 7
  {
  }

  /** The grids of two consecutive months meet without a gap: the next
      month's grid starts where this one ends, or exactly one week earlier
      (that shared week then appears in both). */
  lemma AdjacentGridsAlign(year: int, month: int, weekStart: int)
    requires 0 <= month < 12 && 0 <= weekStart < 7
    ensures var next := FirstOfMonthIndex(year * 12 + month + 1);
      var end := GridDay(year, month, weekStart, 7 * WeekCount(year, month));
      var nextStart := GridDay(next.year, next.month, weekStart, 0);
      end == nextStart || end == nextStart + 7
  {
    var k := year * 12 + month + 1;
    var next := FirstOfMonthIndex(k);
    NextFirstAfterMonth(year, month, k);
    GridsMeet(FirstOfMonth(year, month), FirstOfMonth(next.year, next.month),
              DaysInMonth(year, month), WeekCount(year, month), weekStart);
  }

  /** The next month's 1st comes the month's length after this 1st. */
  lemma NextFirstAfterMonth(year: int, month: int, k: int)
    requires 0 <= month < 12 && k == year * 12 + month + 1
    ensures var next := FirstOfMonthIndex(k);
      FirstOfMonth(next.year, next.month) == FirstOfMonth(year, month) + DaysInMonth(year, month)
  {
    NextMonthStart(year, month);
    var next := FirstOfMonthIndex(k);
    assert Date(next.year, next.month, 1) == next;
  }

  /** Week arithmetic behind AdjacentGridsAlign: `wc` rows from the week
      start of `first` end at the week start of `nextFirst`, or a week later. */
  lemma GridsMeet(first: int, nextFirst: int, dim: int, wc: int, weekStart: int)
    requires 0 <= weekStart < 7 && nextFirst == first + dim
    requires 28 <= dim <= 31 && (wc == 4 <==> dim == 28) && (wc == 4 || wc == 5)
    ensures var end := StartOfWeek(first, weekStart) + 7 * wc;
      end == StartOfWeek(nextFirst, weekStart) || end == StartOfWeek(nextFirst, weekStart) + 7
  {
    WeekdayShift(first, dim, weekStart);
    RowsMeet(Weekday(first, weekStart), dim, wc);
  }
}
