/** The proleptic Gregorian calendar at day granularity: the small part of a
    date library that the calendar components rely on.

    A moment is a day number, the count of days since 1970-01-01 (a
    timestamp whose time of day has been dropped); adding days is integer
    addition. Its calendar fields are a `Date` (year, month, day) with a
    0-indexed month (0 = January) and a 1-indexed day of the month. */
module Gregorian {

  datatype Date = Date(year: int, month: int, day: int)

  predicate IsLeapYear(year: int) {
    (year % 4 == 0 && year % 100 != 0) || year % 400 == 0
  }

  /** Length of a month. */
  function DaysInMonth(year: int, month: int): (r: int)
    requires 0 <= month < 12
    ensures 28 <= r <= 31
  {
    if month == 1 then (if IsLeapYear(year) then 29 else 28)
    else if month == 3 || month == 5 || month == 8 || month == 10 then 30
    else 31
  }

  /** February has 29 days exactly in leap years and 28 otherwise; every
      other month has 31 - (month % 7) % 2 days. */
  lemma DaysInMonthClosedForm(year: int, month: int)
    requires 0 <= month < 12
    ensures month == 1 ==> DaysInMonth(year, month) == (if IsLeapYear(year) then 29 else 28)
    ensures month != 1 ==> DaysInMonth(year, month) == 31 - (month % 7) % 2
  {
  }

  predicate ValidDate(d: Date) {
    0 <= d.month < 12 && 1 <= d.day <= DaysInMonth(d.year, d.month)
  }

  function DaysInYear(year: int): int {
    if IsLeapYear(year) then 366 else 365
  }

  /** Days from 1970-01-01 to January 1st of `year` (negative before 1970). */
  function DaysBeforeYear(year: int): int
    decreases if year < 1970 then 1970 - year else year - 1970
  {
    if year == 1970 then 0
    else if year > 1970 then DaysBeforeYear(year - 1) + DaysInYear(year - 1)
    else DaysBeforeYear(year + 1) - DaysInYear(year)
  }

  /** Days from January 1st to the 1st of `month` (12 stands for the next year). */
  function DaysBeforeMonth(year: int, month: int): int
    requires 0 <= month <= 12
  {
    if month == 0 then 0 else DaysBeforeMonth(year, month - 1) + DaysInMonth(year, month - 1)
  }

  /** The day number of a calendar date. */
  function DayNumber(d: Date): int
    requires 0 <= d.month < 12
  {
    DaysBeforeYear(d.year) + DaysBeforeMonth(d.year, d.month) + d.day - 1
  }

  // ---------------------------------------------------------------------
  // Facts behind the day numbering

  lemma YearStep(year: int)
    ensures DaysBeforeYear(year + 1) == DaysBeforeYear(year) + DaysInYear(year)
  {
  }

  lemma {:induction false} DaysBeforeMonthMonotone(year: int, i: int, j: int)
    requires 0 <= i <= j <= 12
    ensures DaysBeforeMonth(year, i) <= DaysBeforeMonth(year, j)
    decreases j - i
  {
    if i < j {
      DaysBeforeMonthMonotone(year, i, j - 1);
    }
  }

  /** The twelve months fill the year. */
  lemma DaysBeforeMonthYear(year: int)
    ensures DaysBeforeMonth(year, 12) == DaysInYear(year)
  {
    var leap := if IsLeapYear(year) then 1 else 0;
    assert DaysBeforeMonth(year, 1) == 31;
    assert DaysBeforeMonth(year, 2) == 59 + leap;
    assert DaysBeforeMonth(year, 3) == 90 + leap;
    assert DaysBeforeMonth(year, 4) == 120 + leap;
    assert DaysBeforeMonth(year, 5) == 151 + leap;
    assert DaysBeforeMonth(year, 6) == 181 + leap;
    assert DaysBeforeMonth(year, 7) == 212 + leap;
    assert DaysBeforeMonth(year, 8) == 243 + leap;
    assert DaysBeforeMonth(year, 9) == 273 + leap;
    assert DaysBeforeMonth(year, 10) == 304 + leap;
    assert DaysBeforeMonth(year, 11) == 334 + leap;
  }

  lemma {:induction false} DaysBeforeYearMonotone(a: int, b: int)
    requires a <= b
    ensures DaysBeforeYear(a) <= DaysBeforeYear(b)
    decreases b - a
  {
    if a < b {
      YearStep(a);
      DaysBeforeYearMonotone(a + 1, b);
    }
  }

  /** Leap years before `year`, counted from year 1 (negative before it). */
  function LeapYearsBefore(year: int): int {
    (year - 1) / 4 - (year - 1) / 100 + (year - 1) / 400
  }

  /** Division by a constant steps up by one exactly at its multiples. */
  lemma DivStep(y: int, q: int)
    requires q > 0
    ensures y / q - (y - 1) / q == (if y % q == 0 then 1 else 0)
  {
    var a, r := y / q, y % q;
    if r > 0 {
      DivMulPlus(y - 1, q, a, r - 1);
    } else {
      DivMulPlus(y - 1, q, a - 1, q - 1);
    }
  }

  lemma DivMulPlus(x: int, q: int, k: int, r: int)
    requires q > 0 && 0 <= r < q && x == q * k + r
    ensures x / q == k && x % q == r
  {
    var k', r' := x / q, x % q;
    var t := k - k';
    assert q * t == r' - r;
    if t >= 1 {
      MulAtLeast(q, t);
    } else if t <= -1 {
      MulAtLeast(q, -t);
    }
  }

  lemma MulAtLeast(q: int, t: int)
    requires q > 0 && t >= 1
    ensures q * t >= q
  {
  }

  lemma LeapYearsStep(year: int)
    ensures LeapYearsBefore(year + 1) == LeapYearsBefore(year) + (if IsLeapYear(year) then 1 else 0)
  {
    DivStep(year, 4);
    DivStep(year, 100);
    DivStep(year, 400);
  }

  /** Closed form of the year offsets: 365 days a year plus one per leap year. */
  lemma {:induction false} DaysBeforeYearClosedForm(year: int)
    requires year >= 1970
    ensures DaysBeforeYear(year) == 365 * (year - 1970) + LeapYearsBefore(year) - LeapYearsBefore(1970)
    decreases year - 1970
  {
    if year > 1970 {
      DaysBeforeYearClosedForm(year - 1);
      LeapYearsStep(year - 1);
    }
  }

  /** A valid date's day number lies inside its own year. */
  lemma DayNumberInYear(d: Date)
    requires ValidDate(d)
    ensures DaysBeforeYear(d.year) <= DayNumber(d) < DaysBeforeYear(d.year + 1)
  {
    assert DaysBeforeMonth(d.year, d.month + 1) == DaysBeforeMonth(d.year, d.month) + DaysInMonth(d.year, d.month);
    DaysBeforeMonthMonotone(d.year, 0, d.month);
    DaysBeforeMonthMonotone(d.year, d.month + 1, 12);
    DaysBeforeMonthYear(d.year);
    YearStep(d.year);
  }

  /** Lexicographic order on (year, month, day): the calendar's "earlier". */
  predicate LexLess(a: Date, b: Date) {
    a.year < b.year
    || (a.year == b.year && a.month < b.month)
    || (a.year == b.year && a.month == b.month && a.day < b.day)
  }

  /** The day numbering orders valid dates as the calendar does. */
  lemma LexLessDayNumber(a: Date, b: Date)
    requires ValidDate(a) && ValidDate(b) && LexLess(a, b)
    ensures DayNumber(a) < DayNumber(b)
  {
    if a.year < b.year {
      DayNumberInYear(a);
      DayNumberInYear(b);
      DaysBeforeYearMonotone(a.year + 1, b.year);
    } else if a.month < b.month {
      DaysBeforeMonthMonotone(a.year, a.month + 1, b.month);
    }
  }

  /** Two valid dates with the same day number are the same date. */
  lemma DayNumberInjective(a: Date, b: Date)
    requires ValidDate(a) && ValidDate(b) && DayNumber(a) == DayNumber(b)
    ensures a == b
  {
    if LexLess(a, b) {
      LexLessDayNumber(a, b);
    } else if LexLess(b, a) {
      LexLessDayNumber(b, a);
    }
  }

  // ---------------------------------------------------------------------
  // From a day number to its calendar fields

  /** The date `offset` days after the 1st of `month` in `year`, when that
      stays inside the year. */
  function CivilInYear(year: int, month: int, offset: int): (d: Date)
    requires 0 <= month < 12 && 0 <= offset < DaysBeforeMonth(year, 12) - DaysBeforeMonth(year, month)
    ensures ValidDate(d) && d.year == year
    ensures DaysBeforeMonth(year, d.month) + d.day - 1 == DaysBeforeMonth(year, month) + offset
    decreases 12 - month
  {
    if offset < DaysInMonth(year, month) || month == 11 then Date(year, month, offset + 1)
    else CivilInYear(year, month + 1, offset - DaysInMonth(year, month))
  }

  /** The date `offset` days after January 1st of `year`. */
  function CivilFrom(year: int, offset: int): (d: Date)
    ensures ValidDate(d) && DayNumber(d) == DaysBeforeYear(year) + offset
    decreases offset < 0, if offset < 0 then -offset else offset
  {
    if offset < 0 then
      YearStep(year - 1);
      CivilFrom(year - 1, offset + DaysInYear(year - 1))
    else if offset >= DaysInYear(year) then
      YearStep(year);
      CivilFrom(year + 1, offset - DaysInYear(year))
    else
      DaysBeforeMonthYear(year);
      CivilInYear(year, 0, offset)
  }

  /** The calendar fields of day number `n`: the valid date whose day number is `n`. */
  function Civil(n: int): (d: Date)
    ensures ValidDate(d) && DayNumber(d) == n
  {
    CivilFrom(1970, n)
  }

  /** Calendar fields and day numbers are inverse to each other. */
  lemma CivilOfDayNumber(d: Date)
    requires ValidDate(d)
    ensures Civil(DayNumber(d)) == d
  {
    DayNumberInjective(Civil(DayNumber(d)), d);
  }

  /** One day is earlier than another exactly when its date comes first in the calendar. */
  lemma EarlierIsLexicographic(a: int, b: int)
    ensures a < b <==> LexLess(Civil(a), Civil(b))
  {
    if LexLess(Civil(a), Civil(b)) {
      LexLessDayNumber(Civil(a), Civil(b));
    } else if LexLess(Civil(b), Civil(a)) {
      LexLessDayNumber(Civil(b), Civil(a));
    }
  }

  // ---------------------------------------------------------------------
  // Months

  /** Months since January of year 0: the position of a month on the month line. */
  function MonthIndex(d: Date): int {
    d.year * 12 + d.month
  }

  /** The month of day `n`, as a position on the month line. */
  function MonthOf(n: int): int {
    MonthIndex(Civil(n))
  }

  /** The 1st of the month at position `k` of the month line. */
  function FirstOfMonthIndex(k: int): (d: Date)
    ensures ValidDate(d) && d.day == 1 && MonthIndex(d) == k
  {
    Date(k / 12, k % 12, 1)
  }

  lemma MonthIndexDecode(y: int, m: int)
    requires 0 <= m < 12
    ensures (y * 12 + m) / 12 == y && (y * 12 + m) % 12 == m
  {
  }

  /** The month position of a day determines its year and month. */
  lemma MonthOfDecode(n: int, year: int, month: int)
    requires 0 <= month < 12 && MonthOf(n) == year * 12 + month
    ensures Civil(n).year == year && Civil(n).month == month
    ensures MonthOf(n) / 12 == year && MonthOf(n) % 12 == month
  {
    MonthIndexDecode(Civil(n).year, Civil(n).month);
    MonthIndexDecode(year, month);
  }

  /** Day number of the 1st of `month` in `year`. */
  function FirstOfMonth(year: int, month: int): int
    requires 0 <= month < 12
  {
    DayNumber(Date(year, month, 1))
  }

  /** A moment's `startOf('month')`: the 1st of its month. */
  function StartOfMonth(n: int): (r: int)
    ensures Civil(r) == Date(Civil(n).year, Civil(n).month, 1)
    ensures r <= n < r + DaysInMonth(Civil(n).year, Civil(n).month)
  {
    CivilOfDayNumber(Date(Civil(n).year, Civil(n).month, 1));
    FirstOfMonth(Civil(n).year, Civil(n).month)
  }

  /** A moment's `endOf('month')` at day granularity: the last day of its month. */
  function EndOfMonth(n: int): (r: int)
    ensures Civil(r) == Date(Civil(n).year, Civil(n).month, DaysInMonth(Civil(n).year, Civil(n).month))
    ensures n <= r == StartOfMonth(n) + DaysInMonth(Civil(n).year, Civil(n).month) - 1
  {
    var d := Civil(n);
    var last := Date(d.year, d.month, DaysInMonth(d.year, d.month));
    CivilOfDayNumber(last);
    DayNumber(last)
  }

  /** On the last day of its month, the month ends that day. */
  lemma EndOfMonthOnLastDay(n: int)
    requires Civil(n).day == DaysInMonth(Civil(n).year, Civil(n).month)
    ensures EndOfMonth(n) == n
  {
    DayNumberInjective(Civil(EndOfMonth(n)), Civil(n));
  }

  /** `k` months after day `n` (`add(k, 'months')`): the same day of the
      month, clamped to the length of the target month. */
  function AddMonths(n: int, k: int): (r: int)
    ensures MonthOf(r) == MonthOf(n) + k
    ensures var t := Civil(r); var dim := DaysInMonth(t.year, t.month);
      t.day == (if Civil(n).day <= dim then Civil(n).day else dim)
  {
    var first := FirstOfMonthIndex(MonthOf(n) + k);
    var dim := DaysInMonth(first.year, first.month);
    var target := Date(first.year, first.month, if Civil(n).day <= dim then Civil(n).day else dim);
    CivilOfDayNumber(target);
    DayNumber(target)
  }

  /** Adding no months changes nothing. */
  lemma AddMonthsZero(n: int)
    ensures AddMonths(n, 0) == n
  {
    var d := Civil(n);
    MonthIndexDecode(d.year, d.month);
    DayNumberInjective(Civil(AddMonths(n, 0)), d);
  }

  /** Days in a later month come later. */
  lemma MonthOrder(a: int, b: int)
    requires MonthOf(a) < MonthOf(b)
    ensures a < b
  {
    LexLessDayNumber(Civil(a), Civil(b));
  }

  /** A day comes before the 1st of a month exactly when it lies in an earlier month. */
  lemma BeforeFirstOfMonth(n: int, year: int, month: int)
    requires 0 <= month < 12
    ensures n < FirstOfMonth(year, month) <==> MonthOf(n) < year * 12 + month
  {
    var d := Date(year, month, 1);
    CivilOfDayNumber(d);
    MonthStartOrder(n, DayNumber(d));
  }

  /** A day comes after the last day of a month exactly when it lies in a later month. */
  lemma AfterLastOfMonth(n: int, year: int, month: int)
    requires 0 <= month < 12
    ensures FirstOfMonth(year, month) + DaysInMonth(year, month) - 1 < n <==> year * 12 + month < MonthOf(n)
  {
    var d := Date(year, month, DaysInMonth(year, month));
    var last := DayNumber(d);
    assert last == FirstOfMonth(year, month) + DaysInMonth(year, month) - 1;
    CivilOfDayNumber(d);
    MonthEndOrder(n, last);
  }

  /** Before a 1st means in an earlier month. */
  lemma MonthStartOrder(n: int, first: int)
    requires Civil(first).day == 1
    ensures n < first <==> MonthOf(n) < MonthOf(first)
  {
    if MonthOf(first) < MonthOf(n) {
      MonthOrder(first, n);
    } else if MonthOf(n) == MonthOf(first) {
      var a, b := Civil(n), Civil(first);
      MonthIndexDecode(a.year, a.month);
      MonthIndexDecode(b.year, b.month);
      assert a.year == b.year && a.month == b.month && b.day <= a.day;
    } else {
      MonthOrder(n, first);
    }
  }

  /** After a month's last day means in a later month. */
  lemma MonthEndOrder(n: int, last: int)
    requires Civil(last).day == DaysInMonth(Civil(last).year, Civil(last).month)
    ensures last < n <==> MonthOf(last) < MonthOf(n)
  {
    if MonthOf(n) < MonthOf(last) {
      MonthOrder(n, last);
    } else if MonthOf(n) == MonthOf(last) {
      var a, b := Civil(n), Civil(last);
      MonthIndexDecode(a.year, a.month);
      MonthIndexDecode(b.year, b.month);
      assert a.year == b.year && a.month == b.month && a.day <= b.day;
    } else {
      MonthOrder(last, n);
    }
  }

  /** A later day is never in an earlier month. */
  lemma MonthOfMonotone(a: int, b: int)
    requires a <= b
    ensures MonthOf(a) <= MonthOf(b)
  {
    if MonthOf(b) < MonthOf(a) {
      MonthOrder(b, a);
    }
  }

  /** The 1st of the next month comes DaysInMonth days after the 1st of this one. */
  lemma NextMonthStart(year: int, month: int)
    requires 0 <= month < 12
    ensures DayNumber(FirstOfMonthIndex(year * 12 + month + 1)) == DayNumber(Date(year, month, 1)) + DaysInMonth(year, month)
  {
    if month < 11 {
      MonthIndexDecode(year, month + 1);
      assert FirstOfMonthIndex(year * 12 + month + 1) == Date(year, month + 1, 1);
      assert DaysBeforeMonth(year, month + 1) == DaysBeforeMonth(year, month) + DaysInMonth(year, month);
    } else {
      MonthIndexDecode(year + 1, 0);
      assert FirstOfMonthIndex(year * 12 + month + 1) == Date(year + 1, 0, 1);
      DaysBeforeMonthYear(year);
      assert DaysBeforeMonth(year, 12) == DaysBeforeMonth(year, 11) + DaysInMonth(year, 11);
      YearStep(year);
    }
  }

  /** Up to four weeks before the 1st of a month lie in the previous month. */
  lemma OffsetBeforeMonth(year: int, month: int, j: int)
    requires 0 <= month < 12 && -28 <= j < 0
    ensures MonthOf(FirstOfMonth(year, month) + j) == year * 12 + month - 1
  {
    var k := year * 12 + month - 1;
    var prev := FirstOfMonthIndex(k);
    PreviousMonthEnds(year, month, k);
    InMonthOffset(prev, DaysInMonth(prev.year, prev.month) + j, k, FirstOfMonth(year, month) + j);
  }

  /** Month index `k` is the month before (`year`, `month`) and ends where it begins. */
  lemma PreviousMonthEnds(year: int, month: int, k: int)
    requires 0 <= month < 12 && k == year * 12 + month - 1
    ensures var prev := FirstOfMonthIndex(k);
      FirstOfMonth(year, month) == DayNumber(prev) + DaysInMonth(prev.year, prev.month)
  {
    var prev := FirstOfMonthIndex(k);
    MonthIndexDecode(year, month);
    NextMonthStart(prev.year, prev.month);
    assert FirstOfMonthIndex(prev.year * 12 + prev.month + 1) == Date(year, month, 1);
  }

  /** A day within the month of the 1st `first` belongs to that month. */
  lemma InMonthOffset(first: Date, j: int, k: int, n: int)
    requires ValidDate(first) && first.day == 1 && MonthIndex(first) == k
    requires 0 <= j < DaysInMonth(first.year, first.month) && n == DayNumber(first) + j
    ensures MonthOf(n) == k
  {
    var c := Date(first.year, first.month, j + 1);
    assert DayNumber(c) == n;
    CivilOfDayNumber(c);
  }

  /** Within the month, `j` days after the 1st is day j + 1. */
  lemma OffsetWithinMonth(year: int, month: int, j: int)
    requires 0 <= month < 12 && 0 <= j < DaysInMonth(year, month)
    ensures Civil(FirstOfMonth(year, month) + j) == Date(year, month, j + 1)
  {
    CivilOfDayNumber(Date(year, month, j + 1));
  }

  /** The first week of a month: the days of the week from its 1st. */
  lemma EarlyInMonth(first: int, n: int)
    requires Civil(first).day == 1 && first <= n < first + 7
    ensures MonthOf(n) == MonthOf(first) && Civil(n).day == n - first + 1
  {
    var d := Civil(first);
    var c := Date(d.year, d.month, n - first + 1);
    assert DayNumber(c) == n;
    CivilOfDayNumber(c);
  }

  /** Up to four weeks past the month's last day lie in the next month. */
  lemma OffsetAfterMonth(year: int, month: int, j: int)
    requires 0 <= month < 12 && DaysInMonth(year, month) <= j < DaysInMonth(year, month) + 28
    ensures MonthOf(FirstOfMonth(year, month) + j) == year * 12 + month + 1
    ensures Civil(FirstOfMonth(year, month) + j).day == j - DaysInMonth(year, month) + 1
  {
    var next := FirstOfMonthIndex(year * 12 + month + 1);
    NextMonthStart(year, month);
    CivilOfDayNumber(Date(next.year, next.month, j - DaysInMonth(year, month) + 1));
  }

  // ---------------------------------------------------------------------
  // Weeks

  /** Day of the week, 0 = Sunday (1970-01-01 was a Thursday). */
  function DayOfWeek(n: int): (r: int)
    ensures 0 <= r < 7
  {
    (n + 4) % 7
  }

  /** Position of day `n` in a week that starts on day-of-week `weekStart`
      (0 = Sunday, 1 = Monday, ...): the locale-aware `weekday()`. */
  function Weekday(n: int, weekStart: int): (r: int)
    requires 0 <= weekStart < 7
    ensures 0 <= r < 7
  {
    (n + 4 - weekStart) % 7
  }

  /** The locale weekday counts days of the week from the locale's first day. */
  lemma WeekdayFromWeekStart(n: int, weekStart: int)
    requires 0 <= weekStart < 7
    ensures (Weekday(n, weekStart) + weekStart) % 7 == DayOfWeek(n)
  {
  }

  /** Moving by `k` days moves the weekday by `k`, modulo 7. */
  lemma WeekdayShift(n: int, k: int, weekStart: int)
    requires 0 <= weekStart < 7
    ensures Weekday(n + k, weekStart) == (Weekday(n, weekStart) + k) % 7
  {
  }

  /** A moment's `startOf('week')`: the first day of the week containing `n`. */
  function StartOfWeek(n: int, weekStart: int): (r: int)
    requires 0 <= weekStart < 7
    ensures Weekday(r, weekStart) == 0
    ensures n - 6 <= r <= n
  {
    WeekdayShift(n, -Weekday(n, weekStart), weekStart);
    n - Weekday(n, weekStart)
  }

  /** Counting from a week start, day `k` has weekday k % 7. */
  lemma WeekdayFromStartOfWeek(n: int, k: int, weekStart: int)
    requires 0 <= weekStart < 7
    ensures Weekday(StartOfWeek(n, weekStart) + k, weekStart) == k % 7
  {
    WeekdayShift(StartOfWeek(n, weekStart), k, weekStart);
  }

  /** The week start is the only first-day-of-week among `n` and the six days before it. */
  lemma StartOfWeekUnique(n: int, weekStart: int, c: int)
    requires 0 <= weekStart < 7
    requires Weekday(c, weekStart) == 0 && n - 6 <= c <= n
    ensures c == StartOfWeek(n, weekStart)
  {
    WeekdayShift(c, n - c, weekStart);
  }

  /** The first week start on or after `first`: (7 - weekday) % 7 days on, which is
      `first`'s own week start when `first` is one and the next week start otherwise. */
  lemma FirstWeekStartFrom(first: int, r: int, weekStart: int)
    requires 0 <= weekStart < 7 && first <= r < first + 7 && Weekday(r, weekStart) == 0
    ensures r - first == (7 - Weekday(first, weekStart)) % 7
    ensures r == StartOfWeek(first, weekStart) <==> Weekday(first, weekStart) == 0
    ensures r != StartOfWeek(first, weekStart) ==> r == StartOfWeek(first, weekStart) + 7
  {
    var w := Weekday(first, weekStart);
    WeekdayShift(first, r - first, weekStart);
    assert w + (r - first) == 0 || w + (r - first) == 7;
  }

  /** Same week (`isSame(.., 'week')`): both days have the same week start. */
  predicate SameWeek(a: int, b: int, weekStart: int)
    requires 0 <= weekStart < 7
  {
    StartOfWeek(a, weekStart) == StartOfWeek(b, weekStart)
  }

  /** `b` is in `a`'s week exactly when it lies in the seven days from `a`'s week start. */
  lemma SameWeekRange(a: int, b: int, weekStart: int)
    requires 0 <= weekStart < 7
    ensures SameWeek(a, b, weekStart) <==>
      StartOfWeek(a, weekStart) <= b < StartOfWeek(a, weekStart) + 7
  {
    var s := StartOfWeek(a, weekStart);
    if s <= b < s + 7 {
      StartOfWeekUnique(b, weekStart, s);
    }
  }
}
