/**
 * Calendar arithmetic of the three scripts: Gregorian month lengths
 * (`calendar.monthrange`), `month_bounds`, `prev_month`, the previous-month
 * rule inside `monthly_return`, the month step of the backfill loop, and the
 * "YYYY-MM" row key.
 */
module Calendar {
  import opened Optional
  import opened Decimal

  /** Python's `date` accepts years 1 to 9999. */
  const MinYear := 1
  const MaxYear := 9999

  datatype Date = Date(year: int, month: int, day: int)

  datatype YearMonth = YearMonth(year: int, month: int)

  predicate ValidMonth(ym: YearMonth) { 1 <= ym.month <= 12 }

  /** The Gregorian leap-year rule of `calendar.isleap`. */
  predicate IsLeap(y: int) { y % 4 == 0 && (y % 100 != 0 || y % 400 == 0) }

  /** `calendar.monthrange(y, m)[1]`: the number of days in month `m` of year `y`. */
  function DaysInMonth(y: int, m: int): (n: int)
    requires 1 <= m <= 12
    ensures 28 <= n <= 31
    ensures n == 29 <==> m == 2 && IsLeap(y)
    ensures n == 28 <==> m == 2 && !IsLeap(y)
    ensures n == 30 <==> m in {4, 6, 9, 11}
    ensures n == 31 <==> m in {1, 3, 5, 7, 8, 10, 12}
  {
    if m == 2 then (if IsLeap(y) then 29 else 28)
    else if m == 4 || m == 6 || m == 9 || m == 11 then 30
    else 31
  }

  /** A value Python's `date` constructor accepts. */
  predicate ValidDate(d: Date)
  {
    MinYear <= d.year <= MaxYear && 1 <= d.month <= 12 && 1 <= d.day <= DaysInMonth(d.year, d.month)
  }

  /** Chronological order on dates. */
  predicate DateBefore(a: Date, b: Date)
  {
    a.year < b.year || (a.year == b.year && (a.month < b.month || (a.month == b.month && a.day < b.day)))
  }

  /**
   * `month_bounds(y, m)`: the first and the last day of the month. Every
   * valid day of that month lies between them, and both are valid dates.
   */
  function MonthBounds(y: int, m: int): (b: (Date, Date))
    requires MinYear <= y <= MaxYear && 1 <= m <= 12
    ensures ValidDate(b.0) && ValidDate(b.1)
    ensures b.0.year == y && b.0.month == m && b.1.year == y && b.1.month == m
    ensures !DateBefore(b.1, b.0)
    ensures forall d :: ValidDate(Date(y, m, d)) <==> b.0.day <= d <= b.1.day
  {
    (Date(y, m, 1), Date(y, m, DaysInMonth(y, m)))
  }

  /**
   * `date - relativedelta(days=1)`: the day before a valid date, or `None`
   * when that would leave Python's date range (OverflowError). Within a
   * month it is the previous day number; on the first of a month it is the
   * last day of the month before.
   */
  function DayBefore(d: Date): (r: Option<Date>)
    requires ValidDate(d)
    ensures r.None? <==> d.year == MinYear && d.month == 1 && d.day == 1
    ensures r.Some? ==> ValidDate(r.value) && DateBefore(r.value, d)
    ensures r.Some? && d.day > 1 ==> r.value == Date(d.year, d.month, d.day - 1)
    ensures r.Some? && d.day == 1 ==>
      && r.value.day == DaysInMonth(r.value.year, r.value.month)
      && MonthIndex(YearMonth(r.value.year, r.value.month)) + 1 == MonthIndex(YearMonth(d.year, d.month))
  {
    if d.day > 1 then Some(Date(d.year, d.month, d.day - 1))
    else if d.month > 1 then Some(Date(d.year, d.month - 1, DaysInMonth(d.year, d.month - 1)))
    else if d.year > MinYear then Some(Date(d.year - 1, 12, 31))
    else None
  }

  /** Months counted from year 0: consecutive months have consecutive indices. */
  function MonthIndex(ym: YearMonth): int { ym.year * 12 + ym.month - 1 }

  lemma MonthIndexInjective(a: YearMonth, b: YearMonth)
    requires ValidMonth(a) && ValidMonth(b) && MonthIndex(a) == MonthIndex(b)
    ensures a == b
  {
  }

  /**
   * `prev_month(today)`: the year and month of the day before the first of
   * the current month; `None` when that day is before 0001-01-01.
   */
  function PrevMonth(today: Date): (r: Option<YearMonth>)
    requires ValidDate(today)
    ensures r.None? <==> today.year == MinYear && today.month == 1
    ensures r.Some? ==> ValidMonth(r.value) && MinYear <= r.value.year
    ensures r.Some? ==> MonthIndex(r.value) + 1 == MonthIndex(YearMonth(today.year, today.month))
  {
    var first := Date(today.year, today.month, 1);
    match DayBefore(first)
    case None => None
    case Some(prev) => Some(YearMonth(prev.year, prev.month))
  }

  /** The previous-month rule written inline in `monthly_return`: `(y, m-1) if m > 1 else (y-1, 12)`. */
  function PrevYearMonth(y: int, m: int): (r: YearMonth)
    ensures 1 <= m <= 12 ==> ValidMonth(r) && MonthIndex(r) + 1 == MonthIndex(YearMonth(y, m))
  {
    if m > 1 then YearMonth(y, m - 1) else YearMonth(y - 1, 12)
  }

  /** The month step at the end of the backfill loop: December rolls over to January. */
  function NextMonth(ym: YearMonth): (r: YearMonth)
    requires ValidMonth(ym)
    ensures ValidMonth(r) && MonthIndex(r) == MonthIndex(ym) + 1
  {
    if ym.month == 12 then YearMonth(ym.year + 1, 1) else YearMonth(ym.year, ym.month + 1)
  }

  /** `prev_month` agrees with the inline rule of `monthly_return`, and stepping forward undoes it. */
  lemma PrevMonthAgrees(today: Date)
    requires ValidDate(today) && !(today.year == MinYear && today.month == 1)
    ensures PrevMonth(today) == Some(PrevYearMonth(today.year, today.month))
    ensures NextMonth(PrevMonth(today).value) == YearMonth(today.year, today.month)
  {
    var p := PrevMonth(today).value;
    MonthIndexInjective(p, PrevYearMonth(today.year, today.month));
    MonthIndexInjective(NextMonth(p), YearMonth(today.year, today.month));
  }

  /**
   * The months the backfill loop visits: from `start` through `end`, both
   * inclusive, one per month; empty when `start` is after `end`.
   */
  function MonthRange(start: YearMonth, end: YearMonth): (r: seq<YearMonth>)
    requires ValidMonth(start)
    ensures |r| == if MonthIndex(start) <= MonthIndex(end) then MonthIndex(end) - MonthIndex(start) + 1 else 0
    ensures forall k :: 0 <= k < |r| ==> ValidMonth(r[k]) && MonthIndex(r[k]) == MonthIndex(start) + k
    decreases MonthIndex(end) - MonthIndex(start)
  {
    if MonthIndex(end) < MonthIndex(start) then [] else [start] + MonthRange(NextMonth(start), end)
  }

  /** The number of months processed: 12·(ey−sy) + (em−sm) + 1 when start ≤ end, else 0. */
  lemma MonthRangeCount(start: YearMonth, end: YearMonth)
    requires ValidMonth(start) && ValidMonth(end)
    ensures |MonthRange(start, end)| ==
      if start.year < end.year || (start.year == end.year && start.month <= end.month)
      then 12 * (end.year - start.year) + (end.month - start.month) + 1
      else 0
  {
  }

  /**
   * Every month from `start` through `end` is visited exactly once, at the
   * position of its distance from `start`, and the visits are in strictly
   * increasing chronological order.
   */
  lemma MonthRangeVisitsEachOnce(start: YearMonth, end: YearMonth, ym: YearMonth)
    requires ValidMonth(start) && ValidMonth(ym)
    requires MonthIndex(start) <= MonthIndex(ym) <= MonthIndex(end)
    ensures var r := MonthRange(start, end);
      var k := MonthIndex(ym) - MonthIndex(start);
      0 <= k < |r| && r[k] == ym && forall j :: 0 <= j < |r| && r[j] == ym ==> j == k
  {
    var r := MonthRange(start, end);
    var k := MonthIndex(ym) - MonthIndex(start);
    MonthIndexInjective(r[k], ym);
  }

  /** A backfill from 2017-01 through 2017-03 visits exactly those three months, keyed "2017-01" to "2017-03". */
  lemma BackfillRangeExample()
    ensures MonthRange(YearMonth(2017, 1), YearMonth(2017, 3)) == [YearMonth(2017, 1), YearMonth(2017, 2), YearMonth(2017, 3)]
    ensures MonthKey(YearMonth(2017, 1)) == "2017-01" && MonthKey(YearMonth(2017, 3)) == "2017-03"
  {
    var r := MonthRange(YearMonth(2017, 1), YearMonth(2017, 3));
    MonthIndexInjective(r[0], YearMonth(2017, 1));
    MonthIndexInjective(r[1], YearMonth(2017, 2));
    MonthIndexInjective(r[2], YearMonth(2017, 3));
    assert Digits(2017) == "2017" by {
      assert Digits(2) == "2" && Digits(20) == "20" && Digits(201) == "201";
    }
  }

  /**
   * The row key `f"{y}-{m:02d}"`: the year as `int()` reads it back, a dash,
   * and the month as exactly two digits.
   */
  function MonthKey(ym: YearMonth): (k: string)
    requires ValidMonth(ym)
    ensures |k| >= 4 && k[|k| - 3] == '-'
    ensures k[..|k| - 3] == IntText(ym.year) && AllDigits(k[|k| - 2..])
    ensures ParseInt(k[..|k| - 3]) == Some(ym.year)
    ensures ParseInt(k[|k| - 2..]) == Some(ym.month)
  {
    IntTextRoundTrip(ym.year);
    var k := IntText(ym.year) + "-" + TwoDigits(ym.month);
    assert k[..|k| - 3] == IntText(ym.year) && k[|k| - 2..] == TwoDigits(ym.month);
    k
  }

  /** Different months never share a row key. */
  lemma MonthKeyInjective(a: YearMonth, b: YearMonth)
    requires ValidMonth(a) && ValidMonth(b) && MonthKey(a) == MonthKey(b)
    ensures a == b
  {
    var ka, kb := MonthKey(a), MonthKey(b);
    assert ka[..|ka| - 3] == IntText(a.year);
    assert kb[..|kb| - 3] == IntText(b.year);
    IntTextInjective(a.year, b.year);
    assert ka[|ka| - 2..] == TwoDigits(a.month);
    assert kb[|kb| - 2..] == TwoDigits(b.month);
  }
}
