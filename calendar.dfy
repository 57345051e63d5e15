/**
 * The proleptic Gregorian calendar: calendar dates, the day number of a
 * date, weekdays and Monday-based weeks, and the date arithmetic of
 * date-fns (`addDays`, `addWeeks`, `addMonths`, `addYears`).
 */
module Calendar {

  /** A calendar date with no time component. */
  datatype Date = Date(year: nat, month: nat, day: nat)

  predicate IsLeapYear(y: nat) {
    y % 4 == 0 && (y % 100 != 0 || y % 400 == 0)
  }

  function DaysInMonth(y: nat, m: nat): (n: nat)
    requires 1 <= m <= 12
    ensures 28 <= n <= 31
  {
    if m == 2 then (if IsLeapYear(y) then 29 else 28)
    else if m == 4 || m == 6 || m == 9 || m == 11 then 30
    else 31
  }

  predicate ValidDate(d: Date) {
    1 <= d.month <= 12 && 1 <= d.day <= DaysInMonth(d.year, d.month)
  }

  function DaysInYear(y: nat): nat {
    if IsLeapYear(y) then 366 else 365
  }

  /** Days from 0000-01-01 to the first of January of year `y`. */
  function DaysBeforeYear(y: nat): nat {
    365 * y + (y + 3) / 4 - (y + 99) / 100 + (y + 399) / 400
  }

  /** Days from the first of January to the first of month `m` in year `y`. */
  function DaysBeforeMonth(y: nat, m: nat): nat
    requires 1 <= m <= 12
  {
    var base := [0, 31, 59, 90, 120, 151, 181, 212, 243, 273, 304, 334][m - 1];
    if m > 2 && IsLeapYear(y) then base + 1 else base
  }

  /** The day number of a date: days since 0000-01-01, which has number 0. */
  function DayNumber(d: Date): nat
    requires ValidDate(d)
  {
    DaysBeforeYear(d.year) + DaysBeforeMonth(d.year, d.month) + d.day - 1
  }

  /** Weekday of a day number, Monday = 0 ... Sunday = 6 (0000-01-01 was a Saturday). */
  function Weekday(n: nat): (w: nat)
    ensures w < 7
  {
    (n + 5) % 7
  }

  /**
   * `startOfWeek(day, { weekStartsOn: 1 })` as a day number: the Monday on
   * or before day `n` (it lies before day 0 for the first two days of the count).
   */
  function WeekStart(n: nat): (m: int)
    ensures m <= n < m + 7
    ensures m >= 0 ==> Weekday(m) == 0
  {
    var q, r := (n + 5) / 7, (n + 5) % 7;
    assert n - r == 7 * q - 5;
    if n - r >= 0 then
      assert (n - r) + 5 == 7 * q;
      n - r
    else
      n - r
  }

  /** The weekday count is anchored: 10 June 2024, a Monday, has weekday 0. */
  lemma MondayTenthOfJune2024()
    ensures DayNumber(Date(2024, 6, 10)) == 739412 && Weekday(739412) == 0
  {
  }

  /** The Monday `WeekStart` picks is the only Monday of the seven days ending on `n`. */
  lemma WeekStartUnique(n: nat, monday: nat)
    requires Weekday(monday) == 0 && monday <= n < monday + 7
    ensures WeekStart(n) == monday
  {
    var q := (monday + 5) / 7;
    assert monday + 5 == 7 * q;
    var d := n - monday;
    assert n + 5 == 7 * q + d;
    assert (n + 5) % 7 == d;
  }

  /**
   * How day `n` falls against the week of day `t`: in the week a week on
   * exactly when its Monday is seven days after `t`'s; an earlier day is
   * never in a later week; a later day is in `t`'s week, the next one, or
   * one after that.
   */
  lemma WeekBands(n: nat, t: nat)
    ensures WeekStart(t + 7) == WeekStart(t) + 7
    ensures (WeekStart(t + 7) <= n < WeekStart(t + 7) + 7) <==> WeekStart(n) == WeekStart(t) + 7
    ensures n <= t ==> WeekStart(n) <= WeekStart(t)
    ensures t < n ==>
      WeekStart(n) == WeekStart(t) || WeekStart(n) == WeekStart(t) + 7 || WeekStart(t) + 7 < WeekStart(n)
  {
    var a, b := (n + 5) / 7, (t + 5) / 7;
    assert n + 5 == 7 * a + (n + 5) % 7;
    assert t + 5 == 7 * b + (t + 5) % 7;
    NextWeekStart(t);
    if n <= t {
      assert a <= b;
    }
  }

  /** `startOfWeek(addWeeks(day, 1))`: the week after is the one starting seven days later. */
  lemma NextWeekStart(n: nat)
    ensures WeekStart(n + 7) == WeekStart(n) + 7
  {
    var q, r := (n + 5) / 7, (n + 5) % 7;
    assert n + 7 + 5 == 7 * (q + 1) + r;
  }

  /** `a` comes strictly before `b` in calendar order (year, then month, then day). */
  predicate Before(a: Date, b: Date) {
    a.year < b.year ||
    (a.year == b.year && (a.month < b.month || (a.month == b.month && a.day < b.day)))
  }

  lemma DaysBeforeNextYear(y: nat)
    ensures DaysBeforeYear(y + 1) == DaysBeforeYear(y) + DaysInYear(y)
  {
    NextQuarter(y);
    NextCentury(y);
    NextQuadricentury(y);
    LeapDivisors(y);
    var a, b, c := (y + 3) / 4, (y + 99) / 100, (y + 399) / 400;
    assert DaysBeforeYear(y) == 365 * y + a - b + c;
    assert DaysBeforeYear(y + 1) == 365 * y + 365 + (y + 4) / 4 - (y + 100) / 100 + (y + 400) / 400;
  }

  /** Every multiple of 400 is a multiple of 100, and every multiple of 100 one of 4. */
  lemma LeapDivisors(y: nat)
    ensures y % 400 == 0 ==> y % 100 == 0
    ensures y % 100 == 0 ==> y % 4 == 0
  {
    if y % 400 == 0 {
      var q := y / 400;
      assert y == 100 * (4 * q);
    }
    if y % 100 == 0 {
      var q := y / 100;
      assert y == 4 * (25 * q);
    }
  }

  lemma NextQuarter(y: nat)
    ensures (y + 4) / 4 == (y + 3) / 4 + (if y % 4 == 0 then 1 else 0)
  {
    var q, r := y / 4, y % 4;
    if r == 0 { assert y + 4 == 4 * (q + 1) && y + 3 == 4 * q + 3; }
    else { assert y + 4 == 4 * (q + 1) + r && y + 3 == 4 * (q + 1) + (r - 1); }
  }

  lemma NextCentury(y: nat)
    ensures (y + 100) / 100 == (y + 99) / 100 + (if y % 100 == 0 then 1 else 0)
  {
    var q, r := y / 100, y % 100;
    if r == 0 { assert y + 100 == 100 * (q + 1) && y + 99 == 100 * q + 99; }
    else { assert y + 100 == 100 * (q + 1) + r && y + 99 == 100 * (q + 1) + (r - 1); }
  }

  lemma NextQuadricentury(y: nat)
    ensures (y + 400) / 400 == (y + 399) / 400 + (if y % 400 == 0 then 1 else 0)
  {
    var q, r := y / 400, y % 400;
    if r == 0 { assert y + 400 == 400 * (q + 1) && y + 399 == 400 * q + 399; }
    else { assert y + 400 == 400 * (q + 1) + r && y + 399 == 400 * (q + 1) + (r - 1); }
  }

  /** Years further on start further on in the day count. */
  lemma {:induction false} DaysBeforeYearGrows(a: nat, b: nat)
    requires a < b
    ensures DaysBeforeYear(a) + DaysInYear(a) <= DaysBeforeYear(b)
    decreases b - a
  {
    DaysBeforeNextYear(a);
    if a + 1 < b {
      DaysBeforeYearGrows(a + 1, b);
    }
  }

  /** The months of a year follow one another without gap or overlap. */
  lemma DaysBeforeMonthGrows(y: nat, m1: nat, m2: nat)
    requires 1 <= m1 < m2 <= 12
    ensures DaysBeforeMonth(y, m1) + DaysInMonth(y, m1) <= DaysBeforeMonth(y, m2)
    ensures m2 == m1 + 1 ==> DaysBeforeMonth(y, m1) + DaysInMonth(y, m1) == DaysBeforeMonth(y, m2)
  {
  }

  lemma LastMonthEndsYear(y: nat)
    ensures DaysBeforeMonth(y, 12) + DaysInMonth(y, 12) == DaysInYear(y)
  {
  }

  /** A date's day number lies within its year. */
  lemma DayNumberWithinYear(d: Date)
    requires ValidDate(d)
    ensures DaysBeforeYear(d.year) <= DayNumber(d) < DaysBeforeYear(d.year) + DaysInYear(d.year)
  {
    LastMonthEndsYear(d.year);
    if d.month < 12 {
      DaysBeforeMonthGrows(d.year, d.month, 12);
    }
  }

  /** The day count orders dates exactly as the calendar does, and tells them apart. */
  lemma DayNumberOrder(a: Date, b: Date)
    requires ValidDate(a) && ValidDate(b)
    ensures DayNumber(a) < DayNumber(b) <==> Before(a, b)
    ensures DayNumber(a) == DayNumber(b) <==> a == b
  {
    if a.year < b.year {
      BeforeByDayNumber(a, b);
    } else if b.year < a.year {
      BeforeByDayNumber(b, a);
    } else if a.month < b.month {
      DaysBeforeMonthGrows(a.year, a.month, b.month);
    } else if b.month < a.month {
      DaysBeforeMonthGrows(a.year, b.month, a.month);
    }
  }

  lemma BeforeByDayNumber(a: Date, b: Date)
    requires ValidDate(a) && ValidDate(b) && a.year < b.year
    ensures DayNumber(a) < DayNumber(b)
  {
    DayNumberWithinYear(a);
    DayNumberWithinYear(b);
    DaysBeforeYearGrows(a.year, b.year);
  }

  /** date-fns `addDays(date, 1)`: the next calendar day. */
  function AddOneDay(d: Date): (r: Date)
    requires ValidDate(d)
    ensures ValidDate(r) && DayNumber(r) == DayNumber(d) + 1
  {
    if d.day < DaysInMonth(d.year, d.month) then
      Date(d.year, d.month, d.day + 1)
    else if d.month < 12 then
      DaysBeforeMonthGrows(d.year, d.month, d.month + 1);
      Date(d.year, d.month + 1, 1)
    else
      LastMonthEndsYear(d.year);
      DaysBeforeNextYear(d.year);
      Date(d.year + 1, 1, 1)
  }

  /** date-fns `addDays(date, n)` for a non-negative `n`. */
  function AddDays(d: Date, n: nat): (r: Date)
    requires ValidDate(d)
    ensures ValidDate(r) && DayNumber(r) == DayNumber(d) + n
    decreases n
  {
    if n == 0 then d else AddOneDay(AddDays(d, n - 1))
  }

  /** date-fns `addMonths(date, k)`: the same day `k` months on, clamped to the length of that month. */
  function AddMonths(d: Date, k: nat): (r: Date)
    requires ValidDate(d)
    ensures ValidDate(r)
    ensures 12 * r.year + r.month == 12 * d.year + d.month + k
    ensures r.day == Min(d.day, DaysInMonth(r.year, r.month))
  {
    var total := d.year * 12 + (d.month - 1) + k;
    var y, m := total / 12, total % 12 + 1;
    Date(y, m, Min(d.day, DaysInMonth(y, m)))
  }

  /** date-fns `addYears(date, k)`, which is `addMonths(date, 12 * k)`: the same month `k` years on, the day clamped. */
  function AddYears(d: Date, k: nat): (r: Date)
    requires ValidDate(d)
    ensures ValidDate(r)
    ensures r.year == d.year + k && r.month == d.month
    ensures r.day == Min(d.day, DaysInMonth(r.year, r.month))
  {
    var r := AddMonths(d, 12 * k);
    assert 12 * r.year + r.month == 12 * (d.year + k) + d.month;
    MonthIndexUnique(r.year, r.month, d.year + k, d.month);
    r
  }

  /** A year and a month in 1..12 are fixed by the count `12 * year + month`. */
  lemma MonthIndexUnique(y1: nat, m1: nat, y2: nat, m2: nat)
    requires 1 <= m1 <= 12 && 1 <= m2 <= 12
    requires 12 * y1 + m1 == 12 * y2 + m2
    ensures y1 == y2 && m1 == m2
  {
  }

  function Min(a: nat, b: nat): nat {
    if a <= b then a else b
  }

  /** One month on: the next month (January of the next year after December), the day kept or clamped. */
  lemma AddOneMonth(d: Date)
    requires ValidDate(d)
    ensures var r := AddMonths(d, 1);
      (if d.month < 12 then r.year == d.year && r.month == d.month + 1
       else r.year == d.year + 1 && r.month == 1) &&
      r.day == Min(d.day, DaysInMonth(r.year, r.month)) &&
      Before(d, r) && DayNumber(d) < DayNumber(r)
  {
    DayNumberOrder(d, AddMonths(d, 1));
  }

  /** One year on: the same month of the next year, the day kept or clamped (29 February to 28 February). */
  lemma AddOneYear(d: Date)
    requires ValidDate(d)
    ensures var r := AddYears(d, 1);
      r.year == d.year + 1 && r.month == d.month &&
      r.day == Min(d.day, DaysInMonth(r.year, r.month)) &&
      Before(d, r) && DayNumber(d) < DayNumber(r)
  {
    DayNumberOrder(d, AddYears(d, 1));
  }
}
