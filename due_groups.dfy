/**
 * The due-date keys of src/utils/groupByDueDate.ts: the display order of
 * the active groups, and the classifier `getDueGroupKey` with the calendar
 * meaning of each key. The current day is a parameter, `today`.
 */
module DueGroups {
  import opened Wrappers
  import opened Calendar
  import opened IsoDate
  import opened Types

  /** `ACTIVE_GROUP_ORDER`: the display order of the groups of incomplete tasks. */
  const ActiveGroupOrder: seq<DueGroupKey> :=
    [Overdue, Today, ThisWeek, NextWeek, ThisMonth, ThisYear, Later, NoDate]

  /** Position of a key on the page: its index in `ActiveGroupOrder`; the completed group comes after all. */
  function Rank(k: DueGroupKey): nat {
    match k
    case Overdue => 0
    case Today => 1
    case ThisWeek => 2
    case NextWeek => 3
    case ThisMonth => 4
    case ThisYear => 5
    case Later => 6
    case NoDate => 7
    case Completed => 8
  }

  /** `ActiveGroupOrder` lists every key but `completed`, each once, in rank order. */
  lemma ActiveGroupOrderFacts()
    ensures |ActiveGroupOrder| == 8
    ensures forall i :: 0 <= i < |ActiveGroupOrder| ==> Rank(ActiveGroupOrder[i]) == i
    ensures forall k :: k in ActiveGroupOrder <==> k != Completed
  {
  }

  /**
   * `getDueGroupKey`: the first test that holds, in the order no date,
   * overdue, today, this week (weeks start on Monday), next week (the days
   * from the Monday of the week a week from today to the Sunday after), this
   * month, this year, later. A non-empty string that is not a date is an
   * Invalid Date for date-fns: every test is false and it lands in `later`.
   */
  function GetDueGroupKey(dueDate: Option<string>, today: Date): (k: DueGroupKey)
    requires ValidDate(today)
    ensures k != Completed
    ensures k == NoDate <==> !Truthy(dueDate)
    ensures k == Overdue <==> Truthy(dueDate) && IsPastDay(dueDate.value, today)
    ensures k == Today <==> Truthy(dueDate) && IsToday(dueDate.value, today)
  {
    if !Truthy(dueDate) then NoDate
    else
      match Parse(dueDate.value)
      case None => Later
      case Some(d) => DateKey(d, today)
  }

  /** The tests of `getDueGroupKey` after overdue and today, on a valid date. */
  function DateKey(d: Date, today: Date): (k: DueGroupKey)
    requires ValidDate(d) && ValidDate(today)
    ensures k != NoDate && k != Completed
    ensures k == Overdue <==> DayNumber(d) < DayNumber(today)
    ensures k == Today <==> d == today
  {
    DayNumberOrder(d, today);
    DayKey(DayNumber(d), DayNumber(today), d.year == today.year && d.month == today.month, d.year == today.year)
  }

  /**
   * The tests of `DateKey` on the day numbers `n` (the due date) and `t`
   * (today) and the month and year tests.
   */
  function DayKey(n: nat, t: nat, sameMonth: bool, sameYear: bool): DueGroupKey {
    BandKey(n, t, WeekStart(n), WeekStart(t), WeekStart(t + 7), sameMonth, sameYear)
  }

  /**
   * The groups after `today` by calendar containment: this week and next
   * week are Monday-to-Sunday weeks; the rest split by month and year, and
   * `later` is a later year (or a string that is not a date).
   */
  lemma DueGroupKeyByCalendar(dueDate: Option<string>, today: Date)
    requires ValidDate(today) && Truthy(dueDate)
    ensures var k := GetDueGroupKey(dueDate, today);
      match Parse(dueDate.value)
      case None => k == Later
      case Some(d) => DateKeyByCalendar(d, today, k)
  {
    if Parse(dueDate.value).Some? {
      DateKeyIsByCalendar(Parse(dueDate.value).value, today);
    }
  }

  lemma DateKeyIsByCalendar(d: Date, today: Date)
    requires ValidDate(d) && ValidDate(today)
    ensures DateKeyByCalendar(d, today, DateKey(d, today))
  {
    DateKeyWeeks(d, today);
    DateKeyMonths(d, today);
  }

  lemma DateKeyWeeks(d: Date, today: Date)
    requires ValidDate(d) && ValidDate(today)
    ensures WeekKeys(DayNumber(d), DayNumber(today), DateKey(d, today))
  {
    WeekKeysOfBand(DayNumber(d), DayNumber(today), d.year == today.year && d.month == today.month, d.year == today.year);
  }

  lemma DateKeyMonths(d: Date, today: Date)
    requires ValidDate(d) && ValidDate(today)
    ensures MonthKeys(DayNumber(d), DayNumber(today), d.year, d.month, today.year, today.month, DateKey(d, today))
  {
    DayNumberOrder(today, d);
    MonthKeysOfBand(DayNumber(d), DayNumber(today), d.year, d.month, today.year, today.month);
  }

  /** The calendar containment a key after `today` stands for. */
  predicate DateKeyByCalendar(d: Date, today: Date, k: DueGroupKey)
    requires ValidDate(d) && ValidDate(today)
  {
    WeekKeys(DayNumber(d), DayNumber(today), k) &&
    MonthKeys(DayNumber(d), DayNumber(today), d.year, d.month, today.year, today.month, k)
  }

  /** For day numbers `n` (the due date) and `t` (today): this week and next week are Monday weeks. */
  predicate WeekKeys(n: nat, t: nat, k: DueGroupKey) {
    (k == ThisWeek <==> t < n && WeekStart(n) == WeekStart(t)) &&
    (k == NextWeek <==> WeekStart(n) == WeekStart(t) + 7)
  }

  /**
   * Past next week, a due date in year `dy` and month `dm` is split by
   * today's year `ty` and month `tm`.
   */
  predicate MonthKeys(n: nat, t: nat, dy: nat, dm: nat, ty: nat, tm: nat, k: DueGroupKey) {
    (k == ThisMonth <==> WeekStart(t) + 7 < WeekStart(n) && dy == ty && dm == tm) &&
    (k == ThisYear <==> WeekStart(t) + 7 < WeekStart(n) && dy == ty && dm > tm) &&
    (k == Later <==> WeekStart(t) + 7 < WeekStart(n) && dy > ty)
  }

  /** `WeekKeys` of the chain of tests, on day numbers alone. */
  lemma WeekKeysOfBand(n: nat, t: nat, sameMonth: bool, sameYear: bool)
    requires sameMonth ==> sameYear
    ensures WeekKeys(n, t, DayKey(n, t, sameMonth, sameYear))
  {
    WeekBands(n, t);
    BandKeyByWeeks(n, t, WeekStart(n), WeekStart(t), WeekStart(t + 7), sameMonth, sameYear);
  }

  /** `MonthKeys` of the chain of tests, given that a later day number is a later month or year (or the same month). */
  lemma MonthKeysOfBand(n: nat, t: nat, dy: nat, dm: nat, ty: nat, tm: nat)
    requires t < n ==> dy > ty || (dy == ty && dm >= tm)
    ensures MonthKeys(n, t, dy, dm, ty, tm, DayKey(n, t, dy == ty && dm == tm, dy == ty))
  {
    WeekBands(n, t);
    BandKeyByWeeks(n, t, WeekStart(n), WeekStart(t), WeekStart(t + 7), dy == ty && dm == tm, dy == ty);
  }

  /**
   * The chain of tests on the day numbers `n` (the due date) and `t`
   * (today), the Monday week starts `wn` and `wt` of each, the week start
   * `wnext` of the day a week from today, and the month and year tests.
   */
  function BandKey(n: nat, t: nat, wn: int, wt: int, wnext: int, sameMonth: bool, sameYear: bool): DueGroupKey {
    if n < t then Overdue
    else if n == t then Today
    else if wn == wt then ThisWeek
    else if wnext <= n < wnext + 7 then NextWeek
    else if sameMonth then ThisMonth
    else if sameYear then ThisYear
    else Later
  }

  /** The week tests of `BandKey` read as containment in Monday weeks. */
  lemma BandKeyByWeeks(n: nat, t: nat, wn: int, wt: int, wnext: int, sameMonth: bool, sameYear: bool)
    requires wnext == wt + 7 && ((wnext <= n < wnext + 7) <==> wn == wt + 7)
    requires n <= t ==> wn <= wt
    requires t < n ==> wn == wt || wn == wt + 7 || wt + 7 < wn
    requires sameMonth ==> sameYear
    ensures var k := BandKey(n, t, wn, wt, wnext, sameMonth, sameYear);
      (k == ThisWeek <==> t < n && wn == wt) &&
      (k == NextWeek <==> wn == wt + 7) &&
      (k == ThisMonth <==> wt + 7 < wn && sameMonth) &&
      (k == ThisYear <==> wt + 7 < wn && sameYear && !sameMonth) &&
      (k == Later <==> wt + 7 < wn && !sameYear)
  {
  }
}
