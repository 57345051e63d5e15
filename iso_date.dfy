/**
 * Due dates as the strings the task rows carry: an RFC 3339 full-date,
 * `date-fullyear "-" date-month "-" date-mday` (section 5.6 of RFC 3339),
 * read as date-fns `parseISO` reads it and written as `format(date, 'yyyy-MM-dd')`
 * writes it.
 */
module IsoDate {
  import opened Wrappers
  import opened Decimal
  import opened Calendar

  function TwoDigits(n: nat): (s: string)
    requires n < 100
    ensures |s| == 2 && AllDigits(s)
  {
    [DigitChar(n / 10), DigitChar(n % 10)]
  }

  function FourDigits(n: nat): (s: string)
    requires n < 10000
    ensures |s| == 4 && AllDigits(s)
  {
    TwoDigits(n / 100) + TwoDigits(n % 100)
  }

  /** `yyyy`: at least four digits, zero-padded; a year past 9999 keeps all its digits. */
  function YearDigits(y: nat): (s: string)
    ensures AllDigits(s)
  {
    if y < 10000 then FourDigits(y) else NatToString(y)
  }

  lemma DivMod(hi: nat, lo: nat, base: nat)
    requires base == 10 || base == 100
    requires lo < base
    ensures (base * hi + lo) / base == hi && (base * hi + lo) % base == lo
  {
  }

  lemma TwoDigitValue(s: string)
    requires |s| == 2 && AllDigits(s)
    ensures StringToNat(s) == 10 * DigitValue(s[0]) + DigitValue(s[1])
  {
    var p := s[..1];
    assert p[..0] == [] && p[0] == s[0];
    assert StringToNat(p) == DigitValue(s[0]);
  }

  lemma FourDigitValue(s: string)
    requires |s| == 4 && AllDigits(s)
    ensures StringToNat(s) == 100 * StringToNat(s[..2]) + StringToNat(s[2..])
  {
    TwoDigitValue(s[..2]);
    TwoDigitValue(s[2..]);
    var p := s[..3];
    assert p[..2] == s[..2] && p[2] == s[2];
  }

  lemma TwoDigitsValue(n: nat)
    requires n < 100
    ensures StringToNat(TwoDigits(n)) == n
  {
    TwoDigitValue(TwoDigits(n));
  }

  lemma FourDigitsValue(n: nat)
    requires n < 10000
    ensures StringToNat(FourDigits(n)) == n
  {
    var s := FourDigits(n);
    assert s[..2] == TwoDigits(n / 100) && s[2..] == TwoDigits(n % 100);
    FourDigitValue(s);
    TwoDigitsValue(n / 100);
    TwoDigitsValue(n % 100);
  }

  /** Exactly ten characters `DDDD-DD-DD`. */
  predicate FullDateShape(s: string) {
    |s| == 10 && s[4] == '-' && s[7] == '-' &&
    AllDigits(s[0..4]) && AllDigits(s[5..7]) && AllDigits(s[8..10])
  }

  /**
   * `parseISO` on a due-date string: the calendar date a full-date names,
   * or None for date-fns' Invalid Date (a string of another shape, or a
   * month or day outside the calendar, such as 2023-02-29).
   */
  function Parse(s: string): (r: Option<Date>)
    ensures r.Some? ==> FullDateShape(s) && ValidDate(r.value) && r.value.year <= 9999
  {
    if !FullDateShape(s) then None
    else
      FourDigitValue(s[0..4]);
      TwoDigitValue(s[0..4][..2]);
      TwoDigitValue(s[0..4][2..]);
      var d := Date(StringToNat(s[0..4]), StringToNat(s[5..7]), StringToNat(s[8..10]));
      if ValidDate(d) then Some(d) else None
  }

  /** The year `yyyy` writes: date-fns prints the era year, so the year 0 (1 BC) is written as 1. */
  function EraYear(y: nat): (e: nat)
    ensures e >= 1 && (y >= 1 ==> e == y)
  {
    if y > 0 then y else 1
  }

  /** `format(date, 'yyyy-MM-dd')`: the year digits, then the month and the day as two digits each. */
  function Format(d: Date): (s: string)
    requires ValidDate(d)
    ensures |s| >= 7 && s[|s| - 6] == '-' && s[|s| - 3] == '-' && AllDigits(s[..|s| - 6])
    ensures d.year <= 9999 ==> FullDateShape(s)
  {
    var y, m, dd := YearDigits(EraYear(d.year)), TwoDigits(d.month), TwoDigits(d.day);
    var s := y + "-" + m + "-" + dd;
    assert s[..|s| - 6] == y;
    s
  }

  /** Writing a date of a year from 1 to 9999 and reading it back gives the same date. */
  lemma ParseFormat(d: Date)
    requires ValidDate(d) && 1 <= d.year <= 9999
    ensures Parse(Format(d)) == Some(d)
  {
    var s := Format(d);
    assert s[0..4] == FourDigits(d.year);
    assert s[5..7] == TwoDigits(d.month);
    assert s[8..10] == TwoDigits(d.day);
    FourDigitsValue(d.year);
    TwoDigitsValue(d.month);
    TwoDigitsValue(d.day);
  }

  /** The ten characters of a date of a year from 1 to 9999, digit by digit. */
  lemma FormatChars(d: Date)
    requires ValidDate(d) && 1 <= d.year <= 9999
    ensures Format(d) == [
      DigitChar(d.year / 100 / 10), DigitChar(d.year / 100 % 10),
      DigitChar(d.year % 100 / 10), DigitChar(d.year % 100 % 10), '-',
      DigitChar(d.month / 10), DigitChar(d.month % 10), '-',
      DigitChar(d.day / 10), DigitChar(d.day % 10)]
  {
  }

  /**
   * A string that parses is exactly the formatting of the date it names,
   * except that a year written "0000" comes back as "0001".
   */
  lemma FormatParse(s: string)
    requires Parse(s).Some?
    ensures var d := Parse(s).value;
      (d.year >= 1 ==> Format(d) == s) &&
      (d.year == 0 ==> Format(d) == "0001" + s[4..])
  {
    var d := Parse(s).value;
    FourDigitsRead(s[0..4]);
    TwoDigitsRead(s[5..7]);
    TwoDigitsRead(s[8..10]);
    assert s == s[0..4] + "-" + s[5..7] + "-" + s[8..10];
    if d.year >= 1 {
      assert YearDigits(EraYear(d.year)) == s[0..4];
    } else {
      assert YearDigits(EraYear(d.year)) == "0001" by {
        assert TwoDigits(0) == "00" && TwoDigits(1) == "01";
      }
      assert s[4..] == "-" + s[5..7] + "-" + s[8..10];
    }
  }

  /** Four digits read as a number and written back are the same four digits. */
  lemma FourDigitsRead(s: string)
    requires |s| == 4 && AllDigits(s)
    ensures StringToNat(s) < 10000 && FourDigits(StringToNat(s)) == s
  {
    var hs, ls := s[..2], s[2..];
    TwoDigitsRead(hs);
    TwoDigitsRead(ls);
    FourDigitValue(s);
    var hi, lo := StringToNat(hs), StringToNat(ls);
    DivMod(hi, lo, 100);
    assert s == hs + ls;
  }

  /** Two digits read as a number and written back are the same two digits. */
  lemma TwoDigitsRead(s: string)
    requires |s| == 2 && AllDigits(s)
    ensures StringToNat(s) < 100 && TwoDigits(StringToNat(s)) == s
  {
    TwoDigitValue(s);
    DivMod(DigitValue(s[0]), DigitValue(s[1]), 10);
    DigitCharOfValue(s[0]);
    DigitCharOfValue(s[1]);
    assert s == [s[0], s[1]];
  }

  /**
   * `isPast(parseISO(s)) && !isToday(parseISO(s))`. `parseISO` gives local
   * midnight of the named day and the current instant lies within `today`,
   * so the test holds exactly for a valid date of an earlier day; for an
   * Invalid Date both date-fns tests are false.
   */
  predicate IsPastDay(s: string, today: Date)
    requires ValidDate(today)
  {
    Parse(s).Some? && DayNumber(Parse(s).value) < DayNumber(today)
  }

  /** `isToday(parseISO(s))`: a valid date naming the current day. */
  predicate IsToday(s: string, today: Date)
    requires ValidDate(today)
  {
    Parse(s).Some? && Parse(s).value == today
  }

  /** A past day is a valid date before `today` in calendar order. */
  lemma PastDayByCalendar(s: string, today: Date)
    requires ValidDate(today)
    ensures IsPastDay(s, today) <==> Parse(s).Some? && Before(Parse(s).value, today)
  {
    if Parse(s).Some? {
      DayNumberOrder(Parse(s).value, today);
    }
  }

  /**
   * Today is a valid date neither before nor after `today` in calendar
   * order, and so never a past day.
   */
  lemma TodayByCalendar(s: string, today: Date)
    requires ValidDate(today)
    ensures IsToday(s, today) <==> Parse(s).Some? && !Before(Parse(s).value, today) && !Before(today, Parse(s).value)
    ensures IsToday(s, today) ==> !IsPastDay(s, today)
  {
    if Parse(s).Some? {
      DayNumberOrder(Parse(s).value, today);
      DayNumberOrder(today, Parse(s).value);
    }
  }
}
