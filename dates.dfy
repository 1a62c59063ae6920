/**
 * Dates of birth as written in the students file: the `dd-MM-yyyy` pattern of
 * `DateTimeFormatter.ofPattern`, formatted with `LocalDate.format` and read back
 * with `LocalDate.parse` under that formatter's default (smart) resolver.
 */
module Dates {
  import opened Wrappers
  import opened JavaInt
  import JavaString

  datatype Date = Date(day: int, month: int, year: int)

  predicate IsLeapYear(year: int) {
    year % 4 == 0 && (year % 100 != 0 || year % 400 == 0)
  }

  function MonthLength(month: int, year: int): int
  {
    if month == 2 then (if IsLeapYear(year) then 29 else 28)
    else if month == 4 || month == 6 || month == 9 || month == 11 then 30
    else 31
  }

  /** A real calendar date whose year the four-digit pattern writes without a sign. */
  predicate IsCalendarDate(d: Date) {
    1 <= d.year <= 9999 && 1 <= d.month <= 12 && 1 <= d.day <= MonthLength(d.month, d.year)
  }

  type CalendarDate = d: Date | IsCalendarDate(d) witness Date(1, 1, 2000)

  function TwoDigits(n: int): (r: string)
    requires 0 <= n < 100
  {
    [DigitChar(n / 10), DigitChar(n % 10)]
  }

  /** `date.format(ofPattern("dd-MM-yyyy"))`: zero-padded day, month and year. */
  function Format(d: CalendarDate): (r: string)
    ensures |r| == 10 && r[2] == '-' && r[5] == '-'
    ensures forall i :: 0 <= i < 10 && i != 2 && i != 5 ==> IsDigit(r[i])
    ensures JavaString.CommaFree(r)
  {
    TwoDigits(d.day) + "-" + TwoDigits(d.month) + "-" + TwoDigits(d.year / 100) + TwoDigits(d.year % 100)
  }

  predicate DigitsAt(s: string, lo: nat, hi: nat)
    requires lo <= hi <= |s|
  {
    forall i :: lo <= i < hi ==> IsDigit(s[i])
  }

  /** The shape `dd-MM-yyyy`: ten characters, dashes at 2 and 5, digits elsewhere. */
  predicate HasDateShape(s: string) {
    |s| == 10 && s[2] == '-' && s[5] == '-' && DigitsAt(s, 0, 2) && DigitsAt(s, 3, 5) && DigitsAt(s, 6, 10)
  }

  function DayField(s: string): int
    requires HasDateShape(s)
  {
    10 * DigitValue(s[0]) + DigitValue(s[1])
  }

  function MonthField(s: string): int
    requires HasDateShape(s)
  {
    10 * DigitValue(s[3]) + DigitValue(s[4])
  }

  function YearField(s: string): int
    requires HasDateShape(s)
  {
    1000 * DigitValue(s[6]) + 100 * DigitValue(s[7]) + 10 * DigitValue(s[8]) + DigitValue(s[9])
  }

  function Min(a: int, b: int): int {
    if a <= b then a else b
  }

  /**
   * `LocalDate.parse(s, ofPattern("dd-MM-yyyy"))`. The text must have the exact
   * shape; day 1..31, month 1..12 and year-of-era at least 1 are range-checked
   * (a `DateTimeParseException`, here `None`, otherwise); the smart resolver then
   * moves a day past the end of its month back to the month's last day.
   */
  function Parse(s: string): (r: Option<CalendarDate>)
    ensures r.Some? ==> HasDateShape(s)
    ensures r.Some? ==> r.value.month == MonthField(s) && r.value.year == YearField(s)
    ensures r.None? <==> !HasDateShape(s) || !(1 <= DayField(s) <= 31 && 1 <= MonthField(s) <= 12 && 1 <= YearField(s))
    ensures r.Some? ==> r.value.day == Min(DayField(s), MonthLength(MonthField(s), YearField(s)))
    ensures r.Some? ==> r.value.day <= DayField(s) <= 31
  {
    if !HasDateShape(s) then None
    else
      var day, month, year := DayField(s), MonthField(s), YearField(s);
      if !(1 <= day <= 31 && 1 <= month <= 12 && 1 <= year) then None
      else Some(Date(Min(day, MonthLength(month, year)), month, year))
  }

  /** A two-digit field reads back as the number it was written for. */
  lemma TwoDigitsValue(n: int)
    requires 0 <= n < 100
    ensures var t := TwoDigits(n); IsDigit(t[0]) && IsDigit(t[1]) && 10 * DigitValue(t[0]) + DigitValue(t[1]) == n
  {
  }

  /** The fields read from a formatted date are the date's own. */
  lemma FormatFields(d: CalendarDate)
    ensures HasDateShape(Format(d))
    ensures DayField(Format(d)) == d.day && MonthField(Format(d)) == d.month && YearField(Format(d)) == d.year
  {
    var s := Format(d);
    var dd, mm, hi, lo := TwoDigits(d.day), TwoDigits(d.month), TwoDigits(d.year / 100), TwoDigits(d.year % 100);
    assert s == dd + "-" + mm + "-" + hi + lo;
    assert s[0] == dd[0] && s[1] == dd[1] && s[3] == mm[0] && s[4] == mm[1];
    assert s[6] == hi[0] && s[7] == hi[1] && s[8] == lo[0] && s[9] == lo[1];
    TwoDigitsValue(d.day);
    TwoDigitsValue(d.month);
    TwoDigitsValue(d.year / 100);
    TwoDigitsValue(d.year % 100);
    assert YearField(s) == 100 * (10 * DigitValue(s[6]) + DigitValue(s[7])) + (10 * DigitValue(s[8]) + DigitValue(s[9]));
  }

  /** Every date reads back as itself. */
  lemma ParseFormat(d: CalendarDate)
    ensures Parse(Format(d)) == Some(d)
  {
    FormatFields(d);
  }

  /** Two digit pairs that denote the same number are the same digits. */
  lemma SameDigits(a0: char, a1: char, b0: char, b1: char)
    requires IsDigit(a0) && IsDigit(a1) && IsDigit(b0) && IsDigit(b1)
    requires 10 * DigitValue(a0) + DigitValue(a1) == 10 * DigitValue(b0) + DigitValue(b1)
    ensures a0 == b0 && a1 == b1
  {
  }

  /** A text of the date shape is determined by the three numbers read from it. */
  lemma FieldsDetermineText(s: string, t: string)
    requires HasDateShape(s) && HasDateShape(t)
    requires DayField(s) == DayField(t) && MonthField(s) == MonthField(t) && YearField(s) == YearField(t)
    ensures s == t
  {
    SameDigits(s[0], s[1], t[0], t[1]);
    SameDigits(s[3], s[4], t[3], t[4]);
    var sHi, sLo := 10 * DigitValue(s[6]) + DigitValue(s[7]), 10 * DigitValue(s[8]) + DigitValue(s[9]);
    var tHi, tLo := 10 * DigitValue(t[6]) + DigitValue(t[7]), 10 * DigitValue(t[8]) + DigitValue(t[9]);
    assert 100 * sHi + sLo == 100 * tHi + tLo;
    SameDigits(s[6], s[7], t[6], t[7]);
    SameDigits(s[8], s[9], t[8], t[9]);
    assert forall i :: 0 <= i < 10 ==> s[i] == t[i];
  }

  /**
   * A text that parses writes back unchanged exactly when its day exists in its
   * month; otherwise the clamped day is written.
   */
  lemma FormatParse(s: string, d: CalendarDate)
    requires Parse(s) == Some(d)
    ensures Format(d) == s <==> DayField(s) <= MonthLength(MonthField(s), YearField(s))
  {
    FormatFields(d);
    if DayField(s) <= MonthLength(MonthField(s), YearField(s)) {
      FieldsDetermineText(Format(d), s);
    } else {
      assert DayField(Format(d)) != DayField(s);
    }
  }
}
