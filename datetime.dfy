/**
 * Calendar date-times written as "YYYY-MM-DDTHH:MM", the layout that
 * `datetime.strptime(s, "%Y-%m-%dT%H:%M")` checks in `city_weather`.
 * Every field is taken here at its fixed width (4 digits for the year, 2 for
 * the others).
 */
module DateTimes {
  import opened Common

  predicate IsDigit(c: char) {
    '0' <= c <= '9'
  }

  function DigitValue(c: char): (d: nat)
    requires IsDigit(c)
    ensures d < 10
  {
    (c as int) - ('0' as int)
  }

  function DigitChar(d: nat): (c: char)
    requires d < 10
    ensures IsDigit(c) && DigitValue(c) == d
  {
    (('0' as int) + d) as char
  }

  /** The two-digit, zero-padded text of `n`. */
  function Pad2(n: nat): (s: string)
    requires n < 100
    ensures |s| == 2 && IsDigit(s[0]) && IsDigit(s[1])
    ensures 10 * DigitValue(s[0]) + DigitValue(s[1]) == n
  {
    [DigitChar(n / 10), DigitChar(n % 10)]
  }

  /** The four-digit, zero-padded text of `n`. */
  function Pad4(n: nat): (s: string)
    requires n < 10000
    ensures |s| == 4
  {
    Pad2(n / 100) + Pad2(n % 100)
  }

  /** The value of the two digits at `s[i]`, `s[i+1]`. */
  function Num2(s: string, i: nat): nat
    requires i + 2 <= |s| && IsDigit(s[i]) && IsDigit(s[i + 1])
  {
    10 * DigitValue(s[i]) + DigitValue(s[i + 1])
  }

  lemma Pad2OfDigits(a: char, b: char)
    requires IsDigit(a) && IsDigit(b)
    ensures Pad2(10 * DigitValue(a) + DigitValue(b)) == [a, b]
  {
    var n := 10 * DigitValue(a) + DigitValue(b);
    assert n / 10 == DigitValue(a) && n % 10 == DigitValue(b);
  }

  datatype DateTime = DateTime(year: int, month: int, day: int, hour: int, minute: int)

  /** Gregorian leap years, as Python's `calendar.isleap`. */
  predicate IsLeapYear(y: int) {
    y % 4 == 0 && (y % 100 != 0 || y % 400 == 0)
  }

  function DaysInMonth(y: int, m: int): (d: int)
    requires 1 <= m <= 12
    ensures 28 <= d <= 31
    ensures d == 29 <==> m == 2 && IsLeapYear(y)
    ensures d == 28 <==> m == 2 && !IsLeapYear(y)
  {
    if m == 2 then (if IsLeapYear(y) then 29 else 28)
    else if m == 4 || m == 6 || m == 9 || m == 11 then 30
    else 31
  }

  /** A real instant: Python's `datetime` range is years 1 to 9999. */
  predicate Valid(dt: DateTime) {
    && 1 <= dt.year <= 9999
    && 1 <= dt.month <= 12
    && 1 <= dt.day <= DaysInMonth(dt.year, dt.month)
    && 0 <= dt.hour <= 23
    && 0 <= dt.minute <= 59
  }

  /** Digits and separators in the places "YYYY-MM-DDTHH:MM" puts them. */
  predicate WellFormed(s: string) {
    && |s| == 16
    && IsDigit(s[0]) && IsDigit(s[1]) && IsDigit(s[2]) && IsDigit(s[3])
    && s[4] == '-'
    && IsDigit(s[5]) && IsDigit(s[6])
    && s[7] == '-'
    && IsDigit(s[8]) && IsDigit(s[9])
    && s[10] == 'T'
    && IsDigit(s[11]) && IsDigit(s[12])
    && s[13] == ':'
    && IsDigit(s[14]) && IsDigit(s[15])
  }

  /** The canonical text of an instant. */
  function Format(dt: DateTime): (s: string)
    requires Valid(dt)
    ensures WellFormed(s)
    ensures 100 * Num2(s, 0) + Num2(s, 2) == dt.year
    ensures Num2(s, 5) == dt.month && Num2(s, 8) == dt.day
    ensures Num2(s, 11) == dt.hour && Num2(s, 14) == dt.minute
  {
    Pad4(dt.year) + "-" + Pad2(dt.month) + "-" + Pad2(dt.day) + "T" + Pad2(dt.hour) + ":" + Pad2(dt.minute)
  }

  /**
   * `datetime.strptime(s, "%Y-%m-%dT%H:%M")`: the instant `s` denotes, or
   * None where strptime raises ValueError.
   */
  function Parse(s: string): (r: Option<DateTime>)
    ensures r.Some? ==> Valid(r.value) && Format(r.value) == s
  {
    if !WellFormed(s) then None
    else
      var dt := DateTime(100 * Num2(s, 0) + Num2(s, 2), Num2(s, 5), Num2(s, 8), Num2(s, 11), Num2(s, 14));
      if Valid(dt) then
        FormatOfFields(s, dt);
        Some(dt)
      else None
  }

  lemma FormatOfFields(s: string, dt: DateTime)
    requires WellFormed(s) && Valid(dt)
    requires dt == DateTime(100 * Num2(s, 0) + Num2(s, 2), Num2(s, 5), Num2(s, 8), Num2(s, 11), Num2(s, 14))
    ensures Format(dt) == s
  {
    var f := Format(dt);
    YearHalvesEqual(Num2(f, 0), Num2(f, 2), Num2(s, 0), Num2(s, 2));
    TwoDigitFieldsEqual(f, s, 0);
    TwoDigitFieldsEqual(f, s, 2);
    TwoDigitFieldsEqual(f, s, 5);
    TwoDigitFieldsEqual(f, s, 8);
    TwoDigitFieldsEqual(f, s, 11);
    TwoDigitFieldsEqual(f, s, 14);
    assert forall i | 0 <= i < 16 :: f[i] == s[i];
  }

  /** Two digit pairs with the same value are the same characters. */
  lemma TwoDigitFieldsEqual(a: string, b: string, i: nat)
    requires i + 2 <= |a| && IsDigit(a[i]) && IsDigit(a[i + 1])
    requires i + 2 <= |b| && IsDigit(b[i]) && IsDigit(b[i + 1])
    requires Num2(a, i) == Num2(b, i)
    ensures a[i] == b[i] && a[i + 1] == b[i + 1]
  {
    Pad2OfDigits(a[i], a[i + 1]);
    Pad2OfDigits(b[i], b[i + 1]);
  }

  lemma YearHalvesEqual(a: nat, b: nat, c: nat, d: nat)
    requires b < 100 && d < 100 && 100 * a + b == 100 * c + d
    ensures a == c && b == d
  {
  }

  /** Every real instant is read back from its canonical text. */
  lemma ParseFormat(dt: DateTime)
    requires Valid(dt)
    ensures Parse(Format(dt)) == Some(dt)
  {
    var s := Format(dt);
    assert 100 * Num2(s, 0) + Num2(s, 2) == dt.year;
  }

  /** Two texts that denote the same instant are the same text. */
  lemma ParseInjective(s: string, t: string)
    requires Parse(s).Some? && Parse(s) == Parse(t)
    ensures s == t
  {
  }
}
