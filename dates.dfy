/** Calendar dates and their `yyyy-MM-dd` rendering, as used for archive file names. */
module Dates {

  /** A Gregorian calendar date, as a .NET `DateTime` holds it. */
  datatype Date = Date(year: int, month: int, day: int)

  predicate IsLeapYear(year: int)
  {
    year % 4 == 0 && (year % 100 != 0 || year % 400 == 0)
  }

  function DaysInMonth(year: int, month: int): (r: int)
    requires 1 <= month <= 12
    ensures 28 <= r <= 31
  {
    if month == 2 then (if IsLeapYear(year) then 29 else 28)
    else if month == 4 || month == 6 || month == 9 || month == 11 then 30
    else 31
  }

  /** The dates a `DateTime` can hold: years 1 to 9999, real months and days. */
  predicate Valid(d: Date)
  {
    1 <= d.year <= 9999 && 1 <= d.month <= 12 && 1 <= d.day <= DaysInMonth(d.year, d.month)
  }

  predicate IsDigit(c: char)
  {
    '0' <= c <= '9'
  }

  function Digit(n: int): (c: char)
    requires 0 <= n < 10
    ensures IsDigit(c)
  {
    (48 + n) as char
  }

  /** The number a string of decimal digits denotes, most significant digit first. */
  function DecimalValue(s: string): int
    requires forall i :: 0 <= i < |s| ==> IsDigit(s[i])
  {
    if |s| == 0 then 0 else DecimalValue(s[..|s| - 1]) * 10 + (s[|s| - 1] as int - 48)
  }

  /** `n` written with exactly two digits, zero-padded (the `MM` and `dd` fields). */
  function TwoDigits(n: int): (r: string)
    requires 0 <= n < 100
    ensures |r| == 2 && IsDigit(r[0]) && IsDigit(r[1])
    ensures DecimalValue(r) == n
  {
    var r := [Digit(n / 10), Digit(n % 10)];
    assert r[..1][..0] == [];
    assert DecimalValue(r[..1]) == n / 10;
    r
  }

  /** `n` written with exactly four digits, zero-padded (the `yyyy` field). */
  function FourDigits(n: int): (r: string)
    requires 0 <= n < 10000
    ensures |r| == 4 && forall i :: 0 <= i < 4 ==> IsDigit(r[i])
    ensures DecimalValue(r) == n
  {
    var r := TwoDigits(n / 100) + TwoDigits(n % 100);
    assert r[..3][..2] == TwoDigits(n / 100);
    assert r[..3] == r[..2] + [r[2]];
    r
  }

  /**
   * `DateTime.ToString("yyyy-MM-dd")`: ten characters, dashes at positions 4
   * and 7, and the three fields read back as the year, month and day.
   */
  function Format(d: Date): (r: string)
    requires Valid(d)
    ensures |r| == 10 && r[4] == '-' && r[7] == '-'
    ensures forall i :: 0 <= i < 10 && i != 4 && i != 7 ==> IsDigit(r[i])
    ensures DecimalValue(r[..4]) == d.year
    ensures DecimalValue(r[5..7]) == d.month
    ensures DecimalValue(r[8..]) == d.day
  {
    var r := FourDigits(d.year) + "-" + TwoDigits(d.month) + "-" + TwoDigits(d.day);
    assert r[..4] == FourDigits(d.year);
    assert r[5..7] == TwoDigits(d.month);
    assert r[8..] == TwoDigits(d.day);
    r
  }
}
