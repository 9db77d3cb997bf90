/**
 * The proleptic Gregorian calendar that JavaScript's Date uses: which
 * (year, month, day) triples are real dates, which strings the Date parser
 * reads as an ISO date-only form, and the day of the week.
 */
module Calendar {
  import opened JsStrings

  predicate IsLeapYear(y: int) {
    y % 4 == 0 && (y % 100 != 0 || y % 400 == 0)
  }

  function DaysInMonth(y: int, m: int): (n: int)
    requires 1 <= m <= 12
    ensures 28 <= n <= 31
    ensures n == 29 <==> m == 2 && IsLeapYear(y)
  {
    if m == 2 then (if IsLeapYear(y) then 29 else 28)
    else if m == 4 || m == 6 || m == 9 || m == 11 then 30
    else 31
  }

  /** month 1 to 12 and day within that month: rejects 30 February, month 13, day 0. */
  predicate IsValidDate(y: int, m: int, d: int) {
    1 <= m <= 12 && 1 <= d <= DaysInMonth(y, m)
  }

  /**
   * The text "YYYY-MM-DD" read by the Date constructor as a valid date-only
   * form: four, two and two decimal digits separated by '-' that name a
   * real calendar date.
   */
  predicate ParsesAsIsoDate(s: string) {
    && |s| == 10 && s[4] == '-' && s[7] == '-'
    && AllDigits(s[..4]) && AllDigits(s[5..7]) && AllDigits(s[8..])
    && IsValidDate(DigitsValue(s[..4], 10), DigitsValue(s[5..7], 10), DigitsValue(s[8..], 10))
  }

  /** Days from 1970-01-01 to the given date of the proleptic Gregorian calendar. */
  function DaysFromEpoch(y: int, m: int, d: int): int
    requires IsValidDate(y, m, d)
  {
    var y' := if m <= 2 then y - 1 else y;
    var era := y' / 400;
    var yoe := y' - era * 400;
    var mp := (m + 9) % 12;
    var doy := (153 * mp + 2) / 5 + d - 1;
    var doe := yoe * 365 + yoe / 4 - yoe / 100 + doy;
    era * 146097 + doe - 719468
  }

  /** 0 for Sunday up to 6 for Saturday (1970-01-01 was a Thursday). */
  function Weekday(y: int, m: int, d: int): (w: int)
    requires IsValidDate(y, m, d)
    ensures 0 <= w < 7
  {
    (DaysFromEpoch(y, m, d) + 4) % 7
  }
}
