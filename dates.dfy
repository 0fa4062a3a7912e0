/**
 * Calendar dates as Python's `date` holds them, and their `'%d/%m/%Y'` text,
 * which keys the watch buckets and fills the project's `due-date`.
 */
module Dates {
  import opened Wrappers
  import opened Decimal

  datatype Date = Date(day: nat, month: nat, year: nat)

  predicate IsLeapYear(year: nat) {
    year % 4 == 0 && (year % 100 != 0 || year % 400 == 0)
  }

  function DaysInMonth(month: nat, year: nat): nat
    requires 1 <= month <= 12
  {
    if month == 2 then (if IsLeapYear(year) then 29 else 28)
    else if month in {4, 6, 9, 11} then 30
    else 31
  }

  /** The dates a Python `date` can hold (years 1 to 9999). */
  predicate IsCalendarDate(d: Date) {
    1 <= d.year <= 9999 && 1 <= d.month <= 12 && 1 <= d.day <= DaysInMonth(d.month, d.year)
  }

  type CalendarDate = d: Date | IsCalendarDate(d) witness Date(1, 1, 1)

  /** `d.strftime('%d/%m/%Y')`: two-digit day, two-digit month, four-digit year. */
  function Format(d: CalendarDate): (s: string)
    ensures |s| == 10 && s[2] == '/' && s[5] == '/'
    ensures AllDigits(s[..2]) && AllDigits(s[3..5]) && AllDigits(s[6..])
  {
    var s := ZeroPad(d.day, 2) + "/" + ZeroPad(d.month, 2) + "/" + ZeroPad(d.year, 4);
    assert s[..2] == ZeroPad(d.day, 2) && s[3..5] == ZeroPad(d.month, 2) && s[6..] == ZeroPad(d.year, 4);
    s
  }

  /** Reads a `DD/MM/YYYY` text back into its day, month and year. */
  function Unformat(s: string): Option<Date> {
    if |s| == 10 && s[2] == '/' && s[5] == '/'
       && AllDigits(s[..2]) && AllDigits(s[3..5]) && AllDigits(s[6..])
    then Some(Date(ParseNat(s[..2]), ParseNat(s[3..5]), ParseNat(s[6..])))
    else None
  }

  /** The formatted text of a date reads back as that date. */
  lemma FormatRoundTrip(d: CalendarDate)
    ensures Unformat(Format(d)) == Some(d)
  {
    var s := Format(d);
    assert s[..2] == ZeroPad(d.day, 2) && s[3..5] == ZeroPad(d.month, 2) && s[6..] == ZeroPad(d.year, 4);
    ZeroPadRoundTrip(d.day, 2);
    ZeroPadRoundTrip(d.month, 2);
    ZeroPadRoundTrip(d.year, 4);
  }

  /** Two dates share a bucket key exactly when they are the same date. */
  lemma FormatInjective(a: CalendarDate, b: CalendarDate)
    ensures Format(a) == Format(b) <==> a == b
  {
    if Format(a) == Format(b) {
      FormatRoundTrip(a);
      FormatRoundTrip(b);
    }
  }
}
