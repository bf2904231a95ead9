/** chrono's calendar values as the evaluator receives them: `NaiveDate` (a day of the
    proleptic Gregorian calendar) rendered with `%Y-%m-%d`, and `DateTime<FixedOffset>`. */
module Calendar {
  import opened Prelude
  import Decimal

  /** A year, month and day, not necessarily a day that exists. */
  datatype Date = Date(year: int, month: nat, day: nat)

  predicate IsLeapYear(y: int)
  {
    y % 4 == 0 && (y % 100 != 0 || y % 400 == 0)
  }

  function DaysInMonth(y: int, m: nat): nat
    requires 1 <= m <= 12
  {
    if m == 2 then (if IsLeapYear(y) then 29 else 28)
    else if m == 4 || m == 6 || m == 9 || m == 11 then 30
    else 31
  }

  /** The day exists in the proleptic Gregorian calendar. */
  predicate ValidDate(d: Date)
  {
    1 <= d.month <= 12 && 1 <= d.day <= DaysInMonth(d.year, d.month)
  }

  /** `chrono::NaiveDate`: only days that exist. */
  type NaiveDate = d: Date | ValidDate(d) witness Date(1970, 1, 1)

  /** `DateTime<FixedOffset>`: a local date and time of day with its offset from UTC. The
      fields are not constrained to chrono's ranges (a second of the day below 86400, a
      nanosecond below 2 * 10^9 to allow a leap second, an offset under a day either way):
      only the abstract RFC 3339 rendering of NOW reads them, and no stated property depends
      on their ranges. */
  datatype DateTime = DateTime(date: NaiveDate, secondOfDay: nat, nanosecond: nat, offsetSeconds: int)

  /** chrono's `%Y`: years 0 to 9999 as four digits with leading zeros; any other year with
      an explicit sign in front of at least four digits (`{:+05}`). */
  function FormatYear(y: int): (s: string)
    ensures 0 <= y <= 9999 ==> |s| == 4 && Decimal.AllDigits(s) && Decimal.Value(s) == y
    ensures y < 0 ==> |s| >= 5 && s[0] == '-'
    ensures y > 9999 ==> |s| >= 6 && s[0] == '+'
  {
    var digits := Decimal.ZeroPad(if y < 0 then -y else y, 4);
    if y < 0 then "-" + digits else if y > 9999 then "+" + digits else digits
  }

  /** `date.format("%Y-%m-%d")`: the year, then the month and the day as two digits each. */
  function FormatYmd(d: Date): string
  {
    FormatYear(d.year) + "-" + Decimal.ZeroPad(d.month, 2) + "-" + Decimal.ZeroPad(d.day, 2)
  }

  /** The full-date production of section 5.6 of RFC 3339: 4DIGIT "-" 2DIGIT "-" 2DIGIT,
      naming a day that exists. */
  function ParseFullDate(s: string): (r: Option<NaiveDate>)
    ensures r.Some? ==> 0 <= r.value.year <= 9999
  {
    if |s| == 10 && s[4] == '-' && s[7] == '-'
       && Decimal.AllDigits(s[..4]) && Decimal.AllDigits(s[5..7]) && Decimal.AllDigits(s[8..])
    then
      var d := Date(Decimal.Value(s[..4]), Decimal.Value(s[5..7]), Decimal.Value(s[8..]));
      if ValidDate(d) then Some(d) else None
    else None
  }

  /** For years 0 to 9999, `%Y-%m-%d` is ten characters with '-' at positions 4 and 7 and
      digits everywhere else. */
  lemma FormatYmdShape(d: NaiveDate)
    requires 0 <= d.year <= 9999
    ensures var s := FormatYmd(d);
      |s| == 10 && s[4] == '-' && s[7] == '-'
      && forall i | 0 <= i < 10 && i != 4 && i != 7 :: Decimal.IsDigit(s[i])
  {
    var y, m, dd := FormatYear(d.year), Decimal.ZeroPad(d.month, 2), Decimal.ZeroPad(d.day, 2);
    assert |m| == 2 && |dd| == 2;
    var s := FormatYmd(d);
    assert s == y + "-" + m + "-" + dd;
    forall i | 0 <= i < 10 && i != 4 && i != 7 ensures Decimal.IsDigit(s[i]) {
      if i < 4 { assert s[i] == y[i]; }
      else if i < 7 { assert s[i] == m[i - 5]; }
      else { assert s[i] == dd[i - 8]; }
    }
  }

  /** A date rendered by TODAY reads back, as an RFC 3339 full-date, as the same date. */
  lemma FormatThenParse(d: NaiveDate)
    requires 0 <= d.year <= 9999
    ensures ParseFullDate(FormatYmd(d)) == Some(d)
  {
    var y, m, dd := FormatYear(d.year), Decimal.ZeroPad(d.month, 2), Decimal.ZeroPad(d.day, 2);
    var s := FormatYmd(d);
    FormatYmdShape(d);
    assert s[..4] == y && s[5..7] == m && s[8..] == dd;
  }

  /** Conversely, every RFC 3339 full-date is the TODAY rendering of the date it names, so
      the rendering of dates in years 0 to 9999 is exactly the full-date form. */
  lemma ParseThenFormat(s: string)
    requires ParseFullDate(s).Some?
    ensures FormatYmd(ParseFullDate(s).value) == s
  {
    var d := ParseFullDate(s).value;
    var y, m, dd := s[..4], s[5..7], s[8..];
    Decimal.FixedDigitsOfValue(y);
    Decimal.FixedDigitsOfValue(m);
    Decimal.FixedDigitsOfValue(dd);
    Decimal.ValueInjective(FormatYear(d.year), y);
    Decimal.ValueInjective(Decimal.ZeroPad(d.month, 2), m);
    Decimal.ValueInjective(Decimal.ZeroPad(d.day, 2), dd);
    assert s == y + "-" + m + "-" + dd;
  }
}
