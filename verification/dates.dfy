/** The posting dates the CSV export sorts by: `datetime.strptime(date, '%b %d, %Y')` in the
    C locale, as in "Jan 5, 2021", and the order of the resulting datetimes. */
module Dates {
  import opened Wrappers
  import opened Text

  datatype Date = Date(year: nat, month: nat, day: nat)

  /** The month abbreviations of `%b`, as the forum prints them. */
  const MonthNames: seq<string> :=
    ["Jan", "Feb", "Mar", "Apr", "May", "Jun", "Jul", "Aug", "Sep", "Oct", "Nov", "Dec"]

  /** The same, lower-cased; `%b` matches without regard to case. */
  const MonthKeys: seq<string> :=
    ["jan", "feb", "mar", "apr", "may", "jun", "jul", "aug", "sep", "oct", "nov", "dec"]

  predicate IsLeap(year: nat) {
    year % 4 == 0 && (year % 100 != 0 || year % 400 == 0)
  }

  function DaysIn(month: nat, year: nat): (n: nat)
    requires 1 <= month <= 12
    ensures 28 <= n <= 31
  {
    if month == 2 then (if IsLeap(year) then 29 else 28)
    else if month in {4, 6, 9, 11} then 30
    else 31
  }

  /** What `datetime` accepts. */
  predicate ValidDate(d: Date) {
    1 <= d.year <= 9999 && 1 <= d.month <= 12 && 1 <= d.day <= DaysIn(d.month, d.year)
  }

  /** The month number (1-based) whose abbreviation is `m`, ignoring case, searched from
      index `i`. */
  function MonthFrom(m: string, i: nat): (r: Option<nat>)
    requires i <= 12
    ensures r.Some? ==> i + 1 <= r.value <= 12 && Lower(m) == MonthKeys[r.value - 1]
    ensures r.None? ==> forall j :: i <= j < 12 ==> Lower(m) != MonthKeys[j]
    decreases 12 - i
  {
    if i == 12 then None
    else if Lower(m) == MonthKeys[i] then Some(i + 1)
    else MonthFrom(m, i + 1)
  }

  function MonthOf(m: string): Option<nat> {
    MonthFrom(m, 0)
  }

  /** `strptime(s, '%b %d, %Y')` with single spaces: a month abbreviation in any case, a space,
      a day of one or two digits, a comma, a space and a four-digit year; `None` is the
      `ValueError`, including for a day the month does not have. */
  function ParseDate(s: string): (r: Option<Date>)
    ensures r.Some? ==> ValidDate(r.value)
  {
    if |s| != 11 && |s| != 12 then None
    else
      var width := |s| - 10;
      var month := MonthOf(s[..3]);
      var day := ParseInt(s[4..4 + width]);
      var year := ParseInt(s[6 + width..]);
      if && month.Some? && s[3] == ' ' && s[4 + width] == ',' && s[5 + width] == ' '
         && day.Some? && year.Some?
         && 1 <= month.value <= 12 && 1 <= year.value
         && 1 <= day.value <= DaysIn(month.value, year.value)
      then
        assert year.value <= 9999 by {
          DigitsValueBound(s[6 + width..]);
        }
        Some(Date(year.value, month.value, day.value))
      else None
  }

  lemma {:induction false} DigitsValueBound(s: string)
    requires forall i :: 0 <= i < |s| ==> IsDigit(s[i])
    ensures DigitsValue(s) < Pow10(|s|)
    decreases |s|
  {
    if |s| > 0 {
      DigitsValueBound(s[..|s| - 1]);
    }
  }

  function Pow10(n: nat): (r: nat)
    ensures r >= 1
  {
    if n == 0 then 1 else 10 * Pow10(n - 1)
  }

  /** The forum's rendering of a date with a four-digit year. */
  function FormatDate(d: Date): string
    requires ValidDate(d) && d.year >= 1000
  {
    MonthNames[d.month - 1] + " " + NatToString(d.day) + ", " + NatToString(d.year)
  }

  /** A position in time: the order of the datetimes `strptime` returns. */
  function Ordinal(d: Date): int {
    (d.year * 13 + d.month) * 32 + d.day
  }

  ghost predicate Before(a: Date, b: Date) {
    a.year < b.year
    || (a.year == b.year && a.month < b.month)
    || (a.year == b.year && a.month == b.month && a.day < b.day)
  }

  // ---------------------------------------------------------------- properties

  /** Comparing ordinals compares valid dates by year, then month, then day, and equal
      ordinals mean equal dates. */
  lemma OrdinalOrder(a: Date, b: Date)
    requires ValidDate(a) && ValidDate(b)
    ensures Ordinal(a) < Ordinal(b) <==> Before(a, b)
    ensures Ordinal(a) == Ordinal(b) <==> a == b
  {
  }

  lemma {:induction false} NatToStringLength(n: nat)
    ensures n < 10 ==> |NatToString(n)| == 1
    ensures 10 <= n < 100 ==> |NatToString(n)| == 2
    ensures 1000 <= n < 10000 ==> |NatToString(n)| == 4
  {
    if n >= 10 {
      NatToStringLength(n / 10);
      if n >= 1000 {
        NatToStringLength(n / 100);
        NatToStringLength(n / 1000);
      }
    }
  }

  lemma MonthKeysDistinct(i: nat, j: nat)
    requires i < 12 && j < 12 && i != j
    ensures MonthKeys[i] != MonthKeys[j]
  {
    var a, b := MonthKeys[i], MonthKeys[j];
    assert a[0] != b[0] || a[1] != b[1] || a[2] != b[2];
  }

  lemma MonthNameLower(i: nat)
    requires i < 12
    ensures Lower(MonthNames[i]) == MonthKeys[i]
  {
    var name := MonthNames[i];
    assert |name| == 3;
    assert Lower(name)[0] == MonthKeys[i][0];
    assert Lower(name)[1] == MonthKeys[i][1];
    assert Lower(name)[2] == MonthKeys[i][2];
  }

  /** Every abbreviation reads back as its own month. */
  lemma MonthRoundTrip(month: nat)
    requires 1 <= month <= 12
    ensures MonthOf(MonthNames[month - 1]) == Some(month)
  {
    MonthNameLower(month - 1);
    var r := MonthOf(MonthNames[month - 1]);
    if r.value != month {
      MonthKeysDistinct(r.value - 1, month - 1);
    }
  }

  /** A rendered date parses back to itself. */
  lemma ParseFormat(d: Date)
    requires ValidDate(d) && d.year >= 1000
    ensures ParseDate(FormatDate(d)) == Some(d)
  {
    var s := FormatDate(d);
    var dayText := NatToString(d.day);
    var yearText := NatToString(d.year);
    NatToStringLength(d.day);
    NatToStringLength(d.year);
    var width := |dayText|;
    assert |s| == 10 + width;
    assert s[..3] == MonthNames[d.month - 1];
    assert s[3] == ' ';
    assert s[4..4 + width] == dayText;
    assert s[4 + width] == ',' && s[5 + width] == ' ';
    assert s[6 + width..] == yearText;
    MonthRoundTrip(d.month);
    NatToStringRoundTrip(d.day);
    NatToStringRoundTrip(d.year);
  }
}
