/** Date codec: the "DD/MM" header text of the booking table becomes a
    calendar date in 2025, and a calendar date becomes the "YYYY-MM-DD"
    text the booking site expects in its query form. The string helpers
    model the JavaScript built-ins the codec relies on: `split`, `Number`,
    `toString` and `padStart`. */
module DateCodec {
  import opened BookingTypes

  /** The year every "DD/MM" header is read in. */
  const YEAR: nat := 2025

  predicate IsDigit(c: char) {
    '0' <= c <= '9'
  }

  predicate AllDigits(s: string) {
    forall i :: 0 <= i < |s| ==> IsDigit(s[i])
  }

  /** A non-empty run of decimal digits. */
  predicate IsNumeral(s: string) {
    |s| > 0 && AllDigits(s)
  }

  function DigitValue(c: char): (v: nat)
    requires IsDigit(c)
    ensures v < 10
  {
    c as int - '0' as int
  }

  function DigitChar(v: nat): (c: char)
    requires v < 10
    ensures IsDigit(c) && DigitValue(c) == v
  {
    ('0' as int + v) as char
  }

  /** `Number(s)` for a string of decimal digits. */
  function NumberValue(s: string): (v: nat)
    requires AllDigits(s)
    ensures v == 0 <==> forall i :: 0 <= i < |s| ==> s[i] == '0'
  {
    if s == [] then 0
    else
      assert forall i :: 0 <= i < |s| - 1 ==> s[..|s| - 1][i] == s[i];
      10 * NumberValue(s[..|s| - 1]) + DigitValue(s[|s| - 1])
  }

  /** `n.toString()` for a non-negative integer: the decimal numeral of `n`,
      without leading zeros. */
  function NatToString(n: nat): (s: string)
    ensures IsNumeral(s)
    ensures NumberValue(s) == n
    ensures s[0] == '0' ==> s == "0"
    ensures |s| == 1 <==> n < 10
    ensures |s| <= 2 <==> n < 100
  {
    if n < 10 then [DigitChar(n)]
    else
      var prefix := NatToString(n / 10);
      assert (prefix + [DigitChar(n % 10)])[..|prefix|] == prefix;
      prefix + [DigitChar(n % 10)]
  }

  /** `s.padStart(width, fill)` for a one-character fill. */
  function PadStart(s: string, width: nat, fill: char): (r: string)
    ensures |r| == if |s| >= width then |s| else width
    ensures r[|r| - |s|..] == s
    ensures forall i :: 0 <= i < |r| - |s| ==> r[i] == fill
  {
    if |s| >= width then s else seq(width - |s|, _ => fill) + s
  }

  /** A number's decimal numeral, padded on the left with '0' to two characters. */
  function Pad2(n: nat): (s: string)
    ensures |s| == 2 <==> n < 100
    ensures n < 10 ==> s[0] == '0'
  {
    PadStart(NatToString(n), 2, '0')
  }

  lemma {:induction false} ZerosValue(zeros: string)
    requires forall i :: 0 <= i < |zeros| ==> zeros[i] == '0'
    ensures AllDigits(zeros) && NumberValue(zeros) == 0
  {
    if zeros != [] {
      ZerosValue(zeros[..|zeros| - 1]);
    }
  }

  /** Leading zeros do not change the value `Number` reads. */
  lemma {:induction false} LeadingZerosValue(zeros: string, s: string)
    requires forall i :: 0 <= i < |zeros| ==> zeros[i] == '0'
    requires AllDigits(s)
    ensures AllDigits(zeros + s) && NumberValue(zeros + s) == NumberValue(s)
  {
    if s == [] {
      assert zeros + s == zeros;
      ZerosValue(zeros);
    } else {
      LeadingZerosValue(zeros, s[..|s| - 1]);
      assert (zeros + s)[..|zeros + s| - 1] == zeros + s[..|s| - 1];
    }
  }

  /** A number below 100, written by `Pad2`, is two digits that read back as the number. */
  lemma Pad2Reads(n: nat)
    requires n < 100
    ensures |Pad2(n)| == 2 && IsNumeral(Pad2(n)) && NumberValue(Pad2(n)) == n
  {
    var s := NatToString(n);
    if |s| < 2 {
      var zeros := seq(2 - |s|, _ => '0');
      assert Pad2(n) == zeros + s;
      LeadingZerosValue(zeros, s);
    }
  }

  /** A string of digits holds no character that is not a digit. */
  lemma DigitsExclude(s: string, c: char)
    requires AllDigits(s) && !IsDigit(c)
    ensures c !in s
  {
  }

  /** The first index of `c` in `s`, or `|s|` when `c` does not occur. */
  function IndexOf(s: string, c: char): (i: nat)
    ensures i <= |s|
    ensures i < |s| ==> s[i] == c
    ensures forall k :: 0 <= k < i ==> s[k] != c
  {
    if s == [] then 0 else if s[0] == c then 0 else 1 + IndexOf(s[1..], c)
  }

  /** `s.split(separator)` for a one-character separator. */
  function Split(s: string, separator: char): (parts: seq<string>)
    ensures |parts| >= 1
    ensures forall k :: 0 <= k < |parts| ==> separator !in parts[k]
    decreases |s|
  {
    var i := IndexOf(s, separator);
    if i == |s| then [s] else [s[..i]] + Split(s[i + 1..], separator)
  }

  /** The inverse of `Split`: the parts glued back with the separator. */
  function Join(parts: seq<string>, separator: char): string
    requires |parts| >= 1
  {
    if |parts| == 1 then parts[0] else parts[0] + [separator] + Join(parts[1..], separator)
  }

  /** Splitting gives back the pieces the string was joined from. */
  lemma {:induction false} SplitJoin(parts: seq<string>, separator: char)
    requires |parts| >= 1
    requires forall k :: 0 <= k < |parts| ==> separator !in parts[k]
    ensures Split(Join(parts, separator), separator) == parts
  {
    var s := Join(parts, separator);
    var i := IndexOf(s, separator);
    if |parts| > 1 {
      var rest := Join(parts[1..], separator);
      assert s == parts[0] + [separator] + rest;
      assert s[|parts[0]|] == separator;
      assert i == |parts[0]|;
      assert s[..i] == parts[0];
      assert s[i + 1..] == rest;
      SplitJoin(parts[1..], separator);
    }
  }

  predicate IsLeapYear(year: int) {
    year % 4 == 0 && (year % 100 != 0 || year % 400 == 0)
  }

  function DaysInMonth(year: int, month: int): nat
    requires 1 <= month <= 12
  {
    if month == 2 then (if IsLeapYear(year) then 29 else 28)
    else if month == 4 || month == 6 || month == 9 || month == 11 then 30
    else 31
  }

  /** A date a JavaScript `Date` can hold without normalising it (years before 0 left out). */
  predicate IsValidDate(d: CalendarDate) {
    d.year >= 0 && 1 <= d.month <= 12 && 1 <= d.day <= DaysInMonth(d.year, d.month)
  }

  /** A header text `getDateFromInputString` reads as it is meant: two numerals
      as the first two '/'-separated parts, naming a real day of a month of 2025. */
  predicate IsDateString(s: string) {
    var parts := Split(s, '/');
    |parts| >= 2 && IsNumeral(parts[0]) && IsNumeral(parts[1])
    && IsValidDate(CalendarDate(YEAR, NumberValue(parts[1]), NumberValue(parts[0])))
  }

  /** `getDateFromInputString`: "DD/MM" is the date DD of month MM of 2025. */
  function DateFromInputString(s: string): (d: CalendarDate)
    requires IsDateString(s)
    ensures d.year == YEAR && IsValidDate(d)
  {
    var parts := Split(s, '/');
    CalendarDate(YEAR, NumberValue(parts[1]), NumberValue(parts[0]))
  }

  /** Any two numerals around a '/' read as (2025, month, day), whatever
      their padding: "7/6" and "07/06" are the same date. */
  lemma DateFromDayMonth(dayText: string, monthText: string)
    requires IsNumeral(dayText) && IsNumeral(monthText)
    requires IsValidDate(CalendarDate(YEAR, NumberValue(monthText), NumberValue(dayText)))
    ensures IsDateString(dayText + "/" + monthText)
    ensures DateFromInputString(dayText + "/" + monthText)
            == CalendarDate(YEAR, NumberValue(monthText), NumberValue(dayText))
  {
    DigitsExclude(dayText, '/');
    DigitsExclude(monthText, '/');
    assert Join([dayText, monthText], '/') == dayText + "/" + monthText by {
      assert Join([monthText], '/') == monthText;
    }
    SplitJoin([dayText, monthText], '/');
  }

  /** The zero-padded header of a valid day and month decodes to that day of 2025. */
  lemma DateFromPaddedHeader(day: nat, month: nat)
    requires IsValidDate(CalendarDate(YEAR, month, day))
    ensures IsDateString(Pad2(day) + "/" + Pad2(month))
    ensures DateFromInputString(Pad2(day) + "/" + Pad2(month)) == CalendarDate(YEAR, month, day)
  {
    Pad2Reads(day);
    Pad2Reads(month);
    DateFromDayMonth(Pad2(day), Pad2(month));
  }

  /** `getDateStringInAmericanFormat`: "YYYY-MM-DD" with month and day padded to two digits. */
  function DateStringInAmericanFormat(d: CalendarDate): (s: string)
    requires IsValidDate(d)
    ensures |s| == |NatToString(d.year)| + 6
    ensures s[..|NatToString(d.year)|] == NatToString(d.year)
    ensures s[|s| - 6] == '-' && s[|s| - 3] == '-'
  {
    NatToString(d.year) + "-" + Pad2(d.month) + "-" + Pad2(d.day)
  }

  /** A valid date's month and day are below 100, so they pad to two digits. */
  lemma ValidDateFieldsSmall(d: CalendarDate)
    requires IsValidDate(d)
    ensures d.month < 100 && d.day < 100
  {
  }

  /** The query text splits on '-' into a year, a two-digit month and a
      two-digit day that read back as the date's own fields. */
  lemma AmericanFormatReadsBack(d: CalendarDate)
    requires IsValidDate(d)
    ensures var parts := Split(DateStringInAmericanFormat(d), '-');
      |parts| == 3 && |parts[1]| == 2 && |parts[2]| == 2
      && IsNumeral(parts[0]) && IsNumeral(parts[1]) && IsNumeral(parts[2])
      && NumberValue(parts[0]) == d.year && NumberValue(parts[1]) == d.month && NumberValue(parts[2]) == d.day
  {
    ValidDateFieldsSmall(d);
    Pad2Reads(d.month);
    Pad2Reads(d.day);
    SplitThree(NatToString(d.year), Pad2(d.month), Pad2(d.day));
  }

  /** Three digit strings joined by '-' split back into themselves. */
  lemma SplitThree(y: string, m: string, dd: string)
    requires AllDigits(y) && AllDigits(m) && AllDigits(dd)
    ensures Split(y + "-" + m + "-" + dd, '-') == [y, m, dd]
  {
    DigitsExclude(y, '-');
    DigitsExclude(m, '-');
    DigitsExclude(dd, '-');
    var parts := [y, m, dd];
    JoinThree(y, m, dd, '-');
    SplitJoin(parts, '-');
  }

  /** Three pieces joined with a separator. */
  lemma JoinThree(a: string, b: string, c: string, separator: char)
    ensures Join([a, b, c], separator) == a + [separator] + b + [separator] + c
  {
    assert Join([a, b, c][1..], separator) == b + [separator] + c by {
      assert [a, b, c][1..][1..] == [c];
    }
  }

  /** The year 2025 is written "2025". */
  lemma YearText()
    ensures NatToString(YEAR) == "2025"
  {
    assert NatToString(2) == "2";
    assert NatToString(20) == "20";
    assert NatToString(202) == "202";
  }

  /** A date of 2025 is queried as "2025-MM-DD". */
  lemma QueryDateIn2025(day: nat, month: nat)
    requires IsValidDate(CalendarDate(YEAR, month, day))
    ensures DateStringInAmericanFormat(CalendarDate(YEAR, month, day)) == "2025-" + Pad2(month) + "-" + Pad2(day)
  {
    YearText();
    assert NatToString(YEAR) + "-" == "2025-";
  }

  /** A header "DD/MM" becomes the query date "2025-MM-DD". */
  lemma HeaderToQueryDate(day: nat, month: nat)
    requires IsValidDate(CalendarDate(YEAR, month, day))
    ensures IsDateString(Pad2(day) + "/" + Pad2(month))
    ensures DateStringInAmericanFormat(DateFromInputString(Pad2(day) + "/" + Pad2(month)))
            == "2025-" + Pad2(month) + "-" + Pad2(day)
  {
    DateFromPaddedHeader(day, month);
    QueryDateIn2025(day, month);
  }

  /** A single digit is padded with one zero. */
  lemma PaddedDigit(n: nat)
    requires n < 10
    ensures Pad2(n) == ['0', DigitChar(n)]
  {
    assert NatToString(n) == [DigitChar(n)];
    assert seq(1, _ => '0') == ['0'];
  }

  /** The worked example: "07/06" becomes "2025-06-07". */
  lemma HeaderExample()
    ensures IsDateString("07/06")
    ensures DateFromInputString("07/06") == CalendarDate(2025, 6, 7)
    ensures DateStringInAmericanFormat(DateFromInputString("07/06")) == "2025-06-07"
  {
    var header := Pad2(7) + "/" + Pad2(6);
    HeaderToQueryDate(7, 6);
    DateFromPaddedHeader(7, 6);
    PaddedDigit(7);
    PaddedDigit(6);
    assert header == "07/06";
    assert "2025-" + Pad2(6) + "-" + Pad2(7) == "2025-06-07";
  }
}
