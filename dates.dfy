/**
 * The `Date` metadata value: a sheet name is cleaned (surrounding
 * whitespace stripped, every '.' turned into '-') and handed to a date
 * parser; a parsed date is written as "YYYY-MM-DD", a failure as
 * "PARSE_ERROR: " followed by the cleaned name.
 *
 * The parser itself (dateutil with day-first order) is a parameter: any
 * function from the cleaned name to a calendar date or a failure.
 */
module Dates {
  import opened Wrappers
  import opened Strings

  datatype Date = Date(year: int, month: int, day: int)

  /** Gregorian leap years, as Python's `calendar.isleap`. */
  predicate IsLeapYear(y: int) {
    y % 4 == 0 && (y % 100 != 0 || y % 400 == 0)
  }

  function DaysInMonth(y: int, m: int): (n: int)
    requires 1 <= m <= 12
    ensures 28 <= n <= 31
  {
    if m == 2 then (if IsLeapYear(y) then 29 else 28)
    else if m == 4 || m == 6 || m == 9 || m == 11 then 30
    else 31
  }

  /** A date Python's `datetime` can hold: years 1 to 9999. */
  predicate ValidDate(d: Date) {
    1 <= d.year <= 9999 && 1 <= d.month <= 12 && 1 <= d.day <= DaysInMonth(d.year, d.month)
  }

  type CalendarDate = d: Date | ValidDate(d) witness Date(2000, 1, 1)

  // ---------------------------------------------------------------------
  // Zero-padded decimal fields

  function Pow10(k: nat): nat {
    if k == 0 then 1 else 10 * Pow10(k - 1)
  }

  predicate IsDigit(ch: char) {
    '0' <= ch <= '9'
  }

  function Digit(n: nat): char
    requires n < 10
  {
    ('0' as int + n) as char
  }

  /** `n` in exactly `width` decimal digits, zero-padded on the left. */
  function Padded(n: nat, width: nat): string
    requires n < Pow10(width)
  {
    if width == 0 then []
    else Padded(n / 10, width - 1) + [Digit(n % 10)]
  }

  /** The number a string of decimal digits spells. */
  function DigitsValue(s: string): nat
    requires forall k :: 0 <= k < |s| ==> IsDigit(s[k])
  {
    if s == [] then 0
    else
      assert IsDigit(s[|s| - 1]);
      DigitsValue(s[..|s| - 1]) * 10 + (s[|s| - 1] as int - '0' as int)
  }

  /** Padding yields `width` digits that spell `n`. */
  lemma {:induction false} PaddedDigits(n: nat, width: nat)
    requires n < Pow10(width)
    ensures |Padded(n, width)| == width
    ensures forall k :: 0 <= k < width ==> IsDigit(Padded(n, width)[k])
    ensures DigitsValue(Padded(n, width)) == n
  {
    if width > 0 {
      var s := Padded(n / 10, width - 1);
      PaddedDigits(n / 10, width - 1);
      assert (s + [Digit(n % 10)])[..|s|] == s;
    }
  }

  /** A digit string of length `width` is the padding of its value. */
  lemma {:induction false} DigitsPadded(s: string)
    requires forall k :: 0 <= k < |s| ==> IsDigit(s[k])
    ensures DigitsValue(s) < Pow10(|s|)
    ensures Padded(DigitsValue(s), |s|) == s
  {
    if s != [] {
      var init := s[..|s| - 1];
      DigitsPadded(init);
      var v, d := DigitsValue(init), s[|s| - 1] as int - '0' as int;
      assert IsDigit(s[|s| - 1]) && 0 <= d < 10;
      assert DigitsValue(s) == v * 10 + d;
      assert v * 10 + d < Pow10(|s|) by {
        assert v + 1 <= Pow10(|init|);
        assert (v + 1) * 10 <= Pow10(|init|) * 10;
      }
      assert (v * 10 + d) / 10 == v && (v * 10 + d) % 10 == d;
      assert Digit(d) == s[|s| - 1];
      assert s == init + [s[|s| - 1]];
    }
  }

  // ---------------------------------------------------------------------
  // "%Y-%m-%d"

  /** `strftime('%Y-%m-%d')`. */
  function FormatIso(d: CalendarDate): string {
    Padded(d.year, 4) + "-" + Padded(d.month, 2) + "-" + Padded(d.day, 2)
  }

  predicate IsIsoShape(s: string) {
    && |s| == 10 && s[4] == '-' && s[7] == '-'
    && (forall k :: 0 <= k < 4 ==> IsDigit(s[k]))
    && (forall k :: 5 <= k < 7 ==> IsDigit(s[k]))
    && (forall k :: 8 <= k < 10 ==> IsDigit(s[k]))
  }

  /** The inverse of `FormatIso`: reads "YYYY-MM-DD" back, failing on any
      other text and on dates the calendar does not have. */
  function ReadIsoDate(s: string): Option<CalendarDate> {
    if !IsIsoShape(s) then None
    else
      var d := Date(DigitsValue(s[..4]), DigitsValue(s[5..7]), DigitsValue(s[8..]));
      if ValidDate(d) then Some(d) else None
  }

  /** Joining a four-, a two- and a two-digit field with '-' gives the
      "YYYY-MM-DD" shape, with the fields where `ReadIsoDate` looks. */
  lemma JoinIsoFields(y: string, m: string, d: string)
    requires |y| == 4 && |m| == 2 && |d| == 2
    requires forall k :: 0 <= k < 4 ==> IsDigit(y[k])
    requires forall k :: 0 <= k < 2 ==> IsDigit(m[k]) && IsDigit(d[k])
    ensures IsIsoShape(y + "-" + m + "-" + d)
    ensures (y + "-" + m + "-" + d)[..4] == y
    ensures (y + "-" + m + "-" + d)[5..7] == m
    ensures (y + "-" + m + "-" + d)[8..] == d
  {
    var s := y + "-" + m + "-" + d;
    assert s[..4] == y;
    assert s[5..7] == m;
    assert s[8..] == d;
    forall k | 0 <= k < 4 ensures IsDigit(s[k]) {
      assert s[k] == y[k];
    }
    forall k | 5 <= k < 7 ensures IsDigit(s[k]) {
      assert s[k] == m[k - 5];
    }
    forall k | 8 <= k < 10 ensures IsDigit(s[k]) {
      assert s[k] == d[k - 8];
    }
  }

  lemma FormatIsoShape(d: CalendarDate)
    ensures IsIsoShape(FormatIso(d))
    ensures FormatIso(d)[..4] == Padded(d.year, 4)
    ensures FormatIso(d)[5..7] == Padded(d.month, 2)
    ensures FormatIso(d)[8..] == Padded(d.day, 2)
  {
    PaddedDigits(d.year, 4);
    PaddedDigits(d.month, 2);
    PaddedDigits(d.day, 2);
    JoinIsoFields(Padded(d.year, 4), Padded(d.month, 2), Padded(d.day, 2));
  }

  /** Reading a formatted date gives the date back. */
  lemma ReadFormatIso(d: CalendarDate)
    ensures ReadIsoDate(FormatIso(d)) == Some(d)
  {
    FormatIsoShape(d);
    PaddedDigits(d.year, 4);
    PaddedDigits(d.month, 2);
    PaddedDigits(d.day, 2);
  }

  lemma IsoShapeParts(s: string)
    requires IsIsoShape(s)
    ensures s == s[..4] + "-" + s[5..7] + "-" + s[8..]
  {
  }

  /** A string read as a date is that date's canonical form. */
  lemma FormatReadIso(s: string)
    ensures ReadIsoDate(s).Some? ==> FormatIso(ReadIsoDate(s).value) == s
  {
    if ReadIsoDate(s).Some? {
      var y, m, d := s[..4], s[5..7], s[8..];
      DigitsPadded(y);
      DigitsPadded(m);
      DigitsPadded(d);
      IsoShapeParts(s);
    }
  }

  // ---------------------------------------------------------------------
  // convert_sheet_name_to_date

  const ParseErrorPrefix: string := "PARSE_ERROR: "

  /** The text handed to the parser: stripped, every '.' turned into '-'. */
  function CleanSheetName(name: string): string {
    Replace(Strip(name), '.', '-')
  }

  /** The cleaned name has no '.', no surrounding whitespace, and cleaning
      it again changes nothing. */
  lemma CleanSheetNameSpec(name: string)
    ensures '.' !in CleanSheetName(name)
    ensures Strip(CleanSheetName(name)) == CleanSheetName(name)
    ensures CleanSheetName(CleanSheetName(name)) == CleanSheetName(name)
  {
    var t := Strip(name);
    var c := Replace(t, '.', '-');
    assert '.' !in c && (c == [] || (!IsSpace(c[0]) && !IsSpace(c[|c| - 1]))) by {
      StripSpec(name);
      ReplaceSpec(t, '.', '-');
    }
    assert Strip(c) == c by {
      StripSpec(c);
    }
    assert Replace(c, '.', '-') == c by {
      ReplaceSpec(c, '.', '-');
    }
  }

  /** The `Date` value of a sheet: the parsed date in "YYYY-MM-DD" form,
      or "PARSE_ERROR: " and the cleaned name when parsing fails. */
  function ConvertSheetNameToDate(name: string, parse: string -> Option<CalendarDate>): string {
    var cleaned := CleanSheetName(name);
    match parse(cleaned)
    case Some(d) => FormatIso(d)
    case None => ParseErrorPrefix + cleaned
  }

  /** The two outcomes cannot be confused: the value reads back as a date
      exactly when the parser accepted the cleaned name, and then as the
      date it returned; otherwise it is the error text. */
  lemma ConvertSheetNameToDateSpec(name: string, parse: string -> Option<CalendarDate>)
    ensures ReadIsoDate(ConvertSheetNameToDate(name, parse)) == parse(CleanSheetName(name))
    ensures parse(CleanSheetName(name)).None? ==>
      ConvertSheetNameToDate(name, parse) == ParseErrorPrefix + CleanSheetName(name)
  {
    if parse(CleanSheetName(name)).Some? {
      ReadFormatIso(parse(CleanSheetName(name)).value);
    }
  }
}
