/** Calendar dates and their `strftime('%Y.%m.%d')` rendering, the form the
    search endpoint's `ds` and `de` parameters take (app.py:32-33). */
module Dates {
  import opened Optional

  /** The ranges of Python's `datetime.date` fields. Day numbers are only
      bounded by 31; which month has which length plays no part in
      formatting. */
  type Year = y: int | 1 <= y <= 9999 witness 1
  type Month = m: int | 1 <= m <= 12 witness 1
  type Day = d: int | 1 <= d <= 31 witness 1

  datatype Date = Date(year: Year, month: Month, day: Day)

  predicate IsDigit(c: char)
  {
    '0' <= c <= '9'
  }

  function DigitChar(d: int): (c: char)
    requires 0 <= d <= 9
    ensures IsDigit(c)
  {
    ('0' as int + d) as char
  }

  function Pow10(k: nat): nat
  {
    if k == 0 then 1 else 10 * Pow10(k - 1)
  }

  /** `n` in decimal, zero-padded on the left to `width` digits (the low
      `width` digits when `n` is wider). */
  function Digits(n: nat, width: nat): (r: string)
    ensures |r| == width
    ensures forall k :: 0 <= k < |r| ==> IsDigit(r[k])
  {
    if width == 0 then "" else Digits(n / 10, width - 1) + [DigitChar(n % 10)]
  }

  /** The number a string of decimal digits denotes; `None` when a character
      is not a digit. */
  function ValueOf(s: string): Option<nat>
  {
    if s == [] then Some(0)
    else if !IsDigit(s[|s| - 1]) then None
    else match ValueOf(s[..|s| - 1])
      case None => None
      case Some(v) => Some(10 * v + (s[|s| - 1] as int - '0' as int))
  }

  /** Reading the padded digits back gives the number, when it fits. */
  lemma {:induction false} ValueOfDigits(n: nat, width: nat)
    requires n < Pow10(width)
    ensures ValueOf(Digits(n, width)) == Some(n)
  {
    if width > 0 {
      ValueOfDigits(n / 10, width - 1);
      var s := Digits(n, width);
      assert s[..|s| - 1] == Digits(n / 10, width - 1);
    }
  }

  /** `d.strftime('%Y.%m.%d')`: four-digit year, two-digit month and day,
      joined by dots. */
  function FormatDate(d: Date): string
  {
    Digits(d.year, 4) + "." + Digits(d.month, 2) + "." + Digits(d.day, 2)
  }

  /** Reads a `YYYY.MM.DD` text back into a date; `None` for any other text. */
  function ParseDate(s: string): Option<Date>
  {
    if |s| != 10 || s[4] != '.' || s[7] != '.' then None
    else match (ValueOf(s[..4]), ValueOf(s[5..7]), ValueOf(s[8..]))
      case (Some(y), Some(m), Some(d)) =>
        if 1 <= y <= 9999 && 1 <= m <= 12 && 1 <= d <= 31 then Some(Date(y, m, d)) else None
      case _ => None
  }

  /** The rendering is ten characters: digits, with dots at positions 4
      and 7. */
  lemma FormatDateShape(d: Date)
    ensures var s := FormatDate(d);
      |s| == 10 && s[4] == '.' && s[7] == '.'
      && forall k :: 0 <= k < 10 && k != 4 && k != 7 ==> IsDigit(s[k])
  {
    var s := FormatDate(d);
    assert s[..4] == Digits(d.year, 4);
    assert s[5..7] == Digits(d.month, 2);
    assert s[8..] == Digits(d.day, 2);
    forall k | 0 <= k < 10 && k != 4 && k != 7 ensures IsDigit(s[k]) {
      if k < 4 {
        assert s[k] == s[..4][k];
      } else if k < 7 {
        assert s[k] == s[5..7][k - 5];
      } else {
        assert s[k] == s[8..][k - 8];
      }
    }
  }

  /** Parsing the rendering gives the date back, so distinct dates render
      differently. */
  lemma ParseFormatDate(d: Date)
    ensures ParseDate(FormatDate(d)) == Some(d)
  {
    var s := FormatDate(d);
    FormatDateShape(d);
    assert s[..4] == Digits(d.year, 4);
    assert s[5..7] == Digits(d.month, 2);
    assert s[8..] == Digits(d.day, 2);
    ValueOfDigits(d.year, 4);
    ValueOfDigits(d.month, 2);
    ValueOfDigits(d.day, 2);
  }

  /** The rendering holds only digits and dots. */
  lemma FormatDateChars(d: Date)
    ensures forall c :: c in FormatDate(d) ==> IsDigit(c) || c == '.'
  {
    FormatDateShape(d);
    var s := FormatDate(d);
    forall c | c in s ensures IsDigit(c) || c == '.' {
      var k :| 0 <= k < |s| && s[k] == c;
    }
  }
}
