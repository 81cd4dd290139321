/**
  The tools' `parse_date`: `datetime.strptime(s, "%Y-%m-%d").date()` on the
  stripped text, or `None` when the text is blank or does not parse. A date
  is represented by its proleptic Gregorian ordinal (`date.toordinal()`),
  so `(today - d).days` is a subtraction of two integers.
 */
module Dates {
  import opened Wrappers
  import opened Text
  import opened Records

  predicate IsLeap(y: int) {
    y % 4 == 0 && (y % 100 != 0 || y % 400 == 0)
  }

  function DaysInMonth(y: int, m: int): int
    requires 1 <= m <= 12
  {
    if m == 2 then (if IsLeap(y) then 29 else 28)
    else if m == 4 || m == 6 || m == 9 || m == 11 then 30
    else 31
  }

  /** The days of the years before year `y`. */
  function DaysBeforeYear(y: int): int
    requires y >= 1
  {
    var p := y - 1;
    p * 365 + p / 4 - p / 100 + p / 400
  }

  /** The days of the months before month `m` of year `y`. */
  function DaysBeforeMonth(y: int, m: int): int
    requires 1 <= m <= 12
  {
    if m == 1 then 0 else DaysBeforeMonth(y, m - 1) + DaysInMonth(y, m - 1)
  }

  /** The dates Python's `date` accepts: years 1 to 9999, real months and days. */
  predicate ValidDate(y: int, m: int, d: int) {
    1 <= y <= 9999 && 1 <= m <= 12 && 1 <= d <= DaysInMonth(y, m)
  }

  /** `date(y, m, d).toordinal()`: 0001-01-01 is day 1. */
  function Ordinal(y: int, m: int, d: int): int
    requires ValidDate(y, m, d)
  {
    DaysBeforeYear(y) + DaysBeforeMonth(y, m) + d
  }

  /** The calendar day after a valid date. */
  function NextDay(y: int, m: int, d: int): (int, int, int)
    requires ValidDate(y, m, d)
  {
    if d < DaysInMonth(y, m) then (y, m, d + 1)
    else if m < 12 then (y, m + 1, 1)
    else (y + 1, 1, 1)
  }

  lemma DaysBeforeDecember(y: int)
    ensures DaysBeforeMonth(y, 12) == 306 + DaysInMonth(y, 2)
  {
    var feb := DaysInMonth(y, 2);
    assert DaysBeforeMonth(y, 2) == 31;
    assert DaysBeforeMonth(y, 3) == 31 + feb;
    assert DaysBeforeMonth(y, 4) == 62 + feb;
    assert DaysBeforeMonth(y, 5) == 92 + feb;
    assert DaysBeforeMonth(y, 6) == 123 + feb;
    assert DaysBeforeMonth(y, 7) == 153 + feb;
    assert DaysBeforeMonth(y, 8) == 184 + feb;
    assert DaysBeforeMonth(y, 9) == 215 + feb;
    assert DaysBeforeMonth(y, 10) == 245 + feb;
    assert DaysBeforeMonth(y, 11) == 276 + feb;
  }

  /** One more year passes one more multiple of 4 (of 100, of 400) exactly when the year is one. */
  lemma LeapSteps(y: int)
    requires y >= 1
    ensures y / 4 - (y - 1) / 4 == if y % 4 == 0 then 1 else 0
    ensures y / 100 - (y - 1) / 100 == if y % 100 == 0 then 1 else 0
    ensures y / 400 - (y - 1) / 400 == if y % 400 == 0 then 1 else 0
  {
  }

  /** A year has 366 days when it is a leap year and 365 otherwise. */
  lemma YearDays(y: int)
    requires y >= 1
    ensures DaysBeforeYear(y + 1) - DaysBeforeYear(y) == if IsLeap(y) then 366 else 365
  {
    LeapSteps(y);
  }

  lemma YearLength(y: int)
    requires y >= 1
    ensures DaysBeforeYear(y + 1) == DaysBeforeYear(y) + DaysBeforeMonth(y, 12) + 31
  {
    DaysBeforeDecember(y);
    YearDays(y);
    hide DaysBeforeMonth, DaysBeforeYear;
  }

  /** Ordinals count days: the day after a date has the next ordinal. */
  lemma OrdinalNextDay(y: int, m: int, d: int)
    requires ValidDate(y, m, d) && !(y == 9999 && m == 12 && d == 31)
    ensures ValidDate(NextDay(y, m, d).0, NextDay(y, m, d).1, NextDay(y, m, d).2)
    ensures Ordinal(NextDay(y, m, d).0, NextDay(y, m, d).1, NextDay(y, m, d).2) == Ordinal(y, m, d) + 1
  {
    if d == DaysInMonth(y, m) && m == 12 {
      YearLength(y);
    }
  }

  // The fields `strptime` accepts for "%Y-%m-%d": its regular expressions
  // are `\d\d\d\d`, `1[0-2]|0[1-9]|[1-9]` and `3[01]|[12]\d|0[1-9]|[1-9]| [1-9]`,
  // and the whole text must be consumed.

  predicate YearField(s: string) {
    |s| == 4 && AllDigits(s)
  }

  predicate MonthField(s: string) {
    || (|s| == 1 && '1' <= s[0] <= '9')
    || (|s| == 2 && s[0] == '0' && '1' <= s[1] <= '9')
    || (|s| == 2 && s[0] == '1' && '0' <= s[1] <= '2')
  }

  predicate DayField(s: string) {
    || (|s| == 1 && '1' <= s[0] <= '9')
    || (|s| == 2 && s[0] == '3' && '0' <= s[1] <= '1')
    || (|s| == 2 && '1' <= s[0] <= '2' && IsDigit(s[1]))
    || (|s| == 2 && s[0] == '0' && '1' <= s[1] <= '9')
    || (|s| == 2 && s[0] == ' ' && '1' <= s[1] <= '9')
  }

  /** The number a month or day field denotes; `int(" 5")` is 5. */
  function FieldValue(s: string): nat
    requires MonthField(s) || DayField(s)
  {
    if s[0] == ' ' then DigitValue(s[1]) else DigitsValue(s)
  }

  /** `strptime(t, "%Y-%m-%d")` on text without surrounding whitespace, as an ordinal. */
  function ParseIsoDate(t: string): Option<int> {
    if |t| < 5 || !YearField(t[..4]) || t[4] != '-' || '-' !in t[5..] then None
    else
      var rest := t[5..];
      var i := IndexOf(rest, '-');
      var month, day := rest[..i], rest[i + 1..];
      if MonthField(month) && DayField(day) then
        var y, m, d := DigitsValue(t[..4]), FieldValue(month), FieldValue(day);
        if ValidDate(y, m, d) then Some(Ordinal(y, m, d)) else None
      else None
  }

  /** The tools' `parse_date(s)`: `None` for a blank or unparseable value. */
  function ParseDate(s: Option<string>): Option<int> {
    var t := Trim(OrEmpty(s));
    if t == "" then None else ParseIsoDate(t)
  }

  /** Two decimal digits, zero-padded. */
  function Pad2(n: nat): (s: string)
    requires n < 100
    ensures |s| == 2 && AllDigits(s)
  {
    [DigitChar(n / 10), DigitChar(n % 10)]
  }

  /** Four decimal digits, zero-padded. */
  function Pad4(n: nat): (s: string)
    requires n < 10000
    ensures |s| == 4 && AllDigits(s)
  {
    [DigitChar(n / 1000), DigitChar(n / 100 % 10), DigitChar(n / 10 % 10), DigitChar(n % 10)]
  }

  /** The ISO form `date.isoformat()` prints, `YYYY-MM-DD`. */
  function FormatIsoDate(y: nat, m: nat, d: nat): string
    requires ValidDate(y, m, d)
  {
    Pad4(y) + "-" + Pad2(m) + "-" + Pad2(d)
  }

  lemma Pad2Value(n: nat)
    requires n < 100
    ensures DigitsValue(Pad2(n)) == n
  {
    DigitsValueSnoc([], DigitChar(n / 10));
    assert [] + [DigitChar(n / 10)] == [DigitChar(n / 10)];
    DigitsValueSnoc([DigitChar(n / 10)], DigitChar(n % 10));
  }

  lemma Pad4Value(n: nat)
    requires n < 10000
    ensures DigitsValue(Pad4(n)) == n
  {
    var c0, c1, c2, c3 := DigitChar(n / 1000), DigitChar(n / 100 % 10), DigitChar(n / 10 % 10), DigitChar(n % 10);
    DigitsValueSnoc([], c0);
    assert [] + [c0] == [c0];
    DigitsValueSnoc([c0], c1);
    DigitsValueSnoc([c0, c1], c2);
    DigitsValueSnoc([c0, c1, c2], c3);
    assert [c0] + [c1] == [c0, c1] && [c0, c1] + [c2] == [c0, c1, c2] && [c0, c1, c2] + [c3] == Pad4(n);
    hide DigitsValue, DigitChar;
    DivChain(n);
    DivTen(n / 100);
    DivTen(n / 10);
    DivTen(n);
  }

  lemma DivTen(n: nat)
    ensures n / 10 * 10 + n % 10 == n
  {
  }

  lemma DivChain(n: nat)
    ensures n / 100 == n / 10 / 10 && n / 1000 == n / 100 / 10
  {
  }

  /** Two digits are a month field `strptime` accepts exactly for a real month, and it reads them back. */
  lemma Pad2Month(m: nat)
    requires m < 100
    ensures MonthField(Pad2(m)) <==> 1 <= m <= 12
    ensures 1 <= m <= 12 ==> FieldValue(Pad2(m)) == m
  {
    Pad2Value(m);
    DivTen(m);
  }

  /** Two digits are a day field `strptime` accepts exactly for a day from 1 to 31, and it reads them back. */
  lemma Pad2Day(d: nat)
    requires d < 100
    ensures DayField(Pad2(d)) <==> 1 <= d <= 31
    ensures 1 <= d <= 31 ==> FieldValue(Pad2(d)) == d
  {
    Pad2Value(d);
    DivTen(d);
  }

  lemma FormatNoPadding(y: nat, m: nat, d: nat)
    requires ValidDate(y, m, d)
    ensures Trim(FormatIsoDate(y, m, d)) == FormatIsoDate(y, m, d)
  {
    var t := FormatIsoDate(y, m, d);
    assert IsDigit(t[0]) && IsDigit(t[|t| - 1]);
    TrimNoPadding(t);
  }

  /**
    Text of the `YYYY-MM-DD` shape parses exactly when it names a real
    date: `2023-02-29`, `2024-04-31`, `2024-13-05`, `2024-01-00` and
    `0000-01-01` are refused, by `strptime`'s field patterns or by `date`.
   */
  lemma ParseFields(y: nat, m: nat, d: nat)
    requires y <= 9999 && m <= 99 && d <= 99
    ensures ParseIsoDate(Pad4(y) + "-" + Pad2(m) + "-" + Pad2(d)) == if ValidDate(y, m, d) then Some(Ordinal(y, m, d)) else None
  {
    var t := Pad4(y) + "-" + Pad2(m) + "-" + Pad2(d);
    var rest := Pad2(m) + "-" + Pad2(d);
    assert t[..4] == Pad4(y) && t[4] == '-' && t[5..] == rest;
    IndexOfJoin(Pad2(m), '-', Pad2(d));
    assert rest[..2] == Pad2(m) && rest[3..] == Pad2(d);
    Pad4Value(y);
    Pad2Month(m);
    Pad2Day(d);
    hide Pad2, Pad4, MonthField, DayField, FieldValue, DigitsValue;
  }

  /** A blank or missing value is no date. */
  lemma ParseDateBlank(w: string)
    requires AllSpace(w)
    ensures ParseDate(Some(w)) == None && ParseDate(None) == None
  {
    TrimPadding(w, "", "");
    assert w + "" + "" == w;
  }

  /** `parse_date` reads back every date written in the ISO form. */
  lemma ParseFormattedDate(y: nat, m: nat, d: nat)
    requires ValidDate(y, m, d)
    ensures ParseDate(Some(FormatIsoDate(y, m, d))) == Some(Ordinal(y, m, d))
  {
    FormatNoPadding(y, m, d);
    ParseFields(y, m, d);
  }
}
