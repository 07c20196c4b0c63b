/**
 `rfc3339`: the text of a second count, and exactly which second counts give a
 date-time that section 5.6 of RFC 3339 allows and that reads back unchanged.
 */
module Rfc3339 {
  import opened Machine
  import opened Calendar

  function Zeros(n: nat): (r: string)
    ensures |r| == n
  {
    seq(n, _ => '0')
  }

  function Padded(n: nat, width: nat): string {
    var text := Decimal(n);
    if |text| < width then Zeros(width - |text|) + text else text
  }

  /** `{:04}` of a year: a minus sign counts towards the width. */
  function YearText(year: int): string {
    if year < 0 then "-" + Padded(-year, 3) else Padded(year, 4)
  }

  function ClockText(c: Civil): string
    requires ValidCivil(c)
  {
    TwoDigits(c.date.month) + "-" + TwoDigits(c.date.day) + "T"
    + TwoDigits(c.hour) + ":" + TwoDigits(c.minute) + ":" + TwoDigits(c.second) + "Z"
  }

  function Format(c: Civil): string
    requires ValidCivil(c)
  {
    YearText(c.date.year) + "-" + ClockText(c)
  }

  /** `rfc3339`. */
  function Text(seconds: int): string {
    CivilIsRight(seconds);
    Format(CivilOf(seconds))
  }

  // ---- reading a date-time -------------------------------------------------

  predicate IsDigit(c: char) {
    '0' <= c <= '9'
  }

  function DigitValue(c: char): int {
    c as int - '0' as int
  }

  function Read2(text: string, i: nat): int
    requires i + 2 <= |text|
  {
    10 * DigitValue(text[i]) + DigitValue(text[i + 1])
  }

  /** The fields before the fraction and the offset. */
  function Fields(text: string): Civil
    requires |text| > 19
  {
    Civil(Date(100 * Read2(text, 0) + Read2(text, 2), Read2(text, 5), Read2(text, 8)),
          Read2(text, 11), Read2(text, 14), Read2(text, 17))
  }

  // ---- the grammar of section 5.6 ---------------------------------------------------

  /** `time-offset`: `Z`, or a sign, hours and minutes. */
  predicate IsOffset(t: string) {
    || t == "Z" || t == "z"
    || (|t| == 6 && t[0] in {'+', '-'} && t[3] == ':'
        && IsDigit(t[1]) && IsDigit(t[2]) && IsDigit(t[4]) && IsDigit(t[5]))
  }

  function AfterDigits(t: string): string {
    if t == [] || !IsDigit(t[0]) then t else AfterDigits(t[1..])
  }

  predicate HasFraction(t: string) {
    |t| > 1 && t[0] == '.' && IsDigit(t[1])
  }

  /** The offset at the end of what follows the seconds. */
  function OffsetText(t: string): string {
    if HasFraction(t) then AfterDigits(t[1..]) else t
  }

  /** What an offset adds to the clock, in seconds. */
  function OffsetSeconds(t: string): int
    requires IsOffset(t)
  {
    if |t| == 1 then 0
    else
      var size := Read2(t, 1) * SECONDS_PER_HOUR + Read2(t, 4) * SECONDS_PER_MINUTE;
      if t[0] == '+' then size else -size
  }

  /** `full-date`. */
  predicate IsFullDate(t: string) {
    && |t| == 10 && t[4] == '-' && t[7] == '-'
    && IsDigit(t[0]) && IsDigit(t[1]) && IsDigit(t[2]) && IsDigit(t[3])
    && IsDigit(t[5]) && IsDigit(t[6]) && IsDigit(t[8]) && IsDigit(t[9])
  }

  /** Hours, minutes and seconds. */
  predicate IsClock(t: string) {
    && |t| == 8 && t[2] == ':' && t[5] == ':'
    && IsDigit(t[0]) && IsDigit(t[1]) && IsDigit(t[3]) && IsDigit(t[4]) && IsDigit(t[6]) && IsDigit(t[7])
  }

  /** `date-time` of section 5.6 of RFC 3339, in all its forms. */
  predicate IsDateTime(text: string) {
    && |text| > 19 && text[10] in {'T', 't'}
    && IsFullDate(text[..10]) && IsClock(text[11..19]) && IsOffset(OffsetText(text[19..]))
  }

  /** The UTC form without a fraction, `YYYY-MM-DDThh:mm:ssZ`. */
  predicate HasShape(text: string) {
    |text| == 20 && IsFullDate(text[..10]) && text[10] == 'T' && IsClock(text[11..19]) && text[19] == 'Z'
  }

  /** The second a date-time stands for, any fraction dropped; None for other texts. */
  ghost function Parse(text: string): Option<int> {
    if IsDateTime(text) && ValidCivil(Fields(text)) then
      Some(SecondNumber(Fields(text)) - OffsetSeconds(OffsetText(text[19..])))
    else None
  }

  lemma TwoDigitsReadBack(n: int)
    requires 0 <= n < 100
    ensures var t := TwoDigits(n);
            |t| == 2 && IsDigit(t[0]) && IsDigit(t[1]) && 10 * DigitValue(t[0]) + DigitValue(t[1]) == n
  {
    DigitReadsBack(n / 10);
    DigitReadsBack(n % 10);
  }

  lemma DigitReadsBack(n: nat)
    requires n < 10
    ensures IsDigit(Digit(n)) && DigitValue(Digit(n)) == n
  {
    assert Digit(n) == ['0', '1', '2', '3', '4', '5', '6', '7', '8', '9'][n];
  }

  lemma DecimalStep(n: nat, d: nat)
    requires 0 < n && d < 10
    ensures Decimal(10 * n + d) == Decimal(n) + [Digit(d)]
  {
    assert (10 * n + d) / 10 == n && (10 * n + d) % 10 == d;
  }

  lemma DecimalOne(d: nat)
    requires d < 10
    ensures Decimal(d) == [Digit(d)]
  {
  }

  lemma ZeroDigit()
    ensures Digit(0) == '0'
  {
  }

  lemma PaddedDigits(a: nat, b: nat, c: nat, d: nat)
    requires a < 10 && b < 10 && c < 10 && d < 10
    ensures Padded(10 * (10 * (10 * a + b) + c) + d, 4) == [Digit(a), Digit(b), Digit(c), Digit(d)]
  {
    hide Decimal, Digit;
    ZeroDigit();
    if a > 0 {
      DecimalOne(a);
      DecimalStep(a, b);
      DecimalStep(10 * a + b, c);
      DecimalStep(10 * (10 * a + b) + c, d);
    } else if b > 0 {
      DecimalOne(b);
      DecimalStep(b, c);
      DecimalStep(10 * b + c, d);
    } else if c > 0 {
      DecimalOne(c);
      DecimalStep(c, d);
    } else {
      DecimalOne(d);
    }
  }

  /** Years 0 to 9999 are written as exactly four digits. */
  lemma FourDigitYear(year: int)
    requires 0 <= year <= 9999
    ensures YearText(year) == TwoDigits(year / 100) + TwoDigits(year % 100)
  {
    hide Padded, Digit;
    var h, l := year / 100, year % 100;
    PaddedDigits(h / 10, h % 10, l / 10, l % 10);
    assert 10 * (10 * (10 * (h / 10) + h % 10) + l / 10) + l % 10 == year;
  }

  lemma LongDecimal(n: nat)
    requires n > 9999
    ensures |Decimal(n)| >= 5
  {
    var a := n / 10;
    var b := a / 10;
    var c := b / 10;
    assert |Decimal(c)| == 1 + |Decimal(c / 10)|;
    assert |Decimal(b)| == 1 + |Decimal(c)|;
    assert |Decimal(a)| == 1 + |Decimal(b)|;
    assert |Decimal(n)| == 1 + |Decimal(a)|;
  }

  /** The seven two-digit fields, laid out. */
  lemma Laid(y: string, z: string, m: string, d: string, h: string, n: string, s: string)
    requires |y| == |z| == |m| == |d| == |h| == |n| == |s| == 2
    ensures y + z + "-" + (m + "-" + d + "T" + h + ":" + n + ":" + s + "Z") ==
            [y[0], y[1], z[0], z[1], '-', m[0], m[1], '-', d[0], d[1],
             'T', h[0], h[1], ':', n[0], n[1], ':', s[0], s[1], 'Z']
  {
  }

  predicate TwoDigitText(t: string) {
    |t| == 2 && IsDigit(t[0]) && IsDigit(t[1])
  }

  function Value2(t: string): int
    requires |t| == 2
  {
    10 * DigitValue(t[0]) + DigitValue(t[1])
  }

  lemma LaidReadsBack(y: string, z: string, m: string, d: string, h: string, n: string, s: string, text: string)
    requires TwoDigitText(y) && TwoDigitText(z) && TwoDigitText(m) && TwoDigitText(d)
    requires TwoDigitText(h) && TwoDigitText(n) && TwoDigitText(s)
    requires text == y + z + "-" + (m + "-" + d + "T" + h + ":" + n + ":" + s + "Z")
    ensures HasShape(text) && |text| > 19
    ensures Fields(text) ==
            Civil(Date(100 * Value2(y) + Value2(z), Value2(m), Value2(d)), Value2(h), Value2(n), Value2(s))
  {
    hide IsDigit, DigitValue;
    Laid(y, z, m, d, h, n, s);
    assert text[..10] == [y[0], y[1], z[0], z[1], '-', m[0], m[1], '-', d[0], d[1]];
    assert text[11..19] == [h[0], h[1], ':', n[0], n[1], ':', s[0], s[1]];
  }

  /** With a four-digit year the text has the shape and its fields read back. */
  lemma ClockTextReadsBack(c: Civil)
    requires ValidCivil(c) && 0 <= c.date.year <= 9999
    ensures HasShape(Format(c)) && |Format(c)| > 19 && Fields(Format(c)) == c
  {
    hide YearText, TwoDigits, DigitValue, IsDigit, HasShape, Fields;
    FourDigitYear(c.date.year);
    TwoDigitsReadBack(c.date.year / 100);
    TwoDigitsReadBack(c.date.year % 100);
    TwoDigitsReadBack(c.date.month);
    TwoDigitsReadBack(c.date.day);
    TwoDigitsReadBack(c.hour);
    TwoDigitsReadBack(c.minute);
    TwoDigitsReadBack(c.second);
    LaidReadsBack(TwoDigits(c.date.year / 100), TwoDigits(c.date.year % 100), TwoDigits(c.date.month),
                  TwoDigits(c.date.day), TwoDigits(c.hour), TwoDigits(c.minute), TwoDigits(c.second), Format(c));
  }

  // ---- which texts are date-times ------------------------------------------

  lemma ShapeIsDateTime(text: string)
    requires HasShape(text)
    ensures IsDateTime(text) && OffsetSeconds(OffsetText(text[19..])) == 0
  {
    hide IsDigit;
    assert text[19..] == "Z";
  }

  lemma {:induction false} DecimalIsDigits(n: nat)
    ensures forall i :: 0 <= i < |Decimal(n)| ==> IsDigit(Decimal(n)[i])
  {
    DigitReadsBack(n % 10);
    if n >= 10 {
      DecimalIsDigits(n / 10);
    }
  }

  lemma OddYearText(year: int)
    requires !(0 <= year <= 9999)
    ensures |YearText(year)| >= 4
    ensures YearText(year)[0] == '-' || (|YearText(year)| >= 5 && IsDigit(YearText(year)[4]))
  {
    hide Decimal, IsDigit;
    if year > 9999 {
      LongDecimal(year);
      DecimalIsDigits(year);
    }
  }

  /** With any other year the text is no date-time in any of its forms. */
  lemma OddYearIsNoDateTime(c: Civil)
    requires ValidCivil(c) && !(0 <= c.date.year <= 9999)
    ensures !IsDateTime(Format(c))
  {
    hide YearText, ClockText, IsClock, IsOffset;
    var year := YearText(c.date.year);
    OddYearText(c.date.year);
    assert Format(c)[0] == year[0];
    assert |year| >= 5 ==> Format(c)[4] == year[4];
  }

  /** 0000-01-01T00:00:00Z. */
  const FIRST_SECOND: int := -62_167_219_200
  /** 9999-12-31T23:59:59Z. */
  const LAST_SECOND: int := 253_402_300_799

  /** The seconds whose year has four digits, as plain bounds on the input. */
  lemma FourDigitYearsExactly(seconds: int)
    ensures 0 <= CivilOf(seconds).date.year <= 9999 <==> FIRST_SECOND <= seconds <= LAST_SECOND
  {
    hide CivilOf, SecondNumber;
    CivilIsRight(seconds);
    CivilKeepsOrder(seconds, FIRST_SECOND);
    CivilKeepsOrder(LAST_SECOND, seconds);
    FirstSecondIsYearZero();
    LastSecondIsYear9999();
  }

  lemma SecondOfNewYear(year: int)
    ensures SecondNumber(Civil(Date(year, 1, 1), 0, 0, 0)) ==
            (MarchStart(year) - DAYS_FROM_YEAR_0_TO_1970 - 59 - (if IsLeap(year) then 1 else 0)) * SECONDS_PER_DAY
  {
    hide DaysBeforeYear;
    MarchStartCountsYears(year);
  }

  lemma FirstSecondIsYearZero()
    ensures CivilOf(FIRST_SECOND) == Civil(Date(0, 1, 1), 0, 0, 0)
  {
    hide CivilOf, SecondNumber;
    SecondOfNewYear(0);
    CivilInverts(Civil(Date(0, 1, 1), 0, 0, 0));
  }

  lemma LastSecondIsYear9999()
    ensures CivilOf(LAST_SECOND) == Civil(Date(9999, 12, 31), 23, 59, 59)
  {
    hide CivilOf, DaysBeforeYear, DaysBeforeMonth;
    var c := Civil(Date(9999, 12, 31), 23, 59, 59);
    MarchStartCountsYears(9999);
    MonthSums(9999);
    assert SecondNumber(c) == LAST_SECOND;
    CivilInverts(c);
  }

  /**
   The text is a date-time exactly for the seconds of years 0 to 9999, and then
   it reads back as the same second.
   */
  lemma TextReadsBackExactly(seconds: int)
    ensures IsDateTime(Text(seconds)) <==> FIRST_SECOND <= seconds <= LAST_SECOND
    ensures Parse(Text(seconds)) == if FIRST_SECOND <= seconds <= LAST_SECOND then Some(seconds) else None
  {
    hide CivilOf, SecondNumber, Format, HasShape, Fields, IsDateTime, OffsetSeconds;
    CivilIsRight(seconds);
    FourDigitYearsExactly(seconds);
    var c := CivilOf(seconds);
    if 0 <= c.date.year <= 9999 {
      ClockTextReadsBack(c);
      ShapeIsDateTime(Format(c));
    } else {
      OddYearIsNoDateTime(c);
    }
  }
}
