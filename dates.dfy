/** The date check of `add_session`: `datetime.strptime(date, '%Y-%m-%d')` succeeds.

    Python turns that format into the pattern
      year  = four digits,
      month = `1[0-2]` or `0[1-9]` or `[1-9]`,
      day   = `3[01]` or `[12]` digit or `0[1-9]` or `[1-9]` or a space and `[1-9]`,
    joined by `-`; the whole text must be consumed, and the three numbers must
    then form a calendar date (year 1 to 9999, day within the month, leap years
    by the Gregorian rule). So unpadded months and days ("2025-2-5") and a day
    written as a space and a digit ("2025-02- 5") are accepted and stored as given.
    Digits are ASCII digits here (the pattern's `\d` also matches other Unicode
    decimal digits). */
module Dates {
  import opened Wrappers
  import opened Sorting

  predicate IsDigit(c: char)
  {
    '0' <= c <= '9'
  }

  function DigitValue(c: char): (v: int)
    requires IsDigit(c)
    ensures 0 <= v <= 9
  {
    c as int - '0' as int
  }

  /** `%Y`: exactly four digits. */
  predicate YearField(y: string)
  {
    |y| == 4 && IsDigit(y[0]) && IsDigit(y[1]) && IsDigit(y[2]) && IsDigit(y[3])
  }

  /** `%m`: `1[0-2]`, `0[1-9]` or `[1-9]`. */
  predicate MonthField(m: string)
  {
    || (|m| == 2 && m[0] == '1' && '0' <= m[1] <= '2')
    || (|m| == 2 && m[0] == '0' && '1' <= m[1] <= '9')
    || (|m| == 1 && '1' <= m[0] <= '9')
  }

  /** `%d`: `3[01]`, `[12]\d`, `0[1-9]`, `[1-9]` or ` [1-9]`. */
  predicate DayField(d: string)
  {
    || (|d| == 2 && d[0] == '3' && '0' <= d[1] <= '1')
    || (|d| == 2 && '1' <= d[0] <= '2' && IsDigit(d[1]))
    || (|d| == 2 && d[0] == '0' && '1' <= d[1] <= '9')
    || (|d| == 1 && '1' <= d[0] <= '9')
    || (|d| == 2 && d[0] == ' ' && '1' <= d[1] <= '9')
  }

  /** The number a field spells, a leading space ignored as `int()` ignores it. */
  function FieldValue(f: string): int
  {
    if f == [] then 0
    else if f[0] == ' ' then FieldValue(f[1..])
    else if !IsDigit(f[|f| - 1]) then 0
    else 10 * FieldValue(f[..|f| - 1]) + DigitValue(f[|f| - 1])
  }

  predicate IsLeapYear(y: int)
  {
    y % 4 == 0 && (y % 100 != 0 || y % 400 == 0)
  }

  function DaysInMonth(y: int, m: int): int
  {
    if m == 2 then (if IsLeapYear(y) then 29 else 28)
    else if m == 4 || m == 6 || m == 9 || m == 11 then 30
    else 31
  }

  /** The (year, month, day) the pattern reads from `s`, or None when it does not match. */
  function ParseDate(s: string): (r: Option<(int, int, int)>)
    ensures r.Some? ==> 0 <= r.value.0 <= 9999 && 1 <= r.value.1 <= 12 && 1 <= r.value.2 <= 31
  {
    if |s| < 7 || !YearField(s[..4]) || s[4] != '-' then None
    else
      var rest := s[5..];
      var cut := if rest[1] == '-' then 1 else if |rest| >= 3 && rest[2] == '-' then 2 else 0;
      if cut == 0 then None
      else
        var month, day := rest[..cut], rest[cut + 1..];
        if MonthField(month) && DayField(day) then
          FourDigits(s[..4]);
          MonthRange(month);
          DayRange(day);
          Some((FieldValue(s[..4]), FieldValue(month), FieldValue(day)))
        else None
  }

  lemma OneDigit(f: string)
    requires |f| == 1 && IsDigit(f[0])
    ensures FieldValue(f) == DigitValue(f[0])
  {
    assert f[..0] == [];
  }

  lemma TwoDigits(f: string)
    requires |f| == 2 && IsDigit(f[0]) && IsDigit(f[1])
    ensures FieldValue(f) == 10 * DigitValue(f[0]) + DigitValue(f[1])
  {
    assert f[..1] == [f[0]];
    OneDigit(f[..1]);
  }

  lemma MonthRange(m: string)
    requires MonthField(m)
    ensures 1 <= FieldValue(m) <= 12
  {
    if |m| == 2 { TwoDigits(m); } else { OneDigit(m); }
  }

  lemma DayRange(d: string)
    requires DayField(d)
    ensures 1 <= FieldValue(d) <= 31
  {
    if |d| == 2 && d[0] == ' ' {
      OneDigit(d[1..]);
    } else if |d| == 2 {
      TwoDigits(d);
    } else {
      OneDigit(d);
    }
  }

  /** The date check: the pattern matches and the numbers name a real day, so an
      accepted text names a calendar date of the years 1 to 9999. */
  predicate IsIsoDate(s: string)
    ensures IsIsoDate(s) ==>
      && ParseDate(s).Some?
      && 1 <= ParseDate(s).value.0 <= 9999
      && 1 <= ParseDate(s).value.2 <= DaysInMonth(ParseDate(s).value.0, ParseDate(s).value.1)
  {
    match ParseDate(s)
    case None => false
    case Some((y, m, d)) => 1 <= y && d <= DaysInMonth(y, m)
  }

  /** The ASCII digit for 0 to 9. */
  function Digit(n: int): (c: char)
    requires 0 <= n <= 9
    ensures IsDigit(c) && DigitValue(c) == n
  {
    ('0' as int + n) as char
  }

  lemma FourDigits(f: string)
    requires |f| == 4 && IsDigit(f[0]) && IsDigit(f[1]) && IsDigit(f[2]) && IsDigit(f[3])
    ensures FieldValue(f) == 1000 * DigitValue(f[0]) + 100 * DigitValue(f[1]) + 10 * DigitValue(f[2]) + DigitValue(f[3])
  {
    assert f[..3][..2] == f[..2];
    TwoDigits(f[..2]);
    assert FieldValue(f[..3]) == 10 * FieldValue(f[..2]) + DigitValue(f[2]);
  }

  lemma YearDigits(y: int)
    requires 0 <= y <= 9999
    ensures 1000 * (y / 1000) + 100 * (y / 100 % 10) + 10 * (y / 10 % 10) + y % 10 == y
  {
    var q := y / 10;
    assert y == 10 * q + y % 10;
    var p := q / 10;
    assert q == 10 * p + q % 10;
    assert p / 10 == y / 1000;
    assert p % 10 == y / 100 % 10;
  }

  /** `%Y` written out: four digits, zero-padded. */
  function YearText(y: int): (t: string)
    requires 0 <= y <= 9999
    ensures YearField(t) && FieldValue(t) == y
  {
    var t := [Digit(y / 1000), Digit(y / 100 % 10), Digit(y / 10 % 10), Digit(y % 10)];
    FourDigits(t);
    YearDigits(y);
    t
  }

  /** `%m` written out: two digits, or one digit for January to September when bare. */
  function MonthText(m: int, padded: bool): (t: string)
    requires 1 <= m <= 12 && (!padded ==> m <= 9)
    ensures MonthField(t) && FieldValue(t) == m
  {
    if padded then
      var t := [Digit(m / 10), Digit(m % 10)];
      TwoDigits(t);
      t
    else
      OneDigit([Digit(m)]);
      [Digit(m)]
  }

  /** The three ways `%d` may write a day below 10: "05", "5" or " 5". */
  datatype DayStyle = ZeroPadded | Bare | SpacePadded

  /** `%d` written out in a style; days from 10 on are always two digits. */
  function DayText(d: int, style: DayStyle): (t: string)
    requires 1 <= d <= 31 && (style != ZeroPadded ==> d <= 9)
    ensures DayField(t) && FieldValue(t) == d
  {
    match style
    case ZeroPadded =>
      var t := [Digit(d / 10), Digit(d % 10)];
      TwoDigits(t);
      t
    case Bare =>
      OneDigit([Digit(d)]);
      [Digit(d)]
    case SpacePadded =>
      var t := [' ', Digit(d)];
      assert t[1..] == [Digit(d)];
      OneDigit([Digit(d)]);
      t
  }

  /** A date written with `-` between its fields. */
  function Written(y: int, m: int, d: int, paddedMonth: bool, style: DayStyle): string
    requires 0 <= y <= 9999 && 1 <= m <= 12 && 1 <= d <= 31
    requires !paddedMonth ==> m <= 9
    requires style != ZeroPadded ==> d <= 9
  {
    YearText(y) + "-" + MonthText(m, paddedMonth) + "-" + DayText(d, style)
  }

  /** The zero-padded form `YYYY-MM-DD` of a date. */
  function Iso(y: int, m: int, d: int): (s: string)
    requires 0 <= y <= 9999 && 1 <= m <= 12 && 1 <= d <= 31
    ensures |s| == 10
  {
    Written(y, m, d, true, ZeroPadded)
  }

  /** Three valid fields joined by `-` parse to the fields' numbers. */
  lemma FieldsParse(year: string, month: string, day: string)
    requires YearField(year) && MonthField(month) && DayField(day)
    ensures ParseDate(year + "-" + month + "-" + day) == Some((FieldValue(year), FieldValue(month), FieldValue(day)))
  {
    var s := year + "-" + month + "-" + day;
    assert s[..4] == year && s[4] == '-';
    var rest := s[5..];
    assert rest == month + "-" + day;
    var cut := |month|;
    assert rest[cut] == '-';
    assert rest[..cut] == month && rest[cut + 1..] == day;
    if cut == 2 {
      assert rest[1] != '-';
    }
  }

  /** A text laid out as `YYYY-MM-DD` with valid fields parses to the fields' numbers. */
  lemma ParsePadded(s: string)
    requires |s| == 10 && YearField(s[..4]) && s[4] == '-' && s[6] != '-' && s[7] == '-'
    requires MonthField(s[5..7]) && DayField(s[8..])
    ensures ParseDate(s) == Some((FieldValue(s[..4]), FieldValue(s[5..7]), FieldValue(s[8..])))
  {
    assert s == s[..4] + "-" + s[5..7] + "-" + s[8..];
    FieldsParse(s[..4], s[5..7], s[8..]);
  }

  /** Every calendar date, in each of the writings `%Y-%m-%d` accepts (month padded or
      bare, day zero-padded, bare or space-padded), parses back to its own numbers and
      passes the date check. */
  lemma WrittenRoundTrip(y: int, m: int, d: int, paddedMonth: bool, style: DayStyle)
    requires 1 <= y <= 9999 && 1 <= m <= 12 && 1 <= d <= DaysInMonth(y, m)
    requires !paddedMonth ==> m <= 9
    requires style != ZeroPadded ==> d <= 9
    ensures ParseDate(Written(y, m, d, paddedMonth, style)) == Some((y, m, d))
    ensures IsIsoDate(Written(y, m, d, paddedMonth, style))
  {
    FieldsParse(YearText(y), MonthText(m, paddedMonth), DayText(d, style));
  }

  /** Every calendar date written zero-padded parses back to its own numbers and
      passes the date check. */
  lemma IsoRoundTrip(y: int, m: int, d: int)
    requires 1 <= y <= 9999 && 1 <= m <= 12 && 1 <= d <= DaysInMonth(y, m)
    ensures ParseDate(Iso(y, m, d)) == Some((y, m, d))
    ensures IsIsoDate(Iso(y, m, d))
  {
    WrittenRoundTrip(y, m, d, true, ZeroPadded);
  }

  lemma DigitOf(c: char)
    requires IsDigit(c)
    ensures Digit(DigitValue(c)) == c
  {
  }

  lemma SplitTens(v: int, a: int, b: int)
    requires 0 <= b <= 9 && v == 10 * a + b
    ensures v / 10 == a && v % 10 == b
  {
  }

  /** Four digits are the zero-padded writing of the year they spell. */
  lemma YearTextOf(f: string)
    requires YearField(f)
    ensures 0 <= FieldValue(f) <= 9999
    ensures YearText(FieldValue(f)) == f
  {
    FourDigits(f);
    var a, b, c, d := DigitValue(f[0]), DigitValue(f[1]), DigitValue(f[2]), DigitValue(f[3]);
    var v := FieldValue(f);
    SplitTens(v, 100 * a + 10 * b + c, d);
    SplitTens(v / 10, 10 * a + b, c);
    SplitTens(v / 10 / 10, a, b);
    assert v / 100 == v / 10 / 10;
    assert v / 1000 == v / 10 / 10 / 10;
    DigitOf(f[0]);
    DigitOf(f[1]);
    DigitOf(f[2]);
    DigitOf(f[3]);
  }

  /** A valid `%m` field is the padded or the bare writing of its month. */
  lemma MonthTextOf(f: string) returns (padded: bool)
    requires MonthField(f)
    ensures 1 <= FieldValue(f) <= 12 && (!padded ==> FieldValue(f) <= 9)
    ensures MonthText(FieldValue(f), padded) == f
  {
    MonthRange(f);
    padded := |f| == 2;
    if padded {
      TwoDigits(f);
      SplitTens(FieldValue(f), DigitValue(f[0]), DigitValue(f[1]));
      DigitOf(f[0]);
      DigitOf(f[1]);
    } else {
      OneDigit(f);
      DigitOf(f[0]);
    }
  }

  /** A valid `%d` field is the writing of its day in one of the three styles. */
  lemma DayTextOf(f: string) returns (style: DayStyle)
    requires DayField(f)
    ensures 1 <= FieldValue(f) <= 31 && (style != ZeroPadded ==> FieldValue(f) <= 9)
    ensures DayText(FieldValue(f), style) == f
  {
    DayRange(f);
    if |f| == 1 {
      style := Bare;
      OneDigit(f);
      DigitOf(f[0]);
    } else if f[0] == ' ' {
      style := SpacePadded;
      OneDigit(f[1..]);
      DigitOf(f[1]);
    } else {
      style := ZeroPadded;
      TwoDigits(f);
      SplitTens(FieldValue(f), DigitValue(f[0]), DigitValue(f[1]));
      DigitOf(f[0]);
      DigitOf(f[1]);
    }
  }

  /** Every text the date check accepts is one of the writings of a calendar date:
      together with `WrittenRoundTrip`, the check accepts exactly those writings. */
  lemma AcceptedIsWritten(s: string)
    returns (y: int, m: int, d: int, paddedMonth: bool, style: DayStyle)
    requires IsIsoDate(s)
    ensures 1 <= y <= 9999 && 1 <= m <= 12 && 1 <= d <= DaysInMonth(y, m)
    ensures (!paddedMonth ==> m <= 9) && (style != ZeroPadded ==> d <= 9)
    ensures s == Written(y, m, d, paddedMonth, style)
  {
    var rest := s[5..];
    var cut := if rest[1] == '-' then 1 else 2;
    var month, day := rest[..cut], rest[cut + 1..];
    assert s == s[..4] + "-" + month + "-" + day;
    YearTextOf(s[..4]);
    FourDigits(s[..4]);
    paddedMonth := MonthTextOf(month);
    style := DayTextOf(day);
    y, m, d := FieldValue(s[..4]), FieldValue(month), FieldValue(day);
  }

  /** Leap days of leap years are accepted: 2024 (divisible by 4) and 2000 (by 400). */
  lemma LeapDaysAccepted()
    ensures IsIsoDate("2024-02-29") && IsIsoDate("2000-02-29")
  {
    assert Iso(2024, 2, 29) == "2024-02-29";
    IsoRoundTrip(2024, 2, 29);
    assert Iso(2000, 2, 29) == "2000-02-29";
    IsoRoundTrip(2000, 2, 29);
  }

  lemma NotALeapDay(s: string)
    requires |s| == 10 && YearField(s[..4]) && s[4..] == "-02-29"
    requires !IsLeapYear(FieldValue(s[..4]))
    ensures !IsIsoDate(s)
  {
    assert s[5..7] == "02" && s[8..] == "29";
    ParsePadded(s);
    TwoDigits("02");
    TwoDigits("29");
  }

  /** Leap days of other years are refused: 2023 (not divisible by 4) and 1900
      (divisible by 100 but not by 400). */
  lemma NonLeapDaysRejected()
    ensures !IsIsoDate("2023-02-29") && !IsIsoDate("1900-02-29")
  {
    FourDigits("2023");
    assert "2023-02-29"[..4] == "2023";
    NotALeapDay("2023-02-29");
    FourDigits("1900");
    assert "1900-02-29"[..4] == "1900";
    NotALeapDay("1900-02-29");
  }

  /** Trailing text, other separators, impossible days, month 13 and year 0 are refused. */
  lemma RejectedExamples()
    ensures !IsIsoDate("2025-02-15x") && !IsIsoDate("2025/02/15")
    ensures !IsIsoDate("2025-04-31") && !IsIsoDate("2025-13-01") && !IsIsoDate("0000-01-01")
  {
    assert "2025-02-15x"[5..][3..] == "15x";
    assert "2025-13-01"[5..][..2] == "13";
    var s := "2025-04-31";
    ParsePadded(s);
    FourDigits(s[..4]);
    TwoDigits(s[5..7]);
    TwoDigits(s[8..]);
    s := "0000-01-01";
    ParsePadded(s);
    FourDigits(s[..4]);
  }

  lemma SeptemberThirtieth()
    ensures ParseDate("2024-9-30") == Some((2024, 9, 30))
  {
    var s := "2024-9-30";
    FourDigits(s[..4]);
    assert s[5..][..1] == "9" && s[5..][2..] == "30";
    OneDigit("9");
    TwoDigits("30");
  }

  /** Stored dates sort as text, so accepted unpadded dates do not sort by time:
      "2024-10-01" comes before "2024-9-30" although it is the later day. */
  lemma TextOrderIsNotDateOrder()
    ensures IsIsoDate("2024-10-01") && IsIsoDate("2024-9-30")
    ensures ParseDate("2024-10-01") == Some((2024, 10, 1)) && ParseDate("2024-9-30") == Some((2024, 9, 30))
    ensures StrLt("2024-10-01", "2024-9-30")
  {
    assert Iso(2024, 10, 1) == "2024-10-01";
    IsoRoundTrip(2024, 10, 1);
    SeptemberThirtieth();
    assert "2024-10-01"[..5] == "2024-9-30"[..5];
    StrLtAtFirstDifference("2024-10-01", "2024-9-30", 5);
  }

}
