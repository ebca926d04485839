/** Time-travel times: the day number of a civil date, and reading a date, an age or an epoch. */
module AsOf {
  import T = Text

  // ---- Day numbers ----------------------------------------------------------------------------

  /** C++ integer division, which drops the fraction. */
  function Quotient(a: int, b: int): (q: int)
    requires b > 0
  {
    if a >= 0 then a / b else -(-a / b)
  }

  /** A value kept in 32 unsigned bits. */
  function Unsigned(x: int): (u: nat)
  {
    x % 0x1_0000_0000
  }

  /** Days from 1970-01-01 to a date, counted in years that start in March. */
  function DaysFromCivil(year: int, month: int, day: int): (days: int)
  {
    var y := if month <= 2 then year - 1 else year;
    var era := Quotient(if y >= 0 then y else y - 399, 400);
    var yoe := Unsigned(y - era * 400);
    var shifted := month + if month > 2 then -3 else 9;
    var doy := Unsigned(Unsigned(153 * Unsigned(shifted) + 2) / 5 + day - 1);
    var doe := Unsigned(yoe * 365 + yoe / 4 - yoe / 100 + doy);
    era * 146097 + doe - 719468
  }

  // ---- The Gregorian calendar, a year and a month at a time ----------------------------------------

  predicate Leap(y: int)
  {
    y % 4 == 0 && (y % 100 != 0 || y % 400 == 0)
  }

  function YearLength(y: int): (n: nat)
  {
    if Leap(y) then 366 else 365
  }

  function MonthLength(y: int, m: int): (n: nat)
    requires 1 <= m <= 12
  {
    if m == 2 then (if Leap(y) then 29 else 28)
    else if m == 4 || m == 6 || m == 9 || m == 11 then 30
    else 31
  }

  /** Days from 1970-01-01 to the first day of a year, one year at a time. */
  function YearStart(y: int): (days: int)
    decreases if y > 1970 then y - 1970 else 1970 - y
  {
    if y == 1970 then 0
    else if y > 1970 then YearStart(y - 1) + YearLength(y - 1)
    else YearStart(y + 1) - YearLength(y)
  }

  /** Days from the first day of a year to the first of a month, one month at a time. */
  function MonthStart(y: int, m: int): (days: nat)
    requires 1 <= m <= 12
  {
    if m == 1 then 0 else MonthStart(y, m - 1) + MonthLength(y, m - 1)
  }

  function DayNumber(y: int, m: int, d: int): (days: int)
    requires 1 <= m <= 12
  {
    YearStart(y) + MonthStart(y, m) + (d - 1)
  }

  /** Days before the first of January of a year, on the calendar carried back to year 0. */
  function Before(y: int): int
  {
    365 * y + (y - 1) / 4 - (y - 1) / 100 + (y - 1) / 400
  }

  lemma Gap4(y: int)
    ensures y / 4 - (y - 1) / 4 == if y % 4 == 0 then 1 else 0
  {
  }

  lemma Gap100(y: int)
    ensures y / 100 - (y - 1) / 100 == if y % 100 == 0 then 1 else 0
  {
  }

  lemma Gap400(y: int)
    ensures y / 400 - (y - 1) / 400 == if y % 400 == 0 then 1 else 0
  {
  }

  lemma Multiples(y: int)
    ensures y % 400 == 0 ==> y % 100 == 0
    ensures y % 100 == 0 ==> y % 4 == 0
  {
    assert y == 100 * (y / 100) + y % 100;
  }

  lemma YearGap(y: int)
    ensures Before(y + 1) - Before(y) == YearLength(y)
  {
    Gap4(y);
    Gap100(y);
    Gap400(y);
    Multiples(y);
  }

  lemma {:induction false} YearStartClosed(y: int)
    ensures YearStart(y) == Before(y) - 719527
    decreases if y > 1970 then y - 1970 else 1970 - y
  {
    if y > 1970 {
      YearStartClosed(y - 1);
      YearGap(y - 1);
    } else if y < 1970 {
      YearStartClosed(y + 1);
      YearGap(y);
    }
  }

  /** The eras of 400 years add up to the closed form. */
  lemma EraSum(y: int)
    ensures var era := Quotient(if y >= 0 then y else y - 399, 400);
            var yoe := y - era * 400;
            && 0 <= yoe < 400
            && era * 146097 + yoe * 365 + Quotient(yoe, 4) - Quotient(yoe, 100) == Before(y + 1) - 365
  {
    var era := Quotient(if y >= 0 then y else y - 399, 400);
    assert era == y / 400;
    var yoe := y - era * 400;
    assert y == 400 * era + yoe;
    assert y / 4 == 100 * era + yoe / 4;
    assert y / 100 == 4 * era + yoe / 100;
  }

  lemma MonthStartClosed(y: int, m: int)
    requires 1 <= m <= 12
    ensures MonthStart(y, m) == if m == 1 then 0 else if m == 2 then 31
                                else Quotient(153 * (m - 3) + 2, 5) + if Leap(y) then 60 else 59
  {
    if m > 1 {
      MonthStartClosed(y, m - 1);
    }
  }

  /** The era of 400 years, from March to February, that the first of a month is in. */
  function Era(y: int, m: int): (era: int)
  {
    (if m <= 2 then y - 1 else y) / 400
  }

  /** The days from the start of that era, 1 March, to a date. */
  function DayOfEra(y: int, m: int, d: int): (days: int)
    requires 1 <= m <= 12
  {
    DayNumber(y, m, d) - DayNumber(400 * Era(y, m), 3, 1)
  }

  /** The day of the era before it is cut to 32 bits. */
  lemma EraParts(y: int, m: int, d: int)
    requires 1 <= m <= 12
    ensures var y' := if m <= 2 then y - 1 else y;
            var era := Quotient(if y' >= 0 then y' else y' - 399, 400);
            var yoe := y' - era * 400;
            && 0 <= yoe < 400 && era == Era(y, m)
            && DayNumber(y, m, d) == era * 146097 - 719468 + DayOfEra(y, m, d)
            && DayOfEra(y, m, d) == yoe * 365 + yoe / 4 - yoe / 100
                                    + (153 * (m + if m > 2 then -3 else 9) + 2) / 5 + d - 1
  {
    EraSum(if m <= 2 then y - 1 else y);
    YearStartClosed(y);
    YearGap(y);
    MonthStartClosed(y, m);
    EraStart(Era(y, m));
  }

  lemma EraStart(era: int)
    ensures DayNumber(400 * era, 3, 1) == era * 146097 - 719468
  {
    var y := 400 * era;
    YearStartClosed(y);
    MonthStartClosed(y, 3);
    assert y % 400 == 0 && y / 400 == era;
    EraSum(y);
    YearGap(y);
  }

  /** For every year, negative ones included, every month and every day count of an `int`: the day
      number is the one reached by adding year and month lengths one at a time if and only if the
      date is not before the era of its month. Otherwise it is 2 to the 32 too great. */
  lemma DaysAreDayNumber(y: int, m: int, d: int)
    requires 1 <= m <= 12 && T.Fits(d, 32)
    ensures DaysFromCivil(y, m, d) == DayNumber(y, m, d) <==> DayOfEra(y, m, d) >= 0
    ensures DayOfEra(y, m, d) < 0 ==> DaysFromCivil(y, m, d) == DayNumber(y, m, d) + 0x1_0000_0000
    ensures d >= 1 ==> DayOfEra(y, m, d) >= 0
  {
    hide *;
    DayOfEraBounds(y, m, d);
    DaysCut(y, m, d);
    UnsignedOnce(DayOfEra(y, m, d));
  }

  lemma DayOfEraBounds(y: int, m: int, d: int)
    requires 1 <= m <= 12 && T.Fits(d, 32)
    ensures DayNumber(y, m, d) == Era(y, m) * 146097 - 719468 + DayOfEra(y, m, d)
    ensures -0x8000_0001 <= DayOfEra(y, m, d) < 0x1_0000_0000 && (d >= 1 ==> DayOfEra(y, m, d) >= 0)
  {
    hide DayNumber, DayOfEra, Era;
    EraParts(y, m, d);
  }

  lemma UnsignedOnce(x: int)
    requires -0x1_0000_0000 <= x < 0x1_0000_0000
    ensures Unsigned(x) == if x < 0 then x + 0x1_0000_0000 else x
  {
  }

  lemma DaysCut(y: int, m: int, d: int)
    requires 1 <= m <= 12
    ensures DaysFromCivil(y, m, d) == Era(y, m) * 146097 - 719468 + Unsigned(DayOfEra(y, m, d))
  {
    hide DayNumber, DayOfEra, Era, Unsigned;
    EraParts(y, m, d);
    var y' := if m <= 2 then y - 1 else y;
    var yoe := y' - Era(y, m) * 400;
    var q := (153 * (m + if m > 2 then -3 else 9) + 2) / 5;
    Small(yoe);
    Small(m + if m > 2 then -3 else 9);
    Small(153 * (m + if m > 2 then -3 else 9) + 2);
    UnsignedSum(yoe * 365 + yoe / 4 - yoe / 100, q + d - 1);
  }

  lemma Small(x: int)
    requires 0 <= x < 0x1_0000_0000
    ensures Unsigned(x) == x
  {
  }

  lemma UnsignedSum(a: int, b: int)
    ensures Unsigned(a + Unsigned(b)) == Unsigned(a + b)
  {
    var n := 0x1_0000_0000;
    assert b == b / n * n + b % n;
    assert (a + b) == (a + b % n) + (b / n) * n;
  }

  /** Day 0 of a March that starts an era is 2 to the 32 days off. */
  lemma DayBeforeEra()
    ensures DaysFromCivil(2000, 3, 0) == DayNumber(2000, 3, 0) + 0x1_0000_0000
  {
    EraParts(2000, 3, 0);
    DaysAreDayNumber(2000, 3, 0);
  }

  predicate Date(y: int, m: int, d: int)
  {
    1 <= m <= 12 && 1 <= d <= MonthLength(y, m)
  }

  predicate Earlier(y: int, m: int, d: int, y': int, m': int, d': int)
  {
    y < y' || (y == y' && (m < m' || (m == m' && d < d')))
  }

  lemma {:induction false} MonthsGrow(y: int, m: int, m': int)
    requires 1 <= m < m' <= 12
    ensures MonthStart(y, m) + MonthLength(y, m) <= MonthStart(y, m')
  {
    if m < m' - 1 {
      MonthsGrow(y, m, m' - 1);
    }
  }

  lemma {:induction false} YearsGrow(y: int, y': int)
    requires y < y'
    ensures Before(y) + YearLength(y) <= Before(y')
    decreases y' - y
  {
    YearGap(y' - 1);
    if y < y' - 1 {
      YearsGrow(y, y' - 1);
    }
  }

  /** Later dates have greater day numbers. */
  lemma DaysIncrease(y: int, m: int, d: int, y': int, m': int, d': int)
    requires Date(y, m, d) && Date(y', m', d') && Earlier(y, m, d, y', m', d')
    ensures DaysFromCivil(y, m, d) < DaysFromCivil(y', m', d')
  {
    DaysAreDayNumber(y, m, d);
    DaysAreDayNumber(y', m', d');
    if y < y' {
      YearsGrow(y, y');
      YearStartClosed(y);
      YearStartClosed(y');
      MonthStartClosed(y, m);
    } else if m < m' {
      MonthsGrow(y, m, m');
    }
  }

  // ---- Reading a time ------------------------------------------------------------------------------------

  /** A time, or a signed result beyond 64 bits, for which C++ promises nothing. */
  datatype Reading = Time(t: int) | Overflow

  function Checked(t: int): (r: Reading)
  {
    if T.Fits(t, 64) then Time(t) else Overflow
  }

  function UnitSeconds(unit: char): (n: nat)
  {
    if unit == 'd' then 86400 else if unit == 'h' then 3600 else 60
  }

  /** The time a text means; 0 if it cannot be read. */
  function ParseAsOf(raw: string, now: int): (r: Reading)
  {
    if raw == "" then Time(0)
    else if |raw| == 10 && raw[4] == '-' && raw[7] == '-' then
      var y, m, d := T.Scan(raw[..4], 64), T.Scan(raw[5..7], 32), T.Scan(raw[8..10], 32);
      if y.NoNumber? || m.NoNumber? || d.NoNumber? then Time(0)
      else if m.value < 1 || m.value > 12 || d.value < 1 || d.value > 31 then Time(0)
      else Checked(DaysFromCivil(y.value, m.value, d.value) * 86400)
    else
      var unit := raw[|raw| - 1];
      if unit == 'd' || unit == 'h' || unit == 'm' then
        var n := T.Scan(raw[..|raw| - 1], 64);
        if n.NoNumber? || n.value < 0 then Time(0)
        else if Checked(n.value * UnitSeconds(unit)).Overflow? then Overflow
        else Checked(now - n.value * UnitSeconds(unit))
      else
        var e := T.Scan(raw, 64);
        Time(if e.Number? && e.value > 0 then e.value else 0)
  }

  function Digits(n: nat, width: nat): (s: string)
    ensures |s| == width && T.AllDigits(s)
  {
    if width == 0 then "" else Digits(n / 10, width - 1) + [T.DigitChar(n % 10)]
  }

  /** `YYYY-MM-DD` */
  function Format(y: nat, m: nat, d: nat): (s: string)
  {
    Digits(y, 4) + "-" + Digits(m, 2) + "-" + Digits(d, 2)
  }

  function Power(k: nat): (p: nat)
    ensures p > 0
  {
    if k == 0 then 1 else 10 * Power(k - 1)
  }

  lemma ValueMore(s: string, d: nat)
    requires T.AllDigits(s) && d < 10
    ensures T.AllDigits(s + [T.DigitChar(d)]) && T.Value(s + [T.DigitChar(d)]) == 10 * T.Value(s) + d
  {
    var r := s + [T.DigitChar(d)];
    assert r[..|r| - 1] == s;
  }

  lemma {:induction false} ValueOfDigits(n: nat, width: nat)
    requires n < Power(width)
    ensures T.Value(Digits(n, width)) == n
  {
    if width > 0 {
      ValueOfDigits(n / 10, width - 1);
      ValueMore(Digits(n / 10, width - 1), n % 10);
    }
  }

  lemma ScanDigits(n: nat, width: nat, bits: nat)
    requires 0 < width <= 4 && n < Power(width) && (bits == 32 || bits == 64)
    ensures T.Scan(Digits(n, width), bits) == T.Number(n)
  {
    PowerSmall(width);
    ValueOfDigits(n, width);
    hide Digits, Power;
    T.ScanNumeral(Digits(n, width), bits);
  }

  lemma PowerSmall(k: nat)
    requires k <= 4
    ensures Power(k) <= 10000
  {
    assert Power(0) == 1 && Power(1) == 10 && Power(2) == 100 && Power(3) == 1000 && Power(4) == 10000;
  }

  lemma FormatParts(y: nat, m: nat, d: nat)
    ensures var s := Format(y, m, d);
            && |s| == 10 && s[4] == '-' && s[7] == '-'
            && s[..4] == Digits(y, 4) && s[5..7] == Digits(m, 2) && s[8..10] == Digits(d, 2)
  {
    hide Digits;
  }

  /** A written date reads back as midnight of its day; a day of the month that does not exist
      counts on into the next month. */
  lemma FormattedDate(y: nat, m: nat, d: nat, now: int)
    requires y <= 9999 && 1 <= m <= 12 && 1 <= d <= 31
    ensures ParseAsOf(Format(y, m, d), now) == Time(DayNumber(y, m, d) * 86400)
  {
    hide Digits, Format, DaysFromCivil, DayNumber, T.Scan, DayOfEra;
    FormatParts(y, m, d);
    assert Power(2) == 100 && Power(4) == 10000;
    ScanDigits(y, 4, 64);
    ScanDigits(m, 2, 32);
    ScanDigits(d, 2, 32);
    DaysAreDayNumber(y, m, d);
    DayNumberSmall(y, m, d);
  }

  lemma DayNumberSmall(y: nat, m: nat, d: nat)
    requires y <= 9999 && 1 <= m <= 12 && 1 <= d <= 31
    ensures -1_000_000 <= DayNumber(y, m, d) <= 4_000_000
  {
    YearStartClosed(y);
    MonthStartClosed(y, m);
  }

  /** A day past the end of its month is the day that many days into the next. */
  lemma DayOverflows(y: int, m: int, d: int)
    requires 1 <= m <= 12 && MonthLength(y, m) < d && T.Fits(d, 32)
    ensures DaysFromCivil(y, m, d) == if m < 12 then DaysFromCivil(y, m + 1, d - MonthLength(y, m))
                                      else DaysFromCivil(y + 1, 1, d - 31)
  {
    hide DaysFromCivil, DayOfEra;
    DaysAreDayNumber(y, m, d);
    if m < 12 {
      DaysAreDayNumber(y, m + 1, d - MonthLength(y, m));
    } else {
      DaysAreDayNumber(y + 1, 1, d - 31);
      YearStartClosed(y);
      YearStartClosed(y + 1);
      YearGap(y);
      MonthStartClosed(y, 12);
    }
  }

  lemma ScanPrinted(n: nat)
    ensures T.Scan(T.ToString(n), 64) == if T.Fits(n, 64) then T.Number(n) else T.NoNumber
  {
    T.ValueToString(n);
    hide T.Value, T.ToString;
    T.ScanNumeral(T.ToString(n), 64);
  }

  lemma PrintedDigits(n: nat, unit: char)
    ensures var s := T.ToString(n);
            && s != "" && T.IsDigit(s[|s| - 1])
            && (s + [unit])[..|s|] == s && (s + [unit])[|s|] == unit
            && (forall k | 0 <= k < |s| :: T.IsDigit((s + [unit])[k]))
  {
    hide T.ToString;
  }

  /** An age in days, hours or minutes reads as that long before now, as far as the age and the time
      fit 64 bits. An age too long for the number to be read gives 0. */
  lemma PrintedAge(n: nat, unit: char, now: int)
    requires unit == 'd' || unit == 'h' || unit == 'm'
    ensures var age := n * (if unit == 'd' then 86400 else if unit == 'h' then 3600 else 60);
            ParseAsOf(T.ToString(n) + [unit], now) ==
            if !T.Fits(n, 64) then Time(0)
            else if T.Fits(age, 64) && T.Fits(now - age, 64) then Time(now - age)
            else Overflow
  {
    hide T.Scan, DaysFromCivil, T.ToString;
    ScanPrinted(n);
    PrintedDigits(n, unit);
  }

  /** An epoch reads as itself. */
  lemma PrintedEpoch(n: nat, now: int)
    ensures ParseAsOf(T.ToString(n), now) == Time(if T.Fits(n, 64) then n else 0)
  {
    hide T.Scan, DaysFromCivil, T.ToString;
    ScanPrinted(n);
    PrintedDigits(n, 'd');
    assert forall k | 0 <= k < |T.ToString(n)| :: T.ToString(n)[k] == (T.ToString(n) + ['d'])[k];
  }

  // ---- What is refused -----------------------------------------------------------------------------------

  lemma NegativeNumeral(n: nat)
    requires n > 0
    ensures var k: int := 0 - n;
            && T.Scan(T.IntToString(k), 64) == (if T.Fits(k, 64) then T.Number(k) else T.NoNumber)
            && T.IntToString(k) == "-" + T.ToString(n)
  {
    var k: int := 0 - n;
    assert -k == n;
    T.ScanFits(k, 64);
  }

  /** No text, a written date with a month or a day that no calendar has, a negative age and a negative
      epoch all give 0. */
  lemma Refused(y: nat, m: nat, d: nat, n: nat, now: int)
    ensures ParseAsOf("", now) == Time(0)
    ensures y <= 9999 && m <= 99 && d <= 99 && (m == 0 || m > 12 || d == 0 || d > 31) ==>
              ParseAsOf(Format(y, m, d), now) == Time(0)
    ensures n > 0 ==> ParseAsOf("-" + T.ToString(n), now) == Time(0)
    ensures n > 0 ==>
              && ParseAsOf("-" + T.ToString(n) + "d", now) == Time(0)
              && ParseAsOf("-" + T.ToString(n) + "h", now) == Time(0)
              && ParseAsOf("-" + T.ToString(n) + "m", now) == Time(0)
  {
    if y <= 9999 && m <= 99 && d <= 99 && (m == 0 || m > 12 || d == 0 || d > 31) {
      RefusedDate(y, m, d, now);
    }
    if n > 0 {
      RefusedAge(n, 'd', now);
      RefusedAge(n, 'h', now);
      RefusedAge(n, 'm', now);
      RefusedEpoch(n, now);
    }
  }

  lemma RefusedDate(y: nat, m: nat, d: nat, now: int)
    requires y <= 9999 && m <= 99 && d <= 99 && (m == 0 || m > 12 || d == 0 || d > 31)
    ensures ParseAsOf(Format(y, m, d), now) == Time(0)
  {
    hide Digits, Format, DaysFromCivil, T.Scan;
    FormatParts(y, m, d);
    assert Power(2) == 100 && Power(4) == 10000;
    ScanDigits(y, 4, 64);
    ScanDigits(m, 2, 32);
    ScanDigits(d, 2, 32);
  }

  lemma NotADate(s: string, unit: char)
    requires |s| > 1 && s[0] == '-' && forall k | 1 <= k < |s| :: T.IsDigit(s[k])
    ensures var t := s + [unit];
            && t != "" && t[|t| - 1] == unit && t[..|t| - 1] == s
            && (unit != '-' ==> !(|t| == 10 && t[4] == '-' && t[7] == '-'))
    ensures !(|s| == 10 && s[4] == '-' && s[7] == '-') && T.IsDigit(s[|s| - 1])
  {
  }

  lemma SignedDigits(n: nat)
    ensures var s := "-" + T.ToString(n); |s| > 1 && s[0] == '-' && forall k | 1 <= k < |s| :: T.IsDigit(s[k])
  {
    hide T.ToString;
  }

  lemma RefusedAge(n: nat, unit: char, now: int)
    requires n > 0 && (unit == 'd' || unit == 'h' || unit == 'm')
    ensures ParseAsOf("-" + T.ToString(n) + [unit], now) == Time(0)
  {
    NegativeNumeral(n);
    SignedDigits(n);
    var s := "-" + T.ToString(n);
    hide T.Scan, DaysFromCivil, T.ToString, T.IntToString;
    NotADate(s, unit);
  }

  lemma RefusedEpoch(n: nat, now: int)
    requires n > 0
    ensures ParseAsOf("-" + T.ToString(n), now) == Time(0)
  {
    NegativeNumeral(n);
    SignedDigits(n);
    var s := "-" + T.ToString(n);
    hide T.Scan, DaysFromCivil, T.ToString, T.IntToString;
    NotADate(s, 'd');
  }
}
