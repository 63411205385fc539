/** Calendar days as the dashboard sees them through JavaScript `Date` and date-fns:
    the proleptic Gregorian calendar, the `yyyy-MM-dd` date key (the `full-date` form of
    section 5.6 of RFC 3339) and the weekday that `Date.getDay()` reports. */
module Dates {

  /** A local calendar day: full year, month 1..12 (`getMonth() + 1`) and day of month.
      The time of day is not part of the model. */
  datatype Ymd = Ymd(year: int, month: int, day: int)

  predicate IsLeapYear(y: int) {
    y % 4 == 0 && (y % 100 != 0 || y % 400 == 0)
  }

  function DaysInMonth(y: int, m: int): (n: int)
    requires 1 <= m <= 12
    ensures 28 <= n <= 31
    ensures m == 2 ==> (n == 29 <==> IsLeapYear(y)) && (n == 28 <==> !IsLeapYear(y))
    ensures m != 2 ==> (n == 30 <==> m in {4, 6, 9, 11}) && (n == 31 <==> m !in {4, 6, 9, 11})
  {
    if m == 2 then (if IsLeapYear(y) then 29 else 28)
    else if m == 4 || m == 6 || m == 9 || m == 11 then 30
    else 31
  }

  predicate IsValid(d: Ymd) {
    1 <= d.month <= 12 && 1 <= d.day <= DaysInMonth(d.year, d.month)
  }

  /** A day a JavaScript `Date` can denote. */
  type Date = d: Ymd | IsValid(d) witness Ymd(1970, 1, 1)

  // ---------------------------------------------------------------------------
  // The date key `format(date, 'yyyy-MM-dd')`

  predicate IsDigit(c: char) {
    '0' <= c <= '9'
  }

  predicate AllDigits(s: string) {
    forall i :: 0 <= i < |s| ==> IsDigit(s[i])
  }

  function DigitChar(n: int): (c: char)
    requires 0 <= n <= 9
    ensures IsDigit(c) && c as int - '0' as int == n
  {
    (n + '0' as int) as char
  }

  /** The shortest decimal numeral of `n`. */
  function Decimal(n: nat): (s: string)
    ensures 1 <= |s| && AllDigits(s)
    ensures n < 10 ==> |s| == 1
    ensures n < 100 ==> |s| <= 2
    ensures n < 10000 ==> |s| <= 4
  {
    if n < 10 then [DigitChar(n)] else Decimal(n / 10) + [DigitChar(n % 10)]
  }

  function Zeros(k: nat): (s: string)
    ensures |s| == k && AllDigits(s)
  {
    if k == 0 then "" else "0" + Zeros(k - 1)
  }

  /** The numeral of `n`, left-padded with zeros to at least `width` digits. */
  function Pad(n: nat, width: nat): (s: string)
    ensures |s| >= width && AllDigits(s)
    ensures |Decimal(n)| <= width ==> |s| == width
  {
    var d := Decimal(n);
    if |d| < width then Zeros(width - |d|) + d else d
  }

  /** The number a digit string denotes (the decoder of `Decimal` and `Pad`). */
  function Value(s: string): nat
    requires AllDigits(s)
  {
    if |s| == 0 then 0 else Value(s[..|s| - 1]) * 10 + (s[|s| - 1] as int - '0' as int)
  }

  lemma {:induction false} ValueOfDecimal(n: nat)
    ensures Value(Decimal(n)) == n
  {
    if n >= 10 {
      ValueOfDecimal(n / 10);
      var s := Decimal(n);
      assert s[..|s| - 1] == Decimal(n / 10);
    }
  }

  lemma {:induction false} ValueIgnoresZeros(k: nat, s: string)
    requires AllDigits(s)
    ensures Value(Zeros(k) + s) == Value(s)
    decreases |s|, k
  {
    if |s| == 0 {
      assert Zeros(k) + s == Zeros(k);
      if k > 0 {
        assert Zeros(k)[..k - 1] == Zeros(k - 1) by {
          ZerosPrefix(k);
        }
        ValueIgnoresZeros(k - 1, s);
        assert Zeros(k - 1) + s == Zeros(k - 1);
      }
    } else {
      var t := Zeros(k) + s;
      assert t[..|t| - 1] == Zeros(k) + s[..|s| - 1];
      ValueIgnoresZeros(k, s[..|s| - 1]);
    }
  }

  lemma {:induction false} ZerosPrefix(k: nat)
    requires k > 0
    ensures Zeros(k)[..k - 1] == Zeros(k - 1)
  {
    if k > 1 {
      ZerosPrefix(k - 1);
      assert Zeros(k) == "0" + Zeros(k - 1);
      assert Zeros(k)[..k - 1] == "0" + Zeros(k - 1)[..k - 2];
    }
  }

  lemma ValueOfPad(n: nat, width: nat)
    ensures Value(Pad(n, width)) == n
  {
    ValueOfDecimal(n);
    var d := Decimal(n);
    if |d| < width {
      ValueIgnoresZeros(width - |d|, d);
    }
  }

  /** The year digits date-fns writes for token `yyyy`: the year of the era, so a year
      `y <= 0` is written as `1 - y`. */
  function EraYear(y: int): (e: nat)
    ensures y >= 1 ==> e == y
  {
    if y > 0 then y else 1 - y
  }

  /** `format(d, 'yyyy-MM-dd')`. */
  function DateKey(d: Date): (r: string)
    ensures |r| >= 10 && r[|r| - 6] == '-' && r[|r| - 3] == '-'
    ensures 1 <= d.year <= 9999 ==> |r| == 10
  {
    Pad(EraYear(d.year), 4) + "-" + Pad(d.month, 2) + "-" + Pad(d.day, 2)
  }

  /** For the years 1..9999 the key is an RFC 3339 `full-date`: four year digits, a dash,
      two month digits, a dash, two day digits, and the fields decode back to the date. */
  lemma KeyIsFullDate(d: Date)
    requires 1 <= d.year <= 9999
    ensures var k := DateKey(d);
      && |k| == 10 && k[4] == '-' && k[7] == '-'
      && AllDigits(k[..4]) && AllDigits(k[5..7]) && AllDigits(k[8..])
      && Value(k[..4]) == d.year && Value(k[5..7]) == d.month && Value(k[8..]) == d.day
  {
    var k := DateKey(d);
    var y, m, dd := Pad(d.year, 4), Pad(d.month, 2), Pad(d.day, 2);
    assert k == y + "-" + m + "-" + dd;
    assert k[..4] == y && k[5..7] == m && k[8..] == dd;
    ValueOfPad(d.year, 4);
    ValueOfPad(d.month, 2);
    ValueOfPad(d.day, 2);
  }

  /** The month and day part of a key, `-MM-dd`. */
  function KeyTail(d: Date): (t: string)
    ensures |t| == 6 && t[1..3] == Pad(d.month, 2) && t[4..] == Pad(d.day, 2)
  {
    "-" + Pad(d.month, 2) + "-" + Pad(d.day, 2)
  }

  lemma KeySplit(d: Date)
    ensures DateKey(d) == Pad(EraYear(d.year), 4) + KeyTail(d)
  {
  }

  /** Distinct days (from year 1 on) have distinct keys, so comparing keys is comparing days. */
  lemma KeyInjective(a: Date, b: Date)
    requires a.year >= 1 && b.year >= 1
    ensures DateKey(a) == DateKey(b) <==> a == b
  {
    if DateKey(a) == DateKey(b) {
      var k := DateKey(a);
      KeySplit(a);
      KeySplit(b);
      var ya, yb := Pad(a.year, 4), Pad(b.year, 4);
      var ta, tb := KeyTail(a), KeyTail(b);
      assert ya == k[..|k| - 6] && ta == k[|k| - 6..];
      assert yb == k[..|k| - 6] && tb == k[|k| - 6..];
      ValueOfPad(a.year, 4);
      ValueOfPad(b.year, 4);
      ValueOfPad(a.month, 2);
      ValueOfPad(b.month, 2);
      ValueOfPad(a.day, 2);
      ValueOfPad(b.day, 2);
    }
  }

  // ---------------------------------------------------------------------------
  // Day numbers and weekdays

  /** Days from 0001-01-01 (a Monday) to the first day of year `y`; Dafny's `/` with a
      positive divisor is floor division, so this holds for years before 1 as well. */
  function DaysBeforeYear(y: int): int {
    365 * (y - 1) + (y - 1) / 4 - (y - 1) / 100 + (y - 1) / 400
  }

  /** Days from the first of January to the first of month `m` of year `y`. */
  function DaysBeforeMonth(y: int, m: int): int
    requires 1 <= m <= 12
  {
    var leap := if IsLeapYear(y) then 1 else 0;
    if m == 1 then 0
    else if m == 2 then 31
    else [59, 90, 120, 151, 181, 212, 243, 273, 304, 334][m - 3] + leap
  }

  /** Days from 0001-01-01 to `d`. */
  function DayNumber(d: Date): int {
    DaysBeforeYear(d.year) + DaysBeforeMonth(d.year, d.month) + d.day - 1
  }

  /** `Date.getDay()`: 0 for Sunday, 1 for Monday, ..., 6 for Saturday. */
  function Weekday(d: Date): (w: int)
    ensures 0 <= w < 7
  {
    (DayNumber(d) + 1) % 7
  }

  lemma UnixEpochIsThursday()
    ensures Weekday(Ymd(1970, 1, 1)) == 4
  {
  }

  /** The month table agrees with `DaysInMonth`. */
  lemma DaysBeforeNextMonth(y: int, m: int)
    requires 1 <= m < 12
    ensures DaysBeforeMonth(y, m + 1) == DaysBeforeMonth(y, m) + DaysInMonth(y, m)
  {
  }

  lemma StepDiv(y: int, k: int)
    requires k == 4 || k == 100 || k == 400
    ensures y / k - (y - 1) / k == if y % k == 0 then 1 else 0
  {
    if k == 4 {
      StepDivBy4(y);
    } else if k == 100 {
      StepDivBy100(y);
    } else {
      StepDivBy400(y);
    }
  }

  lemma StepDivBy4(y: int)
    ensures y / 4 - (y - 1) / 4 == if y % 4 == 0 then 1 else 0
  {
  }

  lemma StepDivBy100(y: int)
    ensures y / 100 - (y - 1) / 100 == if y % 100 == 0 then 1 else 0
  {
  }

  lemma StepDivBy400(y: int)
    ensures y / 400 - (y - 1) / 400 == if y % 400 == 0 then 1 else 0
  {
  }

  lemma DivisibilityChain(y: int)
    ensures y % 400 == 0 ==> y % 100 == 0
    ensures y % 100 == 0 ==> y % 4 == 0
  {
    if y % 400 == 0 {
      var q := y / 400;
      assert y == 100 * (4 * q);
    }
    if y % 100 == 0 {
      var q := y / 100;
      assert y == 4 * (25 * q);
    }
  }

  /** A year holds 366 days exactly when it is a leap year. */
  lemma {:induction false} YearLength(y: int)
    ensures DaysBeforeYear(y + 1) - DaysBeforeYear(y) == if IsLeapYear(y) then 366 else 365
  {
    StepDiv(y, 4);
    StepDiv(y, 100);
    StepDiv(y, 400);
    DivisibilityChain(y);
  }
}
