/** Proleptic Gregorian arithmetic: the leap rule, month lengths, a day count from a fixed
    origin and the weekday, the `YYYY-MM-DD` key of a date, and the way JavaScript's
    `new Date(y, m, d)` reads a year below 100. Months are 0-based as in JavaScript. */
module Gregorian {
  import opened Text

  /** Divisible by 4, except centuries not divisible by 400. */
  predicate IsLeap(y: int) {
    y % 4 == 0 && (y % 100 != 0 || y % 400 == 0)
  }

  /** The number of days of month `m0` (0 = January) of year `y`. */
  function MonthLength(y: int, m0: int): (n: int)
    requires 0 <= m0 <= 11
    ensures 28 <= n <= 31
    ensures n == 29 <==> m0 == 1 && IsLeap(y)
    ensures n == 28 <==> m0 == 1 && !IsLeap(y)
    ensures n == 30 <==> m0 in {3, 5, 8, 10}
  {
    if m0 == 1 then (if IsLeap(y) then 29 else 28)
    else if m0 == 3 || m0 == 5 || m0 == 8 || m0 == 10 then 30
    else 31
  }

  /** `new Date(y, m, d)` takes a year argument from 0 to 99 as 1900 + y. */
  function JsYear(y: int): int {
    if 0 <= y <= 99 then 1900 + y else y
  }

  /** Years whose neighbours on both sides are read by `new Date` as they are. */
  predicate PlainYear(y: int) {
    y < -1 || y > 100
  }

  /** `new Date(y, m0 + 1, 0).getDate()`: day 0 of the following month is the last day of
      month `m0` of the year `new Date` reads. */
  function DaysInMonth(y: int, m0: int): (n: int)
    requires 0 <= m0 <= 11
    ensures 28 <= n <= 31
  {
    MonthLength(JsYear(y), m0)
  }

  /** Days in the years before year `y` (the year before 1 is 0, and so on backwards). */
  function DaysBeforeYear(y: int): int {
    365 * (y - 1) + (y - 1) / 4 - (y - 1) / 100 + (y - 1) / 400
  }

  /** Days in the months of year `y` before month `m0`. */
  function DaysBeforeMonth(y: int, m0: int): int
    requires 0 <= m0 <= 12
  {
    var cumulative := [0, 31, 59, 90, 120, 151, 181, 212, 243, 273, 304, 334, 365];
    cumulative[m0] + (if m0 >= 2 && IsLeap(y) then 1 else 0)
  }

  /** The day number of a date, counting 1 January of year 1 as day 1. */
  function DayNumber(y: int, m0: int, d: int): int
    requires 0 <= m0 <= 11
  {
    DaysBeforeYear(y) + DaysBeforeMonth(y, m0) + d
  }

  /** 0 = Sunday .. 6 = Saturday (1 January of year 1 was a Monday). */
  function Weekday(y: int, m0: int, d: int): (w: int)
    requires 0 <= m0 <= 11
    ensures 0 <= w < 7
  {
    DayNumber(y, m0, d) % 7
  }

  /** `new Date(y, m0, 1).getDay()`. */
  function FirstWeekday(y: int, m0: int): (w: int)
    requires 0 <= m0 <= 11
    ensures 0 <= w < 7
  {
    Weekday(JsYear(y), m0, 1)
  }

  /** The months of a year add up to its length. */
  lemma MonthsAddUp(y: int, m0: int)
    requires 0 <= m0 <= 11
    ensures DaysBeforeMonth(y, m0 + 1) == DaysBeforeMonth(y, m0) + MonthLength(y, m0)
  {
  }

  /** One year after another: 366 days in a leap year, 365 otherwise. */
  lemma YearStep(y: int)
    ensures DaysBeforeYear(y + 1) == DaysBeforeYear(y) + DaysBeforeMonth(y, 12)
  {
    DivStep(y, 4);
    DivStep(y, 100);
    DivStep(y, 400);
  }

  /** Moving from `y - 1` to `y` raises the quotient by `k` exactly when `k` divides `y`. */
  lemma DivStep(y: int, k: int)
    requires k > 0
    ensures y / k - (y - 1) / k == if y % k == 0 then 1 else 0
  {
    var q, r := y / k, y % k;
    if r == 0 {
      DivUnique(y - 1, k, q - 1, k - 1);
    } else {
      DivUnique(y - 1, k, q, r - 1);
    }
  }

  lemma DivUnique(a: int, k: int, q: int, r: int)
    requires k > 0 && 0 <= r < k && a == k * q + r
    ensures a / k == q
  {
    var q', r' := a / k, a % k;
    assert k * q' + r' == k * q + r;
    if q' < q {
      MulStep(k, q', q - q');
    } else if q' > q {
      MulStep(k, q, q' - q);
    }
  }

  /** Adding `n >= 1` to a factor adds at least `k` to the product. */
  lemma MulStep(k: int, q: int, n: int)
    requires k > 0 && n >= 1
    ensures k * (q + n) >= k * q + k
  {
    assert k * (q + n) == k * q + k * n;
    assert k * n >= k * 1;
  }

  /** The month after (y, m0), as the grid builder and navigation compute it. */
  function NextMonth(y: int, m0: int): (r: (int, int))
    ensures 0 <= m0 <= 11 ==> 0 <= r.1 <= 11 && 12 * r.0 + r.1 == 12 * y + m0 + 1
  {
    if m0 == 11 then (y + 1, 0) else (y, m0 + 1)
  }

  /** The month before (y, m0). */
  function PrevMonth(y: int, m0: int): (r: (int, int))
    ensures 0 <= m0 <= 11 ==> 0 <= r.1 <= 11 && 12 * r.0 + r.1 == 12 * y + m0 - 1
  {
    if m0 == 0 then (y - 1, 11) else (y, m0 - 1)
  }

  /** The first of the next month comes exactly one month length after the first of this one. */
  lemma NextMonthStart(y: int, m0: int)
    requires 0 <= m0 <= 11
    ensures var (ny, nm) := NextMonth(y, m0);
      0 <= nm <= 11 && DayNumber(ny, nm, 1) == DayNumber(y, m0, 1) + MonthLength(y, m0)
  {
    MonthsAddUp(y, m0);
    if m0 == 11 {
      YearStep(y);
    }
  }

  /** ... and so the weekday advances by the month length, modulo 7. */
  lemma NextMonthWeekday(y: int, m0: int)
    requires 0 <= m0 <= 11
    ensures var (ny, nm) := NextMonth(y, m0);
      0 <= nm <= 11 && Weekday(ny, nm, 1) == (Weekday(y, m0, 1) + MonthLength(y, m0)) % 7
  {
    NextMonthStart(y, m0);
    Mod7Add(DayNumber(y, m0, 1), MonthLength(y, m0));
  }

  lemma Mod7Add(a: int, b: int)
    ensures (a + b) % 7 == (a % 7 + b) % 7
  {
    var q := a / 7;
    assert a == 7 * q + a % 7;
    assert a + b == 7 * q + (a % 7 + b);
  }

  /** Distinct real dates have distinct day numbers. */
  lemma DayNumberInjective(y1: int, m1: int, d1: int, y2: int, m2: int, d2: int)
    requires 0 <= m1 <= 11 && 1 <= d1 <= MonthLength(y1, m1)
    requires 0 <= m2 <= 11 && 1 <= d2 <= MonthLength(y2, m2)
    requires DayNumber(y1, m1, d1) == DayNumber(y2, m2, d2)
    ensures y1 == y2 && m1 == m2 && d1 == d2
  {
    if y1 < y2 {
      YearsApart(y1, y2);
    } else if y2 < y1 {
      YearsApart(y2, y1);
    }
  }

  /** Every day of an earlier year has a smaller number than every day of a later year. */
  lemma YearsApart(y1: int, y2: int)
    requires y1 < y2
    ensures DaysBeforeYear(y1) + DaysBeforeMonth(y1, 12) <= DaysBeforeYear(y2)
    decreases y2 - y1
  {
    YearStep(y1);
    if y1 + 1 < y2 {
      YearsApart(y1 + 1, y2);
      YearStep(y1 + 1);
    }
  }

  // ---- ISO keys ----

  /** `String(i).padStart(2, "0")` for an integer. */
  function PadInt2(i: int): string {
    PadStart(IntToString(i), 2, '0')
  }

  /** For a non-negative integer the padding is that of its decimal digits. */
  lemma PadInt2Nat(i: int)
    requires i >= 0
    ensures PadInt2(i) == Pad2(i)
  {
    assert IntToString(i) == NatToString(i);
  }

  /** `${y}-${mm}-${dd}` with the 1-based month and the day padded to two digits. */
  function IsoFromParts(y: int, m0: int, d: int): string {
    IntToString(y) + "-" + PadInt2(m0 + 1) + "-" + PadInt2(d)
  }

  /** The reference reading of a key: year before the sixth-last character, month and day as
      the last two-digit fields. */
  function ParseIso(s: string): (int, int, int)
    requires |s| >= 6
  {
    (ParseInt(s[..|s| - 6]), ParseBase(s[|s| - 5..|s| - 3], 10) as int - 1,
     ParseBase(s[|s| - 2..], 10) as int)
  }

  /** For a month 0..11 and a day 0..99 the key has the shape `<year>-MM-DD` and reads back as
      the date it was built from. */
  lemma ParseIsoFromParts(y: int, m0: int, d: int)
    requires 0 <= m0 <= 11 && 0 <= d <= 99
    ensures var s := IsoFromParts(y, m0, d);
      |s| == |IntToString(y)| + 6 && s[|s| - 6] == '-' && s[|s| - 3] == '-' &&
      ParseIso(s) == (y, m0, d)
  {
    var ys, ms, ds := IntToString(y), Pad2(m0 + 1), Pad2(d);
    PadInt2Nat(m0 + 1);
    PadInt2Nat(d);
    KeyFields(ys, '-', ms, ds);
    ParseIntToString(y);
    ParsePad2(m0 + 1);
    ParsePad2(d);
  }

  /** Where the fields of `<a>-<b>-<c>` sit when the last two fields have two characters. */
  lemma KeyFields<T>(a: seq<T>, sep: T, b: seq<T>, c: seq<T>)
    requires |b| == 2 && |c| == 2
    ensures var s := a + [sep] + b + [sep] + c;
      |s| == |a| + 6 && s[|s| - 6] == sep && s[|s| - 3] == sep &&
      s[..|s| - 6] == a && s[|s| - 5..|s| - 3] == b && s[|s| - 2..] == c
  {
  }

  /** Different dates never share a key. */
  lemma IsoInjective(y1: int, m1: int, d1: int, y2: int, m2: int, d2: int)
    requires 0 <= m1 <= 11 && 0 <= d1 <= 99 && 0 <= m2 <= 11 && 0 <= d2 <= 99
    requires IsoFromParts(y1, m1, d1) == IsoFromParts(y2, m2, d2)
    ensures y1 == y2 && m1 == m2 && d1 == d2
  {
    ParseIsoFromParts(y1, m1, d1);
    ParseIsoFromParts(y2, m2, d2);
  }

  /** Worked examples: February 2024 and 2023, 1 September 2025 (a Monday), one key. */
  lemma KnownDates()
    ensures MonthLength(2024, 1) == 29 && MonthLength(2023, 1) == 28
    ensures Weekday(2025, 8, 1) == 1
    ensures IsoFromParts(2025, 8, 13) == "2025-09-13"
  {
    assert DayNumber(2025, 8, 1) == 739495;
    Year2025Text();
    PadInt2Nat(9);
    Pad2Digits(9);
    PadInt2Nat(13);
    Pad2Digits(13);
  }

  /** The year 2025 is written `2025`. */
  lemma Year2025Text()
    ensures IntToString(2025) == "2025"
  {
    LastDigit(2025);
    LastDigit(202);
    LastDigit(20);
    assert NatToString(2) == [DigitChar(2)];
  }
}
