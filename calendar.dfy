/**
 * Calendar days as the JavaScript code handles them through `Date`:
 * proleptic Gregorian (year, month, day) triples, stepping one day at a
 * time (`setDate(getDate() + k)`), the day count since 1970-01-01 that
 * `getTime()` differences and `getDay()` are built on, and the
 * `YYYY-MM-DD` texts written by the local `formatDate` helpers and by
 * `toISOString().split('T')[0]` and read back by the local `parseDate`.
 */
module Calendar {
  import opened Wrappers
  import opened Digits

  datatype Date = Date(year: int, month: int, day: int)

  const Epoch := Date(1970, 1, 1)

  predicate IsLeapYear(y: int)
  {
    y % 4 == 0 && (y % 100 != 0 || y % 400 == 0)
  }

  function DaysInMonth(y: int, m: int): (n: int)
    requires 1 <= m <= 12
    ensures 28 <= n <= 31
  {
    if m == 2 then (if IsLeapYear(y) then 29 else 28)
    else if m == 4 || m == 6 || m == 9 || m == 11 then 30
    else 31
  }

  predicate ValidDate(d: Date)
  {
    1 <= d.month <= 12 && 1 <= d.day <= DaysInMonth(d.year, d.month)
  }

  /** Chronological order of calendar days. */
  predicate Before(d: Date, e: Date)
  {
    d.year < e.year
    || (d.year == e.year && (d.month < e.month || (d.month == e.month && d.day < e.day)))
  }

  function NextDay(d: Date): (e: Date)
    requires ValidDate(d)
    ensures ValidDate(e) && Before(d, e)
  {
    if d.day < DaysInMonth(d.year, d.month) then Date(d.year, d.month, d.day + 1)
    else if d.month < 12 then Date(d.year, d.month + 1, 1)
    else Date(d.year + 1, 1, 1)
  }

  function PrevDay(d: Date): (e: Date)
    requires ValidDate(d)
    ensures ValidDate(e) && Before(e, d)
  {
    if d.day > 1 then Date(d.year, d.month, d.day - 1)
    else if d.month > 1 then Date(d.year, d.month - 1, DaysInMonth(d.year, d.month - 1))
    else Date(d.year - 1, 12, 31)
  }

  lemma NextPrevInverse(d: Date)
    requires ValidDate(d)
    ensures PrevDay(NextDay(d)) == d && NextDay(PrevDay(d)) == d
  {
  }

  /** The next day is the immediate successor: no valid day lies strictly between. */
  lemma NextDayImmediate(d: Date, e: Date)
    requires ValidDate(d) && ValidDate(e) && Before(d, e)
    ensures e == NextDay(d) || Before(NextDay(d), e)
  {
  }

  lemma BeforeTrichotomy(d: Date, e: Date)
    ensures Before(d, e) || d == e || Before(e, d)
  {
  }

  // ---------------------------------------------------------------------
  // Day numbers: days since 1970-01-01 (negative before it).

  function DaysBeforeMonth(y: int, m: int): int
    requires 1 <= m <= 12
  {
    [0, 31, 59, 90, 120, 151, 181, 212, 243, 273, 304, 334][m - 1]
    + (if m > 2 && IsLeapYear(y) then 1 else 0)
  }

  /** Leap years among the years 1 .. y-1 (proleptic, counted with floor division). */
  function LeapYearsBefore(y: int): int
  {
    (y - 1) / 4 - (y - 1) / 100 + (y - 1) / 400
  }

  function DaysBeforeYear(y: int): int
  {
    365 * (y - 1970) + LeapYearsBefore(y) - LeapYearsBefore(1970)
  }

  function DayNumber(d: Date): int
    requires ValidDate(d)
  {
    DaysBeforeYear(d.year) + DaysBeforeMonth(d.year, d.month) + d.day - 1
  }

  /** `getDay()`: 0 is Sunday; 1970-01-01 was a Thursday. */
  function Weekday(d: Date): (w: int)
    requires ValidDate(d)
    ensures 0 <= w < 7
  {
    (DayNumber(d) + 4) % 7
  }

  lemma DivStep4(y: int)
    ensures y / 4 - (y - 1) / 4 == if y % 4 == 0 then 1 else 0
  {
  }

  lemma DivStep100(y: int)
    ensures y / 100 - (y - 1) / 100 == if y % 100 == 0 then 1 else 0
  {
  }

  lemma DivStep400(y: int)
    ensures y / 400 - (y - 1) / 400 == if y % 400 == 0 then 1 else 0
  {
  }

  lemma MultipleOf400(y: int)
    requires y % 400 == 0
    ensures y % 100 == 0
  {
    var q := y / 400;
    assert y == 100 * (4 * q);
  }

  lemma MultipleOf100(y: int)
    requires y % 100 == 0
    ensures y % 4 == 0
  {
    var q := y / 100;
    assert y == 4 * (25 * q);
  }

  lemma LeapYearsStep(y: int)
    ensures LeapYearsBefore(y + 1) == LeapYearsBefore(y) + (if IsLeapYear(y) then 1 else 0)
  {
    DivStep4(y);
    DivStep100(y);
    DivStep400(y);
    if y % 400 == 0 {
      MultipleOf400(y);
      MultipleOf100(y);
    } else if y % 100 == 0 {
      MultipleOf100(y);
    }
  }

  lemma DaysBeforeYearStep(y: int)
    ensures DaysBeforeYear(y + 1) == DaysBeforeYear(y) + 365 + (if IsLeapYear(y) then 1 else 0)
  {
    LeapYearsStep(y);
  }

  lemma {:induction false} DaysBeforeYearIncreasing(y: int, y': int)
    requires y < y'
    ensures DaysBeforeYear(y) + 365 <= DaysBeforeYear(y')
    decreases y' - y
  {
    DaysBeforeYearStep(y);
    if y + 1 < y' {
      DaysBeforeYearIncreasing(y + 1, y');
    }
  }

  lemma DaysBeforeMonthStep(y: int, m: int)
    requires 1 <= m < 12
    ensures DaysBeforeMonth(y, m + 1) == DaysBeforeMonth(y, m) + DaysInMonth(y, m)
  {
  }

  lemma {:induction false} DaysBeforeMonthIncreasing(y: int, m: int, m': int)
    requires 1 <= m < m' <= 12
    ensures DaysBeforeMonth(y, m) + DaysInMonth(y, m) <= DaysBeforeMonth(y, m')
    decreases m' - m
  {
    DaysBeforeMonthStep(y, m);
    if m + 1 < m' {
      DaysBeforeMonthIncreasing(y, m + 1, m');
    }
  }

  /** Every day of year y has a day number below the first day of year y + 1. */
  lemma DayNumberWithinYear(d: Date)
    requires ValidDate(d)
    ensures DaysBeforeYear(d.year) <= DayNumber(d) < DaysBeforeYear(d.year + 1)
  {
    DaysBeforeYearStep(d.year);
    if d.month < 12 {
      DaysBeforeMonthIncreasing(d.year, d.month, 12);
    }
  }

  lemma DayNumberNext(d: Date)
    requires ValidDate(d)
    ensures DayNumber(NextDay(d)) == DayNumber(d) + 1
  {
    if d.day == DaysInMonth(d.year, d.month) {
      if d.month < 12 {
        DaysBeforeMonthStep(d.year, d.month);
      } else {
        DaysBeforeYearStep(d.year);
      }
    }
  }

  lemma DayNumberPrev(d: Date)
    requires ValidDate(d)
    ensures DayNumber(PrevDay(d)) == DayNumber(d) - 1
  {
    NextPrevInverse(d);
    DayNumberNext(PrevDay(d));
  }

  /** Day numbers follow the calendar order. */
  lemma DayNumberMonotone(d: Date, e: Date)
    requires ValidDate(d) && ValidDate(e) && Before(d, e)
    ensures DayNumber(d) < DayNumber(e)
  {
    if d.year < e.year {
      DayNumberWithinYear(d);
      DayNumberWithinYear(e);
      if d.year + 1 < e.year {
        DaysBeforeYearIncreasing(d.year + 1, e.year);
      }
    } else if d.month < e.month {
      DaysBeforeMonthIncreasing(d.year, d.month, e.month);
    }
  }

  /** Day numbers identify days and order them as the calendar does. */
  lemma DayNumberOrder(d: Date, e: Date)
    requires ValidDate(d) && ValidDate(e)
    ensures Before(d, e) <==> DayNumber(d) < DayNumber(e)
    ensures d == e <==> DayNumber(d) == DayNumber(e)
  {
    BeforeTrichotomy(d, e);
    if Before(d, e) {
      DayNumberMonotone(d, e);
    } else if Before(e, d) {
      DayNumberMonotone(e, d);
    }
  }

  /** `setDate(getDate() + k)`: step k days forward (or back when k < 0). */
  function AddDays(d: Date, k: int): (e: Date)
    requires ValidDate(d)
    ensures ValidDate(e) && DayNumber(e) == DayNumber(d) + k
    decreases if k < 0 then -k else k
  {
    if k == 0 then d
    else if k > 0 then DayNumberNext(d); AddDays(NextDay(d), k - 1)
    else DayNumberPrev(d); AddDays(PrevDay(d), k + 1)
  }

  /** The day i days before d, reached one `addDays(date, -1)` at a time. */
  function DaysBack(d: Date, i: nat): (e: Date)
    requires ValidDate(d)
    ensures ValidDate(e)
    decreases i
  {
    if i == 0 then d else PrevDay(DaysBack(d, i - 1))
  }

  lemma {:induction false} DaysBackDayNumber(d: Date, i: nat)
    requires ValidDate(d)
    ensures DayNumber(DaysBack(d, i)) == DayNumber(d) - i
    decreases i
  {
    if i == 0 {
      assert DaysBack(d, i) == d;
    } else {
      DaysBackDayNumber(d, i - 1);
      DaysBackStep(d, i);
    }
  }

  lemma DaysBackStep(d: Date, i: nat)
    requires ValidDate(d) && i > 0
    ensures DayNumber(DaysBack(d, i)) == DayNumber(DaysBack(d, i - 1)) - 1
  {
    DayNumberPrev(DaysBack(d, i - 1));
  }

  /** Stepping back one day at a time agrees with `AddDays`. */
  lemma DaysBackIsAddDays(d: Date, i: nat)
    requires ValidDate(d)
    ensures DaysBack(d, i) == AddDays(d, -(i as int))
  {
    DaysBackDayNumber(d, i);
    DayNumberOrder(DaysBack(d, i), AddDays(d, -(i as int)));
  }

  /** The calendar day with the given day number. */
  function DateOfDayNumber(n: int): (d: Date)
    ensures ValidDate(d) && DayNumber(d) == n
  {
    AddDays(Epoch, n)
  }

  /** `k` days back from the day before `d` is `k + 1` days back from `d`. */
  lemma AddDaysFromPrev(d: Date, k: nat)
    requires ValidDate(d) && k > 0
    ensures AddDays(PrevDay(d), -((k - 1) as int)) == AddDays(d, -(k as int))
  {
    DayNumberPrev(d);
    DayNumberOrder(AddDays(PrevDay(d), -((k - 1) as int)), AddDays(d, -(k as int)));
  }

  lemma AddDaysCompose(d: Date, a: int, b: int)
    requires ValidDate(d)
    ensures AddDays(AddDays(d, a), b) == AddDays(d, a + b)
  {
    DayNumberOrder(AddDays(AddDays(d, a), b), AddDays(d, a + b));
  }

  // ---------------------------------------------------------------------
  // Text forms.

  /** The regular expression `^\d{4}-\d{2}-\d{2}$`. */
  predicate IsDateShape(s: string)
  {
    |s| == 10 && AllDigits(s[0..4]) && s[4] == '-' && AllDigits(s[5..7])
    && s[7] == '-' && AllDigits(s[8..10])
  }

  /** `${year}-${pad2(month)}-${pad2(day)}`: the local `formatDate` helpers. */
  function FormatDate(d: Date): string
    requires ValidDate(d)
  {
    IntToString(d.year) + "-" + Pad2(d.month) + "-" + Pad2(d.day)
  }

  /** `toISOString().split('T')[0]` of a day read in UTC. */
  function IsoDateString(d: Date): string
    requires ValidDate(d)
  {
    var yearText :=
      if 0 <= d.year <= 9999 then PadStart(NatToString(d.year), 4, '0')
      else if d.year < 0 then "-" + PadStart(NatToString(-d.year), 6, '0')
      else "+" + PadStart(NatToString(d.year), 6, '0');
    yearText + "-" + Pad2(d.month) + "-" + Pad2(d.day)
  }

  lemma ParseNatFour(s: string)
    requires |s| == 4 && AllDigits(s)
    ensures ParseNat(s) == DigitValue(s[0]) * 1000 + DigitValue(s[1]) * 100
                           + DigitValue(s[2]) * 10 + DigitValue(s[3])
  {
    assert s[..3][..2] == s[..2];
    assert s[..2][..1] == s[..1];
    assert s[..1][..0] == [];
    assert ParseNat(s[..1]) == DigitValue(s[0]);
    assert ParseNat(s[..2]) == DigitValue(s[0]) * 10 + DigitValue(s[1]);
    assert ParseNat(s[..3]) == DigitValue(s[0]) * 100 + DigitValue(s[1]) * 10 + DigitValue(s[2]);
  }

  /**
   * The local `parseDate` helper: the text must match the pattern and name
   * a real calendar day of a four-digit year from 1000 on.
   */
  function ParseDate(s: string): (r: Option<Date>)
    ensures r.Some? ==> ValidDate(r.value) && 1000 <= r.value.year <= 9999
  {
    if !IsDateShape(s) then None
    else
      var y, m, d := ParseNat(s[0..4]), ParseNat(s[5..7]), ParseNat(s[8..10]);
      if 1000 <= y && 1 <= m <= 12 && 1 <= d <= DaysInMonth(y, m)
      then ParseNatFour(s[0..4]); Some(Date(y, m, d))
      else None
  }

  lemma NatToStringFourDigits(n: nat)
    requires 1000 <= n <= 9999
    ensures |NatToString(n)| == 4
  {
    var a := n / 10;
    assert 100 <= a <= 999 && a / 10 == n / 100;
    assert |NatToString(a / 10)| == 2 by {
      NatToStringTwoDigits(a / 10);
    }
    assert |NatToString(a)| == 3 by {
      assert NatToString(a) == NatToString(a / 10) + [DigitChar(a % 10)];
    }
    assert NatToString(n) == NatToString(a) + [DigitChar(n % 10)];
  }

  lemma DashedParts(y: string, m: string, d: string)
    requires |y| == 4 && |m| == 2 && |d| == 2
    ensures var s := y + "-" + m + "-" + d;
      |s| == 10 && s[0..4] == y && s[4] == '-' && s[5..7] == m && s[7] == '-' && s[8..10] == d
  {
  }

  lemma FormatDateParts(d: Date)
    requires ValidDate(d) && 1000 <= d.year <= 9999
    ensures var s := FormatDate(d);
      |s| == 10 && s[0..4] == NatToString(d.year) && s[4] == '-' && s[5..7] == Pad2(d.month)
      && s[7] == '-' && s[8..10] == Pad2(d.day)
  {
    var y, m, dd := NatToString(d.year), Pad2(d.month), Pad2(d.day);
    assert |y| == 4 by { NatToStringFourDigits(d.year); }
    assert |m| == 2 by { Pad2Shape(d.month); }
    assert |dd| == 2 by { Pad2Shape(d.day); }
    DashedParts(y, m, dd);
  }

  /** Every day of a four-digit year from 1000 on reads back from its text. */
  lemma ParseFormatDate(d: Date)
    requires ValidDate(d) && 1000 <= d.year <= 9999
    ensures ParseDate(FormatDate(d)) == Some(d)
  {
    var s := FormatDate(d);
    FormatDateParts(d);
    Pad2Shape(d.month);
    Pad2Shape(d.day);
    ParseNatToString(d.year);
  }

  /** Whatever `ParseDate` accepts is exactly the text `FormatDate` writes. */
  lemma FormatParseDate(s: string, d: Date)
    requires ParseDate(s) == Some(d)
    ensures FormatDate(d) == s
  {
    var y := s[0..4];
    ParseNatFour(y);
    assert y[0] != '0';
    NatToStringParseNat(y);
    Pad2ParseNat(s[5..7]);
    Pad2ParseNat(s[8..10]);
    FormatDateParts(d);
    DashedEqual(FormatDate(d), s);
  }

  /** Two ten-character texts that agree on the year, month and day fields and on both dashes are equal. */
  lemma DashedEqual(t: string, s: string)
    requires |t| == 10 && |s| == 10
    requires t[0..4] == s[0..4] && t[4] == s[4] && t[5..7] == s[5..7] && t[7] == s[7] && t[8..10] == s[8..10]
    ensures t == s
  {
    forall i | 0 <= i < 10
      ensures t[i] == s[i]
    {
      if i < 4 {
        assert t[0..4][i] == s[0..4][i];
      } else if 5 <= i < 7 {
        assert t[5..7][i - 5] == s[5..7][i - 5];
      } else if 8 <= i {
        assert t[8..10][i - 8] == s[8..10][i - 8];
      }
    }
  }

  /** Texts joined by two dashes, with two-character tails, split back uniquely. */
  lemma DashedSplit(y1: string, m1: string, d1: string, y2: string, m2: string, d2: string)
    requires |m1| == |m2| == |d1| == |d2| == 2
    requires y1 + "-" + m1 + "-" + d1 == y2 + "-" + m2 + "-" + d2
    ensures y1 == y2 && m1 == m2 && d1 == d2
  {
    var s := y1 + "-" + m1 + "-" + d1;
    var n := |s|;
    assert |y1| == |y2| == n - 6;
    assert s[..n - 6] == y1 && s[..n - 6] == y2;
    assert s[n - 5..n - 3] == m1 && s[n - 5..n - 3] == m2;
    assert s[n - 2..] == d1 && s[n - 2..] == d2;
  }

  lemma Pad2Injective(a: nat, b: nat)
    requires a < 100 && b < 100 && Pad2(a) == Pad2(b)
    ensures a == b
  {
    Pad2Shape(a);
    Pad2Shape(b);
  }

  /** Distinct days have distinct texts, whatever the year. */
  lemma FormatDateInjective(d: Date, e: Date)
    requires ValidDate(d) && ValidDate(e) && FormatDate(d) == FormatDate(e)
    ensures d == e
  {
    Pad2Shape(d.month);
    Pad2Shape(d.day);
    Pad2Shape(e.month);
    Pad2Shape(e.day);
    DashedSplit(IntToString(d.year), Pad2(d.month), Pad2(d.day), IntToString(e.year), Pad2(e.month), Pad2(e.day));
    IntToStringInjective(d.year, e.year);
    Pad2Injective(d.month, e.month);
    Pad2Injective(d.day, e.day);
  }

  /** A shared separator in front does not change the order. */
  lemma DashFirstOrder(q: string, q': string)
    ensures StrLess("-" + q, "-" + q') <==> StrLess(q, q')
  {
    StrLessConcat("-", q, "-", q');
    StrLessIrreflexive("-");
  }

  /** Dashed texts with parts of equal lengths compare part by part. */
  lemma DashedOrder(a1: string, a2: string, a3: string, b1: string, b2: string, b3: string)
    requires |a1| == |b1| && |a2| == |b2|
    ensures StrLess(a1 + "-" + a2 + "-" + a3, b1 + "-" + b2 + "-" + b3) <==>
      StrLess(a1, b1) || (a1 == b1 && (StrLess(a2, b2) || (a2 == b2 && StrLess(a3, b3))))
  {
    var ta, tb := "-" + a3, "-" + b3;
    var ra, rb := "-" + (a2 + ta), "-" + (b2 + tb);
    assert a1 + "-" + a2 + "-" + a3 == a1 + ra;
    assert b1 + "-" + b2 + "-" + b3 == b1 + rb;
    StrLessConcat(a1, ra, b1, rb);
    DashFirstOrder(a2 + ta, b2 + tb);
    StrLessConcat(a2, ta, b2, tb);
    DashFirstOrder(a3, b3);
  }

  /** Pattern-shaped texts compare as strings exactly as (year, month, day) compare. */
  lemma ShapedTextOrder(s: string, t: string)
    requires IsDateShape(s) && IsDateShape(t)
    ensures StrLess(s, t) <==>
      ParseNat(s[0..4]) < ParseNat(t[0..4])
      || (ParseNat(s[0..4]) == ParseNat(t[0..4])
          && (ParseNat(s[5..7]) < ParseNat(t[5..7])
              || (ParseNat(s[5..7]) == ParseNat(t[5..7]) && ParseNat(s[8..10]) < ParseNat(t[8..10]))))
  {
    assert s == s[0..4] + "-" + s[5..7] + "-" + s[8..10];
    assert t == t[0..4] + "-" + t[5..7] + "-" + t[8..10];
    DashedOrder(s[0..4], s[5..7], s[8..10], t[0..4], t[5..7], t[8..10]);
    StrLessDigits(s[0..4], t[0..4]);
    StrLessDigits(s[5..7], t[5..7]);
    StrLessDigits(s[8..10], t[8..10]);
  }

  /** The texts of two parsed days compare as strings exactly as the days compare in time. */
  lemma DateTextOrder(s: string, t: string, d: Date, e: Date)
    requires ParseDate(s) == Some(d) && ParseDate(t) == Some(e)
    ensures StrLess(s, t) <==> Before(d, e)
  {
    ShapedTextOrder(s, t);
  }

  /** For four-digit years the ISO text and the local text coincide. */
  lemma IsoDateStringIsFormatDate(d: Date)
    requires ValidDate(d) && 1000 <= d.year <= 9999
    ensures IsoDateString(d) == FormatDate(d)
  {
    NatToStringFourDigits(d.year);
  }
}
