/**
 * The display helpers of the challenge screens (web/src/components/features/challenge/constants.ts):
 * the table of reminder times offered to a participant, and the short `M/D` and `M/D (曜) 〜 M/D (曜)`
 * texts of a challenge's days. The dates are calendar days as `getMonth`, `getDate` and `getDay` read them.
 */
module ChallengeConstants {
  import opened Digits
  import opened Calendar
  import Challenges

  // ---------------------------------------------------------------------
  // Reminder times.

  /** One entry of the reminder-time picker: the stored `value` and the shown `label` (here `caption`). */
  datatype TimeOption = TimeOption(value: string, caption: string)

  /** The entry of an hour: `HH:00` as value (zero-padded), `H:00` as caption (not padded). */
  function TimeOptionOf(hour: nat): TimeOption
  {
    TimeOption(Pad2(hour) + ":00", NatToString(hour) + ":00")
  }

  /** `NOTIFICATION_TIME_OPTIONS`: the 18 hours from 6 to 23, entry `i` holding hour `i + 6`. */
  const NotificationTimeOptions: seq<TimeOption> := seq(18, i requires 0 <= i => TimeOptionOf(i + 6))

  /** The value of an hour below 100 is its two digits and `:00`. */
  lemma TimeValueShape(hour: nat)
    requires hour < 100
    ensures var v := TimeOptionOf(hour).value;
      |v| == 5 && AllDigits(v[..2]) && ParseNat(v[..2]) == hour && v[2..] == ":00"
  {
    Pad2Shape(hour);
    var v := TimeOptionOf(hour).value;
    assert v == Pad2(hour) + ":00";
    assert v[..2] == Pad2(hour) && v[2..] == ":00";
  }

  /** The caption of an hour below 100 is its value without the leading zero of a one-digit hour. */
  lemma TimeCaptionShape(hour: nat)
    requires hour < 100
    ensures var o := TimeOptionOf(hour);
      o.caption == (if hour < 10 then o.value[1..] else o.value)
  {
    Pad2Chars(hour);
    var o := TimeOptionOf(hour);
    if hour < 10 {
      assert NatToString(hour) == [DigitChar(hour)];
      assert o.value[1..] == [DigitChar(hour)] + ":00";
    } else {
      NatToStringTwoDigits(hour);
    }
  }

  /**
   * Every entry's value is a two-digit hour from 6 to 23 followed by `:00`, the hour of entry `i` being
   * `i + 6`; the caption is the same text without the leading zero of the hours before 10.
   */
  lemma TimeOptionShape(i: nat)
    requires i < |NotificationTimeOptions|
    ensures |NotificationTimeOptions| == 18
    ensures var o := NotificationTimeOptions[i];
      |o.value| == 5 && AllDigits(o.value[..2]) && ParseNat(o.value[..2]) == i + 6 && o.value[2..] == ":00"
      && o.caption == (if i + 6 < 10 then o.value[1..] else o.value)
  {
    assert NotificationTimeOptions[i] == TimeOptionOf(i + 6);
    TimeValueShape(i + 6);
    TimeCaptionShape(i + 6);
  }

  /** The values stand in ascending order as texts, so the table lists the hours from earliest to latest. */
  lemma TimeOptionsAscending(i: nat, j: nat)
    requires i < j < |NotificationTimeOptions|
    ensures StrLess(NotificationTimeOptions[i].value, NotificationTimeOptions[j].value)
  {
    TimeOptionShape(i);
    TimeOptionShape(j);
    var a, b := NotificationTimeOptions[i].value, NotificationTimeOptions[j].value;
    assert a == a[..2] + a[2..] && b == b[..2] + b[2..];
    StrLessDigits(a[..2], b[..2]);
    StrLessConcat(a[..2], a[2..], b[..2], b[2..]);
  }

  /** The first and last entries, and the default reminder time of a new participation is on offer. */
  lemma TimeOptionExamples()
    ensures NotificationTimeOptions[0] == TimeOption("06:00", "6:00")
    ensures NotificationTimeOptions[17] == TimeOption("23:00", "23:00")
    ensures NotificationTimeOptions[14].value == Challenges.DefaultNotificationTime
  {
    assert NotificationTimeOptions[0] == TimeOptionOf(6);
    assert NotificationTimeOptions[17] == TimeOptionOf(23);
    assert NotificationTimeOptions[14] == TimeOptionOf(20);
    Pad2Chars(6);
    Pad2Chars(23);
    Pad2Chars(20);
    assert NatToString(6) == "6";
    NatToStringTwoDigits(23);
  }

  // ---------------------------------------------------------------------
  // Date texts.

  /** `formatShortDate`: `month/day`, the month counted from 1, neither part padded. */
  function FormatShortDate(d: Date): string
    requires ValidDate(d)
  {
    NatToString(d.month) + "/" + NatToString(d.day)
  }

  /** The weekday names by `getDay()`: 0 is Sunday (日), 1 Monday (月), up to 6 Saturday (土). */
  const WeekdayNames: seq<string> := ["日", "月", "火", "水", "木", "金", "土"]

  /** The inner `formatDate` of `formatDateRange`: `M/D (曜)`. */
  function DayWithWeekday(d: Date): string
    requires ValidDate(d)
  {
    FormatShortDate(d) + " (" + WeekdayNames[Weekday(d)] + ")"
  }

  /** `formatDateRange`: the two ends, each with its weekday, joined by ` 〜 `. */
  function FormatDateRange(startDate: Date, endDate: Date): string
    requires ValidDate(startDate) && ValidDate(endDate)
  {
    DayWithWeekday(startDate) + " 〜 " + DayWithWeekday(endDate)
  }

  /** No digit is a separator used by the texts above. */
  lemma DigitsAreNotSeparators(s: string)
    requires AllDigits(s)
    ensures '/' !in s && ' ' !in s && '〜' !in s
  {
  }

  /** The short text names the month and the day and nothing else: the year is not shown. */
  lemma ShortDateReadsBack(d: Date, e: Date)
    requires ValidDate(d) && ValidDate(e)
    ensures FormatShortDate(d) == FormatShortDate(e) <==> d.month == e.month && d.day == e.day
  {
    if FormatShortDate(d) == FormatShortDate(e) {
      DigitsAreNotSeparators(NatToString(d.month));
      DigitsAreNotSeparators(NatToString(e.month));
      SplitAt('/', NatToString(d.month), NatToString(d.day), NatToString(e.month), NatToString(e.day));
      NatToStringInjective(d.month, e.month);
      NatToStringInjective(d.day, e.day);
    }
  }

  /** The weekday-annotated text, split at its separators. */
  lemma DayWithWeekdayParts(d: Date)
    requires ValidDate(d)
    ensures DayWithWeekday(d) ==
      NatToString(d.month) + "/" + (NatToString(d.day) + " " + ("(" + WeekdayNames[Weekday(d)] + ")"))
  {
  }

  /** Each weekday name is one character, and no two are the same. */
  lemma WeekdayNamesDistinct(i: int, j: int)
    requires 0 <= i < 7 && 0 <= j < 7
    ensures |WeekdayNames[i]| == 1
    ensures WeekdayNames[i] == WeekdayNames[j] <==> i == j
  {
  }

  /** The weekday-annotated text names the month, the day and the weekday. */
  lemma DayWithWeekdayReadsBack(d: Date, e: Date)
    requires ValidDate(d) && ValidDate(e)
    ensures DayWithWeekday(d) == DayWithWeekday(e) <==>
      d.month == e.month && d.day == e.day && Weekday(d) == Weekday(e)
  {
    if DayWithWeekday(d) == DayWithWeekday(e) {
      var n, n' := WeekdayNames[Weekday(d)], WeekdayNames[Weekday(e)];
      var m, m' := NatToString(d.month), NatToString(e.month);
      var x, x' := NatToString(d.day), NatToString(e.day);
      DayWithWeekdayParts(d);
      DayWithWeekdayParts(e);
      DigitsAreNotSeparators(m);
      DigitsAreNotSeparators(m');
      DigitsAreNotSeparators(x);
      DigitsAreNotSeparators(x');
      SplitAt('/', m, x + " " + ("(" + n + ")"), m', x' + " " + ("(" + n' + ")"));
      SplitAt(' ', x, "(" + n + ")", x', "(" + n' + ")");
      assert n == ("(" + n + ")")[1..|n| + 1];
      WeekdayNamesDistinct(Weekday(d), Weekday(e));
      NatToStringInjective(d.month, e.month);
      NatToStringInjective(d.day, e.day);
    }
  }

  /** The range text, split around its wave dash. */
  lemma DateRangeParts(s: Date, e: Date)
    requires ValidDate(s) && ValidDate(e)
    ensures FormatDateRange(s, e) == (DayWithWeekday(s) + " ") + "〜" + (" " + DayWithWeekday(e))
  {
  }

  /** No wave dash comes before the one between the two ends. */
  lemma NoWaveDash(d: Date)
    requires ValidDate(d)
    ensures '〜' !in DayWithWeekday(d) + " "
  {
    var n := WeekdayNames[Weekday(d)];
    DayWithWeekdayParts(d);
    DigitsAreNotSeparators(NatToString(d.month));
    DigitsAreNotSeparators(NatToString(d.day));
    assert '〜' !in n;
  }

  /** The range text names both ends' month, day and weekday, and two ranges read the same only then. */
  lemma DateRangeReadsBack(s: Date, e: Date, s': Date, e': Date)
    requires ValidDate(s) && ValidDate(e) && ValidDate(s') && ValidDate(e')
    ensures FormatDateRange(s, e) == FormatDateRange(s', e') <==>
      DayWithWeekday(s) == DayWithWeekday(s') && DayWithWeekday(e) == DayWithWeekday(e')
  {
    if FormatDateRange(s, e) == FormatDateRange(s', e') {
      var a, b, a', b' := DayWithWeekday(s), DayWithWeekday(e), DayWithWeekday(s'), DayWithWeekday(e');
      DateRangeParts(s, e);
      DateRangeParts(s', e');
      NoWaveDash(s);
      NoWaveDash(s');
      SplitAt('〜', a + " ", " " + b, a' + " ", " " + b');
      assert a == (a + " ")[..|a|] == (a' + " ")[..|a'|] == a';
      assert b == (" " + b)[1..] == (" " + b')[1..] == b';
    }
  }

  /** The short texts of two days, neither padded. */
  lemma ShortDateExamples()
    ensures FormatShortDate(Date(2026, 1, 5)) == "1/5"
    ensures FormatShortDate(Date(2026, 12, 25)) == "12/25"
  {
    assert NatToString(1) == "1" && NatToString(5) == "5";
    NatToStringTwoDigits(12);
    NatToStringTwoDigits(25);
  }

  /** 2026-01-05 was a Monday and 2026-01-11 a Sunday. */
  lemma WeekdayExamples()
    ensures ValidDate(Date(2026, 1, 5)) && Weekday(Date(2026, 1, 5)) == 1
    ensures ValidDate(Date(2026, 1, 11)) && Weekday(Date(2026, 1, 11)) == 0
  {
    assert DayNumber(Date(2026, 1, 5)) == 20458;
    assert DayNumber(Date(2026, 1, 11)) == 20464;
  }

  /** The range text of the week that runs from Monday 2026-01-05 to Sunday 2026-01-11. */
  lemma DateRangeExample()
    ensures FormatDateRange(Date(2026, 1, 5), Date(2026, 1, 11)) == "1/5 (月) 〜 1/11 (日)"
  {
    WeekdayExamples();
    ShortDateExamples();
    NatToStringTwoDigits(11);
    assert FormatShortDate(Date(2026, 1, 11)) == "1/11";
    assert DayWithWeekday(Date(2026, 1, 5)) == "1/5 (月)";
    assert DayWithWeekday(Date(2026, 1, 11)) == "1/11 (日)";
  }
}
