/**
 * Calendar arithmetic of a challenge: the list of its day texts, and the whole days left until its end
 * or its start, with the clock reading passed in as `now`.
 */
module ChallengeUtils {
  import opened Wrappers
  import opened Calendar
  import opened ChallengeRules

  const MsPerDay: int := 1000 * 60 * 60 * 24

  /** The UTC calendar day an instant falls on. */
  function DayOfInstant(t: int): (d: Date)
    ensures ValidDate(d) && DayNumber(d) == t / MsPerDay
  {
    DateOfDayNumber(t / MsPerDay)
  }


  /** `[f(0), ..., f(n - 1)]`, built by appending. */
  function Tabulate<T>(f: nat -> T, n: nat): (r: seq<T>)
    ensures |r| == n
  {
    if n == 0 then [] else Tabulate(f, n - 1) + [f(n - 1)]
  }

  lemma {:induction false} TabulateAt<T>(f: nat -> T, n: nat, i: nat)
    requires i < n
    ensures Tabulate(f, n)[i] == f(i)
  {
    if i < n - 1 {
      TabulateAt(f, n - 1, i);
    }
  }

  /** The text of each day from `start` on. */
  function DayText(start: Date): nat -> string
    requires ValidDate(start)
  {
    (i: nat) => IsoDateString(AddDays(start, i))
  }

  /** The texts of the `n` days from `start` on, in order. */
  function DayTexts(start: Date, n: nat): (days: seq<string>)
    requires ValidDate(start)
    ensures |days| == n
  {
    Tabulate(DayText(start), n)
  }

  /** Entry `i` of the list is the text of the day `i` days after `start`. */
  lemma DayTextsAt(start: Date, n: nat, i: nat)
    requires ValidDate(start) && i < n
    ensures DayTexts(start, n)[i] == IsoDateString(AddDays(start, i))
  {
    TabulateAt(DayText(start), n, i);
  }

  /** Collects `Duration(c.kind)` day texts starting at the challenge's start day; the end date is not read. */
  method GetChallengeDays(c: Challenge) returns (days: seq<string>)
    ensures days == DayTexts(DayOfInstant(c.startDate), Duration(c.kind))
  {
    days := [];
    var totalDays := Duration(c.kind);
    var startDate := DayOfInstant(c.startDate);
    var i := 0;
    while i < totalDays
      invariant 0 <= i <= totalDays
      invariant days == Tabulate(DayText(startDate), i)
    {
      var date := AddDays(startDate, i);
      days := days + [IsoDateString(date)];
      i := i + 1;
    }
  }

  /**
   * Each entry of a four-digit year is `YYYY-MM-DD` text that reads back as the day `i` days after
   * the start; the first entry is the start day itself.
   */
  lemma DayTextsParse(s: Date, n: nat, i: nat)
    requires ValidDate(s) && i < n && 1000 <= AddDays(s, i).year <= 9999
    ensures ParseDate(DayTexts(s, n)[i]) == Some(AddDays(s, i))
    ensures i == 0 ==> ParseDate(DayTexts(s, n)[i]) == Some(s)
  {
    DayTextsAt(s, n, i);
    DayTextParses(AddDays(s, i));
  }

  /** A day of a four-digit year reads back from its ISO text. */
  lemma DayTextParses(e: Date)
    requires ValidDate(e) && 1000 <= e.year <= 9999
    ensures ParseDate(IsoDateString(e)) == Some(e)
  {
    IsoDateStringIsFormatDate(e);
    ParseFormatDate(e);
  }

  /** Neighbouring entries are neighbouring days: one more day forward is the next calendar day. */
  lemma AddDaysNext(s: Date, i: nat)
    requires ValidDate(s)
    ensures AddDays(s, i + 1) == NextDay(AddDays(s, i))
  {
    var p := AddDays(s, i);
    DayNumberNext(p);
    DayNumberOrder(AddDays(s, i + 1), NextDay(p));
  }

  /** Whole days, rounded up, from `now` to the challenge end; never negative. */
  function GetRemainingDays(c: Challenge, now: int): (r: int)
  {
    var diffDays := CeilDiv(c.endDate - now, MsPerDay);
    if 0 > diffDays then 0 else diffDays
  }

  /** Whole days, rounded up, from `now` to the challenge start; never negative. */
  function GetDaysUntilStart(c: Challenge, now: int): (r: int)
  {
    var diffDays := CeilDiv(c.startDate - now, MsPerDay);
    if 0 > diffDays then 0 else diffDays
  }

  /**
   * The remaining days are the fewest whole days covering the time left: 0 exactly when the end
   * is not after `now`, and otherwise r with (r - 1) days < end - now <= r days.
   */
  lemma RemainingDaysSpec(c: Challenge, now: int)
    ensures GetRemainingDays(c, now) >= 0
    ensures GetRemainingDays(c, now) == 0 <==> c.endDate <= now
    ensures c.endDate > now ==> var r := GetRemainingDays(c, now);
      (r - 1) * MsPerDay < c.endDate - now <= r * MsPerDay
  {
  }

  /** The same clamp for the start: 0 exactly once the start has come. */
  lemma DaysUntilStartSpec(c: Challenge, now: int)
    ensures GetDaysUntilStart(c, now) >= 0
    ensures GetDaysUntilStart(c, now) == 0 <==> c.startDate <= now
    ensures c.startDate > now ==> var r := GetDaysUntilStart(c, now);
      (r - 1) * MsPerDay < c.startDate - now <= r * MsPerDay
  {
  }

  /** An end exactly 5 days ahead leaves 5 days; an end in the past leaves 0. */
  lemma RemainingDaysExamples(c: Challenge, now: int)
    ensures c.endDate == now + 5 * MsPerDay ==> GetRemainingDays(c, now) == 5
    ensures c.endDate == now - MsPerDay ==> GetRemainingDays(c, now) == 0
    ensures c.startDate == now + 3 * MsPerDay - 1 ==> GetDaysUntilStart(c, now) == 3
  {
  }
}
