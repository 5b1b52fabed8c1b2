/**
 * The weekly schedule written by the seeding script (web/scripts/seed-challenges.ts): from the Monday
 * after the run, 52 one-week challenges back to back, each with the status its window has at the time of
 * the run. A JavaScript `Date` is an instant in milliseconds since 1970-01-01T00:00Z, read here in UTC;
 * the clock reading is the parameter `now`.
 */
module SeedChallenges {
  import opened Calendar
  import opened ChallengeRules
  import opened ChallengeUtils

  /** The stored fields of one seeded challenge (`ChallengeData`); instants are milliseconds. */
  datatype ChallengeData = ChallengeData(
    kind: ChallengeType, startDate: int, endDate: int, status: ChallengeStatus,
    participantCount: int, createdAt: int)

  /** Number of weeks the script seeds. */
  const SeedWeeks: nat := 52

  /** `getDay()`: the weekday of an instant, 0 for Sunday; 1970-01-01 was a Thursday. */
  function GetDay(t: int): (day: int)
    ensures 0 <= day < 7
  {
    (t / MsPerDay + 4) % 7
  }

  /** The weekday of an instant is the weekday of the calendar day it falls on. */
  lemma GetDayIsWeekday(t: int)
    ensures GetDay(t) == Weekday(DayOfInstant(t))
  {
  }

  /** `addDays`: the same time of day, `days` days later. */
  function AddDays(t: int, days: int): (r: int)
    ensures r / MsPerDay == t / MsPerDay + days && r % MsPerDay == t % MsPerDay
  {
    t + days * MsPerDay
  }

  /**
   * `getNextMonday`: one day on from a Sunday, `8 - getDay()` days on from any other day, and then the
   * start of that day (`setHours(0, 0, 0, 0)`).
   */
  function GetNextMonday(from: int): int
  {
    var day := GetDay(from);
    var diff := if day == 0 then 1 else 8 - day;
    (from / MsPerDay + diff) * MsPerDay
  }

  /** Days from the day of `from` to the day of `m`. */
  function DaysBetween(from: int, m: int): int
  {
    m / MsPerDay - from / MsPerDay
  }

  /** Counting weekdays round the week: `k` days after day `n`. */
  lemma WeekdayShift(n: int, k: int)
    ensures (n + k + 4) % 7 == ((n + 4) % 7 + k) % 7
  {
  }

  /** The step `getNextMonday` takes from weekday `w` lands on the first Monday after it. */
  lemma MondayStep(w: int, k: int)
    requires 0 <= w < 7
    ensures var diff := if w == 0 then 1 else 8 - w;
      1 <= diff <= 7 && (w + diff) % 7 == 1 && (1 <= k < diff ==> (w + k) % 7 != 1)
  {
  }

  /**
   * The instant found is the start of a Monday one to seven days after the day of `from`, and the first
   * such Monday: from a Monday it is the following Monday, never the same day.
   */
  lemma NextMondayIsFirstMondayAfter(from: int)
    ensures var m := GetNextMonday(from);
      GetDay(m) == 1 && m % MsPerDay == 0 && from < m
      && 1 <= DaysBetween(from, m) <= 7
      && (GetDay(from) == 1 ==> DaysBetween(from, m) == 7)
      && forall k :: 1 <= k < DaysBetween(from, m) ==> GetDay(AddDays(from, k)) != 1
  {
    var w := GetDay(from);
    var n := from / MsPerDay;
    var diff := if w == 0 then 1 else 8 - w;
    MondayStep(w, 0);
    DayStartOf(n + diff);
    WeekdayShift(n, diff);
    forall k | 1 <= k < diff
      ensures GetDay(AddDays(from, k)) != 1
    {
      MondayStep(w, k);
      WeekdayShift(n, k);
    }
  }

  /** The start of day `n` lies on day `n`, at no time past midnight. */
  lemma DayStartOf(n: int)
    ensures (n * MsPerDay) / MsPerDay == n && (n * MsPerDay) % MsPerDay == 0
  {
  }

  /** `getStatus`: before the start the challenge is upcoming, after the end completed, active in between. */
  function GetStatus(now: int, startDate: int, endDate: int): (s: ChallengeStatus)
  {
    if now < startDate then Upcoming
    else if now > endDate then Completed
    else Active
  }

  /** The order a challenge moves through its statuses. */
  function StatusRank(s: ChallengeStatus): nat
  {
    match s
    case Upcoming => 0
    case Active => 1
    case Completed => 2
  }

  /**
   * With the start not after the end, the status is active exactly on the closed window, and as the clock
   * moves on it never moves back.
   */
  lemma StatusByWindow(now: int, later: int, startDate: int, endDate: int)
    requires startDate <= endDate && now <= later
    ensures GetStatus(now, startDate, endDate) == Active <==> startDate <= now <= endDate
    ensures GetStatus(now, startDate, endDate) == Upcoming <==> now < startDate
    ensures GetStatus(now, startDate, endDate) == Completed <==> endDate < now
    ensures StatusRank(GetStatus(now, startDate, endDate)) <= StatusRank(GetStatus(later, startDate, endDate))
  {
  }

  /** Week `w` of the schedule that starts at `first`: starts `7 * w` days on, ends six days after its start. */
  function WeekChallenge(first: int, w: nat, now: int, createdAt: int): ChallengeData
  {
    var startDate := AddDays(first, 7 * w);
    var endDate := AddDays(startDate, 6);
    ChallengeData(OneWeek, startDate, endDate, GetStatus(now, startDate, endDate), 0, createdAt)
  }

  /**
   * The generation loop of `seedChallenges`: 52 challenges, week `w` starting `7 * w` days after the next
   * Monday. Every challenge carries the same `createdAt`, the clock reading of the run.
   */
  method GenerateWeeklyChallenges(now: int, createdAt: int) returns (challenges: seq<ChallengeData>)
    ensures |challenges| == SeedWeeks
    ensures forall w :: 0 <= w < |challenges| ==>
      challenges[w] == WeekChallenge(GetNextMonday(now), w, now, createdAt)
  {
    var first := GetNextMonday(now);
    challenges := [];
    var startDate := first;
    for week := 0 to SeedWeeks
      invariant |challenges| == week
      invariant startDate == AddDays(first, 7 * week)
      invariant forall w :: 0 <= w < week ==> challenges[w] == WeekChallenge(first, w, now, createdAt)
    {
      var endDate := AddDays(startDate, 6);
      challenges := challenges + [ChallengeData(OneWeek, startDate, endDate,
                                                GetStatus(now, startDate, endDate), 0, createdAt)];
      startDate := AddDays(startDate, 7);
    }
  }

  /**
   * Each seeded challenge is a one-week challenge with no participants that starts at the start of a Monday
   * and ends at the start of the Sunday six days later, so its window holds `Duration(OneWeek)` days.
   */
  lemma WeekIsMondayToSunday(now: int, createdAt: int, w: nat)
    ensures var c := WeekChallenge(GetNextMonday(now), w, now, createdAt);
      c.kind == OneWeek && c.participantCount == 0
      && GetDay(c.startDate) == 1 && GetDay(c.endDate) == 0
      && c.startDate % MsPerDay == 0 && c.endDate % MsPerDay == 0
      && DaysBetween(c.startDate, c.endDate) + 1 == Duration(c.kind)
  {
    var first := GetNextMonday(now);
    NextMondayIsFirstMondayAfter(now);
    var n := first / MsPerDay;
    WeekdayShift(n, 7 * w);
    WeekdayShift(n, 7 * w + 6);
  }

  /** The next week starts the day after this week ends: the windows neither overlap nor leave a gap. */
  lemma WeeksBackToBack(first: int, w: nat, now: int, createdAt: int)
    ensures WeekChallenge(first, w + 1, now, createdAt).startDate
        == AddDays(WeekChallenge(first, w, now, createdAt).endDate, 1)
  {
  }

  /** The script seeds only future weeks: every challenge it writes is upcoming at the time of the run. */
  lemma AllSeededUpcoming(now: int, createdAt: int, w: nat)
    ensures WeekChallenge(GetNextMonday(now), w, now, createdAt).status == Upcoming
  {
    NextMondayIsFirstMondayAfter(now);
  }
}
