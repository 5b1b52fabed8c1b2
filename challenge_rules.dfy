/**
 * The challenge rules shared by the app: the length of each challenge type, the team size limits,
 * the result tier of a participant (completed, almost, failed) and the split of participants into teams.
 */
module ChallengeRules {

  datatype ChallengeType = OneWeek | TwoWeek | OneMonth

  datatype ChallengeStatus = Upcoming | Active | Completed

  datatype ResultType = ResultCompleted | ResultAlmost | ResultFailed

  /** A challenge window; instants are milliseconds since 1970-01-01T00:00Z. */
  datatype Challenge = Challenge(
    id: string, kind: ChallengeType, startDate: int, endDate: int,
    status: ChallengeStatus, participantCount: int, createdAt: int)

  const MinTeamSize: nat := 5
  const MaxTeamSize: nat := 9

  /** Number of days a challenge of this type lasts. */
  function Duration(t: ChallengeType): (n: nat)
    ensures n == 7 || n == 14 || n == 30
  {
    match t
    case OneWeek => 7
    case TwoWeek => 14
    case OneMonth => 30
  }

  /** Different types last a different number of days, and a week is 7 days. */
  lemma DurationInjective(s: ChallengeType, t: ChallengeType)
    ensures Duration(s) == Duration(t) <==> s == t
    ensures Duration(OneWeek) == 7 && Duration(TwoWeek) == 2 * Duration(OneWeek)
  {
  }

  // ---------------------------------------------------------------------------------------------
  // Result tier
  // ---------------------------------------------------------------------------------------------

  /** Tier order: failed < almost < completed. */
  function Rank(r: ResultType): (k: nat)
    ensures k <= 2
  {
    match r
    case ResultFailed => 0
    case ResultAlmost => 1
    case ResultCompleted => 2
  }

  /** The tier of `achieved` days out of `total`: a zero total fails, otherwise the ratio is held against 0.8 and 0.5. */
  function GetResultType(achieved: int, total: int): (r: ResultType)
  {
    if total == 0 then ResultFailed
    else
      var rate := achieved as real / total as real;
      if rate >= 0.8 then ResultCompleted
      else if rate >= 0.5 then ResultAlmost
      else ResultFailed
  }

  /** `a / t >= p / q` for a positive `t` is the cross-multiplied integer inequality. */
  lemma RatioAtLeast(a: int, t: int, p: int, q: int)
    requires t > 0 && q > 0
    ensures a as real / t as real >= p as real / q as real <==> q * a >= p * t
  {
    var x := a as real / t as real;
    assert x * t as real == a as real;
    var y := p as real / q as real;
    assert y * q as real == p as real;
    if q * a >= p * t {
      assert (q * a) as real >= (p * t) as real;
      assert x * (t as real * q as real) >= y * (q as real * t as real);
    } else {
      assert (q * a) as real < (p * t) as real;
      assert x * (t as real * q as real) < y * (q as real * t as real);
    }
  }

  /**
   * For a positive total the tiers are exact integer boundaries: completed iff 5a >= 4t,
   * almost iff 2a >= t > 5a/4, failed otherwise (so 8/10 completes and 5/10 is almost).
   */
  lemma ResultTiers(a: int, t: int)
    requires t > 0
    ensures GetResultType(a, t) == ResultCompleted <==> 5 * a >= 4 * t
    ensures GetResultType(a, t) == ResultAlmost <==> 2 * a >= t && 5 * a < 4 * t
    ensures GetResultType(a, t) == ResultFailed <==> 2 * a < t
  {
    RatioAtLeast(a, t, 4, 5);
    RatioAtLeast(a, t, 1, 2);
    assert 4 as real / 5 as real == 0.8;
    assert 1 as real / 2 as real == 0.5;
  }

  /** With a fixed positive total, more achieved days never give a lower tier. */
  lemma ResultMonotone(a: int, b: int, t: int)
    requires t > 0 && a <= b
    ensures Rank(GetResultType(a, t)) <= Rank(GetResultType(b, t))
  {
    ResultTiers(a, t);
    ResultTiers(b, t);
  }

  /** A zero total fails; the boundary cases 8/10, 5/10 and 4/10. */
  lemma ResultExamples()
    ensures GetResultType(3, 0) == ResultFailed
    ensures GetResultType(8, 10) == ResultCompleted
    ensures GetResultType(7, 10) == ResultAlmost
    ensures GetResultType(5, 10) == ResultAlmost
    ensures GetResultType(4, 10) == ResultFailed
  {
    ResultTiers(8, 10);
    ResultTiers(7, 10);
    ResultTiers(5, 10);
    ResultTiers(4, 10);
  }

  // ---------------------------------------------------------------------------------------------
  // Team distribution
  // ---------------------------------------------------------------------------------------------

  function Sum(s: seq<int>): int
  {
    if s == [] then 0 else Sum(s[..|s| - 1]) + s[|s| - 1]
  }

  /** The `i`-th of `count` teams made of `base` people each, the first `extra` of them with one more. */
  function TeamSizes(count: nat, base: int, extra: nat): (r: seq<int>)
    ensures |r| == count
    ensures forall i :: 0 <= i < count ==> r[i] == base + (if i < extra then 1 else 0)
  {
    seq(count, i => base + (if i < extra then 1 else 0))
  }

  /** `count` balanced teams hold `count * base` people plus one for each of the first `extra` teams. */
  lemma {:induction false} TeamSizesSum(count: nat, base: int, extra: nat)
    requires extra <= count
    ensures Sum(TeamSizes(count, base, extra)) == count * base + extra
  {
    if count > 0 {
      var e := if extra == count then extra - 1 else extra;
      var r := TeamSizes(count, base, extra);
      TeamSizesSum(count - 1, base, e);
      TeamSizesDropLast(count, base, extra, e);
      assert Sum(r) == Sum(TeamSizes(count - 1, base, e)) + r[count - 1];
      MulStep(count, base);
    }
  }

  /** Dropping the last team leaves the same distribution over one team fewer. */
  lemma TeamSizesDropLast(count: nat, base: int, extra: nat, e: nat)
    requires 0 < count && extra <= count
    requires e == if extra == count then extra - 1 else extra
    ensures TeamSizes(count, base, extra)[..count - 1] == TeamSizes(count - 1, base, e)
  {
  }

  lemma MulStep(count: nat, base: int)
    requires count > 0
    ensures count * base == (count - 1) * base + base
  {
  }

  /** `Math.ceil(a / d)` for a positive divisor. */
  function CeilDiv(a: int, d: int): (q: int)
    requires d > 0
    ensures (q - 1) * d < a <= q * d
  {
    -((-a) / d)
  }

  /** Split `n` participants into the fewest teams of at most 9, as evenly as possible, larger teams first. */
  function DistributeToTeams(n: nat): (r: seq<int>)
  {
    if n < MinTeamSize then [n]
    else if n <= MaxTeamSize then [n]
    else
      var teamCount := CeilDiv(n, MaxTeamSize);
      TeamSizes(teamCount, n / teamCount, n % teamCount)
  }

  /** Up to 9 participants, including fewer than 5, stay one team. */
  lemma SmallGroupOneTeam(n: nat)
    requires n <= MaxTeamSize
    ensures DistributeToTeams(n) == [n]
  {
  }

  /** Every participant is in exactly one team: the sizes add up to `n`. */
  lemma DistributeSum(n: nat)
    ensures Sum(DistributeToTeams(n)) == n
  {
    if n > MaxTeamSize {
      var t := CeilDiv(n, MaxTeamSize);
      TeamSizesSum(t, n / t, n % t);
    } else {
      assert DistributeToTeams(n)[..0] == [];
    }
  }

  /** Facts about `t = ceil(n / 9)` teams for `n > 9`: at least 2 teams, and `5t <= n <= 9t`. */
  lemma TeamCountBounds(n: nat, t: int)
    requires n > MaxTeamSize && t == CeilDiv(n, MaxTeamSize)
    ensures t >= 2 && 5 * t <= n <= 9 * t
  {
  }

  /**
   * Above 9 participants there are ceil(n / 9) teams, each of n / t or n / t + 1 people,
   * non-increasing, and every size lies between 5 and 9.
   */
  lemma DistributeBalanced(n: nat)
    requires n > MaxTeamSize
    ensures var t := CeilDiv(n, MaxTeamSize); var r := DistributeToTeams(n);
      |r| == t &&
      (forall i :: 0 <= i < t ==> r[i] == n / t || r[i] == n / t + 1) &&
      (forall i, j :: 0 <= i <= j < t ==> r[j] <= r[i]) &&
      (forall i :: 0 <= i < t ==> MinTeamSize <= r[i] <= MaxTeamSize)
  {
    var t := CeilDiv(n, MaxTeamSize);
    TeamCountBounds(n, t);
    var base := n / t;
    assert n == base * t + n % t;
    MulLessCancel(4, base, t);
    if n % t > 0 {
      MulLessCancel(base, 9, t);
    }
  }

  /** Cancelling a positive factor from a strict product inequality. */
  lemma MulLessCancel(a: int, b: int, t: int)
    requires t > 0 && a * t < b * t
    ensures a < b
  {
  }

  /** The documented examples: 5 -> [5], 9 -> [9], 10 -> [5, 5], 14 -> [7, 7], 18 -> [9, 9], 19 -> [7, 6, 6]. */
  lemma DistributeExamples()
    ensures DistributeToTeams(5) == [5] && DistributeToTeams(9) == [9]
    ensures DistributeToTeams(10) == [5, 5]
    ensures DistributeToTeams(14) == [7, 7]
    ensures DistributeToTeams(18) == [9, 9]
    ensures DistributeToTeams(19) == [7, 6, 6]
  {
    assert DistributeToTeams(10) == TeamSizes(2, 5, 0);
    assert DistributeToTeams(14) == TeamSizes(2, 7, 0);
    assert DistributeToTeams(18) == TeamSizes(2, 9, 0);
    assert DistributeToTeams(19) == TeamSizes(3, 6, 1);
  }
}
