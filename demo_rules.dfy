/**
 * The demo copy of the challenge rules: a team split that also computes an upper team count it never uses,
 * and a result tier computed from a percentage with non-positive totals read as 0 %.
 */
module DemoRules {
  import opened ChallengeRules

  /** The demo split: `minTeams = ceil(n / 9)` teams; `maxTeams = floor(n / 5)` is computed and ignored. */
  function DemoDistributeToTeams(n: nat): (r: seq<int>)
  {
    if n < MinTeamSize then [n]
    else if n <= MaxTeamSize then [n]
    else
      var minTeams := CeilDiv(n, MaxTeamSize);
      var maxTeams := n / MinTeamSize;
      var teamCount := minTeams;
      TeamSizes(teamCount, n / teamCount, n % teamCount)
  }

  /** The demo split and the app split give the same teams for every participant count. */
  lemma DemoDistributeAgrees(n: nat)
    ensures DemoDistributeToTeams(n) == DistributeToTeams(n)
    ensures Sum(DemoDistributeToTeams(n)) == n
  {
    DistributeSum(n);
  }

  /** The examples listed beside the demo split, including 19 -> [7, 6, 6]. */
  lemma DemoDistributeExamples()
    ensures DemoDistributeToTeams(5) == [5] && DemoDistributeToTeams(9) == [9]
    ensures DemoDistributeToTeams(10) == [5, 5] && DemoDistributeToTeams(14) == [7, 7]
    ensures DemoDistributeToTeams(18) == [9, 9] && DemoDistributeToTeams(19) == [7, 6, 6]
  {
    DistributeExamples();
    DemoDistributeAgrees(5);
    DemoDistributeAgrees(9);
    DemoDistributeAgrees(10);
    DemoDistributeAgrees(14);
    DemoDistributeAgrees(18);
    DemoDistributeAgrees(19);
  }

  /** The demo tier: rate = achieved / total * 100 when total > 0, else 0; then 80 and 50 are the thresholds. */
  function PercentResultType(achieved: int, total: int): (r: ResultType)
  {
    var rate := if total > 0 then (achieved as real / total as real) * 100.0 else 0.0;
    if rate >= 80.0 then ResultCompleted
    else if rate >= 50.0 then ResultAlmost
    else ResultFailed
  }

  /** For a positive total, the percentage tier equals the ratio tier of the app. */
  lemma PercentAgreesWithRatio(a: int, t: int)
    requires t > 0
    ensures PercentResultType(a, t) == GetResultType(a, t)
  {
    var x := a as real / t as real;
    assert x * 100.0 >= 80.0 <==> x >= 0.8;
    assert x * 100.0 >= 50.0 <==> x >= 0.5;
  }

  /** A non-positive total reads as 0 % and fails; more achieved days than total days complete. */
  lemma PercentEdges(a: int, t: int)
    ensures t <= 0 ==> PercentResultType(a, t) == ResultFailed
    ensures 0 < t < a ==> PercentResultType(a, t) == ResultCompleted
  {
    if 0 < t < a {
      PercentAgreesWithRatio(a, t);
      ResultTiers(a, t);
    }
  }

  /** The two tiers differ on a negative total: -1 of -1 days is a ratio of 1 but a rate of 0 %. */
  lemma PercentDiffersOnNegativeTotal()
    ensures GetResultType(-1, -1) == ResultCompleted
    ensures PercentResultType(-1, -1) == ResultFailed
  {
    assert (-1) as real / (-1) as real == 1.0;
  }
}
