/**
 * Streak calculation over daily records (web/src/lib/utils/streak.ts).
 *
 * A record enters a date -> achieved map when its date text is not blank
 * and not after today in text order; a later record for the same date
 * overwrites an earlier one. The best streak is the longest run of
 * consecutive calendar days among the achieved dates that parse; the
 * current streak walks back from today (or from yesterday when today is
 * not achieved yet) while each day is achieved; the reported best streak
 * is never below the current one.
 */
module Streak {
  import opened Wrappers
  import opened Digits
  import opened Calendar

  /** The two fields of a record the calculation reads. */
  datatype DailyRecord = DailyRecord(date: string, value: real)

  datatype StreakResult = StreakResult(currentStreak: nat, bestStreak: nat)

  /** Records with a blank date or a date after today (as text) are skipped. */
  predicate Admitted(r: DailyRecord, today: string)
  {
    !IsBlank(r.date) && !StrLess(today, r.date)
  }

  predicate IsAchieved(m: map<string, bool>, s: string)
  {
    s in m && m[s]
  }

  // ---------------------------------------------------------------------
  // The date -> achieved map.

  /** The map after visiting the records in order. */
  function AchievedMap(records: seq<DailyRecord>, target: real, today: string): map<string, bool>
  {
    if records == [] then map[]
    else
      var m := AchievedMap(records[..|records| - 1], target, today);
      var r := records[|records| - 1];
      if Admitted(r, today) then m[r.date := r.value >= target] else m
  }

  /** The records that enter the map, in their order. */
  function AdmittedOnly(records: seq<DailyRecord>, today: string): seq<DailyRecord>
  {
    if records == [] then []
    else
      var init := AdmittedOnly(records[..|records| - 1], today);
      var r := records[|records| - 1];
      if Admitted(r, today) then init + [r] else init
  }

  /** Admitted records that share a date agree on whether the target was met. */
  predicate ConsistentOutcomes(records: seq<DailyRecord>, target: real, today: string)
  {
    forall r1, r2 ::
      (r1 in records && r2 in records && Admitted(r1, today) && Admitted(r2, today) && r1.date == r2.date)
      ==> (r1.value >= target <==> r2.value >= target)
  }

  method BuildAchievedMap(records: seq<DailyRecord>, target: real, today: string)
    returns (m: map<string, bool>)
    ensures m == AchievedMap(records, target, today)
  {
    m := map[];
    var i := 0;
    while i < |records|
      invariant 0 <= i <= |records|
      invariant m == AchievedMap(records[..i], target, today)
    {
      var r := records[i];
      assert records[..i + 1][..i] == records[..i];
      if !IsBlank(r.date) && !StrLess(today, r.date) {
        m := m[r.date := r.value >= target];
      }
      i := i + 1;
    }
    assert records[..i] == records;
  }

  /** A date is a key exactly when some admitted record carries it. */
  lemma {:induction false} AchievedMapKeys(records: seq<DailyRecord>, target: real, today: string)
    ensures forall k ::
      k in AchievedMap(records, target, today) <==> (exists r :: r in records && Admitted(r, today) && r.date == k)
    decreases |records|
  {
    if records != [] {
      var init := records[..|records| - 1];
      AchievedMapKeys(init, target, today);
      assert records == init + [records[|records| - 1]];
    }
  }

  /** When admitted records agree per date, every one of them gives its date's entry. */
  lemma {:induction false} AchievedMapValues(records: seq<DailyRecord>, target: real, today: string)
    requires ConsistentOutcomes(records, target, today)
    ensures forall r :: (r in records && Admitted(r, today)) ==>
      (r.date in AchievedMap(records, target, today)
       && AchievedMap(records, target, today)[r.date] == (r.value >= target))
    decreases |records|
  {
    if records != [] {
      var init := records[..|records| - 1];
      assert records == init + [records[|records| - 1]];
      AchievedMapValues(init, target, today);
      AchievedMapKeys(init, target, today);
    }
  }

  /** The last admitted record of a date decides that date's entry. */
  lemma {:induction false} AchievedMapLastWins(records: seq<DailyRecord>, target: real, today: string, i: nat)
    requires i < |records| && Admitted(records[i], today)
    requires forall j :: i < j < |records| && Admitted(records[j], today) ==> records[j].date != records[i].date
    ensures records[i].date in AchievedMap(records, target, today)
    ensures AchievedMap(records, target, today)[records[i].date] == (records[i].value >= target)
    decreases |records|
  {
    AchievedMapKeys(records[..|records| - 1], target, today);
    if i < |records| - 1 {
      AchievedMapLastWins(records[..|records| - 1], target, today, i);
    }
  }

  /** Skipped records play no part in the map. */
  lemma {:induction false} AchievedMapIgnoresRejected(records: seq<DailyRecord>, target: real, today: string)
    ensures AchievedMap(AdmittedOnly(records, today), target, today) == AchievedMap(records, target, today)
    decreases |records|
  {
    if records != [] {
      var init := records[..|records| - 1];
      AchievedMapIgnoresRejected(init, target, today);
      var r := records[|records| - 1];
      if Admitted(r, today) {
        assert (AdmittedOnly(init, today) + [r])[..|AdmittedOnly(init, today)|] == AdmittedOnly(init, today);
      }
    }
  }

  /** The order of the records does not matter when same-day records agree. */
  lemma AchievedMapOrderIndependent(a: seq<DailyRecord>, b: seq<DailyRecord>, target: real, today: string)
    requires multiset(a) == multiset(b)
    requires ConsistentOutcomes(a, target, today)
    ensures AchievedMap(a, target, today) == AchievedMap(b, target, today)
  {
    var ma, mb := AchievedMap(a, target, today), AchievedMap(b, target, today);
    assert forall r :: r in a <==> r in b by {
      forall r ensures r in a <==> r in b {
        assert r in a <==> r in multiset(a);
        assert r in b <==> r in multiset(b);
      }
    }
    AchievedMapKeys(a, target, today);
    AchievedMapKeys(b, target, today);
    AchievedMapValues(a, target, today);
    AchievedMapValues(b, target, today);
    forall k | k in ma
      ensures k in mb && ma[k] == mb[k]
    {
      var r :| r in a && Admitted(r, today) && r.date == k;
    }
  }

  // ---------------------------------------------------------------------
  // Sorting the achieved dates.

  predicate IsStrictlySorted(s: seq<string>)
  {
    forall i, j :: 0 <= i < j < |s| ==> StrLess(s[i], s[j])
  }

  function InsertSorted(s: seq<string>, x: string): (r: seq<string>)
    requires IsStrictlySorted(s) && x !in s
    ensures IsStrictlySorted(r) && |r| == |s| + 1
    ensures forall k :: k in r <==> k in s || k == x
  {
    if s == [] then [x]
    else if StrLess(x, s[0]) then
      assert forall j :: 0 <= j < |s| ==> StrLess(x, s[j]) by {
        forall j | 0 <= j < |s| ensures StrLess(x, s[j]) {
          if j > 0 { StrLessTransitive(x, s[0], s[j]); }
        }
      }
      [x] + s
    else
      StrLessTotal(x, s[0]);
      var rest := InsertSorted(s[1..], x);
      assert forall k :: k in s[1..] ==> StrLess(s[0], k);
      [s[0]] + rest
  }

  /** The achieved dates, sorted: the `filter(...).map(...).sort()` chain. */
  method SortAchievedKeys(m: map<string, bool>) returns (sorted: seq<string>)
    ensures IsStrictlySorted(sorted)
    ensures forall k :: k in sorted <==> IsAchieved(m, k)
  {
    var remaining := set k | k in m.Keys && m[k];
    sorted := [];
    while remaining != {}
      invariant IsStrictlySorted(sorted)
      invariant forall k :: k in remaining ==> IsAchieved(m, k)
      invariant forall k :: k in sorted <==> IsAchieved(m, k) && k !in remaining
      decreases |remaining|
    {
      var k :| k in remaining;
      sorted := InsertSorted(sorted, k);
      remaining := remaining - {k};
    }
  }

  // ---------------------------------------------------------------------
  // Runs of consecutive days, on day numbers.

  /** The days first, first + 1, ..., first + len - 1 all belong to days. */
  ghost predicate IsRun(days: set<int>, first: int, len: nat)
  {
    forall x :: first <= x < first + len ==> x in days
  }

  ghost predicate IsLongestRun(days: set<int>, len: nat)
  {
    (exists first :: IsRun(days, first, len))
    && forall first, k: nat :: IsRun(days, first, k) ==> k <= len
  }

  /** The run that ends at x has exactly len days. */
  ghost predicate IsRunEndingAt(days: set<int>, x: int, len: nat)
  {
    IsRun(days, x - len + 1, len) && x - len !in days
  }

  ghost predicate IsTop(days: set<int>, x: int)
  {
    x in days && forall y :: y in days ==> y <= x
  }

  ghost function LongestRunUpTo(days: set<int>, n: nat): (r: nat)
    ensures r <= n
  {
    if n == 0 then 0
    else if exists first :: IsRun(days, first, n) then n
    else LongestRunUpTo(days, n - 1)
  }

  /** The length of the longest run of consecutive days. */
  ghost function LongestRun(days: set<int>): nat
  {
    LongestRunUpTo(days, |days|)
  }

  ghost function Range(first: int, len: nat): (r: set<int>)
    ensures forall x :: x in r <==> first <= x < first + len
    ensures |r| == len
  {
    if len == 0 then {} else Range(first, len - 1) + {first + len - 1}
  }

  lemma RunWithinSize(days: set<int>, first: int, len: nat)
    requires IsRun(days, first, len)
    ensures len <= |days|
  {
    assert Range(first, len) <= days;
    SubsetSize(Range(first, len), days);
  }

  lemma {:induction false} SubsetSize<T>(a: set<T>, b: set<T>)
    requires a <= b
    ensures |a| <= |b|
    decreases |b|
  {
    if a != {} {
      var x :| x in a;
      SubsetSize(a - {x}, b - {x});
    }
  }

  lemma {:induction false} LongestRunUpToSpec(days: set<int>, n: nat)
    ensures exists first :: IsRun(days, first, LongestRunUpTo(days, n))
    ensures forall first, k: nat :: IsRun(days, first, k) && k <= n ==> k <= LongestRunUpTo(days, n)
    decreases n
  {
    if n == 0 {
      assert LongestRunUpTo(days, 0) == 0 && IsRun(days, 0, 0);
    } else if !exists first :: IsRun(days, first, n) {
      assert LongestRunUpTo(days, n) == LongestRunUpTo(days, n - 1);
      LongestRunUpToSpec(days, n - 1);
    } else {
      var f :| IsRun(days, f, n);
      assert LongestRunUpTo(days, n) == n;
    }
  }

  lemma LongestRunIsLongest(days: set<int>)
    ensures IsLongestRun(days, LongestRun(days))
  {
    LongestRunUpToSpec(days, |days|);
    forall first, k: nat | IsRun(days, first, k)
      ensures k <= LongestRun(days)
    {
      RunWithinSize(days, first, k);
    }
  }

  lemma LongestRunUnique(days: set<int>, a: nat, b: nat)
    requires IsLongestRun(days, a) && IsLongestRun(days, b)
    ensures a == b
  {
    var fa :| IsRun(days, fa, a);
    var fb :| IsRun(days, fb, b);
  }

  lemma NoDaysNoRun(days: set<int>)
    requires days == {}
    ensures IsLongestRun(days, 0)
  {
    assert IsRun(days, 0, 0);
    forall first, k: nat | IsRun(days, first, k) ensures k <= 0 {
      RunWithinSize(days, first, k);
    }
  }

  /** Adding a day above every other day: runs either avoid it or end at it. */
  lemma ExtendLongest(days: set<int>, x: int, best: nat, t: nat)
    requires forall y :: y in days ==> y < x
    requires IsLongestRun(days, best)
    requires t >= 1 && IsRunEndingAt(days + {x}, x, t)
    ensures IsLongestRun(days + {x}, if t > best then t else best)
  {
    var d' := days + {x};
    var r := if t > best then t else best;
    if t > best {
      assert IsRun(d', x - t + 1, r);
    } else {
      var f :| IsRun(days, f, best);
      assert IsRun(d', f, r);
    }
    forall first, k: nat | IsRun(d', first, k)
      ensures k <= r
    {
      if first <= x < first + k {
        assert x + 1 !in d';
        assert first + k == x + 1;
        assert x - t !in d';
        assert k <= t;
      } else {
        assert IsRun(days, first, k);
      }
    }
  }

  /** The run ending at the newly added top day. */
  lemma RunEndingStep(days: set<int>, p: int, t: nat, x: int)
    requires IsTop(days, p) && x > p && t >= 1 && IsRunEndingAt(days, p, t)
    ensures IsRunEndingAt(days + {x}, x, if x - p == 1 then t + 1 else 1)
  {
  }

  // ---------------------------------------------------------------------
  // The best-streak walk.

  /** The day numbers of the achieved dates that parse. */
  ghost function AchievedDayNumbers(m: map<string, bool>): set<int>
  {
    set k | k in m && m[k] && ParseDate(k).Some? :: DayNumber(ParseDate(k).value)
  }

  /** The day number of a date text, when it parses. */
  ghost function DayOf(k: string): set<int>
  {
    if ParseDate(k).Some? then {DayNumber(ParseDate(k).value)} else {}
  }

  /** The day numbers of the texts that parse, in a list of date texts. */
  ghost function DaysOf(keys: seq<string>): set<int>
  {
    if keys == [] then {} else DaysOf(keys[..|keys| - 1]) + DayOf(keys[|keys| - 1])
  }

  lemma DaysOfStep(keys: seq<string>, i: nat)
    requires i < |keys|
    ensures DaysOf(keys[..i + 1]) == DaysOf(keys[..i]) + DayOf(keys[i])
  {
    assert keys[..i + 1][..i] == keys[..i];
  }

  lemma {:induction false} DaysOfMembers(keys: seq<string>)
    ensures forall y :: y in DaysOf(keys) <==> exists k :: k in keys && y in DayOf(k)
    decreases |keys|
  {
    if keys != [] {
      var init := keys[..|keys| - 1];
      DaysOfMembers(init);
      assert keys == init + [keys[|keys| - 1]];
    }
  }

  /** The sorted achieved keys give exactly the achieved day numbers. */
  lemma SortedKeysDays(m: map<string, bool>, sorted: seq<string>)
    requires forall k :: k in sorted <==> IsAchieved(m, k)
    ensures DaysOf(sorted) == AchievedDayNumbers(m)
  {
    DaysOfMembers(sorted);
    forall y | y in AchievedDayNumbers(m)
      ensures y in DaysOf(sorted)
    {
      var k :| k in m && m[k] && ParseDate(k).Some? && y == DayNumber(ParseDate(k).value);
      assert k in sorted && y in DayOf(k);
    }
    forall y | y in DaysOf(sorted)
      ensures y in AchievedDayNumbers(m)
    {
      var k :| k in sorted && y in DayOf(k);
    }
  }

  /** In a sorted list, the dates before position i are earlier than the date at i. */
  lemma DaysOfPrefixBelow(keys: seq<string>, i: nat, d: Date)
    requires IsStrictlySorted(keys) && i < |keys| && ParseDate(keys[i]) == Some(d)
    ensures forall y :: y in DaysOf(keys[..i]) ==> y < DayNumber(d)
  {
    DaysOfMembers(keys[..i]);
    forall y | y in DaysOf(keys[..i])
      ensures y < DayNumber(d)
    {
      var k :| k in keys[..i] && y in DayOf(k);
      var j :| 0 <= j < i && keys[j] == k;
      DateTextOrder(k, keys[i], ParseDate(k).value, d);
      DayNumberMonotone(ParseDate(k).value, d);
    }
  }

  /** One step of the walk, on day numbers: the new top day extends or restarts the running streak. */
  lemma WalkStep(days: set<int>, prev: Option<int>, temp: nat, best: nat, x: int)
    requires prev.None? ==> days == {}
    requires prev.Some? ==> IsTop(days, prev.value) && temp >= 1 && IsRunEndingAt(days, prev.value, temp)
    requires IsLongestRun(days, best)
    requires forall y :: y in days ==> y < x
    ensures var t := if prev.Some? && x - prev.value == 1 then temp + 1 else 1;
      IsTop(days + {x}, x) && IsRunEndingAt(days + {x}, x, t)
      && IsLongestRun(days + {x}, if t > best then t else best)
  {
    var t := if prev.Some? && x - prev.value == 1 then temp + 1 else 1;
    if prev.Some? {
      RunEndingStep(days, prev.value, temp, x);
    }
    ExtendLongest(days, x, best, t);
  }

  /**
   * The walk over the sorted achieved dates: a date one day after the
   * previous parsed date extends the running streak, any other date starts
   * a new one; unparsable dates are skipped.
   */
  method LongestRunOfSorted(m: map<string, bool>, sorted: seq<string>) returns (best: nat)
    requires IsStrictlySorted(sorted)
    requires forall k :: k in sorted <==> IsAchieved(m, k)
    ensures IsLongestRun(AchievedDayNumbers(m), best)
  {
    best := 0;
    var temp: nat := 0;
    var prevDate: Option<Date> := None;
    var i := 0;
    ghost var days: set<int> := {};
    ghost var prev: Option<int> := None;
    NoDaysNoRun(days);
    while i < |sorted|
      invariant 0 <= i <= |sorted|
      invariant days == DaysOf(sorted[..i])
      invariant prevDate.None? <==> prev.None?
      invariant prevDate.Some? ==> ValidDate(prevDate.value) && prev == Some(DayNumber(prevDate.value))
      invariant prev.None? ==> days == {}
      invariant prev.Some? ==> IsTop(days, prev.value) && temp >= 1 && IsRunEndingAt(days, prev.value, temp)
      invariant IsLongestRun(days, best)
    {
      var currentDate := ParseDate(sorted[i]);
      if currentDate.Some? {
        var c := currentDate.value;
        var x := DayNumber(c);
        ghost var oldTemp := temp;
        if prevDate.None? {
          temp := 1;
        } else {
          var diffDays := x - DayNumber(prevDate.value);
          if diffDays == 1 {
            temp := temp + 1;
          } else {
            temp := 1;
          }
        }
        SortedStep(sorted, i, c, x, days, prev, oldTemp, best, temp);
        if temp > best {
          best := temp;
        }
        prevDate := Some(c);
        days := days + {x};
        prev := Some(x);
      } else {
        SortedSkip(sorted, i);
      }
      i := i + 1;
    }
    assert sorted[..i] == sorted;
    SortedKeysDays(m, sorted);
  }

  /** One parsed key of the walk: its day joins the days seen, and the run bookkeeping stays exact. */
  lemma SortedStep(sorted: seq<string>, i: nat, c: Date, x: int, days: set<int>, prev: Option<int>, temp: nat, best: nat, t: nat)
    requires IsStrictlySorted(sorted) && i < |sorted| && ParseDate(sorted[i]) == Some(c) && x == DayNumber(c)
    requires days == DaysOf(sorted[..i])
    requires prev.None? ==> days == {}
    requires prev.Some? ==> IsTop(days, prev.value) && temp >= 1 && IsRunEndingAt(days, prev.value, temp)
    requires IsLongestRun(days, best)
    requires t == if prev.Some? && x - prev.value == 1 then temp + 1 else 1
    ensures DaysOf(sorted[..i + 1]) == days + {x}
    ensures IsTop(days + {x}, x) && IsRunEndingAt(days + {x}, x, t)
    ensures IsLongestRun(days + {x}, if t > best then t else best)
  {
    DaysOfStep(sorted, i);
    assert DayOf(sorted[i]) == {x};
    DaysOfPrefixBelow(sorted, i, c);
    WalkStep(days, prev, temp, best, x);
  }

  /** A key that does not parse adds no day. */
  lemma SortedSkip(sorted: seq<string>, i: nat)
    requires i < |sorted| && ParseDate(sorted[i]).None?
    ensures DaysOf(sorted[..i + 1]) == DaysOf(sorted[..i])
  {
    DaysOfStep(sorted, i);
    assert DayOf(sorted[i]) == {};
  }


  // ---------------------------------------------------------------------
  // The current streak.

  /**
   * How many of the steps i, i + 1, ... are achieved in a row, looking at
   * no more than fuel steps.
   */
  function RunFrom(achieved: nat -> bool, i: nat, fuel: nat): (n: nat)
    ensures n <= fuel
    decreases fuel
  {
    if fuel == 0 || !achieved(i) then 0 else 1 + RunFrom(achieved, i + 1, fuel - 1)
  }

  lemma {:induction false} RunFromSpec(achieved: nat -> bool, i: nat, fuel: nat)
    ensures forall j :: i <= j < i + RunFrom(achieved, i, fuel) ==> achieved(j)
    ensures RunFrom(achieved, i, fuel) < fuel ==> !achieved(i + RunFrom(achieved, i, fuel))
    decreases fuel
  {
    if fuel > 0 && achieved(i) {
      RunFromSpec(achieved, i + 1, fuel - 1);
    }
  }

  ghost predicate Injective(key: nat -> string)
  {
    forall i, j :: key(i) == key(j) ==> i == j
  }

  /** The keys of the first n steps. */
  ghost function ChainKeys(key: nat -> string, n: nat): set<string>
  {
    if n == 0 then {} else ChainKeys(key, n - 1) + {key(n - 1)}
  }

  lemma {:induction false} ChainKeysSize(key: nat -> string, n: nat)
    requires Injective(key)
    ensures |ChainKeys(key, n)| == n
    ensures forall t :: t in ChainKeys(key, n) ==> exists i :: 0 <= i < n && t == key(i)
    decreases n
  {
    if n > 0 {
      ChainKeysSize(key, n - 1);
      forall t | t in ChainKeys(key, n)
        ensures exists i :: 0 <= i < n && t == key(i)
      {
        if t != key(n - 1) {
          var i :| 0 <= i < n - 1 && t == key(i);
        }
      }
    }
  }

  /** Steps with distinct keys drawn from a set are no more than the set's size. */
  lemma ChainBound(achieved: nat -> bool, key: nat -> string, keys: set<string>, n: nat)
    requires Injective(key)
    requires forall i :: achieved(i) ==> key(i) in keys
    requires forall i :: 0 <= i < n ==> achieved(i)
    ensures n <= |keys|
  {
    ChainKeysSize(key, n);
    assert ChainKeys(key, n) <= keys;
    SubsetSize(ChainKeys(key, n), keys);
  }

  /** With as much fuel as there are keys, the run always ends at a step that is not achieved. */
  lemma RunFromEnds(achieved: nat -> bool, key: nat -> string, keys: set<string>)
    requires Injective(key)
    requires forall i :: achieved(i) ==> key(i) in keys
    ensures var n := RunFrom(achieved, 0, |keys|);
      (forall i :: 0 <= i < n ==> achieved(i)) && !achieved(n)
  {
    var n := RunFrom(achieved, 0, |keys|);
    RunFromSpec(achieved, 0, |keys|);
    if n == |keys| && achieved(n) {
      ChainBound(achieved, key, keys, n + 1);
    }
  }

  /** The text of the day i days before s. */
  function BackText(s: Date): nat -> string
    requires ValidDate(s)
  {
    (i: nat) => FormatDate(DaysBack(s, i))
  }

  /** Whether the day i days before s is achieved. */
  function BackAchieved(m: map<string, bool>, s: Date): nat -> bool
    requires ValidDate(s)
  {
    (i: nat) => IsAchieved(m, FormatDate(DaysBack(s, i)))
  }

  /** Different days back have different texts, and achieved ones are keys of the map. */
  lemma BackTextKeys(m: map<string, bool>, s: Date)
    requires ValidDate(s)
    ensures Injective(BackText(s))
    ensures forall i :: BackAchieved(m, s)(i) ==> BackText(s)(i) in m.Keys
  {
    forall i, j | BackText(s)(i) == BackText(s)(j)
      ensures i == j
    {
      FormatDateInjective(DaysBack(s, i), DaysBack(s, j));
      DaysBackDayNumber(s, i);
      DaysBackDayNumber(s, j);
    }
  }

  /** Where the backward walk starts: today when achieved, else yesterday. */
  function CurrentStart(m: map<string, bool>, today: string): (r: Option<Date>)
    ensures r.Some? ==> ValidDate(r.value)
  {
    match ParseDate(today)
    case None => None
    case Some(t) => Some(if IsAchieved(m, today) then t else PrevDay(t))
  }

  /** The current streak: the days achieved in a row walking back from its start. */
  function CurrentStreakOf(m: map<string, bool>, today: string): nat
  {
    match CurrentStart(m, today)
    case None => 0
    case Some(s) => RunFrom(BackAchieved(m, s), 0, |m|)
  }

  /**
   * Walking back from s counts the achieved days and ends at the first day
   * that is not achieved: the map's size is always enough fuel.
   */
  lemma WalkBackRun(m: map<string, bool>, s: Date)
    requires ValidDate(s)
    ensures var n := RunFrom(BackAchieved(m, s), 0, |m|);
      (forall i :: 0 <= i < n ==> BackAchieved(m, s)(i)) && !BackAchieved(m, s)(n)
  {
    BackTextKeys(m, s);
    RunFromEnds(BackAchieved(m, s), BackText(s), m.Keys);
  }

  /** The `while (true)` loop of `calculateCurrentStreak`, from its start day. */
  method WalkBack(m: map<string, bool>, start: Date) returns (streak: nat)
    requires ValidDate(start)
    ensures streak == RunFrom(BackAchieved(m, start), 0, |m|)
  {
    ghost var n := RunFrom(BackAchieved(m, start), 0, |m|);
    WalkBackRun(m, start);
    var cur := start;
    streak := 0;
    while true
      invariant ValidDate(cur) && cur == DaysBack(start, streak)
      invariant streak <= n
      decreases n - streak
    {
      var dateStr := FormatDate(cur);
      assert (dateStr in m && m[dateStr]) == BackAchieved(m, start)(streak);
      if !(dateStr in m && m[dateStr]) {
        break;
      }
      assert streak < n;
      streak := streak + 1;
      cur := PrevDay(cur);
    }
  }

  /** `calculateCurrentStreak`. */
  method CalculateCurrentStreak(m: map<string, bool>, today: string) returns (streak: nat)
    ensures streak == CurrentStreakOf(m, today)
  {
    var todayAchieved := today in m && m[today];
    var parsed := ParseDate(today);
    if parsed.None? {
      return 0;
    }
    var cur := parsed.value;
    if !todayAchieved {
      cur := PrevDay(cur);
      var yesterday := FormatDate(cur);
      if !(yesterday in m && m[yesterday]) {
        assert !BackAchieved(m, cur)(0);
        return 0;
      }
    }
    streak := WalkBack(m, cur);
  }

  // ---------------------------------------------------------------------
  // The whole calculation.

  /** What `calculateStreak` returns, stated through the run specifications. */
  ghost function StreakOf(records: seq<DailyRecord>, target: real, today: string): StreakResult
  {
    if records == [] then StreakResult(0, 0)
    else
      var m := AchievedMap(records, target, today);
      var current := CurrentStreakOf(m, today);
      var longest := LongestRun(AchievedDayNumbers(m));
      StreakResult(current, if longest > current then longest else current)
  }

  /** `calculateStreak`. */
  method CalculateStreak(records: seq<DailyRecord>, target: real, today: string) returns (r: StreakResult)
    ensures r == StreakOf(records, target, today)
    ensures r.bestStreak >= r.currentStreak
    ensures records == [] ==> r == StreakResult(0, 0)
  {
    if |records| == 0 {
      return StreakResult(0, 0);
    }
    var m := BuildAchievedMap(records, target, today);
    var sorted := SortAchievedKeys(m);
    var best := LongestRunOfSorted(m, sorted);
    LongestRunIsLongest(AchievedDayNumbers(m));
    LongestRunUnique(AchievedDayNumbers(m), best, LongestRun(AchievedDayNumbers(m)));
    var current := CalculateCurrentStreak(m, today);
    if current > best {
      best := current;
    }
    r := StreakResult(current, best);
  }

  // ---------------------------------------------------------------------
  // Properties of the calculation.

  /** Records with blank or future dates never change the result. */
  lemma RejectedRecordsIgnored(records: seq<DailyRecord>, target: real, today: string)
    ensures StreakOf(AdmittedOnly(records, today), target, today) == StreakOf(records, target, today)
  {
    AchievedMapIgnoresRejected(records, target, today);
    if records != [] && AdmittedOnly(records, today) == [] {
      var m := AchievedMap(records, target, today);
      assert m == map[];
      assert AchievedDayNumbers(m) == {};
    }
  }

  /** Shuffling the records changes nothing when records of the same day agree. */
  lemma StreakOrderIndependent(a: seq<DailyRecord>, b: seq<DailyRecord>, target: real, today: string)
    requires multiset(a) == multiset(b)
    requires ConsistentOutcomes(a, target, today)
    ensures StreakOf(a, target, today) == StreakOf(b, target, today)
  {
    AchievedMapOrderIndependent(a, b, target, today);
    assert |a| == |multiset(a)| == |multiset(b)| == |b|;
  }

  /** An achieved day with a four-digit year is among the parsed achieved day numbers. */
  lemma AchievedDayCounted(m: map<string, bool>, e: Date, x: int)
    requires ValidDate(e) && 1000 <= e.year <= 9999 && IsAchieved(m, FormatDate(e)) && x == DayNumber(e)
    ensures x in AchievedDayNumbers(m)
  {
    ParseFormatDate(e);
    var k := FormatDate(e);
    assert k in m && m[k] && ParseDate(k).Some? && DayNumber(ParseDate(k).value) == x;
  }


  /** The day `i` steps back from `s`, when achieved and not before 1000-01-01, is a counted day. */
  lemma BackDayCounted(m: map<string, bool>, s: Date, i: nat, x: int)
    requires ValidDate(s) && s.year <= 9999 && BackAchieved(m, s)(i)
    requires x == DayNumber(s) - i && x >= DayNumber(Date(1000, 1, 1))
    ensures x in AchievedDayNumbers(m)
  {
    BackDateBounds(s, i);
    AchievedDayCounted(m, DaysBack(s, i), x);
  }


  /** A day reached by walking back from a date of year at most 9999, and not before 1000-01-01, keeps a four-digit year. */
  lemma BackDateBounds(s: Date, i: nat)
    requires ValidDate(s) && s.year <= 9999
    requires DayNumber(s) - i >= DayNumber(Date(1000, 1, 1))
    ensures 1000 <= DaysBack(s, i).year <= 9999
    ensures DayNumber(DaysBack(s, i)) == DayNumber(s) - i
  {
    var e := DaysBack(s, i);
    DaysBackDayNumber(s, i);
    DayNumberOrder(e, Date(1000, 1, 1));
    DayNumberOrder(e, s);
  }


  /** The days counted walking back from s, when none is before 1000-01-01, form a run of parsed achieved days. */
  lemma WalkBackCounted(m: map<string, bool>, s: Date)
    requires ValidDate(s) && s.year <= 9999
    requires DayNumber(s) - RunFrom(BackAchieved(m, s), 0, |m|) + 1 >= DayNumber(Date(1000, 1, 1))
    ensures var n := RunFrom(BackAchieved(m, s), 0, |m|);
      IsRun(AchievedDayNumbers(m), DayNumber(s) - n + 1, n)
  {
    var n := RunFrom(BackAchieved(m, s), 0, |m|);
    var base := DayNumber(s);
    var first := base - n + 1;
    WalkBackRun(m, s);
    forall x | first <= x < first + n
      ensures x in AchievedDayNumbers(m)
    {
      BackDayCounted(m, s, base - x, x);
    }
  }


  /**
   * Unless the current run reaches back before the year 1000, its days are
   * a run among the parsed achieved days, so it is no longer than the
   * longest run.
   */
  lemma CurrentWithinLongest(m: map<string, bool>, today: string)
    requires ParseDate(today).Some?
    ensures var n := CurrentStreakOf(m, today);
      n <= LongestRun(AchievedDayNumbers(m))
      || DayNumber(ParseDate(today).value) - n < DayNumber(Date(1000, 1, 1))
  {
    var t := ParseDate(today).value;
    var s := CurrentStart(m, today).value;
    var n := CurrentStreakOf(m, today);
    if DayNumber(t) - n >= DayNumber(Date(1000, 1, 1)) {
      assert DayNumber(t) - 1 <= DayNumber(s) <= DayNumber(t) && s.year <= 9999 by {
        if !IsAchieved(m, today) {
          DayNumberPrev(t);
        }
      }
      WalkBackCounted(m, s);
      LongestRunIsLongest(AchievedDayNumbers(m));
    }
  }

  lemma SingleRecordMap(d: Date, value: real, target: real)
    requires ValidDate(d) && 1000 <= d.year <= 9999 && value >= target
    ensures AchievedMap([DailyRecord(FormatDate(d), value)], target, FormatDate(d)) == map[FormatDate(d) := true]
  {
    var today := FormatDate(d);
    StrLessIrreflexive(today);
    FormatDateNotBlank(d);
    AchievedMapSingle(DailyRecord(today, value), target, today);
  }

  /** A formatted date has a dash at index 4, so it is never blank. */
  lemma FormatDateNotBlank(d: Date)
    requires ValidDate(d) && 1000 <= d.year <= 9999
    ensures !IsBlank(FormatDate(d))
  {
    FormatDateParts(d);
    assert FormatDate(d)[4] == '-';
  }

  /** One admitted record yields a map with its one date. */
  lemma AchievedMapSingle(r: DailyRecord, target: real, today: string)
    requires Admitted(r, today)
    ensures AchievedMap([r], target, today) == map[r.date := r.value >= target]
  {
    assert [r][..0] == [];
  }


  lemma SingleDayCurrent(d: Date)
    requires ValidDate(d) && 1000 <= d.year <= 9999
    ensures CurrentStreakOf(map[FormatDate(d) := true], FormatDate(d)) == 1
  {
    var m := map[FormatDate(d) := true];
    ParseFormatDate(d);
    assert CurrentStart(m, FormatDate(d)) == Some(d);
    assert BackAchieved(m, d)(0);
    assert RunFrom(BackAchieved(m, d), 1, 0) == 0;
  }

  lemma SingleDayLongest(d: Date)
    requires ValidDate(d) && 1000 <= d.year <= 9999
    ensures LongestRun(AchievedDayNumbers(map[FormatDate(d) := true])) == 1
  {
    SingleMapDays(d);
    SingletonLongest(DayNumber(d));
  }

  /** The map of one achieved formatted date counts exactly that day. */
  lemma SingleMapDays(d: Date)
    requires ValidDate(d) && 1000 <= d.year <= 9999
    ensures AchievedDayNumbers(map[FormatDate(d) := true]) == {DayNumber(d)}
  {
    ParseFormatDate(d);
  }

  /** One day on its own is a longest run of length 1. */
  lemma SingletonLongest(x: int)
    ensures LongestRun({x}) == 1
  {
    var days := {x};
    assert IsLongestRun(days, 1) by {
      assert IsRun(days, x, 1);
      forall first, k: nat | IsRun(days, first, k) ensures k <= 1 {
        RunWithinSize(days, first, k);
      }
    }
    LongestRunIsLongest(days);
    LongestRunUnique(days, 1, LongestRun(days));
  }


  /** A single achieved record dated today gives a streak of one, both current and best. */
  lemma OneAchievedDay(d: Date, value: real, target: real)
    requires ValidDate(d) && 1000 <= d.year <= 9999 && value >= target
    ensures StreakOf([DailyRecord(FormatDate(d), value)], target, FormatDate(d)) == StreakResult(1, 1)
  {
    SingleRecordMap(d, value, target);
    SingleDayCurrent(d);
    SingleDayLongest(d);
  }
}
