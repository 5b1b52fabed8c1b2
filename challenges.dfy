/**
 * The challenge tables and the operations that change them: joining and withdrawing (which keep the
 * challenge's `participantCount`), goal and notification edits, the daily record upsert (which keeps the
 * participation's `achievedDays`), and the record lookup that splits the id list into chunks of 30.
 * Each table is a map from document id to document; each batch of writes is one method.
 */
module Challenges {
  import opened Wrappers
  import opened Calendar
  import opened ChallengeRules
  import opened Counting

  /** Notification time given to a participation whose input names none. */
  const DefaultNotificationTime: string := "20:00"

  /** Largest id list one `in` query accepts. */
  const ChunkSize: nat := 30

  datatype Goal = Goal(category: string, name: string, targetValue: real, unit: string, icon: Option<string>)

  /** A user's entry in a challenge; `teamId` is assigned when the challenge starts. */
  datatype Participation = Participation(
    challengeId: string, teamId: Option<string>, userId: string, goal: Goal, isPaid: bool,
    achievedDays: int, notificationTime: string, notificationEnabled: bool, joinedAt: int)

  /** One day's record of a participation; `date` is `YYYY-MM-DD`. */
  datatype ChallengeRecord = ChallengeRecord(
    participationId: string, date: string, value: real, achieved: bool, memo: Option<string>, createdAt: int)

  datatype JoinInput = JoinInput(challengeId: string, goal: Goal, notificationTime: Option<string>)

  datatype RecordInput = RecordInput(date: string, value: real, achieved: bool, memo: Option<string>)

  datatype ChallengeError =
    | ChallengeNotFound
    | NotUpcoming
    | InvalidGoalName
    | InvalidTargetValue
    | InvalidUnit
    | AlreadyJoined
    | NotWithdrawable
    | NotParticipating
    | InvalidDate
    | InvalidValue
    | MemoTooLong
    | ParticipationMissing
    | UndefinedMemo     // the batch refuses a document field whose value is `undefined`

  // ---------------------------------------------------------------------------------------------
  // Input checks
  // ---------------------------------------------------------------------------------------------

  /** The first goal limit a goal breaks: name 1 to 100 characters, target in (0, 10000], unit 1 to 20 characters. */
  function GoalError(g: Goal): (e: Option<ChallengeError>)
    ensures e.None? <==> 1 <= |g.name| <= 100 && 0.0 < g.targetValue <= 10000.0 && 1 <= |g.unit| <= 20
    ensures e.Some? ==> e.value == InvalidGoalName || e.value == InvalidTargetValue || e.value == InvalidUnit
    ensures e == Some(InvalidTargetValue) ==> 1 <= |g.name| <= 100
    ensures e == Some(InvalidUnit) ==> 1 <= |g.name| <= 100 && 0.0 < g.targetValue <= 10000.0
  {
    if g.name == "" || |g.name| > 100 then Some(InvalidGoalName)
    else if g.targetValue <= 0.0 || g.targetValue > 10000.0 then Some(InvalidTargetValue)
    else if g.unit == "" || |g.unit| > 20 then Some(InvalidUnit)
    else None
  }

  /** The first record limit an input breaks: the date pattern, a value in [0, 100000], a memo of at most 500 characters. */
  function RecordInputError(input: RecordInput): (e: Option<ChallengeError>)
    ensures e.None? <==>
      IsDateShape(input.date) && 0.0 <= input.value <= 100000.0 && (input.memo.Some? ==> |input.memo.value| <= 500)
    ensures !IsDateShape(input.date) ==> e == Some(InvalidDate)
    ensures e == Some(MemoTooLong) ==> IsDateShape(input.date) && 0.0 <= input.value <= 100000.0
  {
    if input.date == "" || !IsDateShape(input.date) then Some(InvalidDate)
    else if input.value < 0.0 || input.value > 100000.0 then Some(InvalidValue)
    else if input.memo.Some? && input.memo.value != "" && |input.memo.value| > 500 then Some(MemoTooLong)
    else None
  }

  /** `input.notificationTime || '20:00'`: an absent or empty time falls back to the default. */
  function NotificationTimeOf(t: Option<string>): (s: string)
    ensures s != ""
    ensures t.Some? && t.value != "" ==> s == t.value
  {
    if t.Some? && t.value != "" then t.value else DefaultNotificationTime
  }

  /** `memo || null`: the memo an updated record keeps, an empty memo stored as none. */
  function StoredMemo(memo: Option<string>): (m: Option<string>)
    ensures m.Some? <==> memo.Some? && memo.value != ""
    ensures m.Some? ==> m == memo
  {
    if memo.Some? && memo.value != "" then memo else None
  }

  /** The participation a successful join stores. */
  function NewParticipation(userId: string, input: JoinInput, isFirst: bool, now: int): (p: Participation)
    ensures p.challengeId == input.challengeId && p.userId == userId && p.goal == input.goal
    ensures p.teamId == None && p.achievedDays == 0 && p.notificationEnabled
    ensures p.isPaid == isFirst && p.joinedAt == now
    ensures p.notificationTime == NotificationTimeOf(input.notificationTime)
  {
    Participation(input.challengeId, None, userId, input.goal, isFirst, 0,
                  NotificationTimeOf(input.notificationTime), true, now)
  }

  // ---------------------------------------------------------------------------------------------
  // Counting over tables
  // ---------------------------------------------------------------------------------------------

  /** Ids of the participations in challenge `cid`. */
  function ParticipantIds(ps: map<string, Participation>, cid: string): set<string>
  {
    set id | id in ps && ps[id].challengeId == cid
  }

  /** Number of participations in challenge `cid`. */
  function ParticipantsOf(ps: map<string, Participation>, cid: string): nat
  {
    |ParticipantIds(ps, cid)|
  }

  /** Ids of the achieved records of participation `pid`. */
  function AchievedIds(rs: map<string, ChallengeRecord>, pid: string): set<string>
  {
    set id | id in rs && rs[id].participationId == pid && rs[id].achieved
  }

  /** Number of achieved records of participation `pid`. */
  function AchievedOf(rs: map<string, ChallengeRecord>, pid: string): nat
  {
    |AchievedIds(rs, pid)|
  }

  /** Writing one participation changes the count of a challenge by what the old and new documents contribute. */
  lemma ParticipantsAfterSet(ps: map<string, Participation>, id: string, p: Participation, cid: string)
    ensures ParticipantsOf(ps[id := p], cid)
         == ParticipantsOf(ps, cid) - (if id in ps && ps[id].challengeId == cid then 1 else 0)
            + (if p.challengeId == cid then 1 else 0)
  {
    var before, after := ParticipantIds(ps, cid), ParticipantIds(ps[id := p], cid);
    assert before - {id} == after - {id};
    CardAfterSwap(before, after, id);
  }

  /** Deleting one participation lowers the count of its own challenge by one and no other count. */
  lemma ParticipantsAfterDelete(ps: map<string, Participation>, id: string, cid: string)
    ensures ParticipantsOf(ps - {id}, cid)
         == ParticipantsOf(ps, cid) - (if id in ps && ps[id].challengeId == cid then 1 else 0)
  {
    var before, after := ParticipantIds(ps, cid), ParticipantIds(ps - {id}, cid);
    assert before - {id} == after - {id};
    CardAfterSwap(before, after, id);
  }

  /** Writing one record changes the achieved count of a participation by what the old and new documents contribute. */
  lemma AchievedAfterSet(rs: map<string, ChallengeRecord>, id: string, r: ChallengeRecord, pid: string)
    ensures AchievedOf(rs[id := r], pid)
         == AchievedOf(rs, pid) - (if id in rs && rs[id].participationId == pid && rs[id].achieved then 1 else 0)
            + (if r.participationId == pid && r.achieved then 1 else 0)
  {
    var before, after := AchievedIds(rs, pid), AchievedIds(rs[id := r], pid);
    assert before - {id} == after - {id};
    CardAfterSwap(before, after, id);
  }

  /** A participation id that no record mentions has no achieved records. */
  lemma AchievedOfUnused(rs: map<string, ChallengeRecord>, pid: string)
    requires forall id :: id in rs ==> rs[id].participationId != pid
    ensures AchievedOf(rs, pid) == 0
  {
    assert AchievedIds(rs, pid) == {};
  }

  // ---------------------------------------------------------------------------------------------
  // Chunking
  // ---------------------------------------------------------------------------------------------

  function Flatten(chunks: seq<seq<string>>): (s: seq<string>)
  {
    if chunks == [] then [] else Flatten(chunks[..|chunks| - 1]) + chunks[|chunks| - 1]
  }

  /** `Math.ceil(a / d)` is the only `q` with `(q - 1) * d < a <= q * d`. */
  lemma CeilDivUnique(a: int, d: int, q: int)
    requires d > 0 && (q - 1) * d < a <= q * d
    ensures q == CeilDiv(a, d)
  {
    var c := CeilDiv(a, d);
    if q < c {
      MulLeCancel(q, c - 1, d);
    } else if c < q {
      MulLeCancel(c, q - 1, d);
    }
  }

  /** Multiplying by a positive factor keeps the order. */
  lemma MulLeCancel(a: int, b: int, d: int)
    requires d > 0 && a <= b
    ensures a * d <= b * d
  {
  }

  /**
   * Split an id list into the consecutive slices `ids[i .. i + 30]` for i = 0, 30, 60, ...: they cover the
   * list in order, each holds 1 to 30 ids, all but the last exactly 30, and there are ceil(n / 30) of them.
   */
  method ChunkIds(ids: seq<string>) returns (chunks: seq<seq<string>>)
    ensures Flatten(chunks) == ids
    ensures forall j :: 0 <= j < |chunks| ==> 0 < |chunks[j]| <= ChunkSize
    ensures forall j :: 0 <= j < |chunks| - 1 ==> |chunks[j]| == ChunkSize
    ensures |chunks| == CeilDiv(|ids|, ChunkSize)
  {
    chunks := [];
    var i := 0;
    while i < |ids|
      invariant i == ChunkSize * |chunks|
      invariant i == 0 || i - ChunkSize < |ids|
      invariant Flatten(chunks) == ids[..if i < |ids| then i else |ids|]
      invariant forall j :: 0 <= j < |chunks| ==> 0 < |chunks[j]| <= ChunkSize
      invariant forall j :: 0 <= j < |chunks| - 1 ==> |chunks[j]| == ChunkSize
      invariant i < |ids| ==> forall j :: 0 <= j < |chunks| ==> |chunks[j]| == ChunkSize
    {
      var end := if i + ChunkSize < |ids| then i + ChunkSize else |ids|;
      var chunk := ids[i..end];
      assert (chunks + [chunk])[..|chunks|] == chunks;
      assert ids[..end] == ids[..i] + chunk;
      chunks := chunks + [chunk];
      i := i + ChunkSize;
    }
    assert ids[..|ids|] == ids;
    CeilDivUnique(|ids|, ChunkSize, |chunks|);
  }

  /** Every id of the list lies in some chunk, and every id of a chunk lies in the list. */
  lemma {:induction false} FlattenMembers(chunks: seq<seq<string>>, x: string)
    ensures x in Flatten(chunks) <==> exists j :: 0 <= j < |chunks| && x in chunks[j]
  {
    if chunks != [] {
      var n := |chunks| - 1;
      FlattenMembers(chunks[..n], x);
      if x in chunks[n] {
        assert x in Flatten(chunks);
      }
      if exists j :: 0 <= j < n && x in chunks[..n][j] {
        var j :| 0 <= j < n && x in chunks[..n][j];
        assert x in chunks[j];
      }
      if exists j :: 0 <= j < |chunks| && x in chunks[j] {
        var j :| 0 <= j < |chunks| && x in chunks[j];
        if j < n { assert x in chunks[..n][j]; }
      }
    }
  }


  // ---------------------------------------------------------------------------------------------
  // Table invariants and the writes that keep them
  // ---------------------------------------------------------------------------------------------

  /** A user has at most one participation in each challenge. */
  ghost predicate OneParticipationEach(ps: map<string, Participation>)
  {
    forall a, b :: a in ps && b in ps && ps[a].userId == ps[b].userId && ps[a].challengeId == ps[b].challengeId
      ==> a == b
  }

  /** A participation has at most one record for each date. */
  ghost predicate OneRecordEach(rs: map<string, ChallengeRecord>)
  {
    forall a, b :: a in rs && b in rs && rs[a].participationId == rs[b].participationId && rs[a].date == rs[b].date
      ==> a == b
  }

  /** Every participation's `achievedDays` is the number of its achieved records. */
  ghost predicate AchievedDaysCounted(ps: map<string, Participation>, rs: map<string, ChallengeRecord>)
  {
    forall pid :: pid in ps ==> ps[pid].achievedDays == AchievedOf(rs, pid)
  }

  /** Every challenge's `participantCount` is the number of its participations. */
  ghost predicate CountersAgree(cs: map<string, Challenge>, ps: map<string, Participation>)
  {
    forall cid :: cid in cs ==> cs[cid].participantCount == ParticipantsOf(ps, cid)
  }

  predicate Joined(ps: map<string, Participation>, userId: string, cid: string)
  {
    exists id :: id in ps && ps[id].userId == userId && ps[id].challengeId == cid
  }

  /** The challenge with its `participantCount` moved by `delta`. */
  function Counted(c: Challenge, delta: int): (c': Challenge)
    ensures c'.participantCount == c.participantCount + delta
    ensures c'.(participantCount := c.participantCount) == c
  {
    c.(participantCount := c.participantCount + delta)
  }

  /** The key of the record of participation `pid` on `date`, if there is one. */
  ghost function RecordKey(rs: map<string, ChallengeRecord>, pid: string, date: string): (k: Option<string>)
    ensures k.None? <==> forall id :: id in rs ==> !(rs[id].participationId == pid && rs[id].date == date)
    ensures k.Some? ==> k.value in rs && rs[k.value].participationId == pid && rs[k.value].date == date
  {
    if exists id :: id in rs && rs[id].participationId == pid && rs[id].date == date then
      var id :| id in rs && rs[id].participationId == pid && rs[id].date == date;
      Some(id)
    else None
  }

  /** A join under a fresh id adds one to the count of its challenge only. */
  lemma JoinKeepsCounters(cs: map<string, Challenge>, ps: map<string, Participation>, id: string, p: Participation)
    requires CountersAgree(cs, ps) && id !in ps && p.challengeId in cs
    ensures CountersAgree(cs[p.challengeId := Counted(cs[p.challengeId], 1)], ps[id := p])
  {
    forall k | k in cs {
      ParticipantsAfterSet(ps, id, p, k);
    }
  }

  /** A join under a fresh id that no record mentions, with no achieved days, keeps the achieved counts. */
  lemma JoinKeepsAchievedDays(ps: map<string, Participation>, rs: map<string, ChallengeRecord>, id: string,
                              p: Participation)
    requires AchievedDaysCounted(ps, rs) && id !in ps && p.achievedDays == 0
    requires forall k :: k in rs ==> rs[k].participationId != id
    ensures AchievedDaysCounted(ps[id := p], rs)
  {
    AchievedOfUnused(rs, id);
  }

  /** A join by a user who is not in that challenge yet keeps one participation per user and challenge. */
  lemma JoinKeepsOneEach(ps: map<string, Participation>, id: string, p: Participation)
    requires OneParticipationEach(ps) && id !in ps && !Joined(ps, p.userId, p.challengeId)
    ensures OneParticipationEach(ps[id := p])
  {
  }

  /** Deleting a participation of a challenge and counting that challenge down keeps every count. */
  lemma WithdrawKeepsCounters(cs: map<string, Challenge>, ps: map<string, Participation>, id: string)
    requires CountersAgree(cs, ps) && id in ps && ps[id].challengeId in cs
    ensures CountersAgree(cs[ps[id].challengeId := Counted(cs[ps[id].challengeId], -1)], ps - {id})
  {
    forall k | k in cs {
      ParticipantsAfterDelete(ps, id, k);
    }
  }

  /** Rewriting a participation's own fields, its user, challenge and achieved days kept, keeps all invariants. */
  lemma EditKeepsInvariants(cs: map<string, Challenge>, ps: map<string, Participation>,
                            rs: map<string, ChallengeRecord>, id: string, p: Participation)
    requires id in ps && p.userId == ps[id].userId && p.challengeId == ps[id].challengeId
    requires p.achievedDays == ps[id].achievedDays
    ensures CountersAgree(cs, ps) ==> CountersAgree(cs, ps[id := p])
    ensures OneParticipationEach(ps) ==> OneParticipationEach(ps[id := p])
    ensures AchievedDaysCounted(ps, rs) ==> AchievedDaysCounted(ps[id := p], rs)
  {
    forall k | k in cs {
      ParticipantsAfterSet(ps, id, p, k);
    }
  }

  /** `ps'` has the participations of `ps`, each unchanged except perhaps for its `achievedDays`. */
  ghost predicate OnlyAchievedDaysMoved(ps: map<string, Participation>, ps': map<string, Participation>)
  {
    (forall k :: k in ps' <==> k in ps) && forall k :: k in ps ==> ps'[k] == ps[k].(achievedDays := ps'[k].achievedDays)
  }

  /** Moving a participation's achieved days keeps the challenge counts and one participation per user. */
  lemma RecountKeepsInvariants(cs: map<string, Challenge>, ps: map<string, Participation>, id: string, n: int)
    requires id in ps
    ensures CountersAgree(cs, ps) ==> CountersAgree(cs, ps[id := ps[id].(achievedDays := n)])
    ensures OneParticipationEach(ps) ==> OneParticipationEach(ps[id := ps[id].(achievedDays := n)])
    ensures OnlyAchievedDaysMoved(ps, ps[id := ps[id].(achievedDays := n)])
  {
    forall k | k in cs {
      ParticipantsAfterSet(ps, id, ps[id].(achievedDays := n), k);
    }
  }

  /** Writing the record of a (participation, date) pair under that pair's only key keeps one record per pair. */
  lemma RecordWriteKeepsOneEach(rs: map<string, ChallengeRecord>, id: string, r: ChallengeRecord)
    requires OneRecordEach(rs)
    requires id in rs ==> rs[id].participationId == r.participationId && rs[id].date == r.date
    requires RecordKey(rs, r.participationId, r.date).Some? ==> RecordKey(rs, r.participationId, r.date) == Some(id)
    ensures OneRecordEach(rs[id := r])
  {
  }

  /**
   * Writing a record of participation `pid` moves its achieved count by what the record gains or loses;
   * adding that difference to `achievedDays` keeps every count, and a participation that does not exist
   * has nothing to keep.
   */
  lemma RecordWriteKeepsAchievedDays(ps: map<string, Participation>, rs: map<string, ChallengeRecord>, id: string,
                                     r: ChallengeRecord, delta: int)
    requires AchievedDaysCounted(ps, rs)
    requires id in rs ==> rs[id].participationId == r.participationId
    requires delta == (if r.achieved then 1 else 0) - (if id in rs && rs[id].achieved then 1 else 0)
    ensures r.participationId in ps ==> AchievedDaysCounted(
      ps[r.participationId := ps[r.participationId].(achievedDays := ps[r.participationId].achievedDays + delta)],
      rs[id := r])
    ensures r.participationId !in ps || delta == 0 ==> AchievedDaysCounted(ps, rs[id := r])
  {
    forall q | q in ps {
      AchievedAfterSet(rs, id, r, q);
    }
  }

  // ---------------------------------------------------------------------------------------------
  // The tables
  // ---------------------------------------------------------------------------------------------

  class ChallengeStore {
    var challenges: map<string, Challenge>
    var participations: map<string, Participation>
    var records: map<string, ChallengeRecord>

    ghost predicate Valid()
      reads this
    {
      OneParticipationEach(participations) && OneRecordEach(records) && AchievedDaysCounted(participations, records)
    }

    /** Every challenge's `participantCount` is the number of its participations. */
    ghost predicate Agreed()
      reads this
    {
      CountersAgree(challenges, participations)
    }

    predicate HasAnyParticipation(userId: string)
      reads this
    {
      exists id :: id in participations && participations[id].userId == userId
    }

    constructor (cs: map<string, Challenge>, ps: map<string, Participation>, rs: map<string, ChallengeRecord>)
      ensures challenges == cs && participations == ps && records == rs
    {
      challenges, participations, records := cs, ps, rs;
    }

    /** `getChallenge`: the challenge with that id, if any. */
    method GetChallenge(cid: string) returns (r: Option<Challenge>)
      ensures r.Some? <==> cid in challenges
      ensures r.Some? ==> r.value == challenges[cid]
    {
      if cid in challenges {
        r := Some(challenges[cid]);
      } else {
        r := None;
      }
    }

    /** `getMyParticipation`: the user's participation in the challenge, which is unique when there is one. */
    method GetMyParticipation(userId: string, cid: string) returns (r: Option<string>)
      requires Valid()
      ensures r.None? <==> !Joined(participations, userId, cid)
      ensures r.Some? ==> r.value in participations && participations[r.value].userId == userId
                          && participations[r.value].challengeId == cid
      ensures r.Some? ==> forall id :: (id in participations && participations[id].userId == userId
                          && participations[id].challengeId == cid) ==> id == r.value
    {
      if Joined(participations, userId, cid) {
        var id :| id in participations && participations[id].userId == userId && participations[id].challengeId == cid;
        r := Some(id);
      } else {
        r := None;
      }
    }

    /**
     * `joinChallenge`: the challenge must exist and be upcoming, the goal must be within its limits, and the
     * user must not have joined yet; then one batch stores the new participation under the fresh id `newId`
     * and adds one to the challenge's `participantCount`. The first participation of a user is the paid one.
     */
    method JoinChallenge(userId: string, input: JoinInput, newId: string, now: int)
      returns (r: Result<Participation, ChallengeError>)
      requires Valid()
      requires newId !in participations && forall id :: id in records ==> records[id].participationId != newId
      modifies this
      ensures Valid()
      ensures old(Agreed()) ==> Agreed()
      ensures records == old(records)
      ensures input.challengeId !in old(challenges) ==> r == Err(ChallengeNotFound)
      ensures (input.challengeId in old(challenges) && old(challenges)[input.challengeId].status != Upcoming)
              ==> r == Err(NotUpcoming)
      ensures (input.challengeId in old(challenges) && old(challenges)[input.challengeId].status == Upcoming
               && GoalError(input.goal).Some?) ==> r == Err(GoalError(input.goal).value)
      ensures (input.challengeId in old(challenges) && old(challenges)[input.challengeId].status == Upcoming
               && GoalError(input.goal).None? && Joined(old(participations), userId, input.challengeId))
              ==> r == Err(AlreadyJoined)
      ensures r.Ok? <==> (input.challengeId in old(challenges) && old(challenges)[input.challengeId].status == Upcoming
                          && GoalError(input.goal).None? && !Joined(old(participations), userId, input.challengeId))
      ensures r.Err? ==> challenges == old(challenges) && participations == old(participations)
      ensures r.Ok? ==>
        r.value == NewParticipation(userId, input, !old(HasAnyParticipation(userId)), now) &&
        participations == old(participations)[newId := r.value] &&
        challenges == old(challenges)[input.challengeId := Counted(old(challenges)[input.challengeId], 1)]
    {
      var cid := input.challengeId;
      var challenge := GetChallenge(cid);
      if challenge.None? {
        return Err(ChallengeNotFound);
      }
      if challenge.value.status != Upcoming {
        return Err(NotUpcoming);
      }
      var goalError := GoalError(input.goal);
      if goalError.Some? {
        return Err(goalError.value);
      }
      var existing := GetMyParticipation(userId, cid);
      if existing.Some? {
        return Err(AlreadyJoined);
      }
      var isFirst := !HasAnyParticipation(userId);
      var p := NewParticipation(userId, input, isFirst, now);
      JoinKeepsOneEach(participations, newId, p);
      JoinKeepsAchievedDays(participations, records, newId, p);
      if Agreed() {
        JoinKeepsCounters(challenges, participations, newId, p);
      }
      participations := participations[newId := p];
      challenges := challenges[cid := Counted(challenge.value, 1)];
      r := Ok(p);
    }

    /** `updateGoal`: replaces the goal of an existing participation; the goal is not checked against the join limits. */
    method UpdateGoal(pid: string, goal: Goal) returns (r: Result<(), ChallengeError>)
      requires Valid()
      modifies this
      ensures Valid() && (old(Agreed()) ==> Agreed())
      ensures challenges == old(challenges) && records == old(records)
      ensures r.Ok? <==> pid in old(participations)
      ensures r.Err? ==> r.error == ParticipationMissing && participations == old(participations)
      ensures r.Ok? ==> participations == old(participations)[pid := old(participations)[pid].(goal := goal)]
    {
      if pid !in participations {
        return Err(ParticipationMissing);
      }
      var p := participations[pid].(goal := goal);
      EditKeepsInvariants(challenges, participations, records, pid, p);
      participations := participations[pid := p];
      r := Ok(());
    }

    /** `updateNotification`: sets the time and the on/off flag of an existing participation. */
    method UpdateNotification(pid: string, time: string, enabled: bool) returns (r: Result<(), ChallengeError>)
      requires Valid()
      modifies this
      ensures Valid() && (old(Agreed()) ==> Agreed())
      ensures challenges == old(challenges) && records == old(records)
      ensures r.Ok? <==> pid in old(participations)
      ensures r.Err? ==> r.error == ParticipationMissing && participations == old(participations)
      ensures r.Ok? ==> participations == old(participations)[pid :=
                          old(participations)[pid].(notificationTime := time, notificationEnabled := enabled)]
    {
      if pid !in participations {
        return Err(ParticipationMissing);
      }
      var p := participations[pid].(notificationTime := time, notificationEnabled := enabled);
      EditKeepsInvariants(challenges, participations, records, pid, p);
      participations := participations[pid := p];
      r := Ok(());
    }

    /**
     * `withdrawFromChallenge` as written: only an upcoming challenge may be left; one batch deletes the
     * participation document and subtracts one from the challenge's `participantCount`. Neither the existence
     * of the participation nor its challenge is checked, so the counter keeps agreeing only when the
     * participation exists and belongs to that challenge.
     */
    method WithdrawFromChallenge(pid: string, cid: string) returns (r: Result<(), ChallengeError>)
      requires Valid()
      modifies this
      ensures Valid()
      ensures records == old(records)
      ensures r.Ok? <==> cid in old(challenges) && old(challenges)[cid].status == Upcoming
      ensures r.Err? ==> r.error == NotWithdrawable && challenges == old(challenges)
                         && participations == old(participations)
      ensures r.Ok? ==> participations == old(participations) - {pid}
                        && challenges == old(challenges)[cid := Counted(old(challenges)[cid], -1)]
      ensures (r.Ok? && old(Agreed()) && pid in old(participations) && old(participations)[pid].challengeId == cid)
              ==> Agreed()
    {
      var challenge := GetChallenge(cid);
      if challenge.None? || challenge.value.status != Upcoming {
        return Err(NotWithdrawable);
      }
      if Agreed() && pid in participations && participations[pid].challengeId == cid {
        WithdrawKeepsCounters(challenges, participations, pid);
      }
      participations := participations - {pid};
      challenges := challenges[cid := Counted(challenge.value, -1)];
      r := Ok(());
    }

    /**
     * Withdrawal that also rejects a participation that is missing or belongs to another challenge, so that
     * every accepted withdrawal removes exactly the participation it counts down for.
     */
    method WithdrawChecked(pid: string, cid: string) returns (r: Result<(), ChallengeError>)
      requires Valid()
      modifies this
      ensures Valid()
      ensures old(Agreed()) ==> Agreed()
      ensures records == old(records)
      ensures r.Ok? <==> cid in old(challenges) && old(challenges)[cid].status == Upcoming
                         && pid in old(participations) && old(participations)[pid].challengeId == cid
      ensures r.Err? ==> challenges == old(challenges) && participations == old(participations)
      ensures r.Ok? ==> participations == old(participations) - {pid}
                        && challenges == old(challenges)[cid := Counted(old(challenges)[cid], -1)]
    {
      var challenge := GetChallenge(cid);
      if challenge.None? || challenge.value.status != Upcoming {
        return Err(NotWithdrawable);
      }
      if pid !in participations || participations[pid].challengeId != cid {
        return Err(NotParticipating);
      }
      r := WithdrawFromChallenge(pid, cid);
    }

    /**
     * `upsertRecord`: after the input checks, the record of that participation and date is updated if there is
     * one, and created under the fresh id `newId` otherwise. `achievedDays` follows the achieved records: it
     * moves by one when an existing record's `achieved` flips and grows by one for a new achieved record.
     * Updating a participation that does not exist fails: in the update path after the record was already
     * written, in the create path before anything is written (the batch fails as a whole). As written, the
     * create path also fails for an input without a memo.
     */
    method UpsertRecord(pid: string, input: RecordInput, newId: string, now: int)
      returns (r: Result<(string, ChallengeRecord), ChallengeError>)
      requires Valid()
      requires newId !in records
      modifies this
      ensures Valid()
      ensures old(Agreed()) ==> Agreed()
      ensures challenges == old(challenges)
      ensures RecordInputError(input).Some? ==>
        r == Err(RecordInputError(input).value) && records == old(records) && participations == old(participations)
      ensures r.Err? ==> r.error in {ParticipationMissing, UndefinedMemo} || RecordInputError(input).Some?
      ensures r.Ok? <==> (RecordInputError(input).None? &&
        (if RecordKey(old(records), pid, input.date).Some?
         then pid in old(participations)
              || old(records)[RecordKey(old(records), pid, input.date).value].achieved == input.achieved
         else input.memo.Some? && (pid in old(participations) || !input.achieved)))
      ensures RecordInputError(input).None? && RecordKey(old(records), pid, input.date).None? && input.memo.None? ==>
        r == Err(UndefinedMemo)
      ensures RecordInputError(input).None? && RecordKey(old(records), pid, input.date).Some? ==>
        var k := RecordKey(old(records), pid, input.date).value;
        records == old(records)[k := old(records)[k].(value := input.value, achieved := input.achieved,
                                                       memo := StoredMemo(input.memo))]
        && (r.Ok? ==> r.value == (k, records[k].(memo := input.memo)))
      ensures RecordInputError(input).None? && RecordKey(old(records), pid, input.date).None? && r.Ok? ==>
        records == old(records)[newId := ChallengeRecord(pid, input.date, input.value, input.achieved, input.memo, now)]
        && r.value == (newId, records[newId])
      ensures RecordKey(old(records), pid, input.date).None? && r.Err? ==> records == old(records)
      ensures OnlyAchievedDaysMoved(old(participations), participations)
    {
      var inputError := RecordInputError(input);
      if inputError.Some? {
        return Err(inputError.value);
      }
      if exists id :: id in records && records[id].participationId == pid && records[id].date == input.date {
        var id :| id in records && records[id].participationId == pid && records[id].date == input.date;
        assert RecordKey(records, pid, input.date) == Some(id);
        r := UpdateRecord(id, input);
      } else {
        r := CreateRecord(pid, input, newId, now);
      }
    }

    /**
     * `upsertRecord` with the corrected create path: both paths store the memo as `memo || null`, so whichever
     * path runs, a successful save leaves the same memo in the database and returns the input's memo.
     */
    method UpsertRecordChecked(pid: string, input: RecordInput, newId: string, now: int)
      returns (r: Result<(string, ChallengeRecord), ChallengeError>)
      requires Valid()
      requires newId !in records
      modifies this
      ensures Valid()
      ensures old(Agreed()) ==> Agreed()
      ensures challenges == old(challenges)
      ensures RecordInputError(input).Some? ==>
        r == Err(RecordInputError(input).value) && records == old(records) && participations == old(participations)
      ensures r.Err? ==> r.error == ParticipationMissing || RecordInputError(input).Some?
      ensures r.Ok? <==> (RecordInputError(input).None? && (pid in old(participations) ||
        (if RecordKey(old(records), pid, input.date).Some?
         then old(records)[RecordKey(old(records), pid, input.date).value].achieved == input.achieved
         else !input.achieved)))
      ensures r.Ok? ==> r.value.0 in records && records[r.value.0].memo == StoredMemo(input.memo)
                        && r.value.1 == records[r.value.0].(memo := input.memo)
      ensures RecordInputError(input).None? && RecordKey(old(records), pid, input.date).Some? ==>
        var k := RecordKey(old(records), pid, input.date).value;
        records == old(records)[k := old(records)[k].(value := input.value, achieved := input.achieved,
                                                       memo := StoredMemo(input.memo))]
      ensures RecordInputError(input).None? && RecordKey(old(records), pid, input.date).None? && r.Ok? ==>
        records == old(records)[newId := ChallengeRecord(pid, input.date, input.value, input.achieved,
                                                         StoredMemo(input.memo), now)]
      ensures RecordKey(old(records), pid, input.date).None? && r.Err? ==> records == old(records)
      ensures OnlyAchievedDaysMoved(old(participations), participations)
    {
      var inputError := RecordInputError(input);
      if inputError.Some? {
        return Err(inputError.value);
      }
      if exists id :: id in records && records[id].participationId == pid && records[id].date == input.date {
        var id :| id in records && records[id].participationId == pid && records[id].date == input.date;
        assert RecordKey(records, pid, input.date) == Some(id);
        r := UpdateRecord(id, input);
      } else {
        r := CreateRecordChecked(pid, input, newId, now);
      }
    }

    /** Writes the participations and records of one batch at once; the batch keeps the invariants. */
    method CommitRecords(ps: map<string, Participation>, rs: map<string, ChallengeRecord>)
      requires OneParticipationEach(ps) && OneRecordEach(rs) && AchievedDaysCounted(ps, rs)
      requires Agreed() ==> CountersAgree(challenges, ps)
      modifies this
      ensures Valid() && (old(Agreed()) ==> Agreed())
      ensures challenges == old(challenges) && participations == ps && records == rs
    {
      participations, records := ps, rs;
    }

    /** The update path of `upsertRecord`: the existing record `id` takes the input's value, flag and memo. */
    method UpdateRecord(id: string, input: RecordInput) returns (r: Result<(string, ChallengeRecord), ChallengeError>)
      requires Valid() && id in records
      modifies this
      ensures Valid()
      ensures old(Agreed()) ==> Agreed()
      ensures challenges == old(challenges)
      ensures var was := old(records)[id];
        records == old(records)[id := was.(value := input.value, achieved := input.achieved,
                                           memo := StoredMemo(input.memo))]
        && (r.Ok? <==> was.participationId in old(participations) || was.achieved == input.achieved)
        && (r.Ok? ==> r.value == (id, records[id].(memo := input.memo)))
        && (r.Err? ==> r.error == ParticipationMissing)
      ensures OnlyAchievedDaysMoved(old(participations), participations)
    {
      var existing := records[id];
      var pid := existing.participationId;
      var updated := existing.(value := input.value, achieved := input.achieved, memo := StoredMemo(input.memo));
      var delta := (if input.achieved then 1 else 0) - (if existing.achieved then 1 else 0);
      RecordWriteKeepsOneEach(records, id, updated);
      RecordWriteKeepsAchievedDays(participations, records, id, updated, delta);
      var ps := participations;
      if existing.achieved != input.achieved {
        if pid !in participations {
          CommitRecords(participations, records[id := updated]);
          return Err(ParticipationMissing);
        }
        var p := participations[pid];
        RecountKeepsInvariants(challenges, participations, pid, p.achievedDays + delta);
        ps := participations[pid := p.(achievedDays := p.achievedDays + delta)];
      }
      CommitRecords(ps, records[id := updated]);
      r := Ok((id, updated.(memo := input.memo)));
    }

    /**
     * The create path of `upsertRecord` as written: the new document carries `memo: input.memo`, and the batch
     * refuses a field whose value is `undefined`, so a record without a memo is never created. Otherwise the
     * record is stored under the fresh id `newId`.
     */
    method CreateRecord(pid: string, input: RecordInput, newId: string, now: int)
      returns (r: Result<(string, ChallengeRecord), ChallengeError>)
      requires Valid() && newId !in records && RecordKey(records, pid, input.date).None?
      modifies this
      ensures Valid()
      ensures old(Agreed()) ==> Agreed()
      ensures challenges == old(challenges)
      ensures r.Ok? <==> input.memo.Some? && (pid in old(participations) || !input.achieved)
      ensures input.memo.None? ==> r == Err(UndefinedMemo)
      ensures r.Err? ==> records == old(records) && participations == old(participations)
      ensures r.Err? && input.memo.Some? ==> r.error == ParticipationMissing
      ensures r.Ok? ==>
        records == old(records)[newId := ChallengeRecord(pid, input.date, input.value, input.achieved, input.memo, now)]
        && r.value == (newId, records[newId])
      ensures OnlyAchievedDaysMoved(old(participations), participations)
    {
      if input.memo.None? {
        return Err(UndefinedMemo);
      }
      r := AddRecord(newId, ChallengeRecord(pid, input.date, input.value, input.achieved, input.memo, now));
    }

    /**
     * The create path as evidently intended: the memo is stored as `memo || null`, as the update path stores it,
     * so a record without a memo is created like any other.
     */
    method CreateRecordChecked(pid: string, input: RecordInput, newId: string, now: int)
      returns (r: Result<(string, ChallengeRecord), ChallengeError>)
      requires Valid() && newId !in records && RecordKey(records, pid, input.date).None?
      modifies this
      ensures Valid()
      ensures old(Agreed()) ==> Agreed()
      ensures challenges == old(challenges)
      ensures r.Ok? <==> pid in old(participations) || !input.achieved
      ensures r.Err? ==> r.error == ParticipationMissing && records == old(records)
                         && participations == old(participations)
      ensures r.Ok? ==>
        records == old(records)[newId := ChallengeRecord(pid, input.date, input.value, input.achieved,
                                                         StoredMemo(input.memo), now)]
        && r.value == (newId, records[newId].(memo := input.memo))
      ensures OnlyAchievedDaysMoved(old(participations), participations)
    {
      var created := ChallengeRecord(pid, input.date, input.value, input.achieved, StoredMemo(input.memo), now);
      r := AddRecord(newId, created);
      if r.Ok? {
        r := Ok((newId, created.(memo := input.memo)));
      }
    }

    /**
     * One create batch: stores `created` under the fresh id `newId` and, when it is achieved, adds one to its
     * participation's `achievedDays`; that update fails the whole batch when the participation is missing.
     */
    method AddRecord(newId: string, created: ChallengeRecord) returns (r: Result<(string, ChallengeRecord), ChallengeError>)
      requires Valid() && newId !in records && RecordKey(records, created.participationId, created.date).None?
      modifies this
      ensures Valid()
      ensures old(Agreed()) ==> Agreed()
      ensures challenges == old(challenges)
      ensures r.Ok? <==> created.participationId in old(participations) || !created.achieved
      ensures r.Err? ==> r.error == ParticipationMissing && records == old(records)
                         && participations == old(participations)
      ensures r.Ok? ==> records == old(records)[newId := created] && r.value == (newId, created)
      ensures OnlyAchievedDaysMoved(old(participations), participations)
    {
      var pid := created.participationId;
      if created.achieved && pid !in participations {
        return Err(ParticipationMissing);
      }
      var delta := if created.achieved then 1 else 0;
      RecordWriteKeepsOneEach(records, newId, created);
      RecordWriteKeepsAchievedDays(participations, records, newId, created, delta);
      var ps := participations;
      if created.achieved {
        var p := participations[pid];
        RecountKeepsInvariants(challenges, participations, pid, p.achievedDays + 1);
        ps := participations[pid := p.(achievedDays := p.achievedDays + 1)];
      }
      CommitRecords(ps, records[newId := created]);
      r := Ok((newId, created));
    }

    /**
     * `getRecordsForDate`: no ids give no records; otherwise the ids are queried in chunks of 30 and the
     * answers gathered, which yields exactly the records of that date whose participation is in the list.
     */
    method GetRecordsForDate(ids: seq<string>, date: string) returns (found: map<string, ChallengeRecord>)
      ensures ids == [] ==> found == map[]
      ensures forall id :: id in found <==> (id in records && records[id].participationId in ids
                                              && records[id].date == date)
      ensures forall id :: id in found ==> found[id] == records[id]
    {
      if |ids| == 0 {
        return map[];
      }
      var chunks := ChunkIds(ids);
      found := map[];
      var j := 0;
      while j < |chunks|
        invariant 0 <= j <= |chunks|
        invariant forall id :: id in found <==> (id in records && records[id].date == date
                    && exists i :: 0 <= i < j && records[id].participationId in chunks[i])
        invariant forall id :: id in found ==> found[id] == records[id]
      {
        var chunk := chunks[j];
        var answer := map id | id in records && records[id].participationId in chunk && records[id].date == date
                               :: records[id];
        found := found + answer;
        j := j + 1;
      }
      forall id | id in records
        ensures records[id].participationId in ids
            <==> exists i :: 0 <= i < |chunks| && records[id].participationId in chunks[i]
      {
        FlattenMembers(chunks, records[id].participationId);
      }
    }
  }

  /**
   * Two withdrawals of the same participation from a challenge that one user joined: the second deletes
   * nothing but still counts down, leaving `participantCount` at -1 with no participation left.
   */
  method DoubleWithdrawDrift() returns (count: int, participants: nat)
    ensures count == -1 && participants == 0
  {
    var c := Challenge("c", OneWeek, 0, 604800000, Upcoming, 1, 0);
    var p := Participation("c", None, "u", Goal("habit", "run", 1.0, "km", None), true, 0, "20:00", true, 0);
    var store := new ChallengeStore(map["c" := c], map["p" := p], map[]);
    assert AchievedIds(map[], "p") == {};
    var first := store.WithdrawFromChallenge("p", "c");
    var second := store.WithdrawFromChallenge("p", "c");
    count := store.challenges["c"].participantCount;
    participants := ParticipantsOf(store.participations, "c");
    assert ParticipantIds(store.participations, "c") == {};
  }

  /** The same two withdrawals through the checked withdrawal: the second is refused and the counter stays 0. */
  method DoubleWithdrawChecked() returns (count: int, participants: nat)
    ensures count == 0 && participants == 0
  {
    var c := Challenge("c", OneWeek, 0, 604800000, Upcoming, 1, 0);
    var p := Participation("c", None, "u", Goal("habit", "run", 1.0, "km", None), true, 0, "20:00", true, 0);
    var store := new ChallengeStore(map["c" := c], map["p" := p], map[]);
    assert AchievedIds(map[], "p") == {};
    assert ParticipantIds(store.participations, "c") == {"p"};
    var first := store.WithdrawChecked("p", "c");
    var second := store.WithdrawChecked("p", "c");
    count := store.challenges["c"].participantCount;
    participants := ParticipantsOf(store.participations, "c");
  }

  /** The first record of a day saved without a memo, as the create path is written: refused, and nothing is stored. */
  method MemoLessFirstRecord() returns (r: Result<(string, ChallengeRecord), ChallengeError>, stored: nat)
    ensures r == Err(UndefinedMemo) && stored == 0
  {
    var c := Challenge("c", OneWeek, 0, 604800000, Upcoming, 1, 0);
    var p := Participation("c", None, "u", Goal("habit", "run", 1.0, "km", None), true, 0, "20:00", true, 0);
    var store := new ChallengeStore(map["c" := c], map["p" := p], map[]);
    assert AchievedIds(map[], "p") == {};
    r := store.CreateRecord("p", RecordInput("2026-01-05", 1.0, true, None), "r", 0);
    stored := |store.records|;
  }

  /** The same first record through the corrected create path: stored with no memo and counted as achieved. */
  method MemoLessFirstRecordChecked() returns (r: Result<(string, ChallengeRecord), ChallengeError>, stored: nat,
                                               achievedDays: int)
    ensures r.Ok? && r.value.1.memo.None? && stored == 1 && achievedDays == 1
  {
    var c := Challenge("c", OneWeek, 0, 604800000, Upcoming, 1, 0);
    var p := Participation("c", None, "u", Goal("habit", "run", 1.0, "km", None), true, 0, "20:00", true, 0);
    var store := new ChallengeStore(map["c" := c], map["p" := p], map[]);
    assert AchievedIds(map[], "p") == {};
    r := store.CreateRecordChecked("p", RecordInput("2026-01-05", 1.0, true, None), "r", 0);
    stored := |store.records|;
    assert AchievedIds(store.records, "p") == {"r"};
    achievedDays := store.participations["p"].achievedDays;
  }
}
