/**
 * The missions table (web/src/lib/firebase/missions.ts): a user's habits, at most ten active ones, listed by
 * `sortOrder`. Each document is keyed by its id; instants are integer milliseconds and the clock's `now` is a
 * parameter.
 */
module Missions {
  import opened Wrappers
  import opened Counting
  import Users

  /** At most this many active missions per user. */
  const MaxMissions: nat := 10

  datatype MissionType = Workout | Study

  /** A stored mission document. */
  datatype Mission = Mission(
    userId: string, kind: MissionType, name: string, targetValue: real, unit: string,
    isActive: bool, sortOrder: int, createdAt: int, updatedAt: int)

  /** A mission as the app sees it: the document with its id attached. */
  datatype MissionView = MissionView(id: string, mission: Mission)

  datatype CreateMissionInput = CreateMissionInput(kind: MissionType, name: string, targetValue: real, unit: string)

  /** `UpdateMissionInput`: every property optional. */
  datatype UpdateMissionInput = UpdateMissionInput(
    name: Users.Field<string>, targetValue: Users.Field<real>, unit: Users.Field<string>,
    isActive: Users.Field<bool>, sortOrder: Users.Field<int>)

  datatype MissionError = TooManyMissions | MissionNotFound

  /** The query of `getMissions`: the user's missions that are active. */
  predicate Listed(m: Mission, userId: string)
  {
    m.userId == userId && m.isActive
  }

  /** The ids of the user's active missions. */
  function ActiveIds(ms: map<string, Mission>, userId: string): (ids: set<string>)
    ensures forall id :: id in ids <==> id in ms && Listed(ms[id], userId)
  {
    set id | id in ms && Listed(ms[id], userId)
  }

  /**
   * The document after `updateDoc` with the input spread and `updatedAt`: each supplied property replaces the
   * stored one, every other property stays, and `updatedAt` becomes `now`.
   */
  function Applied(m: Mission, input: UpdateMissionInput, now: int): (m': Mission)
    ensures m'.userId == m.userId && m'.kind == m.kind && m'.createdAt == m.createdAt && m'.updatedAt == now
    ensures m'.name == (if input.name.Present? then input.name.value else m.name)
    ensures m'.targetValue == (if input.targetValue.Present? then input.targetValue.value else m.targetValue)
    ensures m'.unit == (if input.unit.Present? then input.unit.value else m.unit)
    ensures m'.isActive == (if input.isActive.Present? then input.isActive.value else m.isActive)
    ensures m'.sortOrder == (if input.sortOrder.Present? then input.sortOrder.value else m.sortOrder)
  {
    var m1 := if input.name.Present? then m.(name := input.name.value) else m;
    var m2 := if input.targetValue.Present? then m1.(targetValue := input.targetValue.value) else m1;
    var m3 := if input.unit.Present? then m2.(unit := input.unit.value) else m2;
    var m4 := if input.isActive.Present? then m3.(isActive := input.isActive.value) else m3;
    var m5 := if input.sortOrder.Present? then m4.(sortOrder := input.sortOrder.value) else m4;
    m5.(updatedAt := now)
  }

  /** An update that does not touch `isActive` lists the same missions for every user. */
  lemma UpdateKeepsListing(ms: map<string, Mission>, id: string, input: UpdateMissionInput, now: int, userId: string)
    requires id in ms && input.isActive.Absent?
    ensures ActiveIds(ms[id := Applied(ms[id], input, now)], userId) == ActiveIds(ms, userId)
  {
    var ms' := ms[id := Applied(ms[id], input, now)];
    assert Listed(ms'[id], userId) == Listed(ms[id], userId);
  }

  /** A new active mission under a fresh id adds that id to its user's listing and changes no other listing. */
  lemma CreateListing(ms: map<string, Mission>, id: string, m: Mission, userId: string)
    requires id !in ms && m.isActive
    ensures userId == m.userId ==> ActiveIds(ms[id := m], userId) == ActiveIds(ms, userId) + {id}
    ensures userId == m.userId ==> |ActiveIds(ms[id := m], userId)| == |ActiveIds(ms, userId)| + 1
    ensures userId != m.userId ==> ActiveIds(ms[id := m], userId) == ActiveIds(ms, userId)
  {
    if userId == m.userId {
      CardAfterSwap(ActiveIds(ms, userId), ActiveIds(ms[id := m], userId), id);
    }
  }

  /** Deleting a mission removes it from every listing and nothing else. */
  lemma DeleteListing(ms: map<string, Mission>, id: string, userId: string)
    ensures ActiveIds(ms - {id}, userId) == ActiveIds(ms, userId) - {id}
  {
  }

  /** A nonempty set of missions has one whose `sortOrder` is least. */
  lemma {:induction false} LeastExists(ms: map<string, Mission>, s: set<string>)
    requires s != {} && s <= ms.Keys
    ensures exists id :: id in s && forall o :: o in s ==> ms[id].sortOrder <= ms[o].sortOrder
    decreases |s|
  {
    var x :| x in s;
    if s != {x} {
      var rest := s - {x};
      LeastExists(ms, rest);
      var y :| y in rest && forall o :: o in rest ==> ms[y].sortOrder <= ms[o].sortOrder;
      if ms[x].sortOrder <= ms[y].sortOrder {
        assert forall o :: o in s ==> ms[x].sortOrder <= ms[o].sortOrder;
      } else {
        assert forall o :: o in s ==> ms[y].sortOrder <= ms[o].sortOrder;
      }
    } else {
      assert forall o :: o in s ==> o == x;
    }
  }

  /** `list` holds, once each, exactly the missions of `ids` with their ids. */
  ghost predicate ListsExactly(list: seq<MissionView>, ms: map<string, Mission>, ids: set<string>)
  {
    (forall i :: 0 <= i < |list| ==> list[i].id in ids && list[i].id in ms && list[i].mission == ms[list[i].id])
    && (forall id :: id in ids ==> exists i :: 0 <= i < |list| && list[i].id == id)
    && (forall i, j :: 0 <= i < j < |list| ==> list[i].id != list[j].id)
  }

  /** `list` is in ascending `sortOrder`. */
  ghost predicate InOrder(list: seq<MissionView>)
  {
    forall i, j :: 0 <= i < j < |list| ==> list[i].mission.sortOrder <= list[j].mission.sortOrder
  }

  /** No mission of `list` has a larger `sortOrder` than a mission of `rest`. */
  ghost predicate NotAfter(list: seq<MissionView>, ms: map<string, Mission>, rest: set<string>)
    requires rest <= ms.Keys
  {
    forall i, id :: 0 <= i < |list| && id in rest ==> list[i].mission.sortOrder <= ms[id].sortOrder
  }

  /** Appending a mission not listed yet lists exactly one id more. */
  lemma AppendExact(list: seq<MissionView>, ms: map<string, Mission>, taken: set<string>, id: string)
    requires id in ms && id !in taken && ListsExactly(list, ms, taken)
    ensures ListsExactly(list + [MissionView(id, ms[id])], ms, taken + {id})
  {
    var list' := list + [MissionView(id, ms[id])];
    forall x | x in taken + {id} ensures exists i :: 0 <= i < |list'| && list'[i].id == x {
      if x == id {
        assert list'[|list|].id == x;
      } else {
        var i :| 0 <= i < |list| && list[i].id == x;
        assert list'[i].id == x;
      }
    }
  }

  /** Appending a least mission of the rest keeps the list ordered and ahead of what is left. */
  lemma AppendLeast(list: seq<MissionView>, ms: map<string, Mission>, rest: set<string>, id: string)
    requires rest <= ms.Keys && id in rest
    requires forall o :: o in rest ==> ms[id].sortOrder <= ms[o].sortOrder
    requires InOrder(list) && NotAfter(list, ms, rest)
    ensures InOrder(list + [MissionView(id, ms[id])])
    ensures NotAfter(list + [MissionView(id, ms[id])], ms, rest - {id})
  {
  }

  /** Moving `id` from the rest to the listed ids. */
  lemma MoveOne(ids: set<string>, rest: set<string>, id: string)
    requires id in rest && rest <= ids
    ensures id !in ids - rest && ids - (rest - {id}) == (ids - rest) + {id}
  {
  }

  /**
   * The ordering of the `getMissions` query: the missions of `ids`, each once with its id, taking a least
   * `sortOrder` among those not listed yet, one at a time.
   */
  method OrderBySortOrder(ms: map<string, Mission>, ids: set<string>) returns (list: seq<MissionView>)
    requires ids <= ms.Keys
    ensures |list| == |ids|
    ensures ListsExactly(list, ms, ids) && InOrder(list)
  {
    var remaining := ids;
    list := [];
    while remaining != {}
      invariant remaining <= ids && |list| + |remaining| == |ids|
      invariant ListsExactly(list, ms, ids - remaining) && InOrder(list) && NotAfter(list, ms, remaining)
      decreases |remaining|
    {
      LeastExists(ms, remaining);
      var id :| id in remaining && forall o :: o in remaining ==> ms[id].sortOrder <= ms[o].sortOrder;
      MoveOne(ids, remaining, id);
      AppendExact(list, ms, ids - remaining, id);
      AppendLeast(list, ms, remaining, id);
      list := list + [MissionView(id, ms[id])];
      remaining := remaining - {id};
    }
    assert ids - remaining == ids;
  }

  class MissionStore {
    var missions: map<string, Mission>

    constructor (ms: map<string, Mission>)
      ensures missions == ms
    {
      missions := ms;
    }

    /** `getMissions`: each of the user's active missions once, with its id, in ascending `sortOrder`. */
    method GetMissions(userId: string) returns (list: seq<MissionView>)
      ensures |list| == |ActiveIds(missions, userId)|
      ensures ListsExactly(list, missions, ActiveIds(missions, userId)) && InOrder(list)
    {
      list := OrderBySortOrder(missions, ActiveIds(missions, userId));
    }

    /** `getMission`: the mission with that id, if any. */
    method GetMission(missionId: string) returns (r: Option<MissionView>)
      ensures r.None? <==> missionId !in missions
      ensures r.Some? ==> r.value == MissionView(missionId, missions[missionId])
    {
      if missionId !in missions {
        return None;
      }
      r := Some(MissionView(missionId, missions[missionId]));
    }

    /**
     * `createMission`: fails when the user already has ten active missions; otherwise stores under the fresh id
     * `newId` an active mission whose `sortOrder` is the number of the user's active missions, with both
     * instants `now`. The user then has one more active mission, at most ten; nobody else's listing changes.
     */
    method CreateMission(userId: string, input: CreateMissionInput, newId: string, now: int)
      returns (r: Result<MissionView, MissionError>)
      requires newId !in missions
      modifies this
      ensures r.Err? <==> |ActiveIds(old(missions), userId)| >= MaxMissions
      ensures r.Err? ==> r.error == TooManyMissions && missions == old(missions)
      ensures r.Ok? ==>
        missions == old(missions)[newId := Mission(userId, input.kind, input.name, input.targetValue, input.unit,
                                                   true, |ActiveIds(old(missions), userId)|, now, now)]
        && r.value == MissionView(newId, missions[newId])
      ensures r.Ok? ==> |ActiveIds(missions, userId)| == |ActiveIds(old(missions), userId)| + 1 <= MaxMissions
      ensures forall u :: u != userId ==> ActiveIds(missions, u) == ActiveIds(old(missions), u)
    {
      var existingMissions := GetMissions(userId);
      if |existingMissions| >= MaxMissions {
        return Err(TooManyMissions);
      }
      var missionData := Mission(userId, input.kind, input.name, input.targetValue, input.unit,
                                 true, |existingMissions|, now, now);
      forall u {
        CreateListing(missions, newId, missionData, u);
      }
      missions := missions[newId := missionData];
      r := Ok(MissionView(newId, missionData));
    }

    /**
     * `updateMission`: writes the supplied properties and `updatedAt`; updating a mission that does not exist
     * fails and writes nothing.
     */
    method UpdateMission(missionId: string, input: UpdateMissionInput, now: int) returns (r: Result<(), MissionError>)
      modifies this
      ensures r.Err? <==> missionId !in old(missions)
      ensures r.Err? ==> r.error == MissionNotFound && missions == old(missions)
      ensures r.Ok? ==> missions == old(missions)[missionId := Applied(old(missions)[missionId], input, now)]
    {
      if missionId !in missions {
        return Err(MissionNotFound);
      }
      missions := missions[missionId := Applied(missions[missionId], input, now)];
      r := Ok(());
    }

    /** `deleteMission`: removes that mission, if it exists, and nothing else. */
    method DeleteMission(missionId: string)
      modifies this
      ensures missions == old(missions) - {missionId}
    {
      missions := missions - {missionId};
    }
  }

  /**
   * The `sortOrder` a new mission gets counts the active missions, so after a deletion it can repeat one in
   * use: with missions of order 0 and 1, deleting the first and creating another gives the new one order 1,
   * the same as the remaining one.
   */
  method DeleteThenCreateRepeatsOrder() returns (kept: int, created: int)
    ensures kept == created == 1
  {
    var m0 := Mission("u", Workout, "run", 5.0, "km", true, 0, 0, 0);
    var m1 := Mission("u", Study, "read", 30.0, "min", true, 1, 0, 0);
    var store := new MissionStore(map["a" := m0, "b" := m1]);
    store.DeleteMission("a");
    assert store.missions == map["b" := m1];
    assert ActiveIds(store.missions, "u") == {"b"};
    var r := store.CreateMission("u", CreateMissionInput(Workout, "swim", 1.0, "km"), "c", 10);
    kept := store.missions["b"].sortOrder;
    created := store.missions["c"].sortOrder;
  }
}
