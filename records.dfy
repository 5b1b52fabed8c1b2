/**
 * The daily records of missions (web/src/lib/firebase/records.ts): one document per user, mission and date,
 * keyed by an id built from the three, written with a merging upsert and read back through two filters.
 * The client clock and the server clock are separate parameters, as the source reads both.
 */
module Records {
  import opened Wrappers
  import opened Digits
  import opened Calendar

  /** A stored record document. */
  datatype RecordDoc = RecordDoc(
    userId: string, missionId: string, value: real, date: string, createdAt: int, updatedAt: int)

  /** A record as the app sees it: the document with its id attached. */
  datatype Record = Record(
    id: string, userId: string, missionId: string, value: real, date: string, createdAt: int, updatedAt: int)

  datatype UpsertRecordInput = UpsertRecordInput(missionId: string, value: real, date: string)

  /** `recordFromFirestore`: the document's fields with the id attached. */
  function RecordFromFirestore(id: string, d: RecordDoc): (r: Record)
    ensures r.id == id && r.userId == d.userId && r.missionId == d.missionId && r.value == d.value
    ensures r.date == d.date && r.createdAt == d.createdAt && r.updatedAt == d.updatedAt
  {
    Record(id, d.userId, d.missionId, d.value, d.date, d.createdAt, d.updatedAt)
  }

  /** `generateRecordId`: the user, the mission and the date joined by underscores. */
  function RecordId(userId: string, missionId: string, date: string): (id: string)
    ensures |id| == |userId| + |missionId| + |date| + 2
  {
    userId + "_" + missionId + "_" + date
  }

  /** Users and missions whose ids hold no underscore get a distinct record id for each (user, mission, date). */
  lemma RecordIdInjective(u: string, m: string, d: string, u': string, m': string, d': string)
    requires '_' !in u && '_' !in m && '_' !in u' && '_' !in m'
    requires RecordId(u, m, d) == RecordId(u', m', d')
    ensures u == u' && m == m' && d == d'
  {
    assert RecordId(u, m, d) == u + "_" + (m + "_" + d);
    assert RecordId(u', m', d') == u' + "_" + (m' + "_" + d');
    SplitAt('_', u, m + "_" + d, u', m' + "_" + d');
    SplitAt('_', m, d, m', d');
  }

  /** Without that condition two different (user, mission) pairs can share the record id of a date. */
  lemma RecordIdsCollide()
    ensures RecordId("a_b", "c", "2026-01-01") == RecordId("a", "b_c", "2026-01-01")
  {
  }

  /** `getRecordsForDate`: exactly the user's records of that date, each under its id. */
  function RecordsForDate(records: map<string, RecordDoc>, userId: string, date: string): (found: map<string, Record>)
    ensures forall id :: id in found <==> id in records && records[id].userId == userId && records[id].date == date
    ensures forall id :: id in found ==> found[id] == RecordFromFirestore(id, records[id])
  {
    map id | id in records && records[id].userId == userId && records[id].date == date
      :: RecordFromFirestore(id, records[id])
  }

  /** The window test of `getRecordsForMission`: `startDate <= date <= endDate` as strings. */
  predicate InWindow(date: string, startDate: string, endDate: string)
  {
    !StrLess(date, startDate) && !StrLess(endDate, date)
  }

  /** `getRecordsForMission`: exactly the user's records of that mission whose date lies in the window. */
  function RecordsForMission(records: map<string, RecordDoc>, userId: string, missionId: string,
                             startDate: string, endDate: string): (found: map<string, Record>)
    ensures forall id :: id in found <==>
      id in records && records[id].userId == userId && records[id].missionId == missionId
      && InWindow(records[id].date, startDate, endDate)
    ensures forall id :: id in found ==> found[id] == RecordFromFirestore(id, records[id])
  {
    map id | id in records && records[id].userId == userId && records[id].missionId == missionId
                && InWindow(records[id].date, startDate, endDate)
      :: RecordFromFirestore(id, records[id])
  }

  /** For dates in the `YYYY-MM-DD` form the string window is the calendar window, both ends included. */
  lemma InWindowByDay(date: string, startDate: string, endDate: string, d: Date, s: Date, e: Date)
    requires ParseDate(date) == Some(d) && ParseDate(startDate) == Some(s) && ParseDate(endDate) == Some(e)
    ensures InWindow(date, startDate, endDate) <==> !Before(d, s) && !Before(e, d)
  {
    DateTextOrder(date, startDate, d, s);
    DateTextOrder(endDate, date, e, d);
  }

  /** `getTodayDateString`: the local day as year, zero-padded month and zero-padded day. */
  function GetTodayDateString(today: Date): (s: string)
    requires ValidDate(today)
    ensures s == IntToString(today.year) + "-" + Pad2(today.month) + "-" + Pad2(today.day)
  {
    FormatDate(today)
  }

  /** For a four-digit year the text has the `YYYY-MM-DD` form and reads back as the same day. */
  lemma TodayDateStringReadsBack(today: Date)
    requires ValidDate(today) && 1000 <= today.year <= 9999
    ensures IsDateShape(GetTodayDateString(today)) && ParseDate(GetTodayDateString(today)) == Some(today)
  {
    ParseFormatDate(today);
    FormatDateParts(today);
    Pad2Shape(today.month);
    Pad2Shape(today.day);
    NatToStringFourDigits(today.year);
  }

  class RecordStore {
    var records: map<string, RecordDoc>

    constructor (rs: map<string, RecordDoc>)
      ensures records == rs
    {
      records := rs;
    }

    /**
     * `upsertRecord`: a merging write of every field under the id of (user, mission, date), so whatever was
     * stored there is replaced whole, `createdAt` included (the client's `now`), with `updatedAt` the server's
     * `now`. The returned record carries the client's `now` in both instants.
     */
    method UpsertRecord(userId: string, input: UpsertRecordInput, clientNow: int, serverNow: int) returns (record: Record)
      modifies this
      ensures records == old(records)[RecordId(userId, input.missionId, input.date) :=
                RecordDoc(userId, input.missionId, input.value, input.date, clientNow, serverNow)]
      ensures record == Record(RecordId(userId, input.missionId, input.date), userId, input.missionId,
                               input.value, input.date, clientNow, clientNow)
    {
      var recordId := RecordId(userId, input.missionId, input.date);
      var recordData := RecordDoc(userId, input.missionId, input.value, input.date, clientNow, clientNow);
      records := records[recordId := recordData.(updatedAt := serverNow)];
      record := RecordFromFirestore(recordId, recordData);
    }
  }

  /**
   * Two upserts of the same user, mission and date leave a single record, holding the second value and the
   * second write's instants; the date's listing shows that one record.
   */
  method UpsertTwice(rs: map<string, RecordDoc>, userId: string, missionId: string, date: string,
                     first: real, second: real, c1: int, s1: int, c2: int, s2: int)
    returns (stored: RecordDoc, added: nat)
    ensures stored == RecordDoc(userId, missionId, second, date, c2, s2)
    ensures added == (if RecordId(userId, missionId, date) in rs then 0 else 1)
  {
    var store := new RecordStore(rs);
    var a := store.UpsertRecord(userId, UpsertRecordInput(missionId, first, date), c1, s1);
    var b := store.UpsertRecord(userId, UpsertRecordInput(missionId, second, date), c2, s2);
    var id := RecordId(userId, missionId, date);
    stored := store.records[id];
    if id in rs {
      assert store.records.Keys == rs.Keys;
    } else {
      assert store.records.Keys == rs.Keys + {id};
    }
    added := |store.records.Keys| - |rs.Keys|;
  }

  /** After an upsert the date's listing holds the written record, with its value, under its id. */
  lemma UpsertListed(rs: map<string, RecordDoc>, userId: string, input: UpsertRecordInput, c: int, s: int)
    ensures var id := RecordId(userId, input.missionId, input.date);
      var found := RecordsForDate(rs[id := RecordDoc(userId, input.missionId, input.value, input.date, c, s)],
                                  userId, input.date);
      id in found && found[id].value == input.value && found[id].missionId == input.missionId
  {
  }
}
