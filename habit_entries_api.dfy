/** src/app/api/habit-entries/route.ts: recording a habit's value for a day (one entry
    per user, habit and day) and listing the caller's entries. */
module HabitEntriesApi {
  import opened Common
  import opened Sorting
  import opened Store
  import Spreadsheet

  /** The request body of POST /api/habit-entries. `day` is the day `new Date(date)`
      denotes, `None` when it is an Invalid Date; `value` is 0 when absent; `notes` is
      `None` when absent. */
  datatype EntryRequest = EntryRequest(habitId: string, date: string, day: Option<int>, value: int, notes: Option<string>)

  /** `value || 1`. */
  function StoredValue(value: int): (v: int)
    ensures v != 0
    ensures value != 0 ==> v == value
  {
    if value == 0 then 1 else value
  }

  /** The position of the entry with key `key`. */
  function FindEntry(entries: seq<EntryRow>, key: (string, string, int)): Option<nat> {
    FindByKey(entries, EntryKey, key)
  }

  /** `prisma.habitEntry.upsert`: the entry with the same key gets the new value (and the
      new notes when given); without one, a new entry is appended. */
  function Upsert(entries: seq<EntryRow>, userId: string, req: EntryRequest): (r: seq<EntryRow>)
    requires req.day.Some?
    ensures |r| == |entries| || |r| == |entries| + 1
  {
    match FindEntry(entries, (userId, req.habitId, req.day.value))
    case Some(i) =>
      var old_ := entries[i];
      entries[i := old_.(value := StoredValue(req.value), notes := if req.notes.Some? then req.notes else old_.notes)]
    case None =>
      entries + [EntryRow(userId, req.habitId, req.day.value, StoredValue(req.value), req.notes)]
  }

  /** After the upsert the key has exactly one entry, holding `value || 1`, and every entry
      with another key is where it was. */
  lemma {:induction false} UpsertKeepsOneEntryPerKey(entries: seq<EntryRow>, userId: string, req: EntryRequest)
    requires req.day.Some?
    requires UniqueBy(entries, EntryKey)
    ensures UniqueBy(Upsert(entries, userId, req), EntryKey)
    ensures FindEntry(Upsert(entries, userId, req), (userId, req.habitId, req.day.value)).Some?
    ensures var r := Upsert(entries, userId, req);
            r[FindEntry(r, (userId, req.habitId, req.day.value)).value].value == StoredValue(req.value)
    ensures forall i :: 0 <= i < |entries| && EntryKey(entries[i]) != (userId, req.habitId, req.day.value) ==>
              Upsert(entries, userId, req)[i] == entries[i]
  {
    var k := (userId, req.habitId, req.day.value);
    var r := Upsert(entries, userId, req);
    match FindEntry(entries, k)
    case Some(i) =>
      assert EntryKey(r[i]) == k;
      assert FindEntry(r, k).Some?;
      FindByKeyUnique(r, EntryKey, k);
    case None =>
      assert EntryKey(r[|r| - 1]) == k;
      assert FindEntry(r, k) == Some(|r| - 1);
  }

  /** The habit `habitId` owned by the caller, if any. */
  function OwnedHabit(habits: seq<HabitRow>, habitId: string, userId: string): Option<nat> {
    FirstIndex(habits, (h: HabitRow) => h.id == habitId && h.userId == userId)
  }

  /** POST: 401 without a session, 400 without a habit id or date, 404 when the habit is
      not the caller's (nothing written), 500 when the date is no date (the upsert throws
      and nothing is written), otherwise the upsert and 201. */
  method PostEntry(db: Db, session: Option<SessionUser>, req: EntryRequest) returns (resp: Response<EntryRow>)
    modifies db`habitEntries
    ensures session.None? ==> resp == Fail(401, "Unauthorized") && db.habitEntries == old(db.habitEntries)
    ensures session.Some? && (req.habitId == "" || req.date == "") ==>
              resp == Fail(400, "Habit ID and date are required") && db.habitEntries == old(db.habitEntries)
    ensures session.Some? && req.habitId != "" && req.date != "" && OwnedHabit(db.habits, req.habitId, session.value.id).None? ==>
              resp == Fail(404, "Habit not found") && db.habitEntries == old(db.habitEntries)
    ensures session.Some? && req.habitId != "" && req.date != "" && OwnedHabit(db.habits, req.habitId, session.value.id).Some?
            && req.day.None? ==>
              resp == Fail(500, "Internal server error") && db.habitEntries == old(db.habitEntries)
    ensures session.Some? && req.habitId != "" && req.date != "" && OwnedHabit(db.habits, req.habitId, session.value.id).Some?
            && req.day.Some? ==>
              db.habitEntries == Upsert(old(db.habitEntries), session.value.id, req)
              && resp.Ok? && resp.status == 201
              && EntryKey(resp.value) == (session.value.id, req.habitId, req.day.value)
              && resp.value.value == StoredValue(req.value)
              && resp.value in db.habitEntries
    ensures old(db.Valid()) ==> db.Valid()
  {
    if session.None? {
      return Fail(401, "Unauthorized");
    }
    if req.habitId == "" || req.date == "" {
      return Fail(400, "Habit ID and date are required");
    }
    var userId := session.value.id;
    var habit := OwnedHabit(db.habits, req.habitId, userId);
    if habit.None? {
      return Fail(404, "Habit not found");
    }
    if req.day.None? {
      return Fail(500, "Internal server error");
    }
    var key := (userId, req.habitId, req.day.value);
    var found := FindEntry(db.habitEntries, key);
    var entry: EntryRow;
    if found.Some? {
      var current := db.habitEntries[found.value];
      entry := current.(value := StoredValue(req.value), notes := if req.notes.Some? then req.notes else current.notes);
      db.habitEntries := db.habitEntries[found.value := entry];
      assert db.habitEntries[found.value] == entry;
    } else {
      entry := EntryRow(userId, req.habitId, req.day.value, StoredValue(req.value), req.notes);
      db.habitEntries := db.habitEntries + [entry];
      assert db.habitEntries[|db.habitEntries| - 1] == entry;
    }
    if old(db.Valid()) {
      UpsertKeepsOneEntryPerKey(old(db.habitEntries), userId, req);
    }
    resp := Ok(201, entry);
  }

  /** A spreadsheet click never leads to a stored 0: the cell cycle sends 0 after 1, and
      the route stores `0 || 1`, so a cleared cell reads back as 1. */
  lemma {:induction false} ClearedCellStoresOne(v: int)
    ensures StoredValue(Spreadsheet.CycleValue(v)) != 0
    ensures StoredValue(Spreadsheet.CycleValue(1)) == 1
    ensures 0 <= v <= 3 ==> 1 <= StoredValue(Spreadsheet.CycleValue(v)) <= 3
  {
  }

  /** The optional filters of GET /api/habit-entries: a habit id ("" when absent) and the
      `startDate` and `endDate` parameters. */
  datatype EntryQuery = EntryQuery(habitId: string, start: DateParam, end: DateParam)

  /** The `where` object: the caller's entries, of the habit when one is given, and in the
      inclusive range only when both bounds are given. */
  predicate Matches(userId: string, q: EntryQuery, e: EntryRow) {
    e.userId == userId
    && (q.habitId != "" ==> e.habitId == q.habitId)
    && InRange(q.start, q.end, e.day)
  }

  function MatchesQuery(userId: string, q: EntryQuery): EntryRow -> bool {
    (e: EntryRow) => Matches(userId, q, e)
  }

  function LatestFirst(e: EntryRow): int {
    -e.day
  }

  /** GET: 401 without a session; 500 when both bounds are given and one is an Invalid
      Date (the query throws); otherwise the matching entries, latest first. */
  function GetEntries(db: Db, session: Option<SessionUser>, q: EntryQuery): (r: Response<seq<EntryRow>>)
    reads db
    ensures session.None? <==> r == Fail(401, "Unauthorized")
    ensures session.Some? ==> (BadRange(q.start, q.end) <==> r == Fail(500, "Internal server error"))
    ensures session.Some? && !BadRange(q.start, q.end) ==> r.Ok? && r.status == 200 && |r.value| <= |db.habitEntries|
  {
    if session.None? then Fail(401, "Unauthorized")
    else if BadRange(q.start, q.end) then Fail(500, "Internal server error")
    else Ok(200, SortBy(Filter(db.habitEntries, MatchesQuery(session.value.id, q)), LatestFirst))
  }

  /** The listed entries are exactly the matching ones, latest first; in particular only
      the caller's. */
  lemma {:induction false} GetEntriesAreMatching(db: Db, session: Option<SessionUser>, q: EntryQuery)
    requires session.Some? && !BadRange(q.start, q.end)
    ensures GetEntries(db, session, q).Ok?
    ensures var r := GetEntries(db, session, q).value;
            SortedBy(r, LatestFirst)
            && (forall e :: e in r ==> e in db.habitEntries && Matches(session.value.id, q, e))
            && (forall e :: e in db.habitEntries && Matches(session.value.id, q, e) ==> e in r)
            && (forall e :: e in r ==> e.userId == session.value.id)
  {
    var f := Filter(db.habitEntries, MatchesQuery(session.value.id, q));
    SortBySorted(f, LatestFirst);
    var r := GetEntries(db, session, q).value;
    assert forall e :: e in r <==> e in multiset(f);
    forall e | e in f ensures e in db.habitEntries && Matches(session.value.id, q, e) {
      var i :| 0 <= i < |f| && f[i] == e;
    }
    forall e | e in db.habitEntries && Matches(session.value.id, q, e) ensures e in f {
      var i :| 0 <= i < |db.habitEntries| && db.habitEntries[i] == e;
    }
  }
}
