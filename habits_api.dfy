/** src/app/api/habits/route.ts: listing the caller's habits and creating a habit, whose
    schedule settings are folded into one stored frequency. */
module HabitsApi {
  import opened Common
  import opened Sorting
  import opened Store

  const Daily := "daily"
  const Weekly := "weekly"
  const Monthly := "monthly"

  /** The request body of POST /api/habits; absent texts are "", absent numbers `None` (a
      missing `selectedDays` has no length). The monthly fields are not read. */
  datatype HabitRequest = HabitRequest(
    name: string, description: Option<string>, color: string, target: int, unit: Option<string>,
    scheduleType: string, selectedDays: Option<nat>, customInterval: Option<int>, customUnit: string)

  /** The `frequency` if-chain. */
  function Frequency(scheduleType: string, selectedDays: Option<nat>, customInterval: Option<int>, customUnit: string): (f: string)
    ensures f == Daily || f == Weekly || f == Monthly
    ensures f == Daily <==>
              (scheduleType == "weekly" && selectedDays == Some(7))
              || (scheduleType == "custom" && customUnit == "days" && customInterval == Some(1))
              || (scheduleType != "weekly" && scheduleType != "monthly" && scheduleType != "custom")
    ensures f == Monthly <==>
              scheduleType == "monthly" || (scheduleType == "custom" && customUnit == "months" && customInterval == Some(1))
  {
    if scheduleType == "weekly" && selectedDays == Some(7) then Daily
    else if scheduleType == "monthly" then Monthly
    else if scheduleType == "weekly" then Weekly
    else if scheduleType == "custom" then
      if customUnit == "days" && customInterval == Some(1) then Daily
      else if customUnit == "weeks" && customInterval == Some(1) then Weekly
      else if customUnit == "months" && customInterval == Some(1) then Monthly
      else Weekly
    else Daily
  }

  const DefaultHabitColor := "#3B82F6"

  /** The row `prisma.habit.create` stores: a falsy colour becomes blue, a falsy target
      (0) becomes 1, and new habits are active. */
  function NewHabit(userId: string, req: HabitRequest, id: string, now: int): (h: HabitRow)
    ensures h.id == id && h.userId == userId && h.name == req.name && h.isActive
    ensures h.color == (if req.color == "" then DefaultHabitColor else req.color) && h.color != ""
    ensures h.target == (if req.target == 0 then 1 else req.target) && h.target != 0
    ensures h.frequency == Frequency(req.scheduleType, req.selectedDays, req.customInterval, req.customUnit)
    ensures h.description == req.description && h.unit == req.unit && h.createdAt == now
  {
    HabitRow(id, userId, req.name,
             req.description,
             if req.color == "" then DefaultHabitColor else req.color,
             Frequency(req.scheduleType, req.selectedDays, req.customInterval, req.customUnit),
             if req.target == 0 then 1 else req.target,
             req.unit, true, now)
  }

  /** POST: 401 without a session, 400 without a name (nothing stored), otherwise the new
      row is appended and returned with 201. `newId` and `now` are the database's fresh id
      and clock. */
  method PostHabit(db: Db, session: Option<SessionUser>, req: HabitRequest, newId: string, now: int)
    returns (resp: Response<HabitRow>)
    requires forall h :: h in db.habits ==> h.id != newId
    modifies db`habits
    ensures session.None? ==> resp == Fail(401, "Unauthorized") && db.habits == old(db.habits)
    ensures session.Some? && req.name == "" ==>
              resp == Fail(400, "Habit name is required") && db.habits == old(db.habits)
    ensures session.Some? && req.name != "" ==>
              resp == Ok(201, NewHabit(session.value.id, req, newId, now))
              && db.habits == old(db.habits) + [resp.value]
    ensures old(db.Valid()) ==> db.Valid()
  {
    if session.None? {
      return Fail(401, "Unauthorized");
    }
    if req.name == "" {
      return Fail(400, "Habit name is required");
    }
    var habit := NewHabit(session.value.id, req, newId, now);
    db.habits := db.habits + [habit];
    resp := Ok(201, habit);
  }

  /** A habit with its included entries. */
  datatype HabitWithEntries = HabitWithEntries(habit: HabitRow, entries: seq<EntryRow>)

  function NewestFirst(h: HabitRow): int {
    -h.createdAt
  }

  function LatestFirst(e: EntryRow): int {
    -e.day
  }

  function OwnedActive(userId: string): HabitRow -> bool {
    (h: HabitRow) => h.userId == userId && h.isActive
  }

  function OfHabit(habitId: string): EntryRow -> bool {
    (e: EntryRow) => e.habitId == habitId
  }

  /** The habit's entries, latest first, all of them. */
  function EntriesLatestFirst(entries: seq<EntryRow>, habitId: string): seq<EntryRow> {
    SortBy(Filter(entries, OfHabit(habitId)), LatestFirst)
  }

  /** `habitEntries: { orderBy: { date: 'desc' }, take: 30 }`. */
  function RecentEntries(entries: seq<EntryRow>, habitId: string): seq<EntryRow> {
    var all := EntriesLatestFirst(entries, habitId);
    all[..if |all| < 30 then |all| else 30]
  }

  /** The habits the GET lists, in order. */
  function ListedHabits(habits: seq<HabitRow>, userId: string): seq<HabitRow> {
    SortBy(Filter(habits, OwnedActive(userId)), NewestFirst)
  }

  /** GET: 401 without a session, otherwise the caller's active habits, newest first, each
      with its 30 latest entries. */
  function GetHabits(db: Db, session: Option<SessionUser>): (r: Response<seq<HabitWithEntries>>)
    reads db
    ensures session.None? <==> r == Fail(401, "Unauthorized")
    ensures r.Ok? ==> r.status == 200 && |r.value| == |ListedHabits(db.habits, session.value.id)|
    ensures r.Ok? ==> forall i :: 0 <= i < |r.value| ==>
              r.value[i].habit == ListedHabits(db.habits, session.value.id)[i]
              && r.value[i].entries == RecentEntries(db.habitEntries, r.value[i].habit.id)
  {
    if session.None? then Fail(401, "Unauthorized")
    else
      var listed := ListedHabits(db.habits, session.value.id);
      var entries := db.habitEntries;
      Ok(200, seq(|listed|, i requires 0 <= i < |listed| =>
                  HabitWithEntries(listed[i], RecentEntries(entries, listed[i].id))))
  }

  /** The listed habits are exactly the caller's active ones, each once per row, newest
      first. */
  lemma {:induction false} ListedHabitsAreOwnActive(habits: seq<HabitRow>, userId: string)
    ensures forall h :: h in ListedHabits(habits, userId) ==> h in habits && h.userId == userId && h.isActive
    ensures forall h :: h in habits && h.userId == userId && h.isActive ==> h in ListedHabits(habits, userId)
    ensures multiset(ListedHabits(habits, userId)) == multiset(Filter(habits, OwnedActive(userId)))
    ensures SortedBy(ListedHabits(habits, userId), NewestFirst)
  {
    var f := Filter(habits, OwnedActive(userId));
    SortBySorted(f, NewestFirst);
    assert forall h :: h in ListedHabits(habits, userId) <==> h in multiset(f);
    forall h | h in f ensures h in habits && h.userId == userId && h.isActive {
      var i :| 0 <= i < |f| && f[i] == h;
    }
    forall h | h in habits && h.userId == userId && h.isActive ensures h in f {
      var i :| 0 <= i < |habits| && habits[i] == h;
    }
  }

  /** At most 30 entries, all of the habit, latest first, and none left out is later than
      one included; when the habit has at most 30 entries all of them are included. */
  lemma {:induction false} RecentEntriesAreLatest(entries: seq<EntryRow>, habitId: string)
    ensures |RecentEntries(entries, habitId)| <= 30
    ensures forall e :: e in RecentEntries(entries, habitId) ==> e in entries && e.habitId == habitId
    ensures SortedBy(RecentEntries(entries, habitId), LatestFirst)
    ensures forall i, j :: 0 <= i < |RecentEntries(entries, habitId)| <= j < |EntriesLatestFirst(entries, habitId)| ==>
              EntriesLatestFirst(entries, habitId)[j].day <= RecentEntries(entries, habitId)[i].day
    ensures Count(entries, OfHabit(habitId)) <= 30 ==> RecentEntries(entries, habitId) == EntriesLatestFirst(entries, habitId)
  {
    var all := EntriesLatestFirst(entries, habitId);
    var n := if |all| < 30 then |all| else 30;
    assert RecentEntries(entries, habitId) == all[..n];
    LatestFirstMembers(entries, habitId);
    LatestFirstPrefix(entries, habitId, n);
    FilterCount(entries, OfHabit(habitId));
  }

  /** The habit's entries, latest first, are entries of the table for that habit. */
  lemma {:induction false} LatestFirstMembers(entries: seq<EntryRow>, habitId: string)
    ensures forall e :: e in EntriesLatestFirst(entries, habitId) ==> e in entries && e.habitId == habitId
  {
    var f := Filter(entries, OfHabit(habitId));
    forall e | e in EntriesLatestFirst(entries, habitId) ensures e in entries && e.habitId == habitId {
      assert e in multiset(f);
      var i :| 0 <= i < |f| && f[i] == e;
    }
  }

  /** A prefix of the habit's entries, latest first, is itself latest first, and no entry
      after it is later than one in it. */
  lemma {:induction false} LatestFirstPrefix(entries: seq<EntryRow>, habitId: string, n: nat)
    requires n <= |EntriesLatestFirst(entries, habitId)|
    ensures SortedBy(EntriesLatestFirst(entries, habitId)[..n], LatestFirst)
    ensures forall i, j :: 0 <= i < n <= j < |EntriesLatestFirst(entries, habitId)| ==>
              EntriesLatestFirst(entries, habitId)[j].day <= EntriesLatestFirst(entries, habitId)[..n][i].day
  {
    var all := EntriesLatestFirst(entries, habitId);
    SortBySorted(Filter(entries, OfHabit(habitId)), LatestFirst);
    forall i, j | 0 <= i < n <= j < |all| ensures all[j].day <= all[..n][i].day {
      assert LatestFirst(all[i]) <= LatestFirst(all[j]);
    }
  }
}
