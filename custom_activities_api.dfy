/** src/app/api/custom-activities/route.ts: the caller's calendar notes, listed with an
    optional inclusive date range (GET), and the creation of a note (POST). */
module CustomActivitiesApi {
  import opened Common
  import opened Sorting
  import opened Store
  import opened Utils
  import opened ApiAuth

  /** A note as the routes send it: the stored row with its date as yyyy-MM-dd text. */
  datatype ActivityJson = ActivityJson(id: string, userId: string, text: string, color: string, date: string)

  /** `{ ...activity, date: activity.date.toISOString().split('T')[0] }`. */
  function Formatted(a: ActivityRow): (r: ActivityJson)
    ensures r.id == a.id && r.userId == a.userId && r.text == a.text && r.color == a.color
    ensures r.date == FormatDate(a.day)
  {
    IsoDatePart(a.day);
    ActivityJson(a.id, a.userId, a.text, a.color, BeforeFirst(IsoString(a.day), 'T'))
  }

  /** For dates of years 1..9999 the sent date is a 10-character yyyy-MM-dd text. */
  lemma {:induction false} FormattedDateShape(a: ActivityRow)
    requires 1 <= Dates.ToCivil(a.day).year <= 9999
    ensures |Formatted(a).date| == 10 && IsIsoDateShape(Formatted(a).date)
  {
    FormatDateShape(a.day);
  }

  function FormatAll(rows: seq<ActivityRow>): (r: seq<ActivityJson>)
    ensures |r| == |rows|
    ensures forall i :: 0 <= i < |rows| ==> r[i] == Formatted(rows[i])
  {
    if rows == [] then [] else [Formatted(rows[0])] + FormatAll(rows[1..])
  }

  /** The `startDate` and `endDate` search parameters of the GET. */
  datatype ActivityQuery = ActivityQuery(start: DateParam, end: DateParam)

  /** The `whereClause`: the caller's notes, in the inclusive range only when both bounds
      are given. */
  predicate InQuery(userId: string, q: ActivityQuery, a: ActivityRow) {
    a.userId == userId
    && InRange(q.start, q.end, a.day)
  }

  function MatchesQuery(userId: string, q: ActivityQuery): ActivityRow -> bool {
    (a: ActivityRow) => InQuery(userId, q, a)
  }

  /** `orderBy: { date: 'desc' }`; notes of the same day stay in table order. */
  function LatestFirst(a: ActivityRow): int {
    -a.day
  }

  /** The rows the GET lists, before formatting. */
  function Listed(rows: seq<ActivityRow>, userId: string, q: ActivityQuery): seq<ActivityRow> {
    SortBy(Filter(rows, MatchesQuery(userId, q)), LatestFirst)
  }

  /** What `findMany` throws on a date filter holding an Invalid Date: a validation error.
      The model keeps the sentence of its message that names the fault; no part of the
      message names a constraint. */
  const InvalidDateError: Thrown := ErrorObject("Provided Date object is invalid")

  /** The validation error names neither a unique nor a foreign-key constraint, so
      `withAuth` maps it to 500. */
  lemma {:induction false} InvalidDateIsServerError<T>()
    ensures ErrorResponse<T>(InvalidDateError) == Fail(500, "Internal server error")
  {
    var m := InvalidDateError.message;
    assert forall i | 0 <= i < |m| :: m[i] != 'U' && m[i] != 'F';
    LacksFirstChar(m, "Unique constraint");
    LacksFirstChar(m, "Foreign key constraint");
  }

  function GetHandler(rows: seq<ActivityRow>, q: ActivityQuery): SessionUser -> Outcome<seq<ActivityJson>> {
    (user: SessionUser) =>
      if BadRange(q.start, q.end) then Threw(InvalidDateError)
      else Returned(Ok(200, FormatAll(Listed(rows, user.id, q))))
  }

  /** GET /api/custom-activities, behind `withAuth`: 401 without a session; when both
      bounds are given and one is an Invalid Date the query throws and `withAuth` answers
      500; otherwise 200 with the listing. */
  function GetActivities(db: Db, session: Option<SessionUser>, q: ActivityQuery): (r: Response<seq<ActivityJson>>)
    reads db
    ensures session.None? ==> r == Fail(401, "Authentication required")
    ensures session.Some? && BadRange(q.start, q.end) ==> r == Fail(500, "Internal server error")
    ensures session.Some? && !BadRange(q.start, q.end) ==> r.Ok? && r.status == 200 && |r.value| <= |db.customActivities|
  {
    var rows := db.customActivities;
    InvalidDateIsServerError<seq<ActivityJson>>();
    WithAuth(session, GetHandler(rows, q))
  }

  /** A signed-in GET sends the listed rows, formatted, in their order. */
  lemma {:induction false} GetSendsListed(db: Db, user: SessionUser, q: ActivityQuery)
    requires !BadRange(q.start, q.end)
    ensures GetActivities(db, Some(user), q) == Ok(200, FormatAll(Listed(db.customActivities, user.id, q)))
  {
  }

  /** The GET lists exactly the caller's notes that pass the date filter, latest first. */
  lemma {:induction false} ListedAreMatching(rows: seq<ActivityRow>, userId: string, q: ActivityQuery)
    ensures var listed := Listed(rows, userId, q);
            && SortedBy(listed, LatestFirst)
            && (forall a :: a in listed ==> a in rows && a.userId == userId && InQuery(userId, q, a))
            && (forall a :: a in rows && InQuery(userId, q, a) ==> a in listed)
  {
    var f := Filter(rows, MatchesQuery(userId, q));
    SortBySorted(f, LatestFirst);
    var listed := Listed(rows, userId, q);
    assert forall a :: a in listed <==> a in multiset(f);
    forall a | a in f ensures a in rows && InQuery(userId, q, a) {
      var i :| 0 <= i < |f| && f[i] == a;
    }
    forall a | a in rows && InQuery(userId, q, a) ensures a in f {
      var i :| 0 <= i < |rows| && rows[i] == a;
    }
  }

  /** Without both bounds the date filter is off: every note of the caller is listed. */
  lemma {:induction false} NoRangeListsAll(db: Db, user: SessionUser, q: ActivityQuery, a: ActivityRow)
    requires !BothGiven(q.start, q.end)
    requires a in db.customActivities && a.userId == user.id
    ensures a in Listed(db.customActivities, user.id, q)
  {
    ListedAreMatching(db.customActivities, user.id, q);
  }

  /** The POST body: the texts as sent ("" when absent) and the day `new Date(date)` gives,
      `None` for a text that is no date. */
  datatype ActivityRequest = ActivityRequest(text: string, color: string, date: string, day: Option<int>)

  /** The required-field check of the POST; it sees the text before trimming. */
  predicate Filled(req: ActivityRequest) {
    req.text != "" && req.color != "" && req.date != ""
  }

  /** The row the POST inserts. */
  function NewActivity(userId: string, req: ActivityRequest, day: int, newId: string): ActivityRow {
    ActivityRow(newId, userId, Trim(req.text), req.color, day)
  }

  /** Some row of `rows` has the unique key (user, day, text). */
  predicate KeyTaken(rows: seq<ActivityRow>, key: (string, int, string)) {
    exists i :: 0 <= i < |rows| && ActivityKey(rows[i]) == key
  }

  /** POST /api/custom-activities: 401 without a session; 400 when text, colour or date is
      empty; an unreadable date makes the insert fail (500); a note with the same user, day
      and trimmed text violates the unique key (409); otherwise the note, with its text
      trimmed, is appended and returned with status 201. Only the note table changes. */
  method PostActivity(db: Db, session: Option<SessionUser>, req: ActivityRequest, newId: string)
    returns (resp: Response<ActivityJson>)
    requires forall i :: 0 <= i < |db.customActivities| ==> db.customActivities[i].id != newId
    modifies db`customActivities
    ensures session.None? ==> resp == Fail(401, "Authentication required") && db.customActivities == old(db.customActivities)
    ensures session.Some? && !Filled(req) ==>
              resp == Fail(400, "Text, color, and date are required") && db.customActivities == old(db.customActivities)
    ensures session.Some? && Filled(req) && req.day.None? ==>
              resp == Fail(500, "Failed to create activity") && db.customActivities == old(db.customActivities)
    ensures session.Some? && Filled(req) && req.day.Some?
            && KeyTaken(old(db.customActivities), (session.value.id, req.day.value, Trim(req.text))) ==>
              resp == Fail(409, "An activity with this text already exists for this date")
              && db.customActivities == old(db.customActivities)
    ensures session.Some? && Filled(req) && req.day.Some?
            && !KeyTaken(old(db.customActivities), (session.value.id, req.day.value, Trim(req.text))) ==>
              var row := NewActivity(session.value.id, req, req.day.value, newId);
              resp == Ok(201, Formatted(row)) && db.customActivities == old(db.customActivities) + [row]
    ensures old(db.Valid()) ==> db.Valid()
  {
    if session.None? {
      return AuthRequired();
    }
    var user := session.value;
    if !Filled(req) {
      return Fail(400, "Text, color, and date are required");
    }
    if req.day.None? {
      return Fail(500, "Failed to create activity");
    }
    var row := NewActivity(user.id, req, req.day.value, newId);
    var clash := FindByKey(db.customActivities, ActivityKey, ActivityKey(row));
    if clash.Some? {
      return Fail(409, "An activity with this text already exists for this date");
    }
    db.InsertActivity(row);
    resp := Ok(201, Formatted(row));
  }

  /** The field check sees the untrimmed text: a text of spaces only passes it and is stored
      as the empty text. */
  lemma {:induction false} BlankTextStoredEmpty(userId: string, req: ActivityRequest, day: int, newId: string)
    requires req.text != "" && forall i :: 0 <= i < |req.text| ==> IsSpace(req.text[i])
    requires req.color != "" && req.date != ""
    ensures Filled(req) && NewActivity(userId, req, day, newId).text == ""
  {
    TrimEmptyIffAllSpace(req.text);
  }

  /** The stored text has no whitespace at either end, and trimming it again changes
      nothing. */
  lemma {:induction false} StoredTextIsTrimmed(userId: string, req: ActivityRequest, day: int, newId: string)
    ensures var t := NewActivity(userId, req, day, newId).text;
            Trim(t) == t && (t != [] ==> !IsSpace(t[0]) && !IsSpace(t[|t| - 1]))
  {
    TrimIdempotent(req.text);
    var a := TrimStart(req.text);
    var t := TrimEnd(a);
    if t != [] {
      assert t[0] == a[0];
    }
  }
}
