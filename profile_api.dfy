/** src/app/api/profile/route.ts: the caller's profile with the number of active habits
    (GET), and renaming (PUT). */
module ProfileApi {
  import opened Common
  import opened Store

  /** The selected fields and `_count.habits` over the active habits. */
  datatype ProfileView = ProfileView(id: string, name: Option<string>, email: string, createdAt: int, activeHabits: nat)

  function ActiveHabitOf(userId: string): HabitRow -> bool {
    (h: HabitRow) => h.userId == userId && h.isActive
  }

  function ProfileOf(u: User, habits: seq<HabitRow>): (p: ProfileView)
    ensures p.activeHabits <= |habits|
  {
    ProfileView(u.id, u.name, u.email, u.createdAt, Count(habits, ActiveHabitOf(u.id)))
  }

  /** The profile of the user with id `userId`, if there is one. */
  function ProfileFor(users: seq<User>, habits: seq<HabitRow>, userId: string): Option<ProfileView> {
    match UserIndex(users, userId)
    case None => None
    case Some(i) => Some(ProfileOf(users[i], habits))
  }

  /** GET /api/profile: 401 without a session, 404 when the caller has no row, otherwise the
      caller's profile. */
  function GetProfile(db: Db, session: Option<SessionUser>): (r: Response<ProfileView>)
    reads db
    ensures session.None? ==> r == Fail(401, "Unauthorized")
    ensures session.Some? && (forall i :: 0 <= i < |db.users| ==> db.users[i].id != session.value.id) ==>
              r == Fail(404, "User not found")
    ensures r.Ok? ==>
              && r.status == 200 && r.value.id == session.value.id
              && exists i :: 0 <= i < |db.users| && db.users[i].id == session.value.id && r.value == ProfileOf(db.users[i], db.habits)
    ensures session.Some? && (exists i :: 0 <= i < |db.users| && db.users[i].id == session.value.id) ==> r.Ok?
  {
    if session.None? then Fail(401, "Unauthorized")
    else
      match ProfileFor(db.users, db.habits, session.value.id)
      case None => Fail(404, "User not found")
      case Some(p) => Ok(200, p)
  }

  /** The table after row `i` is renamed to the trimmed `name`. */
  function Renamed(users: seq<User>, i: nat, name: string): (r: seq<User>)
    requires i < |users|
    ensures |r| == |users| && r[i] == users[i].(name := Some(Trim(name)))
    ensures forall j :: 0 <= j < |users| && j != i ==> r[j] == users[j]
  {
    users[i := users[i].(name := Some(Trim(name)))]
  }

  /** PUT /api/profile: 401 without a session; 400 for a name that is empty or only
      whitespace; an update of a missing row fails (500); otherwise the caller's name
      becomes the trimmed name, nothing else changes, and the new profile is returned. */
  method PutProfile(db: Db, session: Option<SessionUser>, name: string) returns (resp: Response<ProfileView>)
    modifies db`users
    ensures session.None? ==> resp == Fail(401, "Unauthorized") && db.users == old(db.users)
    ensures session.Some? && (forall k :: 0 <= k < |name| ==> IsSpace(name[k])) ==>
              resp == Fail(400, "Name is required") && db.users == old(db.users)
    ensures session.Some? && (exists k :: 0 <= k < |name| && !IsSpace(name[k])) && UserIndex(old(db.users), session.value.id).None? ==>
              resp == Fail(500, "Internal server error") && db.users == old(db.users)
    ensures session.Some? && (exists k :: 0 <= k < |name| && !IsSpace(name[k])) && UserIndex(old(db.users), session.value.id).Some? ==>
              var i := UserIndex(old(db.users), session.value.id).value;
              && db.users == Renamed(old(db.users), i, name)
              && resp == Ok(200, ProfileOf(db.users[i], db.habits))
    ensures old(db.Valid()) ==> db.Valid()
  {
    if session.None? {
      return Fail(401, "Unauthorized");
    }
    TrimEmptyIffAllSpace(name);
    if name == "" || Trim(name) == "" {
      return Fail(400, "Name is required");
    }
    var found := UserIndex(db.users, session.value.id);
    if found.None? {
      return Fail(500, "Internal server error");
    }
    var i := found.value;
    db.SetUser(i, db.users[i].(name := Some(Trim(name))));
    resp := Ok(200, ProfileOf(db.users[i], db.habits));
  }

  /** A rename shows in the next GET: the profile then carries the trimmed name and its
      other fields as before. */
  lemma {:induction false} RenameShowsInProfile(users: seq<User>, habits: seq<HabitRow>, i: nat, name: string)
    requires i < |users| && UniqueBy(users, UserId)
    ensures ProfileFor(Renamed(users, i, name), habits, users[i].id)
            == Some(ProfileOf(users[i], habits).(name := Some(Trim(name))))
  {
    var after := Renamed(users, i, name);
    ReplaceKeepsUnique(users, i, after[i], UserId);
    FindByKeyUnique(after, UserId, users[i].id);
  }

  /** The stored name never starts or ends with whitespace. */
  lemma {:induction false} StoredNameIsTrimmed(users: seq<User>, i: nat, name: string)
    requires i < |users|
    ensures var n := Renamed(users, i, name)[i].name.value;
            n == [] || (!IsSpace(n[0]) && !IsSpace(n[|n| - 1]))
  {
    var a := TrimStart(name);
    var t := TrimEnd(a);
    if t != [] {
      assert t[0] == a[0];
    }
  }
}
