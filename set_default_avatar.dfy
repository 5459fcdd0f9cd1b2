/** src/app/api/set-default-avatar/route.ts: the caller picks one of the bundled avatars;
    the row is found by the session's email. */
module SetDefaultAvatarApi {
  import opened Common
  import opened Store

  /** The `avatarUrl` of the JSON body: absent, some value that is not a text, or a text. */
  datatype BodyField = Missing | NotText | Text(s: string)

  /** Where the bundled avatars are served from. */
  const DefaultAvatarPrefix := "/uploads/default_avatar/"

  /** The reply: the whole updated row and `_count.habits` over all the user's habits. */
  datatype AvatarReply = AvatarReply(user: User, habitCount: nat)

  function HabitOf(userId: string): HabitRow -> bool {
    (h: HabitRow) => h.userId == userId
  }

  /** POST /api/set-default-avatar: 401 unless the session has an email; 400 unless
      `avatarUrl` is a nonempty text; 400 unless it lies under the bundled-avatar folder; an
      update of a missing row fails (500); otherwise the avatar of the row with the
      session's email becomes exactly `avatarUrl` and nothing else changes. */
  method SetDefaultAvatar(db: Db, session: Option<SessionUser>, avatarUrl: BodyField) returns (resp: Response<AvatarReply>)
    modifies db`users
    ensures session.None? || session.value.email == "" ==> resp == Fail(401, "Unauthorized") && db.users == old(db.users)
    ensures session.Some? && session.value.email != "" && !(avatarUrl.Text? && avatarUrl.s != "") ==>
              resp == Fail(400, "Avatar URL is required") && db.users == old(db.users)
    ensures session.Some? && session.value.email != "" && avatarUrl.Text? && avatarUrl.s != ""
            && !StartsWith(avatarUrl.s, DefaultAvatarPrefix) ==>
              resp == Fail(400, "Invalid default avatar URL") && db.users == old(db.users)
    ensures session.Some? && session.value.email != "" && avatarUrl.Text? && StartsWith(avatarUrl.s, DefaultAvatarPrefix) ==>
              match FindByKey(old(db.users), UserEmail, session.value.email)
              case None => resp == Fail(500, "Failed to set default avatar") && db.users == old(db.users)
              case Some(i) =>
                && db.users == old(db.users)[i := old(db.users)[i].(avatar := Some(avatarUrl.s))]
                && resp.Ok? && resp.value.user == db.users[i] && resp.value.user.avatar == Some(avatarUrl.s)
                && resp.value.habitCount == Count(db.habits, HabitOf(db.users[i].id))
    ensures old(db.Valid()) ==> db.Valid()
  {
    if session.None? || session.value.email == "" {
      return Fail(401, "Unauthorized");
    }
    if !(avatarUrl.Text? && avatarUrl.s != "") {
      return Fail(400, "Avatar URL is required");
    }
    var url := avatarUrl.s;
    if !StartsWith(url, DefaultAvatarPrefix) {
      return Fail(400, "Invalid default avatar URL");
    }
    var found := FindByKey(db.users, UserEmail, session.value.email);
    if found.None? {
      return Fail(500, "Failed to set default avatar");
    }
    var i := found.value;
    var u := db.users[i].(avatar := Some(url));
    db.SetUser(i, u);
    resp := Ok(200, AvatarReply(u, Count(db.habits, HabitOf(u.id))));
  }
}
