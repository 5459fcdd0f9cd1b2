/** src/app/api/upload-avatar/route.ts: uploading a profile picture (POST) and removing it
    (DELETE). Writing the file to disk is left out; `now` is `Date.now()`. */
module UploadAvatarApi {
  import opened Common
  import opened Store
  import SetDefaultAvatarApi

  /** The `avatar` entry of the form data. */
  datatype UploadedFile = UploadedFile(name: string, mimeType: string, size: nat)

  /** 5 MiB, the largest size accepted. */
  const MaxAvatarSize: nat := 5 * 1024 * 1024

  const UploadedAvatarFolder := "/uploads/avatars/"

  /** The selected fields of the updated row, `_count.habits` over the active habits. */
  datatype AvatarView = AvatarView(id: string, name: Option<string>, email: string, avatar: Option<string>,
                                   createdAt: int, activeHabits: nat)

  datatype AvatarReply = AvatarReply(message: string, user: AvatarView)

  function ActiveHabitOf(userId: string): HabitRow -> bool {
    (h: HabitRow) => h.userId == userId && h.isActive
  }

  function ViewOf(u: User, habits: seq<HabitRow>): AvatarView {
    AvatarView(u.id, u.name, u.email, u.avatar, u.createdAt, Count(habits, ActiveHabitOf(u.id)))
  }

  /** `file.name.split('.').pop()`. */
  function Extension(name: string): string {
    var parts := Split(name, '.');
    parts[|parts| - 1]
  }

  /** With a `c` in `s`, `s` ends with that `c` followed by the text after it. */
  lemma {:induction false} EndsWithLastSeparator(s: string, c: char)
    requires c in s
    ensures EndsWith(s, [c] + AfterLast(s, c))
  {
    var j := LastIndexOf(s, c);
    assert s[j..] == [c] + s[j + 1..];
  }

  /** The extension is the text after the last '.', or the whole name when it has none. */
  lemma {:induction false} ExtensionAfterLastDot(name: string)
    ensures var e := Extension(name);
      && '.' !in e && EndsWith(name, e)
      && ('.' !in name ==> e == name)
      && ('.' in name ==> EndsWith(name, "." + e))
  {
    AfterLastIsLastPiece(name, '.');
    assert Extension(name) == AfterLast(name, '.');
    if '.' in name {
      EndsWithLastSeparator(name, '.');
    }
  }

  /** `${userId}-${Date.now()}.${fileExtension}`. */
  function AvatarFileName(userId: string, now: nat, name: string): string {
    userId + "-" + NatToString(now) + "." + Extension(name)
  }

  /** The saved file is named after the caller and keeps the upload's extension: the text
      after its last '.' is exactly that extension. */
  lemma {:induction false} SavedNameKeepsExtension(userId: string, now: nat, name: string)
    ensures var f := AvatarFileName(userId, now, name);
            StartsWith(f, userId + "-") && AfterLast(f, '.') == Extension(name)
  {
    ExtensionAfterLastDot(name);
    var e := Extension(name);
    var p := userId + "-" + NatToString(now);
    var f := AvatarFileName(userId, now, name);
    assert f == p + "." + e;
    assert f[|p|] == '.';
    assert forall k :: |p| < k < |f| ==> f[k] == e[k - |p| - 1];
    LastIndexOfIs(f, '.', |p|);
    assert f[..|userId| + 1] == userId + "-";
  }

  /** POST /api/upload-avatar: 401 without a session; then 400 for a missing file, for a
      type that does not start with "image/", and for more than 5 MiB, in that order; an
      update of a missing row fails (500); otherwise the caller's avatar becomes the URL of
      the saved file and nothing else changes. */
  method UploadAvatar(db: Db, session: Option<SessionUser>, file: Option<UploadedFile>, now: nat)
    returns (resp: Response<AvatarReply>)
    modifies db`users
    ensures session.None? ==> resp == Fail(401, "Unauthorized") && db.users == old(db.users)
    ensures session.Some? && file.None? ==> resp == Fail(400, "No file uploaded") && db.users == old(db.users)
    ensures session.Some? && file.Some? && !StartsWith(file.value.mimeType, "image/") ==>
              resp == Fail(400, "File must be an image") && db.users == old(db.users)
    ensures session.Some? && file.Some? && StartsWith(file.value.mimeType, "image/") && file.value.size > MaxAvatarSize ==>
              resp == Fail(400, "File size must be less than 5MB") && db.users == old(db.users)
    ensures session.Some? && file.Some? && StartsWith(file.value.mimeType, "image/") && file.value.size <= MaxAvatarSize ==>
              match UserIndex(old(db.users), session.value.id)
              case None => resp == Fail(500, "Internal server error") && db.users == old(db.users)
              case Some(i) =>
                var url := UploadedAvatarFolder + AvatarFileName(session.value.id, now, file.value.name);
                && db.users == old(db.users)[i := old(db.users)[i].(avatar := Some(url))]
                && resp == Ok(200, AvatarReply("Avatar uploaded successfully", ViewOf(db.users[i], db.habits)))
    ensures old(db.Valid()) ==> db.Valid()
  {
    if session.None? {
      return Fail(401, "Unauthorized");
    }
    if file.None? {
      return Fail(400, "No file uploaded");
    }
    var f := file.value;
    if !StartsWith(f.mimeType, "image/") {
      return Fail(400, "File must be an image");
    }
    if f.size > MaxAvatarSize {
      return Fail(400, "File size must be less than 5MB");
    }
    var userId := session.value.id;
    var url := UploadedAvatarFolder + AvatarFileName(userId, now, f.name);
    var found := UserIndex(db.users, userId);
    if found.None? {
      return Fail(500, "Internal server error");
    }
    var i := found.value;
    db.SetUser(i, db.users[i].(avatar := Some(url)));
    resp := Ok(200, AvatarReply("Avatar uploaded successfully", ViewOf(db.users[i], db.habits)));
  }

  /** DELETE /api/upload-avatar: 401 without a session; an update of a missing row fails
      (500); otherwise the caller's avatar becomes `null` and nothing else changes. */
  method RemoveAvatar(db: Db, session: Option<SessionUser>) returns (resp: Response<AvatarReply>)
    modifies db`users
    ensures session.None? ==> resp == Fail(401, "Unauthorized") && db.users == old(db.users)
    ensures session.Some? ==>
              match UserIndex(old(db.users), session.value.id)
              case None => resp == Fail(500, "Internal server error") && db.users == old(db.users)
              case Some(i) =>
                && db.users == old(db.users)[i := old(db.users)[i].(avatar := None)]
                && resp == Ok(200, AvatarReply("Avatar removed successfully", ViewOf(db.users[i], db.habits)))
    ensures old(db.Valid()) ==> db.Valid()
  {
    if session.None? {
      return Fail(401, "Unauthorized");
    }
    var found := UserIndex(db.users, session.value.id);
    if found.None? {
      return Fail(500, "Internal server error");
    }
    var i := found.value;
    db.SetUser(i, db.users[i].(avatar := None));
    resp := Ok(200, AvatarReply("Avatar removed successfully", ViewOf(db.users[i], db.habits)));
  }

  /** An uploaded avatar's URL never passes the bundled-avatar check of
      set-default-avatar: the two folders differ. */
  lemma {:induction false} UploadedIsNoDefaultAvatar(url: string)
    requires StartsWith(url, UploadedAvatarFolder)
    ensures !StartsWith(url, SetDefaultAvatarApi.DefaultAvatarPrefix)
  {
    assert url[9] == UploadedAvatarFolder[9] == 'a';
    assert SetDefaultAvatarApi.DefaultAvatarPrefix[9] == 'd';
  }
}
