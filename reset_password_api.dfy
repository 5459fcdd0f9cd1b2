/** src/app/api/auth/reset-password/route.ts: a signed-in user changes their password,
    giving the current one. bcrypt's `hash` and `compare` are the parameters `hash` and
    `matches`. */
module ResetPasswordApi {
  import opened Common
  import opened Store
  import opened ApiAuth
  import opened AuthOptions

  /** The JSON body; an absent field is "". */
  datatype PasswordChange = PasswordChange(currentPassword: string, newPassword: string)

  /** The shortest new password accepted. */
  const MinPasswordLength := 6

  /** The table after the password of row `i` is set to `hashed`. */
  function WithPassword(users: seq<User>, i: nat, hashed: string): (r: seq<User>)
    requires i < |users|
    ensures |r| == |users| && r[i].password == hashed
    ensures forall j :: 0 <= j < |users| && j != i ==> r[j] == users[j]
    ensures r[i] == users[i].(password := hashed)
  {
    users[i := users[i].(password := hashed)]
  }

  /** POST /api/auth/reset-password, behind `withAuth`: 401 without a session; 400 when a
      password is missing, then 400 when the new one is shorter than six characters; 404
      when the caller has no row; 400 when the current password does not match; otherwise
      the caller's password becomes the hash of the new one. Only that field changes. */
  method ResetPassword(db: Db, session: Option<SessionUser>, req: PasswordChange,
                       hash: string -> string, matches: (string, string) -> bool)
    returns (resp: Response<string>)
    modifies db`users
    ensures session.None? ==> resp == Fail(401, "Authentication required") && db.users == old(db.users)
    ensures session.Some? && (req.currentPassword == "" || req.newPassword == "") ==>
              resp == Fail(400, "Current password and new password are required") && db.users == old(db.users)
    ensures session.Some? && req.currentPassword != "" && req.newPassword != "" && |req.newPassword| < MinPasswordLength ==>
              resp == Fail(400, "New password must be at least 6 characters long") && db.users == old(db.users)
    ensures session.Some? && req.currentPassword != "" && |req.newPassword| >= MinPasswordLength
            && (forall i :: 0 <= i < |old(db.users)| ==> old(db.users)[i].id != session.value.id) ==>
              resp == Fail(404, "User not found") && db.users == old(db.users)
    ensures session.Some? && req.currentPassword != "" && |req.newPassword| >= MinPasswordLength
            && UserIndex(old(db.users), session.value.id).Some? ==>
              var i := UserIndex(old(db.users), session.value.id).value;
              && old(db.users)[i].id == session.value.id
              && (!matches(req.currentPassword, old(db.users)[i].password) ==>
                    resp == Fail(400, "Current password is incorrect") && db.users == old(db.users))
              && (matches(req.currentPassword, old(db.users)[i].password) ==>
                    resp == Ok(200, "Password updated successfully")
                    && db.users == WithPassword(old(db.users), i, hash(req.newPassword)))
    ensures old(db.Valid()) ==> db.Valid()
  {
    if session.None? {
      return AuthRequired();
    }
    var user := session.value;
    if req.currentPassword == "" || req.newPassword == "" {
      return Fail(400, "Current password and new password are required");
    }
    if |req.newPassword| < MinPasswordLength {
      return Fail(400, "New password must be at least 6 characters long");
    }
    var found := UserIndex(db.users, user.id);
    if found.None? {
      return Fail(404, "User not found");
    }
    var i := found.value;
    if !matches(req.currentPassword, db.users[i].password) {
      return Fail(400, "Current password is incorrect");
    }
    db.SetUser(i, db.users[i].(password := hash(req.newPassword)));
    resp := Ok(200, "Password updated successfully");
  }

  /** After the change the user signs in with the new password, as long as the password
      check accepts a password against its own hash. */
  lemma {:induction false} NewPasswordSignsIn(users: seq<User>, i: nat, newPassword: string,
                                              hash: string -> string, matches: (string, string) -> bool)
    requires i < |users| && UniqueBy(users, UserEmail)
    requires users[i].email != "" && newPassword != "" && matches(newPassword, hash(newPassword))
    ensures Authorize(WithPassword(users, i, hash(newPassword)), Credentials(users[i].email, newPassword), matches)
            == Some(Authorized(users[i]))
  {
    var after := WithPassword(users, i, hash(newPassword));
    ReplaceKeepsUnique(users, i, after[i], UserEmail);
    AuthorizeIffPasswordMatches(after, Credentials(users[i].email, newPassword), matches, i);
  }
}
