/** src/lib/auth.ts: the credentials check of sign-in (`authorize`) and the two callbacks
    that carry the user's fields from sign-in into the JWT and from the JWT into the
    session. bcrypt's `compare` is the parameter `matches`. */
module AuthOptions {
  import opened Common
  import opened Store

  /** The credentials form; an absent field is "". */
  datatype Credentials = Credentials(email: string, password: string)

  /** What `authorize` hands to next-auth on success. */
  datatype AuthorizedUser = AuthorizedUser(id: string, email: string, name: Option<string>,
                                           username: Option<string>, avatar: Option<string>)

  /** The user signing in: the fields of the stored row, without its password. */
  function Authorized(u: User): AuthorizedUser {
    AuthorizedUser(u.id, u.email, u.name, u.username, u.avatar)
  }

  /** `authorize(credentials)`: no user for an empty email or password, for an unknown email
      or for a password that does not match the stored hash; otherwise the stored user. */
  function Authorize(users: seq<User>, c: Credentials, matches: (string, string) -> bool): (r: Option<AuthorizedUser>)
    ensures c.email == "" || c.password == "" ==> r.None?
    ensures (forall i :: 0 <= i < |users| ==> users[i].email != c.email) ==> r.None?
    ensures r.Some? ==> exists i :: 0 <= i < |users| && users[i].email == c.email
                                    && matches(c.password, users[i].password) && r.value == Authorized(users[i])
  {
    if c.email == "" || c.password == "" then None
    else
      match FindByKey(users, UserEmail, c.email)
      case None => None
      case Some(i) => if !matches(c.password, users[i].password) then None else Some(Authorized(users[i]))
  }

  /** With emails unique, sign-in succeeds exactly when both fields are given and the
      password matches the hash of the user with that email, and then yields that user. */
  lemma {:induction false} AuthorizeIffPasswordMatches(users: seq<User>, c: Credentials, matches: (string, string) -> bool, i: nat)
    requires UniqueBy(users, UserEmail)
    requires i < |users| && users[i].email == c.email
    ensures Authorize(users, c, matches) == if c.email != "" && c.password != "" && matches(c.password, users[i].password)
                                            then Some(Authorized(users[i])) else None
  {
    FindByKeyUnique(users, UserEmail, c.email);
  }

  /** A JavaScript field that may be missing, `null`, or a text. */
  datatype Value = Undefined | Null | Text(s: string)

  predicate Truthy(v: Value) {
    v.Text? && v.s != ""
  }

  /** A nullable column seen as a JavaScript value. */
  function ValueOf(o: Option<string>): Value {
    match o
    case None => Null
    case Some(s) => Text(s)
  }

  /** The `trigger` argument of the `jwt` callback. */
  datatype Trigger = SignIn | SignUp | Update | NoTrigger

  /** The fields of the JWT the callbacks read and write. */
  datatype TokenData = TokenData(sub: Value, name: Value, email: Value, username: Value, avatar: Value)

  /** The argument of a client's `update(...)`, as the `session` argument of `jwt`. */
  datatype SessionUpdate = SessionUpdate(name: Value, avatar: Value)

  /** The token after the `jwt` callback: on sign-in the user's username and avatar are
      copied in; on an update the name is taken when truthy and the avatar whenever it is
      given, `null` included. */
  function JwtResult(t: TokenData, user: Option<AuthorizedUser>, trigger: Trigger, update: Option<SessionUpdate>): TokenData {
    var t1 := if user.Some? then t.(username := ValueOf(user.value.username), avatar := ValueOf(user.value.avatar)) else t;
    if trigger != Update || update.None? then t1
    else
      var t2 := if Truthy(update.value.name) then t1.(name := update.value.name) else t1;
      if update.value.avatar != Undefined then t2.(avatar := update.value.avatar) else t2
  }

  /** The JWT, updated in place by the `jwt` callback. */
  class Token {
    var sub: Value
    var name: Value
    var email: Value
    var username: Value
    var avatar: Value

    function Data(): TokenData
      reads this
    {
      TokenData(sub, name, email, username, avatar)
    }

    constructor(d: TokenData)
      ensures Data() == d
    {
      sub, name, email, username, avatar := d.sub, d.name, d.email, d.username, d.avatar;
    }

    /** `jwt({ token, user, trigger, session })`. */
    method Jwt(user: Option<AuthorizedUser>, trigger: Trigger, update: Option<SessionUpdate>)
      modifies this
      ensures Data() == JwtResult(old(Data()), user, trigger, update)
    {
      if user.Some? {
        username := ValueOf(user.value.username);
        avatar := ValueOf(user.value.avatar);
      }
      if trigger == Update {
        if update.Some? && Truthy(update.value.name) {
          name := update.value.name;
        }
        if update.Some? && update.value.avatar != Undefined {
          avatar := update.value.avatar;
        }
      }
    }
  }

  /** On sign-in (no update) the token gets the user's username and avatar and nothing else
      changes. */
  lemma {:induction false} SignInCopiesProfile(t: TokenData, user: AuthorizedUser, trigger: Trigger, update: Option<SessionUpdate>)
    requires trigger != Update
    ensures JwtResult(t, Some(user), trigger, update)
            == t.(username := ValueOf(user.username), avatar := ValueOf(user.avatar))
  {
  }

  /** An update changes only the name and the avatar: the name exactly when the new one is
      truthy, the avatar exactly when one is given. */
  lemma {:induction false} UpdateTouchesNameAndAvatar(t: TokenData, u: SessionUpdate)
    ensures var r := JwtResult(t, None, Update, Some(u));
      && r.sub == t.sub && r.email == t.email && r.username == t.username
      && r.name == (if Truthy(u.name) then u.name else t.name)
      && r.avatar == (if u.avatar != Undefined then u.avatar else t.avatar)
  {
  }

  /** Repeating the same callback changes nothing more. */
  lemma {:induction false} JwtIdempotent(t: TokenData, user: Option<AuthorizedUser>, trigger: Trigger, update: Option<SessionUpdate>)
    ensures JwtResult(JwtResult(t, user, trigger, update), user, trigger, update) == JwtResult(t, user, trigger, update)
  {
  }

  /** The fields of `session.user` the `session` callback reads and writes. */
  datatype SessionUserData = SessionUserData(id: Value, name: Value, email: Value, username: Value, avatar: Value)

  /** `session.user` after the `session` callback: id from `token.sub`, username and avatar
      copied, and the name overridden only by a truthy token name. */
  function SessionResult(u: SessionUserData, t: TokenData): SessionUserData {
    u.(id := t.sub, username := t.username, avatar := t.avatar, name := if Truthy(t.name) then t.name else u.name)
  }

  /** `session.user`, updated in place by the `session` callback. */
  class SessionUserObject {
    var id: Value
    var name: Value
    var email: Value
    var username: Value
    var avatar: Value

    function Data(): SessionUserData
      reads this
    {
      SessionUserData(id, name, email, username, avatar)
    }

    constructor(d: SessionUserData)
      ensures Data() == d
    {
      id, name, email, username, avatar := d.id, d.name, d.email, d.username, d.avatar;
    }
  }

  /** `session({ session, token })`; a session without a user is left as it is. */
  method SessionCallback(user: SessionUserObject?, token: TokenData)
    modifies user
    ensures user != null ==> user.Data() == SessionResult(old(user.Data()), token)
  {
    if user != null {
      user.id := token.sub;
      user.username := token.username;
      user.avatar := token.avatar;
      if Truthy(token.name) {
        user.name := token.name;
      }
    }
  }

  /** A renamed profile reaches the session: after an update with a nonempty name, the next
      session carries it, and the email stays the session's own. */
  lemma {:induction false} RenameReachesSession(s: SessionUserData, t: TokenData, name: string, avatar: Value)
    requires name != ""
    ensures var r := SessionResult(s, JwtResult(t, None, Update, Some(SessionUpdate(Text(name), avatar))));
            r.name == Text(name) && r.email == s.email && r.id == t.sub
  {
  }

  /** A removed avatar reaches the session: an update with `avatar: null` leaves the next
      session without one. */
  lemma {:induction false} RemovedAvatarReachesSession(s: SessionUserData, t: TokenData, name: Value)
    ensures SessionResult(s, JwtResult(t, None, Update, Some(SessionUpdate(name, Null)))).avatar == Null
  {
  }

  /** After sign-in the session shows the stored username and avatar of the user. */
  lemma {:induction false} SignInReachesSession(s: SessionUserData, t: TokenData, u: AuthorizedUser)
    ensures var r := SessionResult(s, JwtResult(t, Some(u), SignIn, None));
            r.username == ValueOf(u.username) && r.avatar == ValueOf(u.avatar)
  {
  }
}
