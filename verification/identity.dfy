/**
 * Passwordless sign-in: issuing one-time login tokens, redeeming them for a
 * session, resolving and ending sessions, and the login/admin gates every
 * handler applies. The session table is an explicit map from session id to
 * e-mail address; fresh tokens, session ids and the clock are parameters.
 */
module Identity {
  import opened Wrappers
  import opened Seqs
  import opened Text
  import opened Store

  /** Ten minutes, in milliseconds. */
  const TokenLifetime: int := 10 * 60 * 1000

  /** Addresses with this suffix get administrator rights when their user is created. */
  const AdminSuffix: string := "@admin.local"

  /** Session id to e-mail address, held in process memory only. */
  type Sessions = map<string, string>

  /** The tables a sign-in never touches are equal in `a` and `b`. */
  predicate SameSurveyData(a: Db, b: Db) {
    && a.surveys == b.surveys
    && a.questions == b.questions
    && a.invitations == b.invitations
    && a.responses == b.responses
    && a.answers == b.answers
  }

  /** The display name a login records: the form's name, else the address's local part, else "User". */
  function LoginName(nameField: string, email: string): (r: string)
    ensures nameField == "" && Before(email, '@') != "" ==> r == Trim(Before(email, '@'))
    ensures nameField == "" && Before(email, '@') == "" ==> r == "User"
    ensures nameField != "" ==> r == Trim(nameField)
  {
    var local := Before(email, '@');
    var r := Trim(if nameField != "" then nameField else if local != "" then local else "User");
    assert Trim("User") == "User" by { TrimmedIsFixed("User"); }
    r
  }

  /**
   * `POST /login`: records the user on first sight, with the administrator
   * flag decided by the address suffix, and appends an unused token valid for
   * ten minutes. `token` is the freshly drawn random token text.
   */
  function Login(db: Db, emailField: string, nameField: string, token: string, now: int): (r: Db)
    ensures var e := NormalizeEmail(emailField);
      && HasUser(r, e)
      && (HasUser(db, e) ==> r.users == db.users)
      && (!HasUser(db, e) ==> r.users == db.users + [User(e, LoginName(nameField, e), EndsWith(e, AdminSuffix))])
      && r.loginTokens == db.loginTokens + [LoginToken(token, e, now + TokenLifetime, false)]
    ensures SameSurveyData(r, db)
  {
    var e := NormalizeEmail(emailField);
    var users :=
      if HasUser(db, e) then db.users
      else db.users + [User(e, LoginName(nameField, e), EndsWith(e, AdminSuffix))];
    var r := db.(users := users, loginTokens := db.loginTokens + [LoginToken(token, e, now + TokenLifetime, false)]);
    assert !HasUser(db, e) ==> r.users[|db.users|] in r.users;
    r
  }

  /** A token record that `GET /verify/{token}` accepts at time `now`. */
  predicate Redeemable(t: LoginToken, token: string, now: int) {
    t.token == token && !t.used && t.expiresAt > now
  }

  function RedeemableAt(token: string, now: int): LoginToken -> bool {
    (t: LoginToken) => Redeemable(t, token, now)
  }

  /**
   * `GET /verify/{token}`: the first unused, unexpired record with this token
   * text is marked used and a new session `sid` is bound to its address;
   * otherwise the request fails and nothing changes.
   */
  function Redeem(db: Db, sessions: Sessions, token: string, now: int, sid: string): (r: Result<(Db, Sessions), Failure>)
    ensures r.Ok? <==> exists i :: 0 <= i < |db.loginTokens| && Redeemable(db.loginTokens[i], token, now)
    ensures r.Err? ==> r.error == InvalidOrExpiredToken
    ensures r.Ok? ==> exists i ::
              && 0 <= i < |db.loginTokens| && Redeemable(db.loginTokens[i], token, now)
              && (forall j :: 0 <= j < i ==> !Redeemable(db.loginTokens[j], token, now))
              && r.value.0 == db.(loginTokens := db.loginTokens[i := db.loginTokens[i].(used := true)])
              && r.value.1 == sessions[sid := db.loginTokens[i].email]
  {
    match FindIndex(db.loginTokens, RedeemableAt(token, now))
    case None => Err(InvalidOrExpiredToken)
    case Some(i) =>
      var t := db.loginTokens[i];
      Ok((db.(loginTokens := db.loginTokens[i := t.(used := true)]), sessions[sid := t.email]))
  }

  /** `getUser`: the user a session cookie names, if the session and the user both exist. */
  function ResolveSession(db: Db, sessions: Sessions, sid: string): (r: Option<User>)
    ensures r.Some? ==> sid != "" && sid in sessions && r.value in db.users && r.value.email == sessions[sid]
    ensures r.None? <==> sid == "" || sid !in sessions || !HasUser(db, sessions[sid])
  {
    if sid == "" || sid !in sessions then None
    else Find(db.users, UserWith(sessions[sid]))
  }

  /** `GET /logout`: forgets the session named by the cookie. */
  function Logout(sessions: Sessions, sid: string): (r: Sessions)
    ensures sid != "" ==> sid !in r
    ensures forall k :: k in sessions && k != sid ==> k in r && r[k] == sessions[k]
    ensures forall k :: k in r ==> k in sessions
  {
    if sid != "" then sessions - {sid} else sessions
  }

  /** `requireLogin`: no user means a redirect to the login page. */
  function RequireLogin(user: Option<User>): (r: Result<User, Failure>)
    ensures r.Ok? <==> user.Some?
    ensures r.Ok? ==> r.value == user.value
    ensures r.Err? ==> r.error == Unauthenticated
  {
    match user
    case None => Err(Unauthenticated)
    case Some(u) => Ok(u)
  }

  /** `requireAdmin`: only a signed-in administrator passes; any other user is refused. */
  function RequireAdmin(user: Option<User>): (r: Result<User, Failure>)
    ensures r.Ok? <==> user.Some? && user.value.isAdmin
    ensures r.Ok? ==> r.value == user.value
    ensures user.None? ==> r == Err(Unauthenticated)
    ensures user.Some? && !user.value.isAdmin ==> r == Err(Forbidden)
  {
    match user
    case None => Err(Unauthenticated)
    case Some(u) => if u.isAdmin then Ok(u) else Err(Forbidden)
  }

  // Properties.

  /** A freshly issued token can be redeemed any time before it expires, and the session then names the user. */
  lemma LoginThenRedeem(db: Db, sessions: Sessions, emailField: string, nameField: string,
                        token: string, now: int, later: int, sid: string)
    requires forall t :: t in db.loginTokens ==> t.token != token
    requires later < now + TokenLifetime
    requires sid != ""
    ensures var db1 := Login(db, emailField, nameField, token, now);
      var r := Redeem(db1, sessions, token, later, sid);
      && r.Ok?
      && r.value.1[sid] == NormalizeEmail(emailField)
      && ResolveSession(r.value.0, r.value.1, sid).Some?
      && ResolveSession(r.value.0, r.value.1, sid).value.email == NormalizeEmail(emailField)
  {
    var e := NormalizeEmail(emailField);
    var db1 := Login(db, emailField, nameField, token, now);
    var n := |db.loginTokens|;
    assert Redeemable(db1.loginTokens[n], token, later);
    var r := Redeem(db1, sessions, token, later, sid);
    var i :| && 0 <= i < |db1.loginTokens| && Redeemable(db1.loginTokens[i], token, later)
             && r.value.0 == db1.(loginTokens := db1.loginTokens[i := db1.loginTokens[i].(used := true)])
             && r.value.1 == sessions[sid := db1.loginTokens[i].email];
    forall j | 0 <= j < n
      ensures db1.loginTokens[j].token != token
    {
      assert db1.loginTokens[j] == db.loginTokens[j];
      assert db.loginTokens[j] in db.loginTokens;
    }
    assert i == n;
    assert r.value.0.users == db1.users;
    assert HasUser(r.value.0, e);
  }

  /** A token works once: after a successful redemption the same token text is refused at any time. */
  lemma RedeemIsOneTime(db: Db, sessions: Sessions, token: string, now: int, sid: string, later: int, sid2: string)
    requires UniqueTokens(db)
    requires Redeem(db, sessions, token, now, sid).Ok?
    ensures var r := Redeem(db, sessions, token, now, sid).value;
      Redeem(r.0, r.1, token, later, sid2) == Err(InvalidOrExpiredToken)
  {
    var r := Redeem(db, sessions, token, now, sid).value;
    var i :| && 0 <= i < |db.loginTokens| && Redeemable(db.loginTokens[i], token, now)
             && r.0 == db.(loginTokens := db.loginTokens[i := db.loginTokens[i].(used := true)]);
    forall j | 0 <= j < |r.0.loginTokens|
      ensures !Redeemable(r.0.loginTokens[j], token, later)
    {
      if j != i {
        assert db.loginTokens[j].token != db.loginTokens[i].token;
      }
    }
  }

  /** Signing in never gives two users the same address. */
  lemma LoginKeepsUsersUnique(db: Db, emailField: string, nameField: string, token: string, now: int)
    requires UniqueUsers(db)
    ensures UniqueUsers(Login(db, emailField, nameField, token, now))
  {
    var e := NormalizeEmail(emailField);
    var r := Login(db, emailField, nameField, token, now);
    if !HasUser(db, e) {
      forall i, j | 0 <= i < j < |r.users|
        ensures r.users[i].email != r.users[j].email
      {
        if j == |db.users| {
          assert r.users[i] in db.users;
        }
      }
    }
  }

  /** Issuing a token whose text is new keeps token texts unique, so redemption stays one-time. */
  lemma LoginKeepsTokensUnique(db: Db, emailField: string, nameField: string, token: string, now: int)
    requires UniqueTokens(db)
    requires forall t :: t in db.loginTokens ==> t.token != token
    ensures UniqueTokens(Login(db, emailField, nameField, token, now))
  {
    var e := NormalizeEmail(emailField);
    var tokens := Login(db, emailField, nameField, token, now).loginTokens;
    assert tokens == db.loginTokens + [LoginToken(token, e, now + TokenLifetime, false)];
    forall i, j | 0 <= i < j < |tokens|
      ensures tokens[i].token != tokens[j].token
    {
      assert tokens[i] == db.loginTokens[i];
      if j == |db.loginTokens| {
        assert db.loginTokens[i] in db.loginTokens;
      } else {
        assert tokens[j] == db.loginTokens[j];
      }
    }
  }

  /** After logout the session cookie no longer resolves to anyone. */
  lemma LogoutEndsSession(db: Db, sessions: Sessions, sid: string)
    ensures ResolveSession(db, Logout(sessions, sid), sid).None?
  {
  }
}
