/** Properties that relate several calls of the authentication service. */
module AuthProperties {
  import opened Wrappers
  import opened Js
  import opened Responses
  import Strings
  import UserTable
  import Registry
  import Externals
  import opened AuthService
  import UserValidator
  import UserService

  /** Failed logins answer identically, whatever the cause: an unknown email
      and a wrong password cannot be told apart. */
  lemma LoginFailuresIndistinguishable(
    s: Server, env: Externals.Env, now: int, email1: Value, password1: Value, email2: Value, password2: Value)
    requires Login(s, env, now, email1, password1).response.status != 200
    requires Login(s, env, now, email2, password2).response.status != 200
    ensures Login(s, env, now, email1, password1) == Login(s, env, now, email2, password2)
  {
  }

  /** The table invariants account creation keeps: one row per email, and
      stored emails in lower case. */
  predicate EmailsWellKept(db: UserTable.Db) {
    UserTable.UniqueEmails(db) && UserTable.LowercaseEmails(db)
  }

  /** Account creation keeps both invariants. */
  lemma CreateAccountKeepsEmails(s: Server, env: Externals.Env, username: Value, email: Value, password: Value)
    requires EmailsWellKept(s.db)
    ensures EmailsWellKept(CreateAccount(s, env, username, email, password).server.db)
  {
  }

  /** A password change keeps both invariants: no email changes. */
  lemma ChangePasswordKeepsEmails(s: Server, env: Externals.Env, email: Value, oldPassword: Value, newPassword: Value)
    requires EmailsWellKept(s.db)
    ensures EmailsWellKept(ChangePassword(s, env, email, oldPassword, newPassword).server.db)
  {
  }

  /** An account just created logs in with the same email and password, and
      the tokens are issued for the new row's id. */
  lemma CreatedAccountCanLogIn(
    s: Server, env: Externals.Env, now: int, username: Value, email: Value, password: Value)
    requires CreateAccount(s, env, username, email, password).response.status == 200
    ensures
      var created := CreateAccount(s, env, username, email, password).server;
      var id := s.db.nextId;
      Login(created, env, now, email, password).response
        == Respond(200, Ok, TokenPair(env.signAccess(id, now), env.signRefresh(id, now)))
  {
    var created := CreateAccount(s, env, username, email, password).server;
    var id := s.db.nextId;
    var e := Strings.ToLower(email.s);
    var h := env.hashPassword(password);
    // The new row holds the credentials, and no older row holds the email.
    assert HasCredentials(created.db, id, e, h);
    assert forall x :: x in s.db.rows ==> s.db.rows[x].email != e;
  }

  /** Email uniqueness ignores case: once an account exists for an email,
      creating one for any spelling with the same lower case fails. */
  lemma EmailUniquenessIgnoresCase(
    s: Server, env: Externals.Env,
    username: Value, email: Value, password: Value,
    username2: Value, email2: Value, password2: Value)
    requires CreateAccount(s, env, username, email, password).response.status == 200
    requires IsFilledString(username2) && IsFilledString(email2) && IsFilledString(password2)
    requires email2.Str? && email.Str? && Strings.ToLower(email2.s) == Strings.ToLower(email.s)
    ensures
      var created := CreateAccount(s, env, username, email, password).server;
      CreateAccount(created, env, username2, email2, password2) == Outcome(Respond(400, EmailInUse, NoData), created)
  {
    var created := CreateAccount(s, env, username, email, password).server;
    assert created.db.rows[s.db.nextId].email == Strings.ToLower(email2.s);
  }

  /** Two sign-ups whose emails differ only in case: the second is refused. */
  lemma EmailInUseExample(s: Server, env: Externals.Env)
    requires !UserTable.EmailTaken(s.db, "a@x.com")
    ensures
      var created := CreateAccount(s, env, Str("alice"), Str("A@x.com"), Str("pw1!2345")).server;
      CreateAccount(created, env, Str("bob"), Str("a@x.com"), Str("anything")).response == Respond(400, EmailInUse, NoData)
  {
    assert Strings.ToLower("A@x.com") == "a@x.com";
    assert Strings.ToLower("a@x.com") == "a@x.com";
    EmailUniquenessIgnoresCase(s, env, Str("alice"), Str("A@x.com"), Str("pw1!2345"), Str("bob"), Str("a@x.com"), Str("anything"));
  }

  /** A refresh token listed once can be rotated only once: after a
      successful refresh that minted a different token, the old one is refused. */
  lemma RefreshTokenRotatesOnce(s: Server, env: Externals.Env, now: int, later: int, token: string)
    requires Registry.Count(s.refreshTokens, token) == 1
    requires RefreshAccessToken(s, env, now, Str(token)).response.status == 200
    requires RefreshAccessToken(s, env, now, Str(token)).response.body.data.refreshToken != token
    ensures
      var rotated := RefreshAccessToken(s, env, now, Str(token)).server;
      RefreshAccessToken(rotated, env, later, Str(token)) == Outcome(Respond(403, RefreshTokenInvalid, NoData), rotated)
  {
  }

  /** After logging out with a refresh token listed once, that token no
      longer refreshes. */
  lemma LogoutRevokes(s: Server, env: Externals.Env, now: int, token: string)
    requires token != "" && Registry.Count(s.refreshTokens, token) == 1
    ensures
      var out := Logout(s, Str(token)).server;
      RefreshAccessToken(out, env, now, Str(token)) == Outcome(Respond(403, RefreshTokenInvalid, NoData), out)
  {
  }

  /** Logging out twice with a token listed at most once is the same as logging out once. */
  lemma LogoutIdempotent(s: Server, token: Value)
    requires token.Str? ==> Registry.Count(s.refreshTokens, token.s) <= 1
    ensures Logout(Logout(s, token).server, token) == Logout(s, token)
  {
  }

  /** Login followed by a refresh with the issued refresh token succeeds when
      that token still verifies. */
  lemma LoginThenRefresh(s: Server, env: Externals.Env, now: int, later: int, email: Value, password: Value)
    requires Login(s, env, now, email, password).response.status == 200
    requires
      var issued := Login(s, env, now, email, password).response.body.data.refreshToken;
      issued != "" && env.verifyRefresh(issued, later).TokenValid?
    ensures
      var r := Login(s, env, now, email, password);
      RefreshAccessToken(r.server, env, later, Str(r.response.body.data.refreshToken)).response.status == 200
  {
  }

  /** With a lower-case email, a password change makes the new password log
      in and, when the hashes differ, the old one fail. */
  lemma ChangePasswordTakesEffect(
    s: Server, env: Externals.Env, email: string, oldPassword: Value, newPassword: Value)
    requires Strings.IsLowercase(email)
    requires ChangePassword(s, env, Str(email), oldPassword, newPassword).response.status == 200
    requires IsFilledString(newPassword)
    ensures
      var changed := ChangePassword(s, env, Str(email), oldPassword, newPassword).server;
      && CredentialsOk(changed.db, env, Str(email), newPassword)
      && (env.hashPassword(oldPassword) != env.hashPassword(newPassword) ==>
            !CredentialsOk(changed.db, env, Str(email), oldPassword))
  {
    var changed := ChangePassword(s, env, Str(email), oldPassword, newPassword).server;
    assert CredentialsOk(s.db, env, Str(email), oldPassword);
    var id :| HasCredentials(s.db, id, Strings.ToLower(email), env.hashPassword(oldPassword));
    assert Strings.ToLower(email) == email;
    assert HasCredentials(changed.db, id, email, env.hashPassword(newPassword));
  }

  /** The update matches the email as typed while the login check lowers it:
      with stored emails in lower case, a mixed-case email passes the check,
      reports success, and changes nothing. */
  lemma ChangePasswordIgnoresMixedCase(
    s: Server, env: Externals.Env, email: string, oldPassword: Value, newPassword: Value)
    requires UserTable.LowercaseEmails(s.db)
    requires !Strings.IsLowercase(email)
    requires CredentialsOk(s.db, env, Str(email), oldPassword)
    ensures ChangePassword(s, env, Str(email), oldPassword, newPassword)
      == Outcome(Respond(200, PasswordChangeSuccessful, NullData), s)
  {
  }

  /** The access-token check is mapped differently by the two callers: both
      answer 401 to an expired token, but a token failing otherwise gets 403
      with the verifier's message from `getCurrentUser` and a bare 401 from
      the permission middleware. */
  lemma AccessTokenFailureMapping(db: UserTable.Db, env: Externals.Env, now: int, req: Request)
    requires GetAccessToken(req.authorization).Some?
    ensures
      var token := GetAccessToken(req.authorization).value;
      match env.verifyAccess(token, now)
      case TokenExpired =>
        && GetCurrentUser(db, env, now, Some(token)) == Respond(401, AccessTokenExpired, NoData)
        && GetCurrentPermission(db, env, now, req) == Halt(Respond(401, AccessTokenExpired, NoData))
      case TokenInvalid(reason) =>
        && GetCurrentUser(db, env, now, Some(token)) == Respond(403, AccessTokenInvalid, Reasons([reason]))
        && GetCurrentPermission(db, env, now, req) == Halt(Respond(401, AccessTokenInvalid, NoData))
      case TokenValid(_) => true
  {
  }

  /** The permission a request arrives with never survives the middleware. */
  lemma ForgedPermissionIgnored(db: UserTable.Db, env: Externals.Env, now: int, req: Request, forged: Option<bool>)
    ensures GetCurrentPermission(db, env, now, req.(permission := forged)) == GetCurrentPermission(db, env, now, req)
  {
  }

  /** Any first word is accepted in place of "Bearer". */
  lemma SchemeNotChecked(scheme: string, token: string)
    requires ' ' !in scheme && ' ' !in token && token != ""
    ensures GetAccessToken(Some(scheme + " " + token)) == Some(token)
  {
    assert Strings.Join([scheme, token], ' ') == scheme + " " + token;
  }

  /** An id that passes `validateUserId` is always found by `getById` as
      well, so even a comparison in place of the assignment would grant the
      permission: the `PERMISSION_NONE` answer is out of reach either way. */
  lemma LookupAfterValidIdSucceeds(db: UserTable.Db, env: Externals.Env, id: Value)
    requires UserValidator.ValidateUserId(db, env, id) == UserValidator.Valid
    ensures UserService.GetById(db, env, id).status == 200
  {
  }

  /** The `== NaN` guard of `getById` never answers: a truthy id is never
      refused with 400, whatever `parseInt` makes of it. */
  lemma NaNGuardNeverFires(db: UserTable.Db, env: Externals.Env, id: Value)
    requires Truthy(id)
    ensures UserService.GetById(db, env, id).status != 400
  {
  }
}
