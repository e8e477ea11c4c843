/** The authentication service: credential checks, login, password change,
    account creation, refresh-token rotation and revocation, the permission
    middleware and the current-user lookup. The server state is the user table
    together with the in-process refresh-token list. */
module AuthService {
  import opened Wrappers
  import opened Js
  import opened Responses
  import Strings
  import UserTable
  import Registry
  import Externals
  import UserValidator
  import UserService

  /** The state the service reads and writes. */
  datatype Server = Server(db: UserTable.Db, refreshTokens: seq<string>)

  /** An operation's response together with the state it leaves behind. */
  datatype Outcome = Outcome(response: Response, server: Server)

  /** The user `id` holds exactly these email and password hash. */
  predicate HasCredentials(db: UserTable.Db, id: int, email: string, hash: string) {
    id in db.rows && db.rows[id].email == email && db.rows[id].passwordHash == hash
  }

  /** Login succeeds on these inputs: two non-empty strings, and some user
      holds the lower-cased email together with the password's hash. */
  ghost predicate CredentialsOk(db: UserTable.Db, env: Externals.Env, email: Value, password: Value) {
    && email.Str? && email.s != ""
    && password.Str? && password.s != ""
    && exists id :: HasCredentials(db, id, Strings.ToLower(email.s), env.hashPassword(password))
  }

  /** `validateLogin(email, password)`. Every failure is the same 400
      `LOGIN_INCORRECT`, whichever check failed; success returns the matching
      row with the least id, without its password column. */
  function ValidateLogin(db: UserTable.Db, env: Externals.Env, email: Value, password: Value): (r: Response)
    ensures r.status == 200 || r == Respond(400, LoginIncorrect, NoData)
    ensures r.status == 200 <==> CredentialsOk(db, env, email, password)
    ensures r.status == 200 ==>
      && r.body.message == Plain(Ok)
      && r.body.data.UserData?
      && HasCredentials(db, r.body.data.id, Strings.ToLower(email.s), env.hashPassword(password))
      && r.body.data.username == db.rows[r.body.data.id].username
      && r.body.data.email == db.rows[r.body.data.id].email
    ensures r.status == 200 ==>
      forall id :: id < r.body.data.id ==> !HasCredentials(db, id, Strings.ToLower(email.s), env.hashPassword(password))
  {
    if !Truthy(email) || !email.Str? then Respond(400, LoginIncorrect, NoData)
    else
      var e := Strings.ToLower(email.s);
      if !Truthy(password) || !password.Str? || |password.s| == 0 then Respond(400, LoginIncorrect, NoData)
      else
        var h := env.hashPassword(password);
        var rows := UserTable.Select(db, UserTable.CredentialsAre(e, h));
        if |rows| == 0 then
          assert forall id :: !HasCredentials(db, id, e, h);
          Respond(400, LoginIncorrect, NoData)
        else
          var id := rows[0];
          assert HasCredentials(db, id, e, h);
          assert forall other :: other < id ==> !HasCredentials(db, other, e, h);
          Respond(200, Ok, UserData(id, db.rows[id].username, db.rows[id].email))
  }

  /** `login(email, password)`: on success one refresh token is appended to the
      list and the response carries it with an access token, both signed for
      the user `validateLogin` found; on failure the `validateLogin` response
      comes back and nothing changes. */
  function Login(s: Server, env: Externals.Env, now: int, email: Value, password: Value): (r: Outcome)
    ensures r.server.db == s.db
    ensures r.response.status == 200 <==> CredentialsOk(s.db, env, email, password)
    ensures r.response.status != 200 ==> r.response == ValidateLogin(s.db, env, email, password) && r.server == s
    ensures r.response.status == 200 ==>
      var id := ValidateLogin(s.db, env, email, password).body.data.id;
      && r.response == Respond(200, Ok, TokenPair(env.signAccess(id, now), env.signRefresh(id, now)))
      && r.server.refreshTokens == s.refreshTokens + [env.signRefresh(id, now)]
  {
    var response := ValidateLogin(s.db, env, email, password);
    if response.status == 200 then
      var id := response.body.data.id;
      var accessToken := env.signAccess(id, now);
      var refreshToken := env.signRefresh(id, now);
      Outcome(Response(200, Body(response.body.message, TokenPair(accessToken, refreshToken))),
              s.(refreshTokens := s.refreshTokens + [refreshToken]))
    else
      Outcome(response, s)
  }

  /** `changePassword(email, oldPassword, newPassword)`: only when the old
      credentials log in does it store the new hash, and it stores it on the
      rows whose email equals the caller's email as typed, not lower-cased. */
  function ChangePassword(s: Server, env: Externals.Env, email: Value, oldPassword: Value, newPassword: Value): (r: Outcome)
    ensures r.server.refreshTokens == s.refreshTokens
    ensures r.response.status == 200 <==> CredentialsOk(s.db, env, email, oldPassword)
    ensures r.response.status != 200 ==> r.response == Respond(400, LoginIncorrect, NoData) && r.server == s
    ensures r.response.status == 200 ==>
      && r.response == Respond(200, PasswordChangeSuccessful, NullData)
      && r.server.db.rows.Keys == s.db.rows.Keys
      && r.server.db.nextId == s.db.nextId
      && (forall id :: id in s.db.rows && s.db.rows[id].email == email.s ==>
            r.server.db.rows[id] == s.db.rows[id].(passwordHash := env.hashPassword(newPassword)))
      && (forall id :: id in s.db.rows && s.db.rows[id].email != email.s ==> r.server.db.rows[id] == s.db.rows[id])
  {
    var response := ValidateLogin(s.db, env, email, oldPassword);
    if response.status == 200 then
      var hash := env.hashPassword(newPassword);
      Outcome(Respond(200, PasswordChangeSuccessful, NullData),
              s.(db := UserTable.SetPasswordWhereEmail(s.db, email.s, hash)))
    else
      Outcome(response, s)
  }

  /** `createAccount(username, email, password)`: 400 `CREATE_ACCOUNT_FAILED`
      unless all three are non-empty strings, 400 `EMAIL_IN_USE` when the
      lower-cased email is stored already, otherwise exactly one new row. */
  function CreateAccount(s: Server, env: Externals.Env, username: Value, email: Value, password: Value): (r: Outcome)
    ensures r.server.refreshTokens == s.refreshTokens
    ensures !(IsFilledString(username) && IsFilledString(email) && IsFilledString(password)) ==>
      r == Outcome(Respond(400, CreateAccountFailed, NoData), s)
    ensures IsFilledString(username) && IsFilledString(email) && IsFilledString(password)
            && UserTable.EmailTaken(s.db, Strings.ToLower(email.s)) ==>
      r == Outcome(Respond(400, EmailInUse, NoData), s)
    ensures r.response.status == 200 <==>
      IsFilledString(username) && IsFilledString(email) && IsFilledString(password)
      && !UserTable.EmailTaken(s.db, Strings.ToLower(email.s))
    ensures r.response.status == 200 ==>
      && r.response == Respond(200, Ok, NullData)
      && s.db.nextId !in s.db.rows
      && r.server.db.rows == s.db.rows[s.db.nextId := UserTable.UserRow(username.s, Strings.ToLower(email.s), env.hashPassword(password))]
  {
    if !Truthy(username) || !username.Str? then Outcome(Respond(400, CreateAccountFailed, NoData), s)
    else if !Truthy(email) || !email.Str? then Outcome(Respond(400, CreateAccountFailed, NoData), s)
    else
      var e := Strings.ToLower(email.s);
      if !Truthy(password) || !password.Str? || |password.s| == 0 then Outcome(Respond(400, CreateAccountFailed, NoData), s)
      else
        var hash := env.hashPassword(password);
        var rows := UserTable.Select(s.db, UserTable.EmailIs(e));
        if |rows| > 0 then
          assert rows[0] in s.db.rows;
          Outcome(Respond(400, EmailInUse, NoData), s)
        else
          assert !UserTable.EmailTaken(s.db, e);
          Outcome(Respond(200, Ok, NullData),
                  s.(db := UserTable.Insert(s.db, UserTable.UserRow(username.s, e, hash))))
  }

  /** The refresh token passed to the refresh endpoint is a listed string. */
  predicate Listed(s: Server, token: Value) {
    token.Str? && token.s in s.refreshTokens
  }

  /** `refreshAccessToken(refreshToken)`: 401 when the token is missing, 403
      when it is not listed or does not verify, all as `REFRESH_TOKEN_INVALID`
      and without a change. On success the first occurrence of the old token
      leaves the list, the new refresh token is appended, and both new tokens
      are signed for the id in the old token's payload. */
  function RefreshAccessToken(s: Server, env: Externals.Env, now: int, refreshToken: Value): (r: Outcome)
    ensures r.server.db == s.db
    ensures r.response.status == 401 <==> !Truthy(refreshToken)
    ensures r.response.status == 200 <==>
      Truthy(refreshToken) && Listed(s, refreshToken) && env.verifyRefresh(refreshToken.s, now).TokenValid?
    ensures r.response.status != 200 ==>
      && r.server == s
      && (r.response.status == 401 || r.response.status == 403)
      && r.response.body == Body(Plain(RefreshTokenInvalid), NoData)
    ensures r.response.status == 200 ==>
      var id := env.verifyRefresh(refreshToken.s, now).id;
      var minted := env.signRefresh(id, now);
      && r.response == Respond(200, AccessTokenRefreshed, TokenPair(env.signAccess(id, now), minted))
      && |r.server.refreshTokens| == |s.refreshTokens|
      && multiset(r.server.refreshTokens) == multiset(s.refreshTokens) - multiset{refreshToken.s} + multiset{minted}
      && r.server.refreshTokens[|s.refreshTokens| - 1] == minted
  {
    if !Truthy(refreshToken) then Outcome(Respond(401, RefreshTokenInvalid, NoData), s)
    else if !Listed(s, refreshToken) then Outcome(Respond(403, RefreshTokenInvalid, NoData), s)
    else
      match env.verifyRefresh(refreshToken.s, now)
      case TokenValid(id) =>
        var accessToken := env.signAccess(id, now);
        var newRefreshToken := env.signRefresh(id, now);
        var tokens := Registry.RemoveFirst(s.refreshTokens, refreshToken.s) + [newRefreshToken];
        Outcome(Respond(200, AccessTokenRefreshed, TokenPair(accessToken, newRefreshToken)),
                s.(refreshTokens := tokens))
      case _ => Outcome(Respond(403, RefreshTokenInvalid, NoData), s)
  }

  /** `logout(refreshToken)`: always 200 `OK`; a listed token loses its first
      occurrence, anything else leaves the state alone. */
  function Logout(s: Server, refreshToken: Value): (r: Outcome)
    ensures r.response == Respond(200, Ok, NoData)
    ensures r.server.db == s.db
    ensures Truthy(refreshToken) && Listed(s, refreshToken) ==>
      && |r.server.refreshTokens| == |s.refreshTokens| - 1
      && multiset(r.server.refreshTokens) == multiset(s.refreshTokens) - multiset{refreshToken.s}
    ensures !(Truthy(refreshToken) && Listed(s, refreshToken)) ==> r.server == s
  {
    if Truthy(refreshToken) && refreshToken.Str? then
      Outcome(Respond(200, Ok, NoData), s.(refreshTokens := Registry.RemoveFirst(s.refreshTokens, refreshToken.s)))
    else
      Outcome(Respond(200, Ok, NoData), s)
  }

  /** `getUserPermissions(id)`. The test after the lookup is an assignment
      (`result.status = 200`), so every id that passes `validateUserId` gets
      permission and the `PERMISSION_NONE` answer never occurs. */
  function GetUserPermissions(db: UserTable.Db, env: Externals.Env, id: Value): (r: Response)
    ensures r.status == 200
    ensures r.body.data != Permission(false)
    ensures r.body.data == Permission(true) <==> UserValidator.ValidateUserId(db, env, id) == UserValidator.Valid
    ensures r.body.data == Permission(true) ==> r.body.message == Plain(PermissionAdmin)
    ensures r.body.data != Permission(true) ==>
      r == Respond(200, UserValidator.ValidateUserId(db, env, id).reason, NoData)
  {
    var valid := UserValidator.ValidateUserId(db, env, id);
    if valid.Invalid? then Respond(200, valid.reason, NoData)
    else
      // The lookup `user.getById(id)` happens here, but its status is
      // overwritten by the assignment before it is tested.
      Respond(200, PermissionAdmin, Permission(true))
  }

  /** `getAccessToken(req)`: the second space-separated field of the
      Authorization header, when that field is non-empty. The first field is
      not checked to be "Bearer". A header cut at its spaces into `fields`
      is their join, so the last ensures pins the token down for every header
      holding a space. */
  function GetAccessToken(authorization: Option<string>): (token: Option<string>)
    ensures token.Some? ==> token.value != "" && ' ' !in token.value && authorization.Some?
    ensures authorization.Some? && ' ' !in authorization.value ==> token.None?
    ensures forall fields: seq<string> ::
      && |fields| >= 2
      && (forall k :: 0 <= k < |fields| ==> ' ' !in fields[k])
      && authorization == Some(Strings.Join(fields, ' '))
      ==> token == if fields[1] == "" then None else Some(fields[1])
  {
    if authorization.None? || authorization.value == "" then None
    else
      var fields := Strings.Split(authorization.value, ' ');
      assert forall other: seq<string> ::
        && |other| >= 2
        && (forall k :: 0 <= k < |other| ==> ' ' !in other[k])
        && authorization.value == Strings.Join(other, ' ')
        ==> other == fields
      by {
        forall other: seq<string> |
          && |other| >= 2
          && (forall k :: 0 <= k < |other| ==> ' ' !in other[k])
          && authorization.value == Strings.Join(other, ' ')
          ensures other == fields
        {
          Strings.SplitOfJoin(other, ' ');
        }
      }
      if |fields| == 1 then
        Strings.SplitOfPiece(authorization.value, ' ');
        None
      else if fields[1] != "" then Some(fields[1])
      else None
  }

  /** The request as the permission middleware sees it. */
  datatype Request = Request(authorization: Option<string>, permission: Option<bool>)

  /** What the middleware does with a request: answer it and stop, pass it on
      to the next handler, or neither (the property read on a response
      without permission data throws inside the verification callback). */
  datatype Gate = Halt(response: Response) | Next(request: Request) | Stall

  /** `getCurrentPermission(req, res, next)`: clears any permission the
      request arrived with; no token passes the request on without one; an
      expired or otherwise failing token stops it with 401; a valid token sets
      the permission `getUserPermissions` grants for the payload's id. */
  function GetCurrentPermission(db: UserTable.Db, env: Externals.Env, now: int, req: Request): (r: Gate)
    ensures GetAccessToken(req.authorization).None? ==> r == Next(req.(permission := None))
    ensures
      && GetAccessToken(req.authorization).Some?
      && env.verifyAccess(GetAccessToken(req.authorization).value, now).TokenValid?
      && env.verifyAccess(GetAccessToken(req.authorization).value, now).id in db.rows
      ==> r == Next(req.(permission := Some(true)))
    ensures r.Next? ==> r.request.authorization == req.authorization
    ensures r.Next? && r.request.permission.Some? ==>
      && r.request.permission == Some(true)
      && GetAccessToken(req.authorization).Some?
      && env.verifyAccess(GetAccessToken(req.authorization).value, now).TokenValid?
      && env.verifyAccess(GetAccessToken(req.authorization).value, now).id in db.rows
    ensures r.Halt? <==>
      GetAccessToken(req.authorization).Some? && !env.verifyAccess(GetAccessToken(req.authorization).value, now).TokenValid?
    ensures r.Halt? ==>
      var check := env.verifyAccess(GetAccessToken(req.authorization).value, now);
      r.response == Respond(401, if check.TokenExpired? then AccessTokenExpired else AccessTokenInvalid, NoData)
    ensures r.Stall? <==>
      && GetAccessToken(req.authorization).Some?
      && env.verifyAccess(GetAccessToken(req.authorization).value, now).TokenValid?
      && env.verifyAccess(GetAccessToken(req.authorization).value, now).id !in db.rows
  {
    var cleared := req.(permission := None);
    var token := GetAccessToken(req.authorization);
    if token.None? then Next(cleared)
    else
      match env.verifyAccess(token.value, now)
      case TokenExpired => Halt(Respond(401, AccessTokenExpired, NoData))
      case TokenInvalid(_) => Halt(Respond(401, AccessTokenInvalid, NoData))
      case TokenValid(id) =>
        var granted := GetUserPermissions(db, env, Num(id));
        if granted.body.data.Permission? then Next(cleared.(permission := Some(granted.body.data.permission)))
        else Stall
  }

  /** `getCurrentUser(accessToken)`: 403 without a token, 401 for an expired
      one, 403 with the verifier's message for any other failure; a valid
      token yields the user row of its payload's id, and a failed lookup is
      passed on with the lookup's status and its whole body as the message. */
  function GetCurrentUser(db: UserTable.Db, env: Externals.Env, now: int, accessToken: Option<string>): (r: Response)
    ensures accessToken.None? || accessToken.value == "" ==> r == Respond(403, AccessTokenInvalid, NoData)
    ensures accessToken.Some? && accessToken.value != "" ==>
      match env.verifyAccess(accessToken.value, now)
      case TokenExpired => r == Respond(401, AccessTokenExpired, NoData)
      case TokenInvalid(reason) => r == Respond(403, AccessTokenInvalid, Reasons([reason]))
      case TokenValid(id) =>
        && (r.status == 200 <==> id in db.rows)
        && (id in db.rows ==> r == Respond(200, Ok, UserData(id, db.rows[id].username, db.rows[id].email)))
        && (id == 0 ==> r == Response(400, Body(Nested(Body(Plain(ValidationError), Reasons([FieldUserIdInvalid]))), NoData)))
        && (id != 0 && id !in db.rows ==> r == Response(404, Body(Nested(Body(Plain(UserNotFound), NoData)), NoData)))
  {
    if accessToken.None? || accessToken.value == "" then Respond(403, AccessTokenInvalid, NoData)
    else
      match env.verifyAccess(accessToken.value, now)
      case TokenExpired => Respond(401, AccessTokenExpired, NoData)
      case TokenInvalid(reason) => Respond(403, AccessTokenInvalid, Reasons([reason]))
      case TokenValid(id) =>
        var found := UserService.GetById(db, env, Num(id));
        if found.status == 200 then Respond(200, Ok, found.body.data)
        else Response(found.status, Body(Nested(found.body), NoData))
  }
}
