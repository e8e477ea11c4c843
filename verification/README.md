# Authentication service of the Library backend, in Dafny

This project models the backend authentication service of the Library web
application (`api/services/auth.js`), the user input validators
(`api/validators/user.js`) and the user lookup `getById`
(`api/services/user.js`), and proves properties of the model.

The server state is a `Server` record with two parts:

- the `user` table, a map from id to `UserRow(username, email, passwordHash)`
  with an auto-increment counter. Every id lies below the counter, which the
  subset type `UserTable.Db` enforces.
- the in-process refresh-token list, a `seq<string>`. The source keeps it in a
  plain array, so it may hold the same token twice. Appends do not
  deduplicate, and removal deletes only the first occurrence. Rotation and
  revocation are therefore stated with occurrence counts (multisets).

Every operation is a pure function. It takes the state and returns its
`{status, body: {message, data}}` response, plus the new state when the
operation changes anything. The routes send a rejected response just like a
resolved one, with its own status and body, so resolve and reject are one
`Response` here.

The model does not look inside the library calls. These are password
hashing, `jwt.sign` for access and refresh tokens, `jwt.verify` and
`parseInt`. They are function values in `Externals.Env`. The clock that
signing and verification read is a parameter `now`. Verification returns
`TokenValid(id)`, `TokenExpired` or `TokenInvalid(message)`, and the model
covers only the branching on that outcome.

Request inputs are JavaScript values (`Js.Value`), so the `!x` and
`typeof x != 'string'` guards are modelled exactly. The queries have no
`ORDER BY`. As a modelling assumption, a `SELECT` returns its rows in
ascending id order, so the source's `rows[0]` is the matching row with the
least id. The choice does not matter for reachable states, because account
creation keeps one row per email (`CreateAccountKeepsEmails`).

Source quirks the model keeps:

- `getUserPermissions` assigns `result.status = 200` instead of comparing. Every
  id that passes `validateUserId` gets `permission: true`, and
  `PERMISSION_NONE` never occurs. `LookupAfterValidIdSucceeds` shows that a
  comparison would have changed nothing, because the lookup cannot fail once
  the id has passed the validator.
- `validatePassword` builds the 8-character length response and then drops it,
  so short passwords pass.
- The `== NaN` guards never fire. A `NaN` id reaches the SQL query, where MySQL
  rejects the bare word `NaN`. `validateUserId` catches that error and answers
  `FIELD_USER_ID_INVALID`. `getById` does not catch it, so its promise
  rejects. No modelled caller reaches that case: `getUserPermissions` calls
  `getById` only after `validateUserId` has passed, and `getCurrentUser` passes
  it the id of a verified token. The model shows the rejection as a 500
  `GENERAL_ERROR` response, standing in for the thrown error.
- `changePassword` checks the credentials with the lower-cased email but updates
  the rows whose email equals the email as typed. Stored emails are lower case,
  so a mixed-case email reports success and changes nothing
  (`ChangePasswordIgnoresMixedCase`).
- `getCurrentUser` passes a failed lookup on with the lookup's whole body in the
  `message` position (`Message.Nested`).
- A valid access token whose user no longer exists makes the permission
  middleware read `.permission` of undefined data. The request then gets no
  answer and `next()` is never called (`Gate.Stall`).
- `jwt.sign` of the same payload in the same second can return the same string.
  A rotation can then mint the token it removed. The rotate-once property
  therefore assumes that the new token differs from the old one.

## Model

| member | source | states |
|---|---|---|
| `Strings.ToLower` | api/services/auth.js:39 | Lower-cases letter by letter and keeps the length. The result is lower case, and an input already in lower case comes back unchanged. |
| `Strings.Split` | api/services/auth.js:297 | `split(' ')` never returns an empty list, no piece holds the separator, and joining the pieces with the separator gives back the input. |
| `Strings.SplitOfJoin` | api/services/auth.js:297 | Splitting undoes joining for any list of separator-free pieces, so the pieces of a string are uniquely determined. |
| `Seqs.FirstIndex` | api/services/auth.js:204 | `findIndex` returns the first position holding the token, or -1 exactly when the token is absent. |
| `Registry.RemoveFirst` | api/services/auth.js:204-205 | Deletes the first occurrence only. It keeps the order of the rest and lowers the token's count by one. An absent token leaves the list unchanged. |
| `Registry.RotationCounts` | api/services/auth.js:172-177 | Rotation takes one occurrence of the old token and adds one of the new token. Every other token's count is unchanged. |
| `UserTable.Select` | api/services/auth.js:49-55 | Returns every row matching the WHERE clause and only those, in strictly ascending id order. |
| `UserValidator.ValidateUsername` | api/validators/user.js:17-26 | Valid exactly for strings of 1 to 100 characters. Non-strings and empty strings get `FIELD_USERNAME_INVALID`, and longer strings get `INVALID_USERNAME_LENGTH`. |
| `UserValidator.EmailFormatIsRegex` | api/validators/user.js:37 | The index-based check accepts exactly the language of `^[\w.+-]+@[\w.-]+\.[\w]{2,18}$`. |
| `UserValidator.EmailHasOneAt` | api/validators/user.js:37 | Every string the pattern accepts holds exactly one '@'. |
| `UserValidator.ValidateEmail` | api/validators/user.js:33-53 | Bad format gives `INVALID_EMAIL`. Otherwise `EMAIL_IN_USE` holds exactly when a user other than the given id has the lower-cased email, and in every other case the email is valid. |
| `UserValidator.ValidatePassword` | api/validators/user.js:60-76 | The checks run in order: non-string or empty, no digit, no non-alphanumeric character, then repeat mismatch. The password is valid exactly when all four pass, and length plays no part. |
| `UserValidator.ShortPasswordAccepted` | api/validators/user.js:66 | A 3-character password with a digit and a special character passes. |
| `UserValidator.ValidateUserId` | api/validators/user.js:83-101 | A falsy or NaN id gives `FIELD_USER_ID_INVALID`. An id without a row gives `USER_NOT_FOUND` with code 404, and an existing id is valid. |
| `UserService.GetById` | api/services/user.js:13-26 | A falsy id gives 400 `VALIDATION_ERROR` with `[FIELD_USER_ID_INVALID]`. A missing row gives 404 `USER_NOT_FOUND`. A present row gives 200 with its id, username and email and no password. A NaN id gives 500. |
| `AuthService.ValidateLogin` | api/services/auth.js:31-59 | Returns 200 exactly when some user holds the lower-cased email and the password's hash, together with the least such row. Every failure is the same 400 `LOGIN_INCORRECT`. |
| `AuthService.Login` | api/services/auth.js:68-83 | On success it appends exactly one refresh token and returns the token pair signed for the matched user. On failure the `validateLogin` response comes back and the state is unchanged. |
| `AuthService.ChangePassword` | api/services/auth.js:92-107 | Changes the table only when the old credentials log in. It then sets the new hash on exactly the rows whose email equals the email as typed and leaves every other field and row alone. Otherwise it answers `LOGIN_INCORRECT` and changes nothing. |
| `AuthService.CreateAccount` | api/services/auth.js:115-153 | A falsy or non-string field gives `CREATE_ACCOUNT_FAILED`. A stored lower-cased email gives `EMAIL_IN_USE`. Otherwise it inserts exactly one row (username, lower-cased email, hash) under a new id and answers 200 with null data. |
| `AuthService.RefreshAccessToken` | api/services/auth.js:160-183 | A missing token gives 401. An unlisted token or a failed verification gives 403. All failures carry `REFRESH_TOKEN_INVALID` and change nothing. Success swaps one occurrence of the old token for the new one and returns the pair signed for the payload's id. |
| `AuthService.Logout` | api/services/auth.js:200-209 | Always 200 `OK`. A listed token loses exactly one occurrence, and anything else leaves the state unchanged. |
| `AuthService.GetUserPermissions` | api/services/auth.js:216-225 | Always 200. It grants `permission: true` exactly for the ids that pass `validateUserId` and never answers `permission: false`. |
| `AuthService.GetAccessToken` | api/services/auth.js:295-299 | A missing header or one without a space yields no token. For a header made of separator-free fields joined by single spaces, the token is the second field when that field is non-empty and absent otherwise. |
| `AuthService.GetCurrentPermission` | api/services/auth.js:234-259 | Without a token the request passes with the permission cleared. An expired token stops it with 401 `ACCESS_TOKEN_EXPIRED`, and any other failing token with 401 `ACCESS_TOKEN_INVALID`. A verified token whose user exists passes the request on with permission `true`, and only such a token sets a permission. A verified token whose user is gone gets neither an answer nor `next()`. |
| `AuthService.GetCurrentUser` | api/services/auth.js:266-288 | No token gives 403 and an expired one 401. Any other failure gives 403 with the verifier's message. A valid token gives the user row of its id, and a failed lookup is passed on nested with the lookup's status. |
| `AuthProperties.LoginFailuresIndistinguishable` | api/services/auth.js:32-55 | Two failed logins produce identical outcomes whatever their cause, so the answer does not reveal whether the email exists. |
| `AuthProperties.CreateAccountKeepsEmails` | api/services/auth.js:128-150 | Account creation preserves one row per email and lower-case stored emails. |
| `AuthProperties.ChangePasswordKeepsEmails` | api/services/auth.js:97-100 | A password change preserves both email invariants. |
| `AuthProperties.CreatedAccountCanLogIn` | api/services/auth.js:115-153 | A freshly created account logs in with the same email and password, and its tokens are signed for the new row's id. |
| `AuthProperties.EmailUniquenessIgnoresCase` | api/services/auth.js:128-143 | After creating an account, creating another with any email of the same lower case fails with `EMAIL_IN_USE` and changes nothing. |
| `AuthProperties.EmailInUseExample` | api/services/auth.js:128-143 | After creating "alice" with "A@x.com", creating "bob" with "a@x.com" answers `EMAIL_IN_USE`. |
| `AuthProperties.RefreshTokenRotatesOnce` | api/services/auth.js:160-183 | A token listed once that has been rotated into a different token is refused with 403 on its second use. |
| `AuthProperties.LogoutRevokes` | api/services/auth.js:200-209 | After logout with a non-empty token listed once, refreshing with it is refused with 403 and changes nothing. |
| `AuthProperties.LogoutIdempotent` | api/services/auth.js:200-209 | A second logout with a token listed at most once is a no-op. |
| `AuthProperties.LoginThenRefresh` | api/services/auth.js:68-83 | A refresh token just issued by login refreshes, as long as it still verifies. |
| `AuthProperties.ChangePasswordTakesEffect` | api/services/auth.js:92-107 | With a lower-case email, the new password logs in after a change. The old one fails when the two hashes differ. |
| `AuthProperties.ChangePasswordIgnoresMixedCase` | api/services/auth.js:99 | With stored emails in lower case, a mixed-case email that passes the login check gets 200 `PASSWORD_CHANGE_SUCCESSFUL` while the state stays the same. |
| `AuthProperties.AccessTokenFailureMapping` | api/services/auth.js:244-275 | Both callers answer 401 to an expired access token. For any other failure `getCurrentUser` answers 403 with the message, while the middleware answers 401. |
| `AuthProperties.ForgedPermissionIgnored` | api/services/auth.js:236 | The permission a request arrives with has no influence on the middleware's result. |
| `AuthProperties.SchemeNotChecked` | api/services/auth.js:297 | `"<any word> <token>"` yields the token, so the word "Bearer" is not checked. |
| `AuthProperties.LookupAfterValidIdSucceeds` | api/services/auth.js:217-221 | An id that passes `validateUserId` is always found by `getById`, so the assignment in place of a comparison changes no answer. |
| `AuthProperties.NaNGuardNeverFires` | api/services/user.js:17 | `getById` never refuses a truthy id with 400. |

## Left out

- Express wiring, CORS, static files, upload and delete handlers, the book
  listing, the SQL pool and the whole frontend are not part of this model.
  The one routing rule kept is that a rejected response is sent with its own
  status and body.
- Password hashing, token signing and verification, the signing secrets,
  expiry configuration and `parseInt` are opaque functions. Their internals
  are not modelled.
- `Strings.ToLower`: lower-cases ASCII letters only. JavaScript's full Unicode
  case mapping is not modelled. `createAccount`, `validateLogin` and
  `changePassword` never apply the email pattern, so non-ASCII emails reach
  `toLowerCase` there, and email matching in those operations differs from
  the source's for non-ASCII input. For example, after "É@x.com" is created,
  the source refuses "é@x.com" with `EMAIL_IN_USE`, but the model accepts it.
- `UserValidator.ValidateUsername`: counts characters. JavaScript counts UTF-16
  code units, so a name with characters outside the Basic Multilingual Plane
  can differ near the 100 limit.
- SQL string comparison is modelled as exact equality. A case-insensitive
  column collation in the real database would change the outcome of the
  mixed-case password update.
- Numbers are integers. Fractional numbers and NaN as direct inputs are not
  modelled, and NaN arises only from `parseInt`.
- `UserValidator.ValidateEmail`: takes the user id as an optional integer, with
  0 counted as absent like any falsy value. How SQL compares a non-numeric id
  with the id column is not modelled.
- `UserService.GetById`: the database error a NaN id throws is modelled as a
  500 `GENERAL_ERROR` response. No route calls `getById` directly, and in
  `getCurrentUser` such a rejection would stay unhandled rather than produce
  a response. No other database failure is modelled.
- `AuthService.ChangePassword`: the new password is never checked, and the
  password hash is modelled as total over every JavaScript value. An
  `undefined` or non-string new password is therefore hashed and stored with
  a 200 answer. If the real hashing helper throws on such input, the source
  answers 500 and updates nothing, which the model does not show. An empty
  new password is stored as well, and afterwards the account cannot log in,
  because `validateLogin` refuses an empty password.
- `AuthService.GetCurrentPermission`: the TypeError at line 252 and the
  unhandled rejection it causes are represented only as `Stall`, meaning no
  response and no `next()`.
- `AuthService.GetUserPermissions`: the `getById` call whose status is
  overwritten is not evaluated, since it only reads.
- `AuthProperties.RefreshTokenRotatesOnce`: assumes that the minted token
  differs from the spent one. The signing library may return the same string
  within one second.
- `AuthProperties.LogoutRevokes`: assumes a non-empty token. An empty token is
  falsy, so logout ignores it and the refresh answers 401 rather than 403.
- Concurrency: each operation is modelled as one atomic step, but Node
  interleaves handlers at every `await`. In `createAccount` the `SELECT` that
  looks for the email (api/services/auth.js:138-143) and the `INSERT`
  (api/services/auth.js:147-150) are separate awaits. Two overlapping sign-ups
  with the same lower-cased email can both pass the check and both insert,
  unless a unique index in the database schema, which is not part of this
  model, makes the second insert fail. `CreateAccountKeepsEmails` and
  `EmailUniquenessIgnoresCase` hold only for sign-ups that run one after
  another. `changePassword` likewise awaits the credential check before its
  `UPDATE`. `refreshAccessToken` has no `await` between its `includes` check
  and the removal, so it could only interleave there if the token library ran
  its verify callback asynchronously.
