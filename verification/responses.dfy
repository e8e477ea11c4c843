/** The `{status, body: {message, data}}` response every service operation
    produces. The HTTP routes send a rejected response exactly like a resolved
    one (its own status and body), so the model does not tell them apart. */
module Responses {

  /** The `data` member of a response body. */
  datatype Data =
    | NoData                                               // left undefined
    | NullData                                             // `null`
    | UserData(id: int, username: string, email: string)   // a user row without its password column
    | TokenPair(accessToken: string, refreshToken: string)
    | Reasons(reasons: seq<string>)
    | Permission(permission: bool)

  /** A message is normally text; `getCurrentUser` passes a whole body in its place. */
  datatype Message = Plain(text: string) | Nested(inner: Body)

  datatype Body = Body(message: Message, data: Data)

  datatype Response = Response(status: int, body: Body)

  /** `helper.respond(status, message, data)` */
  function Respond(status: int, message: string, data: Data): Response {
    Response(status, Body(Plain(message), data))
  }

  // Messages and validator reasons, as the service spells them.
  const Ok := "OK"
  const LoginIncorrect := "LOGIN_INCORRECT"
  const PasswordChangeSuccessful := "PASSWORD_CHANGE_SUCCESSFUL"
  const CreateAccountFailed := "CREATE_ACCOUNT_FAILED"
  const EmailInUse := "EMAIL_IN_USE"
  const RefreshTokenInvalid := "REFRESH_TOKEN_INVALID"
  const AccessTokenRefreshed := "ACCESS_TOKEN_REFRESHED"
  const AccessTokenInvalid := "ACCESS_TOKEN_INVALID"
  const AccessTokenExpired := "ACCESS_TOKEN_EXPIRED"
  const PermissionAdmin := "PERMISSION_ADMIN"
  const ValidationError := "VALIDATION_ERROR"
  const UserNotFound := "USER_NOT_FOUND"
  const GeneralError := "GENERAL_ERROR"
  const FieldUsernameInvalid := "FIELD_USERNAME_INVALID"
  const InvalidUsernameLength := "INVALID_USERNAME_LENGTH"
  const InvalidEmail := "INVALID_EMAIL"
  const FieldPasswordInvalid := "FIELD_PASSWORD_INVALID"
  const PasswordIncludeNumber := "PASSWORD_GUIDELINE_INCLUDE_NUMBER"
  const PasswordIncludeSpecial := "PASSWORD_GUIDELINE_INCLUDE_SPECIAL"
  const PasswordMismatch := "PASSWORD_MISMATCH"
  const FieldUserIdInvalid := "FIELD_USER_ID_INVALID"
}
