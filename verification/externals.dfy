/** The library calls the service makes, which the model does not look inside:
    password hashing, token signing and verification (jsonwebtoken) and
    `parseInt`. They are passed in as function values; `now` is the clock
    reading the token library would use. */
module Externals {
  import opened Wrappers
  import Js

  /** The outcome of `jwt.verify`: the payload's user id, or the error kind
      (`err.expiredAt` set, or any other error with its message). */
  datatype TokenCheck = TokenValid(id: int) | TokenExpired | TokenInvalid(reason: string)

  datatype Env = Env(
    hashPassword: Js.Value -> string,
    signAccess: (int, int) -> string,          // user id, now
    signRefresh: (int, int) -> string,         // user id, now
    verifyAccess: (string, int) -> TokenCheck, // token, now
    verifyRefresh: (string, int) -> TokenCheck,
    parseInt: string -> Option<int>)           // None is NaN

  /** The id an id check looks up after `if (typeof (v) != 'number') v = parseInt(v)`:
      numbers stay, strings go through `parseInt`, and the other modelled
      values (`undefined`, `null`, booleans and plain objects, whose string
      forms hold no leading digits) become NaN. Arrays are not modelled. */
  function NumericId(env: Env, v: Js.Value): (r: Option<int>)
    ensures v.Num? ==> r == Some(v.n)
    ensures !v.Num? && !v.Str? ==> r.None?
  {
    match v
    case Num(n) => Some(n)
    case Str(s) => env.parseInt(s)
    case _ => None
  }
}
