/** `user.getById`, the user lookup the authentication service relies on. */
module UserService {
  import opened Wrappers
  import opened Js
  import opened Responses
  import UserTable
  import Externals

  /** `getById(userId)`: 400 for a falsy id, 404 for an id without a row, 200
      with the row's id, username and email otherwise. A NaN id reaches the
      query, which throws; the 500 `GENERAL_ERROR` here stands in for that
      thrown error, which no modelled caller reaches. Only reads the table. */
  function GetById(db: UserTable.Db, env: Externals.Env, userId: Value): (r: Response)
    ensures !Truthy(userId) ==> r == Respond(400, ValidationError, Reasons([FieldUserIdInvalid]))
    ensures Truthy(userId) && Externals.NumericId(env, userId).None? ==> r == Respond(500, GeneralError, NoData)
    ensures r.status == 404 <==>
      Truthy(userId) && Externals.NumericId(env, userId).Some? && Externals.NumericId(env, userId).value !in db.rows
    ensures r.status == 404 ==> r == Respond(404, UserNotFound, NoData)
    ensures r.status == 200 <==>
      Truthy(userId) && Externals.NumericId(env, userId).Some? && Externals.NumericId(env, userId).value in db.rows
    ensures r.status == 200 ==>
      var id := Externals.NumericId(env, userId).value;
      r == Respond(200, Ok, UserData(id, db.rows[id].username, db.rows[id].email))
  {
    if !Truthy(userId) then Respond(400, ValidationError, Reasons([FieldUserIdInvalid]))
    else
      match Externals.NumericId(env, userId)
      case None => Respond(500, GeneralError, NoData)
      case Some(id) =>
        if id !in db.rows then Respond(404, UserNotFound, NoData)
        else Respond(200, Ok, UserData(id, db.rows[id].username, db.rows[id].email))
  }
}
