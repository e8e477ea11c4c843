/** The `user` table as the service sees it through parameterized queries. */
module UserTable {
  import Strings

  /** A row: the id is the key of the table. */
  datatype UserRow = UserRow(username: string, email: string, passwordHash: string)

  /** `rows` keyed by id; `nextId` is the auto-increment counter. */
  datatype Table = Table(rows: map<int, UserRow>, nextId: int) {
    predicate Wf() {
      && 1 <= nextId
      && forall id :: id in rows ==> 1 <= id < nextId
    }
  }

  /** Every table the database can hold: all ids below the counter. */
  type Db = t: Table | t.Wf() witness Table(map[], 1)

  /** The WHERE clauses the service issues. */
  datatype Where =
    | CredentialsAre(email: string, hash: string)   // email = ? AND password = ?
    | EmailIs(email: string)                        // email = ?
    | EmailIsExcept(email: string, id: int)         // email = ? AND id != ?

  predicate Satisfies(id: int, row: UserRow, w: Where) {
    match w
    case CredentialsAre(e, h) => row.email == e && row.passwordHash == h
    case EmailIs(e) => row.email == e
    case EmailIsExcept(e, x) => row.email == e && id != x
  }

  /** The ids in [lo, hi) whose rows satisfy `w`, in ascending order. */
  function SelectRange(rows: map<int, UserRow>, w: Where, lo: int, hi: int): (ids: seq<int>)
    ensures forall k :: 0 <= k < |ids| ==> lo <= ids[k] < hi && ids[k] in rows && Satisfies(ids[k], rows[ids[k]], w)
    ensures forall id :: lo <= id < hi && id in rows && Satisfies(id, rows[id], w) ==> id in ids
    ensures forall k, l :: 0 <= k < l < |ids| ==> ids[k] < ids[l]
    decreases hi - lo
  {
    if lo >= hi then []
    else
      var rest := SelectRange(rows, w, lo + 1, hi);
      if lo in rows && Satisfies(lo, rows[lo], w) then [lo] + rest else rest
  }

  /** `SELECT … FROM user WHERE w`: the ids of every matching row. The
      queries carry no `ORDER BY`; primary-key order is the model's choice,
      so `rows[0]` is the matching row with the least id. */
  function Select(db: Db, w: Where): (ids: seq<int>)
    ensures forall k :: 0 <= k < |ids| ==> ids[k] in db.rows && Satisfies(ids[k], db.rows[ids[k]], w)
    ensures forall id :: id in db.rows && Satisfies(id, db.rows[id], w) ==> id in ids
    ensures forall k, l :: 0 <= k < l < |ids| ==> ids[k] < ids[l]
  {
    SelectRange(db.rows, w, 1, db.nextId)
  }

  /** Some row holds `email`. */
  predicate EmailTaken(db: Db, email: string) {
    exists id :: id in db.rows && db.rows[id].email == email
  }

  /** No two rows share an email. */
  predicate UniqueEmails(db: Db) {
    forall a, b :: a in db.rows && b in db.rows && db.rows[a].email == db.rows[b].email ==> a == b
  }

  /** Every stored email is in lower case. */
  predicate LowercaseEmails(db: Db) {
    forall id :: id in db.rows ==> Strings.IsLowercase(db.rows[id].email)
  }

  /** `UPDATE user SET password = hash WHERE email = email` */
  function SetPasswordWhereEmail(db: Db, email: string, hash: string): (r: Db)
    ensures r.nextId == db.nextId && r.rows.Keys == db.rows.Keys
    ensures forall id :: id in db.rows && db.rows[id].email == email ==> r.rows[id] == db.rows[id].(passwordHash := hash)
    ensures forall id :: id in db.rows && db.rows[id].email != email ==> r.rows[id] == db.rows[id]
  {
    Table(map id | id in db.rows :: if db.rows[id].email == email then db.rows[id].(passwordHash := hash) else db.rows[id],
          db.nextId)
  }

  /** `INSERT INTO user (username, email, password) VALUES (…)`: the row gets the counter's id. */
  function Insert(db: Db, row: UserRow): (r: Db)
    ensures db.nextId !in db.rows
    ensures r.rows == db.rows[db.nextId := row] && r.nextId == db.nextId + 1
  {
    Table(db.rows[db.nextId := row], db.nextId + 1)
  }
}
