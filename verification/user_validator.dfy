/** The input validators of the user endpoints. */
module UserValidator {
  import opened Wrappers
  import opened Js
  import opened Responses
  import Strings
  import Seqs
  import UserTable
  import Externals

  /** A validator's verdict: `{valid: true}` or `{valid: false, reason, code?}`. */
  datatype Validation = Valid | Invalid(reason: string, code: Option<int>)

  /** `validateUsername`: a non-empty string of at most 100 characters. The
      length-0 test can never fire, since the empty string is already falsy. */
  function ValidateUsername(username: Value): (r: Validation)
    ensures r == Valid <==> username.Str? && 0 < |username.s| <= 100
    ensures r == Invalid(FieldUsernameInvalid, None) <==> !(username.Str? && username.s != "")
    ensures r == Invalid(InvalidUsernameLength, None) <==> username.Str? && |username.s| > 100
  {
    if !Truthy(username) then Invalid(FieldUsernameInvalid, None)
    else if !username.Str? then Invalid(FieldUsernameInvalid, None)
    else if |username.s| == 0 || |username.s| > 100 then Invalid(InvalidUsernameLength, None)
    else Valid
  }

  /** `[\w.+-]` */
  predicate IsLocalChar(c: char) { Strings.IsWord(c) || c == '.' || c == '+' || c == '-' }

  /** `[\w.-]` */
  predicate IsDomainChar(c: char) { Strings.IsWord(c) || c == '.' || c == '-' }

  predicate AllLocal(t: string) { forall k :: 0 <= k < |t| ==> IsLocalChar(t[k]) }

  predicate AllDomain(t: string) { forall k :: 0 <= k < |t| ==> IsDomainChar(t[k]) }

  predicate AllWord(t: string) { forall k :: 0 <= k < |t| ==> Strings.IsWord(t[k]) }

  /** The input splits at `i` and `j` into local part, '@', domain, '.' and a
      top-level part, each drawn from its character class. */
  predicate SplitsAsEmail(s: string, i: int, j: int) {
    && 0 < i && i + 1 < j < |s|
    && s[i] == '@' && s[j] == '.'
    && AllLocal(s[..i]) && AllDomain(s[i + 1..j])
    && 2 <= |s| - j - 1 <= 18 && AllWord(s[j + 1..])
  }

  /** The language of `^[\w.+-]+@[\w.-]+\.[\w]{2,18}$`. */
  ghost predicate MatchesEmailRegex(s: string) {
    exists i, j :: SplitsAsEmail(s, i, j)
  }

  /** Decides the email pattern without search: the split must happen at the
      first '@' (no part but the first may hold one) and at the last '.' (the
      top-level part holds none). */
  function EmailFormat(s: string): bool {
    match (Seqs.FirstIndex(s, '@'), Seqs.LastIndex(s, '.'))
    case (Some(i), Some(j)) => SplitsAsEmail(s, i, j)
    case _ => false
  }

  lemma EmailFormatIsRegex(s: string)
    ensures EmailFormat(s) <==> MatchesEmailRegex(s)
  {
  }

  /** A string that splits like the pattern holds exactly one '@'. */
  lemma EmailHasOneAt(s: string)
    requires MatchesEmailRegex(s)
    ensures multiset(s)['@'] == 1
  {
    var i, j :| SplitsAsEmail(s, i, j);
    OneAt(s[..i], s[i + 1..j], s[j + 1..]);
    assert s == s[..i] + ['@'] + s[i + 1..j] + ['.'] + s[j + 1..];
  }

  lemma OneAt(local: string, domain: string, top: string)
    requires AllLocal(local) && AllDomain(domain) && AllWord(top)
    ensures multiset(local + ['@'] + domain + ['.'] + top)['@'] == 1
  {
  }

  /** Some row other than `except` (when given) holds the email. */
  predicate EmailHeldByOther(db: UserTable.Db, email: string, except: Option<int>) {
    exists id :: id in db.rows && db.rows[id].email == email && !(except.Some? && except.value != 0 && id == except.value)
  }

  /** `validateEmail(email, userId)`: the original-case string must match the
      pattern, then its lower-case form must not belong to another user.
      `userId` is a numeric id or absent; 0 is falsy and counts as absent. */
  function ValidateEmail(db: UserTable.Db, email: Value, userId: Option<int>): (r: Validation)
    ensures r.Invalid? ==> r.code == None
    ensures r == Invalid(InvalidEmail, None) <==> !(email.Str? && MatchesEmailRegex(email.s))
    ensures r == Invalid(EmailInUse, None) <==>
      email.Str? && MatchesEmailRegex(email.s) && EmailHeldByOther(db, Strings.ToLower(email.s), userId)
    ensures r == Valid <==>
      email.Str? && MatchesEmailRegex(email.s) && !EmailHeldByOther(db, Strings.ToLower(email.s), userId)
  {
    if !Truthy(email) then Invalid(InvalidEmail, None)
    else if !email.Str? then Invalid(InvalidEmail, None)
    else
      EmailFormatIsRegex(email.s);
      if !EmailFormat(email.s) then Invalid(InvalidEmail, None)
      else
        var e := Strings.ToLower(email.s);
        var rows :=
          if userId.Some? && userId.value != 0
          then UserTable.Select(db, UserTable.EmailIsExcept(e, userId.value))
          else UserTable.Select(db, UserTable.EmailIs(e));
        assert |rows| > 0 ==> rows[0] in db.rows;
        if |rows| > 0 then Invalid(EmailInUse, None) else Valid
  }

  /** `/[0-9]/.test(p)` */
  predicate HasDigit(p: string) { exists k :: 0 <= k < |p| && Strings.IsDigit(p[k]) }

  /** `/[^A-Za-z0-9]/.test(p)` */
  predicate HasSpecial(p: string) { exists k :: 0 <= k < |p| && !Strings.IsAlnum(p[k]) }

  /** `validatePassword(password, passwordRepeat)`. The length guideline builds
      a response and drops it, so no length is enforced. */
  function ValidatePassword(password: Value, passwordRepeat: Value): (r: Validation)
    ensures r.Invalid? ==> r.code == None
    ensures r == Valid <==>
      password.Str? && password.s != "" && HasDigit(password.s) && HasSpecial(password.s) && passwordRepeat == password
    ensures r == Invalid(FieldPasswordInvalid, None) <==> !(password.Str? && password.s != "")
    ensures r == Invalid(PasswordIncludeNumber, None) <==> password.Str? && password.s != "" && !HasDigit(password.s)
    ensures r == Invalid(PasswordIncludeSpecial, None) <==>
      password.Str? && HasDigit(password.s) && !HasSpecial(password.s)
    ensures r == Invalid(PasswordMismatch, None) <==>
      password.Str? && HasDigit(password.s) && HasSpecial(password.s) && passwordRepeat != password
  {
    if !Truthy(password) then Invalid(FieldPasswordInvalid, None)
    else if !password.Str? then Invalid(FieldPasswordInvalid, None)
    else if !HasDigit(password.s) then Invalid(PasswordIncludeNumber, None)
    else if !HasSpecial(password.s) then Invalid(PasswordIncludeSpecial, None)
    else if password != passwordRepeat then Invalid(PasswordMismatch, None)
    else Valid
  }

  /** A three-character password passes: the length guideline has no effect. */
  lemma ShortPasswordAccepted()
    ensures ValidatePassword(Str("a1!"), Str("a1!")) == Valid
  {
    assert Strings.IsDigit("a1!"[1]);
    assert !Strings.IsAlnum("a1!"[2]);
  }

  /** `validateUserId(userId)`: truthy, and a row with that id exists. A NaN id
      (`parseInt` failed) makes the query throw, and the catch reports it as an
      invalid field; the `== NaN` guard itself never fires. */
  function ValidateUserId(db: UserTable.Db, env: Externals.Env, userId: Value): (r: Validation)
    ensures r == Valid <==>
      Truthy(userId) && Externals.NumericId(env, userId).Some? && Externals.NumericId(env, userId).value in db.rows
    ensures r == Invalid(UserNotFound, Some(404)) <==>
      Truthy(userId) && Externals.NumericId(env, userId).Some? && Externals.NumericId(env, userId).value !in db.rows
    ensures r == Invalid(FieldUserIdInvalid, None) <==> !Truthy(userId) || Externals.NumericId(env, userId).None?
  {
    if !Truthy(userId) then Invalid(FieldUserIdInvalid, None)
    else
      match Externals.NumericId(env, userId)
      case None => Invalid(FieldUserIdInvalid, None)
      case Some(id) => if id !in db.rows then Invalid(UserNotFound, Some(404)) else Valid
  }
}
