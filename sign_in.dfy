/**
 * The sign-in screen's submit handler: the same two field checks as sign-up,
 * then the stored pair is looked up in `document.cookie` and compared with
 * what was typed.
 */
module SignIn {
  import opened Wrappers
  import opened Strings
  import opened Validation
  import opened AuthForm
  import opened Cookies

  /** Row `k` is the first row that starts with `prefix`. */
  predicate IsFirstWithPrefix(rows: seq<string>, prefix: string, k: int)
  {
    0 <= k < |rows| && StartsWith(rows[k], prefix) && forall j :: 0 <= j < k ==> !StartsWith(rows[j], prefix)
  }

  /** `rows.find((row) => row.startsWith(prefix))`, as an index. */
  function FindRow(rows: seq<string>, prefix: string): (r: Option<nat>)
    ensures r.Some? ==> IsFirstWithPrefix(rows, prefix, r.value)
    ensures r.None? ==> forall j :: 0 <= j < |rows| ==> !StartsWith(rows[j], prefix)
    decreases |rows|
  {
    if rows == [] then None
    else if StartsWith(rows[0], prefix) then Some(0)
    else
      match FindRow(rows[1..], prefix)
      case None => None
      case Some(k) => Some(k + 1)
  }

  /** `row.split("=")[1]`, which is `undefined` when the row has no `=`. */
  function SecondField(row: string): (r: Option<string>)
    ensures r.Some? <==> '=' in row
    ensures r.Some? ==> '=' !in r.value
  {
    var fields := Split(row, "=");
    RestOfSplit(row, "=");
    ContainsChar(row, '=');
    SplitPiecesFree(row, "=");
    if |fields| >= 2 then
      ContainsChar(fields[1], '=');
      Some(fields[1])
    else
      None
  }

  /** For a row `name=rest`, the second field is the text of `rest` before its first `=`. */
  lemma SecondFieldOfRow(row: string, name: string)
    requires StartsWith(row, name + "=")
    ensures SecondField(row).Some?
    ensures '=' !in name ==> BeforeFirst(SecondField(row).value, row[|name| + 1..], '=')
  {
    var rest := row[|name| + 1..];
    assert row == name + "=" + rest;
    assert OccursAt(row, "=", |name|) by {
      assert row[|name|..|name| + 1] == "=";
    }
    RestOfSplit(row, "=");
    var i := Find(row, "=").value;
    assert Split(row, "=") == [row[..i]] + Split(row[i + 1..], "=");
    if '=' !in name {
      ContainsChar(name, '=');
      FindAfterPrefix(name, "=", rest);
      FirstPiece(rest, '=');
    }
  }

  /** The lookup `handleLogin` performs for one stored cookie. */
  function StoredValue(cookie: string, name: string): (r: Option<string>)
    ensures r.None? ==>
      forall k :: 0 <= k < |Split(cookie, RowSeparator)| ==> !StartsWith(Split(cookie, RowSeparator)[k], name + "=")
    ensures r.Some? ==> exists k :: IsFirstWithPrefix(Split(cookie, RowSeparator), name + "=", k)
    ensures r.Some? && '=' !in name ==>
      exists k :: IsFirstWithPrefix(Split(cookie, RowSeparator), name + "=", k)
        && BeforeFirst(r.value, Split(cookie, RowSeparator)[k][|name| + 1..], '=')
  {
    var rows := Split(cookie, RowSeparator);
    match FindRow(rows, name + "=")
    case None => None
    case Some(k) =>
      assert StartsWith(rows[k], name + "=");
      SecondFieldOfRow(rows[k], name);
      SecondField(rows[k])
  }

  /** `handleLogin`, reading the jar through the text of `document.cookie`. */
  function HandleLogin(s: State, cookie: string): (r: Outcome)
    ensures r == Rejected(FillAllFields) <==> s.email == "" || s.password == ""
    ensures r == Rejected(InvalidEmail) <==>
      s.email != "" && s.password != "" && !IsValidEmail(s.email)
    ensures r.Accepted? <==>
      && s.email != "" && s.password != "" && IsValidEmail(s.email)
      && StoredValue(cookie, EmailCookie) == Some(s.email)
      && StoredValue(cookie, PasswordCookie) == Some(s.password)
    ensures r.Accepted? ==> r.target == "/customer"
    ensures r.Rejected? ==> r.reason != WeakPassword
  {
    if s.email == "" || s.password == "" then
      Rejected(FillAllFields)
    else if !IsValidEmail(s.email) then
      Rejected(InvalidEmail)
    else
      var cookieEmail := StoredValue(cookie, EmailCookie);
      var cookiePassword := StoredValue(cookie, PasswordCookie);
      if cookieEmail == Some(s.email) && cookiePassword == Some(s.password) then
        Accepted("/customer")
      else
        Rejected(InvalidCredentials)
  }

  /** The field checks decide before the cookie is read: the cookie text cannot change their verdict. */
  lemma ChecksPrecedeLookup(s: State, cookie1: string, cookie2: string)
    requires s.email == "" || s.password == "" || !IsValidEmail(s.email)
    ensures HandleLogin(s, cookie1) == HandleLogin(s, cookie2)
    ensures HandleLogin(s, cookie1).Rejected?
  {
  }

  /**
   * A wrong email and a wrong password give the same notice: whichever
   * stored value differs, the outcome is the single "invalid credentials".
   */
  lemma MismatchIsGeneric(s: State, cookie: string)
    requires s.email != "" && s.password != "" && IsValidEmail(s.email)
    requires StoredValue(cookie, EmailCookie) != Some(s.email) || StoredValue(cookie, PasswordCookie) != Some(s.password)
    ensures HandleLogin(s, cookie) == Rejected(InvalidCredentials)
  {
  }

  /**
   * The lookup as it would read in `getCookie` (`User.tsx`): the value is
   * all of the text after the first `=`, not just the text up to a second one.
   */
  function StoredValueWhole(cookie: string, name: string): (r: Option<string>)
    ensures r.None? ==>
      forall k :: 0 <= k < |Split(cookie, RowSeparator)| ==> !StartsWith(Split(cookie, RowSeparator)[k], name + "=")
    ensures r.Some? ==> exists k :: IsFirstWithPrefix(Split(cookie, RowSeparator), name + "=", k)
    ensures r.Some? && '=' !in name ==>
      exists k :: IsFirstWithPrefix(Split(cookie, RowSeparator), name + "=", k)
        && r.value == Split(cookie, RowSeparator)[k][|name| + 1..]
  {
    var rows := Split(cookie, RowSeparator);
    match FindRow(rows, name + "=")
    case None => None
    case Some(k) =>
      var row := rows[k];
      assert StartsWith(row, name + "=");
      if '=' !in name then
        KeyValueOfEntry(name, row[|name| + 1..]);
        assert row == name + "=" + row[|name| + 1..];
        Some(RawValue(row))
      else
        Some(RawValue(row))
  }

  /** `handleLogin` with the lookup corrected to read whole values. */
  function HandleLoginWhole(s: State, cookie: string): (r: Outcome)
    ensures r.Accepted? <==>
      && s.email != "" && s.password != "" && IsValidEmail(s.email)
      && StoredValueWhole(cookie, EmailCookie) == Some(s.email)
      && StoredValueWhole(cookie, PasswordCookie) == Some(s.password)
    ensures r.Accepted? ==> r.target == "/customer"
    ensures forall c :: HandleLogin(s, c).Rejected? && HandleLogin(s, c).reason != InvalidCredentials ==> r == HandleLogin(s, c)
  {
    if s.email == "" || s.password == "" then
      Rejected(FillAllFields)
    else if !IsValidEmail(s.email) then
      Rejected(InvalidEmail)
    else if StoredValueWhole(cookie, EmailCookie) == Some(s.email)
         && StoredValueWhole(cookie, PasswordCookie) == Some(s.password) then
      Accepted("/customer")
    else
      Rejected(InvalidCredentials)
  }
}
