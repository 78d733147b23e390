/**
 * The user list page: on mount it shows the stored credential pair as one
 * row, "Add User" overwrites the pair and appends a row, and each row's
 * password can be shown or hidden.
 */
module UserPage {
  import opened Strings
  import opened Cookies

  datatype UserData = UserData(email: string, password: string, showPassword: bool)

  /** The add-user form when it is blank. */
  const EmptyUser := UserData("", "", false)

  /** Row `i` is the last row whose key is `name`. */
  predicate IsLastWithKey(rows: seq<string>, name: string, i: int)
  {
    0 <= i < |rows| && Key(rows[i]) == name && forall j :: i < j < |rows| ==> Key(rows[j]) != name
  }

  /** The `reduce` of `getCookie` over `rows`, starting from `acc`. */
  function ReduceRows(rows: seq<string>, name: string, decode: string -> string, acc: string): (r: string)
    ensures r == acc || exists i :: 0 <= i < |rows| && Key(rows[i]) == name && r == decode(RawValue(rows[i]))
    decreases |rows|
  {
    if rows == [] then acc
    else ReduceRows(rows[1..], name, decode, if Key(rows[0]) == name then decode(RawValue(rows[0])) else acc)
  }

  /** The fold keeps the accumulator when no row matches and otherwise yields the last matching row's value. */
  lemma {:induction false} ReduceRowsLast(rows: seq<string>, name: string, decode: string -> string, acc: string)
    ensures (forall j :: 0 <= j < |rows| ==> Key(rows[j]) != name) ==> ReduceRows(rows, name, decode, acc) == acc
    ensures forall i :: IsLastWithKey(rows, name, i) ==> ReduceRows(rows, name, decode, acc) == decode(RawValue(rows[i]))
    decreases |rows|
  {
    if rows != [] {
      var next := if Key(rows[0]) == name then decode(RawValue(rows[0])) else acc;
      var tail := rows[1..];
      ReduceRowsLast(tail, name, decode, next);
      assert forall j :: 1 <= j < |rows| ==> tail[j - 1] == rows[j];
      forall i | IsLastWithKey(rows, name, i)
        ensures ReduceRows(rows, name, decode, acc) == decode(RawValue(rows[i]))
      {
        if i > 0 {
          assert IsLastWithKey(tail, name, i - 1);
        } else {
          assert forall j :: 0 <= j < |tail| ==> Key(tail[j]) != name by {
            forall j | 0 <= j < |tail| ensures Key(tail[j]) != name {
              assert tail[j] == rows[j + 1];
            }
          }
        }
      }
    }
  }

  /**
   * `getCookie(name)`: the value of the last row keyed `name`, decoded, or
   * the empty string when no row has that key.
   */
  function GetCookie(cookie: string, name: string, decode: string -> string): (r: string)
    ensures (forall j :: 0 <= j < |Split(cookie, RowSeparator)| ==> Key(Split(cookie, RowSeparator)[j]) != name) ==> r == ""
    ensures forall i :: IsLastWithKey(Split(cookie, RowSeparator), name, i) ==>
      r == decode(RawValue(Split(cookie, RowSeparator)[i]))
  {
    ReduceRowsLast(Split(cookie, RowSeparator), name, decode, "");
    ReduceRows(Split(cookie, RowSeparator), name, decode, "")
  }

  /** The rows the mount effect shows: the stored pair, when both halves are non-empty. */
  function MountRows(cookie: string, decode: string -> string): (users: seq<UserData>)
    ensures |users| <= 1
    ensures users != [] <==> GetCookie(cookie, EmailCookie, decode) != "" && GetCookie(cookie, PasswordCookie, decode) != ""
    ensures users != [] ==>
      && users[0].email == GetCookie(cookie, EmailCookie, decode)
      && users[0].password == GetCookie(cookie, PasswordCookie, decode)
      && !users[0].showPassword
  {
    var storedEmail := GetCookie(cookie, EmailCookie, decode);
    var storedPassword := GetCookie(cookie, PasswordCookie, decode);
    if storedEmail != "" && storedPassword != "" then [UserData(storedEmail, storedPassword, false)] else []
  }

  /** `toggleShowPassword(index)`: the `map` that flips one row's visibility. */
  function ToggleAt(users: seq<UserData>, index: int): (r: seq<UserData>)
    ensures |r| == |users|
    ensures forall i :: 0 <= i < |users| && i != index ==> r[i] == users[i]
    ensures 0 <= index < |users| ==>
      && r[index].email == users[index].email
      && r[index].password == users[index].password
      && r[index].showPassword == !users[index].showPassword
  {
    seq(|users|, i requires 0 <= i < |users| =>
      if i == index then users[i].(showPassword := !users[i].showPassword) else users[i])
  }

  /** An index outside the list changes nothing. */
  lemma ToggleOutOfRange(users: seq<UserData>, index: int)
    requires index < 0 || index >= |users|
    ensures ToggleAt(users, index) == users
  {
  }

  /** Toggling the same row twice restores the list. */
  lemma ToggleTwice(users: seq<UserData>, index: int)
    ensures ToggleAt(ToggleAt(users, index), index) == users
  {
  }

  /** `setCookie(name, value, days)`: the jar maps `name` to the encoded value and nothing else changes. */
  method SetCookie(jar: CookieJar, name: string, value: string, encode: string -> string)
    modifies jar
    ensures jar.entries == old(jar.entries)[name := encode(value)]
  {
    jar.entries := jar.entries[name := encode(value)];
  }

  /** The page's state. */
  class UserList {
    var users: seq<UserData>
    var openDialog: bool
    var newUser: UserData

    /** The page once its mount effect has read both cookies from `document.cookie`. */
    constructor (cookie: string, decode: string -> string)
      ensures users == MountRows(cookie, decode)
      ensures !openDialog && newUser == EmptyUser
    {
      users := MountRows(cookie, decode);
      openDialog := false;
      newUser := EmptyUser;
    }

    /**
     * `handleAddUser`: both cookies are overwritten with the form's values,
     * whatever they are, and one hidden row is appended.
     */
    method HandleAddUser(jar: CookieJar, encode: string -> string)
      modifies this, jar
      ensures jar.entries == old(jar.entries)[EmailCookie := encode(old(newUser.email))]
                                             [PasswordCookie := encode(old(newUser.password))]
      ensures |users| == |old(users)| + 1 && users[..|old(users)|] == old(users)
      ensures users[|old(users)|] == UserData(old(newUser.email), old(newUser.password), false)
      ensures !openDialog && newUser == EmptyUser
    {
      SetCookie(jar, EmailCookie, newUser.email, encode);
      SetCookie(jar, PasswordCookie, newUser.password, encode);
      users := users + [newUser.(showPassword := false)];
      openDialog := false;
      newUser := EmptyUser;
    }

    method HandleOpenDialog()
      modifies this
      ensures openDialog && users == old(users) && newUser == old(newUser)
    {
      openDialog := true;
    }

    method HandleCloseDialog()
      modifies this
      ensures !openDialog && users == old(users) && newUser == old(newUser)
    {
      openDialog := false;
    }

    /** The eye button of row `index`. */
    method ToggleShowPassword(index: int)
      modifies this
      ensures users == ToggleAt(old(users), index)
      ensures openDialog == old(openDialog) && newUser == old(newUser)
    {
      users := ToggleAt(users, index);
    }

    /** Typing in the form's email field; the password is hidden again. */
    method EditEmail(value: string)
      modifies this
      ensures newUser == UserData(value, old(newUser.password), false)
      ensures users == old(users) && openDialog == old(openDialog)
    {
      newUser := newUser.(email := value, showPassword := false);
    }

    /** Typing in the form's password field; the password is hidden again. */
    method EditPassword(value: string)
      modifies this
      ensures newUser == UserData(old(newUser.email), value, false)
      ensures users == old(users) && openDialog == old(openDialog)
    {
      newUser := newUser.(password := value, showPassword := false);
    }

    /** The eye button inside the form's password field. */
    method ToggleNewUserShowPassword()
      modifies this
      ensures newUser == old(newUser).(showPassword := !old(newUser.showPassword))
      ensures users == old(users) && openDialog == old(openDialog)
    {
      newUser := newUser.(showPassword := !newUser.showPassword);
    }
  }
}
