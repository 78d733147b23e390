/**
 * What the screens see of one another through the cookie jar: a pair
 * written by sign-up or by "Add User" is read back by sign-in and by the
 * user list's mount effect from the rendered `document.cookie` text.
 */
module Session {
  import opened Wrappers
  import opened Strings
  import opened Validation
  import opened AuthForm
  import opened Cookies
  import opened SignUp
  import opened SignIn
  import opened UserPage

  /** With `=`-free names, the row for `k` starts with `name=` exactly when `k` is `name`. */
  lemma KeyedRowPrefix(k: string, v: string, name: string)
    requires '=' !in k && '=' !in name
    ensures StartsWith(k + "=" + v, name + "=") <==> k == name
  {
    var row := k + "=" + v;
    if StartsWith(row, name + "=") {
      assert row[|k|] == '=';
      assert row[|name|] == (name + "=")[|name|];
      assert forall i :: 0 <= i < |k| ==> row[i] == k[i];
      assert forall i :: 0 <= i < |name| ==> row[i] == (name + "=")[i] == name[i];
      assert |name| == |k|;
      assert row[..|k|] == k;
      assert (name + "=")[..|name|] == name;
    }
  }

  /** A name the jar holds is listed at exactly one position. */
  lemma ListedOnce(entries: seq<(string, string)>, jar: Jar, name: string) returns (k: nat)
    requires Lists(entries, jar) && name in jar
    ensures k < |entries| && entries[k] == (name, jar[name])
    ensures forall j :: 0 <= j < |entries| && entries[j].0 == name ==> j == k
  {
    var i :| 0 <= i < |entries| && entries[i].0 == name;
    k := i;
  }

  /** The rendered rows start with `name=` at exactly the positions whose entry is named `name`. */
  lemma RowsWithPrefix(entries: seq<(string, string)>, name: string)
    requires |entries| >= 1 && WellFormed(entries) && '=' !in name
    ensures Split(Render(entries), RowSeparator) == RowTexts(entries)
    ensures forall j :: 0 <= j < |entries| ==>
      (StartsWith(RowTexts(entries)[j], name + "=") <==> entries[j].0 == name)
  {
    SplitRender(entries);
    forall j | 0 <= j < |entries|
      ensures StartsWith(RowTexts(entries)[j], name + "=") <==> entries[j].0 == name
    {
      KeyedRowPrefix(entries[j].0, entries[j].1, name);
    }
  }

  /** The row of a cookie the jar holds is the first, and only, rendered row that starts with `name=`. */
  lemma FirstRowOfName(entries: seq<(string, string)>, jar: Jar, name: string) returns (k: nat)
    requires Lists(entries, jar) && WellFormed(entries)
    requires name in jar && '=' !in name
    ensures Split(Render(entries), RowSeparator) == RowTexts(entries)
    ensures k < |entries| && RowTexts(entries)[k] == name + "=" + jar[name]
    ensures forall j :: IsFirstWithPrefix(RowTexts(entries), name + "=", j) <==> j == k
  {
    k := ListedOnce(entries, jar, name);
    RowsWithPrefix(entries, name);
  }

  /**
   * Sign-in's lookup on a rendered jar finds the cookie the jar holds and
   * reads its value only up to the value's first `=`; the corrected lookup
   * reads the whole value.
   */
  lemma StoredValueOfJar(entries: seq<(string, string)>, jar: Jar, name: string)
    requires Lists(entries, jar) && WellFormed(entries)
    requires name in jar && '=' !in name
    ensures StoredValue(Render(entries), name).Some?
    ensures BeforeFirst(StoredValue(Render(entries), name).value, jar[name], '=')
    ensures StoredValueWhole(Render(entries), name) == Some(jar[name])
  {
    var cookie := Render(entries);
    var k := FirstRowOfName(entries, jar, name);
    var rows := RowTexts(entries);
    assert rows[k][|name| + 1..] == jar[name];
    assert IsFirstWithPrefix(rows, name + "=", k);
    var r := StoredValue(cookie, name);
    assert r.Some?;
    var k1 :| IsFirstWithPrefix(rows, name + "=", k1) && BeforeFirst(r.value, rows[k1][|name| + 1..], '=');
    assert k1 == k;
    var w := StoredValueWhole(cookie, name);
    assert w.Some?;
    var k2 :| IsFirstWithPrefix(rows, name + "=", k2) && w.value == rows[k2][|name| + 1..];
    assert k2 == k;
  }

  /** An entry's row in the rendered text has that entry's name as its key and its value as its value. */
  lemma RowKeys(entries: seq<(string, string)>)
    requires |entries| >= 1 && WellFormed(entries)
    ensures Split(Render(entries), RowSeparator) == RowTexts(entries)
    ensures forall j :: 0 <= j < |entries| ==>
      Key(RowTexts(entries)[j]) == entries[j].0 && RawValue(RowTexts(entries)[j]) == entries[j].1
  {
    SplitRender(entries);
    forall j | 0 <= j < |entries|
      ensures Key(RowTexts(entries)[j]) == entries[j].0 && RawValue(RowTexts(entries)[j]) == entries[j].1
    {
      KeyValueOfEntry(entries[j].0, entries[j].1);
    }
  }

  /** `getCookie` on a rendered jar gives the decoded value of the cookie, or `""` when the jar lacks it. */
  lemma GetCookieOfJar(entries: seq<(string, string)>, jar: Jar, name: string, decode: string -> string)
    requires Lists(entries, jar) && WellFormed(entries) && name != ""
    ensures GetCookie(Render(entries), name, decode) == if name in jar then decode(jar[name]) else ""
  {
    if entries == [] {
      SplitRenderEmpty();
      KeyValueOfRow("");
      assert Key(Split(Render(entries), RowSeparator)[0]) == "";
    } else {
      RowKeys(entries);
      var rows := RowTexts(entries);
      if name in jar {
        var k := ListedOnce(entries, jar, name);
        assert IsLastWithKey(rows, name, k);
      } else {
        assert forall j :: 0 <= j < |rows| ==> Key(rows[j]) != name;
      }
    }
  }

  /**
   * A successful sign-up stores a pair that sign-in accepts exactly when
   * neither the address nor the password contains `=`; with the corrected
   * lookup the stored pair is always accepted.
   */
  lemma SignUpThenSignIn(s: State, jar: Jar, entries: seq<(string, string)>)
    requires HandleSignUp(s, jar).outcome.Accepted?
    requires Lists(entries, HandleSignUp(s, jar).jar) && WellFormed(entries)
    ensures HandleLogin(s, Render(entries)).Accepted? <==> '=' !in s.email && '=' !in s.password
    ensures HandleLoginWhole(s, Render(entries)) == Accepted("/customer")
  {
    var after := HandleSignUp(s, jar).jar;
    var cookie := Render(entries);
    StoredValueOfJar(entries, after, EmailCookie);
    StoredValueOfJar(entries, after, PasswordCookie);
    BeforeFirstWhole(StoredValue(cookie, EmailCookie).value, s.email, '=');
    BeforeFirstWhole(StoredValue(cookie, PasswordCookie).value, s.password, '=');
  }

  /** A string without `;` cannot contain the row separator. */
  lemma NoSemicolonNoSeparator(s: string)
    requires ';' !in s
    ensures !Contains(s, RowSeparator)
  {
    forall j | 0 <= j <= |s| - |RowSeparator| ensures !OccursAt(s, RowSeparator, j) {
      assert s[j..j + 2][0] == s[j];
    }
  }

  /** The state the form shows after typing `a@b.com` and then `Abcdef1!=`, which sign-up accepts. */
  lemma EqualsSignAccountSignsUp()
    ensures
      var s := Reducer(Reducer(InitialState, SetEmail("a@b.com")), SetPassword("Abcdef1!="));
      && s.email == "a@b.com" && s.password == "Abcdef1!="
      && HandleSignUp(s, map[]) == Step(Accepted("/"), map[EmailCookie := "a@b.com", PasswordCookie := "Abcdef1!="])
  {
    var p := "Abcdef1!=";
    var s := Reducer(Reducer(InitialState, SetEmail("a@b.com")), SetPassword(p));
    assert s == State("a@b.com", p, Strength(p));
    StrongWith(p, 0, 1, 7);
    ExampleEmailValid();
    assert s.email != "" && s.password != "" && IsValidEmail(s.email) && AllMet(s.passwordValid);
  }

  /** The two rows sign-up leaves in an empty jar, in the order it writes them. */
  lemma EqualsSignAccountRows()
    ensures
      var entries := [(EmailCookie, "a@b.com"), (PasswordCookie, "Abcdef1!=")];
      && Lists(entries, map[EmailCookie := "a@b.com", PasswordCookie := "Abcdef1!="])
      && WellFormed(entries)
  {
    var entries := [(EmailCookie, "a@b.com"), (PasswordCookie, "Abcdef1!=")];
    NoSemicolonNoSeparator(RowText(entries[0]));
    NoSemicolonNoSeparator(RowText(entries[1]));
  }

  /**
   * An account that sign-up accepts and sign-in then refuses: the password
   * `Abcdef1!=` meets every requirement, but sign-in compares it with
   * `Abcdef1!`, the text before its `=`.
   */
  lemma SignInRefusesEqualsSign()
    ensures
      var s := Reducer(Reducer(InitialState, SetEmail("a@b.com")), SetPassword("Abcdef1!="));
      var entries := [(EmailCookie, "a@b.com"), (PasswordCookie, "Abcdef1!=")];
      && HandleSignUp(s, map[]) == Step(Accepted("/"), map[EmailCookie := "a@b.com", PasswordCookie := "Abcdef1!="])
      && Lists(entries, HandleSignUp(s, map[]).jar)
      && HandleLogin(s, Render(entries)) == Rejected(InvalidCredentials)
  {
    var s := Reducer(Reducer(InitialState, SetEmail("a@b.com")), SetPassword("Abcdef1!="));
    var entries := [(EmailCookie, "a@b.com"), (PasswordCookie, "Abcdef1!=")];
    EqualsSignAccountSignsUp();
    EqualsSignAccountRows();
    assert s.password[8] == '=';
    SignUpThenSignIn(s, map[], entries);
  }

  /**
   * After "Add User" wrote the pair, a fresh mount of the user list, with a
   * decoding that undoes the encoding, shows exactly that pair, provided
   * both halves are non-empty.
   */
  lemma AddUserThenRemount(jar: Jar, email: string, password: string,
                           encode: string -> string, decode: string -> string,
                           entries: seq<(string, string)>)
    requires decode(encode(email)) == email && decode(encode(password)) == password
    requires Lists(entries, jar[EmailCookie := encode(email)][PasswordCookie := encode(password)])
    requires WellFormed(entries)
    ensures MountRows(Render(entries), decode) ==
      if email != "" && password != "" then [UserData(email, password, false)] else []
  {
    var after := jar[EmailCookie := encode(email)][PasswordCookie := encode(password)];
    GetCookieOfJar(entries, after, EmailCookie, decode);
    GetCookieOfJar(entries, after, PasswordCookie, decode);
  }
}
