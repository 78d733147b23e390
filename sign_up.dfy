/**
 * The sign-up screen's submit handler: three checks in a fixed order, then
 * the credential pair is written to the cookie jar and the browser is sent
 * to the sign-in route `/`.
 */
module SignUp {
  import opened Strings
  import opened Validation
  import opened AuthForm
  import opened Cookies

  /** The handler's outcome and the cookie jar it leaves behind. */
  datatype Step = Step(outcome: Outcome, jar: Jar)

  /** `handleSignUp`. */
  function HandleSignUp(s: State, jar: Jar): (r: Step)
    ensures r.outcome.Rejected? ==> r.jar == jar
    ensures r.outcome == Rejected(FillAllFields) <==> s.email == "" || s.password == ""
    ensures r.outcome == Rejected(InvalidEmail) <==>
      s.email != "" && s.password != "" && !IsValidEmail(s.email)
    ensures r.outcome == Rejected(WeakPassword) <==>
      s.email != "" && s.password != "" && IsValidEmail(s.email) && !AllMet(s.passwordValid)
    ensures r.outcome != Rejected(InvalidCredentials)
    ensures r.outcome.Accepted? ==> r.outcome.target == "/"
    ensures r.outcome.Accepted? ==>
      && r.jar.Keys == jar.Keys + {EmailCookie, PasswordCookie}
      && r.jar[EmailCookie] == s.email
      && r.jar[PasswordCookie] == s.password
      && forall name :: name in jar && name != EmailCookie && name != PasswordCookie ==> r.jar[name] == jar[name]
  {
    if s.email == "" || s.password == "" then
      Step(Rejected(FillAllFields), jar)
    else if !IsValidEmail(s.email) then
      Step(Rejected(InvalidEmail), jar)
    else if !AllMet(s.passwordValid) then
      Step(Rejected(WeakPassword), jar)
    else
      Step(Accepted("/"), jar[EmailCookie := s.email][PasswordCookie := s.password])
  }

  /**
   * On a state the reducer produced, sign-up succeeds exactly for a
   * non-empty address of the shape `local@host.tld` and a password meeting
   * all four requirements.
   */
  lemma SignUpAcceptsIff(s: State, jar: Jar)
    requires Consistent(s)
    ensures HandleSignUp(s, jar).outcome.Accepted? <==>
      && EmailShape(s.email)
      && Utf16Length(s.password) >= MinLength
      && (exists i :: 0 <= i < |s.password| && 'A' <= s.password[i] <= 'Z')
      && (exists i :: 0 <= i < |s.password| && 'a' <= s.password[i] <= 'z')
      && (exists i :: 0 <= i < |s.password| && s.password[i] in "!@#$%^&*")
  {
    EmailShapeIff(s.email);
  }

  /** Signing up as `a@b.com` with `Abcdef1!` stores exactly that pair. */
  lemma ExampleSignUp(jar: Jar)
    ensures
      var s := Reducer(Reducer(InitialState, SetEmail("a@b.com")), SetPassword("Abcdef1!"));
      var r := HandleSignUp(s, jar);
      r.outcome == Accepted("/") && r.jar[EmailCookie] == "a@b.com" && r.jar[PasswordCookie] == "Abcdef1!"
  {
    var p := "Abcdef1!";
    var s := Reducer(Reducer(InitialState, SetEmail("a@b.com")), SetPassword(p));
    assert s == State("a@b.com", p, Strength(p));
    StrongWith(p, 0, 1, 7);
    ExampleEmailValid();
    assert s.email != "" && s.password != "" && IsValidEmail(s.email) && AllMet(s.passwordValid);
    assert HandleSignUp(s, jar) == Step(Accepted("/"), jar[EmailCookie := "a@b.com"][PasswordCookie := p]);
  }
}
