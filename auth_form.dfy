/**
 * The form state both authentication screens keep (`SignUp.tsx` and
 * `SingIn.tsx` carry identical copies of it): the typed email, the typed
 * password and the four strength flags, updated by a reducer.
 */
module AuthForm {
  import opened Strings
  import opened Validation

  datatype State = State(email: string, password: string, passwordValid: PasswordValid)

  /** The two actions the input fields dispatch. */
  datatype Action = SetEmail(payload: string) | SetPassword(payload: string)

  /** Why a submission was turned down; each reason has its own notice. */
  datatype Reason =
    | FillAllFields       // "Please fill in all fields"
    | InvalidEmail        // "Please enter a valid email address"
    | WeakPassword        // "Please fulfill all password requirements"
    | InvalidCredentials  // "Invalid credentials. Please try again."

  /** The result of submitting a form: a notice, or success and the route navigated to. */
  datatype Outcome = Rejected(reason: Reason) | Accepted(target: string)

  /** Both fields empty and every flag false. */
  const InitialState := State("", "", PasswordValid(false, false, false, false))

  /** The flags shown agree with the password typed. */
  predicate Consistent(s: State)
  {
    s.passwordValid == Strength(s.password)
  }

  /** The reducer: an email edit touches only the email; a password edit recomputes every flag. */
  function Reducer(s: State, a: Action): (r: State)
    ensures a.SetEmail? ==> r.email == a.payload && r.password == s.password && r.passwordValid == s.passwordValid
    ensures a.SetPassword? ==> r.email == s.email && r.password == a.payload && Consistent(r)
    ensures Consistent(s) ==> Consistent(r)
  {
    match a
    case SetEmail(e) => s.(email := e)
    case SetPassword(p) => s.(password := p, passwordValid := Strength(p))
  }

  /** The state after a run of keystrokes, dispatched in order. */
  function Run(s: State, actions: seq<Action>): State
    decreases |actions|
  {
    if actions == [] then s else Run(Reducer(s, actions[0]), actions[1..])
  }

  /** The initial state shows flags that agree with its empty password. */
  lemma InitialConsistent()
    ensures Consistent(InitialState)
  {
    assert Strength("").length == false;
  }

  /** Every state the form reaches from its initial state shows flags that agree with its password. */
  lemma {:induction false} RunConsistent(s: State, actions: seq<Action>)
    requires Consistent(s)
    ensures Consistent(Run(s, actions))
    decreases |actions|
  {
    if actions != [] {
      RunConsistent(Reducer(s, actions[0]), actions[1..]);
    }
  }

  /** The password after a run is the payload of its last password edit, or unchanged when there is none. */
  lemma {:induction false} RunPassword(s: State, actions: seq<Action>)
    ensures (forall k :: 0 <= k < |actions| ==> actions[k].SetEmail?) ==> Run(s, actions).password == s.password
    ensures |actions| > 0 && actions[|actions| - 1].SetPassword? ==>
      Run(s, actions).password == actions[|actions| - 1].payload
    decreases |actions|
  {
    if actions != [] {
      RunPassword(Reducer(s, actions[0]), actions[1..]);
      assert forall k :: 0 <= k < |actions| - 1 ==> actions[1..][k] == actions[k + 1];
    }
  }

  /**
   * The password after a run is the payload of the last password edit in
   * it, however many email edits follow that edit.
   */
  lemma {:induction false} RunPasswordLastEdit(s: State, actions: seq<Action>, k: nat)
    requires k < |actions| && actions[k].SetPassword?
    requires forall j :: k < j < |actions| ==> actions[j].SetEmail?
    ensures Run(s, actions).password == actions[k].payload
    decreases |actions|
  {
    var next, rest := Reducer(s, actions[0]), actions[1..];
    assert forall j :: 0 <= j < |rest| ==> rest[j] == actions[j + 1];
    if k == 0 {
      RunPassword(next, rest);
    } else {
      RunPasswordLastEdit(next, rest, k - 1);
    }
  }

  /**
   * The submit button is enabled when every flag is set; on a state whose
   * flags agree with its password, exactly when the password meets all
   * four requirements.
   */
  predicate SubmitEnabled(s: State): (enabled: bool)
    ensures Consistent(s) ==> (enabled <==>
      && Utf16Length(s.password) >= MinLength
      && (exists i :: 0 <= i < |s.password| && 'A' <= s.password[i] <= 'Z')
      && (exists i :: 0 <= i < |s.password| && 'a' <= s.password[i] <= 'z')
      && (exists i :: 0 <= i < |s.password| && s.password[i] in "!@#$%^&*"))
  {
    AllMet(s.passwordValid)
  }
}
