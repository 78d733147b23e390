/**
 * The validation rules shared by the sign-up and sign-in forms: the four
 * password-strength tests and the email shape test
 * `/^[^\s@]+@[^\s@]+\.[^\s@]+$/`.
 */
module Validation {
  import opened Wrappers
  import opened Strings

  /** The three bracket expressions the password tests use. */
  datatype CharClass = Upper | Lower | Symbol

  /** Membership in `[A-Z]`, `[a-z]` and `[!@#$%^&*]`. */
  predicate InClass(cls: CharClass, c: char)
  {
    match cls
    case Upper => 'A' <= c <= 'Z'
    case Lower => 'a' <= c <= 'z'
    case Symbol => c in "!@#$%^&*"
  }

  /** `/[...]/.test(s)`: scans `s` left to right for a character of the class. */
  function Test(cls: CharClass, s: string): (found: bool)
    ensures found <==> exists i :: 0 <= i < |s| && InClass(cls, s[i])
    decreases |s|
  {
    if s == [] then false
    else if InClass(cls, s[0]) then true
    else
      assert forall i :: 1 <= i < |s| ==> s[i] == s[1..][i - 1];
      Test(cls, s[1..])
  }

  /** The shortest password the length test accepts. */
  const MinLength: nat := 8

  /** The four flags the forms show beside the password field. */
  datatype PasswordValid = PasswordValid(length: bool, uppercase: bool, lowercase: bool, symbol: bool)

  /** The flags computed from a password, as the reducer does on every keystroke. */
  function Strength(p: string): (v: PasswordValid)
    ensures v.length <==> Utf16Length(p) >= MinLength
    ensures v.uppercase <==> exists i :: 0 <= i < |p| && 'A' <= p[i] <= 'Z'
    ensures v.lowercase <==> exists i :: 0 <= i < |p| && 'a' <= p[i] <= 'z'
    ensures v.symbol <==> exists i :: 0 <= i < |p| && p[i] in "!@#$%^&*"
  {
    PasswordValid(Utf16Length(p) >= MinLength, Test(Upper, p), Test(Lower, p), Test(Symbol, p))
  }

  /** All four requirements hold. */
  predicate AllMet(v: PasswordValid)
  {
    v.length && v.uppercase && v.lowercase && v.symbol
  }

  /** `[^\s@]`: a character allowed inside one segment of an email address. */
  predicate Plain(c: char)
  {
    c != '@' && !IsSpace(c)
  }

  /** `[^\s@]+`: a non-empty run of such characters. */
  predicate PlainRun(s: string)
  {
    |s| > 0 && forall i :: 0 <= i < |s| ==> Plain(s[i])
  }

  /** `s` is `local@host.tld` with every segment a `[^\s@]+` run. */
  ghost predicate Segments(s: string, local: string, host: string, tld: string)
  {
    s == local + "@" + host + "." + tld && PlainRun(local) && PlainRun(host) && PlainRun(tld)
  }

  /** The language of the regular expression `^[^\s@]+@[^\s@]+\.[^\s@]+$`. */
  ghost predicate EmailShape(s: string)
  {
    exists local, host, tld :: Segments(s, local, host, tld)
  }

  /**
   * The email test as one decision procedure: no white space anywhere, a
   * first `@` that is not the first character, no further `@`, and a dot
   * after the `@` with text on both sides of it.
   */
  predicate IsValidEmail(s: string): (ok: bool)
    ensures ok ==> forall k :: 0 <= k < |s| ==> !IsSpace(s[k])
    ensures ok ==> Find(s, "@").Some? && 0 < Find(s, "@").value && s[Find(s, "@").value] == '@'
  {
    match Find(s, "@")
    case None => false
    case Some(i) =>
      var domain := s[i + 1..];
      && i > 0
      && (forall k :: 0 <= k < |s| ==> !IsSpace(s[k]))
      && '@' !in domain
      && exists k :: 0 < k < |domain| - 1 && domain[k] == '.'
  }

  /** Every string of the regular language passes the decision procedure. */
  lemma ShapeIsValid(s: string, local: string, host: string, tld: string)
    requires Segments(s, local, host, tld)
    ensures IsValidEmail(s)
  {
    var domain := host + "." + tld;
    assert s == local + "@" + domain;
    ContainsChar(local, '@');
    FindAfterPrefix(local, "@", domain);
    assert s[|local| + 1..] == domain;
    assert domain[|host|] == '.';
    forall k | 0 <= k < |domain| ensures Plain(domain[k]) {
      if k < |host| { assert domain[k] == host[k]; }
      else if k > |host| { assert domain[k] == tld[k - |host| - 1]; }
    }
    forall k | 0 <= k < |s| ensures !IsSpace(s[k]) {
      if k < |local| { assert s[k] == local[k]; }
      else if k > |local| { assert s[k] == domain[k - |local| - 1]; }
    }
  }

  /** A non-empty slice without white space or `@` is a `[^\s@]+` run. */
  lemma PlainSlice(s: string, a: nat, b: nat)
    requires a < b <= |s|
    requires forall k :: 0 <= k < |s| ==> !IsSpace(s[k])
    requires '@' !in s[a..b]
    ensures PlainRun(s[a..b])
  {
    forall j | 0 <= j < b - a ensures Plain(s[a..b][j]) {
      assert s[a..b][j] == s[a + j];
    }
  }

  /** Every string the decision procedure passes splits into the three segments of the regular expression. */
  lemma ValidHasShape(s: string)
    requires IsValidEmail(s)
    ensures EmailShape(s)
  {
    var i := Find(s, "@").value;
    var domain := s[i + 1..];
    var k :| 0 < k < |domain| - 1 && domain[k] == '.';
    var d := i + 1 + k;
    assert s[d] == '.';
    BeforeFirstChar(s, '@', i);
    assert s[i..i + 1] == "@";
    PlainSlice(s, 0, i);
    assert domain[..k] == s[i + 1..d];
    assert domain[k + 1..] == s[d + 1..];
    PlainSlice(s, i + 1, d);
    PlainSlice(s, d + 1, |s|);
    assert s[..i] == s[0..i];
    assert s[d + 1..] == s[d + 1..|s|];
    assert s == s[..i] + "@" + s[i + 1..d] + "." + s[d + 1..];
    assert Segments(s, s[..i], s[i + 1..d], s[d + 1..]);
  }

  /** The decision procedure accepts exactly the language of the regular expression. */
  lemma EmailShapeIff(s: string)
    ensures IsValidEmail(s) <==> EmailShape(s)
  {
    if EmailShape(s) {
      var local, host, tld :| Segments(s, local, host, tld);
      ShapeIsValid(s, local, host, tld);
    }
    if IsValidEmail(s) {
      ValidHasShape(s);
    }
  }

  /** A password with at least eight characters and one of each class meets every requirement. */
  lemma StrongWith(p: string, upper: nat, lower: nat, symbol: nat)
    requires |p| >= MinLength && upper < |p| && lower < |p| && symbol < |p|
    requires 'A' <= p[upper] <= 'Z' && 'a' <= p[lower] <= 'z' && p[symbol] in "!@#$%^&*"
    ensures AllMet(Strength(p))
  {
  }

  /**
   * Length counts UTF-16 code units: three letters and symbols followed by
   * three emoji are six characters but nine code units, enough for the
   * length requirement.
   */
  lemma AstralCharactersCountTwice()
    ensures |"Aa!\U{1F600}\U{1F600}\U{1F600}"| == 6
    ensures Utf16Length("Aa!\U{1F600}\U{1F600}\U{1F600}") == 9
    ensures Strength("Aa!\U{1F600}\U{1F600}\U{1F600}").length
  {
    var p := "Aa!\U{1F600}\U{1F600}\U{1F600}";
    assert p[1..][1..][1..] == "\U{1F600}\U{1F600}\U{1F600}";
    assert Utf16Length("\U{1F600}\U{1F600}\U{1F600}") == 6 by {
      assert "\U{1F600}\U{1F600}\U{1F600}"[1..] == "\U{1F600}\U{1F600}";
      assert "\U{1F600}\U{1F600}"[1..] == "\U{1F600}";
      assert "\U{1F600}"[1..] == "";
    }
  }

  /** The address used as the example sign-up email passes the test. */
  lemma ExampleEmailValid()
    ensures IsValidEmail("a@b.com")
  {
    assert Segments("a@b.com", "a", "b", "com");
    EmailShapeIff("a@b.com");
  }

  /** An address with no `@`, or with no dot after its first `@`, fails the test. */
  lemma EmailNeedsAtAndDot(local: string, domain: string)
    requires '@' !in local && '.' !in domain
    ensures !IsValidEmail(local)
    ensures !IsValidEmail(local + "@" + domain)
  {
    ContainsChar(local, '@');
    FindAfterPrefix(local, "@", domain);
    assert (local + "@" + domain)[|local| + 1..] == domain;
  }
}
