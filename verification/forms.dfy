/** The field validators of the three forms in forms.py, with the
    WTForms chain semantics: a failed DataRequired stops the chain with its
    own message alone; every other failed validator adds its message and
    the chain goes on. A field is valid when it collects no message. */
module Forms {
  import Text

  // ---------------------------------------------------------------------------
  // Validators

  /** DataRequired: the data is present and not whitespace only. */
  predicate Present(data: string) {
    !Text.IsBlank(data)
  }

  /** Length(min, max). */
  predicate LengthIn(data: string, min: nat, max: nat) {
    min <= |data| <= max
  }

  /** One validator after DataRequired: its message when it fails. */
  function Check(ok: bool, message: string): (r: seq<string>)
    ensures r == [] <==> ok
    ensures !ok ==> r == [message]
  {
    if ok then [] else [message]
  }

  /** The messages of a field: the required message alone when the data
      is missing, otherwise the messages of the later validators. */
  function Chain(data: string, required: string, later: seq<string>): (r: seq<string>)
    ensures !Present(data) ==> r == [required]
    ensures Present(data) ==> r == later
  {
    if !Present(data) then [required] else later
  }

  predicate IsWordChar(c: char) {
    Text.IsAlnum(c) || c == '_'
  }

  predicate AllWord(t: string) {
    forall i :: 0 <= i < |t| ==> IsWordChar(t[i])
  }

  /** `re.match(r'^[a-zA-Z0-9_]+$', s)`. Python's `$` also matches just
      before a final newline, so one trailing "\n" is let through. */
  predicate UsernamePatternAsWritten(s: string) {
    (|s| > 0 && AllWord(s)) || (|s| > 1 && s[|s| - 1] == '\n' && AllWord(s[..|s| - 1]))
  }

  /** The pattern matched against the whole string, as the message
      "letters, numbers, and underscores" promises. */
  predicate UsernamePattern(s: string) {
    |s| > 0 && AllWord(s)
  }

  /** The part of s before its first newline: what `.*` can scan. */
  function FirstLine(s: string): (r: string)
    ensures Text.StartsWith(s, r) && '\n' !in r
    ensures '\n' in s ==> |r| < |s| && s[|r|] == '\n'
    ensures '\n' !in s ==> r == s
  {
    match Text.Find(s, '\n')
    case None => s
    case Some(i) => s[..i]
  }

  /** `re.match(r'^(?=.*[a-z])(?=.*[A-Z])(?=.*\d)', s)`: each class must
      occur before the first newline, since `.` does not match one. */
  predicate PasswordPattern(s: string) {
    HasClasses(FirstLine(s))
  }

  /** A lower-case letter, an upper-case letter and a digit all occur in l. */
  predicate HasClasses(l: string) {
    (exists i :: 0 <= i < |l| && Text.IsLower(l[i]))
    && (exists i :: 0 <= i < |l| && Text.IsUpper(l[i]))
    && (exists i :: 0 <= i < |l| && Text.IsDigit(l[i]))
  }

  /** `re.match(r'^\d{6}$', s)`. */
  predicate CodePattern(s: string) {
    6 <= |s| && (forall i :: 0 <= i < 6 ==> Text.IsDigit(s[i])) && (|s| == 6 || (|s| == 7 && s[6] == '\n'))
  }

  // ---------------------------------------------------------------------------
  // RegistrationForm

  const USERNAME_LENGTH_MESSAGE := "Username must be between 3 and 50 characters"
  const USERNAME_PATTERN_MESSAGE := "Username can only contain letters, numbers, and underscores"

  /** The username field as written. */
  function UsernameErrorsAsWritten(s: string): (r: seq<string>)
    ensures r == [] <==> Present(s) && LengthIn(s, 3, 50) && UsernamePatternAsWritten(s)
  {
    Chain(s, "Username is required",
      Check(LengthIn(s, 3, 50), USERNAME_LENGTH_MESSAGE) + Check(UsernamePatternAsWritten(s), USERNAME_PATTERN_MESSAGE))
  }

  /** A username ending in a newline passes the field as written. */
  lemma NewlineUsernameAccepted()
    ensures UsernameErrorsAsWritten("ab\n") == []
    ensures !UsernamePattern("ab\n")
  {
    var s := "ab\n";
    assert s[..2] == "ab";
    assert !Text.IsSpace(s[0]);
  }

  /** The username field with the pattern matched in full. */
  function UsernameErrors(s: string): (r: seq<string>)
    ensures !Present(s) ==> r == ["Username is required"]
    ensures Present(s) && !LengthIn(s, 3, 50) ==> USERNAME_LENGTH_MESSAGE in r
    ensures Present(s) && !UsernamePattern(s) ==> USERNAME_PATTERN_MESSAGE in r
  {
    Chain(s, "Username is required",
      Check(LengthIn(s, 3, 50), USERNAME_LENGTH_MESSAGE) + Check(UsernamePattern(s), USERNAME_PATTERN_MESSAGE))
  }

  /** A username is accepted exactly when it has 3 to 50 characters, each a
      letter, digit or underscore. */
  lemma UsernameValidIff(s: string)
    ensures UsernameErrors(s) == [] <==> 3 <= |s| <= 50 && AllWord(s)
  {
    if 3 <= |s| <= 50 && AllWord(s) {
      assert !Text.IsSpace(s[0]);
    }
  }

  /** The corrected field accepts a subset of what the written one does. */
  lemma UsernameCorrectedNarrower(s: string)
    ensures UsernameErrors(s) == [] ==> UsernameErrorsAsWritten(s) == []
  {
  }

  /** `email`: required, an address (the Email validator is `isEmail`),
      and at most 100 characters. */
  function EmailErrors(s: string, isEmail: string -> bool): (r: seq<string>)
    ensures r == [] <==> Present(s) && isEmail(s) && |s| <= 100
  {
    Chain(s, "Email is required",
      Check(isEmail(s), "Please enter a valid email address") + Check(|s| <= 100, "Email must be less than 100 characters"))
  }

  const PASSWORD_CLASSES_MESSAGE := "Password must contain at least one uppercase letter, one lowercase letter, and one number"

  function PasswordErrors(s: string): (r: seq<string>)
    ensures r == [] <==> Present(s) && LengthIn(s, 8, 128) && PasswordPattern(s)
  {
    Chain(s, "Password is required",
      Check(LengthIn(s, 8, 128), "Password must be between 8 and 128 characters") + Check(PasswordPattern(s), PASSWORD_CLASSES_MESSAGE))
  }

  /** For a one-line password the pattern asks for a lower-case letter, an
      upper-case letter and a digit anywhere in it. */
  lemma PasswordClassesIff(s: string)
    requires '\n' !in s
    ensures PasswordErrors(s) == [] <==> (8 <= |s| <= 128
      && (exists i :: 0 <= i < |s| && Text.IsLower(s[i]))
      && (exists i :: 0 <= i < |s| && Text.IsUpper(s[i]))
      && (exists i :: 0 <= i < |s| && Text.IsDigit(s[i])))
  {
    assert FirstLine(s) == s;
    assert PasswordPattern(s) == HasClasses(s);
    if HasClasses(s) {
      ClassesPresent(s);
    }
  }

  /** Text holding a letter is not blank. */
  lemma ClassesPresent(s: string)
    requires HasClasses(s)
    ensures Present(s)
  {
    var i :| 0 <= i < |s| && Text.IsLower(s[i]);
    assert !Text.IsSpace(s[i]);
  }

  /** A class that occurs only after a newline does not count. */
  lemma PasswordSecondLineIgnored()
    ensures PasswordErrors("Abcdefgh\n1") != []
  {
    var p := "Abcdefgh";
    var s := p + ['\n'] + "1";
    assert s == "Abcdefgh\n1";
    Text.FindAfter(p, '\n', "1");
    assert FirstLine(s) == s[..8] == p;
    assert forall i :: 0 <= i < |p| ==> !Text.IsDigit(p[i]);
    assert !PasswordPattern(s);
  }

  datatype Registration = Registration(username: string, email: string, password: string)

  /** `RegistrationForm.validate()` as written: all three fields pass, with
      the username pattern's `$` admitting a final newline. */
  predicate RegistrationValidAsWritten(f: Registration, isEmail: string -> bool) {
    UsernameErrorsAsWritten(f.username) == [] && EmailErrors(f.email, isEmail) == [] && PasswordErrors(f.password) == []
  }

  /** The form with the corrected username field. */
  predicate RegistrationValid(f: Registration, isEmail: string -> bool) {
    UsernameErrors(f.username) == [] && EmailErrors(f.email, isEmail) == [] && PasswordErrors(f.password) == []
  }

  /** The written form accepts a registration whose username ends in a
      newline, whatever the other fields; the corrected one refuses it. */
  lemma NewlineRegistrationAccepted(email: string, password: string, isEmail: string -> bool)
    requires EmailErrors(email, isEmail) == [] && PasswordErrors(password) == []
    ensures RegistrationValidAsWritten(Registration("ab\n", email, password), isEmail)
    ensures !RegistrationValid(Registration("ab\n", email, password), isEmail)
  {
    NewlineUsernameAccepted();
    UsernameValidIff("ab\n");
  }

  /** The corrected form accepts exactly a 3–50 character word username,
      a present address of at most 100 characters that passes the check,
      and a password the password field accepts; and it accepts only
      registrations the written form accepts. */
  lemma RegistrationValidIff(f: Registration, isEmail: string -> bool)
    ensures RegistrationValid(f, isEmail) <==>
      3 <= |f.username| <= 50 && AllWord(f.username)
      && Present(f.email) && isEmail(f.email) && |f.email| <= 100
      && Present(f.password) && LengthIn(f.password, 8, 128) && PasswordPattern(f.password)
    ensures RegistrationValid(f, isEmail) ==> RegistrationValidAsWritten(f, isEmail)
  {
    UsernameValidIff(f.username);
    UsernameCorrectedNarrower(f.username);
  }

  // ---------------------------------------------------------------------------
  // LoginForm and VerificationForm

  function LoginUsernameErrors(s: string): (r: seq<string>)
    ensures r == [] <==> Present(s) && |s| <= 100
  {
    Chain(s, "Username or email is required", Check(LengthIn(s, 1, 100), "Input must be between 1 and 100 characters"))
  }

  function LoginPasswordErrors(s: string): (r: seq<string>)
    ensures r == [] <==> Present(s) && |s| <= 128
    ensures r != [] ==> r == ["Password is required"]
  {
    Chain(s, "Password is required", Check(LengthIn(s, 1, 128), "Password is required"))
  }

  const CODE_MESSAGE := "Verification code must be 6 digits"

  function CodeErrors(s: string): (r: seq<string>)
    ensures !Present(s) ==> r == ["Verification code is required"]
  {
    Chain(s, "Verification code is required", Check(LengthIn(s, 6, 6), CODE_MESSAGE) + Check(CodePattern(s), CODE_MESSAGE))
  }

  /** A code is accepted exactly when it is six digits; the trailing
      newline `$` allows is ruled out by the length check. */
  lemma CodeValidIff(s: string)
    ensures CodeErrors(s) == [] <==> |s| == 6 && forall i :: 0 <= i < 6 ==> Text.IsDigit(s[i])
    ensures Present(s) && |s| == 7 && s[6] == '\n' ==> CODE_MESSAGE in CodeErrors(s)
  {
    if |s| == 6 && forall i :: 0 <= i < 6 ==> Text.IsDigit(s[i]) {
      assert !Text.IsSpace(s[0]);
    }
    if |s| == 7 && s[6] == '\n' && Present(s) {
      assert CodeErrors(s)[0] == CODE_MESSAGE;
    }
  }
}
