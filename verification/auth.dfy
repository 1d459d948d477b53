/** The authentication blueprint in auth.py as a state machine over the
    Flask session and an abstract user store. Database calls, password
    hashing, code generation and mail delivery are parameters. */
module Auth {
  import opened Wrappers

  /** `session['pending_registration']`. */
  datatype Pending = Pending(username: string, email: string, password: string, code: string)

  /** The keys of the Flask session the blueprint reads and writes. */
  datatype Session = Session(userId: Option<int>, username: Option<string>, pending: Option<Pending>)

  const EMPTY_SESSION := Session(None, None, None)

  /** A row of the `users` table. */
  datatype User = User(id: int, username: string, email: string, passwordHash: string, verified: bool)

  /** Where a request ends: a redirect to one of the pages, or a rendered
      page. */
  datatype Target = ToLogin | ToRegister | ToVerify | ToIndex | Render

  datatype Flash = Flash(category: string, message: string)

  /** What a request leaves behind: its answer, the flashed message, the
      session and the user store. */
  datatype Outcome = Outcome(target: Target, flash: Option<Flash>, session: Session, users: seq<User>)

  predicate Truthy(s: Option<string>) {
    s.Some? && s.value != ""
  }

  // ---------------------------------------------------------------------------
  // login_required

  datatype Guarded<R> = RedirectToLogin | Ran(result: R)

  /** `login_required(f)`: the wrapped handler runs unchanged exactly when
      the session holds a user id. */
  function LoginRequired<R>(s: Session, handler: () -> R): (r: Guarded<R>)
    ensures r == RedirectToLogin <==> s.userId.None?
    ensures r.Ran? ==> r.result == handler()
  {
    if s.userId.None? then RedirectToLogin else Ran(handler())
  }

  // ---------------------------------------------------------------------------
  // register

  /** What `send_verification_email` did. */
  datatype Sending = Sent | NotSent | SendRaised(error: string)

  predicate Taken(users: seq<User>, username: string, email: string) {
    exists i :: 0 <= i < |users| && (users[i].username == username || users[i].email == email)
  }

  /** A POST to `register`. `lookupError` is the exception the existence
      query raised, if any; `code` is the generated code. */
  function Register(s: Session, users: seq<User>, username: Option<string>, email: Option<string>, password: Option<string>,
                    lookupError: Option<string>, code: string, sending: Sending): (r: Outcome)
    ensures r.users == users
    ensures r.session.userId == s.userId && r.session.username == s.username
    ensures !(Truthy(username) && Truthy(email) && Truthy(password)) ==>
      r == Outcome(ToRegister, Some(Flash("error", "All fields are required")), s, users)
    ensures r.session.pending != s.pending <==>
      Truthy(username) && Truthy(email) && Truthy(password) && lookupError.None? && !Taken(users, username.value, email.value)
      && s.pending != Some(Pending(username.value, email.value, password.value, code))
    ensures r.target == ToVerify <==>
      Truthy(username) && Truthy(email) && Truthy(password) && lookupError.None? && !Taken(users, username.value, email.value) && sending == Sent
    ensures r.target != ToVerify ==> r.target == ToRegister
  {
    if !(Truthy(username) && Truthy(email) && Truthy(password)) then
      Outcome(ToRegister, Some(Flash("error", "All fields are required")), s, users)
    else if lookupError.Some? then
      Outcome(ToRegister, Some(Flash("error", "Error during registration: " + lookupError.value)), s, users)
    else if Taken(users, username.value, email.value) then
      Outcome(ToRegister, Some(Flash("error", "Username or email already exists")), s, users)
    else
      var s' := s.(pending := Some(Pending(username.value, email.value, password.value, code)));
      match sending
      case Sent => Outcome(ToVerify, Some(Flash("info", "Please check your email for verification code to complete registration.")), s', users)
      case NotSent => Outcome(ToRegister, Some(Flash("error", "Error sending verification email. Please try again.")), s', users)
      case SendRaised(e) => Outcome(ToRegister, Some(Flash("error", "Error during registration: " + e)), s', users)
  }

  /** The pending record is stored before the mail goes out, so it is there
      whatever the sending did. */
  lemma PendingSurvivesSending(s: Session, users: seq<User>, username: string, email: string, password: string, code: string, sending: Sending)
    requires username != "" && email != "" && password != ""
    requires !Taken(users, username, email)
    ensures Register(s, users, Some(username), Some(email), Some(password), None, code, sending).session.pending
      == Some(Pending(username, email, password, code))
  {
  }

  /** A name or address already in the store is refused, and the session
      is left as it was. */
  lemma RegisterRefusesTaken(s: Session, users: seq<User>, i: nat, username: string, email: string, password: Option<string>, code: string, sending: Sending)
    requires i < |users| && (users[i].username == username || users[i].email == email)
    requires username != "" && email != "" && Truthy(password)
    ensures Register(s, users, Some(username), Some(email), password, None, code, sending)
      == Outcome(ToRegister, Some(Flash("error", "Username or email already exists")), s, users)
  {
  }

  // ---------------------------------------------------------------------------
  // verify_email

  datatype Method = Get | Post

  /** What the insertion of the verified user did: the new id, or the
      exception's text. */
  datatype Insertion = InsertedId(id: int) | InsertRaised(error: string)

  function NewUser(p: Pending, id: int, hash: string -> string): User {
    User(id, p.username, p.email, hash(p.password), true)
  }

  /** `verify_email`. `code` is the submitted form field. */
  function VerifyEmail(s: Session, users: seq<User>, method_: Method, code: Option<string>, insert: Pending -> Insertion, hash: string -> string): (r: Outcome)
    ensures s.pending.None? ==> r == Outcome(ToRegister, Some(Flash("error", "Please register first")), s, users)
    ensures s.pending.Some? && method_ == Get ==> r == Outcome(Render, None, s, users)
    ensures r.session.userId == s.userId && r.session.username == s.username
    ensures r.users != users <==> r.session.pending.None? && s.pending.Some?
    ensures r.users != users ==> (r.target == ToLogin && insert(s.pending.value).InsertedId?
      && r.users == users + [NewUser(s.pending.value, insert(s.pending.value).id, hash)])
    ensures r.users == users ==> r.session == s
  {
    match s.pending
    case None => Outcome(ToRegister, Some(Flash("error", "Please register first")), s, users)
    case Some(p) =>
      if method_ == Get then Outcome(Render, None, s, users)
      else if code != Some(p.code) then Outcome(ToVerify, Some(Flash("error", "Invalid verification code")), s, users)
      else match insert(p)
        case InsertRaised(e) => Outcome(ToVerify, Some(Flash("error", "Error completing registration: " + e)), s, users)
        case InsertedId(id) =>
          var users' := users + [NewUser(p, id, hash)];
          assert |users'| > |users|;
          Outcome(ToLogin, Some(Flash("success", "Registration successful! You can now login.")), s.(pending := None), users')
  }

  /** A submitted code creates the verified user and clears the pending
      record exactly when it equals the stored code (and the insertion
      goes through); a wrong code leaves everything in place. */
  lemma VerifyIffCodeMatches(s: Session, users: seq<User>, code: Option<string>, insert: Pending -> Insertion, hash: string -> string)
    requires s.pending.Some?
    ensures var r := VerifyEmail(s, users, Post, code, insert, hash);
      r.session.pending.None? <==> code == Some(s.pending.value.code) && insert(s.pending.value).InsertedId?
    ensures code != Some(s.pending.value.code) ==>
      VerifyEmail(s, users, Post, code, insert, hash) == Outcome(ToVerify, Some(Flash("error", "Invalid verification code")), s, users)
  {
  }

  // ---------------------------------------------------------------------------
  // resend_verification

  /** `resend_verification`. */
  function Resend(s: Session, users: seq<User>, newCode: string, sending: Sending): (r: Outcome)
    ensures r.users == users
    ensures s.pending.None? ==> r.target == ToRegister && r.session == s
    ensures s.pending.Some? ==> r.target == ToVerify && r.session == s.(pending := Some(s.pending.value.(code := newCode)))
  {
    match s.pending
    case None => Outcome(ToRegister, Some(Flash("error", "Please register first")), s, users)
    case Some(p) =>
      var s' := s.(pending := Some(p.(code := newCode)));
      match sending
      case Sent => Outcome(ToVerify, Some(Flash("success", "New verification code sent! Please check your email.")), s', users)
      case NotSent => Outcome(ToVerify, Some(Flash("error", "Error sending verification email. Please try again.")), s', users)
      case SendRaised(e) => Outcome(ToVerify, Some(Flash("error", "Error resending verification: " + e)), s', users)
  }

  /** Resending changes only the code: after it the old code is refused
      and the new one completes the registration of the same person. */
  lemma ResendReplacesCode(s: Session, users: seq<User>, newCode: string, sending: Sending, insert: Pending -> Insertion, hash: string -> string)
    requires s.pending.Some? && newCode != s.pending.value.code
    ensures var p := Resend(s, users, newCode, sending).session.pending.value;
      p.username == s.pending.value.username && p.email == s.pending.value.email && p.password == s.pending.value.password
    ensures var s' := Resend(s, users, newCode, sending).session;
      VerifyEmail(s', users, Post, Some(s.pending.value.code), insert, hash).target == ToVerify
  {
  }

  // ---------------------------------------------------------------------------
  // login and logout

  /** The row the login query returns: the first user with that name. */
  function FindUser(users: seq<User>, username: string): (r: Option<User>)
    ensures r.Some? ==> r.value in users && r.value.username == username
    ensures r.None? <==> forall i :: 0 <= i < |users| ==> users[i].username != username
  {
    if users == [] then None
    else if users[0].username == username then Some(users[0])
    else
      var r := FindUser(users[1..], username);
      assert forall i :: 0 <= i < |users[1..]| ==> users[1..][i] == users[i + 1];
      r
  }

  const INVALID_LOGIN := Flash("error", "Invalid username or password")

  /** A POST to `login`. `check` is `check_password_hash`. */
  function Login(s: Session, users: seq<User>, username: Option<string>, password: Option<string>,
                 lookupError: Option<string>, check: (string, string) -> bool): (r: Outcome)
    ensures r.users == users && r.session.pending == s.pending
    ensures r.target != ToIndex ==> r.session == s
    ensures r.target != ToIndex ==> r.target == ToLogin
    ensures r.target == ToIndex <==>
      Truthy(username) && Truthy(password) && lookupError.None?
      && FindUser(users, username.value).Some?
      && check(FindUser(users, username.value).value.passwordHash, password.value)
      && FindUser(users, username.value).value.verified
    ensures r.target == ToIndex ==>
      r.session == s.(userId := Some(FindUser(users, username.value).value.id), username := username)
  {
    if !(Truthy(username) && Truthy(password)) then
      Outcome(ToLogin, Some(Flash("error", "All fields are required")), s, users)
    else if lookupError.Some? then
      Outcome(ToLogin, Some(Flash("error", "Error during login: " + lookupError.value)), s, users)
    else match FindUser(users, username.value)
      case Some(u) =>
        if check(u.passwordHash, password.value) then
          if !u.verified then Outcome(ToLogin, Some(Flash("error", "Please verify your email first")), s, users)
          else
            Outcome(ToIndex, Some(Flash("success", "Logged in successfully!")), s.(userId := Some(u.id), username := username), users)
        else Outcome(ToLogin, Some(INVALID_LOGIN), s, users)
      case None => Outcome(ToLogin, Some(INVALID_LOGIN), s, users)
  }

  /** An unknown name and a wrong password give the same answer. */
  lemma LoginHidesWhichFailed(s: Session, users: seq<User>, unknown: string, known: string, password: string, check: (string, string) -> bool)
    requires unknown != "" && known != "" && password != ""
    requires FindUser(users, unknown).None?
    requires FindUser(users, known).Some? && !check(FindUser(users, known).value.passwordHash, password)
    ensures Login(s, users, Some(unknown), Some(password), None, check)
      == Login(s, users, Some(known), Some(password), None, check)
      == Outcome(ToLogin, Some(INVALID_LOGIN), s, users)
  {
  }

  /** `logout`: the session is cleared. */
  function Logout(s: Session, users: seq<User>): (r: Outcome)
    ensures r.session.userId.None? && r.session.pending.None?
    ensures r.target == ToLogin && r.users == users
  {
    Outcome(ToLogin, Some(Flash("success", "You have been logged out")), EMPTY_SESSION, users)
  }

  /** After logging out every protected route redirects to the login page. */
  lemma LogoutGuards<R>(s: Session, users: seq<User>, handler: () -> R)
    ensures LoginRequired(Logout(s, users).session, handler) == RedirectToLogin
  {
  }

  // ---------------------------------------------------------------------------
  // The whole flow

  /** Registering with a fresh name and address, entering the mailed code,
      and logging in with the same password reaches the index with the
      new user's id in the session, provided the hash check accepts the
      password it hashed. */
  lemma RegisterVerifyLogin(users: seq<User>, username: string, email: string, password: string, code: string,
                            insert: Pending -> Insertion, hash: string -> string, check: (string, string) -> bool)
    requires username != "" && email != "" && password != ""
    requires !Taken(users, username, email)
    requires insert(Pending(username, email, password, code)).InsertedId?
    requires check(hash(password), password)
    ensures var r1 := Register(EMPTY_SESSION, users, Some(username), Some(email), Some(password), None, code, Sent);
      var r2 := VerifyEmail(r1.session, r1.users, Post, Some(code), insert, hash);
      var r3 := Login(r2.session, r2.users, Some(username), Some(password), None, check);
      r1.target == ToVerify && r2.target == ToLogin && r3.target == ToIndex
      && r3.session.userId == Some(insert(Pending(username, email, password, code)).id)
  {
    var p := Pending(username, email, password, code);
    var u := NewUser(p, insert(p).id, hash);
    RegisterStep(users, username, email, password, code);
    VerifyStep(users, p, insert, hash);
    assert FindUser(users, username).None? by {
      assert forall i :: 0 <= i < |users| ==> users[i].username != username;
    }
    LoginStep(users, u, password, check);
  }

  lemma RegisterStep(users: seq<User>, username: string, email: string, password: string, code: string)
    requires username != "" && email != "" && password != ""
    requires !Taken(users, username, email)
    ensures var r := Register(EMPTY_SESSION, users, Some(username), Some(email), Some(password), None, code, Sent);
      r.session == Session(None, None, Some(Pending(username, email, password, code))) && r.users == users && r.target == ToVerify
  {
  }

  lemma VerifyStep(users: seq<User>, p: Pending, insert: Pending -> Insertion, hash: string -> string)
    requires insert(p).InsertedId?
    ensures var r := VerifyEmail(Session(None, None, Some(p)), users, Post, Some(p.code), insert, hash);
      r.session == EMPTY_SESSION && r.users == users + [NewUser(p, insert(p).id, hash)] && r.target == ToLogin
  {
  }

  lemma LoginStep(users: seq<User>, u: User, password: string, check: (string, string) -> bool)
    requires FindUser(users, u.username).None? && u.username != "" && password != ""
    requires check(u.passwordHash, password) && u.verified
    ensures var r := Login(EMPTY_SESSION, users + [u], Some(u.username), Some(password), None, check);
      r.target == ToIndex && r.session.userId == Some(u.id)
  {
    FindUserAppend(users, u, u.username);
  }

  /** Looking up a name the store lacks finds the user appended for it. */
  lemma {:induction false} FindUserAppend(users: seq<User>, u: User, username: string)
    requires FindUser(users, username).None? && u.username == username
    ensures FindUser(users + [u], username) == Some(u)
    decreases |users|
  {
    if users == [] {
      assert users + [u] == [u];
    } else {
      assert (users + [u])[1..] == users[1..] + [u];
      assert FindUser(users[1..], username).None?;
      FindUserAppend(users[1..], u, username);
    }
  }
}
