/** The login decision of `fastapizero/routers/auth.py`. Password
    verification and token signing live in a module outside this model; they
    enter as the function parameters `verifyPassword` and `createAccessToken`,
    about which nothing is assumed beyond being pure functions of their
    arguments (so the time-based expiry the real minter adds is not modelled). */
module Auth {
  import opened Wrappers
  import opened Http

  /** A registered user; `password` is the stored hash, never the plaintext. */
  datatype User = User(id: int, username: string, email: string, password: string)

  /** The OAuth2 password form: `username` carries the email. */
  datatype LoginForm = LoginForm(username: string, password: string)

  /** The response body of a successful login. */
  datatype Token = Token(accessToken: string, tokenType: string)

  /** The claims handed to the token minter. */
  type Claims = map<string, string>

  const IncorrectCredentials := HttpException(BAD_REQUEST, "Incorrect email or password!")

  /** No two users share an email (the `users` table keeps it unique). */
  predicate UniqueEmails(users: seq<User>) {
    forall i, j :: 0 <= i < j < |users| ==> users[i].email != users[j].email
  }

  /** `select(User).where(User.email == email)`, first row. The query has no
      `ORDER BY`, so the database may yield any matching row first; the model
      fixes the first matching user in sequence order. */
  function FindByEmail(users: seq<User>, email: string): (r: Option<User>)
    ensures r.Some? <==> exists i :: 0 <= i < |users| && users[i].email == email
    ensures r.Some? ==> exists i ::
      && 0 <= i < |users| && users[i] == r.value && r.value.email == email
      && forall j :: 0 <= j < i ==> users[j].email != email
  {
    if users == [] then None
    else if users[0].email == email then Some(users[0])
    else
      var r := FindByEmail(users[1..], email);
      assert forall i :: 0 < i < |users| ==> users[i] == users[1..][i - 1];
      if r.Some? then
        var i :| && 0 <= i < |users[1..]| && users[1..][i] == r.value && r.value.email == email
                 && forall j :: 0 <= j < i ==> users[1..][j].email != email;
        assert users[i + 1] == r.value;
        r
      else r
  }

  /** With unique emails, the lookup finds exactly the user with that email. */
  lemma FindByUniqueEmail(users: seq<User>, user: User)
    requires UniqueEmails(users)
    requires user in users
    ensures FindByEmail(users, user.email) == Some(user)
  {
    var found := FindByEmail(users, user.email);
    var i :| 0 <= i < |users| && users[i] == found.value && found.value.email == user.email
             && forall j :: 0 <= j < i ==> users[j].email != user.email;
    var k :| 0 <= k < |users| && users[k] == user;
    assert !(i < k) && !(k < i);
  }

  /** `login_for_access_token`: look the user up by the submitted email;
      reject with one combined error when there is none or the password does
      not verify against the stored hash; otherwise mint a token whose subject
      is the user's email and return it as a bearer token. */
  function Login(users: seq<User>, form: LoginForm,
                 verifyPassword: (string, string) -> bool,
                 createAccessToken: Claims -> string): (r: Result<Token, HttpException>)
    ensures var found := FindByEmail(users, form.username);
      r.Ok? <==> found.Some? && verifyPassword(form.password, found.value.password)
    ensures r.Err? ==> r.error == IncorrectCredentials
    ensures r.Ok? ==> r.value == Token(createAccessToken(map["sub" := form.username]), "bearer")
  {
    match FindByEmail(users, form.username)
    case None => Err(IncorrectCredentials)
    case Some(user) =>
      if !verifyPassword(form.password, user.password) then Err(IncorrectCredentials)
      else Ok(Token(createAccessToken(map["sub" := user.email]), "bearer"))
  }

  /** An unknown email is rejected with the combined error. */
  lemma UnknownEmailIsRejected(users: seq<User>, form: LoginForm,
                               verifyPassword: (string, string) -> bool,
                               createAccessToken: Claims -> string)
    requires forall u :: u in users ==> u.email != form.username
    ensures Login(users, form, verifyPassword, createAccessToken) == Err(IncorrectCredentials)
  {
  }

  /** A known email with a password that does not verify is rejected with
      the very same error, so the two causes cannot be told apart. */
  lemma WrongPasswordIsRejected(users: seq<User>, form: LoginForm, user: User,
                                verifyPassword: (string, string) -> bool,
                                createAccessToken: Claims -> string)
    requires UniqueEmails(users)
    requires user in users && user.email == form.username
    requires !verifyPassword(form.password, user.password)
    ensures Login(users, form, verifyPassword, createAccessToken) == Err(IncorrectCredentials)
  {
    FindByUniqueEmail(users, user);
  }

  /** With unique emails, login succeeds exactly when some user has the
      submitted email and the password verifies against that user's hash. */
  lemma LoginSucceedsIff(users: seq<User>, form: LoginForm,
                         verifyPassword: (string, string) -> bool,
                         createAccessToken: Claims -> string)
    requires UniqueEmails(users)
    ensures Login(users, form, verifyPassword, createAccessToken).Ok? <==>
      exists u :: u in users && u.email == form.username && verifyPassword(form.password, u.password)
  {
    if exists u :: u in users && u.email == form.username && verifyPassword(form.password, u.password) {
      var u :| u in users && u.email == form.username && verifyPassword(form.password, u.password);
      FindByUniqueEmail(users, u);
    }
  }

  /** Every failed login, whatever the table and the form, yields the same
      status and message. */
  lemma FailuresAreIndistinguishable(users1: seq<User>, form1: LoginForm,
                                     users2: seq<User>, form2: LoginForm,
                                     verifyPassword: (string, string) -> bool,
                                     createAccessToken: Claims -> string)
    requires Login(users1, form1, verifyPassword, createAccessToken).Err?
    requires Login(users2, form2, verifyPassword, createAccessToken).Err?
    ensures Login(users1, form1, verifyPassword, createAccessToken)
         == Login(users2, form2, verifyPassword, createAccessToken)
  {
  }

  /** A successful login's token is minted from the claims `{'sub': email}`
      of a registered user with the submitted email. */
  lemma TokenSubjectIsUserEmail(users: seq<User>, form: LoginForm,
                                verifyPassword: (string, string) -> bool,
                                createAccessToken: Claims -> string)
    requires Login(users, form, verifyPassword, createAccessToken).Ok?
    ensures exists u :: (u in users && u.email == form.username &&
      Login(users, form, verifyPassword, createAccessToken).value.accessToken == createAccessToken(map["sub" := u.email]))
  {
    var found := FindByEmail(users, form.username);
    var i :| 0 <= i < |users| && users[i] == found.value && found.value.email == form.username
             && forall j :: 0 <= j < i ==> users[j].email != form.username;
    assert users[i] in users;
  }
}
