/** Registration, login and the current-user endpoint (server/app/routers/auth.py). */
module AuthRouter {
  import opened Records
  import opened Credentials
  import opened UserRepository

  const EmailTaken := Failure(BadRequest, "Email already registered")
  /** The "Failed to create user" exception is raised inside the `try` and caught
      by its own `except Exception`, which wraps it as "Error creating user: "
      followed by the exception's text, "500: Failed to create user". */
  const UserCreateFailed := Failure(Internal, "Error creating user: 500: Failed to create user")
  const BadCredentials := Failure(Unauthorized, "Incorrect email or password")

  /** register: an email already on record is refused with nothing written;
      otherwise one user is added, so each email keeps exactly one account, and
      the new user can log in with the password just given. */
  method Register(users: UserTable, email: string, password: string, name: string, fault: bool)
    returns (r: Result<UserPublic>)
    requires users.Valid() && users.EmailsUnique()
    modifies users
    ensures users.Valid() && users.EmailsUnique()
    ensures (exists u :: u in old(users.rows) && u.email == email) ==> r == Err(EmailTaken)
    ensures (forall u :: u in old(users.rows) ==> u.email != email) ==>
              r == if fault then Err(UserCreateFailed) else Ok(UserPublic(old(users.nextId), email, name, old(users.clock)))
    ensures r.Ok? ==> users.rows == old(users.rows) + [UserRow(r.value.id, email, Hash(password), name, r.value.createdAt)]
    ensures r.Err? ==> users.rows == old(users.rows)
    ensures r.Ok? ==> forall u :: u in users.rows && u.email == email ==> u.id == r.value.id
    ensures r.Ok? ==> Login(users, email, password) == Ok(Token(CreateAccessToken(NatToString(r.value.id)), "bearer"))
  {
    var existing := users.GetUserByEmail(email);
    if existing.Some? {
      r := Err(EmailTaken);
      return;
    }
    var created := users.CreateUser(email, password, name, fault);
    if created.None? {
      r := Err(UserCreateFailed);
      return;
    }
    r := Ok(created.value);
    assert users.rows[|users.rows| - 1].email == email;
  }

  /** login: the first row with the email, if its stored hash matches the
      password, yields a bearer token whose subject is the user's id as a
      string. Both failures give the same 401, so the answer does not reveal
      whether the email is registered. */
  function Login(users: UserTable, email: string, password: string): (r: Result<Token>)
    reads users
    ensures r.Err? ==> r.error == BadCredentials
    ensures (forall u :: u in users.rows ==> u.email != email) ==> r == Err(BadCredentials)
    ensures r.Ok? ==> exists u :: && u in users.rows && u.email == email && VerifyPassword(password, u.passwordHash)
                                 && r.value == Token(CreateAccessToken(NatToString(u.id)), "bearer")
    ensures users.EmailsUnique() ==>
              (r.Ok? <==> exists u :: u in users.rows && u.email == email && VerifyPassword(password, u.passwordHash))
  {
    match users.GetUserByEmail(email)
    case None => Err(BadCredentials)
    case Some(user) =>
      EmailNamesOneUser(users, user);
      if !VerifyPassword(password, user.passwordHash) then Err(BadCredentials)
      else Ok(Token(CreateAccessToken(NatToString(user.id)), "bearer"))
  }

  /** With unique emails, a row is the only one with its email. */
  lemma EmailNamesOneUser(users: UserTable, user: UserRow)
    ensures users.EmailsUnique() && user in users.rows ==>
              forall u :: u in users.rows && u.email == user.email ==> u == user
  {
    if users.EmailsUnique() && user in users.rows {
      forall u | u in users.rows && u.email == user.email ensures u == user {
        var i :| 0 <= i < |users.rows| && users.rows[i] == user;
        var j :| 0 <= j < |users.rows| && users.rows[j] == u;
        assert !(i < j) && !(j < i);
      }
    }
  }

  /** A successful login's token subject reads back as the id of the user who
      logged in, and different users never share a subject. */
  lemma LoginSubjectIsUserId(users: UserTable, email: string, password: string)
    requires Login(users, email, password).Ok?
    ensures var sub := Login(users, email, password).value.accessToken.sub;
            IsDigits(sub) && exists u :: u in users.rows && u.email == email && ParseNat(sub) == u.id
  {
    var u :| && u in users.rows && u.email == email && VerifyPassword(password, u.passwordHash)
             && Login(users, email, password).value == Token(CreateAccessToken(NatToString(u.id)), "bearer");
    ParseNatToString(u.id);
  }

  /** A wrong password for a registered email is answered exactly like an
      email nobody registered. */
  lemma LoginFailuresAlike(users: UserTable, known: string, unknown: string, password: string)
    requires users.EmailsUnique()
    requires exists u :: u in users.rows && u.email == known && !VerifyPassword(password, u.passwordHash)
    requires forall u :: u in users.rows ==> u.email != unknown
    ensures Login(users, known, password) == Login(users, unknown, password) == Err(BadCredentials)
  {
  }

  /** get_me: the user the authentication dependency resolved, returned as is. */
  function GetMe(current: UserPublic): (r: UserPublic)
    ensures r.id == current.id && r.email == current.email && r.name == current.name && r.createdAt == current.createdAt
  {
    current
  }
}
