/** Sign-up and sign-in (src/service/user.rs) over the users table of
    src/sql.rs. Password hashing and checking are library calls; they are
    passed in as functions, each of which may fail. The new user's id, which
    the database generates, and the current time are passed in too. */
module Auth {
  import opened Wrappers
  import opened Errors
  import opened Rows

  datatype User = User(id: string, name: string, email: string, password: string, createdAt: int, updatedAt: int)

  /** The users table, in the order the database returns its rows. */
  type Users = seq<User>

  datatype RegisterInput = RegisterInput(name: string, email: string, password: string)
  datatype LoginInput = LoginInput(email: string, password: string)

  /** A call's outcome: the table afterwards and the call's own result. */
  datatype Step = Step(users: Users, result: Result<User, Error>)

  function HasEmail(email: string): User -> bool {
    (u: User) => u.email == email
  }

  function HasName(name: string): User -> bool {
    (u: User) => u.name == name
  }

  /** `find_by_email`: the first user with that e-mail; none makes `fetch_one` fail. */
  function FindByEmail(users: Users, email: string): (r: Result<User, Error>)
    ensures r.Ok? <==> exists i :: 0 <= i < |users| && users[i].email == email
    ensures r.Ok? ==> r.value in users && r.value.email == email
    ensures r.Err? ==> r.error == SqlxError(RowNotFound)
  {
    match First(users, HasEmail(email))
    case Some(k) => Ok(users[k])
    case None => Err(SqlxError(RowNotFound))
  }

  /** `find_by_name`: the first user with that name; none makes `fetch_one` fail. */
  function FindByName(users: Users, name: string): (r: Result<User, Error>)
    ensures r.Ok? <==> exists i :: 0 <= i < |users| && users[i].name == name
    ensures r.Ok? ==> r.value in users && r.value.name == name
    ensures r.Err? ==> r.error == SqlxError(RowNotFound)
  {
    match First(users, HasName(name))
    case Some(k) => Ok(users[k])
    case None => Err(SqlxError(RowNotFound))
  }

  /** `sign_up`: a taken e-mail is refused first, then a taken name; a failed
      hash is passed on; otherwise exactly one user is added, holding the
      name, the e-mail and the hash of the password. A refused call adds
      nothing. */
  function SignUp(users: Users, input: RegisterInput, hash: string -> Result<string, Error>,
                  id: string, now: int): (s: Step)
    ensures FindByEmail(users, input.email).Ok? ==> s.result == Err(DuplicateUserEmail)
    ensures FindByEmail(users, input.email).Err? && FindByName(users, input.name).Ok? ==>
      s.result == Err(DuplicateUserName)
    ensures FindByEmail(users, input.email).Err? && FindByName(users, input.name).Err? && hash(input.password).Err? ==>
      s.result == Err(hash(input.password).error)
    ensures s.result.Ok? <==>
      FindByEmail(users, input.email).Err? && FindByName(users, input.name).Err? && hash(input.password).Ok?
    ensures s.result.Err? ==> s.users == users
    ensures s.result.Ok? ==> s.users == users + [s.result.value]
    ensures s.result.Ok? ==> s.result.value.name == input.name && s.result.value.email == input.email
    ensures s.result.Ok? ==> s.result.value.password == hash(input.password).value && s.result.value.id == id
  {
    if FindByEmail(users, input.email).Ok? then Step(users, Err(DuplicateUserEmail))
    else if FindByName(users, input.name).Ok? then Step(users, Err(DuplicateUserName))
    else match hash(input.password)
      case Err(e) => Step(users, Err(e))
      case Ok(hashed) =>
        var user := User(id, input.name, input.email, hashed, now, now);
        Step(users + [user], Ok(user))
  }

  /** `sign_in`: an unknown e-mail fails with the lookup's error; a known one
      gives the user when the password checks against the stored hash, and
      `WrongPassword` when it does not; a failing check is passed on. */
  function SignIn(users: Users, input: LoginInput, verify: (string, string) -> Result<bool, Error>)
    : (r: Result<User, Error>)
    ensures FindByEmail(users, input.email).Err? ==> r == Err(SqlxError(RowNotFound))
    ensures r.Ok? <==> (FindByEmail(users, input.email).Ok?
      && verify(input.password, FindByEmail(users, input.email).value.password) == Ok(true))
    ensures r.Ok? ==> r == FindByEmail(users, input.email)
    ensures FindByEmail(users, input.email).Ok? ==>
      var check := verify(input.password, FindByEmail(users, input.email).value.password);
      (check == Ok(false) ==> r == Err(WrongPassword)) && (check.Err? ==> r == Err(check.error))
  {
    match FindByEmail(users, input.email)
    case Err(e) => Err(e)
    case Ok(user) =>
      match verify(input.password, user.password)
      case Err(e) => Err(e)
      case Ok(true) => Ok(user)
      case Ok(false) => Err(WrongPassword)
  }

  /** A user who has just signed up can sign in with the same password,
      whenever the password checks against its own hash. */
  lemma SignUpThenSignIn(users: Users, input: RegisterInput, hash: string -> Result<string, Error>,
                         verify: (string, string) -> Result<bool, Error>, id: string, now: int)
    requires SignUp(users, input, hash, id, now).result.Ok?
    requires verify(input.password, hash(input.password).value) == Ok(true)
    ensures SignIn(SignUp(users, input, hash, id, now).users, LoginInput(input.email, input.password), verify)
      == SignUp(users, input, hash, id, now).result
  {
    var s := SignUp(users, input, hash, id, now);
    FirstAfterAppend(users, s.result.value, HasEmail(input.email));
    assert First(users, HasEmail(input.email)).None?;
  }

  /** Signing up twice with the same input fails the second time on the e-mail. */
  lemma SignUpTwiceRefused(users: Users, input: RegisterInput, hash: string -> Result<string, Error>,
                           id: string, id': string, now: int, now': int)
    requires SignUp(users, input, hash, id, now).result.Ok?
    ensures SignUp(SignUp(users, input, hash, id, now).users, input, hash, id', now').result == Err(DuplicateUserEmail)
  {
    var s := SignUp(users, input, hash, id, now);
    assert s.users[|users|] == s.result.value;
  }
}
