/** The `register` and `login` mutations of `UserResolver`, without the
    GraphQL decorators and the `await`s. Register validates the input, hashes
    the password, creates a `User` and flushes it to the user table; login
    looks the username up and checks the password against the stored hash.
    Both answer with a `UserResponse` that carries either field errors or a
    user. */
module UserResolver {
  import opened Wrappers
  import opened Argon2
  import opened UserStore

  datatype UsernamePasswordInput = UsernamePasswordInput(username: string, password: string)

  datatype FieldError = FieldError(field: string, message: string)

  /** Both fields are nullable in the GraphQL schema. */
  datatype UserResponse = UserResponse(errors: Option<seq<FieldError>>, user: Option<User>)

  // The field errors the resolver returns, with the messages exactly as the
  // resolver words them.
  const UsernameTooShort: FieldError := FieldError("username", "to short")
  const PasswordTooShort: FieldError := FieldError("password", "must be more than 4 of length")
  const UsernameTaken: FieldError := FieldError("username", "username already exists")
  const NoSuchUsername: FieldError := FieldError("username", "that usename doesnt exist")
  const IncorrectPassword: FieldError := FieldError("password", "incorrect password")

  /** `{errors: [e]}` */
  function Fail(e: FieldError): UserResponse
  {
    UserResponse(Some([e]), None)
  }

  /** `{user}` */
  function Succeed(u: User): UserResponse
  {
    UserResponse(None, Some(u))
  }

  /** A response carries either a single field error or a user, never both
      and never neither. */
  predicate SingleOutcome(r: UserResponse)
  {
    && (r.errors.Some? <==> r.user.None?)
    && (r.errors.Some? ==> |r.errors.value| == 1)
  }

  /** The response carries a user that has been saved (the database gave
      it an id). */
  predicate Stored(r: UserResponse)
  {
    r.user.Some? && r.user.value.id.Some?
  }

  /** The two length checks of `register`, in order; the first one that
      fails is the answer. */
  function ValidateRegister(options: UsernamePasswordInput): (e: Option<FieldError>)
    ensures e.None? <==> |options.username| > 2 && |options.password| > 3
    ensures e.Some? ==> e.value == (if |options.username| <= 2 then UsernameTooShort else PasswordTooShort)
  {
    if |options.username| <= 2 then Some(UsernameTooShort)
    else if |options.password| <= 3 then Some(PasswordTooShort)
    else None
  }

  /** What `register` answers and the user table it leaves. */
  datatype Registration = Registration(response: UserResponse, db: Db)

  /** `register` on table `db`, with hasher `kdf`, salt `salt` drawn by the
      hasher, and `fault` a database failure other than the uniqueness check.
      A flush error with code 23505 becomes the "username already exists"
      error; any other flush error is logged and swallowed, and the unsaved
      user is returned. */
  function RegisterOutcome(db: Db, kdf: Kdf, options: UsernamePasswordInput, salt: Salt, fault: Option<DbError>)
    : (r: Registration)
    ensures SingleOutcome(r.response)
    ensures r.response.errors.Some? ==> r.db == db
    ensures r.response.user.Some? ==>
              && r.response.user.value.username == options.username
              && r.response.user.value.password == HashWith(kdf, salt, options.password)
    ensures Stored(r.response) <==> r.db != db
    ensures Stored(r.response) ==> r.response.user.value.id == Some(db.nextId)
    ensures r.db == db || (
              && ValidateRegister(options).None? && fault.None? && options.username !in db.users
              && r.response.user.Some?
              && r.db.users == db.users[options.username := r.response.user.value]
              && r.db.nextId == db.nextId + 1)
  {
    match ValidateRegister(options)
    case Some(e) => Registration(Fail(e), db)
    case None =>
      var user := User(None, options.username, HashWith(kdf, salt, options.password));
      var p := Persist(db, user, fault);
      match p.outcome
      case Success(saved) => Registration(Succeed(saved), p.db)
      case Failure(err) =>
        if err.code == UniqueViolation then Registration(Fail(UsernameTaken), p.db)
        else Registration(Succeed(user), p.db)
  }

  /** `await register(options)`: hashes at most once, and only when the
      input passes both length checks. */
  method Register(em: EntityManager, argon2: Hasher, options: UsernamePasswordInput, salt: Salt, fault: Option<DbError>)
    returns (resp: UserResponse)
    requires em.State().Valid()
    modifies em, argon2
    ensures Registration(resp, em.State()) == RegisterOutcome(old(em.State()), argon2.kdf, options, salt, fault)
    ensures em.State().Valid()
    ensures argon2.calls == old(argon2.calls) + (if ValidateRegister(options).None? then 1 else 0)
  {
    if |options.username| <= 2 {
      return Fail(UsernameTooShort);
    }
    if |options.password| <= 3 {
      return Fail(PasswordTooShort);
    }
    var hashedPassword := argon2.Hash(options.password, salt);
    var user := User(None, options.username, hashedPassword);
    var outcome := em.PersistAndFlush(user, fault);
    match outcome
    case Success(saved) =>
      resp := Succeed(saved);
    case Failure(err) =>
      if err.code == UniqueViolation {
        return Fail(UsernameTaken);
      }
      // the error is only logged
      resp := Succeed(user);
  }

  /** `login`: find the user by username, then verify the password against
      the stored hash. It reads the table and changes nothing. */
  function Login(db: Db, kdf: Kdf, options: UsernamePasswordInput): (r: UserResponse)
    ensures SingleOutcome(r)
    ensures r.user.Some? <==>
              options.username in db.users && Verify(kdf, db.users[options.username].password, options.password)
    ensures r.user.Some? ==> r.user.value == db.users[options.username]
    ensures db.Valid() && r.user.Some? ==> r.user.value.username == options.username && r.user.value.id.Some?
    ensures r.errors.Some? ==>
              r.errors.value == [if options.username in db.users then IncorrectPassword else NoSuchUsername]
  {
    match FindOne(db, options.username)
    case None => Fail(NoSuchUsername)
    case Some(user) =>
      if !Verify(kdf, user.password, options.password) then Fail(IncorrectPassword)
      else Succeed(user)
  }

  // ---------------------------------------------------------------------
  // register: the validation paths

  /** A username of at most two characters is refused with one username
      error, whatever the password, and nothing is stored. */
  lemma RegisterShortUsername(db: Db, kdf: Kdf, options: UsernamePasswordInput, salt: Salt, fault: Option<DbError>)
    requires |options.username| <= 2
    ensures RegisterOutcome(db, kdf, options, salt, fault) == Registration(Fail(UsernameTooShort), db)
  {
  }

  /** With an acceptable username, a password of at most three characters is
      refused with one password error, and nothing is stored. */
  lemma RegisterShortPassword(db: Db, kdf: Kdf, options: UsernamePasswordInput, salt: Salt, fault: Option<DbError>)
    requires |options.username| > 2 && |options.password| <= 3
    ensures RegisterOutcome(db, kdf, options, salt, fault) == Registration(Fail(PasswordTooShort), db)
  {
  }

  /** The checks short-circuit: when both fields are too short only the
      username error comes back. */
  lemma RegisterChecksUsernameFirst(db: Db, kdf: Kdf, options: UsernamePasswordInput, salt: Salt, fault: Option<DbError>)
    requires |options.username| <= 2 && |options.password| <= 3
    ensures RegisterOutcome(db, kdf, options, salt, fault).response.errors == Some([UsernameTooShort])
    ensures PasswordTooShort !in RegisterOutcome(db, kdf, options, salt, fault).response.errors.value
  {
  }

  // ---------------------------------------------------------------------
  // register: the persistence paths

  /** A valid registration of an unused username adds exactly one row, under
      that username, holding a hash of the given password made with the
      drawn salt, and returns that row. */
  lemma RegisterNewUser(db: Db, kdf: Kdf, options: UsernamePasswordInput, salt: Salt)
    requires |options.username| > 2 && |options.password| > 3
    requires options.username !in db.users
    ensures var r := RegisterOutcome(db, kdf, options, salt, None);
            && r.response.errors.None? && r.response.user.Some?
            && var u := r.response.user.value;
            && u.username == options.username
            && u.password.salt == salt
            && Verify(kdf, u.password, options.password)
            && u.id == Some(db.nextId)
            && r.db == Db(db.users[options.username := u], db.nextId + 1)
  {
  }

  /** Registering a username that is already a row, or any flush failing
      with code 23505, gives one "username already exists" error and leaves
      the table as it was. */
  lemma RegisterTakenUsername(db: Db, kdf: Kdf, options: UsernamePasswordInput, salt: Salt, fault: Option<DbError>)
    requires |options.username| > 2 && |options.password| > 3
    requires (fault.None? && options.username in db.users) || fault == Some(DbError(UniqueViolation))
    ensures RegisterOutcome(db, kdf, options, salt, fault) == Registration(Fail(UsernameTaken), db)
  {
  }

  /** The resolver's behaviour, not a guarantee: a flush failing with any
      other code is swallowed; the answer carries no error and the user
      that was never saved (it has no id), and the table is unchanged. */
  lemma RegisterSwallowsOtherPersistError(db: Db, kdf: Kdf, options: UsernamePasswordInput, salt: Salt, err: DbError)
    requires |options.username| > 2 && |options.password| > 3
    requires err.code != UniqueViolation
    ensures var r := RegisterOutcome(db, kdf, options, salt, Some(err));
            && r.db == db
            && r.response == Succeed(User(None, options.username, HashWith(kdf, salt, options.password)))
  {
  }

  /** Register keeps the table's invariant: usernames are keys, ids are
      assigned and distinct. */
  lemma RegisterPreservesValid(db: Db, kdf: Kdf, options: UsernamePasswordInput, salt: Salt, fault: Option<DbError>)
    requires db.Valid()
    ensures RegisterOutcome(db, kdf, options, salt, fault).db.Valid()
  {
    if ValidateRegister(options).None? {
      PersistPreservesValid(db, User(None, options.username, HashWith(kdf, salt, options.password)), fault);
    }
  }

  /** Registering the same username twice: when the first call stored the
      user, the second answers "username already exists" and changes
      nothing, whatever password it carries. */
  lemma RegisterTwice(db: Db, kdf: Kdf, first: UsernamePasswordInput, second: UsernamePasswordInput, s1: Salt, s2: Salt)
    requires second.username == first.username
    requires |second.password| > 3
    requires RegisterOutcome(db, kdf, first, s1, None).response.errors.None?
    ensures var db1 := RegisterOutcome(db, kdf, first, s1, None).db;
            RegisterOutcome(db1, kdf, second, s2, None) == Registration(Fail(UsernameTaken), db1)
  {
  }

  /** The cost of swallowing a flush error: the answer looks like a
      successful registration, yet the table is unchanged, so a login with
      the very same credentials is refused when the username was new. */
  lemma SwallowedRegistrationCannotLogin(db: Db, kdf: Kdf, options: UsernamePasswordInput, salt: Salt, err: DbError)
    requires |options.username| > 2 && |options.password| > 3
    requires options.username !in db.users
    requires err.code != UniqueViolation
    ensures var r := RegisterOutcome(db, kdf, options, salt, Some(err));
            && r.response.errors.None? && r.response.user.Some?
            && Login(r.db, kdf, options) == Fail(NoSuchUsername)
  {
    RegisterSwallowsOtherPersistError(db, kdf, options, salt, err);
  }

  // ---------------------------------------------------------------------
  // register followed by login

  /** Round trip: after a registration that stored a user, logging in with
      the same username and password answers with exactly that user. */
  lemma RegisterThenLogin(db: Db, kdf: Kdf, options: UsernamePasswordInput, salt: Salt)
    requires |options.username| > 2 && |options.password| > 3
    requires options.username !in db.users
    ensures var r := RegisterOutcome(db, kdf, options, salt, None);
            Login(r.db, kdf, options) == r.response
  {
    RegisterNewUser(db, kdf, options, salt);
  }

  /** Under the hasher's collision-resistance assumption, after registering
      a user, a login with that username and any other password is refused
      with "incorrect password". */
  lemma RegisterThenLoginWrongPassword(db: Db, kdf: Kdf, options: UsernamePasswordInput, salt: Salt, attempt: string)
    requires CollisionResistant(kdf)
    requires |options.username| > 2 && |options.password| > 3
    requires options.username !in db.users
    requires attempt != options.password
    ensures var r := RegisterOutcome(db, kdf, options, salt, None);
            Login(r.db, kdf, UsernamePasswordInput(options.username, attempt)) == Fail(IncorrectPassword)
  {
    RegisterNewUser(db, kdf, options, salt);
    VerifyAcceptsOnlyHashedPassword(kdf, salt, options.password, attempt);
  }

  /** Registering one username does not change how login answers for any
      other username. */
  lemma RegisterPreservesOtherLogins(db: Db, kdf: Kdf, options: UsernamePasswordInput, salt: Salt,
                                     fault: Option<DbError>, other: UsernamePasswordInput)
    requires other.username != options.username
    ensures Login(RegisterOutcome(db, kdf, options, salt, fault).db, kdf, other) == Login(db, kdf, other)
  {
  }

  // ---------------------------------------------------------------------
  // a history of register calls

  /** One call of `register`: its input and what the environment supplies
      (the hasher's salt and any database failure). */
  datatype RegisterCall = RegisterCall(options: UsernamePasswordInput, salt: Salt, fault: Option<DbError>)

  /** The answers to a history of calls, in order, and the table after it. */
  datatype History = History(responses: seq<UserResponse>, db: Db)

  /** `register` called once per element of `calls`, one after the other,
      starting from table `db`. Rows are only ever added. */
  function RegisterAll(db: Db, kdf: Kdf, calls: seq<RegisterCall>): (h: History)
    ensures |h.responses| == |calls|
    ensures forall name | name in db.users :: name in h.db.users && h.db.users[name] == db.users[name]
    decreases |calls|
  {
    if calls == [] then History([], db)
    else
      var prev := RegisterAll(db, kdf, calls[..|calls| - 1]);
      var c := calls[|calls| - 1];
      var step := RegisterOutcome(prev.db, kdf, c.options, c.salt, c.fault);
      History(prev.responses + [step.response], step.db)
  }

  /** The answers to a prefix of a history are a prefix of its answers. */
  lemma {:induction false} RegisterAllPrefix(db: Db, kdf: Kdf, calls: seq<RegisterCall>, k: nat)
    requires k <= |calls|
    ensures RegisterAll(db, kdf, calls[..k]).responses == RegisterAll(db, kdf, calls).responses[..k]
    decreases |calls|
  {
    if k < |calls| {
      var n := |calls|;
      assert calls[..n - 1][..k] == calls[..k];
      RegisterAllPrefix(db, kdf, calls[..n - 1], k);
    } else {
      assert calls[..k] == calls;
    }
  }

  /** A user saved by some call of a history is still in the table at the
      end, exactly as that call returned it. */
  lemma {:induction false} StoredUserStays(db: Db, kdf: Kdf, calls: seq<RegisterCall>, i: nat)
    requires i < |calls|
    requires Stored(RegisterAll(db, kdf, calls).responses[i])
    ensures var h := RegisterAll(db, kdf, calls);
            && calls[i].options.username in h.db.users
            && h.db.users[calls[i].options.username] == h.responses[i].user.value
    decreases |calls|
  {
    var n := |calls|;
    if i < n - 1 {
      assert calls[..n - 1][i] == calls[i];
      StoredUserStays(db, kdf, calls[..n - 1], i);
    }
  }

  /** A history keeps the table invariant. */
  lemma {:induction false} RegisterAllPreservesValid(db: Db, kdf: Kdf, calls: seq<RegisterCall>)
    requires db.Valid()
    ensures RegisterAll(db, kdf, calls).db.Valid()
    decreases |calls|
  {
    if calls != [] {
      var n := |calls|;
      var c := calls[n - 1];
      RegisterAllPreservesValid(db, kdf, calls[..n - 1]);
      RegisterPreservesValid(RegisterAll(db, kdf, calls[..n - 1]).db, kdf, c.options, c.salt, c.fault);
    }
  }

  /** The answer to call `i` of a history is what `register` answers on the
      table left by the calls before it. */
  lemma {:induction false} ResponseOfCall(db: Db, kdf: Kdf, calls: seq<RegisterCall>, i: nat)
    requires i < |calls|
    ensures var before := RegisterAll(db, kdf, calls[..i]).db;
            RegisterAll(db, kdf, calls).responses[i]
              == RegisterOutcome(before, kdf, calls[i].options, calls[i].salt, calls[i].fault).response
  {
    var upTo := calls[..i + 1];
    assert upTo[..i] == calls[..i];
    assert upTo[i] == calls[i];
    RegisterAllPrefix(db, kdf, calls, i + 1);
  }

  /** Username uniqueness over a history: of two calls with the same
      username, at most one saves a user. */
  lemma {:induction false} UsernameStoredAtMostOnce(db: Db, kdf: Kdf, calls: seq<RegisterCall>, i: nat, j: nat)
    requires i < j < |calls|
    requires calls[i].options.username == calls[j].options.username
    ensures var h := RegisterAll(db, kdf, calls);
            !(Stored(h.responses[i]) && Stored(h.responses[j]))
  {
    var h := RegisterAll(db, kdf, calls);
    if Stored(h.responses[i]) {
      // call i saved the username, so it is a key before call j runs
      RegisterAllPrefix(db, kdf, calls, j);
      assert calls[..j][i] == calls[i];
      StoredUserStays(db, kdf, calls[..j], i);
      ResponseOfCall(db, kdf, calls, j);
    }
  }

  /** Every user a history saved can afterwards log in with the password it
      was registered with, and gets back exactly the saved user. */
  lemma {:induction false} StoredUserCanLogin(db: Db, kdf: Kdf, calls: seq<RegisterCall>, i: nat)
    requires i < |calls|
    requires Stored(RegisterAll(db, kdf, calls).responses[i])
    ensures var h := RegisterAll(db, kdf, calls);
            Login(h.db, kdf, calls[i].options) == h.responses[i]
  {
    var h := RegisterAll(db, kdf, calls);
    StoredUserStays(db, kdf, calls, i);
    ResponseOfCall(db, kdf, calls, i);
  }
}
