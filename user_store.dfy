/** The user table as the resolver reaches it through MikroORM's entity
    manager `em`: `em.create`, `em.persistAndFlush` and `em.findOne` on the
    `User` entity. The table is a map keyed by username; inserting a
    username that is already a key is the unique-constraint violation that
    PostgreSQL reports with SQLSTATE 23505 (`unique_violation`). */
module UserStore {
  import opened Wrappers
  import opened Argon2

  /** SQLSTATE of a unique-constraint violation. */
  const UniqueViolation: string := "23505"

  /** The first serial id the table hands out. */
  const FirstId: nat := 1

  /** The `User` entity. `id` is `None` until the row has been flushed: the
      database assigns it. */
  datatype User = User(id: Option<nat>, username: string, password: PasswordHash)

  /** An error thrown by `persistAndFlush`, reduced to its `code`. */
  datatype DbError = DbError(code: string)

  /** The contents of the user table: rows by username, and the next serial
      id. */
  datatype Db = Db(users: map<string, User>, nextId: nat) {

    /** Every row sits under its own username, has been given an id below
        `nextId`, and no two rows share an id. */
    ghost predicate Valid()
    {
      && (forall name | name in users ::
            && users[name].username == name
            && users[name].id.Some?
            && users[name].id.value < nextId)
      && (forall a, b | a in users && b in users && a != b :: users[a].id != users[b].id)
    }
  }

  /** The outcome of a flush: the saved entity or the error thrown, and the
      table afterwards. */
  datatype Persisted = Persisted(outcome: Result<User, DbError>, db: Db)

  /** `em.persistAndFlush(user)` on a table `db`. `fault` is a failure of the
      database other than the uniqueness check (lost connection, ...), which
      the model does not explain further. */
  function Persist(db: Db, u: User, fault: Option<DbError>): (r: Persisted)
    ensures r.outcome.Success? <==> fault.None? && u.username !in db.users
    ensures r.outcome.Failure? ==> r.db == db
    ensures r.outcome.Failure? && fault.None? ==> r.outcome.error.code == UniqueViolation
    ensures fault.Some? ==> r.outcome == Failure(fault.value)
    ensures r.outcome.Success? ==>
              var saved := r.outcome.value;
              && saved.username == u.username && saved.password == u.password
              && saved.id == Some(db.nextId)
              && r.db.users == db.users[u.username := saved]
              && r.db.nextId == db.nextId + 1
  {
    if fault.Some? then Persisted(Failure(fault.value), db)
    else if u.username in db.users then Persisted(Failure(DbError(UniqueViolation)), db)
    else
      var saved := u.(id := Some(db.nextId));
      Persisted(Success(saved), Db(db.users[u.username := saved], db.nextId + 1))
  }

  /** A successful flush keeps the table's invariant, whatever entity is
      flushed: the new row gets a fresh id and sits under its username. */
  lemma PersistPreservesValid(db: Db, u: User, fault: Option<DbError>)
    requires db.Valid()
    ensures Persist(db, u, fault).db.Valid()
  {
  }

  /** A flush never removes or alters a row that was already there. */
  lemma PersistKeepsRows(db: Db, u: User, fault: Option<DbError>)
    ensures forall name | name in db.users ::
              name in Persist(db, u, fault).db.users && Persist(db, u, fault).db.users[name] == db.users[name]
  {
  }

  /** `em.findOne(User, {username})`. */
  function FindOne(db: Db, username: string): (r: Option<User>)
    ensures r.Some? <==> username in db.users
    ensures r.Some? ==> r.value == db.users[username]
  {
    if username in db.users then Some(db.users[username]) else None
  }

  /** The entity manager's view of the user table, updated in place. */
  class EntityManager {
    var users: map<string, User>
    var nextId: nat

    /** The table as a value. */
    function State(): Db
      reads this
    {
      Db(users, nextId)
    }

    constructor ()
      ensures State() == Db(map[], FirstId) && State().Valid()
    {
      users := map[];
      nextId := FirstId;
    }

    /** `await em.persistAndFlush(user)`: inserts `u` unless the database
        fails or the username is taken; `outcome` is what the call resolves
        to or throws. */
    method PersistAndFlush(u: User, fault: Option<DbError>) returns (outcome: Result<User, DbError>)
      requires State().Valid()
      modifies this
      ensures Persisted(outcome, State()) == Persist(old(State()), u, fault)
      ensures State().Valid()
    {
      if fault.Some? {
        outcome := Failure(fault.value);
      } else if u.username in users {
        outcome := Failure(DbError(UniqueViolation));
      } else {
        PersistPreservesValid(State(), u, fault);
        var saved := u.(id := Some(nextId));
        users := users[u.username := saved];
        nextId := nextId + 1;
        outcome := Success(saved);
      }
    }
  }
}
