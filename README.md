# User registration and login, modelled in Dafny

This project models the user-account core of a GraphQL backend: the
`register` and `login` mutations of `UserResolver`. Register checks the
lengths of the username and password, hashes the password with argon2,
creates a `User` entity and flushes it to a PostgreSQL table whose username
column is unique. Login looks a user up by username and verifies the
password against the stored hash. Both answer with a `UserResponse` that
holds either a list of field errors or a user.

Modules, one per component:

- `Wrappers` (`wrappers.dfy`): `Option` and `Result`.
- `Argon2` (`argon2.dfy`): the password hasher, kept abstract. The hash is an
  arbitrary key-derivation function `kdf` of a salt and a password. A stored
  `PasswordHash` carries its salt, and `Verify` recomputes the digest from
  it. The random salt argon2 draws is a parameter. The property the library
  is trusted for, that different passwords give different digests under one
  salt, is the predicate `CollisionResistant`. It is assumed, never proved,
  and only lemmas that need it take it as a precondition. The class `Hasher`
  counts `Hash` calls, so register can promise when it does not hash.
- `UserStore` (`user_store.dfy`): the `User` entity and the user table as
  reached through the ORM's entity manager. The table is a map keyed by
  username plus the next serial id. A flush fails with SQLSTATE `23505`
  (`unique_violation`) when the username is already a key. A `fault`
  parameter stands for any other database failure. `Persist` specifies the
  flush on values, and the class `EntityManager` performs it in place.
- `UserResolver` (`user_resolver.dfy`): the input and response shapes, the
  error messages exactly as the resolver spells them ("to short", "must be
  more than 4 of length", "username already exists", "that usename doesnt
  exist", "incorrect password"), `register` as the method `Register` on the
  entity manager, specified by the function `RegisterOutcome`, and `login`
  as the function `Login` over the table.

Behaviour of the resolver that the model keeps as written:

- A flush error other than `23505` is logged and swallowed, and the unsaved
  user comes back: the answer has no errors and carries a user, like a
  success; only the missing id shows that nothing was saved.
  `RegisterSwallowsOtherPersistError` states this behaviour, and
  `SwallowedRegistrationCannotLogin` shows its cost: nothing was stored, so
  a login with the same credentials reports that the username does not
  exist.
- Register returns at the first failed length check, so only the username
  error comes back when both fields are too short.
- The error messages are the resolver's exact strings, typos included.
- The password check refuses lengths up to 3, so 4 characters are enough,
  while the message says "more than 4".

## Model

| member | source | states |
|---|---|---|
| `Argon2.HashWith` | src/resolvers/user.ts:55 | the stored hash carries the drawn salt and verifies against the password it was made from |
| `Argon2.Hasher.Hash` | src/resolvers/user.ts:55 | hashing returns the hash of the password under the given salt and counts one call to the hasher |
| `Argon2.Verify` | src/resolvers/user.ts:84 | under the collision-resistance assumption, a stored hash verifies at most one password |
| `Argon2.VerifyAcceptsOnlyHashedPassword` | src/resolvers/user.ts:84-85 | under the collision-resistance assumption, a hash is accepted by verify for exactly the password it was made from |
| `Argon2.SaltedHashesDiffer` | src/resolvers/user.ts:55 | the same password hashed under two different salts gives two different stored hashes |
| `UserStore.Persist` | src/resolvers/user.ts:58 | a flush succeeds iff there is no fault and the username is not yet a key; on success the row is stored under its username with the next id and nothing else changes; on failure the table is unchanged and the error is the fault or 23505 |
| `UserStore.PersistPreservesValid` | src/resolvers/user.ts:58 | a flush keeps the table invariant: rows under their own username, ids assigned, below the next id and pairwise distinct |
| `UserStore.PersistKeepsRows` | src/resolvers/user.ts:58 | a flush never removes or alters an existing row |
| `UserStore.FindOne` | src/resolvers/user.ts:77 | the lookup finds a user iff the username is a key, and then it is that row |
| `UserStore.EntityManager.PersistAndFlush` | src/resolvers/user.ts:58 | the in-place flush returns the outcome and leaves the table that `Persist` specifies, and keeps the table invariant |
| `UserResolver.ValidateRegister` | src/resolvers/user.ts:39-54 | the input passes iff username length > 2 and password length > 3; otherwise the error is the username error when the username is short, else the password error |
| `UserResolver.RegisterOutcome` | src/resolvers/user.ts:35-70 | register answers with exactly one error or a user, never both; on an error the table is unchanged; a returned user has the input username and the hash of the input password; the answer carries a saved user exactly when the table changed; the table changes only by adding the returned user under the input username, and a saved user gets the next id; this happens after valid input, no fault and an unused username |
| `UserResolver.Register` | src/resolvers/user.ts:35-70 | the in-place register answers and leaves the table as `RegisterOutcome` says, hashes once if the input is valid and never otherwise, and keeps the table invariant |
| `UserResolver.Login` | src/resolvers/user.ts:73-92 | login answers with exactly one error or a user; a user iff the username is a key and its stored hash verifies the password, and then it is the stored row; otherwise "that usename doesnt exist" on username when absent, "incorrect password" on password when present; on a table that keeps its invariant the returned user has the requested username and an id; it only reads the table |
| `UserResolver.RegisterShortUsername` | src/resolvers/user.ts:39-46 | a username of length at most 2 gives exactly the single error username "to short", no user, and an unchanged table |
| `UserResolver.RegisterShortPassword` | src/resolvers/user.ts:47-54 | with a username of length at least 3, a password of length at most 3 gives exactly the single password error, no user, and an unchanged table |
| `UserResolver.RegisterChecksUsernameFirst` | src/resolvers/user.ts:39-54 | when both fields are too short only the username error is returned, not the password error |
| `UserResolver.RegisterNewUser` | src/resolvers/user.ts:55-69 | valid input, an unused username and no flush fault add exactly one row: under the input username, with the next id, holding a hash with the drawn salt that verifies the input password; the answer is that row and no errors |
| `UserResolver.RegisterTakenUsername` | src/resolvers/user.ts:57-66 | with both lengths valid, a username already in the table and no flush fault, or a flush error with code 23505, gives exactly the single error username "username already exists" and an unchanged table |
| `UserResolver.RegisterSwallowsOtherPersistError` | src/resolvers/user.ts:60-69 | the resolver's behaviour on any other flush error: no errors, the unsaved user (no id) returned, and an unchanged table |
| `UserResolver.SwallowedRegistrationCannotLogin` | src/resolvers/user.ts:67-69 | after such a swallowed error on a new username, the answer looks like success but login with the same credentials reports that the username does not exist |
| `UserResolver.RegisterPreservesValid` | src/resolvers/user.ts:55-69 | register keeps the table invariant (usernames are keys, ids assigned and distinct) |
| `UserResolver.RegisterTwice` | src/resolvers/user.ts:55-66 | after a fault-free register that stored a user, a fault-free register of the same username with a password longer than 3 characters gives "username already exists" and changes nothing |
| `UserResolver.RegisterThenLogin` | src/resolvers/user.ts:77-91 | after a register that stored a user, login with the same credentials answers with exactly that user and no errors |
| `UserResolver.RegisterThenLoginWrongPassword` | src/resolvers/user.ts:84-89 | under the collision-resistance assumption, after registering a user, login with any other password gives exactly "incorrect password" |
| `UserResolver.RegisterPreservesOtherLogins` | src/resolvers/user.ts:77 | registering one username does not change what login answers for any other username |
| `UserResolver.RegisterAll` | src/resolvers/user.ts:55-69 | a history of register calls gives one answer per call and never removes or alters a row that was there before |
| `UserResolver.RegisterAllPrefix` | src/resolvers/user.ts:55-69 | the answers to a prefix of a history are the prefix of its answers: later calls do not change earlier answers |
| `UserResolver.ResponseOfCall` | src/resolvers/user.ts:35-70 | each call of a history answers as register does on the table the earlier calls left |
| `UserResolver.StoredUserStays` | src/resolvers/user.ts:56-58 | a user saved by a call of a history is still in the table at its end, exactly as that call returned it |
| `UserResolver.RegisterAllPreservesValid` | src/resolvers/user.ts:55-69 | a history keeps the table invariant |
| `UserResolver.UsernameStoredAtMostOnce` | src/resolvers/user.ts:57-66 | of two calls in a history with the same username, at most one saves a user |
| `UserResolver.StoredUserCanLogin` | src/resolvers/user.ts:77-91 | every user a history saved logs in afterwards with the password it was registered with and gets back exactly the saved user |

## Left out

- Argon2's memory-hard hashing, its parameters, the encoded hash string format, random salt generation and constant-time comparison: a foreign library, represented by the abstract `kdf` and an explicit salt parameter.
- `Argon2.CollisionResistant`: assumed of the library and used as a lemma precondition, not proved; with an arbitrary `kdf` it cannot be.
- Malformed stored hashes: the hash is a datatype, so verify never sees one.
- The ORM's entity manager beyond insert-if-absent and lookup: identity map, unit of work, transactions, the real SQL error objects. A failure of the flush other than the uniqueness check is an opaque `fault` parameter; failures of the lookup are not modelled (see `UserResolver.Login`). A failed flush is taken to leave nothing queued in the entity manager; the history lemmas (`RegisterAll` and those about it) rely on this, although the entity manager is shared by all requests and a unit of work that kept the entity queued would retry it on the next flush.
- The `User` entity's definition file is not part of this model; the entity is reduced to `id`, `username` and `password`. Its `createdAt`/`updatedAt` timestamps (a clock) and which fields the schema exposes to clients are not modelled.
- The serial id sequence is reduced to a counter that advances only on a successful insert.
- UserResolver.Login: a rejected `em.findOne` lookup is not caught by the resolver and is thrown to the caller; the model's lookup always answers, so this thrown failure is not modelled.
- UserResolver.Register: a rejected `argon2.hash` is not caught by the resolver and is thrown before any entity is created; the model's `Hash` always succeeds, so this thrown failure is not modelled.
- The `console.log` of a swallowed flush error: output only.
- Async/await and concurrent registrations: the model is sequential, so the atomicity of the database's uniqueness check is not modelled.
- String length is the length of the character sequence, not JavaScript's UTF-16 code-unit count.
- Process bootstrap, the HTTP and GraphQL servers, the Redis session store and the session cookie settings: constant configuration handed to libraries. The resolver never writes to the session, so no session is created by register or login in this code.
- The GraphQL decorators and schema generation.
