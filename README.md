# Account registration over a user table, in Dafny

A model of the registration path of a small FastAPI/SQLAlchemy web server:
the request schema that validates a sign-up (`UserCreate`), the `users`
table with its primary key and its unique username and email columns, the
repository functions that insert into and query that table through a
database session, the `register_user` service that ties them together, and
the parsing of the comma-separated CORS origin setting.

Modules, one per source file:

- `UserSchemas` (schemas.dfy): the username and password validators with the
  `Field` constraints in front of them, whole-request validation, and the
  `UserResponse` projection.
- `UserModel` (models.dfy): the `User` row, the column bounds, the table
  invariant (ids, usernames and emails each unique; every value fits its
  column) and `__repr__`.
- `UserRepository` (repository.dfy): a `Session` class standing for a session
  bound to the table (committed `rows`, objects `pending` after `add`, and an
  `inactive` flag set by a failed commit until `rollback`), `select … where`
  followed by `scalar_one_or_none`, the four lookups and `create_user`.
- `UserService` (service.dfy): `register_user` as a method over the session.
  It returns the created row or the HTTP error, together with the trace of
  the steps it took: queries, hashing, insert and rollback.
- `Config` (config.dfy): `Settings.cors_origins_list`.
- `Wrappers` (wrappers.dfy): `Option` and `Result`.

The environment enters as parameters. `hashPassword` is the password hasher
as used in one call; its salt is drawn inside it. `freshId` is the generated
UUID string. `createdAt` and `updatedAt` are the two clock readings, one taken
by each timestamp column's default. `fault` says what the database does
to an insert: nothing, a conflicting row committed first by a concurrent
request, or a failure of the database itself. The external email validator
enters as its verdict: the normalised address, or none.

Duplicate accounts are reported with HTTP 400. The service's own checks
name the taken field ("Username already registered", "Email already
registered"). The storage-level backstop, an integrity error at commit,
reports the generic "Username or email already registered".

## Model

| member | source | states |
|---|---|---|
| UserSchemas.ValidateUsername | app/schemas/user.py:22-91 | accepted iff 3 <= length <= 50, only `[a-zA-Z0-9_-]`, and at least one letter or digit; accepted input is returned unchanged; each error is characterised, checked in the order length, pattern, alphanumeric |
| UserSchemas.ValidatePassword | app/schemas/user.py:33-69 | accepted iff 8 <= length <= 100 with an uppercase letter, a lowercase letter and a digit; returned unchanged; the reported error is the first failing check in the order length, uppercase, lowercase, digit |
| UserSchemas.ValidateUserCreate | app/schemas/user.py:14-37 | a request is accepted iff all three fields pass; the accepted request carries the input username and password and the validator's email; on failure the list holds exactly one error per failing field, that field's own validator error, in field order (username, email, password) |
| UserSchemas.ToResponse | app/schemas/user.py:106-118 | the response carries exactly the row's id, username, email and creation time |
| UserSchemas.ResponseOmitsSecret | app/schemas/user.py:106-118 | the response does not depend on the password hash or the update time |
| UserSchemas.OnlySeparatorsRejected | app/schemas/user.py:88-89 | a username of only `_` and `-` within the length bounds matches the pattern yet is rejected as having no alphanumeric character |
| UserSchemas.UnderscoresRejected | app/schemas/user.py:88-89 | `___` and `-_-` are rejected with the no-alphanumeric error |
| UserSchemas.ExampleAccepted | app/schemas/user.py:93-103 | the schema's example request is accepted unchanged |
| UserSchemas.AcceptedUsernameHasNoAt | app/schemas/user.py:25 | an accepted username contains no `@` |
| UserModel.NewUser | app/models/user.py:33-72 | a new row holds the generated id, the given username, email and hash, and the two clock readings taken by the creation-time and update-time defaults |
| UserModel.Repr | app/models/user.py:80-82 | the representation is `<User(id=`, the id, `, username=`, the username, `, email=`, the email and `)>`, in that order and nothing else |
| UserModel.ReprOmitsSecret | app/models/user.py:80-82 | the representation does not depend on the password hash or the timestamps |
| UserModel.AppendKeepsInvariant | app/models/user.py:33-58 | appending a row to a table that satisfies its constraints keeps them iff the row fits its columns and its id, username and email are all unused |
| UserModel.AppendUnique | app/models/user.py:41-53 | appending a row keeps a column unique iff the row's value in that column is unused |
| UserRepository.Select | app/repositories/user_repository.py:78 | the selected rows are exactly the table rows that satisfy the condition |
| UserRepository.SelectSizeTwo | app/repositories/user_repository.py:128-135 | the selection has two or more rows iff two distinct table positions satisfy the condition |
| UserRepository.ScalarOneOrNone | app/repositories/user_repository.py:80 | no rows give none, one row gives that row, more than one raise `MultipleResultsFound` |
| UserRepository.CommitError | app/repositories/user_repository.py:53-55 | on a table satisfying its constraints, a commit succeeds iff the database does not fail and the table with the pending rows still satisfies them; the only errors are operational, data and integrity errors |
| UserRepository.Session.constructor | app/database.py:46-66 | a new session over a constrained table has nothing pending and needs no rollback |
| UserRepository.Session.Add | app/repositories/user_repository.py:53 | `add` appends to the pending objects and changes nothing else |
| UserRepository.Session.Commit | app/repositories/user_repository.py:54 | a commit either appends every pending row to the table and clears them, or leaves the table as it was and marks the session as needing a rollback; a failed flush discards the pending rows, while a commit refused because a rollback is already needed leaves them; the table invariant is kept either way |
| UserRepository.Session.Rollback | app/services/user_service.py:87 | a rollback discards the pending rows, makes the session usable and leaves the table unchanged |
| UserRepository.Query | app/repositories/user_repository.py:78-80 | a query gives none iff no row matches; a single result is a matching row equal to every matching row; it succeeds (so a lone match is returned) iff the session is usable and no two rows match; it raises `MultipleResultsFound` iff two rows match and `PendingRollbackError` iff the session needs a rollback |
| UserRepository.GetUserByEmail | app/repositories/user_repository.py:60-80 | none iff no row has the email, else a row with that email; never raises on a valid, usable session |
| UserRepository.GetUserByUsername | app/repositories/user_repository.py:83-103 | none iff no row has the username, else a row with that username; never raises on a valid, usable session |
| UserRepository.GetUserById | app/repositories/user_repository.py:138-154 | none iff no row has the id, else the row with that id; never raises on a valid, usable session |
| UserRepository.GetUserByEmailOrUsername | app/repositories/user_repository.py:106-135 | none iff no row has the identifier as email or username; a single result is the only matching row; it succeeds, returning the single matching record when there is one, iff the session is usable and no two rows match; it raises `MultipleResultsFound` iff two rows match, for instance one by email and another by username |
| UserRepository.EmailOrUsernameUnambiguous | app/repositories/user_repository.py:128-135 | when every stored email contains `@` and no stored username does, the combined lookup never raises `MultipleResultsFound`, and on a usable session it always succeeds |
| UserRepository.EmailOrUsernameAmbiguous | app/repositories/user_repository.py:128-135 | in any table, two stored accounts where one's email is the other's username make the combined lookup by that identifier raise |
| UserRepository.StoredRowFound | app/repositories/user_repository.py:42-45 | on a valid, usable session, every stored row is what the lookups by its username, its email and its id return |
| UserRepository.InsertOutcome | app/repositories/user_repository.py:38-39 | inserting one row gives an operational error, else a data error if it does not fit, else an integrity error iff its id, username or email is taken or a concurrent insert won, else success |
| UserRepository.CreateUser | app/repositories/user_repository.py:17-57 | on success the table is the old table plus exactly the new row (input username, email and hash, generated id, the two clock readings), and the lookups by its username, email and id return it; on failure the table is unchanged, the error is the commit's, and the session needs a rollback |
| UserService.RegisterUser | app/services/user_service.py:23-98 | a taken username is reported first, then a taken email, both without hashing and without changing the table; otherwise the password is hashed and inserted: success adds exactly one row holding the hash, an integrity error is rolled back and reported as the generic 400, and any other failure is rolled back and reported as a 500; the uniqueness invariant holds after every outcome |
| UserService.CreateOrReport | app/services/user_service.py:76-98 | the `try` block: success returns the new row; an integrity error becomes the generic 400 and any other error a 500, each after a rollback that leaves the table unchanged; the generic 400 arises only from a taken key or a concurrent insert |
| UserService.DuplicateSignupScenario | app/services/user_service.py:56-70 | after `alice` registers, a second sign-up with her username is refused as a taken username, and one with her email as a taken email |
| Config.TrimStart | app/config.py:50 | the result is the input minus a whitespace-only prefix, and does not start with whitespace |
| Config.TrimEnd | app/config.py:50 | the result is the input minus a whitespace-only suffix, and does not end with whitespace |
| Config.Strip | app/config.py:50 | the result is a contiguous part of the input, everything around it is whitespace, and it neither starts nor ends with whitespace |
| Config.Split | app/config.py:50 | splitting always yields at least one piece |
| Config.SplitCount | app/config.py:50 | splitting yields one piece more than there are separators |
| Config.SplitPiecesFree | app/config.py:50 | no piece contains the separator |
| Config.SplitJoin | app/config.py:50 | joining the pieces with the separator restores the input, so the pieces are its segments in order |
| Config.CorsOriginsList | app/config.py:43-50 | there is one entry per segment, and entry i is segment i stripped |
| Config.CorsOriginsShape | app/config.py:50 | the list has one entry more than the setting has commas; no entry holds a comma or has surrounding whitespace; the segments rejoin to the setting |
| Config.EmptyOrigins | app/config.py:50 | an empty setting gives a list holding one empty string |

## Left out

- Password hashing (Argon2) is not modelled; `hash_password` is a parameter, and `verify_password` has no caller in the modelled code.
- Email syntax and normalisation are delegated to an external validator and enter only as its verdict.
- Character classes and `strip` cover ASCII only. Python's `isupper`, `islower`, `isdigit`, `isalnum` and `isspace` also accept non-ASCII characters.
- Database string comparison is exact equality, with no collation or case folding.
- The check-then-insert race between concurrent requests is modelled only as the `UniqueRace` fault on the insert. The conflicting row committed by the other request is not added to the modelled table.
- Column lengths are enforced at commit as a data error, as a strict backend does. SQLite would store over-long values.
- UserModel.NewUser: `updated_at` is reset by `onupdate` on every update, but no modelled operation updates a row, so only its initial value is stated.
- UserRepository.CreateUser: `db.refresh` is not modelled as a separate step. The id and timestamps that the flush fills in and the refresh reloads are parameters, so the returned row already holds them. A failure of the refresh after a successful commit is not modelled either. In the code it happens inside the service's `try`, so `register_user` answers with the 500 although the new row stays committed. The model's "every failure leaves the table unchanged" holds only because this case is excluded.
- UserRepository.GetUserByEmail, UserRepository.GetUserByUsername, UserRepository.GetUserById: a failure of the SELECT itself is not modelled (for instance a lost connection raising an operational error). Database faults enter only at the commit, and the lookups are promised to succeed on a valid, usable session. In the code, such an error in the two lookups of `register_user` (app/services/user_service.py:57, 65) happens before the `try`, so it escapes unmapped and without a rollback.
- The session's autoflush is off, so queries read committed rows only; other session behaviour (identity map, expiry after commit, `close`) is not modelled.
- UserService.RegisterUser: the session is assumed to have nothing pending on entry, as a fresh per-request session from `get_db` does.
- Loading `Settings` from the environment and `.env`, the engine, `get_db`, routing, the application object, the health endpoint, and the package re-exports are I/O or wiring.
- Login, token issuance, token validation and refresh have no implementation in the modelled code; only their settings exist.
