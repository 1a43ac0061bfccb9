/**
 * `register_user` of app/services/user_service.py: check the username, then
 * the email, hash the password, insert, and map insert failures to HTTP
 * errors after rolling the session back.
 */
module UserService {
  import opened Wrappers
  import opened UserModel
  import opened UserSchemas
  import opened UserRepository

  const BadRequest := 400
  const InternalServerError := 500
  const UsernameTakenDetail := "Username already registered"
  const EmailTakenDetail := "Email already registered"
  const DuplicateDetail := "Username or email already registered"
  const InsertFailedDetail := "An error occurred while creating the user"

  /** An `HTTPException` raised by the service, or a database error it lets through. */
  datatype ServiceError = HttpError(status: nat, detail: string) | Unhandled(error: DbError)

  /** The observable steps of a registration, in the order they happen. */
  datatype Step = QueryUsername | QueryEmail | HashPassword | Insert | Rollback

  /**
   * `hashPassword` is the password hasher as used for this call (its salt is
   * drawn inside it); `freshId` is the generated id, `createdAt` and
   * `updatedAt` are the two clock readings taken by the column defaults, and
   * `fault` is what the database does to the insert.
   */
  method RegisterUser(db: Session, data: UserCreate, hashPassword: string -> string,
                      freshId: string, createdAt: Timestamp, updatedAt: Timestamp, fault: InsertFault)
    returns (r: Result<User, ServiceError>, trace: seq<Step>)
    requires db.Valid() && db.pending == []
    modifies db
    ensures db.Valid() && db.pending == [] && db.inactive == old(db.inactive)
    // A session that still needs a rollback makes the first query raise.
    ensures old(db.inactive) ==>
      r == Failure(Unhandled(PendingRollbackError)) && trace == [QueryUsername] && db.rows == old(db.rows)
    // A taken username is reported first, whatever the email.
    ensures !old(db.inactive) && Taken(old(db.rows), Username, data.username) ==>
      && r == Failure(HttpError(BadRequest, UsernameTakenDetail))
      && trace == [QueryUsername] && db.rows == old(db.rows)
    ensures !old(db.inactive) && !Taken(old(db.rows), Username, data.username)
            && Taken(old(db.rows), Email, data.email) ==>
      && r == Failure(HttpError(BadRequest, EmailTakenDetail))
      && trace == [QueryUsername, QueryEmail] && db.rows == old(db.rows)
    // The password is hashed only once both checks have passed.
    ensures HashPassword in trace <==>
      !old(db.inactive) && !Taken(old(db.rows), Username, data.username) && !Taken(old(db.rows), Email, data.email)
    ensures var u := NewUser(freshId, data.username, data.email, hashPassword(data.password), createdAt, updatedAt);
      var e := CommitError(old(db.rows), [u], fault);
      !old(db.inactive) && !Taken(old(db.rows), Username, data.username) && !Taken(old(db.rows), Email, data.email) ==>
        && |trace| >= 4 && trace[..4] == [QueryUsername, QueryEmail, HashPassword, Insert]
        && (e == None ==> r == Success(u) && db.rows == old(db.rows) + [u] && |trace| == 4)
        && (e == Some(IntegrityError) ==>
              && r == Failure(HttpError(BadRequest, DuplicateDetail))
              && db.rows == old(db.rows) && trace == [QueryUsername, QueryEmail, HashPassword, Insert, Rollback])
        && (e.Some? && e != Some(IntegrityError) ==>
              && r == Failure(HttpError(InternalServerError, InsertFailedDetail))
              && db.rows == old(db.rows) && trace == [QueryUsername, QueryEmail, HashPassword, Insert, Rollback])
    // On success exactly one row is added, holding the hash and not the password.
    ensures r.Success? ==>
      && db.rows == old(db.rows) + [r.value]
      && r.value.username == data.username && r.value.email == data.email
      && r.value.passwordHash == hashPassword(data.password)
    // Every failure leaves the table as it was.
    ensures r.Failure? ==> db.rows == old(db.rows)
    // The generic duplicate error comes only from a concurrent insert or a reused id.
    ensures r == Failure(HttpError(BadRequest, DuplicateDetail)) ==>
      fault == UniqueRace || Taken(old(db.rows), Id, freshId)
  {
    trace := [QueryUsername];
    var byUsername := GetUserByUsername(db, data.username);
    if byUsername.Failure? {
      r := Failure(Unhandled(byUsername.error));
      return;
    }
    if byUsername.value.Some? {
      assert byUsername.value.value in db.rows;
      r := Failure(HttpError(BadRequest, UsernameTakenDetail));
      return;
    }

    trace := trace + [QueryEmail];
    var byEmail := GetUserByEmail(db, data.email);
    if byEmail.value.Some? {
      assert byEmail.value.value in db.rows;
      r := Failure(HttpError(BadRequest, EmailTakenDetail));
      return;
    }

    var passwordHash := hashPassword(data.password);
    trace := trace + [HashPassword, Insert];
    var rolledBack;
    r, rolledBack := CreateOrReport(db, data.username, data.email, passwordHash, freshId, createdAt, updatedAt, fault);
    if rolledBack {
      trace := trace + [Rollback];
    }
  }

  /**
   * The `try` block around `create_user`: an integrity error becomes the
   * generic duplicate error, any other failure a server error, and both roll
   * the session back.
   */
  method CreateOrReport(db: Session, username: string, email: string, passwordHash: string,
                        freshId: string, createdAt: Timestamp, updatedAt: Timestamp, fault: InsertFault)
    returns (r: Result<User, ServiceError>, rolledBack: bool)
    requires db.Valid() && db.pending == [] && !db.inactive
    modifies db
    ensures db.Valid() && db.pending == [] && !db.inactive
    ensures var u := NewUser(freshId, username, email, passwordHash, createdAt, updatedAt);
      var e := CommitError(old(db.rows), [u], fault);
      && (e == None ==> r == Success(u) && db.rows == old(db.rows) + [u] && !rolledBack)
      && (e == Some(IntegrityError) ==>
            r == Failure(HttpError(BadRequest, DuplicateDetail)) && db.rows == old(db.rows) && rolledBack)
      && (e.Some? && e != Some(IntegrityError) ==>
            r == Failure(HttpError(InternalServerError, InsertFailedDetail)) && db.rows == old(db.rows) && rolledBack)
    ensures r == Failure(HttpError(BadRequest, DuplicateDetail)) ==>
      || fault == UniqueRace
      || Taken(old(db.rows), Id, freshId) || Taken(old(db.rows), Username, username) || Taken(old(db.rows), Email, email)
  {
    ghost var rows0 := db.rows;
    ghost var user := NewUser(freshId, username, email, passwordHash, createdAt, updatedAt);
    ghost var e := CommitError(rows0, [user], fault);
    InsertOutcome(rows0, user, fault);
    assert db.pending + [user] == [user];
    var created := CreateUser(db, username, email, passwordHash, freshId, createdAt, updatedAt, fault);
    if created.Success? {
      assert e == None && created.value == user;
      r, rolledBack := Success(created.value), false;
    } else {
      assert e.Some? && created.error == e.value;
      db.Rollback();
      rolledBack := true;
      if created.error == IntegrityError {
        r := Failure(HttpError(BadRequest, DuplicateDetail));
      } else {
        r := Failure(HttpError(InternalServerError, InsertFailedDetail));
      }
    }
  }

  /**
   * With a hasher whose output fits its column (an Argon2 encoded hash is
   * under a hundred characters), register `alice`, then try her username
   * with another email and her email with another username.
   */
  method DuplicateSignupScenario(hashPassword: string -> string)
    returns (first: Result<User, ServiceError>, second: Result<User, ServiceError>, third: Result<User, ServiceError>)
    requires |hashPassword("Str0ngP@ss")| <= PasswordHashColumnLength
    ensures first.Success? && first.value.username == "alice"
    ensures second == Failure(HttpError(BadRequest, UsernameTakenDetail))
    ensures third == Failure(HttpError(BadRequest, EmailTakenDetail))
  {
    var db := new Session([]);
    var alice := NewUser("A1", "alice", "alice@example.com", hashPassword("Str0ngP@ss"), 1, 2);
    InsertOutcome([], alice, NoFault);
    var trace;
    first, trace := RegisterUser(db, UserCreate("alice", "alice@example.com", "Str0ngP@ss"), hashPassword, "A1", 1, 2, NoFault);
    assert db.rows == [alice];
    assert Key(db.rows[0], Username) == "alice" && Key(db.rows[0], Email) == "alice@example.com";
    second, trace := RegisterUser(db, UserCreate("alice", "alice2@example.com", "Str0ngP@ss"), hashPassword, "A2", 3, 4, NoFault);
    third, trace := RegisterUser(db, UserCreate("alice2", "alice@example.com", "Str0ngP@ss"), hashPassword, "A3", 5, 6, NoFault);
  }
}
