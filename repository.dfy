/**
 * The data-access layer of app/repositories/user_repository.py over a
 * database session.
 *
 * `Session` stands for a SQLAlchemy session bound to the `users` table:
 * `rows` is the committed table, `pending` the objects added with `add` and
 * not yet committed, and `inactive` records that a commit failed and the
 * session refuses further work until it is rolled back. Sessions are created
 * with autoflush off, so a query reads the committed rows only.
 */
module UserRepository {
  import opened Wrappers
  import opened UserModel

  /** The exceptions the database layer raises. */
  datatype DbError =
    | IntegrityError        // a primary-key or unique constraint is violated
    | DataError             // a value does not fit its column
    | OperationalError      // the database could not run the statement
    | MultipleResultsFound  // `scalar_one_or_none` saw more than one row
    | PendingRollbackError  // the session needs a rollback after a failed commit

  /**
   * What the environment does to an insert, beyond the table's own checks:
   * nothing; a concurrent request commits a conflicting row first (seen here
   * as an integrity error); or the database fails for another reason.
   */
  datatype InsertFault = NoFault | UniqueRace | OperationalFailure

  /** A `where` clause: a column compared with a value, or a disjunction (`or_`). */
  datatype Condition = ColumnEquals(col: Column, value: string) | Either(left: Condition, right: Condition)

  predicate Holds(c: Condition, u: User) {
    match c
    case ColumnEquals(col, v) => Key(u, col) == v
    case Either(l, r) => Holds(l, u) || Holds(r, u)
  }

  /** `select(User).where(c)`: the matching rows, in table order. */
  function Select(rows: seq<User>, c: Condition): (r: seq<User>)
    ensures |r| <= |rows|
    ensures forall u :: u in r <==> u in rows && Holds(c, u)
  {
    if rows == [] then []
    else
      assert rows == [rows[0]] + rows[1..];
      if Holds(c, rows[0]) then [rows[0]] + Select(rows[1..], c) else Select(rows[1..], c)
  }

  /** Two different rows satisfy `c`. */
  ghost predicate AtLeastTwo(rows: seq<User>, c: Condition) {
    exists i, j :: 0 <= i < j < |rows| && Holds(c, rows[i]) && Holds(c, rows[j])
  }

  lemma {:induction false} SelectSizeTwo(rows: seq<User>, c: Condition)
    ensures |Select(rows, c)| >= 2 <==> AtLeastTwo(rows, c)
  {
    if rows != [] {
      if Holds(c, rows[0]) {
        SelectSizeTwoFirstMatches(rows, c);
      } else {
        SelectSizeTwo(rows[1..], c);
        SelectSizeTwoFirstSkipped(rows, c);
      }
    }
  }

  /** When the first row matches, a second match anywhere after it makes two. */
  lemma SelectSizeTwoFirstMatches(rows: seq<User>, c: Condition)
    requires rows != [] && Holds(c, rows[0])
    ensures |Select(rows, c)| >= 2 <==> AtLeastTwo(rows, c)
  {
    var rest := rows[1..];
    assert |Select(rows, c)| == 1 + |Select(rest, c)|;
    if |Select(rest, c)| >= 1 {
      var u := Select(rest, c)[0];
      assert u in Select(rest, c);
      var k :| 0 <= k < |rest| && rest[k] == u;
      assert rows[k + 1] == u;
      assert Holds(c, rows[0]) && Holds(c, rows[k + 1]);
    }
    if AtLeastTwo(rows, c) {
      var i, j :| 0 <= i < j < |rows| && Holds(c, rows[i]) && Holds(c, rows[j]);
      assert rows[j] == rest[j - 1] && rest[j - 1] in rest;
      assert rows[j] in Select(rest, c);
    }
  }

  /** When the first row does not match, the matches are those of the remaining rows. */
  lemma SelectSizeTwoFirstSkipped(rows: seq<User>, c: Condition)
    requires rows != [] && !Holds(c, rows[0])
    requires |Select(rows[1..], c)| >= 2 <==> AtLeastTwo(rows[1..], c)
    ensures |Select(rows, c)| >= 2 <==> AtLeastTwo(rows, c)
  {
    assert |Select(rows, c)| == |Select(rows[1..], c)|;
    TwoMatchesAfterFirst(rows, c);
  }

  lemma TwoMatchesAfterFirst(rows: seq<User>, c: Condition)
    requires rows != [] && !Holds(c, rows[0])
    ensures AtLeastTwo(rows, c) <==> AtLeastTwo(rows[1..], c)
  {
    var rest := rows[1..];
    if AtLeastTwo(rows, c) {
      var i, j :| 0 <= i < j < |rows| && Holds(c, rows[i]) && Holds(c, rows[j]);
      assert rows[i] == rest[i - 1] && rows[j] == rest[j - 1];
    }
    if AtLeastTwo(rest, c) {
      var i, j :| 0 <= i < j < |rest| && Holds(c, rest[i]) && Holds(c, rest[j]);
      assert rows[i + 1] == rest[i] && rows[j + 1] == rest[j];
    }
  }

  /** `Result.scalar_one_or_none()`: no row, the one row, or an error. */
  function ScalarOneOrNone(matches: seq<User>): (r: Result<Option<User>, DbError>)
    ensures r.Success? <==> |matches| <= 1
    ensures r == Success(None) <==> matches == []
    ensures r.Success? && r.value.Some? ==> matches == [r.value.value]
    ensures r.Failure? ==> r.error == MultipleResultsFound
  {
    if |matches| == 0 then Success(None)
    else if |matches| == 1 then Success(Some(matches[0]))
    else Failure(MultipleResultsFound)
  }

  /**
   * The error a commit of `pending` over the table `rows` raises, if any: a
   * failure of the database first, then a value too long for its column,
   * then a violated key.
   */
  function CommitError(rows: seq<User>, pending: seq<User>, fault: InsertFault): (e: Option<DbError>)
    ensures TableInvariant(rows) ==> (e == None <==> fault == NoFault && TableInvariant(rows + pending))
    ensures e.Some? ==> e.value in {OperationalError, DataError, IntegrityError}
  {
    assert forall u :: u in rows + pending <==> u in rows || u in pending;
    if fault == OperationalFailure then Some(OperationalError)
    else if !(forall u :: u in pending ==> ColumnsFit(u)) then Some(DataError)
    else if fault == UniqueRace || !KeysUnique(rows + pending) then Some(IntegrityError)
    else
      assert TableInvariant(rows) ==> forall u :: u in rows + pending ==> ColumnsFit(u);
      assert fault == NoFault;
      None
  }

  class Session {
    var rows: seq<User>
    var pending: seq<User>
    var inactive: bool

    ghost predicate Valid()
      reads this
    {
      TableInvariant(rows)
    }

    /** A new session over a table that satisfies its constraints. */
    constructor (table: seq<User>)
      requires TableInvariant(table)
      ensures Valid()
      ensures rows == table && pending == [] && !inactive
    {
      rows := table;
      pending := [];
      inactive := false;
    }

    /** `db.add(u)` */
    method Add(u: User)
      modifies this
      ensures rows == old(rows) && inactive == old(inactive)
      ensures pending == old(pending) + [u]
    {
      pending := pending + [u];
    }

    /**
     * `db.commit()`: flushes the pending rows into the table, or fails, leaves
     * the table as it was and needs a rollback. A flush that fails rolls back
     * the transaction, which expunges the objects added in it; a commit
     * refused because a rollback is already needed changes nothing.
     */
    method Commit(fault: InsertFault) returns (r: Result<(), DbError>)
      requires Valid()
      modifies this
      ensures Valid()
      ensures old(inactive) ==> r == Failure(PendingRollbackError)
      ensures !old(inactive) && CommitError(old(rows), old(pending), fault).Some? ==>
        r == Failure(CommitError(old(rows), old(pending), fault).value)
      ensures r.Success? <==> !old(inactive) && CommitError(old(rows), old(pending), fault) == None
      ensures r.Success? ==> rows == old(rows) + old(pending) && pending == [] && !inactive
      ensures r.Failure? ==> rows == old(rows) && inactive
      ensures r.Failure? ==> pending == if old(inactive) then old(pending) else []
    {
      if inactive {
        return Failure(PendingRollbackError);
      }
      var e := CommitError(rows, pending, fault);
      if e.Some? {
        pending := [];
        inactive := true;
        return Failure(e.value);
      }
      rows := rows + pending;
      pending := [];
      r := Success(());
    }

    /** `db.rollback()`: discards the pending rows and makes the session usable again. */
    method Rollback()
      modifies this
      ensures rows == old(rows) && pending == [] && !inactive
    {
      pending := [];
      inactive := false;
    }
  }

  /** `db.execute(select(User).where(c)).scalar_one_or_none()` */
  function Query(db: Session, c: Condition): (r: Result<Option<User>, DbError>)
    reads db
    ensures db.inactive <==> r == Failure(PendingRollbackError)
    ensures r == Success(None) <==> !db.inactive && forall u :: u in db.rows ==> !Holds(c, u)
    ensures r.Success? && r.value.Some? ==>
      && r.value.value in db.rows && Holds(c, r.value.value)
      && forall u :: u in db.rows && Holds(c, u) ==> u == r.value.value
    ensures r == Failure(MultipleResultsFound) <==> !db.inactive && AtLeastTwo(db.rows, c)
    // No other error: one matching row or none is a success.
    ensures r.Success? <==> !db.inactive && !AtLeastTwo(db.rows, c)
  {
    if db.inactive then Failure(PendingRollbackError)
    else
      var matches := Select(db.rows, c);
      SelectSizeTwo(db.rows, c);
      assert matches != [] ==> matches[0] in matches;
      ScalarOneOrNone(matches)
  }

  /** On a column with a unique constraint a lookup never sees two rows. */
  lemma UniqueColumnLookup(rows: seq<User>, col: Column, v: string)
    ensures Unique(rows, col) ==> !AtLeastTwo(rows, ColumnEquals(col, v))
  {
  }

  /** `get_user_by_email` */
  function GetUserByEmail(db: Session, email: string): (r: Result<Option<User>, DbError>)
    reads db
    ensures db.Valid() && !db.inactive ==> r.Success?
    ensures db.inactive ==> r == Failure(PendingRollbackError)
    ensures r == Success(None) <==> !db.inactive && forall u :: u in db.rows ==> u.email != email
    ensures r.Success? && r.value.Some? ==> r.value.value in db.rows && r.value.value.email == email
  {
    UniqueColumnLookup(db.rows, Email, email);
    Query(db, ColumnEquals(Email, email))
  }

  /** `get_user_by_username` */
  function GetUserByUsername(db: Session, username: string): (r: Result<Option<User>, DbError>)
    reads db
    ensures db.Valid() && !db.inactive ==> r.Success?
    ensures db.inactive ==> r == Failure(PendingRollbackError)
    ensures r == Success(None) <==> !db.inactive && forall u :: u in db.rows ==> u.username != username
    ensures r.Success? && r.value.Some? ==> r.value.value in db.rows && r.value.value.username == username
  {
    UniqueColumnLookup(db.rows, Username, username);
    Query(db, ColumnEquals(Username, username))
  }

  /** `get_user_by_id` */
  function GetUserById(db: Session, userId: string): (r: Result<Option<User>, DbError>)
    reads db
    ensures db.Valid() && !db.inactive ==> r.Success?
    ensures db.inactive ==> r == Failure(PendingRollbackError)
    ensures r == Success(None) <==> !db.inactive && forall u :: u in db.rows ==> u.id != userId
    ensures r.Success? && r.value.Some? ==> r.value.value in db.rows && r.value.value.id == userId
  {
    UniqueColumnLookup(db.rows, Id, userId);
    Query(db, ColumnEquals(Id, userId))
  }

  predicate IdentifierMatches(u: User, identifier: string) {
    u.email == identifier || u.username == identifier
  }

  /**
   * `get_user_by_email_or_username`: the query matches on either column, so
   * one row whose email is the identifier and another whose username is the
   * identifier make it raise.
   */
  function GetUserByEmailOrUsername(db: Session, identifier: string): (r: Result<Option<User>, DbError>)
    reads db
    ensures db.inactive <==> r == Failure(PendingRollbackError)
    ensures r == Success(None) <==>
      !db.inactive && forall u :: u in db.rows ==> !IdentifierMatches(u, identifier)
    ensures r.Success? && r.value.Some? ==>
      && r.value.value in db.rows && IdentifierMatches(r.value.value, identifier)
      && forall u :: u in db.rows && IdentifierMatches(u, identifier) ==> u == r.value.value
    ensures r == Failure(MultipleResultsFound) <==>
      && !db.inactive
      && exists i, j :: 0 <= i < j < |db.rows|
           && IdentifierMatches(db.rows[i], identifier) && IdentifierMatches(db.rows[j], identifier)
    // No other error: the single record that matches, or none, is returned.
    ensures r.Success? <==>
      && !db.inactive
      && !exists i, j :: 0 <= i < j < |db.rows|
           && IdentifierMatches(db.rows[i], identifier) && IdentifierMatches(db.rows[j], identifier)
  {
    var c := Either(ColumnEquals(Email, identifier), ColumnEquals(Username, identifier));
    assert forall u :: Holds(c, u) == IdentifierMatches(u, identifier);
    Query(db, c)
  }

  /**
   * When every stored email contains `@` and no stored username does (which
   * the registration schema guarantees for usernames), an identifier matches
   * at most one row: the combined lookup never raises `MultipleResultsFound`,
   * and on a usable session it always succeeds.
   */
  lemma EmailOrUsernameUnambiguous(db: Session, identifier: string)
    requires db.Valid()
    requires forall u :: u in db.rows ==> '@' in u.email && '@' !in u.username
    ensures GetUserByEmailOrUsername(db, identifier) != Failure(MultipleResultsFound)
    ensures !db.inactive ==> GetUserByEmailOrUsername(db, identifier).Success?
  {
    var rows := db.rows;
    forall i, j | 0 <= i < j < |rows|
      ensures !(IdentifierMatches(rows[i], identifier) && IdentifierMatches(rows[j], identifier))
    {
      assert rows[i] in rows && rows[j] in rows;
      if '@' in identifier {
        assert rows[i].username != identifier && rows[j].username != identifier;
        assert Key(rows[i], Email) != Key(rows[j], Email);
      } else {
        assert rows[i].email != identifier && rows[j].email != identifier;
        assert Key(rows[i], Username) != Key(rows[j], Username);
      }
    }
  }

  /**
   * Two stored accounts, one whose email is the other's username, make the
   * lookup by that identifier raise, whatever else the table holds.
   */
  lemma EmailOrUsernameAmbiguous(db: Session, a: User, b: User)
    requires !db.inactive && a in db.rows && b in db.rows && a != b
    requires a.email == b.username
    ensures GetUserByEmailOrUsername(db, a.email) == Failure(MultipleResultsFound)
  {
    var rows := db.rows;
    var i :| 0 <= i < |rows| && rows[i] == a;
    var j :| 0 <= j < |rows| && rows[j] == b;
    assert i != j;
    assert IdentifierMatches(rows[i], a.email) && IdentifierMatches(rows[j], a.email);
    if i < j {
      assert exists p, q :: 0 <= p < q < |rows| && IdentifierMatches(rows[p], a.email) && IdentifierMatches(rows[q], a.email);
    } else {
      assert exists p, q :: 0 <= p < q < |rows| && IdentifierMatches(rows[p], a.email) && IdentifierMatches(rows[q], a.email) by {
        assert 0 <= j < i < |rows|;
      }
    }
  }

  /** The lookups by the id, the username and the email of `u` all return `u`. */
  predicate FoundByEveryKey(db: Session, u: User)
    reads db
  {
    && GetUserByUsername(db, u.username) == Success(Some(u))
    && GetUserByEmail(db, u.email) == Success(Some(u))
    && GetUserById(db, u.id) == Success(Some(u))
  }

  /** On a valid, usable session, every stored row is what the lookups by its id, its username and its email return. */
  lemma {:induction false} StoredRowFound(db: Session, u: User)
    requires db.Valid() && !db.inactive && u in db.rows
    ensures GetUserByUsername(db, u.username) == Success(Some(u))
    ensures GetUserByEmail(db, u.email) == Success(Some(u))
    ensures GetUserById(db, u.id) == Success(Some(u))
    ensures FoundByEveryKey(db, u)
  {
    var rows := db.rows;
    var i :| 0 <= i < |rows| && rows[i] == u;
    forall col: Column
      ensures forall v :: v in rows && Key(v, col) == Key(u, col) ==> v == u
    {
      forall v | v in rows && Key(v, col) == Key(u, col)
        ensures v == u
      {
        var j :| 0 <= j < |rows| && rows[j] == v;
      }
    }
    assert Key(u, Id) == u.id && Key(u, Username) == u.username && Key(u, Email) == u.email;
  }

  /** The outcome of committing one new row to a table that satisfies its constraints. */
  lemma InsertOutcome(rows: seq<User>, u: User, fault: InsertFault)
    requires TableInvariant(rows)
    ensures CommitError(rows, [u], fault) ==
      if fault == OperationalFailure then Some(OperationalError)
      else if !ColumnsFit(u) then Some(DataError)
      else if fault == UniqueRace || Taken(rows, Id, u.id) || Taken(rows, Username, u.username)
              || Taken(rows, Email, u.email) then Some(IntegrityError)
      else None
  {
    AppendKeepsInvariant(rows, u);
    assert forall v :: v in [u] <==> v == u;
  }

  /**
   * `create_user`: adds the new row to the session and commits. The id and
   * the two timestamps that the column defaults supply at the flush enter as
   * `freshId`, `createdAt` and `updatedAt`, so the row is built from them.
   */
  method CreateUser(db: Session, username: string, email: string, passwordHash: string,
                    freshId: string, createdAt: Timestamp, updatedAt: Timestamp, fault: InsertFault)
    returns (r: Result<User, DbError>)
    requires db.Valid()
    modifies db
    ensures db.Valid()
    ensures var u := NewUser(freshId, username, email, passwordHash, createdAt, updatedAt);
      && (r.Success? <==> !old(db.inactive) && CommitError(old(db.rows), old(db.pending) + [u], fault) == None)
      && (r.Success? ==> r.value == u && db.rows == old(db.rows) + old(db.pending) + [u] && db.pending == [] && !db.inactive)
      && (r.Failure? ==> db.rows == old(db.rows) && db.inactive)
      && (r.Failure? ==> db.pending == if old(db.inactive) then old(db.pending) + [u] else [])
      && (r.Failure? ==> r.error == if old(db.inactive) then PendingRollbackError
                                    else CommitError(old(db.rows), old(db.pending) + [u], fault).value)
    ensures r.Success? ==> FoundByEveryKey(db, r.value)
  {
    var user := NewUser(freshId, username, email, passwordHash, createdAt, updatedAt);
    db.Add(user);
    var committed := db.Commit(fault);
    if committed.Failure? {
      r := Failure(committed.error);
    } else {
      assert user in db.rows;
      assert user.username == username && user.email == email && user.id == freshId;
      StoredRowFound(db, user);
      r := Success(user);
    }
  }
}
