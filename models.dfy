/**
 * The `users` table of app/models/user.py: one record per account, the
 * column length bounds, and the primary-key and uniqueness constraints that
 * every stored table satisfies.
 */
module UserModel {

  /** An instant read from the clock; only equality of instants matters here. */
  type Timestamp = nat

  const IdColumnLength := 36
  const UsernameColumnLength := 50
  const EmailColumnLength := 255
  const PasswordHashColumnLength := 255

  /** A row. Every column is non-null, which the types give for free. */
  datatype User = User(
    id: string,
    username: string,
    email: string,
    passwordHash: string,
    createdAt: Timestamp,
    updatedAt: Timestamp)

  /** The columns that carry a primary-key or unique constraint. */
  datatype Column = Id | Username | Email

  function Key(u: User, col: Column): string {
    match col
    case Id => u.id
    case Username => u.username
    case Email => u.email
  }

  /** The `String(n)` bounds of the columns. */
  predicate ColumnsFit(u: User) {
    && |u.id| <= IdColumnLength
    && |u.username| <= UsernameColumnLength
    && |u.email| <= EmailColumnLength
    && |u.passwordHash| <= PasswordHashColumnLength
  }

  /** No two rows share a value of `col`. */
  predicate Unique(rows: seq<User>, col: Column) {
    forall i, j :: 0 <= i < |rows| && 0 <= j < |rows| && Key(rows[i], col) == Key(rows[j], col) ==> i == j
  }

  predicate KeysUnique(rows: seq<User>) {
    Unique(rows, Id) && Unique(rows, Username) && Unique(rows, Email)
  }

  /** What the table's declared constraints guarantee of its contents. */
  predicate TableInvariant(rows: seq<User>) {
    (forall u :: u in rows ==> ColumnsFit(u)) && KeysUnique(rows)
  }

  /** Some row already holds `v` in column `col`. */
  predicate Taken(rows: seq<User>, col: Column, v: string) {
    exists u :: u in rows && Key(u, col) == v
  }

  /**
   * `User(username=…, email=…, password_hash=…)` once the column defaults are
   * applied at the flush: `freshId` stands for `str(uuid4())`, and `createdAt`
   * and `updatedAt` for the two separate calls of `datetime.utcnow()`, one
   * per column default.
   */
  function NewUser(freshId: string, username: string, email: string, passwordHash: string,
                   createdAt: Timestamp, updatedAt: Timestamp): (u: User)
    ensures u.id == freshId && u.username == username && u.email == email
    ensures u.passwordHash == passwordHash
    ensures u.createdAt == createdAt && u.updatedAt == updatedAt
  {
    User(freshId, username, email, passwordHash, createdAt, updatedAt)
  }

  /** `__repr__`: the id, username and email of a row. */
  function Repr(u: User): (r: string)
    ensures |r| == |u.id| + |u.username| + |u.email| + 30
    ensures r[..9] == "<User(id=" && r[9..9 + |u.id|] == u.id
    ensures var a := 9 + |u.id|;
      r[a..a + 11] == ", username=" && r[a + 11..a + 11 + |u.username|] == u.username
    ensures var b := 20 + |u.id| + |u.username|;
      r[b..b + 8] == ", email=" && r[b + 8..b + 8 + |u.email|] == u.email
    ensures r[|r| - 2..] == ")>"
  {
    "<User(id=" + u.id + ", username=" + u.username + ", email=" + u.email + ")>"
  }

  /** `__repr__` does not depend on the password hash or on the timestamps. */
  lemma ReprOmitsSecret(u: User, hash: string, created: Timestamp, updated: Timestamp)
    ensures Repr(u) == Repr(u.(passwordHash := hash, createdAt := created, updatedAt := updated))
  {
  }

  /**
   * Appending a row keeps the table's constraints exactly when the row fits
   * its columns and none of its keys is taken.
   */
  lemma {:induction false} AppendKeepsInvariant(rows: seq<User>, u: User)
    requires TableInvariant(rows)
    ensures TableInvariant(rows + [u]) <==>
      ColumnsFit(u) && !Taken(rows, Id, u.id) && !Taken(rows, Username, u.username) && !Taken(rows, Email, u.email)
  {
    forall col: Column
      ensures Unique(rows + [u], col) <==> !Taken(rows, col, Key(u, col))
    {
      AppendUnique(rows, u, col);
    }
    assert Key(u, Id) == u.id && Key(u, Username) == u.username && Key(u, Email) == u.email;
  }

  lemma {:induction false} AppendUnique(rows: seq<User>, u: User, col: Column)
    requires Unique(rows, col)
    ensures Unique(rows + [u], col) <==> !Taken(rows, col, Key(u, col))
  {
    var s := rows + [u];
    if Taken(rows, col, Key(u, col)) {
      var w :| w in rows && Key(w, col) == Key(u, col);
      var k :| 0 <= k < |rows| && rows[k] == w;
      assert s[k] == w && s[|rows|] == u;
      assert !Unique(s, col);
    } else {
      forall i | 0 <= i < |rows|
        ensures Key(s[i], col) != Key(u, col)
      {
        assert s[i] == rows[i] && rows[i] in rows;
      }
      assert s[|rows|] == u;
    }
  }
}
