/**
 * The request schema for registration (`UserCreate`) and the response
 * projection (`UserResponse`) of app/schemas/user.py.
 *
 * Python's `str.isupper`, `str.islower`, `str.isdigit` and `str.isalnum` are
 * Unicode-aware; this model uses their ASCII restrictions.
 */
module UserSchemas {
  import opened Wrappers
  import opened UserModel

  const UsernameMinLength := 3
  const UsernameMaxLength := 50
  const PasswordMinLength := 8
  const PasswordMaxLength := 100

  /** One validation error; each field reports at most one. */
  datatype FieldError =
    | UsernameTooShort
    | UsernameTooLong
    | UsernamePatternMismatch
    | UsernameNoAlphanumeric
    | EmailInvalid
    | PasswordTooShort
    | PasswordTooLong
    | PasswordNoUppercase
    | PasswordNoLowercase
    | PasswordNoDigit

  /** The position in the request of the field an error is about: username 0, email 1, password 2. */
  function FieldOf(e: FieldError): nat {
    match e
    case UsernameTooShort | UsernameTooLong | UsernamePatternMismatch | UsernameNoAlphanumeric => 0
    case EmailInvalid => 1
    case PasswordTooShort | PasswordTooLong | PasswordNoUppercase | PasswordNoLowercase | PasswordNoDigit => 2
  }

  /** A registration request that passed validation. */
  datatype UserCreate = UserCreate(username: string, email: string, password: string)

  /** The public view of a user: no password hash, no update time. */
  datatype UserResponse = UserResponse(id: string, username: string, email: string, createdAt: Timestamp)

  predicate IsUpper(c: char) { 'A' <= c <= 'Z' }
  predicate IsLower(c: char) { 'a' <= c <= 'z' }
  predicate IsDigit(c: char) { '0' <= c <= '9' }
  predicate IsAlnum(c: char) { IsUpper(c) || IsLower(c) || IsDigit(c) }

  /** The character class `[a-zA-Z0-9_-]` of the username pattern. */
  predicate IsUsernameChar(c: char) { IsAlnum(c) || c == '_' || c == '-' }

  /** `any(pred(c) for c in v)` */
  predicate HasUpper(v: string) { exists i :: 0 <= i < |v| && IsUpper(v[i]) }
  predicate HasLower(v: string) { exists i :: 0 <= i < |v| && IsLower(v[i]) }
  predicate HasDigit(v: string) { exists i :: 0 <= i < |v| && IsDigit(v[i]) }
  predicate HasAlnum(v: string) { exists i :: 0 <= i < |v| && IsAlnum(v[i]) }

  /** A full match of `^[a-zA-Z0-9_-]+$`. */
  predicate MatchesUsernamePattern(v: string) {
    |v| > 0 && forall i :: 0 <= i < |v| ==> IsUsernameChar(v[i])
  }

  /**
   * The username field: the `Field` constraints (minimum length, maximum
   * length, pattern, in that order) and then `validate_username`.
   */
  function ValidateUsername(v: string): (r: Result<string, FieldError>)
    ensures r.Success? <==>
      && UsernameMinLength <= |v| <= UsernameMaxLength
      && (forall i :: 0 <= i < |v| ==> IsUsernameChar(v[i]))
      && HasAlnum(v)
    ensures r.Success? ==> r.value == v
    ensures r == Failure(UsernameTooShort) <==> |v| < UsernameMinLength
    ensures r == Failure(UsernameTooLong) <==> |v| > UsernameMaxLength
    ensures r == Failure(UsernamePatternMismatch) <==>
      UsernameMinLength <= |v| <= UsernameMaxLength && !MatchesUsernamePattern(v)
    ensures r == Failure(UsernameNoAlphanumeric) <==>
      UsernameMinLength <= |v| <= UsernameMaxLength && MatchesUsernamePattern(v) && !HasAlnum(v)
  {
    if |v| < UsernameMinLength then Failure(UsernameTooShort)
    else if |v| > UsernameMaxLength then Failure(UsernameTooLong)
    else if !MatchesUsernamePattern(v) then Failure(UsernamePatternMismatch)
    else if !HasAlnum(v) then Failure(UsernameNoAlphanumeric)
    else Success(v)
  }

  /**
   * The password field: the `Field` length bounds and then
   * `validate_password_strength`, whose checks run uppercase, lowercase,
   * digit and stop at the first that fails.
   */
  function ValidatePassword(v: string): (r: Result<string, FieldError>)
    ensures r.Success? <==>
      PasswordMinLength <= |v| <= PasswordMaxLength && HasUpper(v) && HasLower(v) && HasDigit(v)
    ensures r.Success? ==> r.value == v
    ensures r == Failure(PasswordTooShort) <==> |v| < PasswordMinLength
    ensures r == Failure(PasswordTooLong) <==> |v| > PasswordMaxLength
    ensures r == Failure(PasswordNoUppercase) <==>
      PasswordMinLength <= |v| <= PasswordMaxLength && !HasUpper(v)
    ensures r == Failure(PasswordNoLowercase) <==>
      PasswordMinLength <= |v| <= PasswordMaxLength && HasUpper(v) && !HasLower(v)
    ensures r == Failure(PasswordNoDigit) <==>
      PasswordMinLength <= |v| <= PasswordMaxLength && HasUpper(v) && HasLower(v) && !HasDigit(v)
  {
    if |v| < PasswordMinLength then Failure(PasswordTooShort)
    else if |v| > PasswordMaxLength then Failure(PasswordTooLong)
    else if !HasUpper(v) then Failure(PasswordNoUppercase)
    else if !HasLower(v) then Failure(PasswordNoLowercase)
    else if !HasDigit(v) then Failure(PasswordNoDigit)
    else Success(v)
  }

  /**
   * The whole request. The email check is delegated to an external validator
   * whose verdict on `email` is `emailVerdict`: the normalised address, or
   * `None` when it rejects the input. Every field is validated and the errors
   * are reported in field order (username, email, password).
   */
  function ValidateUserCreate(username: string, email: string, password: string,
                              emailVerdict: Option<string>): (r: Result<UserCreate, seq<FieldError>>)
    ensures r.Success? <==>
      ValidateUsername(username).Success? && emailVerdict.Some? && ValidatePassword(password).Success?
    ensures r.Success? ==>
      r.value == UserCreate(username, emailVerdict.value, password)
    ensures r.Failure? ==> 1 <= |r.error| <= 3
    ensures r.Failure? && ValidateUsername(username).Failure? ==>
      r.error[0] == ValidateUsername(username).error
    ensures r.Failure? && ValidatePassword(password).Failure? ==>
      r.error[|r.error| - 1] == ValidatePassword(password).error
    ensures r.Failure? ==> (EmailInvalid in r.error <==> emailVerdict.None?)
    // At most one error per field, in field order ...
    ensures r.Failure? ==>
      forall i, j :: 0 <= i < j < |r.error| ==> FieldOf(r.error[i]) < FieldOf(r.error[j])
    // ... every listed error is its field's own verdict ...
    ensures r.Failure? ==> forall e :: e in r.error ==>
      && (FieldOf(e) == 0 ==> ValidateUsername(username) == Failure(e))
      && (FieldOf(e) == 1 ==> emailVerdict.None?)
      && (FieldOf(e) == 2 ==> ValidatePassword(password) == Failure(e))
    // ... and every failing field is listed.
    ensures r.Failure? ==>
      && (ValidateUsername(username).Failure? ==> ValidateUsername(username).error in r.error)
      && (emailVerdict.None? ==> EmailInvalid in r.error)
      && (ValidatePassword(password).Failure? ==> ValidatePassword(password).error in r.error)
  {
    var u := ValidateUsername(username);
    var p := ValidatePassword(password);
    var errors :=
      (if u.Failure? then [u.error] else [])
      + (if emailVerdict.None? then [EmailInvalid] else [])
      + (if p.Failure? then [p.error] else []);
    if errors == [] then Success(UserCreate(username, emailVerdict.value, password))
    else Failure(errors)
  }

  /** `UserResponse.model_validate(user)`: the four public fields of a row. */
  function ToResponse(u: User): (r: UserResponse)
    ensures r.id == u.id && r.username == u.username && r.email == u.email && r.createdAt == u.createdAt
  {
    UserResponse(u.id, u.username, u.email, u.createdAt)
  }

  /** The response does not depend on the password hash or the update time. */
  lemma ResponseOmitsSecret(u: User, hash: string, updated: Timestamp)
    ensures ToResponse(u) == ToResponse(u.(passwordHash := hash, updatedAt := updated))
  {
  }

  /** Strings made only of `_` and `-` pass the pattern but are rejected. */
  lemma {:induction false} OnlySeparatorsRejected(v: string)
    requires UsernameMinLength <= |v| <= UsernameMaxLength
    requires forall i :: 0 <= i < |v| ==> v[i] == '_' || v[i] == '-'
    ensures MatchesUsernamePattern(v)
    ensures ValidateUsername(v) == Failure(UsernameNoAlphanumeric)
  {
    assert !HasAlnum(v) by {
      forall i | 0 <= i < |v| ensures !IsAlnum(v[i]) {
      }
    }
  }

  lemma UnderscoresRejected()
    ensures ValidateUsername("___") == Failure(UsernameNoAlphanumeric)
    ensures ValidateUsername("-_-") == Failure(UsernameNoAlphanumeric)
  {
    OnlySeparatorsRejected("___");
    OnlySeparatorsRejected("-_-");
  }

  /** The example request of the schema is accepted unchanged. */
  lemma ExampleAccepted()
    ensures ValidateUserCreate("john_doe", "john.doe@example.com", "SecurePass123", Some("john.doe@example.com"))
         == Success(UserCreate("john_doe", "john.doe@example.com", "SecurePass123"))
  {
    var u := "john_doe";
    assert IsLower(u[0]);
    var p := "SecurePass123";
    assert IsUpper(p[0]) && IsLower(p[1]) && IsDigit(p[10]);
  }

  /** An accepted username cannot contain `@`, so it never equals an email address. */
  lemma AcceptedUsernameHasNoAt(v: string)
    requires ValidateUsername(v).Success?
    ensures '@' !in v
  {
    forall i | 0 <= i < |v|
      ensures v[i] != '@'
    {
      assert IsUsernameChar(v[i]);
    }
  }
}
