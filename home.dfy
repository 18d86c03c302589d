/**
 * `HomeController`'s registration form: hand-written field checks that
 * accumulate errors, then a user whose password is stored as the lowercase
 * hexadecimal SHA-256 digest. SHA-256 of the UTF-8 bytes and
 * `EmailAddressAttribute.IsValid` are taken as functions.
 */
module Home {
  import opened Wrappers
  import opened Text
  import opened Store
  import Account

  newtype byte = x: int | 0 <= x < 256

  /** The model-state errors the form can collect, one per check. */
  datatype RegistrationError =
    | FirstNameRequired
    | LastNameRequired
    | EmailRequired
    | EmailInvalid
    | PasswordRequired
    | PasswordTooShort
    | PasswordMismatch

  const MinPasswordLength := 6

  function RequiredError(s: Option<string>, e: RegistrationError): (r: seq<RegistrationError>)
    ensures r == [] || r == [e]
    ensures r == [e] <==> IsNullOrWhiteSpace(s)
  {
    if IsNullOrWhiteSpace(s) then [e] else []
  }

  function EmailErrors(email: Option<string>, isValidEmail: string -> bool): (r: seq<RegistrationError>)
    ensures r == [] <==> !IsNullOrWhiteSpace(email) && isValidEmail(email.value)
    ensures r == [EmailInvalid] <==> !IsNullOrWhiteSpace(email) && !isValidEmail(email.value)
  {
    if IsNullOrWhiteSpace(email) then [EmailRequired]
    else if !isValidEmail(email.value) then [EmailInvalid]
    else []
  }

  function PasswordErrors(password: Option<string>): (r: seq<RegistrationError>)
    ensures r == [] <==> !IsNullOrWhiteSpace(password) && |password.value| >= MinPasswordLength
    ensures r == [PasswordTooShort] <==> !IsNullOrWhiteSpace(password) && |password.value| < MinPasswordLength
  {
    if IsNullOrWhiteSpace(password) then [PasswordRequired]
    else if |password.value| < MinPasswordLength then [PasswordTooShort]
    else []
  }

  /** Every error the form collects, in the order the checks run. */
  function RegistrationErrors(firstName: Option<string>, lastName: Option<string>, email: Option<string>,
                              password: Option<string>, confirmPassword: Option<string>,
                              isValidEmail: string -> bool): seq<RegistrationError>
  {
    RequiredError(firstName, FirstNameRequired) + RequiredError(lastName, LastNameRequired)
      + EmailErrors(email, isValidEmail) + PasswordErrors(password)
      + (if password != confirmPassword then [PasswordMismatch] else [])
  }

  /** Each "required" error is collected exactly when its field is null or blank, and a mismatch exactly when the passwords differ. */
  lemma RegistrationErrorCauses(firstName: Option<string>, lastName: Option<string>, email: Option<string>,
                                password: Option<string>, confirmPassword: Option<string>,
                                isValidEmail: string -> bool)
    ensures var errors := RegistrationErrors(firstName, lastName, email, password, confirmPassword, isValidEmail);
      && (FirstNameRequired in errors <==> IsNullOrWhiteSpace(firstName))
      && (LastNameRequired in errors <==> IsNullOrWhiteSpace(lastName))
      && (EmailRequired in errors <==> IsNullOrWhiteSpace(email))
      && (PasswordRequired in errors <==> IsNullOrWhiteSpace(password))
      && (PasswordMismatch in errors <==> password != confirmPassword)
  {
    var a := RequiredError(firstName, FirstNameRequired);
    var b := RequiredError(lastName, LastNameRequired);
    var c := EmailErrors(email, isValidEmail);
    var d := PasswordErrors(password);
    var e: seq<RegistrationError> := if password != confirmPassword then [PasswordMismatch] else [];
    assert RegistrationErrors(firstName, lastName, email, password, confirmPassword, isValidEmail) == a + b + c + d + e;
    assert EmailRequired in c <==> IsNullOrWhiteSpace(email);
    assert PasswordRequired in d <==> IsNullOrWhiteSpace(password);
  }

  /** The form is accepted exactly when every field passes its check. */
  lemma RegistrationAccepted(firstName: Option<string>, lastName: Option<string>, email: Option<string>,
                             password: Option<string>, confirmPassword: Option<string>,
                             isValidEmail: string -> bool)
    ensures RegistrationErrors(firstName, lastName, email, password, confirmPassword, isValidEmail) == [] <==>
      && !IsNullOrWhiteSpace(firstName) && !IsNullOrWhiteSpace(lastName)
      && !IsNullOrWhiteSpace(email) && isValidEmail(email.value)
      && !IsNullOrWhiteSpace(password) && |password.value| >= MinPasswordLength
      && password == confirmPassword
  {
    var a := RequiredError(firstName, FirstNameRequired);
    var b := RequiredError(lastName, LastNameRequired);
    var c := EmailErrors(email, isValidEmail);
    var d := PasswordErrors(password);
    var e: seq<RegistrationError> := if password != confirmPassword then [PasswordMismatch] else [];
    assert RegistrationErrors(firstName, lastName, email, password, confirmPassword, isValidEmail) == a + b + c + d + e;
    assert |a + b + c + d + e| == |a| + |b| + |c| + |d| + |e|;
  }

  /** An accepted form has every field present. */
  lemma AcceptedFormIsComplete(firstName: Option<string>, lastName: Option<string>, email: Option<string>,
                               password: Option<string>, confirmPassword: Option<string>,
                               isValidEmail: string -> bool)
    requires RegistrationErrors(firstName, lastName, email, password, confirmPassword, isValidEmail) == []
    ensures firstName.Some? && lastName.Some? && email.Some? && password.Some? && confirmPassword.Some?
  {
    RegistrationAccepted(firstName, lastName, email, password, confirmPassword, isValidEmail);
  }

  /**
   * The password checks pass exactly for a non-blank password of at least six
   * characters that equals its confirmation: six blanks are still "required".
   */
  lemma PasswordChecksPass(firstName: Option<string>, lastName: Option<string>, email: Option<string>,
                           password: Option<string>, confirmPassword: Option<string>,
                           isValidEmail: string -> bool)
    ensures var errors := RegistrationErrors(firstName, lastName, email, password, confirmPassword, isValidEmail);
      (PasswordRequired !in errors && PasswordTooShort !in errors && PasswordMismatch !in errors) <==>
      (!IsNullOrWhiteSpace(password) && |password.value| >= MinPasswordLength && password == confirmPassword)
  {
    var errors := RegistrationErrors(firstName, lastName, email, password, confirmPassword, isValidEmail);
    var head := RequiredError(firstName, FirstNameRequired) + RequiredError(lastName, LastNameRequired)
      + EmailErrors(email, isValidEmail);
    assert PasswordRequired !in head && PasswordTooShort !in head;
    var d := PasswordErrors(password);
    var e: seq<RegistrationError> := if password != confirmPassword then [PasswordMismatch] else [];
    assert errors == head + d + e;
    assert PasswordRequired in errors <==> PasswordRequired in d;
    assert PasswordTooShort in errors <==> PasswordTooShort in d;
  }

  /** `b.ToString("x2")` digit by digit: 0-9 then lowercase a-f. */
  function HexDigit(n: int): (c: char)
    requires 0 <= n < 16
    ensures IsHexChar(c)
  {
    if n < 10 then '0' + n as char else 'a' + (n - 10) as char
  }

  predicate IsHexChar(c: char)
  {
    '0' <= c <= '9' || 'a' <= c <= 'f'
  }

  function HexValue(c: char): (n: int)
    requires IsHexChar(c)
    ensures 0 <= n < 16 && HexDigit(n) == c
  {
    if c <= '9' then (c - '0') as int else (c - 'a') as int + 10
  }

  function HexByte(b: byte): (s: string)
    ensures |s| == 2 && IsHexChar(s[0]) && IsHexChar(s[1])
  {
    [HexDigit(b as int / 16), HexDigit(b as int % 16)]
  }

  /** The digest written as two lowercase hexadecimal digits per byte. */
  function HexEncode(digest: seq<byte>): string
  {
    if digest == [] then []
    else HexEncode(digest[..|digest| - 1]) + HexByte(digest[|digest| - 1])
  }

  /** An even number of lowercase hexadecimal digits. */
  predicate IsHexString(s: string)
  {
    |s| % 2 == 0 && forall i :: 0 <= i < |s| ==> IsHexChar(s[i])
  }

  lemma {:induction false} HexEncodeShape(digest: seq<byte>)
    ensures |HexEncode(digest)| == 2 * |digest|
    ensures IsHexString(HexEncode(digest))
  {
    if digest != [] {
      HexEncodeShape(digest[..|digest| - 1]);
    }
  }

  function HexDecode(s: string): (d: seq<byte>)
    requires IsHexString(s)
    ensures |d| == |s| / 2
  {
    if s == [] then []
    else HexDecode(s[..|s| - 2]) + [(HexValue(s[|s| - 2]) * 16 + HexValue(s[|s| - 1])) as byte]
  }

  /** The encoding of a non-empty digest ends with the two digits of its last byte. */
  lemma HexEncodeLast(digest: seq<byte>)
    requires digest != []
    ensures var s := HexEncode(digest);
      && |s| >= 2
      && s[..|s| - 2] == HexEncode(digest[..|digest| - 1])
      && s[|s| - 2..] == HexByte(digest[|digest| - 1])
  {
    HexEncodeShape(digest);
  }

  lemma HexByteValue(b: byte)
    ensures var s := HexByte(b); (HexValue(s[0]) * 16 + HexValue(s[1])) as byte == b
  {
  }

  /** The stored hash gives back the digest it was made from. */
  lemma {:induction false} HexRoundTrip(digest: seq<byte>)
    ensures IsHexString(HexEncode(digest))
    ensures HexDecode(HexEncode(digest)) == digest
  {
    HexEncodeShape(digest);
    if digest != [] {
      var init := digest[..|digest| - 1];
      var b := digest[|digest| - 1];
      var s := HexEncode(digest);
      HexEncodeLast(digest);
      HexRoundTrip(init);
      HexByteValue(b);
      assert s[|s| - 2] == HexByte(b)[0] && s[|s| - 1] == HexByte(b)[1];
      assert HexDecode(s) == HexDecode(s[..|s| - 2]) + [(HexValue(s[|s| - 2]) * 16 + HexValue(s[|s| - 1])) as byte];
      assert init + [b] == digest;
    }
  }

  /** `HashPassword`: the digest's bytes appended to a builder one at a time. */
  method HashPassword(password: string, sha256: string -> seq<byte>) returns (hex: string)
    ensures hex == HexEncode(sha256(password))
    ensures |hex| == 2 * |sha256(password)|
  {
    var digest := sha256(password);
    hex := [];
    for i := 0 to |digest|
      invariant hex == HexEncode(digest[..i])
    {
      assert digest[..i + 1][..i] == digest[..i];
      hex := hex + HexByte(digest[i]);
    }
    assert digest[..|digest|] == digest;
    HexEncodeShape(digest);
  }

  /** The hand-written checks, each adding its error to ModelState in turn. */
  method Validate(firstName: Option<string>, lastName: Option<string>, email: Option<string>,
                  password: Option<string>, confirmPassword: Option<string>,
                  isValidEmail: string -> bool) returns (errors: seq<RegistrationError>)
    ensures errors == RegistrationErrors(firstName, lastName, email, password, confirmPassword, isValidEmail)
  {
    errors := [];
    if IsNullOrWhiteSpace(firstName) { errors := errors + [FirstNameRequired]; }
    assert errors == RequiredError(firstName, FirstNameRequired);
    ghost var upTo := errors;
    if IsNullOrWhiteSpace(lastName) { errors := errors + [LastNameRequired]; }
    assert errors == upTo + RequiredError(lastName, LastNameRequired);
    upTo := errors;
    if IsNullOrWhiteSpace(email) {
      errors := errors + [EmailRequired];
    } else if !isValidEmail(email.value) {
      errors := errors + [EmailInvalid];
    }
    assert errors == upTo + EmailErrors(email, isValidEmail);
    upTo := errors;
    if IsNullOrWhiteSpace(password) {
      errors := errors + [PasswordRequired];
    } else if |password.value| < MinPasswordLength {
      errors := errors + [PasswordTooShort];
    }
    assert errors == upTo + PasswordErrors(password);
    upTo := errors;
    if password != confirmPassword { errors := errors + [PasswordMismatch]; }
  }

  /** The row Register adds: e-mail trimmed and used as user name, "last first" as the full name, no role. */
  function NewUser(id: int, firstName: string, lastName: string, email: string, passwordHash: string, now: int): (u: User)
    ensures u.id == id && u.email == Trim(email) && u.username == u.email
    ensures u.fullName == Some(Trim(lastName + " " + firstName))
    ensures u.passwordHash == passwordHash && u.isActive && u.role.None? && u.createdAt == Some(now)
  {
    User(id, Trim(email), passwordHash, true, Some(Trim(lastName + " " + firstName)), None, Some(now), Trim(email))
  }

  /** `Users.Add(user)` then `SaveChanges`: the identity column gives the row the next ID. */
  method AddUser(db: Database, u: User)
    requires db.Valid() && u.id == db.userIdent + 1
    modifies db`users, db`userIdent
    ensures db.Valid()
    ensures db.userIdent == old(db.userIdent) + 1 && db.users == old(db.users)[db.userIdent := u]
  {
    db.userIdent := db.userIdent + 1;
    db.users := db.users[db.userIdent := u];
  }

  /**
   * POST /Home/Register at time `now`. Missing form fields arrive as null.
   * Returns the answer and the errors collected in ModelState.
   */
  method Register(db: Database, firstName: Option<string>, lastName: Option<string>, email: Option<string>,
                  password: Option<string>, confirmPassword: Option<string>, now: int,
                  isValidEmail: string -> bool, sha256: string -> seq<byte>)
      returns (r: ActionResult, errors: seq<RegistrationError>)
    requires db.Valid()
    modifies db`users, db`userIdent
    ensures db.Valid()
    ensures errors == RegistrationErrors(firstName, lastName, email, password, confirmPassword, isValidEmail)
    ensures errors != [] ==>
      r == RedisplayForm && db.users == old(db.users) && db.userIdent == old(db.userIdent)
    ensures errors == [] ==>
      && r == RedirectToLogin
      && firstName.Some? && lastName.Some? && email.Some? && password.Some?
      && db.userIdent == old(db.userIdent) + 1
      && db.users == old(db.users)[db.userIdent :=
           NewUser(db.userIdent, firstName.value, lastName.value, email.value,
                   HexEncode(sha256(password.value)), now)]
  {
    errors := Validate(firstName, lastName, email, password, confirmPassword, isValidEmail);
    if errors != [] {
      return RedisplayForm, errors;
    }

    AcceptedFormIsComplete(firstName, lastName, email, password, confirmPassword, isValidEmail);
    var hash := HashPassword(password.value, sha256);
    AddUser(db, NewUser(db.userIdent + 1, firstName.value, lastName.value, email.value, hash, now));
    r := RedirectToLogin;
  }

  /**
   * Register does not look for the e-mail among the users: a second
   * registration with an e-mail already stored leaves two users sharing it.
   */
  lemma RepeatedRegistrationDuplicatesEmail(users: map<int, User>, id: int, u: User)
    requires id !in users && Account.EmailTaken(users, u.email)
    ensures !Account.EmailsDistinct(users[id := u])
  {
    var other :| other in users && users[other].email == u.email;
    assert other != id;
    assert users[id := u][other].email == users[id := u][id].email;
  }
  /**
   * A user stored by this Register holds a hex digest, never a BCrypt hash:
   * Account's Login, whose BCrypt check cannot parse it, throws for that
   * user whatever password is given.
   */
  lemma HexHashedUserCannotSignIn(users: map<int, User>, id: int, firstName: string, lastName: string,
                                  email: string, digest: seq<byte>, now: int,
                                  password: string, rememberMe: bool, returnUrl: Option<string>, signInTime: int,
                                  verify: (string, string) -> bool, isLocalUrl: string -> bool)
    requires |digest| == 32
    requires id in users && users[id] == NewUser(id, firstName, lastName, email, HexEncode(digest), now)
    requires Account.EmailsDistinct(users)
    ensures Account.Login(users, true, users[id].email, password, rememberMe, returnUrl, signInTime,
                          verify, isLocalUrl) == Account.VerifyThrows
  {
    HexHashLacksBCryptPrefix(digest);
    assert users[id].passwordHash == HexEncode(digest);
    Account.LoginDecidesOnTheOwner(users, id, password, rememberMe, returnUrl, signInTime, verify, isLocalUrl);
  }

  /** A hex digest starts with a hexadecimal digit, never with BCrypt's `$`. */
  lemma HexHashLacksBCryptPrefix(digest: seq<byte>)
    requires digest != []
    ensures HexEncode(digest) != "" && !Account.HasBCryptPrefix(HexEncode(digest))
  {
    var hash := HexEncode(digest);
    HexEncodeShape(digest);
    assert IsHexChar(hash[0]);
  }
}
