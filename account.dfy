/**
 * `AccountController`: customer registration and cookie sign-in. BCrypt
 * hashing is salted and so not a function of the password: Register takes
 * the hash it stores as a value, and Login takes BCrypt's verification and
 * `Url.IsLocalUrl` as functions.
 */
module Account {
  import opened Wrappers
  import opened Text
  import opened Ordering
  import IdList
  import opened Store

  /** The four claims of the sign-in identity. */
  datatype Claims = Claims(nameIdentifier: string, email: string, name: string, role: string)

  /** The authentication cookie: its claims, whether it outlives the browser session, and when it expires. */
  datatype Cookie = Cookie(claims: Claims, isPersistent: bool, expiresAt: int)

  datatype Redirect = ToReturnUrl(url: string) | ToHomeIndex

  datatype LoginResult =
    | InvalidForm                                  // ModelState invalid: the form again
    | BadCredentials                               // the form again, with "wrong e-mail or password"
    | VerifyThrows                                 // BCrypt rejects the stored hash's format: an unhandled exception
    | SignedIn(cookie: Cookie, target: Redirect)

  const SecondsPerHour := 3600
  const SecondsPerWeek := 7 * 24 * SecondsPerHour

  /** `Users.Any(u => u.Email == email)` */
  predicate EmailTaken(users: map<int, User>, email: string)
  {
    exists id | id in users :: users[id].email == email
  }

  ghost predicate EmailsDistinct(users: map<int, User>)
  {
    forall i, j | i in users && j in users && i != j :: users[i].email != users[j].email
  }

  /** The customer row Register stores under `id`. */
  function NewCustomer(id: int, email: string, fullName: Option<string>, passwordHash: string, now: int): (u: User)
    ensures u.id == id && u.email == email && u.username == email && u.passwordHash == passwordHash
    ensures u.role == Some("Customer") && u.isActive && u.fullName == fullName && u.createdAt == Some(now)
  {
    User(id, email, passwordHash, true, fullName, Some("Customer"), Some(now), email)
  }

  function RegisterResult(users: map<int, User>, modelValid: bool, email: string): ActionResult
  {
    if !modelValid || EmailTaken(users, email) then RedisplayForm
    else RedirectToLogin
  }

  /** POST /Account/Register: a new active customer, unless the e-mail is already registered. */
  method Register(db: Database, modelValid: bool, email: string, fullName: Option<string>, passwordHash: string, now: int)
      returns (r: ActionResult)
    requires db.Valid()
    modifies db`users, db`userIdent
    ensures db.Valid()
    ensures r == RegisterResult(old(db.users), modelValid, email)
    ensures r == RedirectToLogin ==>
      && db.userIdent == old(db.userIdent) + 1
      && db.users == old(db.users)[db.userIdent := NewCustomer(db.userIdent, email, fullName, passwordHash, now)]
    ensures r != RedirectToLogin ==> db.users == old(db.users) && db.userIdent == old(db.userIdent)
    ensures EmailsDistinct(old(db.users)) ==> EmailsDistinct(db.users)
  {
    r := RegisterResult(db.users, modelValid, email);
    if r == RedirectToLogin {
      db.userIdent := db.userIdent + 1;
      db.users := db.users[db.userIdent := NewCustomer(db.userIdent, email, fullName, passwordHash, now)];
    }
  }

  /**
   * `Users.FirstOrDefault(u => u.Email == email)`. The query has no ORDER BY,
   * so SQL Server promises no particular row; the model assumes the scan of
   * the clustered primary key, which yields the matching row with the lowest ID.
   */
  function FindByEmail(users: map<int, User>, email: string): (r: Option<int>)
    ensures r.Some? ==> r.value in users && users[r.value].email == email
    ensures r.Some? ==> forall id | id in users && users[id].email == email :: r.value <= id
    ensures r.None? <==> !EmailTaken(users, email)
  {
    var matching := set id | id in users && users[id].email == email;
    assert forall id | id in users && users[id].email == email :: id in matching;
    if matching == {} then None else Some(Minimum(matching))
  }

  /** The identity a signed-in user gets. */
  function ClaimsOf(u: User): (c: Claims)
    ensures c.email == u.email
    ensures u.fullName.Some? ==> c.name == u.fullName.value
    ensures u.fullName.None? ==> c.name == u.email
    ensures u.role.Some? ==> c.role == u.role.value
    ensures u.role.None? ==> c.role == "Customer"
  {
    Claims(IntToString(u.id), u.email, u.fullName.GetOr(u.email), u.role.GetOr("Customer"))
  }

  /** Where to go after signing in: the return URL only when it is present and local. */
  function Target(returnUrl: Option<string>, isLocalUrl: string -> bool): (t: Redirect)
    ensures t.ToReturnUrl? <==> !IsNullOrWhiteSpace(returnUrl) && isLocalUrl(returnUrl.value)
    ensures t.ToReturnUrl? ==> t.url == returnUrl.value
  {
    if !IsNullOrWhiteSpace(returnUrl) && isLocalUrl(returnUrl.value) then ToReturnUrl(returnUrl.value)
    else ToHomeIndex
  }

  /**
   * BCrypt's `Verify` parses the stored hash as a salt, which must start
   * with the version prefix `$2`; any other hash makes it throw.
   */
  predicate HasBCryptPrefix(hash: string)
  {
    |hash| >= 2 && hash[0] == '$' && hash[1] == '2'
  }

  /** The stored hash lets `password` in: it is present, well-formed, and BCrypt accepts it. */
  predicate Accepts(hash: string, password: string, verify: (string, string) -> bool)
  {
    hash != "" && HasBCryptPrefix(hash) && verify(password, hash)
  }

  /**
   * POST /Account/Login at time `now` (seconds). `verify(password, hash)` is
   * BCrypt's check on a hash with the `$2` prefix.
   */
  function Login(users: map<int, User>, modelValid: bool, email: string, password: string, rememberMe: bool,
                 returnUrl: Option<string>, now: int,
                 verify: (string, string) -> bool, isLocalUrl: string -> bool): (r: LoginResult)
    ensures !modelValid ==> r == InvalidForm
    ensures modelValid && !EmailTaken(users, email) ==> r == BadCredentials
    ensures modelValid ==> r != InvalidForm
    ensures modelValid ==>
      (r.SignedIn? <==>
        && FindByEmail(users, email).Some?
        && Accepts(users[FindByEmail(users, email).value].passwordHash, password, verify))
    ensures r.VerifyThrows? <==>
      && modelValid
      && FindByEmail(users, email).Some?
      && var hash := users[FindByEmail(users, email).value].passwordHash;
         hash != "" && !HasBCryptPrefix(hash)
    ensures r.SignedIn? ==>
      && FindByEmail(users, email).Some?
      && r.cookie.claims == ClaimsOf(users[FindByEmail(users, email).value])
    ensures r.SignedIn? ==> r.cookie.isPersistent == rememberMe
    ensures r.SignedIn? ==> r.cookie.expiresAt == now + (if rememberMe then SecondsPerWeek else SecondsPerHour)
    ensures r.SignedIn? ==> r.target == Target(returnUrl, isLocalUrl)
  {
    if !modelValid then InvalidForm
    else
      match FindByEmail(users, email)
      case None => BadCredentials
      case Some(id) =>
        var u := users[id];
        if u.passwordHash == "" then BadCredentials
        else if !HasBCryptPrefix(u.passwordHash) then VerifyThrows
        else if !verify(password, u.passwordHash) then BadCredentials
        else
          var cookie := Cookie(ClaimsOf(u), rememberMe,
                               now + if rememberMe then SecondsPerWeek else SecondsPerHour);
          SignedIn(cookie, Target(returnUrl, isLocalUrl))
  }

  /**
   * When the e-mails are distinct, Login decides on the one user with that
   * e-mail: it signs in exactly when that user's hash is non-empty, has
   * BCrypt's prefix and verifies the password, and it throws exactly when
   * the hash is non-empty without that prefix.
   */
  lemma LoginDecidesOnTheOwner(users: map<int, User>, id: int, password: string, rememberMe: bool,
                               returnUrl: Option<string>, now: int,
                               verify: (string, string) -> bool, isLocalUrl: string -> bool)
    requires EmailsDistinct(users) && id in users
    ensures var r := Login(users, true, users[id].email, password, rememberMe, returnUrl, now, verify, isLocalUrl);
      && (r.SignedIn? <==> Accepts(users[id].passwordHash, password, verify))
      && (r.VerifyThrows? <==> users[id].passwordHash != "" && !HasBCryptPrefix(users[id].passwordHash))
      && (r.SignedIn? ==> r.cookie.claims == ClaimsOf(users[id]))
  {
    var f := FindByEmail(users, users[id].email);
    assert f == Some(id);
  }

  /** The NameIdentifier claim parses back to the user's ID, as later requests read it. */
  lemma NameIdentifierRoundTrip(u: User)
    requires IdList.MinInt32 <= u.id <= IdList.MaxInt32
    ensures IdList.TryParseInt32(ClaimsOf(u).nameIdentifier) == Some(u.id)
  {
    IdList.TryParseIntToString(u.id);
  }

  /**
   * A customer who has just registered through Register can sign in with
   * the password their hash was made from, and is given the Customer role.
   * `BCrypt.HashPassword` always yields a hash with the `$2` prefix.
   */
  lemma RegisteredCustomerCanSignIn(users: map<int, User>, id: int, email: string, fullName: Option<string>,
                                    password: string, passwordHash: string, rememberMe: bool,
                                    returnUrl: Option<string>, now: int, signInTime: int,
                                    verify: (string, string) -> bool, isLocalUrl: string -> bool)
    requires RegisterResult(users, true, email) == RedirectToLogin
    requires HasBCryptPrefix(passwordHash) && verify(password, passwordHash)
    ensures var users' := users[id := NewCustomer(id, email, fullName, passwordHash, now)];
      var r := Login(users', true, email, password, rememberMe, returnUrl, signInTime, verify, isLocalUrl);
      && r.SignedIn?
      && r.cookie.claims.role == "Customer"
      && r.cookie.claims.email == email
  {
    var users' := users[id := NewCustomer(id, email, fullName, passwordHash, now)];
    assert users'[id].email == email;
  }
}
