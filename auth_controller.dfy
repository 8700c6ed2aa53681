/** The authentication handlers: registration, login, logout and token refresh.
    bcrypt is an oracle (the caller supplies the hash of the new password, and a
    comparison function for login), and so is `jwt.sign` (a function from claims
    to token text). */
module AuthController {
  import opened Common
  import opened Store
  import opened AuthMiddleware
  import opened ReferralCodes

  /** The columns the registration handler reads back after the insert. */
  datatype NewUser = NewUser(id: Id, email: string, name: string, phone: Option<string>, bio: Option<string>,
                             role: string, points: int, referralCode: string)

  datatype Registered = Registered(message: string, user: NewUser, token: string)

  /** A stored row without its password column, as the login reply sends it. */
  datatype Account = Account(id: Id, email: string, name: string, phone: Option<string>, bio: Option<string>,
                             avatarUrl: Option<string>, role: string, referralCode: string, points: int,
                             isBanned: bool, createdAt: nat)

  datatype LoggedIn = LoggedIn(message: string, user: Account, token: string)

  datatype Refreshed = Refreshed(message: string, token: string)

  const EmailTaken: string := "User with this email already exists"
  const BadCredentials: string := "Invalid email or password"

  function AccountOf(u: User): Account {
    Account(u.id, u.email, u.name, u.phone, u.bio, u.avatarUrl, u.role, u.referralCode, u.points, u.isBanned,
            u.createdAt)
  }

  predicate EmailInUse(users: seq<User>, email: string) {
    exists k :: 0 <= k < |users| && users[k].email == email
  }

  /** The row registration inserts. */
  function Newcomer(userId: Id, email: string, name: string, hashed: string, phone: Option<string>,
                    bio: Option<string>, code: string, clock: nat): (u: User)
    ensures u.id == userId && u.email == email && u.createdAt == clock
    ensures u.role == "user" && u.points == 0 && !u.isBanned && u.avatarUrl.None?
    ensures u.phone.Some? <==> Truthy(phone)
    ensures u.bio.Some? <==> Truthy(bio)
  {
    User(userId, email, name, hashed, NullIfEmpty(phone), NullIfEmpty(bio), None, "user", code, 0, false, clock)
  }

  /** `registerUser`: 400 when the email is taken; otherwise a user with role
      `user`, 0 points, a fresh id and a generated referral code is appended,
      and a token for (id, `user`) is issued. */
  method RegisterUser(db: Database, email: string, name: string, hashed: string, phone: Option<string>,
                      bio: Option<string>, userId: Id, draws: seq<real>, sign: Claims -> string)
    returns (r: Reply<Registered>)
    requires db.Valid()
    requires FreshUserId(db.users, db.history, userId)
    requires ValidDraws(draws)
    modifies db
    ensures db.Valid()
    ensures db.listings == old(db.listings) && db.history == old(db.history) && db.swaps == old(db.swaps)
    ensures EmailInUse(old(db.users), email) ==>
              r == Fail(400, EmailTaken) && db.users == old(db.users) && db.clock == old(db.clock)
    ensures !EmailInUse(old(db.users), email) ==>
              && db.users == old(db.users) + [Newcomer(userId, email, name, hashed, phone, bio,
                                                       CodeFromDraws(draws), old(db.clock))]
              && db.clock == old(db.clock) + 1
              && r == Ok(201, Registered("User registered successfully",
                                         NewUser(userId, email, name, NullIfEmpty(phone), NullIfEmpty(bio),
                                                 "user", 0, CodeFromDraws(draws)),
                                         sign(Claims(userId, "user"))))
  {
    // SELECT id FROM user_profiles WHERE email = ?
    if First(db.users, (u: User) => u.email == email).Some? {
      return Fail(400, EmailTaken);
    }
    var code := GenerateReferralCode(draws);
    var user := Newcomer(userId, email, name, hashed, phone, bio, code, db.clock);
    UserInsertKeepsInvariant(db.users, db.listings, db.history, db.swaps, db.clock, user);
    db.Commit(db.users + [user], db.listings, db.history, db.swaps, db.clock + 1);

    // SELECT id, email, name, phone, bio, role, points, referral_code ... WHERE id = ?
    var view := NewUser(user.id, user.email, user.name, user.phone, user.bio, user.role, user.points,
                        user.referralCode);
    r := Ok(201, Registered("User registered successfully", view, sign(Claims(userId, "user"))));
  }

  /** `loginUser`: the first row with that email, if the password matches its
      hash; both failures give the same 401, so the reply does not tell an
      unknown email from a wrong password. */
  function LoginUser(users: seq<User>, email: string, password: string,
                     compare: (string, string) -> bool, sign: Claims -> string): (r: Reply<LoggedIn>)
    ensures r.Fail? ==> r == Fail(401, BadCredentials)
    ensures r.Ok? ==>
              exists k :: 0 <= k < |users| && users[k].email == email && compare(password, users[k].password)
                          && r == Ok(200, LoggedIn("Login successful", AccountOf(users[k]),
                                                   sign(Claims(users[k].id, users[k].role))))
    ensures !EmailInUse(users, email) ==> r.Fail?
  {
    match First(users, (u: User) => u.email == email)
    case None => Fail(401, BadCredentials)
    case Some(k) =>
      if !compare(password, users[k].password) then Fail(401, BadCredentials)
      else Ok(200, LoggedIn("Login successful", AccountOf(users[k]), sign(Claims(users[k].id, users[k].role))))
  }

  /** With unique emails, login succeeds exactly when the password matches the
      hash stored for that email. */
  lemma LoginSucceedsIffPasswordMatches(users: seq<User>, email: string, password: string,
                                        compare: (string, string) -> bool, sign: Claims -> string, k: nat)
    requires UniqueEmails(users)
    requires k < |users| && users[k].email == email
    ensures LoginUser(users, email, password, compare, sign).Ok? <==> compare(password, users[k].password)
  {
    var j := First(users, (u: User) => u.email == email).value;
    assert users[j].email == email;
  }

  /** `logoutUser`: tokens are stateless, so there is nothing to undo; it
      always answers 200 and takes no state. */
  function LogoutUser(): (r: Reply<string>)
    ensures r.Ok? && r.status == 200
  {
    Ok(200, "Logged out successfully")
  }

  /** `refreshToken`: a new token for the authenticated caller's id and stored role. */
  function RefreshToken(caller: RequestUser, sign: Claims -> string): (r: Reply<Refreshed>)
    ensures r.Ok? && r.status == 200 && r.body.token == sign(Claims(caller.id, caller.role))
  {
    Ok(200, Refreshed("Token refreshed successfully", sign(Claims(caller.id, caller.role))))
  }

  /** A token from a successful login, sent back as "Bearer " + token,
      authenticates as the same row, provided the token verifies to what was
      signed and is not empty. */
  lemma LoginThenAuthenticate(users: seq<User>, email: string, password: string,
                              compare: (string, string) -> bool, sign: Claims -> string,
                              verify: string -> Option<Claims>)
    requires UniqueUserIds(users)
    requires forall c :: sign(c) != "" && verify(sign(c)) == Some(c)
    requires LoginUser(users, email, password, compare, sign).Ok?
    ensures var login := LoginUser(users, email, password, compare, sign);
            var auth := Authenticate(Some(BearerPrefix + login.body.token), verify, users);
            && auth.Pass?
            && auth.user.id == login.body.user.id
            && auth.user.role == login.body.user.role
            && auth.user.points == login.body.user.points
  {
    var login := LoginUser(users, email, password, compare, sign);
    var k :| 0 <= k < |users| && users[k].email == email && compare(password, users[k].password)
             && login == Ok(200, LoggedIn("Login successful", AccountOf(users[k]),
                                          sign(Claims(users[k].id, users[k].role))));
    BearerHeaderYieldsToken(login.body.token);
    var j := First(users, HasId(users[k].id)).value;
    assert users[j].id == users[k].id;
  }

  /** Refreshing the token of an authenticated request gives a token that
      verifies to the caller's id and current stored role, which may differ from
      the role in the token that was presented. */
  lemma RefreshCarriesStoredRole(header: Option<string>, users: seq<User>, sign: Claims -> string,
                                 verify: string -> Option<Claims>)
    requires forall c :: verify(sign(c)) == Some(c)
    requires Authenticate(header, verify, users).Pass?
    ensures var caller := Authenticate(header, verify, users).user;
            && verify(RefreshToken(caller, sign).body.token) == Some(Claims(caller.id, caller.role))
            && exists k :: 0 <= k < |users| && users[k].id == caller.id && users[k].role == caller.role
  {
  }
}
