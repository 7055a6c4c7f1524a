/** Accounts and refresh tokens: registration with unique usernames and e-mail addresses,
    login, the refresh-token expiry/revocation state machine, refresh and logout.
    Password hashing, JWT minting, UUID generation and the authentication manager are
    parameters; every `@Transactional` operation that fails leaves the state as it was. */
module Auth {
  import opened Wrappers
  import opened Domain
  import opened Errors

  const RoleUser := "ROLE_USER"
  /** The refresh duration used when `jwt.refresh.expiration` is set to an empty value (the
      injected duration is then null); a missing property stops the application at startup. */
  const DefaultRefreshMillis: int := 3_600_000

  const UsernameTakenMessage := "Username already taken"
  const EmailInUseMessage := "Email already in use"
  const ExpiredMessage := "Refresh token was expired. Please make a new signin request"
  const RevokedMessage := "Refresh token has been revoked"
  const UnknownTokenMessage := "Refresh token is not in database!"

  function UserNotFound(username: string): Error {
    Unexpected("User not found: " + username)
  }

  datatype User = User(id: UserId, username: string, email: string, password: string, roles: set<string>)

  datatype RefreshToken = RefreshToken(token: string, userId: UserId, expiryDate: Time, revoked: bool)

  /** The user, role and refresh-token tables. Tokens are keyed by their token string,
      roles are identified by name. */
  datatype State = State(
    users: map<UserId, User>,
    roles: set<string>,
    tokens: map<string, RefreshToken>,
    nextUserId: UserId)

  datatype RegisterRequest = RegisterRequest(username: string, email: string, password: string)
  datatype LoginRequest = LoginRequest(username: string, password: string)
  datatype AuthResponse = AuthResponse(accessToken: string, refreshToken: string)

  predicate UniqueUsernames(users: map<UserId, User>) {
    forall a, b :: a in users && b in users && users[a].username == users[b].username ==> a == b
  }

  predicate UniqueEmails(users: map<UserId, User>) {
    forall a, b :: a in users && b in users && users[a].email == users[b].email ==> a == b
  }

  /** Each user is stored under its own id, below the next id to hand out; usernames and
      e-mail addresses are unique; every token is stored under its own string and belongs
      to an existing user. */
  predicate Valid(s: State) {
    && (forall id :: id in s.users ==> s.users[id].id == id && id < s.nextUserId)
    && UniqueUsernames(s.users)
    && UniqueEmails(s.users)
    && (forall k :: k in s.tokens ==> s.tokens[k].token == k && s.tokens[k].userId in s.users)
  }

  predicate UsernameExists(s: State, username: string) {
    exists id :: id in s.users && s.users[id].username == username
  }

  predicate EmailExists(s: State, email: string) {
    exists id :: id in s.users && s.users[id].email == email
  }

  /** `findByUsername`: the id of the one user with that name. */
  function FindByUsername(s: State, username: string): (r: Option<UserId>)
    requires Valid(s)
    ensures r.Some? <==> UsernameExists(s, username)
    ensures r.Some? ==> r.value in s.users && s.users[r.value].username == username
  {
    if UsernameExists(s, username) then
      var id :| id in s.users && s.users[id].username == username;
      Some(id)
    else
      None
  }

  // ---------------------------------------------------------------------------
  // Registration
  // ---------------------------------------------------------------------------

  /** `register`: the username is checked before the e-mail address; on success exactly
      one user is added, with the encoded password and the ROLE_USER role, which is
      created when absent and reused otherwise. */
  function Register(s: State, request: RegisterRequest, encode: string -> string): (r: Result<State, Error>)
    requires Valid(s)
    ensures UsernameExists(s, request.username) ==> r == Failure(IllegalArgument(UsernameTakenMessage))
    ensures !UsernameExists(s, request.username) && EmailExists(s, request.email) ==>
      r == Failure(IllegalArgument(EmailInUseMessage))
    ensures r.Success? <==> !UsernameExists(s, request.username) && !EmailExists(s, request.email)
    ensures r.Success? ==>
      && Valid(r.value)
      && r.value.users.Keys == s.users.Keys + {s.nextUserId}
      && s.nextUserId !in s.users
      && r.value.users[s.nextUserId] ==
           User(s.nextUserId, request.username, request.email, encode(request.password), {RoleUser})
      && (forall id :: id in s.users ==> r.value.users[id] == s.users[id])
      && r.value.roles == s.roles + {RoleUser}
      && r.value.tokens == s.tokens
  {
    if UsernameExists(s, request.username) then
      Failure(IllegalArgument(UsernameTakenMessage))
    else if EmailExists(s, request.email) then
      Failure(IllegalArgument(EmailInUseMessage))
    else
      var user := User(s.nextUserId, request.username, request.email, encode(request.password), {RoleUser});
      Success(s.(users := s.users[s.nextUserId := user], roles := s.roles + {RoleUser},
                 nextUserId := s.nextUserId + 1))
  }

  /** Registering the same username, or the same e-mail address, a second time fails. */
  lemma RegisterTwiceFails(s: State, first: RegisterRequest, second: RegisterRequest, encode: string -> string)
    requires Valid(s) && Register(s, first, encode).Success?
    requires second.username == first.username || second.email == first.email
    ensures Register(Register(s, first, encode).value, second, encode).Failure?
    ensures Register(Register(s, first, encode).value, second, encode).error.IllegalArgument?
  {
    var s1 := Register(s, first, encode).value;
    assert s1.users[s.nextUserId].username == first.username;
    assert s1.users[s.nextUserId].email == first.email;
  }

  /** The role table never holds ROLE_USER twice: a second registration reuses it. */
  lemma RoleReused(s: State, first: RegisterRequest, second: RegisterRequest, encode: string -> string)
    requires Valid(s) && Register(s, first, encode).Success?
    requires Register(Register(s, first, encode).value, second, encode).Success?
    ensures Register(Register(s, first, encode).value, second, encode).value.roles ==
            Register(s, first, encode).value.roles
  {
  }

  // ---------------------------------------------------------------------------
  // Refresh tokens
  // ---------------------------------------------------------------------------

  /** `createRefreshToken`: a token for the named user, expiring `duration` (by default an
      hour) from now, not revoked. `uuid` is the freshly generated token string. */
  function CreateRefreshToken(s: State, username: string, duration: Option<int>, uuid: string, now: Time)
    : (r: Result<(State, RefreshToken), Error>)
    requires Valid(s) && uuid !in s.tokens
    ensures r.Failure? <==> !UsernameExists(s, username)
    ensures r.Failure? ==> r.error == UserNotFound(username)
    ensures r.Success? ==>
      var (s', t) := r.value;
      && Valid(s')
      && t.userId in s.users && s.users[t.userId].username == username
      && t.token == uuid && !t.revoked
      && t.expiryDate == now + duration.GetOr(DefaultRefreshMillis)
      && s' == s.(tokens := s.tokens[uuid := t])
  {
    match FindByUsername(s, username)
    case None => Failure(UserNotFound(username))
    case Some(id) =>
      var t := RefreshToken(uuid, id, now + duration.GetOr(DefaultRefreshMillis), false);
      Success((s.(tokens := s.tokens[uuid := t]), t))
  }

  /** `verifyExpiration`: a token that expired strictly before now is deleted and rejected
      (even when it is also revoked); a revoked one is rejected and kept; any other token
      is returned unchanged. The store change is returned alongside the outcome: whether
      it survives is up to the enclosing transaction. */
  function VerifyExpiration(s: State, t: RefreshToken, now: Time): (r: (State, Result<RefreshToken, Error>))
    ensures t.expiryDate < now ==>
      r == (s.(tokens := s.tokens - {t.token}), Failure(TokenError(ExpiredMessage)))
    ensures t.expiryDate >= now && t.revoked ==> r == (s, Failure(TokenError(RevokedMessage)))
    ensures r.1.Success? <==> t.expiryDate >= now && !t.revoked
    ensures r.1.Success? ==> r == (s, Success(t))
  {
    if t.expiryDate < now then
      (s.(tokens := s.tokens - {t.token}), Failure(TokenError(ExpiredMessage)))
    else if t.revoked then
      (s, Failure(TokenError(RevokedMessage)))
    else
      (s, Success(t))
  }

  /** The tokens of every user other than `userId`. */
  function TokensNotOf(tokens: map<string, RefreshToken>, userId: UserId): (r: map<string, RefreshToken>)
    ensures forall k :: k in r <==> k in tokens && tokens[k].userId != userId
    ensures forall k :: k in r ==> r[k] == tokens[k]
  {
    map k | k in tokens && tokens[k].userId != userId :: tokens[k]
  }

  /** `deleteByUserId`: every token of an existing user is deleted, nothing else. */
  function DeleteByUserId(s: State, userId: UserId): (r: Result<State, Error>)
    requires Valid(s)
    ensures r.Failure? <==> userId !in s.users
    ensures r.Failure? ==> r.error == Unexpected("User not found")
    ensures r.Success? ==>
      && Valid(r.value)
      && r.value.users == s.users && r.value.roles == s.roles
      && (forall k :: k in r.value.tokens ==> r.value.tokens[k].userId != userId)
      && (forall k :: k in s.tokens && s.tokens[k].userId != userId ==>
            k in r.value.tokens && r.value.tokens[k] == s.tokens[k])
  {
    if userId !in s.users then Failure(Unexpected("User not found"))
    else Success(s.(tokens := TokensNotOf(s.tokens, userId)))
  }

  /** `revokeAllUserTokens`: despite its name, it deletes the tokens rather than flagging
      them revoked. */
  function RevokeAllUserTokens(s: State, userId: UserId): (r: Result<State, Error>)
    requires Valid(s)
    ensures r.Failure? <==> userId !in s.users
    ensures r.Success? ==> forall k :: k in s.tokens && s.tokens[k].userId == userId ==> k !in r.value.tokens
  {
    if userId !in s.users then Failure(Unexpected("User not found"))
    else Success(s.(tokens := TokensNotOf(s.tokens, userId)))
  }

  /** Revoking and deleting a user's tokens are the same operation. */
  lemma RevokeIsDelete(s: State, userId: UserId)
    requires Valid(s)
    ensures RevokeAllUserTokens(s, userId) == DeleteByUserId(s, userId)
  {
  }

  // ---------------------------------------------------------------------------
  // Login, refresh, logout
  // ---------------------------------------------------------------------------

  /** A transaction: the new state is kept when the operation succeeds and dropped when
      it throws. */
  function Commit<T>(s: State, outcome: (State, Result<T, Error>)): (r: (State, Result<T, Error>))
    ensures r.1 == outcome.1
    ensures r.0 == (if outcome.1.Success? then outcome.0 else s)
  {
    if outcome.1.Success? then outcome else (s, outcome.1)
  }

  /** `login`: `authenticated` is the user name the authentication manager vouches for
      (`None` for bad credentials); `mint` signs an access token for a name and its
      authorities. */
  function Login(s: State, request: LoginRequest, authenticated: Option<string>,
                 mint: (string, set<string>) -> string, duration: Option<int>, uuid: string, now: Time)
    : (r: (State, Result<AuthResponse, Error>))
    requires Valid(s) && uuid !in s.tokens
    ensures authenticated.None? ==> r == (s, Failure(BadCredentials(BadCredentialsMessage)))
    ensures authenticated.Some? && !UsernameExists(s, authenticated.value) ==>
      r == (s, Failure(UserNotFound(authenticated.value)))
    ensures r.1.Success? <==> authenticated.Some? && UsernameExists(s, authenticated.value)
    ensures r.1.Success? ==>
      && Valid(r.0)
      && r.1.value.refreshToken == uuid
      && uuid in r.0.tokens && r.0.tokens[uuid].expiryDate == now + duration.GetOr(DefaultRefreshMillis)
      && !r.0.tokens[uuid].revoked
      && r.0.tokens[uuid].userId in s.users && s.users[r.0.tokens[uuid].userId].username == authenticated.value
      && r.0 == s.(tokens := s.tokens[uuid := r.0.tokens[uuid]])
      && r.1.value.accessToken == mint(authenticated.value, s.users[r.0.tokens[uuid].userId].roles)
  {
    match authenticated
    case None => (s, Failure(BadCredentials(BadCredentialsMessage)))
    case Some(name) =>
      match CreateRefreshToken(s, name, duration, uuid, now)
      case Failure(e) => (s, Failure(e))
      case Success((s', t)) =>
        var roles := s.users[t.userId].roles;
        (s', Success(AuthResponse(mint(name, roles), t.token)))
  }

  /** The body of `refreshToken` before its transaction boundary: look the token up,
      verify it, and mint a new access token for its owner, handing back the same
      refresh-token string. */
  function RefreshSteps(s: State, token: string, mint: (string, set<string>) -> string, now: Time)
    : (r: (State, Result<AuthResponse, Error>))
    requires Valid(s)
    ensures token !in s.tokens ==> r == (s, Failure(TokenError(UnknownTokenMessage)))
    ensures token in s.tokens ==> r.0 == VerifyExpiration(s, s.tokens[token], now).0
  {
    if token !in s.tokens then (s, Failure(TokenError(UnknownTokenMessage)))
    else
      var t := s.tokens[token];
      match VerifyExpiration(s, t, now)
      case (s', Failure(e)) => (s', Failure(e))
      case (s', Success(t')) =>
        var user := s.users[t'.userId];
        (s', Success(AuthResponse(mint(user.username, user.roles), t'.token)))
  }

  /** `refreshToken` as written: the whole method is one transaction, so when
      verification throws, the deletion of an expired token is rolled back with it. */
  function RefreshAsWritten(s: State, token: string, mint: (string, set<string>) -> string, now: Time)
    : (r: (State, Result<AuthResponse, Error>))
    requires Valid(s)
    ensures r.1 == RefreshSteps(s, token, mint, now).1
    ensures r.1.Failure? ==> r.0 == s
  {
    Commit(s, RefreshSteps(s, token, mint, now))
  }

  /** The discrepancy: an expired token is reported as expired, yet it is still in the
      store afterwards, so every later attempt finds it again. */
  lemma ExpiredTokenSurvivesRefresh(s: State, token: string, mint: (string, set<string>) -> string, now: Time)
    requires Valid(s) && token in s.tokens && s.tokens[token].expiryDate < now
    ensures RefreshAsWritten(s, token, mint, now).1 == Failure(TokenError(ExpiredMessage))
    ensures token in RefreshAsWritten(s, token, mint, now).0.tokens
  {
  }

  /** `refreshToken` with the deletion of an expired token committed although the method
      throws (the token is removed in its own transaction); every other failure leaves
      the store as it was. */
  function Refresh(s: State, token: string, mint: (string, set<string>) -> string, now: Time)
    : (r: (State, Result<AuthResponse, Error>))
    requires Valid(s)
    ensures token !in s.tokens ==> r == (s, Failure(TokenError(UnknownTokenMessage)))
    ensures token in s.tokens && s.tokens[token].expiryDate < now ==>
      r == (s.(tokens := s.tokens - {token}), Failure(TokenError(ExpiredMessage)))
    ensures token in s.tokens && s.tokens[token].expiryDate >= now && s.tokens[token].revoked ==>
      r == (s, Failure(TokenError(RevokedMessage)))
    ensures r.1.Success? <==> token in s.tokens && s.tokens[token].expiryDate >= now && !s.tokens[token].revoked
    ensures r.1.Success? ==>
      && r.0 == s
      && r.1.value.refreshToken == token
      && var user := s.users[s.tokens[token].userId];
         r.1.value.accessToken == mint(user.username, user.roles)
    ensures Valid(r.0)
  {
    RefreshSteps(s, token, mint, now)
  }

  /** Where the token is unknown, revoked or valid, the corrected refresh and the code as
      written agree; they differ only in what happens to an expired token. */
  lemma RefreshAgreesUnlessExpired(s: State, token: string, mint: (string, set<string>) -> string, now: Time)
    requires Valid(s)
    requires !(token in s.tokens && s.tokens[token].expiryDate < now)
    ensures Refresh(s, token, mint, now) == RefreshAsWritten(s, token, mint, now)
  {
  }

  /** With the corrected refresh, an expired token is gone after the first attempt, and a
      second attempt is told it is unknown. */
  lemma ExpiredTokenIsForgotten(s: State, token: string, mint: (string, set<string>) -> string, now: Time)
    requires Valid(s) && token in s.tokens && s.tokens[token].expiryDate < now
    ensures var (s1, r1) := Refresh(s, token, mint, now);
      && r1 == Failure(TokenError(ExpiredMessage))
      && Refresh(s1, token, mint, now) == (s1, Failure(TokenError(UnknownTokenMessage)))
  {
  }

  /** A token handed out at login refreshes successfully until its expiry, returning the
      same refresh-token string. */
  lemma LoginThenRefresh(s: State, request: LoginRequest, name: string, mint: (string, set<string>) -> string,
                         duration: Option<int>, uuid: string, now: Time, later: Time)
    requires Valid(s) && uuid !in s.tokens
    requires Login(s, request, Some(name), mint, duration, uuid, now).1.Success?
    requires later <= now + duration.GetOr(DefaultRefreshMillis)
    ensures var s1 := Login(s, request, Some(name), mint, duration, uuid, now).0;
      && Refresh(s1, uuid, mint, later).1.Success?
      && Refresh(s1, uuid, mint, later).1.value.refreshToken == uuid
  {
  }

  /** `logout`: every refresh token of the named user is deleted. */
  function Logout(s: State, username: string): (r: Result<State, Error>)
    requires Valid(s)
    ensures r.Failure? <==> !UsernameExists(s, username)
    ensures r.Failure? ==> r.error == UserNotFound(username)
    ensures r.Success? ==>
      && Valid(r.value)
      && r.value.users == s.users
      && (forall k :: k in r.value.tokens ==> s.users[r.value.tokens[k].userId].username != username)
      && (forall k :: k in s.tokens && s.users[s.tokens[k].userId].username != username ==>
            k in r.value.tokens && r.value.tokens[k] == s.tokens[k])
  {
    match FindByUsername(s, username)
    case None => Failure(UserNotFound(username))
    case Some(id) => DeleteByUserId(s, id)
  }

  /** After logout none of the user's refresh tokens can be used again. */
  lemma LogoutEndsRefresh(s: State, username: string, token: string, mint: (string, set<string>) -> string, now: Time)
    requires Valid(s) && token in s.tokens && s.users[s.tokens[token].userId].username == username
    ensures Logout(s, username).Success?
    ensures Refresh(Logout(s, username).value, token, mint, now).1 == Failure(TokenError(UnknownTokenMessage))
  {
    assert UsernameExists(s, username) by {
      assert s.tokens[token].userId in s.users;
    }
  }
}
