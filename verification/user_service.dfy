/** `UserServiceImpl`: signup, login, token validation and logout, plus the
    dormant token-table path (`logoutUsingTokenInDB`, `validateTokenInDB`).

    Every operation is a pure function of the state it reads. The clock is the
    parameter `now` (milliseconds since the epoch), the hasher and the codec
    are parameters, and whether the welcome email serialises to JSON is the
    parameter `serialises`. An operation that throws returns `Err` and no new
    state, so the state it was given is the state after it. */
module UserService {
  import opened Common
  import opened Domain
  import opened Crypto
  import opened UserStore
  import opened TokenRepository

  /** Ten hours in milliseconds: how long a login token lives. */
  const ExpirationTimeInMs: nat := 10 * 60 * 60 * 1000

  /** The welcome email signup publishes, fire-and-forget, on `SendEmailTopic`. */
  datatype SendEmailDto = SendEmailDto(from: string, to: string, subject: string, body: string)

  const SendEmailTopic := "send-email-topic"

  /** The welcome email goes to the new address and greets the user by name. */
  function WelcomeEmail(name: string, email: string): (e: SendEmailDto)
    ensures e.to == email
    ensures e.subject == "Welcome to User Service"
    ensures |e.body| > 6 + |name| && e.body[..6 + |name|] == "Hello " + name
  {
    SendEmailDto(
      "nithinbommerla99@gmail.com", email, "Welcome to User Service",
      "Hello " + name + ",\n\nThank you for signing up for our service. We are excited to have you on board!\n\nBest regards,\nUser Service Team")
  }

  /** A successful signup: the saved user, the store after the save, and the
      welcome email that was published. */
  datatype Signed = Signed(user: User, store: Store, welcome: SendEmailDto)

  /** `signup`. A taken email is refused before anything else happens. A
      `null` password (`None`) makes the encoder throw before the welcome
      email is built. A welcome email that cannot be serialised aborts the
      signup before the user is saved. */
  function Signup(s: Store, h: Hasher, serialises: bool, name: string, email: string, password: Option<string>)
    : (r: Result<Signed, ServiceError>)
    ensures email in s.users ==> r == Err(UserAlreadyExists(AlreadyExistsMessage(email)))
    ensures email !in s.users && password.None? ==> r == Err(IllegalArgument)
    ensures email !in s.users && password.Some? && !serialises ==> r == Err(SerialisationFailed(SerialisationMessage))
    ensures r.Ok? <==> email !in s.users && password.Some? && serialises
    ensures r.Ok? ==>
              && email !in s.users
              && r.value.store.users.Keys == s.users.Keys + {email}
              && (forall e :: e in s.users ==> r.value.store.users[e] == s.users[e])
              && r.value.store.users[email] == r.value.user
              && r.value.user.name == name
              && r.value.user.email == email
              && r.value.user.password == h.encode(password.value)
              && r.value.user.roles == []
              && r.value.welcome.to == email
  {
    if FindByEmail(s, email).Some? then
      Err(UserAlreadyExists(AlreadyExistsMessage(email)))
    else if password.None? then
      Err(IllegalArgument)
    else
      var user := User(0, name, email, h.encode(password.value), []);
      if !serialises then
        Err(SerialisationFailed(SerialisationMessage))
      else
        var (store, saved) := SaveNew(s, user);
        Ok(Signed(saved, store, WelcomeEmail(name, email)))
  }

  /** Signup keeps the store well formed, gives the new user an id no other
      user has, and, with a hasher that never returns its input, stores
      something other than the plaintext password. */
  lemma SignupKeepsStoreValid(s: Store, h: Hasher, serialises: bool, name: string, email: string,
                              password: Option<string>)
    requires Consistent(s)
    requires Signup(s, h, serialises, name, email, password).Ok?
    ensures var signed := Signup(s, h, serialises, name, email, password).value;
            && Consistent(signed.store)
            && (forall e :: e in s.users ==> s.users[e].id != signed.user.id)
            && (Hides(h) ==> signed.user.password != password.value)
  {
  }

  /** The claims a login signs: the user's email as subject and as the `email`
      claim, the user's id, and the issue and expiry instants. */
  function LoginClaims(user: User, now: nat): (c: Claims)
    ensures c.subject == user.email && c.email == user.email && c.userId == user.id
    ensures c.issuedAt == now && c.expiresAt - c.issuedAt == ExpirationTimeInMs
  {
    Claims(user.email, user.id, user.email, now, now + ExpirationTimeInMs)
  }

  /** `login`. An unknown email and a wrong password throw the same exception
      type; only the message tells them apart. A `null` password (`None`) for
      a stored email makes the encoder's `matches` throw instead. The token is
      not saved. */
  function Login(s: Store, h: Hasher, codec: Codec, email: string, password: Option<string>, now: nat)
    : (r: Result<Token, ServiceError>)
    ensures email !in s.users ==> r == Err(UserNotFound(NoSuchUserAtLoginMessage(email)))
    ensures email in s.users && password.None? ==> r == Err(IllegalArgument)
    ensures email in s.users && password.Some? && !h.matches(password.value, s.users[email].password) ==>
              r == Err(UserNotFound(IncorrectPasswordMessage(email)))
    ensures r.Ok? <==> email in s.users && password.Some? && h.matches(password.value, s.users[email].password)
    ensures r.Ok? ==>
              && r.value.user == s.users[email]
              && r.value.expiresAt == now + ExpirationTimeInMs
              && !r.value.isDeleted
              && r.value.tokenValue == codec.issue(Claims(s.users[email].email, s.users[email].id,
                                                          s.users[email].email, now, now + ExpirationTimeInMs))
  {
    match FindByEmail(s, email)
    case None => Err(UserNotFound(NoSuchUserAtLoginMessage(email)))
    case Some(user) =>
      if password.None? then
        Err(IllegalArgument)
      else if !h.matches(password.value, user.password) then
        Err(UserNotFound(IncorrectPasswordMessage(email)))
      else
        var claims := LoginClaims(user, now);
        Ok(Token(codec.issue(claims), user, claims.expiresAt, false))
  }

  /** The token passes every check of `validateToken`: it is present and
      non-empty, parses at `now`, and names a non-empty subject that is a
      stored email. */
  ghost predicate Accepted(s: Store, codec: Codec, tokenValue: Option<string>, now: nat) {
    && tokenValue.Some? && tokenValue.value != ""
    && var p := codec.parse(tokenValue.value, now);
    && p.Valid? && p.subject.Some? && p.subject.value != "" && p.subject.value in s.users
  }

  /** `validateToken`. `None` is Java's `null`. Every failure but the
      parser's argument exception is `UserNotFound`; success yields the user
      stored now under the token's subject, not the claims the token
      carries. */
  function ValidateToken(s: Store, codec: Codec, tokenValue: Option<string>, now: nat)
    : (r: Result<User, ServiceError>)
    ensures r.Ok? <==> Accepted(s, codec, tokenValue, now)
    ensures r.Ok? ==> r.value == s.users[codec.parse(tokenValue.value, now).subject.value]
    ensures r.Err? ==> r.error.UserNotFound? || r.error == IllegalArgument
    ensures r == Err(IllegalArgument) <==>
              tokenValue.Some? && tokenValue.value != "" && codec.parse(tokenValue.value, now) == ArgumentRejected
    ensures tokenValue == None || tokenValue == Some("") ==> r == Err(UserNotFound(EmptyTokenMessage))
    ensures tokenValue.Some? && tokenValue.value != "" ==>
              match codec.parse(tokenValue.value, now)
              case Expired => r == Err(UserNotFound(ExpiredTokenMessage))
              case Invalid => r == Err(UserNotFound(InvalidTokenMessage))
              case ArgumentRejected => r == Err(IllegalArgument)
              case Valid(subject) =>
                && (subject == None || subject == Some("") ==> r == Err(UserNotFound(NoSubjectMessage)))
                && (subject.Some? && subject.value != "" && subject.value !in s.users ==>
                      r == Err(UserNotFound(NoSuchUserAtValidationMessage(subject.value))))
  {
    match tokenValue
    case None => Err(UserNotFound(EmptyTokenMessage))
    case Some(value) =>
      if value == "" then Err(UserNotFound(EmptyTokenMessage))
      else
        match codec.parse(value, now)
        case Expired => Err(UserNotFound(ExpiredTokenMessage))
        case Invalid => Err(UserNotFound(InvalidTokenMessage))
        case ArgumentRejected => Err(IllegalArgument)
        case Valid(subject) =>
          if subject == None || subject.value == "" then Err(UserNotFound(NoSubjectMessage))
          else
            match FindByEmail(s, subject.value)
            case None => Err(UserNotFound(NoSuchUserAtValidationMessage(subject.value)))
            case Some(user) => Ok(user)
  }

  /** A token that is non-empty but holds only whitespace passes the
      null-or-empty test, and the parser refuses it with an exception the
      service does not catch. Every other failure is `UserNotFound`. */
  lemma BlankTokenEscapes(s: Store, codec: Codec, tokenValue: Option<string>, now: nat)
    requires RejectsBlank(codec)
    ensures ValidateToken(s, codec, tokenValue, now) == Err(IllegalArgument) <==>
              tokenValue.Some? && tokenValue.value != "" && IsBlank(tokenValue.value)
    ensures !(tokenValue.Some? && tokenValue.value != "" && IsBlank(tokenValue.value)) ==>
              ValidateToken(s, codec, tokenValue, now).Err? ==> ValidateToken(s, codec, tokenValue, now).error.UserNotFound?
  {
  }

  /** `logout`: its body is a to-do, so it changes nothing. */
  function Logout(s: Store, tokenValue: Option<string>): (r: Store)
    ensures r == s
  {
    s
  }

  /** Logout does not revoke: every token validates after a logout exactly
      as it did before, until its natural expiry. */
  lemma LogoutDoesNotRevoke(s: Store, codec: Codec, loggedOut: Option<string>, tokenValue: Option<string>, now: nat)
    ensures ValidateToken(Logout(s, loggedOut), codec, tokenValue, now) == ValidateToken(s, codec, tokenValue, now)
  {
  }

  /** A user who has just signed up can log in with the same password, and the
      token names the saved user. */
  lemma SignupThenLogin(s: Store, h: Hasher, codec: Codec, serialises: bool, name: string, email: string,
                        password: Option<string>, now: nat)
    requires Verifies(h)
    requires Signup(s, h, serialises, name, email, password).Ok?
    ensures var signed := Signup(s, h, serialises, name, email, password).value;
            var r := Login(signed.store, h, codec, email, password, now);
            r.Ok? && r.value.user == signed.user
  {
  }

  /** A login token validates, until its expiry instant, to whatever user is
      then stored under the email it was issued for. `later` is the store at
      validation time; the user may have changed since the login. */
  lemma LoginThenValidate(s: Store, later: Store, h: Hasher, codec: Codec, email: string, password: Option<string>,
                          issuedAt: nat, now: nat)
    requires Consistent(s) && AcceptsBeforeExpiry(codec) && IssuesCompact(codec)
    requires Login(s, h, codec, email, password, issuedAt).Ok?
    requires email != "" && email in later.users
    requires now < ExpiryInstant(issuedAt + ExpirationTimeInMs)
    ensures ValidateToken(later, codec, Some(Login(s, h, codec, email, password, issuedAt).value.tokenValue), now)
            == Ok(later.users[email])
  {
  }

  /** After its expiry instant a login token is refused as expired, whatever
      the store holds by then. */
  lemma ExpiredTokenRejected(s: Store, later: Store, h: Hasher, codec: Codec, email: string, password: Option<string>,
                             issuedAt: nat, now: nat)
    requires RejectsAfterExpiry(codec) && IssuesCompact(codec)
    requires Login(s, h, codec, email, password, issuedAt).Ok?
    requires now > ExpiryInstant(issuedAt + ExpirationTimeInMs)
    ensures ValidateToken(later, codec, Some(Login(s, h, codec, email, password, issuedAt).value.tokenValue), now)
            == Err(UserNotFound(ExpiredTokenMessage))
  {
  }

  /** Validation succeeds only after a successful parse; so with a codec whose
      successful parses are of issued tokens only, only a token the codec
      issued validates. */
  lemma OnlyIssuedTokensValidate(s: Store, codec: Codec, tokenValue: string, now: nat)
    requires Unforgeable(codec)
    requires ValidateToken(s, codec, Some(tokenValue), now).Ok?
    ensures exists cl: Claims :: codec.issue(cl) == tokenValue
  {
  }

  // The token-table path: logout soft-deletes the token's row, and a token is
  // valid only while a live row for it exists.

  /** A row that makes `tokenValue` valid at `now`: the filter `validateTokenInDB`
      queries with, for a live row. */
  predicate Usable(t: Token, tokenValue: string, now: nat) {
    HasValueAndFlagAfter(t, tokenValue, false, now)
  }

  /** At most one row makes `tokenValue` valid at `now`. */
  ghost predicate AtMostOneUsable(rows: seq<Token>, tokenValue: string, now: nat) {
    forall i, j :: 0 <= i < |rows| && 0 <= j < |rows| && Usable(rows[i], tokenValue, now) && Usable(rows[j], tokenValue, now)
      ==> i == j
  }

  /** `logoutUsingTokenInDB`: soft-deletes the one live row carrying the token
      value; when there is none it does nothing, and when there are several
      the query throws. */
  function LogoutUsingTokenInDB(rows: seq<Token>, tokenValue: string): (r: Result<seq<Token>, ServiceError>)
    ensures (forall i :: 0 <= i < |rows| ==> !HasValueAndFlag(rows[i], tokenValue, false)) ==> r == Ok(rows)
    ensures r.Err? <==>
              exists i, j :: 0 <= i < j < |rows|
                && HasValueAndFlag(rows[i], tokenValue, false) && HasValueAndFlag(rows[j], tokenValue, false)
    ensures r.Err? ==> r.error == IncorrectResultSize
    ensures r.Ok? ==>
              && |r.value| == |rows|
              && (forall i :: 0 <= i < |rows| ==>
                    || r.value[i] == rows[i]
                    || (HasValueAndFlag(rows[i], tokenValue, false) && r.value[i] == rows[i].(isDeleted := true)))
              && (forall i :: 0 <= i < |rows| && r.value[i].tokenValue == tokenValue ==> r.value[i].isDeleted)
  {
    match FindByTokenValueAndIsDeleted(rows, tokenValue, false)
    case NoRow => Ok(rows)
    case OneRow(i, t) => Ok(rows[i := t.(isDeleted := true)])
    case SeveralRows => Err(IncorrectResultSize)
  }

  /** Logging out twice is logging out once. */
  lemma LogoutUsingTokenInDBIdempotent(rows: seq<Token>, tokenValue: string)
    requires LogoutUsingTokenInDB(rows, tokenValue).Ok?
    ensures var once := LogoutUsingTokenInDB(rows, tokenValue).value;
            LogoutUsingTokenInDB(once, tokenValue) == Ok(once)
  {
  }

  /** `validateTokenInDB`: the user of the one live, unexpired row carrying the
      token value. */
  function ValidateTokenInDB(rows: seq<Token>, tokenValue: string, now: nat): (r: Result<User, ServiceError>)
    ensures r.Ok? ==> exists i :: 0 <= i < |rows| && Usable(rows[i], tokenValue, now) && rows[i].user == r.value
    ensures r.Ok? ==> AtMostOneUsable(rows, tokenValue, now)
    ensures r.Err? ==> r.error == IncorrectResultSize || r.error == UserNotFound(InvalidOrExpiredMessage)
    ensures r == Err(IncorrectResultSize) <==>
              exists i, j :: 0 <= i < j < |rows| && Usable(rows[i], tokenValue, now) && Usable(rows[j], tokenValue, now)
    ensures r == Err(UserNotFound(InvalidOrExpiredMessage)) <==>
              forall i :: 0 <= i < |rows| ==> !Usable(rows[i], tokenValue, now)
  {
    match FindByTokenValueAndIsDeletedAndExpiresAtGreaterThan(rows, tokenValue, false, now)
    case NoRow => Err(UserNotFound(InvalidOrExpiredMessage))
    case OneRow(_, t) => Ok(t.user)
    case SeveralRows => Err(IncorrectResultSize)
  }

  /** When at most one row makes the token valid, the token is valid exactly
      when a row for it exists, is not deleted, and expires strictly after
      `now`; the user returned is that row's. */
  lemma ValidateTokenInDBExactly(rows: seq<Token>, tokenValue: string, now: nat)
    requires AtMostOneUsable(rows, tokenValue, now)
    ensures ValidateTokenInDB(rows, tokenValue, now).Ok? <==>
              exists i :: 0 <= i < |rows| && Usable(rows[i], tokenValue, now)
    ensures forall i :: 0 <= i < |rows| && Usable(rows[i], tokenValue, now) ==>
              ValidateTokenInDB(rows, tokenValue, now) == Ok(rows[i].user)
  {
  }

  /** A token the token-table logout revoked is refused afterwards, whatever
      its expiry. */
  lemma RevokedTokenRejected(rows: seq<Token>, tokenValue: string, now: nat)
    requires LogoutUsingTokenInDB(rows, tokenValue).Ok?
    ensures ValidateTokenInDB(LogoutUsingTokenInDB(rows, tokenValue).value, tokenValue, now)
            == Err(UserNotFound(InvalidOrExpiredMessage))
  {
  }
}
