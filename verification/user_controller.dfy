/** `UserController`: the four endpoints, with `GlobalExceptionHandler`
    turning the service's exceptions into responses. */
module UserController {
  import opened Common
  import opened Domain
  import opened Crypto
  import opened UserStore
  import opened Http
  import opened ExceptionHandler
  import opened UserService

  const BearerPrefix := "Bearer "

  predicate StartsWith(s: string, prefix: string) {
    |prefix| <= |s| && s[..|prefix|] == prefix
  }

  /** `target` occurs in `s` starting at position `i`. */
  ghost predicate OccursAt(s: string, target: string, i: int) {
    0 <= i && i + |target| <= |s| && s[i..i + |target|] == target
  }

  ghost predicate Occurs(s: string, target: string) {
    exists i :: OccursAt(s, target, i)
  }

  /** Java's `s.replace(target, "")`: scanning from the left, every occurrence
      found is cut out and the scan resumes after it. What is left is not
      scanned again, so cutting can join new occurrences. */
  function RemoveAll(s: string, target: string): (r: string)
    requires |target| > 0
    ensures |r| <= |s|
    ensures StartsWith(s, target) ==> |r| <= |s| - |target|
    decreases |s|
  {
    if |s| < |target| then s
    else if s[..|target|] == target then RemoveAll(s[|target|..], target)
    else [s[0]] + RemoveAll(s[1..], target)
  }

  /** The Authorization header as `validateToken` hands it to the service: when
      it starts with "Bearer ", every "Bearer " in it is removed. */
  function StripBearer(header: string): (r: string)
    ensures !StartsWith(header, BearerPrefix) ==> r == header
    ensures |r| <= |header|
  {
    if StartsWith(header, BearerPrefix) then RemoveAll(header, BearerPrefix) else header
  }

  /** Removal only deletes: every character left was in the input, as often
      at most. */
  lemma {:induction false} RemoveAllOnlyDeletes(s: string, target: string)
    requires |target| > 0
    ensures multiset(RemoveAll(s, target)) <= multiset(s)
    decreases |s|
  {
    if |s| < |target| {
    } else if s[..|target|] == target {
      assert s == s[..|target|] + s[|target|..];
      RemoveAllOnlyDeletes(s[|target|..], target);
    } else {
      assert s == [s[0]] + s[1..];
      RemoveAllOnlyDeletes(s[1..], target);
    }
  }

  /** A stretch `a` at the front in which no occurrence of `target` starts
      passes through untouched. */
  lemma {:induction false} RemoveAllKeepsClean(a: string, rest: string, target: string)
    requires |target| > 0
    requires forall i :: 0 <= i < |a| ==> !OccursAt(a + rest, target, i)
    ensures RemoveAll(a + rest, target) == a + RemoveAll(rest, target)
    decreases |a|
  {
    var s := a + rest;
    if |a| > 0 {
      if |s| < |target| {
        assert RemoveAll(rest, target) == rest;
      } else {
        assert !OccursAt(s, target, 0);
        assert s[1..] == a[1..] + rest;
        forall i | 0 <= i < |a[1..]|
          ensures !OccursAt(a[1..] + rest, target, i)
        {
          assert !OccursAt(s, target, i + 1);
          if i + |target| <= |a[1..] + rest| {
            assert (a[1..] + rest)[i..i + |target|] == s[i + 1..i + 1 + |target|];
          }
        }
        RemoveAllKeepsClean(a[1..], rest, target);
        assert a == [a[0]] + a[1..];
      }
    } else {
      assert s == rest;
    }
  }

  /** Without an occurrence of `target`, removal changes nothing. */
  lemma RemoveAllWithoutOccurrence(s: string, target: string)
    requires |target| > 0 && !Occurs(s, target)
    ensures RemoveAll(s, target) == s
  {
    forall i | 0 <= i < |s|
      ensures !OccursAt(s + [], target, i)
    {
      assert s + [] == s;
    }
    RemoveAllKeepsClean(s, [], target);
    assert s + [] == s;
  }

  /** "Bearer " cannot overlap itself: its first letter appears nowhere else
      in it. So no occurrence starts inside `a` when `a` holds none and is
      followed by "Bearer ". */
  lemma NoOccurrenceBeforePrefix(a: string, b: string)
    requires !Occurs(a, BearerPrefix)
    ensures forall i :: 0 <= i < |a| ==> !OccursAt(a + BearerPrefix + b, BearerPrefix, i)
  {
    var s := a + BearerPrefix + b;
    forall i | 0 <= i < |a|
      ensures !OccursAt(s, BearerPrefix, i)
    {
      if i + 7 <= |a| {
        assert s[i..i + 7] == a[i..i + 7];
        assert !OccursAt(a, BearerPrefix, i);
      } else if i + 7 <= |s| {
        assert s[i..i + 7][|a| - i] == 'B';
      }
    }
  }

  /** A space-free string holds no "Bearer ", so a compact token never does. */
  lemma SpaceFreeHasNoPrefix(t: string)
    requires ' ' !in t
    ensures !Occurs(t, BearerPrefix)
  {
    forall i | 0 <= i && i + 7 <= |t|
      ensures !OccursAt(t, BearerPrefix, i)
    {
      assert t[i..i + 7][6] == t[i + 6];
    }
  }

  /** "Bearer " followed by a token without "Bearer " in it reaches the
      service as exactly that token. */
  lemma StripBearerPrefix(t: string)
    requires !Occurs(t, BearerPrefix)
    ensures StripBearer(BearerPrefix + t) == t
  {
    var h := BearerPrefix + t;
    assert h[..7] == BearerPrefix;
    assert h[7..] == t;
    RemoveAllWithoutOccurrence(t, BearerPrefix);
  }

  /** Every "Bearer " goes, not only the leading one: the header
      "Bearer " + a + "Bearer " + b reaches the service as a + b, where cutting
      off the first seven characters would have left a + "Bearer " + b. */
  lemma StripBearerEveryOccurrence(a: string, b: string)
    requires !Occurs(a, BearerPrefix) && !Occurs(b, BearerPrefix)
    ensures StripBearer(BearerPrefix + a + BearerPrefix + b) == a + b
    ensures (BearerPrefix + a + BearerPrefix + b)[7..] == a + BearerPrefix + b
  {
    var h := BearerPrefix + a + BearerPrefix + b;
    var tail := a + BearerPrefix + b;
    assert h[..7] == BearerPrefix;
    assert h[7..] == tail;
    NoOccurrenceBeforePrefix(a, b);
    assert a + BearerPrefix + b == a + (BearerPrefix + b);
    RemoveAllKeepsClean(a, BearerPrefix + b, BearerPrefix);
    StripBearerPrefix(b);
  }

  /** Cutting can join a new "Bearer ": the stripped header still holds one. */
  lemma StripBearerCanLeaveOccurrence()
    ensures StripBearer("Bearer BeBearer arer ") == "Bearer "
  {
    var a, b := "Be", "arer ";
    assert !Occurs(a, BearerPrefix);
    assert !Occurs(b, BearerPrefix);
    StripBearerEveryOccurrence(a, b);
    assert BearerPrefix + a + BearerPrefix + b == "Bearer BeBearer arer ";
    assert a + b == "Bearer ";
  }

  /** The bodies are bound without validation: a JSON body may leave out the
      password or the token, which Java then reads as `null` (`None`). */
  datatype SignUpRequestDto = SignUpRequestDto(name: string, email: string, password: Option<string>)
  datatype LoginRequestDto = LoginRequestDto(email: string, password: Option<string>)
  datatype LogoutRequestDto = LogoutRequestDto(token: Option<string>)

  /** What a request comes to: a response, or an exception no handler covers
      (which the framework then answers on its own). */
  datatype Reply = Handled(response: Response) | Propagated(error: ServiceError)

  /** An exception leaving an endpoint. */
  function Raise(e: ServiceError): (r: Reply)
    ensures r.Handled? <==> e.UserAlreadyExists? || e.UserNotFound?
    ensures r.Handled? ==> r.response == Handle(e).value
    ensures r.Propagated? ==> r.error == e
  {
    match Handle(e)
    case Some(response) => Handled(response)
    case None => Propagated(e)
  }

  /** POST /signup. Returns the reply and the user store afterwards. */
  function SignupEndpoint(s: Store, h: Hasher, serialises: bool, req: SignUpRequestDto): (out: (Reply, Store))
    ensures out.0.Handled? && out.0.response.status == 201 <==>
              req.email !in s.users && req.password.Some? && serialises
    ensures out.1.users.Keys <= s.users.Keys + {req.email}
    ensures forall e :: e in s.users ==> e in out.1.users && out.1.users[e] == s.users[e]
    ensures req.email in s.users ==>
              out == (Handled(Response(409, ErrorBody(ErrorDto(AlreadyExistsMessage(req.email), "Failure")))), s)
    ensures req.email !in s.users && req.password.None? ==> out == (Propagated(IllegalArgument), s)
    ensures req.email !in s.users && req.password.Some? && !serialises ==>
              out == (Propagated(SerialisationFailed(SerialisationMessage)), s)
    ensures out.0.Handled? && out.0.response.status == 201 ==>
              && req.email in out.1.users
              && out.1.users[req.email].password == h.encode(req.password.value)
              && out.0.response.body == SignUpBody(req.name, req.email, out.1.users[req.email].password)
  {
    match Signup(s, h, serialises, req.name, req.email, req.password)
    case Err(e) => (Raise(e), s)
    case Ok(signed) =>
      (Handled(Response(StatusCreated, SignUpBody(signed.user.name, signed.user.email, signed.user.password))), signed.store)
  }

  /** POST /login. Only a stored email without a password goes unanswered. */
  function LoginEndpoint(s: Store, h: Hasher, codec: Codec, req: LoginRequestDto, now: nat): (r: Reply)
    ensures r.Propagated? <==> req.email in s.users && req.password.None?
    ensures r.Propagated? ==> r.error == IllegalArgument
    ensures r.Handled? && r.response.status == 200 <==>
              req.email in s.users && req.password.Some? && h.matches(req.password.value, s.users[req.email].password)
    ensures r.Handled? && r.response.status == 200 ==>
              r.response.body == LoginBody(codec.issue(LoginClaims(s.users[req.email], now)))
    ensures r.Handled? && r.response.status != 200 ==> r.response.status == 400 && r.response.body.ErrorBody?
  {
    match Login(s, h, codec, req.email, req.password, now)
    case Err(e) => Raise(e)
    case Ok(token) => Handled(Response(StatusOk, LoginBody(token.tokenValue)))
  }

  /** POST /logout. */
  function LogoutEndpoint(s: Store, req: LogoutRequestDto): (out: (Reply, Store))
    ensures out.0 == Handled(Response(204, NoBody))
    ensures out.1 == s
  {
    (Handled(Response(StatusNoContent, NoBody)), Logout(s, req.token))
  }

  /** The controller's test of the user the service returned; `None` is a
      `null` reference. */
  function ValidationResponse(user: Option<User>): (r: Response)
    ensures r.status == 200 <==> user.Some?
    ensures r.status == 200 ==> r.body == BoolBody(true)
    ensures r.status != 200 ==> r == Response(401, BoolBody(false))
  {
    if user.Some? then Response(StatusOk, BoolBody(true)) else Response(StatusUnauthorized, BoolBody(false))
  }

  /** POST /validate with the Authorization header. The service throws instead
      of returning `null`, so the 401 branch is never taken: a refused token
      is answered 400 by the exception handler, except when the parser
      rejects the token with its argument exception, which no handler
      covers. */
  function ValidateEndpoint(s: Store, codec: Codec, header: string, now: nat): (r: Reply)
    ensures r.Propagated? <==>
              StripBearer(header) != "" && codec.parse(StripBearer(header), now) == ArgumentRejected
    ensures r.Propagated? ==> r.error == IllegalArgument
    ensures r.Handled? ==> r.response.status != 401
    ensures r.Handled? && r.response.status == 200 <==> Accepted(s, codec, Some(StripBearer(header)), now)
    ensures r.Handled? && r.response.status == 200 ==> r.response.body == BoolBody(true)
    ensures r.Handled? && r.response.status != 200 ==>
              r.response.status == 400 && r.response.body.ErrorBody? && r.response.body.error.status == "Failure"
  {
    match ValidateToken(s, codec, Some(StripBearer(header)), now)
    case Err(e) => Raise(e)
    case Ok(user) => Handled(ValidationResponse(Some(user)))
  }

  /** With a parser that refuses exactly the strings without text, /validate
      answers exactly when the stripped header is empty or holds a
      non-whitespace character; a stripped header of only whitespace escapes
      the exception handler. */
  lemma ValidateEndpointAnswers(s: Store, codec: Codec, header: string, now: nat)
    requires RejectsBlank(codec)
    ensures ValidateEndpoint(s, codec, header, now).Handled? <==>
              StripBearer(header) == "" || !IsBlank(StripBearer(header))
  {
  }

  /** The header argument "Bearer " followed by one more space reaches the
      service as a single space, which the parser refuses with an exception no
      handler covers. `header` is the value bound to the method's parameter,
      after whatever trimming the servlet container applies to the raw header. */
  lemma DoubleSpaceHeaderEscapes(s: Store, codec: Codec, now: nat)
    requires RejectsBlank(codec)
    ensures StripBearer("Bearer  ") == " "
    ensures ValidateEndpoint(s, codec, "Bearer  ", now) == Propagated(IllegalArgument)
  {
    assert !Occurs(" ", BearerPrefix);
    StripBearerPrefix(" ");
    assert BearerPrefix + " " == "Bearer  ";
    assert IsBlank(" ");
  }

  /** An unknown email and a wrong password get the same status, 400, and the
      same status word; only the message in the body tells them apart. */
  lemma LoginFailuresShareStatus(s: Store, h: Hasher, codec: Codec, unknown: LoginRequestDto,
                                 wrong: LoginRequestDto, now: nat)
    requires unknown.email !in s.users
    requires wrong.email in s.users && wrong.password.Some?
    requires !h.matches(wrong.password.value, s.users[wrong.email].password)
    ensures var a := LoginEndpoint(s, h, codec, unknown, now);
            var b := LoginEndpoint(s, h, codec, wrong, now);
            && a.Handled? && b.Handled?
            && a.response.status == 400 && b.response.status == 400
            && a.response.body.ErrorBody? && b.response.body.ErrorBody?
            && a.response.body.error.status == b.response.body.error.status
            && a.response.body.error.message != b.response.body.error.message
  {
    var m1 := NoSuchUserAtLoginMessage(unknown.email);
    var m2 := IncorrectPasswordMessage(wrong.email);
    assert m1[0] == 'U' && m2[0] == 'I';
  }

  /** A login body without a password tells stored emails apart: an unknown
      email is answered 400, a stored one reaches the encoder, whose exception
      no handler covers. */
  lemma MissingPasswordRevealsAccount(s: Store, h: Hasher, codec: Codec, email: string, now: nat)
    ensures var r := LoginEndpoint(s, h, codec, LoginRequestDto(email, None), now);
            && (r.Handled? <==> email !in s.users)
            && (r.Handled? ==> r.response == Response(400, ErrorBody(ErrorDto(NoSuchUserAtLoginMessage(email), "Failure"))))
            && (r.Propagated? ==> r.error == IllegalArgument)
  {
  }

  /** Sign up, log in, validate with a "Bearer " header, log out, validate
      again: 201, 200, 200 true, 204, and 200 true again, because logout
      revokes nothing. Once the token's expiry instant has passed, the same
      header is refused with 400. */
  lemma AccountLifecycle(s: Store, h: Hasher, codec: Codec, name: string, email: string, password: string,
                         loginAt: nat, now: nat, later: nat)
    requires Consistent(s) && Verifies(h)
    requires AcceptsBeforeExpiry(codec) && RejectsAfterExpiry(codec) && IssuesCompact(codec)
    requires email !in s.users && email != ""
    requires now < ExpiryInstant(loginAt + ExpirationTimeInMs) < later
    ensures var (signupReply, s1) := SignupEndpoint(s, h, true, SignUpRequestDto(name, email, Some(password)));
            var loginReply := LoginEndpoint(s1, h, codec, LoginRequestDto(email, Some(password)), loginAt);
            var token := loginReply.response.body.token;
            var (logoutReply, s2) := LogoutEndpoint(s1, LogoutRequestDto(Some(token)));
            && signupReply == Handled(Response(201, SignUpBody(name, email, h.encode(password))))
            && loginReply.response.status == 200
            && ValidateEndpoint(s1, codec, BearerPrefix + token, now) == Handled(Response(200, BoolBody(true)))
            && logoutReply == Handled(Response(204, NoBody))
            && ValidateEndpoint(s2, codec, BearerPrefix + token, now) == Handled(Response(200, BoolBody(true)))
            && ValidateEndpoint(s2, codec, BearerPrefix + token, later)
               == Handled(Response(400, ErrorBody(ErrorDto(ExpiredTokenMessage, "Failure"))))
  {
    var signed := Signup(s, h, true, name, email, Some(password)).value;
    var s1 := signed.store;
    SignupKeepsStoreValid(s, h, true, name, email, Some(password));
    SignupThenLogin(s, h, codec, true, name, email, Some(password), loginAt);
    var token := Login(s1, h, codec, email, Some(password), loginAt).value;
    var claims := LoginClaims(s1.users[email], loginAt);
    assert token.tokenValue == codec.issue(claims);
    SpaceFreeHasNoPrefix(token.tokenValue);
    StripBearerPrefix(token.tokenValue);
    LoginThenValidate(s1, s1, h, codec, email, Some(password), loginAt, now);
    ExpiredTokenRejected(s1, s1, h, codec, email, Some(password), loginAt, later);
  }
}
