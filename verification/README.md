# UserService account and session core, in Dafny

This project models the decision logic of a Spring user service: account
signup, login with a signed session token (a JSON Web Token), token
validation, logout, the dormant token-table revocation path, the token-table
queries, the HTTP outcome of each endpoint, and the Spring Security principal
built from a stored user.

Everything is a pure function over immutable values:

- The user table is a map from exact email to `User`, plus the next id to
  assign (`UserStore`).
- The token table is the sequence of its rows (`TokenRepository`). A
  single-result derived query yields no row, the one matching row, or
  `SeveralRows`, which stands for the exception Spring Data throws when
  several rows match.
- The clock is the parameter `now`, in milliseconds since the epoch.
- The password hasher and the token codec are records of functions (`Crypto`).
  The service relies on properties of them, and those properties are ghost
  predicates:
  - `Verifies`: a password matches its own hash.
  - `Hides`: a hash differs from its password.
  - `AcceptsBeforeExpiry`: an issued token parses back to its subject before
    its expiry instant.
  - `RejectsAfterExpiry`: an issued token is reported expired after that
    instant.
  - `IssuesCompact`: an issued token is non-empty and holds no space.
  - `Unforgeable`: only issued tokens parse.
  - `RejectsBlank`: the parser refuses a string made only of whitespace with
    its argument exception (jjwt's `IllegalArgumentException`), which is not
    one of the exceptions `validateToken` catches.

  The lemmas that need these properties take them as preconditions. The
  lemmas `Crypto.ModelHasherSound` and `Crypto.ModelCodecSound` exhibit toy
  instances that satisfy every predicate, so those preconditions can be met.
- A thrown exception is an `Err` result. An operation that throws returns no
  new state.
- An endpoint returns a `Reply`. `Handled` means the controller or
  `GlobalExceptionHandler` produced a response. `Propagated` means no handler
  covers the exception.

Modules follow the source: `Domain` (entities and exception messages),
`Crypto`, `UserStore`, `TokenRepository`, `UserService` (`UserServiceImpl`),
`Http` and `ExceptionHandler` (`GlobalExceptionHandler`), `UserController`, and
`Security` (`CustomUserDetails`, `CustomUserDetailsService`).

Facts about the code that the model makes explicit:

- `/validate` throws on a refused token, so the answer is 400 with an error
  body. The controller's 401 branch can never be reached.
- Take a header argument that is only whitespace once every "Bearer " is
  removed. An example is the `@RequestHeader` value "Bearer  ", which reaches
  the service as one space. It passes the service's empty check. The token
  parser then throws an argument exception. `validateToken` does not catch
  it and `GlobalExceptionHandler` does not handle it, so no handler answers
  the request.
- The request bodies are not validated, so a body without a password reaches
  the service as `null`. The password encoder throws an argument exception
  for it, which no handler covers. At login this happens only for a stored
  email; an unknown email is answered 400. So a login without a password
  tells whether an email has an account. At signup it happens for a fresh
  email, before the welcome email is built.
- The signup response copies the stored password hash (`SignUpResponseDto`).
- A welcome email that cannot be serialised to JSON fails the signup before
  the user is saved. The Kafka publish itself is not awaited.
- `logout` is an empty stub, so a token stays valid after logout until it
  expires. Only the dormant token-table path revokes.
- Whether a token is still valid at exactly its expiry instant depends on the
  token library. The model leaves that tie open.

## Model

| member | source | states |
|---|---|---|
| `UserService.Signup` | src/main/java/dev/anusha/userservice/service/UserServiceImpl.java:49-75 | A taken email throws UserAlreadyExists with its message. For a fresh email, a missing password makes the encoder throw an argument exception, and an unserialisable welcome email aborts the signup before the save. Signup succeeds exactly when the email is fresh, the password is present and the welcome email serialises, and then exactly one user is added under the email. That user has the given name and email, the hash `encode(password)` and no roles. Every other user is unchanged. The returned user is the saved one, and the welcome email goes to the new address |
| `UserService.WelcomeEmail` | src/main/java/dev/anusha/userservice/service/UserServiceImpl.java:60-64 | The welcome email goes to the new address, has the subject "Welcome to User Service", and its body opens with "Hello " and the user's name |
| `UserStore.FindByEmail` | src/main/java/dev/anusha/userservice/service/UserServiceImpl.java:50 | Finds a user exactly when the email is a key of the table, and returns the user stored under it. In a consistent table that user has exactly that email |
| `UserStore.SaveNew` | src/main/java/dev/anusha/userservice/service/UserServiceImpl.java:74 | Saving a new user assigns it the next id and stores it under its email. Every other entry is unchanged. In a consistent table without that email, the table stays consistent and the id is fresh |
| `UserService.SignupKeepsStoreValid` | src/main/java/dev/anusha/userservice/service/UserServiceImpl.java:55-74 | Signup keeps the store consistent and gives the new user an id no stored user has. With a hasher that never returns its input, the stored password is not the plaintext |
| `UserService.LoginClaims` | src/main/java/dev/anusha/userservice/service/UserServiceImpl.java:91-99 | The claims name the user's email as subject and as the email claim and carry the user's id. They are issued now and expire 36,000,000 ms later |
| `Crypto.ExpiryInstant` | src/main/java/dev/anusha/userservice/service/UserServiceImpl.java:89-99 | The token's expiry claim is the expiry date cut down to a whole second: at most the date and less than a second before it |
| `UserService.SignupThenLogin` | src/main/java/dev/anusha/userservice/service/UserServiceImpl.java:55-86 | With a hasher that accepts a password against its own hash, login with the signup credentials succeeds and names the saved user |
| `UserService.Login` | src/main/java/dev/anusha/userservice/service/UserServiceImpl.java:78-107 | An unknown email and a wrong password both throw UserNotFound (with different messages) and issue no token. A missing password for a stored email makes the encoder throw an argument exception. Login succeeds exactly when the email is stored and a password is given that matches its hash. The token carries the stored user, expires at now + 36,000,000 ms, is not deleted, and is signed over claims whose subject is the user's email |
| `UserService.ValidateToken` | src/main/java/dev/anusha/userservice/service/UserServiceImpl.java:125-151 | Succeeds exactly when the token is present and non-empty, parses, and names a non-empty subject that is a stored email. On success it returns the user stored now under that subject. A non-empty token the parser refuses with its argument exception throws that exception, uncaught. Every other failure throws UserNotFound with its own message: null/empty, expired, invalid, no subject, unknown subject |
| `UserService.BlankTokenEscapes` | src/main/java/dev/anusha/userservice/service/UserServiceImpl.java:127-141 | With a parser that refuses exactly the strings without text, the argument exception escapes exactly for a non-empty all-whitespace token. Every other failure is UserNotFound |
| `UserService.LoginThenValidate` | src/main/java/dev/anusha/userservice/service/UserServiceImpl.java:88-150 | Before its expiry instant, a login token validates to whatever user is then stored under the login email |
| `UserService.ExpiredTokenRejected` | src/main/java/dev/anusha/userservice/service/UserServiceImpl.java:88-138 | After its expiry instant, a login token is refused with "Token is expired." |
| `UserService.OnlyIssuedTokensValidate` | src/main/java/dev/anusha/userservice/service/UserServiceImpl.java:130-141 | Validation succeeds only after a successful parse, so with a codec whose successful parses are of issued tokens only, only a token the codec issued validates |
| `UserService.Logout` | src/main/java/dev/anusha/userservice/service/UserServiceImpl.java:154-157 | `logout` leaves every table as it was |
| `UserService.LogoutDoesNotRevoke` | src/main/java/dev/anusha/userservice/service/UserServiceImpl.java:154-157 | `logout` changes nothing: every token validates afterwards exactly as before |
| `UserService.LogoutUsingTokenInDB` | src/main/java/dev/anusha/userservice/service/UserServiceImpl.java:159-171 | Only the one live row with the token value is soft-deleted, and every other row is unchanged. With no live row nothing changes. With several live rows the query throws. Afterwards no live row carries the value |
| `UserService.LogoutUsingTokenInDBIdempotent` | src/main/java/dev/anusha/userservice/service/UserServiceImpl.java:164-170 | Logging out through the token table twice equals logging out once |
| `UserService.ValidateTokenInDB` | src/main/java/dev/anusha/userservice/service/UserServiceImpl.java:173-187 | A returned user belongs to a row with the value that is not deleted and expires strictly after now, and it is the only such row. The "Invalid or expired token." failure happens exactly when no such row exists. The query throws IncorrectResultSizeDataAccessException exactly when two such rows exist |
| `UserService.ValidateTokenInDBExactly` | src/main/java/dev/anusha/userservice/service/UserServiceImpl.java:179-186 | When at most one live, unexpired row carries the value, validation succeeds exactly when such a row exists, and it returns that row's user |
| `UserService.RevokedTokenRejected` | src/main/java/dev/anusha/userservice/service/UserServiceImpl.java:159-187 | A token revoked by the token-table logout is refused afterwards, whatever its expiry |
| `TokenRepository.Select` | src/main/java/dev/anusha/userservice/repository/TokenRepository.java:11-13 | A derived query's filter yields the positions of exactly the rows it accepts, each once, in ascending order |
| `TokenRepository.Single` | src/main/java/dev/anusha/userservice/repository/TokenRepository.java:11-13 | An Optional-returning query is empty exactly when no row matches. It returns the only matching row when there is exactly one, and throws exactly when two rows match |
| `TokenRepository.FindByTokenValueAndIsDeletedAndExpiresAtGreaterThan` | src/main/java/dev/anusha/userservice/repository/TokenRepository.java:11 | A returned row has the given value and deleted flag and expires strictly after the date, and is the only such row. The query is empty exactly when no row satisfies all three, and throws exactly when two rows do |
| `TokenRepository.ExpiryBoundaryExcluded` | src/main/java/dev/anusha/userservice/repository/TokenRepository.java:11 | A row expiring exactly at the date is not returned, so the boundary fails closed |
| `TokenRepository.FindByTokenValueAndIsDeleted` | src/main/java/dev/anusha/userservice/repository/TokenRepository.java:13 | Filters on value and deleted flag only. A returned row is the only match. The query is empty exactly when no row matches, and it throws exactly when two rows match |
| `TokenRepository.FindIgnoresExpiry` | src/main/java/dev/anusha/userservice/repository/TokenRepository.java:13 | Changing the rows' expiries changes neither which row is found nor whether any is |
| `ExceptionHandler.Handle` | src/main/java/dev/anusha/userservice/exception/GlobalExceptionHandler.java:12-26 | Only UserAlreadyExists and UserNotFound are handled: 409 for the first and 400 for the second. The body is the exception's message verbatim with status "Failure" |
| `UserController.RemoveAll` | src/main/java/dev/anusha/userservice/controller/UserController.java:47 | `replace("Bearer ", "")` never lengthens the string, and removes at least seven characters from a string that starts with "Bearer " |
| `UserController.RemoveAllOnlyDeletes` | src/main/java/dev/anusha/userservice/controller/UserController.java:47 | `replace(target, "")` only deletes: every character of the result occurs in the input at least as often |
| `UserController.StripBearer` | src/main/java/dev/anusha/userservice/controller/UserController.java:45-48 | A header that does not start with "Bearer " reaches the service unchanged. Stripping never lengthens a header |
| `UserController.StripBearerPrefix` | src/main/java/dev/anusha/userservice/controller/UserController.java:45-47 | "Bearer " + t, where t holds no "Bearer ", reaches the service as exactly t |
| `UserController.StripBearerEveryOccurrence` | src/main/java/dev/anusha/userservice/controller/UserController.java:46-47 | Every "Bearer " is removed, not only the prefix: "Bearer " + a + "Bearer " + b becomes a + b, where `substring(7)` would keep the inner one |
| `UserController.StripBearerCanLeaveOccurrence` | src/main/java/dev/anusha/userservice/controller/UserController.java:47 | Removal is a single left-to-right pass, so the result can still hold "Bearer ": "Bearer BeBearer arer " becomes "Bearer " |
| `UserController.SignupEndpoint` | src/main/java/dev/anusha/userservice/controller/UserController.java:24-29 | The answer is 201 exactly when signup succeeds, and the body then echoes the stored hash. A taken email gets 409 with its message and leaves the store unchanged. For a fresh email, a missing password's argument exception and a serialisation failure each propagate and leaves the store unchanged. In every case every stored user is kept unchanged and at most the request's email is added |
| `UserController.LoginEndpoint` | src/main/java/dev/anusha/userservice/controller/UserController.java:31-35 | The request goes unanswered, with the encoder's argument exception, exactly when the email is stored and the body has no password. Otherwise the answer is 200 with the issued token exactly when the credentials match, and 400 with an error body when they do not |
| `UserController.MissingPasswordRevealsAccount` | src/main/java/dev/anusha/userservice/controller/UserController.java:31-35 | A login body without a password is answered exactly when the email is unknown, with 400 and the unknown-email message. For a stored email the encoder's argument exception propagates, so the outcome reveals whether the email has an account |
| `UserController.LogoutEndpoint` | src/main/java/dev/anusha/userservice/controller/UserController.java:37-41 | Always 204 with no body, and the store is unchanged |
| `UserController.Raise` | src/main/java/dev/anusha/userservice/exception/GlobalExceptionHandler.java:9-26 | An exception leaving an endpoint is answered by the handler exactly when it is UserAlreadyExists or UserNotFound, with the handler's response. Any other exception propagates unchanged |
| `UserController.ValidationResponse` | src/main/java/dev/anusha/userservice/controller/UserController.java:50-55 | 200 with `true` exactly when a user came back. Otherwise 401 with `false` |
| `UserController.ValidateEndpoint` | src/main/java/dev/anusha/userservice/controller/UserController.java:43-57 | The exception propagates, unanswered, exactly when the stripped token is non-empty and the parser refuses it with its argument exception. An answered request is never 401. It is 200 true exactly when the stripped token is accepted, and otherwise 400 with a "Failure" error body |
| `UserController.ValidateEndpointAnswers` | src/main/java/dev/anusha/userservice/controller/UserController.java:43-49 | With a parser that refuses exactly the strings without text, the request is answered exactly when the stripped header is empty or holds a non-whitespace character |
| `UserController.DoubleSpaceHeaderEscapes` | src/main/java/dev/anusha/userservice/controller/UserController.java:45-49 | The `@RequestHeader` argument "Bearer " plus one more space (the value bound to the parameter, not the raw wire header, which a servlet container may trim) reaches the service as a single space, and the request ends with the uncaught argument exception |
| `UserController.LoginFailuresShareStatus` | src/main/java/dev/anusha/userservice/service/UserServiceImpl.java:79-86 | An unknown email and a wrong password both answer 400 with the same status word. Only the body message differs |
| `UserController.AccountLifecycle` | src/main/java/dev/anusha/userservice/controller/UserController.java:24-57 | With a codec that accepts its tokens before expiry, rejects them after it and issues space-free tokens: signup 201, login 200, validate with "Bearer " + token 200 true, logout 204, and validate again 200 true. After the expiry instant the same header gets 400 "Token is expired." |
| `Security.NewCustomUserDetails` | src/main/java/dev/anusha/userservice/security/model/CustomUserDetails.java:22-33 | Username is the email and password is the stored hash. All four status flags are true. There is one authority per role, in role order, each equal to the role's value |
| `Security.LoadUserByUsername` | src/main/java/dev/anusha/userservice/security/service/CustomUserDetailsService.java:22-30 | An absent email throws UsernameNotFound with its message. Otherwise the details are built from the stored user: the username is the user's email, and the authorities mirror the roles in order |

## Left out

- Token signing and parsing internals (HS256 over base64url JSON, the jjwt builder and parser): foreign library code. The model uses the abstract `Crypto.Codec` and the predicates the service relies on.
- BCrypt hashing, salting and constant-time comparison: foreign library code, and timing cannot be expressed. The model uses the abstract `Crypto.Hasher`.
- The Kafka publish of the welcome email: fire-and-forget I/O. The email is modelled as a value, and JSON serialisation is the boolean parameter `serialises`.
- Reading the clock: `now` is a parameter.
- Java `long` overflow of `now + EXPIRATION_TIME_IN_MS`: instants are unbounded naturals. Overflow would need a clock about 292 million years past the epoch.
- Concurrent signups that race past the uniqueness check: a concurrency concern with no locking in the code.
- `UserRepository`, `User`, `Token` and `Role`: their source is not among the files modelled. They are the `Domain` datatypes and the `UserStore` map. The model treats `findByEmail` as an exact map lookup, with no case folding, because the source leaves the database collation (and so the comparison) open. It treats `save` of a new user as inserting it with the next id. It assumes a new user has no roles and a new token is not deleted.
- `Domain.Token`: `user` is a copy of the user value, where JPA's `token.getUser()` loads the current user row. Nothing modelled updates a stored user, so the two agree.
- A `null` name or email in a request body: only a missing password is modelled (`Option`). The effect of `null` elsewhere depends on the database and JSON layers, which are not in the source.
- Spring wiring: dependency injection, `ResponseEntity`, and request binding (including a missing Authorization header). An exception no handler covers is a `Propagated` reply, because the framework's own error response is not in the source.
- The read-only property of both token queries and of `loadUserByUsername`, and the claim that `login` writes no table: these hold by construction, because those functions return no new table.
- Commented-out code: the random-token login and the key setup.
- `UserService.LoginThenValidate`: promises validity only strictly before the token's whole-second expiry instant. The tie and the sub-second remainder up to `expiresAt` depend on the token library.
- `UserService.ExpiredTokenRejected`: promises rejection only strictly after the whole-second expiry instant, for the same reason.
