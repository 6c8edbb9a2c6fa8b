/** The entities the user service works on and the exceptions it throws. */
module Domain {

  /** A role of a user; `value` is the string its granted authority carries. */
  datatype Role = Role(value: string)

  /** An account. `password` holds the hash signup stored; with a hasher that
      never returns its input, that is not the plaintext (see
      `UserService.SignupKeepsStoreValid`). */
  datatype User = User(id: nat, name: string, email: string, password: string, roles: seq<Role>)

  /** A session token, as `login` returns it and as a row of the token table.
      `expiresAt` is an instant in milliseconds since the epoch. */
  datatype Token = Token(tokenValue: string, user: User, expiresAt: nat, isDeleted: bool)

  /** The exceptions that leave the service layer. */
  datatype ServiceError =
    | UserAlreadyExists(message: string)
    /** Every login and every validation failure. */
    | UserNotFound(message: string)
    /** The `RuntimeException` thrown when the welcome email cannot be serialised. */
    | SerialisationFailed(message: string)
    /** Spring Data's `IncorrectResultSizeDataAccessException`: a single-result
        query matched several rows. */
    | IncorrectResultSize
    /** An `IllegalArgumentException` that nothing catches: the token
        library's for a token without text, or the password encoder's for a
        `null` password. */
    | IllegalArgument

  function AlreadyExistsMessage(email: string): string {
    "User with this email (" + email + ") already exists, Try logging in instead."
  }

  function NoSuchUserAtLoginMessage(email: string): string {
    "User with this email (" + email + ") does not exist, please sign up first."
  }

  function IncorrectPasswordMessage(email: string): string {
    "Incorrect password for user with email (" + email + ")."
  }

  const EmptyTokenMessage := "Token is null or empty."
  const ExpiredTokenMessage := "Token is expired."
  const InvalidTokenMessage := "Invalid token."
  const NoSubjectMessage := "Invalid token: No subject found."

  function NoSuchUserAtValidationMessage(email: string): string {
    "User with this email (" + email + ") does not exist."
  }

  const InvalidOrExpiredMessage := "Invalid or expired token."
  const SerialisationMessage := "Error while converting SendEmailDto to JSON"
}
