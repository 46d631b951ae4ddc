/** Values shared by every service: optional values, the typed exceptions the
    services throw, their fixed messages, and JavaScript truthiness of an
    optional string. */
module Common {

  datatype Option<T> = None | Some(value: T)

  /** The HTTP exceptions the services throw (Conflict, Unauthorized,
      NotFound), plus the database error a violated constraint raises. */
  datatype Exception =
    | Conflict(message: string)
    | Unauthorized(message: string)
    | NotFound(message: string)
    | QueryFailed(message: string)

  /** A service call either returns a value or throws. */
  datatype Result<T> = Ok(value: T) | Err(error: Exception)

  const UsernameExistsMessage := "Username already exists"
  const InvalidCredentialsMessage := "Invalid credentials"
  const InvalidRefreshTokenMessage := "Invalid refresh token"
  const UserNotFoundMessage := "User not found"
  const UsernameInUseMessage := "Username already in use"
  const OldPasswordIncorrectMessage := "Old password is incorrect"
  const UniqueViolationMessage := "duplicate key value violates unique constraint"

  /** `if (s)` on a value of type `string | undefined`: absent and the empty
      string are falsy, every other string is truthy. */
  predicate Truthy(s: Option<string>) {
    s.Some? && s.value != ""
  }
}
