/** Records exchanged with the `Users` table and with the HTTP handlers,
    and the error messages the account store and the handlers produce. */
module Models {

  datatype Option<+T> = None | Some(value: T)

  /** The store's and the handlers' outcome: a value, or the message of a
      thrown database error. */
  datatype Result<+T> = Ok(value: T) | Err(error: string)

  /** A signed 32-bit integer, the type of a stored recovery code. */
  newtype i32 = x: int | -0x8000_0000 <= x < 0x8000_0000

  /** One row of the `Users` table. `password` holds the password hash,
      never the plaintext. */
  datatype User = User(
    email: string,
    username: string,
    password: string,
    loggedIn: bool,
    recoveryCode: Option<i32>)

  /** Request bodies. */
  datatype SignUp = SignUp(email: string, username: string, password: string, apiKey: string)
  datatype EmailLogin = EmailLogin(email: string, password: string, apiKey: string)
  datatype UsernameLogin = UsernameLogin(username: string, password: string, apiKey: string)

  /** The public identity pair a successful login returns. */
  datatype LoginSuccess = LoginSuccess(email: string, username: string)

  // Messages thrown by the account store.
  const EmailInUse := "Email already in use"
  const UsernameTaken := "Username already taken"
  const EmailLoginFailed := "Email or Password is incorret try again"
  const UsernameLoginFailed := "Username or Password is incorret try again"
  const AlreadyLoggedIn := "User already logged in"
  const UserNotFound := "User not found"
  const NotLoggedIn := "User is not logged in"
  const LoggedOut := "User successfully logged out"
  const CodeExists := "Account recovery code already exists on user"
  const UserDoesNotExist := "User doesn't exists"

  // Messages produced by the HTTP handlers.
  const InvalidApiKey := "Api key is invalid"
  const CreationFailed := "An error occured"
  const UserDeleted := "User deleted"

  /** Bounds of the recovery code drawn by `check_code`: 100000 up to and
      including 999999. */
  const CodeLow: i32 := 100_000
  const CodeHigh: i32 := 1_000_000

  predicate CodeInRange(c: i32) {
    CodeLow <= c < CodeHigh
  }
}
