/** The account store: the `Database` of src/database.rs, whose methods read
    the `Users` table and then conditionally create, update or delete one
    row. Every query is assumed to reach the record store and succeed; the
    model is sequential, one operation at a time. */
module Store {
  import opened Models
  import opened Hash
  import opened Table

  class Database {
    /** The hashing library the methods call. */
    const hasher: Hasher
    /** The rows of the `Users` table. */
    var users: seq<User>

    /** The hashing library behaves as assumed, emails and usernames are
        unique, and every stored hash is well-formed. */
    ghost predicate Consistent()
      reads this
    {
      && Sound(hasher)
      && Unique(users)
      && HashesWellFormed(users, hasher.wellFormed)
    }

    /** The object invariant: consistency, and every recovery code lies in
        the range `check_code` draws from. */
    ghost predicate Valid()
      reads this
    {
      Consistent() && CodesInRange(users)
    }

    /** An empty `Users` table. */
    constructor (h: Hasher)
      requires Sound(h)
      ensures Valid() && hasher == h && users == []
    {
      hasher := h;
      users := [];
    }

    /** `check_duplicate_email`: whether some row has this email. */
    function CheckDuplicateEmail(email: string): (r: bool)
      reads this
      ensures r <==> exists i :: 0 <= i < |users| && users[i].email == email
    {
      Select(users, ByEmail(email)).Some?
    }

    /** `check_duplicate_username`: whether some row has this username. */
    function CheckDuplicateUsername(username: string): (r: bool)
      reads this
      ensures r <==> exists i :: 0 <= i < |users| && users[i].username == username
    {
      Select(users, ByUsername(username)).Some?
    }

    /** `get_user`: the row with this username, if there is one. */
    function GetUser(username: string): (r: Option<User>)
      reads this
      ensures r.None? <==> forall i :: 0 <= i < |users| ==> users[i].username != username
      ensures Valid() ==> forall i :: 0 <= i < |users| && users[i].username == username ==>
        r == Some(users[i])
    {
      var r := Select(users, ByUsername(username));
      assert Valid() ==> forall i :: 0 <= i < |users| && users[i].username == username ==>
        r == Some(users[i]) by {
        if Valid() {
          forall i | 0 <= i < |users| && users[i].username == username
            ensures r == Some(users[i])
          {
            SelectUnique(users, ByUsername(username), i);
          }
        }
      }
      r
    }

    /** The row `signup` creates for a request, given the salt drawn for it. */
    function NewUser(user: SignUp, salt: string): User
      reads this
    {
      User(user.email, user.username, hasher.hash(user.password, salt), false, None)
    }

    /** `signup`: a taken email is rejected first, then a taken username;
        either rejection leaves the table as it was. Otherwise exactly one
        row is added, holding the hash of the password, logged out and
        without a recovery code, and that row is returned. */
    method Signup(user: SignUp, salt: string) returns (r: Result<Option<User>>)
      requires Valid()
      modifies this
      ensures Valid()
      ensures old(CheckDuplicateEmail(user.email)) ==>
        r == Err(EmailInUse) && users == old(users)
      ensures !old(CheckDuplicateEmail(user.email)) && old(CheckDuplicateUsername(user.username)) ==>
        r == Err(UsernameTaken) && users == old(users)
      ensures !old(CheckDuplicateEmail(user.email)) && !old(CheckDuplicateUsername(user.username)) ==>
        r == Ok(Some(NewUser(user, salt))) && users == old(users) + [NewUser(user, salt)]
    {
      if CheckDuplicateEmail(user.email) {
        return Err(EmailInUse);
      }
      if CheckDuplicateUsername(user.username) {
        return Err(UsernameTaken);
      }
      var passwordHash := hasher.hash(user.password, salt);
      var created := User(user.email, user.username, passwordHash, false, None);
      CreateKeepsUnique(users, created);
      users := users + [created];
      r := Ok(Some(created));
    }

    /** The login shared by `email_login` and `username_login`: look the row
        up by `k`, check the password, refuse a row already logged in, and
        otherwise set `logged_in` on the row with the found row's email. An
        unknown row and a wrong password give the same `failure` message. */
    method Login(k: Key, password: string, failure: string) returns (r: Result<LoginSuccess>)
      requires Valid()
      modifies this
      ensures Valid()
      ensures old(Select(users, k)).None? ==> r == Err(failure) && users == old(users)
      ensures forall i :: 0 <= i < |old(users)| && Matches(old(users)[i], k) ==>
        var u := old(users)[i];
        && (!hasher.verify(password, u.password) ==> r == Err(failure) && users == old(users))
        && (hasher.verify(password, u.password) && u.loggedIn ==>
              r == Err(AlreadyLoggedIn) && users == old(users))
        && (hasher.verify(password, u.password) && !u.loggedIn ==>
              r == Ok(LoginSuccess(u.email, u.username)) &&
              users == old(users)[i := u.(loggedIn := true)])
    {
      var found := Select(users, k);
      match found {
        case None =>
          r := Err(failure);
        case Some(user) =>
          ghost var i :| 0 <= i < |users| && users[i] == user;
          OnlyMatch(users, k, i);
          if VerifyPassword(hasher, password, user.password) {
            if user.loggedIn {
              r := Err(AlreadyLoggedIn);
            } else {
              ghost var before := users;
              ghost var updated := user.(loggedIn := true);
              UpdateUnique(before, ByEmail(user.email), SetLoggedIn(true), i);
              users := UpdateWhere(users, ByEmail(user.email), SetLoggedIn(true));
              assert users == before[i := updated];
              ReplaceKeepsUnique(before, i, updated);
              ReplaceKeepsHashes(before, i, updated, hasher.wellFormed);
              ReplaceKeepsCodes(before, i, updated);
              r := Ok(LoginSuccess(user.email, user.username));
            }
          } else {
            r := Err(failure);
          }
      }
    }

    /** `email_login`. */
    method EmailLogin(credentials: EmailLogin) returns (r: Result<LoginSuccess>)
      requires Valid()
      modifies this
      ensures Valid()
      ensures !old(CheckDuplicateEmail(credentials.email)) ==>
        r == Err(EmailLoginFailed) && users == old(users)
      ensures forall i :: 0 <= i < |old(users)| && old(users)[i].email == credentials.email ==>
        var u := old(users)[i];
        && (!hasher.verify(credentials.password, u.password) ==>
              r == Err(EmailLoginFailed) && users == old(users))
        && (hasher.verify(credentials.password, u.password) && u.loggedIn ==>
              r == Err(AlreadyLoggedIn) && users == old(users))
        && (hasher.verify(credentials.password, u.password) && !u.loggedIn ==>
              r == Ok(LoginSuccess(u.email, u.username)) &&
              users == old(users)[i := u.(loggedIn := true)])
    {
      r := Login(ByEmail(credentials.email), credentials.password, EmailLoginFailed);
    }

    /** `username_login`; the update it makes is still keyed by the found
        row's email. */
    method UsernameLogin(credentials: UsernameLogin) returns (r: Result<LoginSuccess>)
      requires Valid()
      modifies this
      ensures Valid()
      ensures !old(CheckDuplicateUsername(credentials.username)) ==>
        r == Err(UsernameLoginFailed) && users == old(users)
      ensures forall i :: 0 <= i < |old(users)| && old(users)[i].username == credentials.username ==>
        var u := old(users)[i];
        && (!hasher.verify(credentials.password, u.password) ==>
              r == Err(UsernameLoginFailed) && users == old(users))
        && (hasher.verify(credentials.password, u.password) && u.loggedIn ==>
              r == Err(AlreadyLoggedIn) && users == old(users))
        && (hasher.verify(credentials.password, u.password) && !u.loggedIn ==>
              r == Ok(LoginSuccess(u.email, u.username)) &&
              users == old(users)[i := u.(loggedIn := true)])
    {
      r := Login(ByUsername(credentials.username), credentials.password, UsernameLoginFailed);
    }

    /** `delete_user`: a missing user is reported; otherwise its row, and no
        other, is removed. The `DELETE` statement returns no row. */
    method DeleteUser(username: string) returns (r: Result<Option<User>>)
      requires Valid()
      modifies this
      ensures Valid()
      ensures old(GetUser(username)).None? ==> r == Err(UserNotFound) && users == old(users)
      ensures forall i :: 0 <= i < |old(users)| && old(users)[i].username == username ==>
        r == Ok(None) && users == old(users)[..i] + old(users)[i + 1..]
    {
      var found := GetUser(username);
      match found {
        case None =>
          r := Err(UserNotFound);
        case Some(user) =>
          ghost var i :| 0 <= i < |users| && users[i] == user;
          DeleteUnique(users, ByUsername(username), i);
          RemoveKeepsInvariants(users, i, hasher.wellFormed);
          users := DeleteWhere(users, ByUsername(username));
          r := Ok(None);
      }
    }

    /** `signout`: a missing user and a user not logged in are reported;
        otherwise that user's `logged_in` is cleared. */
    method Signout(username: string) returns (r: Result<string>)
      requires Valid()
      modifies this
      ensures Valid()
      ensures old(GetUser(username)).None? ==> r == Err(UserNotFound) && users == old(users)
      ensures forall i :: 0 <= i < |old(users)| && old(users)[i].username == username ==>
        var u := old(users)[i];
        && (!u.loggedIn ==> r == Err(NotLoggedIn) && users == old(users))
        && (u.loggedIn ==> r == Ok(LoggedOut) && users == old(users)[i := u.(loggedIn := false)])
    {
      var found := GetUser(username);
      match found {
        case None =>
          r := Err(UserNotFound);
        case Some(user) =>
          if user.loggedIn {
            ghost var i :| 0 <= i < |users| && users[i] == user;
            ghost var before := users;
            ghost var updated := user.(loggedIn := false);
            UpdateUnique(before, ByUsername(username), SetLoggedIn(false), i);
            users := UpdateWhere(users, ByUsername(username), SetLoggedIn(false));
            assert users == before[i := updated];
            ReplaceKeepsUnique(before, i, updated);
            ReplaceKeepsHashes(before, i, updated, hasher.wellFormed);
            ReplaceKeepsCodes(before, i, updated);
            r := Ok(LoggedOut);
          } else {
            r := Err(NotLoggedIn);
          }
      }
    }

    /** `add_code`: stores `code` on the user's row and returns the updated
        row. The source unwraps the updated row, so it demands that the
        user exists; its one caller, `check_code`, has just found it. */
    method AddCode(username: string, code: i32) returns (r: User)
      requires Consistent()
      requires exists i :: 0 <= i < |users| && users[i].username == username
      modifies this
      ensures Consistent()
      ensures forall i :: 0 <= i < |old(users)| && old(users)[i].username == username ==>
        r == old(users)[i].(recoveryCode := Some(code)) && users == old(users)[i := r]
    {
      ghost var i :| 0 <= i < |users| && users[i].username == username;
      ghost var before := users;
      UpdateRow(before, ByUsername(username), SetRecoveryCode(code), i);
      users := UpdateWhere(users, ByUsername(username), SetRecoveryCode(code));
      r := Select(users, ByUsername(username)).value;
      assert users == before[i := r] && r == before[i].(recoveryCode := Some(code));
      ReplaceKeepsHashes(before, i, r, hasher.wellFormed);
      assert forall j :: 0 <= j < |before| && before[j].username == username ==>
        Matches(before[j], ByUsername(username));
    }

    /** `check_code`: a missing user is reported; a user who already holds a
        recovery code keeps it; otherwise a code between 100000 and 999999
        is drawn and stored on that user's row alone. */
    method CheckCode(username: string) returns (r: Result<User>)
      requires Valid()
      modifies this
      ensures Valid()
      ensures old(GetUser(username)).None? ==> r == Err(UserDoesNotExist) && users == old(users)
      ensures forall i :: 0 <= i < |old(users)| && old(users)[i].username == username ==>
        var u := old(users)[i];
        && (u.recoveryCode.Some? ==> r == Err(CodeExists) && users == old(users))
        && (u.recoveryCode.None? ==>
              && r.Ok? && r.value.recoveryCode.Some? && CodeInRange(r.value.recoveryCode.value)
              && r.value == u.(recoveryCode := r.value.recoveryCode)
              && users == old(users)[i := r.value])
    {
      var found := GetUser(username);
      match found {
        case None =>
          r := Err(UserDoesNotExist);
        case Some(user) =>
          if user.recoveryCode.Some? {
            r := Err(CodeExists);
          } else {
            assert CodeInRange(CodeLow);
            var code: i32 :| CodeInRange(code);
            var updated := AddCode(username, code);
            r := Ok(updated);
          }
      }
    }
  }
}
