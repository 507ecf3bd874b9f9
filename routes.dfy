/** The HTTP handlers: each verifies the presented API key against the
    stored hash of the service's key before it touches the account store,
    then turns the store's outcome into the handler's reply. */
module Routes {
  import opened Models
  import opened Hash
  import opened Table
  import opened Store

  /** The `signup` handler. */
  method Signup(db: Database, apiKeyHash: string, user: SignUp, salt: string)
    returns (r: Result<User>)
    requires db.Valid() && db.hasher.wellFormed(apiKeyHash)
    modifies db
    ensures db.Valid()
    ensures !db.hasher.verify(user.apiKey, apiKeyHash) ==>
      r == Err(InvalidApiKey) && db.users == old(db.users)
    ensures db.hasher.verify(user.apiKey, apiKeyHash) ==>
      && (old(db.CheckDuplicateEmail(user.email)) ==>
            r == Err(EmailInUse) && db.users == old(db.users))
      && (!old(db.CheckDuplicateEmail(user.email)) && old(db.CheckDuplicateUsername(user.username)) ==>
            r == Err(UsernameTaken) && db.users == old(db.users))
      && (!old(db.CheckDuplicateEmail(user.email)) && !old(db.CheckDuplicateUsername(user.username)) ==>
            r == Ok(db.NewUser(user, salt)) && db.users == old(db.users) + [db.NewUser(user, salt)])
  {
    var keyValid := VerifyPassword(db.hasher, user.apiKey, apiKeyHash);
    if keyValid {
      var created := db.Signup(user, salt);
      match created {
        case Ok(Some(u)) => r := Ok(u);
        case Ok(None) => r := Err(CreationFailed);
        case Err(e) => r := Err(e);
      }
    } else {
      r := Err(InvalidApiKey);
    }
  }

  /** The `get_user` handler. */
  method GetUser(db: Database, apiKeyHash: string, username: string, key: string)
    returns (r: Result<User>)
    requires db.Valid() && db.hasher.wellFormed(apiKeyHash)
    ensures !db.hasher.verify(key, apiKeyHash) ==> r == Err(InvalidApiKey)
    ensures db.hasher.verify(key, apiKeyHash) ==>
      && ((forall i :: 0 <= i < |db.users| ==> db.users[i].username != username) ==>
            r == Err(UserNotFound))
      && (forall i :: 0 <= i < |db.users| && db.users[i].username == username ==>
            r == Ok(db.users[i]))
  {
    var keyValid := VerifyPassword(db.hasher, key, apiKeyHash);
    if keyValid {
      var found := db.GetUser(username);
      match found {
        case Some(u) => r := Ok(u);
        case None => r := Err(UserNotFound);
      }
    } else {
      r := Err(InvalidApiKey);
    }
  }

  /** The `delete_user` handler. */
  method DeleteUser(db: Database, apiKeyHash: string, username: string, key: string)
    returns (r: Result<string>)
    requires db.Valid() && db.hasher.wellFormed(apiKeyHash)
    modifies db
    ensures db.Valid()
    ensures !db.hasher.verify(key, apiKeyHash) ==>
      r == Err(InvalidApiKey) && db.users == old(db.users)
    ensures db.hasher.verify(key, apiKeyHash) ==>
      && (old(db.GetUser(username)).None? ==> r == Err(UserNotFound) && db.users == old(db.users))
      && (forall i :: 0 <= i < |old(db.users)| && old(db.users)[i].username == username ==>
            r == Ok(UserDeleted) && db.users == old(db.users)[..i] + old(db.users)[i + 1..])
  {
    var keyValid := VerifyPassword(db.hasher, key, apiKeyHash);
    if keyValid {
      var deleted := db.DeleteUser(username);
      match deleted {
        case Ok(_) => r := Ok(UserDeleted);
        case Err(e) => r := Err(e);
      }
    } else {
      r := Err(InvalidApiKey);
    }
  }

  /** The `email_login` handler: the store's outcome is the reply. */
  method EmailLogin(db: Database, apiKeyHash: string, credentials: EmailLogin)
    returns (r: Result<LoginSuccess>)
    requires db.Valid() && db.hasher.wellFormed(apiKeyHash)
    modifies db
    ensures db.Valid()
    ensures !db.hasher.verify(credentials.apiKey, apiKeyHash) ==>
      r == Err(InvalidApiKey) && db.users == old(db.users)
    ensures db.hasher.verify(credentials.apiKey, apiKeyHash) ==>
      && (!old(db.CheckDuplicateEmail(credentials.email)) ==>
            r == Err(EmailLoginFailed) && db.users == old(db.users))
      && (forall i :: 0 <= i < |old(db.users)| && old(db.users)[i].email == credentials.email ==>
            var u := old(db.users)[i];
            && (!db.hasher.verify(credentials.password, u.password) ==>
                  r == Err(EmailLoginFailed) && db.users == old(db.users))
            && (db.hasher.verify(credentials.password, u.password) && u.loggedIn ==>
                  r == Err(AlreadyLoggedIn) && db.users == old(db.users))
            && (db.hasher.verify(credentials.password, u.password) && !u.loggedIn ==>
                  r == Ok(LoginSuccess(u.email, u.username)) &&
                  db.users == old(db.users)[i := u.(loggedIn := true)]))
  {
    var keyValid := VerifyPassword(db.hasher, credentials.apiKey, apiKeyHash);
    if keyValid {
      r := db.EmailLogin(credentials);
    } else {
      r := Err(InvalidApiKey);
    }
  }
}
