/** Properties of sequences of account-store operations, stated as client
    methods that call the store and prove what callers observe. */
module Sessions {
  import opened Models
  import opened Hash
  import opened Table
  import opened Store

  /** Two email logins with no signout between them: the second always
      fails, and after a successful first one it fails as already logged
      in. */
  method EmailLoginTwice(db: Database, credentials: EmailLogin)
    returns (first: Result<LoginSuccess>, second: Result<LoginSuccess>)
    requires db.Valid()
    modifies db
    ensures db.Valid()
    ensures second.Err?
    ensures first.Ok? ==> second == Err(AlreadyLoggedIn)
  {
    ghost var before := db.users;
    first := db.EmailLogin(credentials);
    ghost var between := db.users;
    second := db.EmailLogin(credentials);
    if first.Ok? {
      ghost var i :| 0 <= i < |before| && before[i].email == credentials.email;
      assert db.hasher.verify(credentials.password, before[i].password) && !before[i].loggedIn;
      assert between == before[i := before[i].(loggedIn := true)];
      assert between[i].email == credentials.email && between[i].loggedIn;
    }
  }

  /** The same for two username logins. */
  method UsernameLoginTwice(db: Database, credentials: UsernameLogin)
    returns (first: Result<LoginSuccess>, second: Result<LoginSuccess>)
    requires db.Valid()
    modifies db
    ensures db.Valid()
    ensures second.Err?
    ensures first.Ok? ==> second == Err(AlreadyLoggedIn)
  {
    ghost var before := db.users;
    first := db.UsernameLogin(credentials);
    ghost var between := db.users;
    second := db.UsernameLogin(credentials);
    if first.Ok? {
      ghost var i :| 0 <= i < |before| && before[i].username == credentials.username;
      assert db.hasher.verify(credentials.password, before[i].password) && !before[i].loggedIn;
      assert between == before[i := before[i].(loggedIn := true)];
      assert between[i].username == credentials.username && between[i].loggedIn;
    }
  }

  /** A successful signup followed by an email login with the same password
      logs the new account in and returns its email and username; with any
      other password the login fails with the uniform message. */
  method SignupThenLogin(db: Database, user: SignUp, salt: string, password: string)
    returns (created: Result<Option<User>>, login: Result<LoginSuccess>)
    requires db.Valid()
    modifies db
    ensures db.Valid()
    ensures created.Ok? && password == user.password ==>
      login == Ok(LoginSuccess(user.email, user.username))
    ensures created.Ok? && password != user.password ==> login == Err(EmailLoginFailed)
  {
    created := db.Signup(user, salt);
    ghost var between := db.users;
    login := db.EmailLogin(EmailLogin(user.email, password, user.apiKey));
    if created.Ok? {
      assert between[|between| - 1].email == user.email;
    }
  }

  /** Two `check_code` calls: the second always fails, and never replaces
      the code the first one stored. */
  method CheckCodeTwice(db: Database, username: string)
    returns (first: Result<User>, second: Result<User>)
    requires db.Valid()
    modifies db
    ensures db.Valid()
    ensures second.Err?
    ensures first.Ok? ==> second == Err(CodeExists)
    ensures first.Ok? ==> exists i :: 0 <= i < |db.users| && db.users[i] == first.value
  {
    ghost var before := db.users;
    first := db.CheckCode(username);
    ghost var between := db.users;
    second := db.CheckCode(username);
    if first.Ok? {
      ghost var i :| 0 <= i < |before| && before[i].username == username;
      assert between == before[i := first.value];
      assert between[i].username == username && between[i].recoveryCode.Some?;
    }
  }

  /** A signout followed by a login with the right password logs the user
      back in; a login with a wrong password is still refused. */
  method SignoutThenLogin(db: Database, username: string, password: string)
    returns (out: Result<string>, login: Result<LoginSuccess>)
    requires db.Valid()
    modifies db
    ensures db.Valid()
    ensures out == Ok(LoggedOut) ==>
      forall i :: 0 <= i < |old(db.users)| && old(db.users)[i].username == username ==>
        (db.hasher.verify(password, old(db.users)[i].password) <==> login.Ok?)
  {
    ghost var before := db.users;
    out := db.Signout(username);
    ghost var between := db.users;
    login := db.UsernameLogin(UsernameLogin(username, password, ""));
    if out == Ok(LoggedOut) {
      ghost var i :| 0 <= i < |before| && before[i].username == username;
      assert between == before[i := before[i].(loggedIn := false)];
      assert between[i].username == username && !between[i].loggedIn;
      assert between[i].password == before[i].password;
    }
  }

  /** The walk-through: sign alice up, refuse a second account on her email,
      log her in, refuse a second login, log her out, and refuse a login
      with a wrong password. */
  method Walkthrough(h: Hasher, salt1: string, salt2: string)
    returns (r1: Result<Option<User>>, r2: Result<Option<User>>,
             r3: Result<LoginSuccess>, r4: Result<LoginSuccess>,
             r5: Result<string>, r6: Result<LoginSuccess>)
    requires Sound(h)
    ensures r1.Ok? && r2 == Err(EmailInUse)
    ensures r3 == Ok(LoginSuccess("a@x.com", "alice")) && r4 == Err(AlreadyLoggedIn)
    ensures r5 == Ok(LoggedOut) && r6 == Err(EmailLoginFailed)
  {
    var db := new Database(h);
    r1, r2 := WalkthroughSignups(db, salt1, salt2);
    r3, r4, r5, r6 := WalkthroughSessions(db, User("a@x.com", "alice", h.hash("p1", salt1), false, None));
  }

  method WalkthroughSignups(db: Database, salt1: string, salt2: string)
    returns (r1: Result<Option<User>>, r2: Result<Option<User>>)
    requires db.Valid() && db.users == []
    modifies db
    ensures db.Valid()
    ensures db.users == [User("a@x.com", "alice", db.hasher.hash("p1", salt1), false, None)]
    ensures r1.Ok? && r2 == Err(EmailInUse)
  {
    r1 := db.Signup(SignUp("a@x.com", "alice", "p1", ""), salt1);
    assert db.users[0].email == "a@x.com";
    r2 := db.Signup(SignUp("a@x.com", "bob", "p2", ""), salt2);
  }

  method WalkthroughSessions(db: Database, alice: User)
    returns (r3: Result<LoginSuccess>, r4: Result<LoginSuccess>,
             r5: Result<string>, r6: Result<LoginSuccess>)
    requires db.Valid() && db.users == [alice]
    requires alice == User("a@x.com", "alice", alice.password, false, None)
    requires db.hasher.verify("p1", alice.password) && !db.hasher.verify("wrong", alice.password)
    modifies db
    ensures db.Valid() && db.users == [alice]
    ensures r3 == Ok(LoginSuccess("a@x.com", "alice")) && r4 == Err(AlreadyLoggedIn)
    ensures r5 == Ok(LoggedOut) && r6 == Err(EmailLoginFailed)
  {
    r3 := db.EmailLogin(EmailLogin("a@x.com", "p1", ""));
    assert db.users == [alice.(loggedIn := true)];
    r4 := db.EmailLogin(EmailLogin("a@x.com", "p1", ""));
    r5 := db.Signout("alice");
    assert db.users == [alice];
    r6 := db.EmailLogin(EmailLogin("a@x.com", "wrong", ""));
  }
}
