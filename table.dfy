/** The `Users` table as the account store queries it: a sequence of rows,
    and the meaning of the store's `SELECT`, `CREATE`, `UPDATE ... SET` and
    `DELETE` statements, each restricted by `WHERE field = value`. */
module Table {
  import opened Models

  /** The `WHERE` clause of a query: an exact match on one field. */
  datatype Key = ByEmail(email: string) | ByUsername(username: string)

  predicate Matches(u: User, k: Key) {
    match k
    case ByEmail(e) => u.email == e
    case ByUsername(n) => u.username == n
  }

  /** The `SET` clause of an `UPDATE`. */
  datatype Assignment = SetLoggedIn(loggedIn: bool) | SetRecoveryCode(code: i32)

  function Apply(u: User, a: Assignment): (r: User)
    ensures r.email == u.email && r.username == u.username && r.password == u.password
  {
    match a
    case SetLoggedIn(b) => u.(loggedIn := b)
    case SetRecoveryCode(c) => u.(recoveryCode := Some(c))
  }

  /** No two rows share an email, and no two rows share a username. */
  ghost predicate Unique(users: seq<User>) {
    forall i, j :: 0 <= i < j < |users| ==>
      users[i].email != users[j].email && users[i].username != users[j].username
  }

  /** Every stored password hash satisfies `wellFormed`. */
  ghost predicate HashesWellFormed(users: seq<User>, wellFormed: string -> bool) {
    forall i :: 0 <= i < |users| ==> wellFormed(users[i].password)
  }

  /** Every stored recovery code lies in the range `check_code` draws from. */
  ghost predicate CodesInRange(users: seq<User>) {
    forall i :: 0 <= i < |users| && users[i].recoveryCode.Some? ==>
      CodeInRange(users[i].recoveryCode.value)
  }

  /** `SELECT * FROM Users WHERE k` read back as one optional row: the
      matching row, or none when no row matches. Which row is chosen matters
      only in a table with a repeated email or username, which the store's
      invariant excludes. */
  function Select(users: seq<User>, k: Key): (r: Option<User>)
    ensures r.Some? ==> r.value in users && Matches(r.value, k)
    ensures r.None? <==> forall i :: 0 <= i < |users| ==> !Matches(users[i], k)
  {
    if users == [] then None
    else if Matches(users[0], k) then Some(users[0])
    else Select(users[1..], k)
  }

  /** `UPDATE Users SET a WHERE k`: every matching row is updated, every
      other row is left as it was. */
  function UpdateWhere(users: seq<User>, k: Key, a: Assignment): (r: seq<User>)
    ensures |r| == |users|
    ensures forall i :: 0 <= i < |users| && Matches(users[i], k) ==> r[i] == Apply(users[i], a)
    ensures forall i :: 0 <= i < |users| && !Matches(users[i], k) ==> r[i] == users[i]
  {
    if users == [] then []
    else [if Matches(users[0], k) then Apply(users[0], a) else users[0]]
         + UpdateWhere(users[1..], k, a)
  }

  /** `DELETE Users WHERE k`: the matching rows are removed, every other
      row is kept as often as it occurs (`DeleteCounts`) and in its order
      (`DeleteAppend`). */
  function DeleteWhere(users: seq<User>, k: Key): seq<User>
  {
    if users == [] then []
    else if Matches(users[0], k) then DeleteWhere(users[1..], k)
    else [users[0]] + DeleteWhere(users[1..], k)
  }

  /** A delete keeps every row that does not match as many times as the
      table holds it, and no matching row. */
  lemma {:induction false} DeleteCounts(users: seq<User>, k: Key)
    ensures forall u ::
      multiset(DeleteWhere(users, k))[u] == if Matches(u, k) then 0 else multiset(users)[u]
  {
    if users != [] {
      DeleteCounts(users[1..], k);
      assert users == [users[0]] + users[1..];
    }
  }

  /** A delete works on each part of the table separately, so the rows it
      keeps stay in their relative order. */
  lemma {:induction false} DeleteAppend(a: seq<User>, b: seq<User>, k: Key)
    ensures DeleteWhere(a + b, k) == DeleteWhere(a, k) + DeleteWhere(b, k)
  {
    if a == [] {
      assert a + b == b;
    } else {
      assert (a + b)[0] == a[0] && (a + b)[1..] == a[1..] + b;
      DeleteAppend(a[1..], b, k);
    }
  }

  /** Dropping the first row keeps the table unique. */
  lemma UniqueTail(users: seq<User>)
    requires users != [] && Unique(users)
    ensures Unique(users[1..])
  {
  }

  /** With unique emails and usernames, a lookup finds exactly the row that
      matches. */
  lemma SelectUnique(users: seq<User>, k: Key, i: nat)
    requires Unique(users) && i < |users| && Matches(users[i], k)
    ensures Select(users, k) == Some(users[i])
  {
  }

  /** With unique emails and usernames, an update keyed by a row's email or
      username changes that row alone. */
  lemma UpdateUnique(users: seq<User>, k: Key, a: Assignment, i: nat)
    requires Unique(users) && i < |users| && Matches(users[i], k)
    ensures UpdateWhere(users, k, a) == users[i := Apply(users[i], a)]
  {
  }

  /** What an update keyed by the row at `i` amounts to in a unique table:
      no other row matches, the row alone is replaced, the table stays
      unique, and a lookup by the same key then finds the updated row. */
  lemma UpdateRow(users: seq<User>, k: Key, a: Assignment, i: nat)
    requires Unique(users) && i < |users| && Matches(users[i], k)
    ensures forall j :: 0 <= j < |users| && Matches(users[j], k) ==> j == i
    ensures UpdateWhere(users, k, a) == users[i := Apply(users[i], a)]
    ensures Unique(UpdateWhere(users, k, a))
    ensures Select(UpdateWhere(users, k, a), k) == Some(Apply(users[i], a))
  {
    OnlyMatch(users, k, i);
    UpdateUnique(users, k, a, i);
    var r := users[i := Apply(users[i], a)];
    ReplaceKeepsUnique(users, i, Apply(users[i], a));
    assert Matches(r[i], k);
    SelectUnique(r, k, i);
  }

  /** With unique emails and usernames, deleting by a row's key removes
      exactly that row. */
  lemma {:induction false} DeleteUnique(users: seq<User>, k: Key, i: nat)
    requires Unique(users) && i < |users| && Matches(users[i], k)
    ensures DeleteWhere(users, k) == users[..i] + users[i + 1..]
    decreases |users|, 1
  {
    UniqueTail(users);
    if i == 0 {
      OnlyMatch(users, k, 0);
      DeleteNone(users[1..], k);
      assert users[..0] + users[1..] == users[1..];
    } else {
      DeleteUniqueStep(users, k, i);
    }
  }

  /** In a unique table, the row at `i` is the only one matching its key. */
  lemma OnlyMatch(users: seq<User>, k: Key, i: nat)
    requires Unique(users) && i < |users| && Matches(users[i], k)
    ensures forall j :: 0 <= j < |users| && j != i ==> !Matches(users[j], k)
  {
  }

  /** The step of `DeleteUnique` for a match past the first row. */
  lemma {:induction false} DeleteUniqueStep(users: seq<User>, k: Key, i: nat)
    requires 0 < i < |users| && Matches(users[i], k) && !Matches(users[0], k)
    requires Unique(users[1..])
    ensures DeleteWhere(users, k) == users[..i] + users[i + 1..]
    decreases |users|, 0
  {
    var tail := users[1..];
    assert tail[i - 1] == users[i];
    DeleteUnique(tail, k, i - 1);
    assert DeleteWhere(users, k) == [users[0]] + DeleteWhere(tail, k);
    SplitAround(users, i);
  }

  /** Removing the row at `i > 0`, seen from the first row and the rest. */
  lemma SplitAround(users: seq<User>, i: nat)
    requires 0 < i < |users|
    ensures users[..i] + users[i + 1..] == [users[0]] + (users[1..][..i - 1] + users[1..][i..])
  {
  }

  /** Deleting by a key no row matches leaves the table as it was. */
  lemma DeleteNone(users: seq<User>, k: Key)
    requires forall j :: 0 <= j < |users| ==> !Matches(users[j], k)
    ensures DeleteWhere(users, k) == users
  {
    if users != [] {
      DeleteNone(users[1..], k);
    }
  }

  /** Removing one row keeps the remaining keys unique, the remaining
      hashes well-formed and the remaining codes in range. */
  lemma RemoveKeepsInvariants(users: seq<User>, i: nat, wellFormed: string -> bool)
    requires i < |users|
    ensures Unique(users) ==> Unique(users[..i] + users[i + 1..])
    ensures HashesWellFormed(users, wellFormed) ==> HashesWellFormed(users[..i] + users[i + 1..], wellFormed)
    ensures CodesInRange(users) ==> CodesInRange(users[..i] + users[i + 1..])
  {
  }

  /** Replacing a row by one with the same email and username keeps the
      table unique. */
  lemma ReplaceKeepsUnique(users: seq<User>, i: nat, v: User)
    requires Unique(users) && i < |users|
    requires v.email == users[i].email && v.username == users[i].username
    ensures Unique(users[i := v])
  {
  }

  /** Replacing a row by one with the same password hash keeps every hash
      well-formed. */
  lemma ReplaceKeepsHashes(users: seq<User>, i: nat, v: User, wellFormed: string -> bool)
    requires HashesWellFormed(users, wellFormed) && i < |users|
    requires v.password == users[i].password
    ensures HashesWellFormed(users[i := v], wellFormed)
  {
  }

  /** Replacing a row by one whose recovery code, if any, is in range keeps
      every code in range. */
  lemma ReplaceKeepsCodes(users: seq<User>, i: nat, v: User)
    requires CodesInRange(users) && i < |users|
    requires v.recoveryCode.Some? ==> CodeInRange(v.recoveryCode.value)
    ensures CodesInRange(users[i := v])
  {
  }

  /** A new row whose email and username are both absent keeps the table
      unique. */
  lemma CreateKeepsUnique(users: seq<User>, u: User)
    requires Unique(users)
    requires Select(users, ByEmail(u.email)).None?
    requires Select(users, ByUsername(u.username)).None?
    ensures Unique(users + [u])
  {
  }
}
