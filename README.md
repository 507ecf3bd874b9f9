# RustAuth account store, modelled in Dafny

RustAuth is a small authentication service. Its account store
(`src/database.rs`) keeps one `Users` table of records holding an email, a
username, a password hash, a `logged_in` flag and an optional recovery code.
It offers duplicate probes, signup, login by email or by username, signout,
lookup, deletion and the issuing of an account-recovery code. Its HTTP
handlers (`src/routes.rs`) check the caller's API key against the stored
hash of the service key before they call the store. Then they turn the
store's outcome into a reply.

The model has six modules:

- `Models` (models.dfy): the records of `src/models.rs`, the error messages
  the store and the handlers produce, and a 32-bit integer type for the
  recovery code.
- `Hash` (hash.dfy): the hashing library, left abstract. A `Hasher` is three
  functions: `hash`, `wellFormed` and `verify`. `Sound` is everything the
  model assumes of them:
  - every hash is well-formed;
  - every hash verifies against its own password;
  - no hash verifies against any other password.

  `VerifyPassword` requires a well-formed hash. This models the
  `.ok().unwrap()` that panics on a hash that does not parse.
- `Table` (table.dfy): what the store's queries mean on a sequence of rows.
  `Select` is `SELECT * ... WHERE field = value` read back as one optional
  row. `UpdateWhere` is `UPDATE ... SET ... WHERE`, and `DeleteWhere` is
  `DELETE ... WHERE`. The lemmas here say that in a table with unique emails
  and usernames, each of these touches exactly the one matching row.
- `Store` (store.dfy): class `Database` with a `users: seq<User>` field.
  Lookups are functions that read it. Each mutating operation is a method
  that does the source's read, then its conditional write. Its object
  invariant `Valid()` holds four facts:
  - the hasher is sound;
  - emails are unique, and so are usernames;
  - every stored hash is well-formed;
  - every recovery code is in range.

  Every public method keeps `Valid()` and states the whole new table.
  `AddCode` takes any `i32`, as `add_code` does, so it keeps only
  `Consistent()`: `Valid()` without the range of recovery codes.
- `Routes` (routes.dfy): the four handlers. Each one verifies the presented
  key first, then calls the store, then maps the store's result.
- `Sessions` (sessions.dfy): client methods stating what a caller sees across
  several calls. Examples: two logins in a row, two recovery-code requests,
  signup then login, and a full walkthrough.

Some choices where the code is the authority:

- A recovery code is drawn with `gen_range(100_000..1_000_000)` at
  src/database.rs:285. It therefore lies between 100000 and 999999 inclusive.
  A half-open range ending at 999999 would not match the code.
- `delete_user` returns whatever its `DELETE` statement returns. The record
  store's `DELETE` returns no rows by default, so the model returns
  `Ok(None)` and not the deleted record. The `delete_user` handler answers
  "User deleted" on any success either way.
- `username_login` sets `logged_in` with an update keyed by the found row's
  email, not by its username (src/database.rs:201-203). The model does the
  same, and proves that this is still exactly the found row.
- `signup`'s and `check_code`'s random inputs are explicit. The salt is a
  parameter of `Signup`. The recovery code is an arbitrary value in range,
  chosen with `:|` inside `CheckCode`.

## Model

| member | source | states |
|---|---|---|
| Table.Select | src/database.rs:228-232 | A lookup by email or username yields a row that is in the table and has that field value. It yields nothing exactly when no row has it. |
| Table.UpdateWhere | src/database.rs:155-158 | An update keeps the table's length. It applies the assignment to every row matching the `WHERE` field and leaves every other row as it was. |
| Table.DeleteCounts | src/database.rs:239-241 | A delete keeps every row not matching the `WHERE` field as many times as the table holds it, and no matching row. |
| Table.DeleteAppend | src/database.rs:239-241 | A delete acts on each part of the table separately, so the rows it keeps stay in their order. |
| Table.SelectUnique | src/database.rs:83-84 | In a table with unique emails and usernames, a lookup returns the one matching row. |
| Table.UpdateUnique | src/database.rs:201-205 | In a unique table, an update keyed by a row's email or username replaces that row alone. |
| Table.UpdateRow | src/database.rs:269-273 | In a unique table, an update keyed by a row has these effects: no other row matches; only that row changes; the table stays unique; a lookup by the same key then returns the updated row. |
| Table.DeleteUnique | src/database.rs:239-242 | In a unique table, deleting by a row's username removes exactly that row and keeps the others in order. |
| Table.RemoveKeepsInvariants | src/database.rs:235-247 | Removing a row keeps the rest unique, their hashes well-formed and their codes in range. |
| Table.CreateKeepsUnique | src/database.rs:103-133 | A new row whose email and username are both absent keeps the table unique. This holds after any sequence of signups. |
| Hash.VerifyPassword | src/database.rs:147-150 | Defined only on a well-formed hash, because the unwrap panics otherwise. Against a hash a sound hasher made from some password, it accepts exactly that password. |
| Store.Database.Login | src/database.rs:136-226 | The lookup, the password check and the update shared by both logins. An unknown row and a wrong password give the caller's failure message, and a logged-in row gives "User already logged in". These failures leave the table unchanged. Otherwise only the found row gets `logged_in = true`, and its email and username are returned. `Valid()` is kept. |
| Store.Database.CheckDuplicateEmail | src/database.rs:77-88 | True exactly when some row has the email. The table is only read. |
| Store.Database.CheckDuplicateUsername | src/database.rs:90-100 | True exactly when some row has the username. The table is only read. |
| Store.Database.GetUser | src/database.rs:228-233 | No user exactly when no row has the username. Otherwise it is that row, and it is the only one. |
| Store.Database.Signup | src/database.rs:102-134 | A taken email gives "Email already in use" and is checked before the username. Otherwise a taken username gives "Username already taken". Both rejections leave the table unchanged. Otherwise exactly one row is appended and returned: the email, the username, the hash of the password with the drawn salt, logged out, no recovery code. Uniqueness is kept. |
| Store.Database.EmailLogin | src/database.rs:136-180 | An unknown email and a wrong password both give "Email or Password is incorret try again". A logged-in account with the right password gives "User already logged in". These failures leave the table unchanged. Otherwise only the matched row gets `logged_in = true`, and its email and username are returned. |
| Store.Database.UsernameLogin | src/database.rs:182-226 | The same as email login with "Username or Password is incorret try again". The update keyed by the found row's email changes exactly that row. |
| Store.Database.DeleteUser | src/database.rs:235-247 | A missing user gives "User not found" with the table unchanged. Otherwise exactly that row is removed, and the others keep their order. |
| Store.Database.Signout | src/database.rs:249-267 | A missing user gives "User not found", and a logged-out user gives "User is not logged in". In both cases the table is unchanged. Otherwise only that row's `logged_in` is cleared, with "User successfully logged out". |
| Store.Database.AddCode | src/database.rs:269-274 | For an existing user, it stores the code on that row alone and returns the updated row. It keeps `Consistent()`; the code is not checked against the range. |
| Store.Database.CheckCode | src/database.rs:276-291 | A missing user gives "User doesn't exists", and an existing code gives "Account recovery code already exists on user". In both cases the table is unchanged. Otherwise a code between 100000 and 999999 is stored on that row alone and the updated row is returned. |
| Routes.Signup | src/routes.rs:8-30 | A key that fails verification gives "Api key is invalid" and leaves the store unchanged. Otherwise the store's signup outcome is the reply: the created user, or its error unchanged. |
| Routes.GetUser | src/routes.rs:32-54 | A failing key gives "Api key is invalid". Otherwise an absent user gives "User not found" and a present one is returned. The store is never changed. |
| Routes.DeleteUser | src/routes.rs:56-74 | A failing key gives "Api key is invalid" and leaves the store unchanged. Otherwise a missing user's error is passed through, and a successful delete answers "User deleted" after removing exactly that row. |
| Routes.EmailLogin | src/routes.rs:76-94 | A failing key gives "Api key is invalid" and leaves the store unchanged. Otherwise the reply is the store's email-login outcome as it is. |
| Sessions.EmailLoginTwice | src/database.rs:151-166 | Of two email logins in a row, the second always fails. After a successful first login it fails with "User already logged in". |
| Sessions.UsernameLoginTwice | src/database.rs:197-212 | The same for two username logins. |
| Sessions.SignupThenLogin | src/database.rs:123-175 | After a successful signup, an email login with the same password succeeds and returns the new email and username. An email login with any other password fails with the uniform message. |
| Sessions.CheckCodeTwice | src/database.rs:276-291 | The second of two recovery-code requests always fails. After a successful first request it fails with "Account recovery code already exists on user", and the stored code is the one the first request issued. |
| Sessions.SignoutThenLogin | src/database.rs:249-267 | After a successful signout, a username login succeeds exactly when the password verifies against the stored hash. |
| Sessions.Walkthrough | src/database.rs:102-267 | On an empty table, these steps run in order: signup of alice succeeds; a second signup on her email fails with "Email already in use"; her login returns her email and username; a second login fails with "User already logged in"; signout succeeds; a login with a wrong password fails with the uniform message. |

## Left out

- Record-store failures are not modelled. Each `Err(err)` branch that passes a failed query or a failed `take(0)` through never occurs: every query succeeds. So `get_user` returns an optional row, not a result, and the handlers' pass-through of storage errors never fires.
- Query text, string interpolation, `DbClient` and deserialisation are not modelled. Queries are exact field matches on a sequence of rows. A value holding a quote would change the query text, and that injection has no counterpart here.
- `Database::new` (src/database.rs:36-75) is connection plumbing. The model's constructor starts from an empty table.
- Concurrency is not modelled. Operations run one at a time, so the races between a check and the write that follows it are not represented.
- Argon2, salt generation and the random-number source are foreign library calls. Hashing is the abstract `Hasher`. `Sound` is assumed, not proved. A failure of `hash_password` is not modelled: its unwrap at src/database.rs:124-130 is taken never to panic.
- `Store.Database.Signup`: the stored value is stated to be the hasher's output for the password and salt. The model does not assume that a hash differs from its plaintext, so it does not state that.
- `Store.Database.AddCode`: it requires that a row has the username. `add_code` unwraps the row its update returns (src/database.rs:273), which panics when no row matches. Its only caller, `check_code` (src/database.rs:277-286), has just found that row, so the requirement always holds there.
- `Routes.Signup`: the "An error occured" reply for a store result without a row is kept in the handler, but it cannot happen in the model, because a `CREATE` always returns the created row.
- The `root` handler and the Rocket/JSON transport are not modelled. Neither is the mismatch between `EmailLoginIn` and the store's `EmailLogin` (src/routes.rs:78). The handlers `username_login`, `signout` and `account_recovery` that src/main.rs mounts are not part of this model.
- src/settings.rs (interactive prompts, the settings file, the three-attempt root password check) and src/main.rs (server start-up) are I/O wiring.
- src/database/database.rs and src/database/models.rs are an older revision that is not compiled, and they are not part of this model.
- Clearing or using a recovery code is not modelled: the source has no such operation.
