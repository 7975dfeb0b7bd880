# Local authentication core of the Dagster webserver fork, in Dafny

This project models two pieces of the webserver's authentication layer and
proves what they promise.

- **The user record and the in-memory user registry** (`user.py`).
  `Users.User` is the record: identifier, username and password. Its
  predicates are password equality, the "only `admin` may touch an operation
  whose name contains `run`" rule, and the constant and projection
  properties. `Users.UserList` is a class holding the registry's
  `seq<User>`. `add` appends in place. The two dictionary builders are loops
  that rebuild `username -> user` and `identity -> user` maps. The lookups go
  through those maps. The independent reference for both maps is
  `LastWithKey`, the last user in list order whose key matches, because a
  later assignment overwrites an earlier key. The registry invariant is
  `UniqueIdentities`: pairwise distinct identities.
- **The salted-hash text and local accounts** (`db_auth.py`). A stored hash
  is `hex(salt) ":" hex(key)`, with a 16-byte salt and a 32-byte PBKDF2 key.
  That makes it 97 characters long with its one colon at index 32.
  `VerifyPassword` parses the text back. Every way that parsing can fail in
  Python gives `false`. Sign-up and log-in are methods of
  `DbAuth.UsersTable`, a class holding the `users` table as
  `Option<map<string, Record>>`. `None` means the table has not been created
  yet.
- The Python built-ins this code depends on are modelled with CPython's
  behaviour in `PyBuiltins`: the substring test `in`, `str.split(':')`,
  `bytes.hex()` and `bytes.fromhex()`. `bytes.fromhex()` accepts upper- and
  lower-case digits and skips ASCII whitespace before a digit pair, but not
  inside one. Hex round trips and split/join inverses are proved there.

Parameters stand in for what cannot be written down:
- PBKDF2-HMAC-SHA256 is the subset type `DbAuth.Kdf`, an arbitrary
  deterministic function of the password and salt whose result is always 32
  bytes long.
- The random salt from `secrets.token_bytes(16)` is an argument.
- Python's `hash(username)` is an argument `idHash`.
- A database driver failure is an argument: a `Fault` for sign-up, a `bool`
  for log-in.

Files: `wrappers.dfy` (`Option`, `dict.get`), `py_builtins.dfy`,
`user.dfy` (module `Users`) and `db_auth.dfy` (module `DbAuth`).

Two facts about the code worth knowing:
- Sign-up returns the code's `(bool, message)` pair.
- The registry does not deduplicate usernames. `get_by_username` returns the
  last user registered with that name.

## Model

| member | source | states |
|---|---|---|
| `PyBuiltins.Contains` | Dagster/python_modules/dagster-webserver/dagster_webserver/user.py:18 | `sub in s`: never found when `sub` is longer than `s`, always found when `sub` is empty; `ContainsIff` gives the full meaning |
| `PyBuiltins.ContainsIff` | Dagster/python_modules/dagster-webserver/dagster_webserver/user.py:18 | the left-to-right scan for `sub in s` succeeds exactly when `sub` occurs in `s` at some index |
| `PyBuiltins.Split` | Dagster/python_modules/dagster-webserver/dagster_webserver/db_auth.py:29 | `str.split(sep)` gives one more piece than there are separators, and no piece contains the separator |
| `PyBuiltins.JoinSplit` | Dagster/python_modules/dagster-webserver/dagster_webserver/db_auth.py:29 | joining the pieces of a split with the separator gives back the original text |
| `PyBuiltins.SplitJoin` | Dagster/python_modules/dagster-webserver/dagster_webserver/db_auth.py:29 | splitting separator-free pieces joined by the separator gives back exactly those pieces |
| `PyBuiltins.Hex` | Dagster/python_modules/dagster-webserver/dagster_webserver/db_auth.py:25 | `bytes.hex()` gives two characters per byte, all of them lower-case hex digits |
| `PyBuiltins.FromHex` | Dagster/python_modules/dagster-webserver/dagster_webserver/db_auth.py:30 | a successful `bytes.fromhex()` decodes at most one byte per two characters, and exactly one per two when the text has no whitespace. It fails (Python's `ValueError`) whenever the text holds a character that is neither a hex digit nor ASCII whitespace |
| `PyBuiltins.FromHexHex` | Dagster/python_modules/dagster-webserver/dagster_webserver/db_auth.py:25-30 | `bytes.fromhex(b.hex()) == b` for every byte string |
| `PyBuiltins.HexInjective` | Dagster/python_modules/dagster-webserver/dagster_webserver/db_auth.py:25 | different byte strings have different hex texts |
| `Wrappers.Get` | Dagster/python_modules/dagster-webserver/dagster_webserver/user.py:58-61 | `d.get(k)`: a value exactly when `k` is a key, and then the value stored under `k` |
| `Users.User.CheckPassword` | Dagster/python_modules/dagster-webserver/dagster_webserver/user.py:13-14 | the check holds exactly when the candidate equals the stored password |
| `Users.User.OperationCheck` | Dagster/python_modules/dagster-webserver/dagster_webserver/user.py:16-20 | an operation is allowed exactly when the username is `"admin"` or `"run"` occurs nowhere in the operation name |
| `Users.User.IsAuthenticated` | Dagster/python_modules/dagster-webserver/dagster_webserver/user.py:22-24 | every user is authenticated |
| `Users.User.DisplayName` | Dagster/python_modules/dagster-webserver/dagster_webserver/user.py:26-28 | the display name is the username |
| `Users.User.Identity` | Dagster/python_modules/dagster-webserver/dagster_webserver/user.py:30-32 | the identity is the identifier |
| `Users.LastWithKeyIff` | Dagster/python_modules/dagster-webserver/dagster_webserver/user.py:39-49 | the map-building loops' reference finds a user exactly when some user has the key, and what it finds is the last user in list order with that key |
| `Users.UniqueIdentityLookup` | Dagster/python_modules/dagster-webserver/dagster_webserver/user.py:45-55 | when identities are distinct, looking up a user's identity finds exactly that user if and only if it is registered |
| `Users.UserList.constructor` | Dagster/python_modules/dagster-webserver/dagster_webserver/user.py:36-37 | a new registry is empty and satisfies the unique-identity invariant |
| `Users.UserList.DictUsername` | Dagster/python_modules/dagster-webserver/dagster_webserver/user.py:39-43 | every username maps to the last user registered with it; names nobody has are absent |
| `Users.UserList.DictId` | Dagster/python_modules/dagster-webserver/dagster_webserver/user.py:45-49 | every identity maps to the last user registered with it; unused identities are absent |
| `Users.UserList.Add` | Dagster/python_modules/dagster-webserver/dagster_webserver/user.py:51-55 | returns true exactly when no registered user has the identity. On true the user is appended at the end and a lookup by its identity then finds it. On false the list is unchanged. Distinct identities stay distinct |
| `Users.UserList.GetByUsername` | Dagster/python_modules/dagster-webserver/dagster_webserver/user.py:57-58 | `None` exactly when no user has the name; otherwise the last user in list order with that name |
| `Users.UserList.GetById` | Dagster/python_modules/dagster-webserver/dagster_webserver/user.py:60-61 | `None` exactly when no user has the identity; otherwise a registered user with it, and under the invariant the only one |
| `Users.UserList.UserLoader` | Dagster/python_modules/dagster-webserver/dagster_webserver/user.py:63-64 | gives the same answer as `get_by_id` for the identity, ignores the request, and changes nothing |
| `DbAuth.GetPasswordHash` | Dagster/python_modules/dagster-webserver/dagster_webserver/db_auth.py:17-25 | the stored hash is 97 characters long with exactly one colon, at index 32, and every other character is a lower-case hex digit |
| `DbAuth.VerifyPassword` | Dagster/python_modules/dagster-webserver/dagster_webserver/db_auth.py:27-34 | a text that does not split on ':' into exactly two parts never verifies |
| `DbAuth.CompareDigest` | Dagster/python_modules/dagster-webserver/dagster_webserver/db_auth.py:32 | `secrets.compare_digest` on bytes: true exactly when the two byte strings are equal, so never when their lengths differ |
| `DbAuth.OneColon` | Dagster/python_modules/dagster-webserver/dagster_webserver/db_auth.py:29 | a text with exactly one colon splits into two colon-free halves that join back to it |
| `DbAuth.VerifyPasswordIff` | Dagster/python_modules/dagster-webserver/dagster_webserver/db_auth.py:29-32 | `saltHex:keyHex` verifies exactly when both halves decode and the key recomputed from the password and the decoded salt equals the decoded key |
| `DbAuth.VerifyRejectsMalformed` | Dagster/python_modules/dagster-webserver/dagster_webserver/db_auth.py:27-34 | `"not-a-hash"`, `""` and `"abc:xyz"` are rejected, not raised on |
| `DbAuth.VerifyRejectsNonHex` | Dagster/python_modules/dagster-webserver/dagster_webserver/db_auth.py:30-34 | a stored text whose salt or key half holds a character that is neither a hex digit nor ASCII whitespace never verifies |
| `DbAuth.VerifyRejectsKeyLength` | Dagster/python_modules/dagster-webserver/dagster_webserver/db_auth.py:30-32 | a stored key that decodes to anything but 32 bytes never verifies |
| `DbAuth.VerifyGetPasswordHash` | Dagster/python_modules/dagster-webserver/dagster_webserver/db_auth.py:22-32 | round trip: a hash made from a password verifies against that password, for every salt and every deterministic KDF |
| `DbAuth.VerifyRejectsOtherPassword` | Dagster/python_modules/dagster-webserver/dagster_webserver/db_auth.py:22-32 | a password whose derived key under the stored salt differs is rejected |
| `DbAuth.SaltsGiveDistinctHashes` | Dagster/python_modules/dagster-webserver/dagster_webserver/db_auth.py:23-25 | two different salts give two different stored hashes of the same password |
| `DbAuth.UsersTable.CreateStandardUser` | Dagster/python_modules/dagster-webserver/dagster_webserver/db_auth.py:50-84 | a driver failure returns `(False, "Database error during creation: " + detail)` and leaves the table unchanged. A taken username returns `(False, "User already exists.")` and leaves the table unchanged. Otherwise the call returns `(True, "User created successfully!")` and the table becomes the old rows plus exactly one new row, holding the new hash and `username + "@npci.org.in"` |
| `DbAuth.UsersTable.AuthenticateStandardUser` | Dagster/python_modules/dagster-webserver/dagster_webserver/db_auth.py:86-115 | `None` on a driver failure, on a missing table, on an unknown username, and when the stored hash rejects the password. Otherwise the user with that username and password whose identity is `hash(username)` |
| `DbAuth.SignUpThenLogIn` | Dagster/python_modules/dagster-webserver/dagster_webserver/db_auth.py:68-103 | after a successful sign-up the same username and password log in |
| `DbAuth.SignUpRefusesOtherPassword` | Dagster/python_modules/dagster-webserver/dagster_webserver/db_auth.py:68-103 | after a sign-up, a password whose derived key differs does not log in |
| `DbAuth.SignUpKeepsOtherLogins` | Dagster/python_modules/dagster-webserver/dagster_webserver/db_auth.py:68-75 | inserting one row does not change whether any other username can log in |
| `DbAuth.LoggedInUser` | Dagster/python_modules/dagster-webserver/dagster_webserver/db_auth.py:103 | the user log-in returns is authenticated, displays the login name, accepts the login password and has `hash(username)` as its identity |

## Left out

- PBKDF2-HMAC-SHA256, `hashlib.pbkdf2_hmac`: modelled as the arbitrary deterministic `Kdf`, which returns 32 bytes. The algorithm name and the 260000 iterations are recorded as constants only.
- `secrets.token_bytes`: the salt is an argument. The model cannot say that two calls draw different salts. `SaltsGiveDistinctHashes` states what follows when they do.
- `secrets.compare_digest`: modelled as byte-string equality. Constant timing cannot be expressed.
- `password.encode('utf-8')`: the KDF takes the password text directly. Dafny strings cannot hold the lone surrogates that would make Python's encoding raise.
- Python's `hash(username)`: it is randomised per process, so it is the argument `idHash`.
- The psycopg2 connection, cursor, commit, rollback and close: the table is a map field and a driver exception is the `fault` argument. The model assumes that a failed sign-up stores nothing and returns the error message. Two cases break that assumption and are not captured. If the server commits but the reply to `conn.commit()` is lost, the row is stored while the call reports a database error. If `conn.rollback()` itself raises on a broken connection, that exception escapes `create_standard_user` instead of the `(False, message)` pair.
- `Users.UserList.Add`: users are modelled as values. In Python `User` is a mutable dataclass and `user_list.append(user)` stores a reference, so a caller that changes `identifier` on an already registered user can break distinct identities. The invariant assumes registered users are never mutated.
- The `CREATE TABLE` statement is not modelled: column types, `id SERIAL` and the `created_at` default. A value too long for its column, such as a username over 50 characters, makes PostgreSQL raise unless the extra characters are all spaces. Such an error enters the model only through the `fault` argument. When the extra characters are all spaces, PostgreSQL silently cuts the value to the column width. The model always stores the full username, so it does not capture that case. The next three lines say which contracts fail for such names.
- CreateStandardUser (`DbAuth.UsersTable.CreateStandardUser`): does not hold for a username with more than 50 characters, all of them spaces after the 50th. For example, take `"bob"` followed by 48 spaces. The program stores it cut to 50 characters. A second sign-up with the same name then fails the UNIQUE constraint and reports "Database error during creation: …", not "User already exists.". No `fault` value gives that outcome in the model. The model's table holds the full name, so the model takes the already-exists branch.
- SignUpThenLogIn (`DbAuth.SignUpThenLogIn`): does not hold for the same usernames. The program's sign-up succeeds with the shortened name. A log-in with the original name then finds no row, because a comparison with VARCHAR keeps trailing spaces, and it returns `None`.
- SignUpKeepsOtherLogins (`DbAuth.SignUpKeepsOtherLogins`): does not hold for the same usernames. Signing up `"bob"` followed by 48 spaces stores the row under `"bob"` followed by 47 spaces. That different name can then log in, which it could not do before.
- The log messages that are printed, and the database settings read from environment variables.
- `VerifyPassword`: the `except Exception` branch also catches an `AttributeError` or `TypeError` if the stored value is not a string. The `password_hash` column is `NOT NULL` text, so that case cannot occur and is not modelled.
- `ldap_auth.py`: directory authentication through the ldap3 library is not part of this model. Its password check against the directory entry is commented out, and it returns the first search entry.
- `UserProfileDropdown.tsx`: user-interface code, not part of this model.
- The orchestration that tries the local table and then the directory is not part of this model.
