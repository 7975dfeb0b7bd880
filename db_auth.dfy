/**
 * Local accounts of the webserver (dagster_webserver/db_auth.py): the
 * salted-hash text format, its verifier, and sign-up and log-in against a
 * `users` table of username -> password-hash records.
 */
module DbAuth {
  import opened Wrappers
  import opened PyBuiltins
  import opened Users

  // Hashing configuration. PBKDF2 itself is not modelled; the algorithm and
  // iteration count are recorded for the reader.
  const HashAlgorithm: string := "sha256"
  const Iterations: nat := 260000
  const SaltSize: nat := 16
  const KeyLength: nat := 32

  /**
   * PBKDF2-HMAC-SHA256 with the configured iteration count and a 32-byte
   * output: an arbitrary deterministic function of the password and salt.
   */
  type Kdf = f: (string, seq<byte>) -> seq<byte>
    | forall password, salt :: |f(password, salt)| == KeyLength
    witness (password: string, salt: seq<byte>) => seq(KeyLength, _ => 0 as byte)

  /** Where the separator between the salt and the key digits stands. */
  const SeparatorIndex: nat := 2 * SaltSize

  /** Length of every stored hash: 32 salt digits, a colon, 64 key digits. */
  const StoredHashLength: nat := 2 * SaltSize + 1 + 2 * KeyLength

  /**
   * `get_password_hash`: `hex(salt) ":" hex(key)`, where `salt` stands for
   * the 16 random bytes `secrets.token_bytes` draws.
   */
  function GetPasswordHash(kdf: Kdf, password: string, salt: seq<byte>): (stored: string)
    requires |salt| == SaltSize
    ensures |stored| == StoredHashLength
    ensures stored[SeparatorIndex] == ':'
    ensures forall i :: 0 <= i < |stored| && i != SeparatorIndex ==> IsLowerHexDigit(stored[i])
    ensures Count(stored, ':') == 1
  {
    var saltHex, keyHex := Hex(salt), Hex(kdf(password, salt));
    CountConcat(saltHex + ":", keyHex, ':');
    CountConcat(saltHex, ":", ':');
    CountAbsent(saltHex, ':');
    CountAbsent(keyHex, ':');
    saltHex + ":" + keyHex
  }

  /** `secrets.compare_digest` on bytes; its constant timing is not modelled. */
  function CompareDigest(a: seq<byte>, b: seq<byte>): (same: bool)
    ensures same <==> a == b
    ensures |a| != |b| ==> !same
  {
    a == b
  }

  /**
   * `verify_password`: split the stored text on ':' into exactly two
   * parts, decode both from hex, recompute the key from the password and
   * the decoded salt and compare. Every failure of the Python code (a
   * wrong number of parts, a non-hex part) is `false`.
   */
  function VerifyPassword(kdf: Kdf, plainPassword: string, storedHashWithSalt: string): (ok: bool)
    ensures ok ==> Count(storedHashWithSalt, ':') == 1
  {
    var parts := Split(storedHashWithSalt, ':');
    if |parts| != 2 then false
    else match (FromHex(parts[0]), FromHex(parts[1]))
      case (Some(salt), Some(key)) => CompareDigest(kdf(plainPassword, salt), key)
      case _ => false
  }

  /** Every text with exactly one colon is its colon-free halves joined by a colon. */
  lemma OneColon(s: string)
    requires Count(s, ':') == 1
    ensures var parts := Split(s, ':');
            |parts| == 2 && s == parts[0] + ":" + parts[1] && ':' !in parts[0] && ':' !in parts[1]
  {
    var parts := Split(s, ':');
    JoinSplit(s, ':');
    assert Join(parts[1..], ':') == parts[1];
  }

  /**
   * The verifier's decision on `saltHex:keyHex`: true exactly when both
   * halves are hex and the key recomputed from the password and decoded
   * salt equals the decoded key.
   */
  lemma VerifyPasswordIff(kdf: Kdf, plainPassword: string, saltHex: string, keyHex: string)
    requires ':' !in saltHex && ':' !in keyHex
    ensures VerifyPassword(kdf, plainPassword, saltHex + ":" + keyHex) <==>
              (FromHex(saltHex).Some? && FromHex(keyHex).Some? &&
               kdf(plainPassword, FromHex(saltHex).value) == FromHex(keyHex).value)
  {
    SplitJoin([saltHex, keyHex], ':');
    assert Join([saltHex, keyHex], ':') == saltHex + ":" + keyHex by {
      assert [saltHex, keyHex][1..] == [keyHex];
    }
  }

  /** Malformed stored texts: no colon, empty, and an odd-length half beside a non-hex half. */
  lemma VerifyRejectsMalformed(kdf: Kdf, plainPassword: string)
    ensures !VerifyPassword(kdf, plainPassword, "not-a-hash")
    ensures !VerifyPassword(kdf, plainPassword, "")
    ensures !VerifyPassword(kdf, plainPassword, "abc:xyz")
  {
    assert Count("not-a-hash", ':') == 0;
    VerifyPasswordIff(kdf, plainPassword, "abc", "xyz");
    assert "abc" + ":" + "xyz" == "abc:xyz";
  }

  /**
   * A stored text with a character in either half that is neither a hex
   * digit nor ASCII whitespace never verifies.
   */
  lemma VerifyRejectsNonHex(kdf: Kdf, plainPassword: string, saltHex: string, keyHex: string, c: char)
    requires ':' !in saltHex && ':' !in keyHex
    requires c in saltHex + keyHex && !IsHexDigit(c) && !IsAsciiSpace(c)
    ensures !VerifyPassword(kdf, plainPassword, saltHex + ":" + keyHex)
  {
    VerifyPasswordIff(kdf, plainPassword, saltHex, keyHex);
    if c in saltHex {
      var i :| 0 <= i < |saltHex| && saltHex[i] == c;
    } else {
      var i :| 0 <= i < |keyHex| && keyHex[i] == c;
    }
  }

  /** A stored key that does not decode to exactly 32 bytes never verifies. */
  lemma VerifyRejectsKeyLength(kdf: Kdf, plainPassword: string, saltHex: string, keyHex: string)
    requires ':' !in saltHex && ':' !in keyHex
    requires FromHex(keyHex).Some? && |FromHex(keyHex).value| != KeyLength
    ensures !VerifyPassword(kdf, plainPassword, saltHex + ":" + keyHex)
  {
    VerifyPasswordIff(kdf, plainPassword, saltHex, keyHex);
  }

  /** Round trip: the hash made from a password verifies against that password. */
  lemma VerifyGetPasswordHash(kdf: Kdf, password: string, salt: seq<byte>)
    requires |salt| == SaltSize
    ensures VerifyPassword(kdf, password, GetPasswordHash(kdf, password, salt))
  {
    var key := kdf(password, salt);
    FromHexHex(salt);
    FromHexHex(key);
    VerifyPasswordIff(kdf, password, Hex(salt), Hex(key));
  }

  /**
   * A password whose derived key under the same salt differs from the true
   * password's is refused.
   */
  lemma VerifyRejectsOtherPassword(kdf: Kdf, password: string, other: string, salt: seq<byte>)
    requires |salt| == SaltSize
    requires kdf(other, salt) != kdf(password, salt)
    ensures !VerifyPassword(kdf, other, GetPasswordHash(kdf, password, salt))
  {
    FromHexHex(salt);
    FromHexHex(kdf(password, salt));
    VerifyPasswordIff(kdf, other, Hex(salt), Hex(kdf(password, salt)));
  }

  /** Two different salts give two different stored hashes of the same password. */
  lemma SaltsGiveDistinctHashes(kdf: Kdf, password: string, salt1: seq<byte>, salt2: seq<byte>)
    requires |salt1| == SaltSize && |salt2| == SaltSize
    requires salt1 != salt2
    ensures GetPasswordHash(kdf, password, salt1) != GetPasswordHash(kdf, password, salt2)
  {
    var h1, h2 := GetPasswordHash(kdf, password, salt1), GetPasswordHash(kdf, password, salt2);
    if h1 == h2 {
      assert h1[..SeparatorIndex] == Hex(salt1);
      assert h2[..SeparatorIndex] == Hex(salt2);
      HexInjective(salt1, salt2);
    }
  }

  // ---------------------------------------------------------------------
  // The users table
  // ---------------------------------------------------------------------

  /** A row of the `users` table, without its username key. */
  datatype Record = Record(passwordHash: string, email: string)

  const EmailDomain: string := "@npci.org.in"
  const AlreadyExists: string := "User already exists."
  const Created: string := "User created successfully!"
  const ErrorPrefix: string := "Database error during creation: "

  /**
   * What the database driver does during one sign-up: nothing goes wrong,
   * or it raises with message `detail` while connecting, creating the table
   * or looking the username up, or while hashing, inserting or committing.
   */
  datatype Fault = NoFault | FailsBeforeLookup(detail: string) | FailsOnInsert(detail: string)

  /** The rows of a table that may not have been created yet. */
  function Rows(table: Option<map<string, Record>>): map<string, Record>
  {
    if table.Some? then table.value else map[]
  }

  /** The stored hash for `username` accepts `password`. */
  ghost predicate LogsIn(table: Option<map<string, Record>>, kdf: Kdf, username: string, password: string)
  {
    table.Some? && username in table.value && VerifyPassword(kdf, password, table.value[username].passwordHash)
  }

  /** The `users` table; `None` until the first sign-up creates it. */
  class UsersTable {
    var table: Option<map<string, Record>>

    constructor ()
      ensures table == None
    {
      table := None;
    }

    /**
     * `create_standard_user`: refuses a taken username, otherwise inserts
     * one row holding the new hash and a derived address. A driver failure
     * rolls back (the table creation too) and reports its message.
     */
    method CreateStandardUser(kdf: Kdf, username: string, password: string, salt: seq<byte>, fault: Fault)
      returns (ok: bool, message: string)
      requires |salt| == SaltSize
      modifies this
      ensures fault.FailsBeforeLookup? ==>
                !ok && message == ErrorPrefix + fault.detail && table == old(table)
      ensures !fault.FailsBeforeLookup? && username in Rows(old(table)) ==>
                !ok && message == AlreadyExists && table == old(table)
      ensures fault.FailsOnInsert? && username !in Rows(old(table)) ==>
                !ok && message == ErrorPrefix + fault.detail && table == old(table)
      ensures fault.NoFault? && username !in Rows(old(table)) ==>
                ok && message == Created &&
                table == Some(Rows(old(table))[username := Record(GetPasswordHash(kdf, password, salt), username + EmailDomain)])
      ensures ok <==> fault.NoFault? && username !in Rows(old(table))
    {
      if fault.FailsBeforeLookup? {
        return false, ErrorPrefix + fault.detail;
      }
      // CREATE TABLE IF NOT EXISTS, only made permanent by the commit below.
      var rows := Rows(table);
      if username in rows {
        return false, AlreadyExists;
      }
      var hashedPassword := GetPasswordHash(kdf, password, salt);
      var email := username + EmailDomain;
      if fault.FailsOnInsert? {
        return false, ErrorPrefix + fault.detail;
      }
      table := Some(rows[username := Record(hashedPassword, email)]);
      ok, message := true, Created;
    }

    /**
     * `authenticate_standard_user`: a user exactly when the table exists,
     * holds the username, and its stored hash accepts the password. A
     * missing table and any other driver failure (`fault`) give `None`.
     * `idHash` stands for Python's `hash` on strings.
     */
    method AuthenticateStandardUser(kdf: Kdf, idHash: string -> int, username: string, password: string, fault: bool)
      returns (user: Option<User>)
      ensures fault ==> user == None
      ensures table.None? ==> user == None
      ensures table.Some? && username !in table.value ==> user == None
      ensures table.Some? && username in table.value && !VerifyPassword(kdf, password, table.value[username].passwordHash) ==>
                user == None
      ensures !fault && LogsIn(table, kdf, username, password) ==>
                user == Some(User(idHash(username), username, password))
    {
      if fault {
        return None;
      }
      if table.None? {
        return None;
      }
      if username !in table.value {
        return None;
      }
      var storedHashWithSalt := table.value[username].passwordHash;
      if !VerifyPassword(kdf, password, storedHashWithSalt) {
        return None;
      }
      return Some(User(idHash(username), username, password));
    }
  }

  /** After a successful sign-up, logging in with the same password succeeds. */
  lemma SignUpThenLogIn(kdf: Kdf, table: Option<map<string, Record>>, username: string, password: string, salt: seq<byte>)
    requires |salt| == SaltSize
    ensures LogsIn(Some(Rows(table)[username := Record(GetPasswordHash(kdf, password, salt), username + EmailDomain)]),
                   kdf, username, password)
  {
    VerifyGetPasswordHash(kdf, password, salt);
  }

  /** After a sign-up, a password with a different derived key is refused. */
  lemma SignUpRefusesOtherPassword(kdf: Kdf, table: Option<map<string, Record>>, username: string,
                                   password: string, other: string, salt: seq<byte>)
    requires |salt| == SaltSize
    requires kdf(other, salt) != kdf(password, salt)
    ensures !LogsIn(Some(Rows(table)[username := Record(GetPasswordHash(kdf, password, salt), username + EmailDomain)]),
                    kdf, username, other)
  {
    VerifyRejectsOtherPassword(kdf, password, other, salt);
  }

  /** Inserting a row keyed by `username` does not change whether any other username can log in. */
  lemma SignUpKeepsOtherLogins(kdf: Kdf, table: Option<map<string, Record>>, username: string, rec: Record,
                               other: string, password: string)
    requires other != username
    ensures LogsIn(Some(Rows(table)[username := rec]), kdf, other, password) == LogsIn(table, kdf, other, password)
  {
  }

  /**
   * A user returned by log-in is authenticated, shows the login name,
   * accepts the password it logged in with and carries the hashed name as
   * its identity.
   */
  lemma LoggedInUser(idHash: string -> int, username: string, password: string)
    ensures var user := User(idHash(username), username, password);
            user.IsAuthenticated() && user.DisplayName() == username &&
            user.CheckPassword(password) && user.Identity() == idHash(username)
  {
  }

  /**
   * A cold system: log-in before any sign-up, a first sign-up, a second
   * sign-up of the same name, and log-ins with the right and a wrong password.
   */
  method SignUpAndLogInScenario(kdf: Kdf, idHash: string -> int, salt1: seq<byte>, salt2: seq<byte>)
    requires |salt1| == SaltSize && |salt2| == SaltSize
  {
    var store := new UsersTable();
    var nobody := store.AuthenticateStandardUser(kdf, idHash, "nobody", "x", false);
    assert nobody == None;

    var ok1, message1 := store.CreateStandardUser(kdf, "alice", "pw1", salt1, NoFault);
    assert ok1 && message1 == Created;
    var firstHash := store.table.value["alice"].passwordHash;

    var ok2, message2 := store.CreateStandardUser(kdf, "alice", "pw2", salt2, NoFault);
    assert !ok2 && message2 == AlreadyExists;
    assert store.table.value["alice"].passwordHash == firstHash;

    SignUpThenLogIn(kdf, None, "alice", "pw1", salt1);
    var alice := store.AuthenticateStandardUser(kdf, idHash, "alice", "pw1", false);
    assert alice == Some(User(idHash("alice"), "alice", "pw1"));

    if kdf("wrong", salt1) != kdf("pw1", salt1) {
      SignUpRefusesOtherPassword(kdf, None, "alice", "pw1", "wrong", salt1);
      var intruder := store.AuthenticateStandardUser(kdf, idHash, "alice", "wrong", false);
      assert intruder == None;
    }
  }
}
