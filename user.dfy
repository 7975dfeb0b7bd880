/**
 * The user record and the in-memory user registry of the webserver
 * (dagster_webserver/user.py).
 */
module Users {
  import opened Wrappers
  import opened PyBuiltins

  /** The only user allowed to start runs. */
  const Admin: string := "admin"

  /** Operations whose name contains this are refused to everyone else. */
  const Run: string := "run"

  datatype User = User(identifier: int, username: string, password: string)
  {
    /** Plain string equality with the stored password. */
    function CheckPassword(candidate: string): (ok: bool)
      ensures ok <==> candidate == password
    {
      password == candidate
    }

    /** Anyone but the admin is refused an operation whose name contains "run". */
    function OperationCheck(operation: string): (allowed: bool)
      ensures allowed <==> username == Admin || !exists i :: OccursAt(operation, Run, i)
    {
      ContainsIff(operation, Run);
      if username != Admin && Contains(operation, Run) then false else true
    }

    function IsAuthenticated(): (authenticated: bool)
      ensures authenticated
    {
      true
    }

    function DisplayName(): (name: string)
      ensures name == username
    {
      username
    }

    function Identity(): (id: int)
      ensures id == identifier
    {
      identifier
    }
  }

  /** The web framework's request object; the registry never looks at it. */
  type Request

  function UsernameKey(u: User): string { u.DisplayName() }

  function IdentityKey(u: User): int { u.Identity() }

  /**
   * The last user of `users` whose key is `k`: the entry a dictionary built
   * by assigning `d[key(u)] = u` for each `u` in order ends up holding.
   */
  function LastWithKey<K(==)>(users: seq<User>, key: User -> K, k: K): Option<User>
  {
    if users == [] then None
    else if key(users[|users| - 1]) == k then Some(users[|users| - 1])
    else LastWithKey(users[..|users| - 1], key, k)
  }

  /**
   * `LastWithKey` finds a user exactly when some user has the key, and the
   * one it finds is the last such user in list order.
   */
  lemma {:induction false} LastWithKeyIff<K>(users: seq<User>, key: User -> K, k: K)
    ensures LastWithKey(users, key, k).Some? <==> exists i :: 0 <= i < |users| && key(users[i]) == k
    ensures LastWithKey(users, key, k).Some? ==>
              exists i :: (0 <= i < |users| && users[i] == LastWithKey(users, key, k).value && key(users[i]) == k &&
                           forall j :: i < j < |users| ==> key(users[j]) != k)
  {
    if users != [] {
      var n := |users| - 1;
      var init := users[..n];
      if key(users[n]) != k {
        LastWithKeyIff(init, key, k);
        if i :| 0 <= i < |users| && key(users[i]) == k {
          assert i < n && init[i] == users[i];
        }
        if LastWithKey(init, key, k).Some? {
          var i :| 0 <= i < |init| && init[i] == LastWithKey(init, key, k).value && key(init[i]) == k &&
            forall j :: i < j < |init| ==> key(init[j]) != k;
          assert users[i] == init[i];
          assert forall j :: i < j < |users| ==> key(users[j]) != k by {
            forall j | i < j < |users| ensures key(users[j]) != k {
              if j < n { assert users[j] == init[j]; }
            }
          }
        }
      }
    }
  }

  /** Pairwise distinct identities: the invariant `add` maintains. */
  ghost predicate UniqueIdentities(users: seq<User>)
  {
    forall i, j :: 0 <= i < j < |users| ==> users[i].identifier != users[j].identifier
  }

  /** With distinct identities, looking up an identity finds exactly the user holding it. */
  lemma UniqueIdentityLookup(users: seq<User>, u: User)
    requires UniqueIdentities(users)
    ensures LastWithKey(users, IdentityKey, u.identifier) == Some(u) <==> u in users
  {
    LastWithKeyIff(users, IdentityKey, u.identifier);
    if u in users {
      var i :| 0 <= i < |users| && users[i] == u;
      var v := LastWithKey(users, IdentityKey, u.identifier).value;
      var j :| 0 <= j < |users| && users[j] == v && IdentityKey(users[j]) == u.identifier &&
        forall m :: j < m < |users| ==> IdentityKey(users[m]) != u.identifier;
      assert i == j;
    }
  }

  class UserList {
    var userList: seq<User>

    ghost predicate Valid()
      reads this
    {
      UniqueIdentities(userList)
    }

    constructor ()
      ensures Valid() && userList == []
    {
      userList := [];
    }

    /** `dict_username`: username to the last user with that username. */
    method DictUsername() returns (d: map<string, User>)
      ensures forall name :: Get(d, name) == LastWithKey(userList, UsernameKey, name)
    {
      d := map[];
      var i := 0;
      while i < |userList|
        invariant 0 <= i <= |userList|
        invariant forall name :: Get(d, name) == LastWithKey(userList[..i], UsernameKey, name)
      {
        var user := userList[i];
        assert userList[..i + 1][..i] == userList[..i];
        d := d[user.username := user];
        i := i + 1;
      }
      assert userList[..i] == userList;
    }

    /** `dict_id`: identity to the last user with that identity. */
    method DictId() returns (d: map<int, User>)
      ensures forall id :: Get(d, id) == LastWithKey(userList, IdentityKey, id)
    {
      d := map[];
      var i := 0;
      while i < |userList|
        invariant 0 <= i <= |userList|
        invariant forall id :: Get(d, id) == LastWithKey(userList[..i], IdentityKey, id)
      {
        var user := userList[i];
        assert userList[..i + 1][..i] == userList[..i];
        d := d[user.Identity() := user];
        i := i + 1;
      }
      assert userList[..i] == userList;
    }

    /**
     * `add`: refused when some registered user already has the new user's
     * identity; otherwise the user is appended at the end.
     */
    method Add(user: User) returns (ok: bool)
      modifies this
      ensures ok <==> forall i :: 0 <= i < |old(userList)| ==> old(userList)[i].identifier != user.identifier
      ensures userList == if ok then old(userList) + [user] else old(userList)
      ensures old(Valid()) ==> Valid()
      ensures ok ==> LastWithKey(userList, IdentityKey, user.identifier) == Some(user)
    {
      var ids := DictId();
      LastWithKeyIff(userList, IdentityKey, user.Identity());
      if user.Identity() in ids {
        assert Get(ids, user.Identity()).Some?;
        return false;
      }
      assert Get(ids, user.Identity()).None?;
      userList := userList + [user];
      ok := true;
    }

    /** `get_by_username`: the last registered user with that username, if any. */
    method GetByUsername(username: string) returns (r: Option<User>)
      ensures r == LastWithKey(userList, UsernameKey, username)
      ensures r.Some? <==> exists i :: 0 <= i < |userList| && userList[i].username == username
      ensures r.Some? ==>
                exists i :: 0 <= i < |userList| && userList[i] == r.value && r.value.username == username &&
                  forall j :: i < j < |userList| ==> userList[j].username != username
    {
      var d := DictUsername();
      r := Get(d, username);
      LastWithKeyIff(userList, UsernameKey, username);
    }

    /** `get_by_id`: the registered user with that identity, if any. */
    method GetById(identifier: int) returns (r: Option<User>)
      ensures r == LastWithKey(userList, IdentityKey, identifier)
      ensures r.Some? <==> exists i :: 0 <= i < |userList| && userList[i].identifier == identifier
      ensures r.Some? ==> r.value in userList && r.value.identifier == identifier
      ensures Valid() ==> forall u :: u in userList && u.identifier == identifier ==> r == Some(u)
    {
      var d := DictId();
      r := Get(d, identifier);
      LastWithKeyIff(userList, IdentityKey, identifier);
      if Valid() {
        forall u | u in userList && u.identifier == identifier ensures r == Some(u) {
          UniqueIdentityLookup(userList, u);
        }
      }
    }

    /** `user_loader`: the session layer's hook, a lookup by identity. */
    method UserLoader(request: Request, userId: int) returns (r: Option<User>)
      ensures r == LastWithKey(userList, IdentityKey, userId)
    {
      r := GetById(userId);
    }
  }
}
