/** The module-level state of backend/src/auth.py as an object: the `users`
    dict (its values and the order in which its keys were inserted) and
    `user_id_counter`, with `initialize_admin`, `create_user`,
    `authenticate_user` and `get_user_by_id` as its members. Each is proved
    against the specification in module Credentials. */
module Directory {
  import opened Wrappers
  import opened Credentials

  class UserDirectory {
    var users: map<int, User>
    var ids: seq<int>
    var counter: int

    function State(): Store
      reads this
    {
      Store(users, ids, counter)
    }

    ghost predicate Valid()
      reads this
    {
      Consistent(State())
    }

    /** `users = {}` and `user_id_counter = 1`. */
    constructor ()
      ensures Valid()
      ensures State() == Store(map[], [], 1)
    {
      users, ids, counter := map[], [], 1;
    }

    /** Module load: the empty store followed by `initialize_admin()`. */
    static method Load(hashpw: Hasher, salt: string, createdAt: string) returns (d: UserDirectory)
      ensures fresh(d) && d.Valid()
      ensures d.State() == Bootstrap(Store(map[], [], 1), hashpw, salt, createdAt)
      ensures d.users.Keys == {1} && d.users[1].role == AdminRole && d.counter == 2
    {
      d := new UserDirectory();
      d.InitializeAdmin(hashpw, salt, createdAt);
    }

    /** `initialize_admin`. */
    method InitializeAdmin(hashpw: Hasher, salt: string, createdAt: string)
      requires Valid()
      modifies this
      ensures Valid()
      ensures State() == Bootstrap(old(State()), hashpw, salt, createdAt)
    {
      if users == map[] {
        var admin := User(counter, AdminUsername, AdminEmail, hashpw(AdminPassword, salt), AdminRole, createdAt);
        users := map[counter := admin];
        ids := [counter];
        counter := counter + 1;
      }
    }

    /** The uniqueness loop of `create_user`: the records in insertion order,
        the username of each tested before its email. */
    method FindClash(username: string, email: string) returns (e: Option<string>)
      requires Valid()
      ensures e == Clash(users, ids, username, email)
    {
      var i := 0;
      while i < |ids|
        invariant 0 <= i <= |ids|
        invariant Clash(users, ids[i..], username, email) == Clash(users, ids, username, email)
      {
        var user := users[ids[i]];
        if user.username == username {
          return Some(UsernameTaken);
        }
        if user.email == email {
          return Some(EmailTaken);
        }
        assert ids[i..][1..] == ids[i + 1..];
        i := i + 1;
      }
      assert ids[i..] == [];
      return None;
    }

    /** `create_user`: the uniqueness loop, then the counter is taken as the new
        id and incremented before the record is stored. */
    method CreateUser(username: string, email: string, password: string,
                      hashpw: Hasher, salt: string, createdAt: string) returns (r: Result<PublicUser, string>)
      requires Valid()
      modifies this
      ensures Valid()
      ensures (State(), r) == Register(old(State()), username, email, password, hashpw, salt, createdAt)
    {
      ghost var before := State();
      var clash := FindClash(username, email);
      if clash.Some? {
        return Err(clash.value);
      }
      var userId := counter;
      counter := counter + 1;
      var user := User(userId, username, email, hashpw(password, salt), UserRole, createdAt);
      users := users[userId := user];
      ids := ids + [userId];
      r := Ok(WithoutPassword(user));
      assert (State(), r) == Register(before, username, email, password, hashpw, salt, createdAt);
    }

    /** `authenticate_user`: the first record in insertion order with that
        username, then the password check. */
    method AuthenticateUser(username: string, password: string, checkpw: Checker) returns (r: Result<PublicUser, string>)
      requires Valid()
      ensures r == Authenticate(State(), username, password, checkpw)
    {
      var found: Option<User> := None;
      var i := 0;
      while i < |ids|
        invariant 0 <= i <= |ids|
        invariant LookupIn(users, ids[i..], username) == LookupIn(users, ids, username)
      {
        if users[ids[i]].username == username {
          found := Some(users[ids[i]]);
          break;
        }
        assert ids[i..][1..] == ids[i + 1..];
        i := i + 1;
      }
      if found.None? {
        return Err(BadCredentials);
      }
      if !checkpw(password, found.value.password) {
        return Err(BadCredentials);
      }
      r := Ok(WithoutPassword(found.value));
    }

    /** `get_user_by_id`. */
    function GetUserById(id: int): (r: Option<PublicUser>)
      reads this
      ensures r.None? <==> id !in users
      ensures r.Some? ==> r.value == WithoutPassword(users[id])
      ensures r.Some? && Valid() ==> r.value.id == id
    {
      if id in users then Some(WithoutPassword(users[id])) else None
    }
  }
}
