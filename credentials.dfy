/** The user registry of backend/src/auth.py as values: the records, the store
    (the `users` dict, its insertion order and `user_id_counter`), its invariant,
    and specification functions for `create_user`, `initialize_admin` and
    `authenticate_user`. The class in module Directory is proved against them.
    bcrypt is a pair of parameters: `hashpw(password, salt)` and
    `checkpw(password, digest)`; the random salt and the clock are inputs. */
module Credentials {
  import opened Wrappers

  const UsernameTaken := "Username already exists"
  const EmailTaken := "Email already exists"
  const BadCredentials := "Invalid username or password"

  const UserRole := "user"
  const AdminRole := "admin"
  const AdminUsername := "admin"
  const AdminEmail := "admin@taskmanager.com"
  const AdminPassword := "admin@123"

  /** A stored user dict; `password` holds the bcrypt digest. */
  datatype User = User(id: int, username: string, email: string, password: string,
                       role: string, createdAt: string)

  /** The same dict with the "password" key left out. */
  datatype PublicUser = PublicUser(id: int, username: string, email: string,
                                   role: string, createdAt: string)

  /** `{k: v for k, v in user.items() if k != "password"}`: every key but the
      digest is kept. */
  function WithoutPassword(u: User): (r: PublicUser)
    ensures r.id == u.id && r.username == u.username && r.email == u.email
    ensures r.role == u.role && r.createdAt == u.createdAt
  {
    PublicUser(u.id, u.username, u.email, u.role, u.createdAt)
  }

  /** Two records look the same once stripped exactly when they differ at most
      in their digest. */
  lemma StrippedEqual(u: User, v: User)
    ensures WithoutPassword(u) == WithoutPassword(v) <==> u.(password := v.password) == v
  {
  }

  /** `users`, the order in which its keys were inserted (the order in which
      `users.values()` yields records), and `user_id_counter`. */
  datatype Store = Store(users: map<int, User>, ids: seq<int>, counter: int)

  type Hasher = (string, string) -> string
  type Checker = (string, string) -> bool

  /** Every listed id is a key. */
  ghost predicate Listed(users: map<int, User>, ids: seq<int>)
  {
    forall i :: 0 <= i < |ids| ==> ids[i] in users
  }

  /** The ids listed are exactly the keys. */
  ghost predicate Indexed(s: Store)
  {
    Listed(s.users, s.ids) && forall k :: k in s.users ==> k in s.ids
  }

  /** The store's invariant: ids listed in increasing (insertion) order, every
      key below the counter and equal to its record's id, usernames and emails
      pairwise distinct. */
  ghost predicate Consistent(s: Store): (ok: bool)
    ensures ok ==> s.counter !in s.users
  {
    Indexed(s) &&
    (forall i, j :: 0 <= i < j < |s.ids| ==> s.ids[i] < s.ids[j]) &&
    (forall k :: k in s.users ==> k < s.counter && s.users[k].id == k) &&
    (forall a, b :: a in s.users && b in s.users && a != b ==>
      s.users[a].username != s.users[b].username && s.users[a].email != s.users[b].email)
  }

  /** The uniqueness scan of `create_user`: the first record in order whose
      username matches (tested first) or whose email matches decides the error. */
  function Clash(users: map<int, User>, ids: seq<int>, username: string, email: string): (e: Option<string>)
    requires Listed(users, ids)
    ensures e.None? <==> forall i :: 0 <= i < |ids| ==>
      users[ids[i]].username != username && users[ids[i]].email != email
    ensures e == None || e == Some(UsernameTaken) || e == Some(EmailTaken)
    ensures e == Some(UsernameTaken) ==> exists i :: 0 <= i < |ids| && users[ids[i]].username == username
    ensures e == Some(EmailTaken) ==> exists i :: 0 <= i < |ids| && users[ids[i]].email == email
    decreases |ids|
  {
    if |ids| == 0 then None
    else
      var u := users[ids[0]];
      if u.username == username then Some(UsernameTaken)
      else if u.email == email then Some(EmailTaken)
      else
        var e := Clash(users, ids[1..], username, email);
        assert forall i :: 1 <= i < |ids| ==> ids[i] == ids[1..][i - 1];
        e
  }

  /** The scan over the insertion order sees exactly the stored records. */
  lemma ClashByKey(s: Store, username: string, email: string)
    requires Indexed(s)
    ensures Clash(s.users, s.ids, username, email).None? <==>
      forall k :: k in s.users ==> s.users[k].username != username && s.users[k].email != email
    ensures Clash(s.users, s.ids, username, email) == Some(UsernameTaken) ==>
      exists k :: k in s.users && s.users[k].username == username
    ensures Clash(s.users, s.ids, username, email) == Some(EmailTaken) ==>
      exists k :: k in s.users && s.users[k].email == email
  {
    var e := Clash(s.users, s.ids, username, email);
    if e.None? {
      forall k | k in s.users
        ensures s.users[k].username != username && s.users[k].email != email
      {
        var i :| 0 <= i < |s.ids| && s.ids[i] == k;
      }
    } else {
      var i :| 0 <= i < |s.ids| && (s.users[s.ids[i]].username == username || s.users[s.ids[i]].email == email);
      var k := s.ids[i];
      assert k in s.users;
      if e == Some(UsernameTaken) {
        var j :| 0 <= j < |s.ids| && s.users[s.ids[j]].username == username;
        var k := s.ids[j];
        assert k in s.users && s.users[k].username == username;
      }
      if e == Some(EmailTaken) {
        var j :| 0 <= j < |s.ids| && s.users[s.ids[j]].email == email;
        var k := s.ids[j];
        assert k in s.users && s.users[k].email == email;
      }
    }
  }

  /** The error reported is decided by the first clashing record: if record `k`
      in order is the first to share the username or the email, its username
      check comes first. */
  lemma {:induction false} ClashFirst(users: map<int, User>, ids: seq<int>, username: string, email: string, k: nat)
    requires Listed(users, ids)
    requires k < |ids|
    requires forall j :: 0 <= j < k ==> users[ids[j]].username != username && users[ids[j]].email != email
    ensures users[ids[k]].username == username ==> Clash(users, ids, username, email) == Some(UsernameTaken)
    ensures users[ids[k]].username != username && users[ids[k]].email == email ==>
      Clash(users, ids, username, email) == Some(EmailTaken)
  {
    if k > 0 {
      ClashFirst(users, ids[1..], username, email, k - 1);
    }
  }

  /** Adding a record under the counter whose username and email are new keeps
      the invariant. */
  lemma InsertKeepsConsistent(s: Store, u: User)
    requires u.id == s.counter
    requires forall k :: k in s.users ==> s.users[k].username != u.username && s.users[k].email != u.email
    ensures Consistent(s) ==> Consistent(Store(s.users[s.counter := u], s.ids + [s.counter], s.counter + 1))
  {
    if !Consistent(s) {
      return;
    }
    var t := Store(s.users[s.counter := u], s.ids + [s.counter], s.counter + 1);
    assert s.counter !in s.users;
    forall i | 0 <= i < |t.ids|
      ensures t.ids[i] in t.users
    {
      if i < |s.ids| {
        assert t.ids[i] == s.ids[i];
      }
    }
    forall k | k in t.users
      ensures k in t.ids
    {
      if k != s.counter {
        assert k in s.ids;
      } else {
        assert t.ids[|s.ids|] == k;
      }
    }
    forall i, j | 0 <= i < j < |t.ids|
      ensures t.ids[i] < t.ids[j]
    {
      assert t.ids[i] in s.users;
      if j < |s.ids| {
        assert t.ids[i] == s.ids[i] && t.ids[j] == s.ids[j];
      }
    }
  }

  /** `create_user`. */
  function Register(s: Store, username: string, email: string, password: string,
                    hashpw: Hasher, salt: string, createdAt: string): (out: (Store, Result<PublicUser, string>))
    requires Indexed(s)
    ensures out.1.Err? <==> exists k :: k in s.users && (s.users[k].username == username || s.users[k].email == email)
    ensures out.1.Err? ==> out.0 == s && (out.1.error == UsernameTaken || out.1.error == EmailTaken)
    ensures out.1 == Err(UsernameTaken) ==> exists k :: k in s.users && s.users[k].username == username
    ensures out.1 == Err(EmailTaken) ==> exists k :: k in s.users && s.users[k].email == email
    ensures out.1.Ok? ==>
      out.0.counter == s.counter + 1 && out.0.ids == s.ids + [s.counter] &&
      out.0.users.Keys == s.users.Keys + {s.counter} &&
      (forall k :: k in s.users && k != s.counter ==> out.0.users[k] == s.users[k]) &&
      out.0.users[s.counter] == User(s.counter, username, email, hashpw(password, salt), UserRole, createdAt) &&
      out.1.value == WithoutPassword(out.0.users[s.counter])
    ensures Consistent(s) ==> Consistent(out.0)
  {
    ClashByKey(s, username, email);
    match Clash(s.users, s.ids, username, email)
    case Some(error) => (s, Err(error))
    case None =>
      var u := User(s.counter, username, email, hashpw(password, salt), UserRole, createdAt);
      var t := Store(s.users[s.counter := u], s.ids + [s.counter], s.counter + 1);
      InsertKeepsConsistent(s, u);
      (t, Ok(WithoutPassword(u)))
  }

  /** `initialize_admin`: only an empty `users` gains the administrator. */
  function Bootstrap(s: Store, hashpw: Hasher, salt: string, createdAt: string): (t: Store)
    ensures t.users != map[]
    ensures s.users != map[] ==> t == s
    ensures s.users == map[] ==>
      t.users.Keys == {s.counter} && t.counter == s.counter + 1 &&
      t.users[s.counter] == User(s.counter, AdminUsername, AdminEmail, hashpw(AdminPassword, salt), AdminRole, createdAt)
    ensures s.users == map[] ==> Consistent(t)
    ensures Consistent(s) ==> Consistent(t)
  {
    if s.users == map[] then
      var admin := User(s.counter, AdminUsername, AdminEmail, hashpw(AdminPassword, salt), AdminRole, createdAt);
      var t := Store(map[s.counter := admin], [s.counter], s.counter + 1);
      assert s.counter in t.users;
      t
    else s
  }

  /** A second `initialize_admin` changes nothing. */
  lemma BootstrapIdempotent(s: Store, hashpw: Hasher, salt1: string, at1: string, salt2: string, at2: string)
    ensures Bootstrap(Bootstrap(s, hashpw, salt1, at1), hashpw, salt2, at2) == Bootstrap(s, hashpw, salt1, at1)
  {
  }

  /** The username scan of `authenticate_user`: the first record in order with
      that username. */
  function LookupIn(users: map<int, User>, ids: seq<int>, username: string): (r: Option<User>)
    requires Listed(users, ids)
    ensures r.None? <==> forall i :: 0 <= i < |ids| ==> users[ids[i]].username != username
    ensures r.Some? ==> r.value.username == username
    decreases |ids|
  {
    if |ids| == 0 then None
    else if users[ids[0]].username == username then Some(users[ids[0]])
    else
      var r := LookupIn(users, ids[1..], username);
      assert forall i :: 1 <= i < |ids| ==> ids[i] == ids[1..][i - 1];
      r
  }

  /** The lookup returns the first record in order with that username. */
  lemma {:induction false} LookupFindsFirst(users: map<int, User>, ids: seq<int>, username: string, k: nat)
    requires Listed(users, ids)
    requires k < |ids| && users[ids[k]].username == username
    requires forall j :: 0 <= j < k ==> users[ids[j]].username != username
    ensures LookupIn(users, ids, username) == Some(users[ids[k]])
  {
    if k > 0 {
      LookupFindsFirst(users, ids[1..], username, k - 1);
    }
  }

  /** `authenticate_user`. */
  function Authenticate(s: Store, username: string, password: string, checkpw: Checker): (r: Result<PublicUser, string>)
    requires Indexed(s)
    ensures r.Err? ==> r.error == BadCredentials
    ensures r.Ok? ==> r.value.username == username
    ensures (forall k :: k in s.users ==> s.users[k].username != username) ==> r == Err(BadCredentials)
  {
    assert (forall k :: k in s.users ==> s.users[k].username != username) ==>
      forall i :: 0 <= i < |s.ids| ==> s.users[s.ids[i]].username != username;
    match LookupIn(s.users, s.ids, username)
    case None => Err(BadCredentials)
    case Some(u) => if checkpw(password, u.password) then Ok(WithoutPassword(u)) else Err(BadCredentials)
  }

  /** In a consistent store the first record with a username is the only one, so
      logging in succeeds exactly when that user's digest checks, and returns
      that user without the digest. */
  lemma AuthenticateUnique(s: Store, username: string, password: string, checkpw: Checker, k: int)
    requires Consistent(s)
    requires k in s.users && s.users[k].username == username
    ensures Authenticate(s, username, password, checkpw) ==
      if checkpw(password, s.users[k].password) then Ok(WithoutPassword(s.users[k])) else Err(BadCredentials)
  {
    var i :| 0 <= i < |s.ids| && s.ids[i] == k;
    forall j | 0 <= j < i
      ensures s.users[s.ids[j]].username != username
    {
      assert s.ids[j] < s.ids[i];
    }
    LookupFindsFirst(s.users, s.ids, username, i);
  }

  /** Registering a username that was just registered fails; it fails with
      "Username already exists" unless an earlier user already has the new email. */
  lemma RegisterUsernameTwice(s: Store, username: string, email1: string, email2: string, password1: string,
                              password2: string, hashpw: Hasher, salt1: string, salt2: string, at1: string, at2: string)
    requires Consistent(s)
    requires Register(s, username, email1, password1, hashpw, salt1, at1).1.Ok?
    ensures var s1 := Register(s, username, email1, password1, hashpw, salt1, at1).0;
      var second := Register(s1, username, email2, password2, hashpw, salt2, at2);
      second.1.Err? && second.0 == s1 &&
      ((forall k :: k in s.users ==> s.users[k].email != email2) ==> second.1 == Err(UsernameTaken))
  {
    var s1 := Register(s, username, email1, password1, hashpw, salt1, at1).0;
    assert s.counter in s1.users;
    var i := |s.ids|;
    assert s1.ids[i] == s.counter;
    if forall k :: k in s.users ==> s.users[k].email != email2 {
      forall j | 0 <= j < i
        ensures s1.users[s1.ids[j]].username != username && s1.users[s1.ids[j]].email != email2
      {
        assert s1.ids[j] == s.ids[j] && s.ids[j] in s.users;
      }
      ClashFirst(s1.users, s1.ids, username, email2, i);
    }
  }

  /** Registering an email that was just registered, under a username no user has,
      fails with "Email already exists". */
  lemma RegisterEmailTwice(s: Store, username1: string, username2: string, email: string, password1: string,
                           password2: string, hashpw: Hasher, salt1: string, salt2: string, at1: string, at2: string)
    requires Consistent(s)
    requires Register(s, username1, email, password1, hashpw, salt1, at1).1.Ok?
    requires username2 != username1 && forall k :: k in s.users ==> s.users[k].username != username2
    ensures var s1 := Register(s, username1, email, password1, hashpw, salt1, at1).0;
      Register(s1, username2, email, password2, hashpw, salt2, at2) == (s1, Err(EmailTaken))
  {
    var s1 := Register(s, username1, email, password1, hashpw, salt1, at1).0;
    var i := |s.ids|;
    assert s1.ids[i] == s.counter;
    forall j | 0 <= j < i
      ensures s1.users[s1.ids[j]].username != username2 && s1.users[s1.ids[j]].email != email
    {
      assert s1.ids[j] == s.ids[j] && s.ids[j] in s.users;
    }
    ClashFirst(s1.users, s1.ids, username2, email, i);
  }

  /** Logging in right after registering, with the same password, succeeds and
      returns the new user, provided the checker accepts every digest the hasher
      makes of the same password. */
  lemma LoginAfterRegister(s: Store, username: string, email: string, password: string,
                           hashpw: Hasher, checkpw: Checker, salt: string, createdAt: string)
    requires Consistent(s)
    requires forall p, salt' :: checkpw(p, hashpw(p, salt'))
    requires Register(s, username, email, password, hashpw, salt, createdAt).1.Ok?
    ensures var out := Register(s, username, email, password, hashpw, salt, createdAt);
      Authenticate(out.0, username, password, checkpw) == out.1 &&
      out.1.value.role == UserRole && out.1.value.id == s.counter
  {
    var out := Register(s, username, email, password, hashpw, salt, createdAt);
    AuthenticateUnique(out.0, username, password, checkpw, s.counter);
  }
}
