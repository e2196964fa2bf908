/** The backend's user accounts: the login decision of POST `/api/login` and
    the seeding of the admin account at start-up. Password hashing and token
    signing are cryptography outside the model: `matches` stands for
    `bcrypt.compare`, `sign` for `jwt.sign` with the server's secret, and
    `hash` for `bcrypt.hash`. */
module Auth {
  import opened JsValues
  import opened Seqs

  const AdminUsername: string := "Utkarsh-Anand"
  const DefaultPassword: string := "Gorakhpur1"
  const SaltRounds: nat := 10
  const TokenExpiry: string := "1d"

  /** A stored account; `passwordHash` is the bcrypt hash of its password. */
  datatype User = User(id: nat, username: string, passwordHash: string)

  /** The payload of an issued token. */
  datatype Claims = Claims(id: nat, username: string)

  datatype LoginReply = LoginOk(token: string) | LoginFailed(status: int, message: string)

  /** The one failure reply, for an unknown user and a wrong password alike. */
  const InvalidCredentials: LoginReply := LoginFailed(401, "Invalid credentials")

  /** The schema's `unique: true` on `username`. */
  ghost predicate UniqueUsernames(users: seq<User>)
  {
    forall i, j :: 0 <= i < j < |users| ==> users[i].username != users[j].username
  }

  /** `User.findOne({ username })`: the first account with that name, if any. */
  function FindUser(users: seq<User>, name: string): (r: Option<User>)
    ensures r.Some? ==> r.value in users && r.value.username == name
    ensures r.None? <==> forall u :: u in users ==> u.username != name
  {
    if |users| == 0 then None
    else if users[0].username == name then Some(users[0])
    else FindUser(users[1..], name)
  }

  /** With unique names, the account found is the only one with that name. */
  lemma FindUserUnique(users: seq<User>, u: User)
    requires UniqueUsernames(users) && u in users
    ensures FindUser(users, u.username) == Some(u)
  {
    var v := FindUser(users, u.username).value;
    var i :| 0 <= i < |users| && users[i] == u;
    var j :| 0 <= j < |users| && users[j] == v;
    assert i == j;
  }

  /** The login decision: a token for `{id, username}` valid for one day when
      the user exists and the password matches its hash; otherwise 401
      "Invalid credentials", the same reply in both failure cases. */
  function Login(users: seq<User>, username: string, password: string,
                 matches: (string, string) -> bool, sign: (Claims, string) -> string): (r: LoginReply)
    ensures r.LoginFailed? ==> r == InvalidCredentials
    ensures r.LoginOk? ==>
              exists u :: u in users && u.username == username && matches(password, u.passwordHash)
                          && r.token == sign(Claims(u.id, u.username), TokenExpiry)
    ensures UniqueUsernames(users) ==>
              (r.LoginOk? <==> exists u :: u in users && u.username == username && matches(password, u.passwordHash))
  {
    match FindUser(users, username)
    case None => InvalidCredentials
    case Some(u) =>
      if !matches(password, u.passwordHash) then InvalidCredentials
      else
        var r := LoginOk(sign(Claims(u.id, u.username), TokenExpiry));
        assert UniqueUsernames(users) ==>
                 forall u' :: u' in users && u'.username == username ==> u' == u by {
          if UniqueUsernames(users) {
            forall u' | u' in users && u'.username == username
              ensures u' == u
            {
              FindUserUnique(users, u');
            }
          }
        }
        r
  }

  /** The user list after `seedAdmin`: unchanged when an admin account exists,
      otherwise with the admin account added. */
  function SeedUsers(users: seq<User>, id: nat, hashed: string): (r: seq<User>)
    ensures FindUser(users, AdminUsername).Some? ==> r == users
    ensures FindUser(users, AdminUsername).None? ==> r == users + [User(id, AdminUsername, hashed)]
  {
    if FindUser(users, AdminUsername).Some? then users
    else users + [User(id, AdminUsername, hashed)]
  }

  function AdminAccounts(users: seq<User>): (r: seq<User>)
    ensures forall u :: u in r <==> u in users && u.username == AdminUsername
  {
    Filter(users, (u: User) => u.username == AdminUsername)
  }

  lemma {:induction false} FindUserAppend(users: seq<User>, extra: User, name: string)
    requires FindUser(users, name).None?
    ensures FindUser(users + [extra], name) == if extra.username == name then Some(extra) else None
  {
    if |users| > 0 {
      assert (users + [extra])[1..] == users[1..] + [extra];
      FindUserAppend(users[1..], extra, name);
    } else {
      assert ([] + [extra])[1..] == [];
    }
  }

  /** Seeding twice is seeding once: the second run finds the admin. */
  lemma SeedIdempotent(users: seq<User>, id: nat, hashed: string, id': nat, hashed': string)
    ensures SeedUsers(SeedUsers(users, id, hashed), id', hashed') == SeedUsers(users, id, hashed)
  {
    if FindUser(users, AdminUsername).None? {
      FindUserAppend(users, User(id, AdminUsername, hashed), AdminUsername);
    }
  }

  /** Seeding leaves exactly one admin account when there was none, and adds
      none when there was one: it never creates a second admin. */
  lemma SeedAdminCount(users: seq<User>, id: nat, hashed: string)
    ensures |AdminAccounts(users)| == 0 ==> |AdminAccounts(SeedUsers(users, id, hashed))| == 1
    ensures |AdminAccounts(users)| > 0 ==> AdminAccounts(SeedUsers(users, id, hashed)) == AdminAccounts(users)
  {
    var admin := User(id, AdminUsername, hashed);
    var isAdmin := (u: User) => u.username == AdminUsername;
    if FindUser(users, AdminUsername).None? {
      FilterAppend(users, [admin], isAdmin);
      NoMemberIsEmpty(AdminAccounts(users));
      assert Filter([admin], isAdmin) == [admin] by {
        FilterKeepsAll([admin], isAdmin);
      }
    } else {
      var u := FindUser(users, AdminUsername).value;
      assert u in AdminAccounts(users);
    }
  }

  /** Seeding keeps user names unique. */
  lemma SeedKeepsUnique(users: seq<User>, id: nat, hashed: string)
    requires UniqueUsernames(users)
    ensures UniqueUsernames(SeedUsers(users, id, hashed))
  {
    if FindUser(users, AdminUsername).None? {
      var r := SeedUsers(users, id, hashed);
      forall i, j | 0 <= i < j < |r|
        ensures r[i].username != r[j].username
      {
        if j == |users| {
          assert r[i] in users;
        }
      }
    }
  }

  /** On a store without an admin, seeding with the hash of the default
      password lets the admin log in with it. */
  lemma SeededAdminCanLogin(users: seq<User>, id: nat, hashed: string,
                            matches: (string, string) -> bool, sign: (Claims, string) -> string)
    requires FindUser(users, AdminUsername).None?
    requires matches(DefaultPassword, hashed)
    ensures Login(SeedUsers(users, id, hashed), AdminUsername, DefaultPassword, matches, sign)
            == LoginOk(sign(Claims(id, AdminUsername), TokenExpiry))
  {
    FindUserAppend(users, User(id, AdminUsername, hashed), AdminUsername);
  }

  /** The accounts collection. */
  class UserStore {
    var users: seq<User>
    var nextId: nat

    ghost predicate Valid()
      reads this
    {
      UniqueUsernames(users) && forall u :: u in users ==> u.id < nextId
    }

    constructor ()
      ensures Valid() && users == []
    {
      users := [];
      nextId := 0;
    }

    /** `seedAdmin`: creates the admin account, with the default password
        hashed at `SaltRounds` (`hash` stands for `bcrypt.hash`), only when no
        account has the admin's name. */
    method SeedAdmin(hash: (string, nat) -> string)
      requires Valid()
      modifies this
      ensures Valid()
      ensures users == SeedUsers(old(users), old(nextId), hash(DefaultPassword, SaltRounds))
    {
      if FindUser(users, AdminUsername).None? {
        var hashed := hash(DefaultPassword, SaltRounds);
        SeedKeepsUnique(users, nextId, hashed);
        users := users + [User(nextId, AdminUsername, hashed)];
        nextId := nextId + 1;
      }
    }
  }
}
