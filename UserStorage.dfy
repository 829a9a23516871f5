/** Registered users and the in-memory user table. The table is a dictionary from username
    to User object; a user's LastLoginAt is updated in place on the stored object. Each
    operation runs as one step (the lock in the source makes it atomic). */
module UserStorage {
  import opened Wrappers
  import opened KeyGeneration
  import ElGamalSignature
  import Base64

  /** A registered user. Everything but the time of the last login is fixed at construction.
      Times are DateTime ticks. */
  class User {
    const username: string
    const passwordHash: string
    const publicKey: PublicKey
    const createdAt: int
    var lastLoginAt: Option<int>

    /** The password is kept as the Base64 text of its SHA-256 digest; `sha256` stands for
        UTF-8 encoding followed by SHA-256. */
    constructor (username: string, password: string, publicKey: PublicKey, now: int,
                 sha256: string -> ElGamalSignature.Digest)
      ensures this.username == username && this.publicKey == publicKey
      ensures passwordHash == Base64.Encode(sha256(password))
      ensures createdAt == now && lastLoginAt == None
    {
      this.username := username;
      this.passwordHash := Base64.Encode(sha256(password));
      this.publicKey := publicKey;
      this.createdAt := now;
      this.lastLoginAt := None;
    }
  }

  class InMemoryUserStorage {
    var users: map<string, User>

    /** Every user is stored under its own username. */
    ghost predicate Valid()
      reads this
    {
      forall name :: name in users ==> users[name].username == name
    }

    constructor ()
      ensures Valid() && users == map[]
    {
      users := map[];
    }

    /** Insert-if-absent: an existing username leaves the table as it was. */
    method AddUser(user: User) returns (added: bool)
      requires Valid()
      modifies this
      ensures Valid()
      ensures added <==> user.username !in old(users)
      ensures !added ==> users == old(users)
      ensures added ==> users == old(users)[user.username := user]
    {
      if user.username in users {
        return false;
      }
      users := users[user.username := user];
      return true;
    }

    method GetUser(username: string) returns (user: Option<User>)
      ensures user.Some? <==> username in users
      ensures user.Some? ==> user.value == users[username]
    {
      if username in users {
        return Some(users[username]);
      }
      return None;
    }

    method UserExists(username: string) returns (found: bool)
      ensures found <==> username in users
    {
      return username in users;
    }

    /** The stored users, one object per username. */
    method GetAllUsers() returns (all: set<User>)
      requires Valid()
      ensures forall user :: user in all <==> user.username in users && users[user.username] == user
      ensures |all| == |users|
    {
      all := users.Values;
      ValuesOnePerKey(users);
    }

    /** Stamps the named user's last login with `now`; unknown names change nothing. No user
        is added or removed and no other user changes. */
    method UpdateLastLogin(username: string, now: int)
      requires Valid()
      modifies users.Values
      ensures users == old(users)
      ensures username in users ==> users[username].lastLoginAt == Some(now)
      ensures forall name :: name in users && name != username ==>
        users[name].lastLoginAt == old(users[name].lastLoginAt)
    {
      if username in users {
        var user := users[username];
        user.lastLoginAt := Some(now);
      }
    }
  }

  /** In a table where every user sits under its own name, distinct names hold distinct
      objects, so there are as many users as names. */
  lemma {:induction false} ValuesOnePerKey(m: map<string, User>)
    requires forall name :: name in m ==> m[name].username == name
    ensures |m.Values| == |m|
    decreases |m|
  {
    if m != map[] {
      var name :| name in m;
      var rest := m - {name};
      ValuesOnePerKey(rest);
      forall user | user in m.Values
        ensures user in rest.Values || user == m[name]
      {
        var other :| other in m && m[other] == user;
        if other != name {
          assert rest[other] == user;
        }
      }
      forall user | user in rest.Values
        ensures user in m.Values
      {
        var other :| other in rest && rest[other] == user;
        assert m[other] == user;
      }
      assert m.Values == rest.Values + {m[name]};
      assert m[name] !in rest.Values;
      assert m.Keys == rest.Keys + {name};
    }
  }
}
