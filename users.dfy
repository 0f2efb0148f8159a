/** The user store (UsersService): registration with a username/e-mail
    uniqueness check and a hashed password, lookups by id and by username,
    listing, and deletion by id. The pure functions say what one call does
    to the table; the class UsersService keeps the table in fields and
    updates them in place. */
module Users {
  import opened Common
  import opened Crypto

  /** A stored account. `password` holds the bcrypt digest. */
  datatype User = User(id: UserId, username: string, password: string, email: string, userTypeId: int)

  /** What leaves the API: a user record without its password. */
  datatype PublicUser = PublicUser(id: UserId, username: string, email: string, userTypeId: int)

  /** The output projection that drops the password. */
  function WithoutPassword(u: User): (p: PublicUser)
    ensures p.id == u.id && p.username == u.username && p.email == u.email && p.userTypeId == u.userTypeId
  {
    PublicUser(u.id, u.username, u.email, u.userTypeId)
  }

  /** The projection forgets the password and nothing else: the record
      is recovered from its public view and its digest. */
  lemma WithoutPasswordKeepsTheRest(u: User, v: User)
    ensures WithoutPassword(u) == WithoutPassword(v) <==> u == v.(password := u.password)
    ensures var p := WithoutPassword(u); User(p.id, p.username, u.password, p.email, p.userTypeId) == u
  {
  }

  /** The users table in creation order, and the id the next insert gets. */
  datatype UserTable = UserTable(users: seq<User>, nextId: UserId)

  /** Two users that share no id, no username and no e-mail. */
  predicate Apart(u: User, v: User) {
    u.id != v.id && u.username != v.username && u.email != v.email
  }

  /** No two stored users share an id, a username or an e-mail. */
  predicate Unique(users: seq<User>) {
    forall i, j :: 0 <= i < j < |users| ==> Apart(users[i], users[j])
  }

  /** The store's data invariant: unique users, all ids below the counter. */
  predicate Invariant(t: UserTable) {
    Unique(t.users) && forall u :: u in t.users ==> u.id < t.nextId
  }

  /** The empty table the application starts with. */
  const Empty: UserTable := UserTable([], 0)

  /** `findOne({ where: { id } })` followed by NotFound when nothing came back. */
  function FindOne(users: seq<User>, id: UserId): (r: Result<User>)
    ensures r.Ok? ==> r.value in users && r.value.id == id
    ensures r.Err? ==> r.error == UserNotFound && forall u :: u in users ==> u.id != id
  {
    if |users| == 0 then Err(UserNotFound)
    else if users[0].id == id then Ok(users[0])
    else FindOne(users[1..], id)
  }

  /** `findOne({ where: { username } })`; an unknown name gives no user. */
  function FindByUsername(users: seq<User>, username: string): (r: Option<User>)
    ensures r.Some? ==> r.value in users && r.value.username == username
    ensures r.None? ==> forall u :: u in users ==> u.username != username
  {
    if |users| == 0 then None
    else if users[0].username == username then Some(users[0])
    else FindByUsername(users[1..], username)
  }

  /** The registration query `findOne({ where: [{ username }, { email }] })`:
      some user that has the username or the e-mail. */
  function FindByUsernameOrEmail(users: seq<User>, username: string, email: string): (r: Option<User>)
    ensures r.Some? ==> r.value in users && (r.value.username == username || r.value.email == email)
    ensures r.None? ==> forall u :: u in users ==> u.username != username && u.email != email
  {
    if |users| == 0 then None
    else if users[0].username == username || users[0].email == email then Some(users[0])
    else FindByUsernameOrEmail(users[1..], username, email)
  }

  /** `a` is `b` with some elements left out, the others in their order. */
  predicate Subsequence(a: seq<User>, b: seq<User>)
    decreases |b|
  {
    |a| == 0 || (|b| > 0 && if a[0] == b[0] then Subsequence(a[1..], b[1..]) else Subsequence(a, b[1..]))
  }

  /** The rows left by `delete(id)`, in the order they were stored. */
  function Without(users: seq<User>, id: UserId): (r: seq<User>)
    ensures forall u :: u in r <==> u in users && u.id != id
    ensures Subsequence(r, users)
    ensures |r| <= |users|
    ensures |r| == |users| <==> forall u :: u in users ==> u.id != id
    ensures (forall u :: u in users ==> u.id != id) ==> r == users
  {
    if |users| == 0 then []
    else if users[0].id == id then
      var rest := Without(users[1..], id);
      assert |rest| > 0 ==> rest[0] in rest && rest[0] != users[0];
      rest
    else
      var r := [users[0]] + Without(users[1..], id);
      assert r[1..] == Without(users[1..], id);
      r
  }

  /** What `create(username, password, email, userTypeId)` does to the table. */
  function CreateStep(t: UserTable, crypto: Crypto, username: string, password: string, email: string, userTypeId: int)
    : (r: (Result<User>, UserTable))
    requires Invariant(t)
    ensures Invariant(r.1)
    ensures r.0.Err? <==> exists u :: u in t.users && (u.username == username || u.email == email)
    ensures r.0.Err? ==> r.0.error == Conflict(ConflictMessage) && r.1 == t
    ensures r.0.Ok? ==>
      && r.0.value.username == username && r.0.value.email == email && r.0.value.userTypeId == userTypeId
      && r.0.value.password == crypto.hash(password)
      && (forall u :: u in t.users ==> u.id != r.0.value.id)
      && r.1.users == t.users + [r.0.value]
  {
    if FindByUsernameOrEmail(t.users, username, email).Some? then
      (Err(Conflict(ConflictMessage)), t)
    else
      var u := User(t.nextId, username, crypto.hash(password), email, userTypeId);
      InsertKeepsUnique(t.users, u);
      (Ok(u), UserTable(t.users + [u], t.nextId + 1))
  }

  /** What `remove(id)` does to the table: the row goes, and a delete that
      affected no row raises NotFound. */
  function RemoveStep(t: UserTable, id: UserId): (r: (Result<()>, UserTable))
    requires Invariant(t)
    ensures Invariant(r.1)
    ensures r.0.Ok? <==> exists u :: u in t.users && u.id == id
    ensures r.0.Err? ==> r.0.error == UserNotFound && r.1 == t
    ensures r.0.Ok? ==> r.1 == UserTable(Without(t.users, id), t.nextId)
    ensures forall u :: u in r.1.users <==> u in t.users && u.id != id
  {
    var kept := Without(t.users, id);
    WithoutKeepsUnique(t.users, id);
    if |t.users| - |kept| == 0 then (Err(UserNotFound), t)
    else (Ok(()), UserTable(kept, t.nextId))
  }

  /** A user whose id, username and e-mail are new may be appended. */
  lemma InsertKeepsUnique(users: seq<User>, u: User)
    requires Unique(users)
    requires forall v :: v in users ==> Apart(v, u)
    ensures Unique(users + [u])
  {
    var s := users + [u];
    forall i, j | 0 <= i < j < |s| ensures Apart(s[i], s[j]) {
      if j == |users| {
        assert s[i] in users;
      } else {
        assert s[i] == users[i] && s[j] == users[j];
      }
    }
  }

  /** A table without duplicates splits into its first user, apart from
      every later one, and a tail without duplicates. */
  lemma UniqueCons(users: seq<User>)
    requires |users| > 0
    ensures Unique(users) <==> Unique(users[1..]) && forall v :: v in users[1..] ==> Apart(users[0], v)
  {
    var tail := users[1..];
    if Unique(users) {
      forall i, j | 0 <= i < j < |tail| ensures Apart(tail[i], tail[j]) {
        assert tail[i] == users[i + 1] && tail[j] == users[j + 1];
      }
      forall v | v in tail ensures Apart(users[0], v) {
        var k :| 0 <= k < |tail| && tail[k] == v;
        assert users[k + 1] == v;
      }
    }
    if Unique(tail) && forall v :: v in tail ==> Apart(users[0], v) {
      forall i, j | 0 <= i < j < |users| ensures Apart(users[i], users[j]) {
        assert users[j] == tail[j - 1] && users[j] in tail;
        if i > 0 {
          assert users[i] == tail[i - 1];
        }
      }
    }
  }

  /** Deleting rows keeps the remaining ones distinct. */
  lemma {:induction false} WithoutKeepsUnique(users: seq<User>, id: UserId)
    requires Unique(users)
    ensures Unique(Without(users, id))
  {
    if |users| > 0 {
      UniqueCons(users);
      WithoutKeepsUnique(users[1..], id);
      var rest := Without(users[1..], id);
      if users[0].id != id {
        var s := [users[0]] + rest;
        assert s[1..] == rest;
        UniqueCons(s);
      }
    }
  }

  /** With unique ids, a delete by an existing id affects exactly one row. */
  lemma {:induction false} WithoutRemovesOne(users: seq<User>, id: UserId)
    requires Unique(users)
    requires exists u :: u in users && u.id == id
    ensures |Without(users, id)| == |users| - 1
  {
    UniqueCons(users);
    if users[0].id != id {
      var u :| u in users && u.id == id;
      assert u in users[1..];
      WithoutRemovesOne(users[1..], id);
    }
  }

  /** In a table without duplicates, the lookups find the one stored user
      with that id or username. */
  lemma LookupsFindTheStoredUser(users: seq<User>, u: User)
    requires Unique(users) && u in users
    ensures FindOne(users, u.id) == Ok(u)
    ensures FindByUsername(users, u.username) == Some(u)
  {
    var i :| 0 <= i < |users| && users[i] == u;
    var r := FindOne(users, u.id).value;
    var j :| 0 <= j < |users| && users[j] == r;
    assert i == j;
    var q := FindByUsername(users, u.username).value;
    var k :| 0 <= k < |users| && users[k] == q;
    assert i == k;
  }

  /** A successful registration makes the new account reachable by id and
      by username, and leaves every earlier account in place. */
  lemma CreatedUserIsFound(t: UserTable, crypto: Crypto, username: string, password: string, email: string, userTypeId: int)
    requires Invariant(t)
    requires CreateStep(t, crypto, username, password, email, userTypeId).0.Ok?
    ensures var (r, t') := CreateStep(t, crypto, username, password, email, userTypeId);
      && FindOne(t'.users, r.value.id) == Ok(r.value)
      && FindByUsername(t'.users, username) == Some(r.value)
      && forall v :: v in t.users ==> FindOne(t'.users, v.id) == Ok(v)
  {
    var (r, t') := CreateStep(t, crypto, username, password, email, userTypeId);
    LookupsFindTheStoredUser(t'.users, r.value);
    forall v | v in t.users ensures FindOne(t'.users, v.id) == Ok(v) {
      LookupsFindTheStoredUser(t'.users, v);
    }
  }

  /** Registering again with a username or an e-mail already stored is a
      Conflict that leaves the table as it was, whatever else differs. */
  lemma SecondRegistrationConflicts(t: UserTable, crypto: Crypto, username: string, password: string, email: string, userTypeId: int,
                                    username2: string, password2: string, email2: string, userTypeId2: int)
    requires Invariant(t)
    requires CreateStep(t, crypto, username, password, email, userTypeId).0.Ok?
    requires username2 == username || email2 == email
    ensures var t' := CreateStep(t, crypto, username, password, email, userTypeId).1;
      CreateStep(t', crypto, username2, password2, email2, userTypeId2) == (Err(Conflict(ConflictMessage)), t')
  {
    var (r, t') := CreateStep(t, crypto, username, password, email, userTypeId);
    assert r.value in t'.users;
  }

  /** After a successful removal the id is gone and the other users stay. */
  lemma RemovedUserIsGone(t: UserTable, id: UserId)
    requires Invariant(t)
    ensures var t' := RemoveStep(t, id).1;
      && FindOne(t'.users, id).Err?
      && forall v :: v in t.users && v.id != id ==> FindOne(t'.users, v.id) == Ok(v)
  {
    var t' := RemoveStep(t, id).1;
    forall v | v in t.users && v.id != id ensures FindOne(t'.users, v.id) == Ok(v) {
      LookupsFindTheStoredUser(t'.users, v);
    }
  }

  /** A removed id is never handed out again: the next registration gets
      another id. */
  lemma RemovedIdIsNotReissued(t: UserTable, crypto: Crypto, id: UserId,
                               username: string, password: string, email: string, userTypeId: int)
    requires Invariant(t) && exists u :: u in t.users && u.id == id
    ensures var t' := RemoveStep(t, id).1;
      var r := CreateStep(t', crypto, username, password, email, userTypeId).0;
      r.Ok? ==> r.value.id != id
  {
  }

  /** The store as a mutable object: `create` and `remove` change the
      table in place; the lookups read it through the functions above. */
  class UsersService {
    var users: seq<User>
    var nextId: UserId

    function State(): UserTable
      reads this
    {
      UserTable(users, nextId)
    }

    ghost predicate Valid()
      reads this
    {
      Invariant(State())
    }

    constructor ()
      ensures Valid() && State() == Empty
    {
      users := [];
      nextId := 0;
    }

    /** Registration: reject a reused username or e-mail with Conflict,
        otherwise store the record with the digest of the password. */
    method Create(crypto: Crypto, username: string, password: string, email: string, userTypeId: int)
      returns (r: Result<User>)
      requires Valid()
      modifies this
      ensures Valid()
      ensures (r, State()) == CreateStep(old(State()), crypto, username, password, email, userTypeId)
      ensures r.Err? ==> users == old(users)
      ensures r.Ok? ==> users == old(users) + [r.value]
    {
      var existing := FindByUsernameOrEmail(users, username, email);
      if existing.Some? {
        return Err(Conflict(ConflictMessage));
      }
      var digest := crypto.hash(password);
      var user := User(nextId, username, digest, email, userTypeId);
      InsertKeepsUnique(users, user);
      users := users + [user];
      nextId := nextId + 1;
      r := Ok(user);
    }

    /** Deletion by id: NotFound when the delete affected no row. */
    method Remove(id: UserId) returns (r: Result<()>)
      requires Valid()
      modifies this
      ensures Valid()
      ensures (r, State()) == RemoveStep(old(State()), id)
      ensures users == Without(old(users), id) && nextId == old(nextId)
    {
      var kept := Without(users, id);
      var affected := |users| - |kept|;
      WithoutKeepsUnique(users, id);
      users := kept;
      if affected == 0 {
        r := Err(UserNotFound);
      } else {
        r := Ok(());
      }
    }
  }
}
