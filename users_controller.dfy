/** The HTTP face of the user store (UsersController). It delegates every
    route to the store and shows users only through their public view,
    so no password ever leaves it; none of its routes takes a caller,
    because none is guarded. */
module UsersController {
  import opened Common
  import opened Crypto
  import opened Users

  /** The body of `POST /users`. */
  datatype CreateUserDto = CreateUserDto(username: string, password: string, email: string, userTypeId: int)

  /** `POST /users`: registers the body's fields, in the store's argument
      order, and returns the created user without its password. */
  function Create(t: UserTable, crypto: Crypto, body: CreateUserDto): (r: (Result<PublicUser>, UserTable))
    requires Invariant(t)
    ensures Invariant(r.1)
    ensures r.1 == CreateStep(t, crypto, body.username, body.password, body.email, body.userTypeId).1
    ensures r.0.Err? <==> exists u :: u in t.users && (u.username == body.username || u.email == body.email)
    ensures r.0.Err? ==> r.0.error == Conflict(ConflictMessage)
    ensures r.0.Ok? ==>
      && r.0.value.username == body.username && r.0.value.email == body.email
      && r.0.value.userTypeId == body.userTypeId
      && (forall u :: u in t.users ==> u.id != r.0.value.id)
      && exists u :: u in r.1.users && u.id == r.0.value.id && u.password == crypto.hash(body.password)
  {
    var (res, t') := CreateStep(t, crypto, body.username, body.password, body.email, body.userTypeId);
    match res
    case Ok(u) =>
      assert u in t'.users;
      (Ok(WithoutPassword(u)), t')
    case Err(e) => (Err(e), t')
  }

  /** `GET /users`: every stored user, in creation order, without passwords. */
  function FindAll(t: UserTable): (r: seq<PublicUser>)
    ensures |r| == |t.users|
    ensures forall i :: 0 <= i < |r| ==> r[i] == WithoutPassword(t.users[i])
  {
    seq(|t.users|, i requires 0 <= i < |t.users| => WithoutPassword(t.users[i]))
  }

  /** `GET /users/:id`: the user with that id, without password, or NotFound. */
  function FindOne(t: UserTable, id: UserId): (r: Result<PublicUser>)
    ensures r.Ok? ==> r.value.id == id && exists u :: u in t.users && WithoutPassword(u) == r.value
    ensures r.Err? ==> r.error == UserNotFound && forall u :: u in t.users ==> u.id != id
  {
    match Users.FindOne(t.users, id)
    case Ok(u) => Ok(WithoutPassword(u))
    case Err(e) => Err(e)
  }

  /** `DELETE /users/:id`: the store's removal, with the id unchanged. */
  function Remove(t: UserTable, id: UserId): (r: (Result<()>, UserTable))
    requires Invariant(t)
    ensures r == RemoveStep(t, id)
    ensures r.0.Ok? <==> exists u :: u in t.users && u.id == id
  {
    RemoveStep(t, id)
  }

  /** A registration that succeeds shows up, in its public form, at the
      end of the listing and under its own id. */
  lemma CreatedUserIsListed(t: UserTable, crypto: Crypto, body: CreateUserDto)
    requires Invariant(t)
    requires Create(t, crypto, body).0.Ok?
    ensures var (r, t') := Create(t, crypto, body);
      && FindAll(t') == FindAll(t) + [r.value]
      && FindOne(t', r.value.id) == Ok(r.value)
  {
    var (r, t') := Create(t, crypto, body);
    var (s, t'') := CreateStep(t, crypto, body.username, body.password, body.email, body.userTypeId);
    assert t'' == t' && s.Ok? && r.value == WithoutPassword(s.value);
    CreatedUserIsFound(t, crypto, body.username, body.password, body.email, body.userTypeId);
    assert FindAll(t') == FindAll(t) + [r.value];
  }
}
