/** Credential validation and token issuance (AuthService). Neither call
    changes any state: both are functions of the user table. */
module Auth {
  import opened Common
  import opened Crypto
  import opened Users

  /** What `login` returns. */
  datatype AccessToken = AccessToken(accessToken: string)

  /** `validateUser(username, password)`: look the user up by exactly that
      username, compare the password with the stored digest, and return the
      record without its password; an unknown username and a wrong password
      raise the same Unauthorized error. */
  function ValidateUser(users: seq<User>, crypto: Crypto, username: string, password: string): (r: Result<PublicUser>)
    ensures r.Ok? ==> r.value.username == username
    ensures r.Ok? ==> exists u :: u in users && u.username == username && crypto.matches(password, u.password)
                                  && r.value == WithoutPassword(u)
    ensures r.Err? ==> r == Err(Unauthorized(InvalidCredentials))
    ensures (forall u :: u in users ==> u.username != username) ==> r.Err?
  {
    match FindByUsername(users, username)
    case None => Err(Unauthorized(InvalidCredentials))
    case Some(u) =>
      if crypto.matches(password, u.password) then Ok(WithoutPassword(u))
      else Err(Unauthorized(InvalidCredentials))
  }

  /** `login(user)`: sign the claims `{ username, sub: id }`. */
  function Login(crypto: Crypto, user: PublicUser): (r: AccessToken)
    ensures r.accessToken == crypto.sign(Claims(user.username, user.id))
  {
    AccessToken(crypto.sign(Claims(user.username, user.id)))
  }

  /** In a table without duplicates, the stored password accepted by
      bcrypt is enough to be let in, and the stored record comes back
      without its password. */
  lemma ValidUserIsAccepted(users: seq<User>, crypto: Crypto, u: User, password: string)
    requires Unique(users) && u in users
    requires crypto.matches(password, u.password)
    ensures ValidateUser(users, crypto, u.username, password) == Ok(WithoutPassword(u))
  {
    LookupsFindTheStoredUser(users, u);
  }

  /** A wrong password for a stored user is rejected with the same error
      as an unknown username, so a caller cannot tell the two apart. */
  lemma FailuresAreIndistinguishable(users: seq<User>, crypto: Crypto, u: User, password: string,
                                     unknown: string, anyPassword: string)
    requires Unique(users) && u in users
    requires !crypto.matches(password, u.password)
    requires forall v :: v in users ==> v.username != unknown
    ensures ValidateUser(users, crypto, u.username, password) == Err(Unauthorized(InvalidCredentials))
    ensures ValidateUser(users, crypto, u.username, password) == ValidateUser(users, crypto, unknown, anyPassword)
  {
    LookupsFindTheStoredUser(users, u);
  }

  /** The signed claims depend only on the username and the id: two
      records that differ in user type or e-mail have the same claims
      signed, so the token carries no role. */
  lemma TokenCarriesNoRole(crypto: Crypto, a: PublicUser, b: PublicUser)
    requires a.id == b.id && a.username == b.username
    ensures Login(crypto, a) == Login(crypto, b)
  {
  }
}
