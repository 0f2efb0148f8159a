/** `POST /auth/login` (AuthController.login): validate the body's
    credentials, then issue a token for the user that came back. */
module AuthController {
  import opened Common
  import opened Crypto
  import opened Users
  import opened Auth

  /** The body of `POST /auth/login`. */
  datatype LoginUserDto = LoginUserDto(username: string, password: string)

  function Login(users: seq<User>, crypto: Crypto, body: LoginUserDto): (r: Result<AccessToken>)
    ensures var v := ValidateUser(users, crypto, body.username, body.password);
      && (r.Ok? <==> v.Ok?)
      && (r.Ok? ==> r.value == Auth.Login(crypto, v.value))
    ensures r.Err? ==> r.error == Unauthorized(InvalidCredentials)
  {
    var v := ValidateUser(users, crypto, body.username, body.password);
    match v
    case Err(e) => Err(e)
    case Ok(user) => Ok(Auth.Login(crypto, user))
  }

  /** Registration followed by login: with the password chosen at
      registration the new user gets the token signed over its username
      and id; with a password bcrypt rejects, the login fails with
      Unauthorized and no token. */
  lemma LoginAfterRegistration(t: UserTable, crypto: Crypto, username: string, password: string,
                               email: string, userTypeId: int, attempt: string)
    requires Invariant(t)
    requires CreateStep(t, crypto, username, password, email, userTypeId).0.Ok?
    requires crypto.matches(password, crypto.hash(password))
    ensures var (r, t') := CreateStep(t, crypto, username, password, email, userTypeId);
      && Login(t'.users, crypto, LoginUserDto(username, password))
           == Ok(AccessToken(crypto.sign(Claims(username, r.value.id))))
      && (!crypto.matches(attempt, crypto.hash(password)) ==>
           Login(t'.users, crypto, LoginUserDto(username, attempt)) == Err(Unauthorized(InvalidCredentials)))
  {
    var (r, t') := CreateStep(t, crypto, username, password, email, userTypeId);
    assert r.value in t'.users;
    ValidUserIsAccepted(t'.users, crypto, r.value, password);
    if !crypto.matches(attempt, crypto.hash(password)) {
      LookupsFindTheStoredUser(t'.users, r.value);
    }
  }
}
