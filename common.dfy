/** Values shared by every component: optional values, results and the
    error taxonomy the services and guards raise. */
module Common {

  /** Users are identified by an opaque id; the database hands out a fresh
      one for every insert, modelled here as a natural number. */
  type UserId = nat

  datatype Option<T> = None | Some(value: T)

  /** A call either returns a value or raises one of the errors below. */
  datatype Result<T> = Ok(value: T) | Err(error: Error)

  /** The exceptions the core raises. */
  datatype Error =
    | Conflict(message: string)      // registration reuses a username or an e-mail
    | Unauthorized(message: string)  // the credential check failed
    | Unauthenticated                // the token guard found no valid bearer token
    | Forbidden                      // the role guard found the role outside the allow-list
    | NotFound(message: string)      // no movie with the requested id
    | UserNotFound                   // no user with the requested id
    | QueryFailed                    // the database rejected the query (a server error)

  /** Message of the Conflict raised by registration. */
  const ConflictMessage: string := "El nombre de usuario o el correo ya están en uso"

  /** The one message of every failed credential check. */
  const InvalidCredentials: string := "Credenciales inválidas"
}
