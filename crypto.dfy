/** The foreign libraries the core calls: bcrypt for password digests and
    the JWT service for signing. Their code is not part of the model, so
    each operation is an arbitrary function supplied by the caller, and the
    model proves its properties for every choice of them. */
module Crypto {
  import opened Common

  /** The JWT payload built at login: the username and the user id as
      subject. There is no role in it. */
  datatype Claims = Claims(username: string, sub: UserId)

  /** `hash` is bcrypt.hash, `matches(plain, digest)` is bcrypt.compare and
      `sign` is JwtService.sign. */
  datatype Crypto = Crypto(
    hash: string -> string,
    matches: (string, string) -> bool,
    sign: Claims -> string)
}
