/**
 * bcrypt and JSON Web Tokens, which the server calls but which are not part
 * of this model, as uninterpreted oracles. The random salt bcrypt draws and
 * the clock that JWT expiry reads are explicit parameters.
 */
module Crypto {
  import opened Wrappers

  datatype Oracles = Oracles(
    /** `bcrypt.hash(password, 10)` when it draws the given salt. */
    hash: (string, nat) -> string,
    /** `bcrypt.compare(password, storedHash)`. */
    matches: (string, string) -> bool,
    /** `jwt.sign({ userId }, SECRET_KEY, { expiresIn: "1h" })` at time `now`. */
    sign: (int, int) -> string,
    /** `jwt.verify(token, SECRET_KEY)` at time `now`: the `userId` claim, or
        `None` when the signature is bad or the token has expired. */
    verify: (string, int) -> Option<int>
  )

  /** What the server relies on the libraries for: a password matches its own
      hash, a token verifies at the time it was issued as the id it was signed
      for, and a compact JWT is non-empty and contains no space. */
  ghost predicate Sound(c: Oracles) {
    && (forall password, salt :: c.matches(password, c.hash(password, salt)))
    && (forall userId, now :: c.verify(c.sign(userId, now), now) == Some(userId))
    && (forall userId, now :: c.sign(userId, now) != "" && ' ' !in c.sign(userId, now))
  }
}
