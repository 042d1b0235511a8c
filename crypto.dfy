/** The two foreign libraries the user repository calls, bcrypt
    (golang.org/x/crypto/bcrypt) and HS256 JSON Web Tokens
    (github.com/golang-jwt/jwt/v4, RFC 7519), as functions supplied from
    outside. What the repository relies on is stated as a predicate over
    those functions, and every property that needs it takes it as a
    precondition. */
module Crypto {
  import opened Outcomes
  import opened Domain

  /** bcrypt.DefaultCost. */
  const DefaultCost: int := 10

  /** generate(password, cost) is GenerateFromPassword: the hash, or the
      error it reports. compare(hash, password) is CompareHashAndPassword
      returning a nil error. */
  datatype Bcrypt = Bcrypt(generate: (string, int) -> Result<string>, compare: (string, string) -> bool)

  /** A password always matches a hash generated from it. */
  ghost predicate BcryptSound(b: Bcrypt) {
    forall p, cost :: b.generate(p, cost).Ok? ==> b.compare(b.generate(p, cost).value, p)
  }

  /** What ParseWithClaims hands back: the decoded claims and token.Valid. */
  datatype ParsedToken = ParsedToken(claims: Claims, valid: bool)

  /** sign(key, claims) is SignedString on an HS256 token holding the claims.
      parse(key, token, now) is ParseWithClaims with a key function returning
      key, run at Unix time now: a failure to decode the token, to verify its
      signature or to pass the library's own claims checks is an error. */
  datatype Jwt = Jwt(sign: (string, Claims) -> Result<string>, parse: (string, string, int) -> Result<ParsedToken>)

  /** A token signed with a key, parsed under that key, either fails or
      yields the claims it was signed over, marked valid; before its expiry
      it does not fail. */
  ghost predicate JwtRoundTrip(j: Jwt) {
    forall key, c, now :: j.sign(key, c).Ok? ==>
      && (j.parse(key, j.sign(key, c).value, now).Ok? ==>
            j.parse(key, j.sign(key, c).value, now) == Ok(ParsedToken(c, true)))
      && (now < c.expiresAt ==> j.parse(key, j.sign(key, c).value, now).Ok?)
  }

  /** ParseWithClaims sets token.Valid exactly when it returns no error. */
  ghost predicate JwtParseOkIsValid(j: Jwt) {
    forall key, token, now :: j.parse(key, token, now).Ok? ==> j.parse(key, token, now).value.valid
  }

  /** The library checks the expiry itself: a token that parses as valid
      and carries an expiry (a non-zero exp claim) has not passed it. Whether
      a token is accepted at the very second of its expiry differs between
      releases of the library, so that case is left open. */
  ghost predicate JwtChecksExpiry(j: Jwt) {
    forall key, token, now :: j.parse(key, token, now).Ok? && j.parse(key, token, now).value.valid ==>
      var exp := j.parse(key, token, now).value.claims.expiresAt;
      exp == 0 || now <= exp
  }
}
