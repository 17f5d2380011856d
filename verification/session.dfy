/**
 * Session tokens as the JWT wrapper issues and checks them. Signing is
 * abstracted: a token records the secret it was signed with, and only that
 * secret verifies it.
 */
module Session {
  import opened Accounts

  /** The `expiresIn: '7d'` lifetime, in clock seconds. */
  const SevenDays: int := 7 * 24 * 60 * 60

  datatype Claims = Claims(userId: Id, iat: Time, exp: Time)

  datatype SignedToken = SignedToken(claims: Claims, signedWith: string)

  /** `generateToken(userId)` at time `now` under the server's secret. */
  function Issue(userId: Id, now: Time, secret: string): (t: SignedToken)
    ensures t.claims.userId == userId && t.signedWith == secret
    ensures t.claims.iat == now && t.claims.exp - t.claims.iat == 7 * 24 * 3600
  {
    SignedToken(Claims(userId, now, now + SevenDays), secret)
  }

  /**
   * `verifyToken`: the decoded token must exist (the text parsed), carry the
   * server's signature, and not have expired (`now < exp`, RFC 7519 section
   * 4.1.4). Every failure is the same `None`.
   */
  function Verify(token: Option<SignedToken>, secret: string, now: Time): (r: Option<Id>)
    ensures r.Some? <==> token.Some? && token.value.signedWith == secret && now < token.value.claims.exp
    ensures r.Some? ==> r.value == token.value.claims.userId
  {
    if token.Some? && token.value.signedWith == secret && now < token.value.claims.exp
    then Some(token.value.claims.userId)
    else None
  }

  /** A freshly issued token verifies under the same secret for exactly seven days. */
  lemma IssuedTokenLifetime(userId: Id, iat: Time, secret: string, now: Time)
    ensures Verify(Some(Issue(userId, iat, secret)), secret, now) ==
              if now < iat + SevenDays then Some(userId) else None
  {
  }

  /** Rotating the secret invalidates every outstanding token. */
  lemma RotatedSecretRejects(userId: Id, iat: Time, oldSecret: string, newSecret: string, now: Time)
    requires oldSecret != newSecret
    ensures Verify(Some(Issue(userId, iat, oldSecret)), newSecret, now) == None
  {
  }
}
