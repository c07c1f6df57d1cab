/**
 * The session token: issued at login and registration with a 24-hour expiry, checked on every
 * request by the middleware. Signing and the signature check are not modelled: a token whose
 * signature or format is bad is simply absent (`None`).
 */
module Sessions {
  import opened Wrappers
  import opened Records

  /** Seconds in a day: the token's lifetime and the cookie's max-age. */
  const Lifetime: int := 60 * 60 * 24

  /** The claims inside a token; `exp` is in seconds since the epoch. */
  datatype Claims = Claims(exp: int, userid: int, username: string)

  /** The claims signed at login and registration: the current time rounded down to whole seconds, plus a day. */
  function Issue(s: Session, nowMillis: int): Claims {
    Claims(nowMillis / 1000 + Lifetime, s.userid, s.username)
  }

  /**
   * The middleware: the token's identity when it verifies and has not expired
   * (the token is refused once the current whole second reaches `exp`), anonymous otherwise.
   */
  function Verify(token: Option<Claims>, nowMillis: int): Identity {
    match token
    case None => None
    case Some(c) => if nowMillis / 1000 < c.exp then Some(Session(c.userid, c.username)) else None
  }

  /**
   * A token issued at `issuedAt` gives back its own identity for just under a day
   * (up to 999 ms less, because the issue time is rounded down to a whole second),
   * and gives the anonymous identity from one day after issue on.
   */
  lemma IssuedTokenLifetime(s: Session, issuedAt: int, now: int)
    ensures now < issuedAt + 1000 * Lifetime - 999 ==> Verify(Some(Issue(s, issuedAt)), now) == Some(s)
    ensures now >= issuedAt + 1000 * Lifetime ==> Verify(Some(Issue(s, issuedAt)), now) == None
  {
    var q := issuedAt / 1000;
    assert issuedAt - 999 <= 1000 * q <= issuedAt;
    if now < issuedAt + 1000 * Lifetime - 999 {
      assert now < 1000 * (q + Lifetime);
      assert now / 1000 < q + Lifetime;
    }
    if now >= issuedAt + 1000 * Lifetime {
      assert now >= 1000 * (q + Lifetime);
      assert now / 1000 >= q + Lifetime;
    }
  }
}
