/** Issuing and validating tokens. Instants and durations are nanoseconds; claims hold whole seconds. */
module Tokens {
  import opened Options
  import opened Decimal
  import opened Identity

  const SECOND := 1_000_000_000

  datatype Manager = Manager(issuer: string, audience: string, maxTTL: int, skew: int)

  datatype Claims = Claims(
    subject: string, userID: int, userIDString: string, rest: string, issuer: string, audience: string,
    issuedAt: int, notBefore: int, expiresAt: int, jwtID: string)

  predicate WellFormed(m: Manager) {
    SECOND <= m.maxTTL <= 30 * 24 * 3600 * SECOND && 0 <= m.skew <= 300 * SECOND
  }

  /** IssueUser; signing is left out, and jti is the random identifier. */
  function Issue(m: Manager, forbidden: char -> bool, user: UserClaims, ttl: int, now: int,
      jti: string): Option<Claims> {
    match CanonicalUser(forbidden, user)
    case None => None
    case Some(c) =>
      if ttl < SECOND || ttl > m.maxTTL then None
      else Some(Claims(c.id, c.number, if c.numeric then "" else c.id, user.rest, m.issuer, m.audience,
                       now / SECOND, now / SECOND, (now + ttl) / SECOND, jti))
  }

  /** validateClaims at an instant. */
  predicate ValidClaims(m: Manager, forbidden: char -> bool, c: Claims, now: int) {
    match CanonicalID(forbidden, c.subject)
    case None => false
    case Some(i) =>
      && i.id == c.subject && c.userID >= 0
      && (if i.numeric then c.userID == i.number && c.userIDString == ""
          else c.userID == 0 && c.userIDString == i.id)
      && c.jwtID != "" && c.issuer == m.issuer && c.audience == m.audience
      && c.expiresAt > 0 && c.notBefore > 0 && c.issuedAt > 0
      && c.issuedAt * SECOND <= now + m.skew && c.notBefore >= c.issuedAt
      && now < c.expiresAt * SECOND + m.skew && now + m.skew >= c.notBefore * SECOND
      && 0 < c.expiresAt - c.issuedAt <= m.maxTTL / SECOND
  }

  /** The lifetime in whole seconds stays within the longest one allowed. */
  predicate LifetimeFits(m: Manager, ttl: int, now: int) {
    (now + ttl) / SECOND - now / SECOND <= m.maxTTL / SECOND
  }

  /** An issued token is valid in its window of time, exactly when its floored lifetime fits. */
  lemma IssuedIsValid(m: Manager, forbidden: char -> bool, user: UserClaims, ttl: int, now: int, jti: string, at: int)
    requires WellFormed(m) && (forall c :: IsDigit(c) ==> !forbidden(c)) && jti != "" && now >= SECOND
    requires Issue(m, forbidden, user, ttl, now, jti).Some?
    ensures var c := Issue(m, forbidden, user, ttl, now, jti).value;
            ValidClaims(m, forbidden, c, at) <==>
              now / SECOND * SECOND - m.skew <= at < c.expiresAt * SECOND + m.skew && LifetimeFits(m, ttl, now)
  {
    CanonicalIsFixed(forbidden, user.id);
    assert (now + ttl) / SECOND > now / SECOND;
  }

  /** Tokens are issued for canonical identities and lifetimes from a second to the longest; this is what they carry. */
  lemma IssuedExactly(m: Manager, forbidden: char -> bool, user: UserClaims, ttl: int, now: int, jti: string)
    ensures Issue(m, forbidden, user, ttl, now, jti).Some? <==>
              CanonicalUser(forbidden, user).Some? && 1_000_000_000 <= ttl <= m.maxTTL
    ensures Issue(m, forbidden, user, ttl, now, jti).Some? ==>
      var c, i := Issue(m, forbidden, user, ttl, now, jti).value, CanonicalUser(forbidden, user).value;
      && c.subject == i.id && c.userID == i.number && c.userIDString == (if i.numeric then "" else i.id)
      && c.rest == user.rest && c.jwtID == jti && c.issuer == m.issuer && c.audience == m.audience
      && c.issuedAt * SECOND <= now < (c.issuedAt + 1) * SECOND && c.notBefore == c.issuedAt
      && c.expiresAt * SECOND <= now + ttl < (c.expiresAt + 1) * SECOND
  {
  }

  /** Another manager accepts the token exactly if it has the same issuer and audience, and its own times allow it. */
  lemma AcceptedElsewhere(
    issuer: Manager, m: Manager, forbidden: char -> bool, user: UserClaims, ttl: int, now: int, jti: string, at: int)
    requires (forall c :: IsDigit(c) ==> !forbidden(c)) && jti != "" && now >= SECOND
    requires Issue(issuer, forbidden, user, ttl, now, jti).Some?
    ensures var c := Issue(issuer, forbidden, user, ttl, now, jti).value;
            ValidClaims(m, forbidden, c, at) <==>
              && m.issuer == issuer.issuer && m.audience == issuer.audience
              && now / SECOND * SECOND - m.skew <= at < c.expiresAt * SECOND + m.skew
              && c.expiresAt - c.issuedAt <= m.maxTTL / SECOND
  {
    CanonicalIsFixed(forbidden, user.id);
    assert (now + ttl) / SECOND > now / SECOND;
  }

  /** Accepted claims name one identity in all their fields, and are the manager's own. */
  lemma AcceptedIdentity(m: Manager, forbidden: char -> bool, c: Claims, at: int)
    requires ValidClaims(m, forbidden, c, at)
    ensures c.jwtID != "" && c.issuer == m.issuer && c.audience == m.audience
    ensures if CanonicalID(forbidden, c.subject).value.numeric
            then c.userID > 0 && c.subject == FormatInt(c.userID) && c.userIDString == ""
            else c.userID == 0 && c.userIDString == c.subject
  {
  }

  /** Claims that are ever accepted are accepted from their first second to their last, with skew on both sides. */
  lemma AcceptedBetween(m: Manager, forbidden: char -> bool, c: Claims, once: int, at: int)
    requires ValidClaims(m, forbidden, c, once)
    ensures ValidClaims(m, forbidden, c, at) <==> c.notBefore * SECOND - m.skew <= at < c.expiresAt * SECOND + m.skew
    ensures 0 < c.issuedAt <= c.notBefore && c.issuedAt < c.expiresAt <= c.issuedAt + m.maxTTL / SECOND
  {
  }

  lemma Flooring(m: Manager, ttl: int, now: int)
    requires SECOND <= ttl <= m.maxTTL
    ensures LifetimeFits(m, ttl, now) <==> WithinSeconds(m, ttl, now)
    ensures m.maxTTL % SECOND == 0 ==> LifetimeFits(m, ttl, now)
    ensures now + ttl - SECOND < (now + ttl) / SECOND * SECOND <= now + ttl
    ensures (now + ttl) / SECOND > now / SECOND
  {
  }

  /**
   * The guard a caller could check before issuing: the lifetime is a whole second
   * below the longest, or its fraction does not carry over into another second.
   */
  predicate WithinSeconds(m: Manager, ttl: int, now: int) {
    ttl / SECOND < m.maxTTL / SECOND || now % SECOND + ttl % SECOND < SECOND
  }

  /** An issued token is valid at some instant, and then when it is issued, exactly under that guard. */
  lemma EverValidExactly(
    m: Manager, forbidden: char -> bool, user: UserClaims, ttl: int, now: int, jti: string)
    requires WellFormed(m) && (forall c :: IsDigit(c) ==> !forbidden(c)) && jti != "" && now >= SECOND
    requires Issue(m, forbidden, user, ttl, now, jti).Some?
    ensures var c := Issue(m, forbidden, user, ttl, now, jti).value;
            && ((exists at :: ValidClaims(m, forbidden, c, at)) <==> WithinSeconds(m, ttl, now))
            && (ValidClaims(m, forbidden, c, now) <==> WithinSeconds(m, ttl, now))
  {
    var c := Issue(m, forbidden, user, ttl, now, jti).value;
    Flooring(m, ttl, now);
    IssuedIsValid(m, forbidden, user, ttl, now, jti, now);
    forall at ensures ValidClaims(m, forbidden, c, at) ==> WithinSeconds(m, ttl, now) {
      IssuedIsValid(m, forbidden, user, ttl, now, jti, at);
    }
  }

  /**
   * With a longest lifetime of whole seconds, a token is valid from the moment it
   * is issued until its expiry plus the skew, and never after; the expiry is less
   * than a second before the asked one.
   */
  lemma ValidUntilExpiry(
    m: Manager, forbidden: char -> bool, user: UserClaims, ttl: int, now: int, jti: string, at: int)
    requires WellFormed(m) && (forall c :: IsDigit(c) ==> !forbidden(c)) && jti != "" && SECOND <= now <= at
    requires Issue(m, forbidden, user, ttl, now, jti).Some? && m.maxTTL % SECOND == 0
    ensures var c := Issue(m, forbidden, user, ttl, now, jti).value;
            && (ValidClaims(m, forbidden, c, at) <==> at < c.expiresAt * SECOND + m.skew)
            && now + ttl - SECOND < c.expiresAt * SECOND <= now + ttl
  {
    IssuedIsValid(m, forbidden, user, ttl, now, jti, at);
    Flooring(m, ttl, now);
  }

  /** Every lifetime fits, at every instant, exactly when the longest lifetime is whole seconds. */
  lemma FitsExactly(m: Manager)
    requires WellFormed(m)
    ensures (forall ttl: int, now: int :: SECOND <= ttl <= m.maxTTL && now >= SECOND ==> LifetimeFits(m, ttl, now))
        <==> m.maxTTL % SECOND == 0
  {
    if m.maxTTL % SECOND == 0 {
      forall ttl: int, now: int | SECOND <= ttl <= m.maxTTL && now >= SECOND ensures LifetimeFits(m, ttl, now) {
        Flooring(m, ttl, now);
      }
    } else {
      Flooring(m, m.maxTTL, LastInstant(1));
    }
  }

  /** The last nanosecond of second k. */
  function LastInstant(k: int): int {
    k * SECOND + SECOND - 1
  }

  /** Otherwise the longest token, issued in the last nanosecond of any second, is valid at no instant. */
  lemma LateInTheSecond(
    m: Manager, forbidden: char -> bool, user: UserClaims, k: int, jti: string, at: int)
    requires WellFormed(m) && m.maxTTL % SECOND != 0 && k >= 1
    requires (forall c :: IsDigit(c) ==> !forbidden(c)) && jti != ""
    requires Issue(m, forbidden, user, m.maxTTL, LastInstant(k), jti).Some?
    ensures !ValidClaims(m, forbidden, Issue(m, forbidden, user, m.maxTTL, LastInstant(k), jti).value, at)
  {
    assert LastInstant(k) % SECOND == SECOND - 1;
    Flooring(m, m.maxTTL, LastInstant(k));
    IssuedIsValid(m, forbidden, user, m.maxTTL, LastInstant(k), jti, at);
  }
}
