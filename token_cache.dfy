/** The single-slot token cache behind `getAuthToken`: a token is reused
    while its expiry time is not before the current time, and otherwise
    replaced by a fresh one that lives for a minute. */
module TokenCache {
  import opened Wrappers

  /** The cached `{ value, expiresAt }` record; times are milliseconds. */
  datatype AuthToken = AuthToken(value: string, expiresAt: int)

  const TokenLifetimeMs: int := 60000

  /** The cache-hit test: a token is there and `expiresAt >= now`. */
  predicate IsLive(slot: Option<AuthToken>, now: int) {
    match slot
    case None => false
    case Some(t) => t.expiresAt >= now
  }

  /** The token `getAuthToken` hands out at time `now`, given the slot's
      content; `randomPart` stands for the random suffix of a new token. */
  function FetchToken(slot: Option<AuthToken>, now: int, randomPart: string): (t: AuthToken)
    ensures IsLive(slot, now) ==> Some(t) == slot
    ensures !IsLive(slot, now) ==> t.value == "tok_" + randomPart && t.expiresAt == now + TokenLifetimeMs
    ensures IsLive(Some(t), now)
  {
    match slot
    case Some(cached) =>
      if cached.expiresAt >= now then cached else AuthToken("tok_" + randomPart, now + TokenLifetimeMs)
    case None => AuthToken("tok_" + randomPart, now + TokenLifetimeMs)
  }

  /** Asking again before the handed-out token expires, at its expiry
      instant included, gives the same token, whatever suffix a new token
      would have had. */
  lemma ReuseUntilExpiry(slot: Option<AuthToken>, now: int, randomPart: string, later: int, otherPart: string)
    requires now <= later <= FetchToken(slot, now, randomPart).expiresAt
    ensures FetchToken(Some(FetchToken(slot, now, randomPart)), later, otherPart)
         == FetchToken(slot, now, randomPart)
  {
  }

  /** A fresh token is still served exactly `TokenLifetimeMs` later and is
      replaced one millisecond after that. */
  lemma FreshTokenLifetime(now: int, randomPart: string, otherPart: string)
    ensures var t := FetchToken(None, now, randomPart);
      && FetchToken(Some(t), now + TokenLifetimeMs, otherPart) == t
      && FetchToken(Some(t), now + TokenLifetimeMs + 1, otherPart)
         == AuthToken("tok_" + otherPart, now + TokenLifetimeMs + 1 + TokenLifetimeMs)
  {
  }

  /** Once the cached token has expired, the token handed out is a new one
      with the new suffix, and it expires a full lifetime after the
      request. */
  lemma ExpiredIsReplaced(t: AuthToken, now: int, randomPart: string)
    requires t.expiresAt < now
    ensures FetchToken(Some(t), now, randomPart).expiresAt == now + TokenLifetimeMs
    ensures FetchToken(Some(t), now, randomPart).value == "tok_" + randomPart
  {
  }
}
