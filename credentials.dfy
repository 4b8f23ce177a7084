/** Values exchanged between the credential cache, the token exchanger that
    feeds it and the database driver that consumes it. */
module AwsCredentials {

  /** An absolute instant, in nanoseconds since the epoch (the resolution of
      java.time.Instant, whose ordering is the ordering of these integers). */
  type Instant = int

  /** A duration of `n` whole seconds, in nanoseconds. */
  function Seconds(n: int): int
  {
    n * 1_000_000_000
  }

  /** How long before its expiration a cached credential is already refreshed:
      the cache asks whether the expiration is before now plus 60 seconds. */
  const RefreshMargin: int := Seconds(60)

  /** The outcome of a call that may throw: the thrown cause is kept as text. */
  datatype Result<T> = Ok(value: T) | Err(cause: string)

  /** Temporary credentials as the trust service returns them. */
  datatype Credentials = Credentials(
    accessKeyId: string,
    secretAccessKey: string,
    sessionToken: string,
    expiration: Instant)

  /** The shape the database driver's authentication layer asks for: the three
      secrets, without the expiration. */
  datatype AwsCredential = AwsCredential(
    accessKeyId: string,
    secretAccessKey: string,
    sessionToken: string)

  /** What one call of get() gives the driver: the credential, or the failure
      of the exchange it triggered. */
  datatype Reply = Served(credential: AwsCredential) | Failed(cause: string)

  /** The view of a cached credential that is handed to the driver. */
  function ToAwsCredential(c: Credentials): AwsCredential
  {
    AwsCredential(c.accessKeyId, c.secretAccessKey, c.sessionToken)
  }

  /** A cached credential must be refreshed at `now` when it expires strictly
      before `now` plus the margin. */
  predicate IsStale(c: Credentials, now: Instant)
  {
    c.expiration < now + RefreshMargin
  }

  /** Two credentials give the driver the same view exactly when they agree on
      the three secrets; the expiration never reaches the driver. */
  lemma ProjectionKeepsSecretsOnly(a: Credentials, b: Credentials)
    ensures ToAwsCredential(a) == ToAwsCredential(b) <==>
              a.accessKeyId == b.accessKeyId &&
              a.secretAccessKey == b.secretAccessKey &&
              a.sessionToken == b.sessionToken
    ensures ToAwsCredential(a) == ToAwsCredential(a.(expiration := b.expiration))
  {
  }

  /** The boundary of the strict comparison: a credential expiring exactly at
      now plus the margin is still fresh, one nanosecond earlier it is stale. */
  lemma StaleBoundary(c: Credentials, now: Instant)
    requires c.expiration == now + RefreshMargin
    ensures !IsStale(c, now)
    ensures IsStale(c.(expiration := c.expiration - 1), now)
  {
  }

  /** Staleness only grows as time passes. */
  lemma StaleStaysStale(c: Credentials, earlier: Instant, later: Instant)
    requires earlier <= later
    ensures IsStale(c, earlier) ==> IsStale(c, later)
    ensures !IsStale(c, later) ==> !IsStale(c, earlier)
  {
  }
}
