# Refreshing AWS credential cache for a MongoDB client

This project models the credential cache `MongoAwsCredentialSupplier` of the
MongoDB example application, `java/mongodb/app/src/main/java/mongodb/App.java`.
The MongoDB driver asks the cache for AWS credentials each time it opens an
authenticated connection. The cache holds one set of temporary credentials.
These are obtained from a wrapped supplier that exchanges a web-identity token
with AWS STS.

- When the cache is created, it asks the wrapped supplier once and keeps the
  answer.
- On each `get()`, it compares the cached expiration with "now plus 60
  seconds". If the expiration is strictly before that instant, it asks the
  wrapped supplier again and replaces the cached value whole with the answer.
- It then returns the access key, the secret key and the session token. The
  expiration is not returned.

Files:

- `credentials.dfy` (module `AwsCredentials`): instants in nanoseconds, the
  60-second margin, the STS `Credentials` value, the driver's `AwsCredential`
  view, the `Reply` of one `get()`, and the staleness test.
- `refresh_policy.dfy` (module `RefreshPolicy`): the refresh rule as pure
  functions. `Step` is one `get()`. `Serve` is a run of `get()` calls at given
  instants. The wrapped supplier is an oracle: its k-th call answers
  `responses(k)`, which may be credentials or a failure. The lemmas about runs
  are stated here.
- `supplier.dfy` (module `Suppliers`): the two suppliers as classes. The cache
  class has its one mutable field `credentials`. Its `Get` is proved equal to
  one `Step`. The wrapped supplier is a scripted oracle that counts its calls.

The clock read inside `get()` becomes the parameter `now`. An exception thrown
by the wrapped supplier becomes `Err(cause)` for its answer and `Failed(cause)`
for the reply of `get()`. The field assignment of the refresh is then skipped,
as it is in Java.

The cache is filled when it is created, as the code does (App.java:88). It is
not empty until the first `get()`.

## Model

| member | source | states |
|---|---|---|
| `AwsCredentials.StaleBoundary` | java/mongodb/app/src/main/java/mongodb/App.java:97 | A credential that expires exactly at now + 60 s is still fresh, because `isBefore` is strict. One nanosecond earlier it is stale. |
| `AwsCredentials.StaleStaysStale` | java/mongodb/app/src/main/java/mongodb/App.java:97 | A credential that is stale at one instant is stale at every later instant. A credential that is fresh at one instant is fresh at every earlier instant. |
| `AwsCredentials.ProjectionKeepsSecretsOnly` | java/mongodb/app/src/main/java/mongodb/App.java:102-105 | Two credentials give the driver the same `AwsCredential` exactly when they agree on access key, secret key and session token. The expiration never changes what the driver sees. |
| `RefreshPolicy.Step` | java/mongodb/app/src/main/java/mongodb/App.java:92-106 | One `get()`. The supplier is asked exactly when the expiration is strictly before now + 60 s. The cache is either kept or replaced whole by exactly the supplier's answer. A reply fails exactly when a refresh was attempted and the supplier failed, and then the cache is unchanged. A successful reply is the projection of the cache after the check. A reply served without a refresh comes from a credential valid for at least 60 s more. |
| `RefreshPolicy.ConditionalFreshness` | java/mongodb/app/src/main/java/mongodb/App.java:97-100 | Suppose the supplier's answer, if it is asked, is valid until at least now + 60 s. Then every successful `get()` leaves a cache valid until at least now + 60 s. |
| `RefreshPolicy.Serve` | java/mongodb/app/src/main/java/mongodb/App.java:92-106 | A run of n `get()` calls gives n replies and asks the supplier at most n times in all. That each single call asks at most once follows when this bound is combined with `ServeAppend`. |
| `RefreshPolicy.ReuseWhileFresh` | java/mongodb/app/src/main/java/mongodb/App.java:97 | If every call comes at an instant where the cached expiration is not before now + 60 s, then nobody asks the supplier. The cache stays as it was, and every reply is the cached credential. |
| `RefreshPolicy.CacheComesFromExchanger` | java/mongodb/app/src/main/java/mongodb/App.java:85-100 | After any run, the cache is either the credential held at the start or exactly one answer given by the supplier during the run. It is never built from parts of several answers. |
| `RefreshPolicy.RefreshThenReuse` | java/mongodb/app/src/main/java/mongodb/App.java:97-105 | A stale cache is refreshed with one supplier call. Later calls that fall within the new credential's validity reuse that answer. |
| `RefreshPolicy.SameInstantTwice` | java/mongodb/app/src/main/java/mongodb/App.java:97-105 | Take two calls at the same instant, where the first call ends with a fresh cache. Together they ask the supplier at most once, and both callers receive the same credential. |
| `RefreshPolicy.FailedExchangeIsRetried` | java/mongodb/app/src/main/java/mongodb/App.java:97-99 | A failed refresh reaches its caller and leaves the stale cache in place. The next call at the same instant asks the supplier again and replies with that second answer. |
| `RefreshPolicy.AtMostOneRefreshUntil` | java/mongodb/app/src/main/java/mongodb/App.java:93-105 | Suppose every call comes no later than an instant `until`, and the supplier never fails and always answers with credentials valid until `until` + 60 s. Then a whole run asks the supplier at most once, and every caller gets credentials. |
| `RefreshPolicy.ServeAppend` | java/mongodb/app/src/main/java/mongodb/App.java:92-106 | Serving two runs one after the other is the same as serving their concatenation. The second run starts from the cache and call count the first run left. |
| `RefreshPolicy.NineHundredSecondLifetime` | java/mongodb/app/src/main/java/mongodb/App.java:92-106 | Starting from the state construction leaves (one supplier call made, a credential issued for 900 s cached), a call at the issue instant and a call 10 s later reuse it. A call at 850 s is within the 60 s margin and triggers exactly one more supplier call, whose answer is then returned and cached. |
| `RefreshPolicy.StaleAnswerIsServedAndRefetched` | java/mongodb/app/src/main/java/mongodb/App.java:97-105 | A refresh does not check the supplier's answer again. An answer that already expires before now + 60 s is served to the caller as it is, and a second call at the same instant asks the supplier again. This is why the freshness and same-instant results assume a fresh answer. |
| `Suppliers.CredentialsSupplier.Get` | java/mongodb/app/src/main/java/mongodb/App.java:123-147 | The wrapped supplier seen as an oracle. Each call returns the next scripted answer, credentials or failure, and is counted. |
| `Suppliers.MongoAwsCredentialSupplier.Create` | java/mongodb/app/src/main/java/mongodb/App.java:85-89 | Construction asks the supplier exactly once. If it answers credentials, a new cache holds exactly that answer. If it fails, the failure propagates and no cache exists. |
| `Suppliers.MongoAwsCredentialSupplier.Get` | java/mongodb/app/src/main/java/mongodb/App.java:92-106 | `get()` at `now` is one `Step`. If the expiration is not before now + 60 s, the call makes no supplier call and leaves the field unchanged. Otherwise it makes exactly one supplier call. A successful answer replaces the field and is returned as its projection. A failure leaves the field unchanged and is returned as the failure. |
| `Suppliers.NineHundredSecondClient` | java/mongodb/app/src/main/java/mongodb/App.java:85-106 | Through the class itself: `Create` with a supplier whose first answer is a 900 s credential, then `Get` at the issue instant, 10 s later and 850 s later. The replies are the first credential twice and then the second answer, and the supplier was called exactly twice in all, once at construction and once at 850 s. |

## Left out

- Concurrency: the `synchronized` block (App.java:93) and the single-flight behaviour across threads. Calls are modelled as sequential and atomic. In the code, the projection at App.java:102-105 reads the field `credentials` three times after the lock is released. A concurrent refresh between those reads can make one reply combine the access key of one credential with the secret key and session token of the next. So `Step`'s "a successful reply is the projection of the cache" and `CacheComesFromExchanger`'s "never built from parts of several answers" hold for sequential calls only.
- The clock: `Instant.now()` (App.java:97) is the parameter `now` of `Get`. Nothing relates the instants of successive calls unless a lemma's precondition says so.
- The overflow of `Instant.plusSeconds` near `Instant.MAX`, which throws `DateTimeException`: instants are unbounded integers.
- Null credentials or a null expiration returned by the wrapped supplier, which would throw `NullPointerException` at App.java:97 or App.java:103: every answer is either a full `Credentials` value or a failure.
- The internals of `CredentialsSupplier.get()` (App.java:123-147): reading the token file, the swallowed `IOException` that sends an empty token (App.java:126-130), building the STS client, the fixed 900-second duration (App.java:138) and the `assumeRoleWithWebIdentity` network call. Only the interface is modelled: each call answers credentials or fails. The 900 seconds appear only as scenario data, in `NineHundredSecondLifetime` and `NineHundredSecondClient`.
- `main` (App.java:34-78): environment variables, driver and connection-pool settings, and the query loop. This is wiring and I/O.
- Logging through slf4j, and `SubscriberHelpers`, which is not part of this model.
