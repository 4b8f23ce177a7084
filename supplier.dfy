/** The two suppliers as objects: the credential cache handed to the database
    driver, and the token exchanger it wraps. */
module Suppliers {
  import opened AwsCredentials
  import opened RefreshPolicy

  /** The token exchanger, seen only through its interface: each call may
      answer anything, credentials or a failure. It is modelled as a script,
      `responses(k)` being the answer of its k-th call, and it counts its calls. */
  class CredentialsSupplier {
    const responses: nat -> Result<Credentials>
    var calls: nat

    constructor (responses: nat -> Result<Credentials>)
      ensures this.responses == responses && calls == 0
    {
      this.responses := responses;
      calls := 0;
    }

    /** One exchange with the trust service. */
    method Get() returns (r: Result<Credentials>)
      modifies this
      ensures calls == old(calls) + 1
      ensures r == responses(old(calls))
    {
      r := responses(calls);
      calls := calls + 1;
    }
  }

  /** The credential cache: one cached credential, refreshed lazily by get()
      when it is about to expire. */
  class MongoAwsCredentialSupplier {
    const wrappedSupplier: CredentialsSupplier
    var credentials: Credentials

    /** Only for `Create`, which models the Java constructor: this one fills
        the cache with a credential already obtained, without asking. */
    constructor (wrappedSupplier: CredentialsSupplier, initial: Credentials)
      ensures this.wrappedSupplier == wrappedSupplier && credentials == initial
    {
      this.wrappedSupplier := wrappedSupplier;
      credentials := initial;
    }

    /** Construction: ask the exchanger once and cache its answer. When that
        call fails, the failure propagates and no cache exists. */
    static method Create(wrappedSupplier: CredentialsSupplier)
        returns (r: Result<MongoAwsCredentialSupplier>)
      modifies wrappedSupplier
      ensures wrappedSupplier.calls == old(wrappedSupplier.calls) + 1
      ensures var first := wrappedSupplier.responses(old(wrappedSupplier.calls));
        (r.Ok? <==> first.Ok?) &&
        (r.Ok? ==> fresh(r.value) && r.value.wrappedSupplier == wrappedSupplier &&
                   r.value.credentials == first.value) &&
        (r.Err? ==> r.cause == first.cause)
    {
      var first := wrappedSupplier.Get();
      match first
      case Ok(c) =>
        var s := new MongoAwsCredentialSupplier(wrappedSupplier, c);
        r := Ok(s);
      case Err(cause) =>
        r := Err(cause);
    }

    /** One call of get() by the driver at instant `now`. */
    method Get(now: Instant) returns (r: Reply)
      modifies this, wrappedSupplier
      // the call is one Step of the refresh rule
      ensures var o := Step(old(credentials), now,
                            wrappedSupplier.responses(old(wrappedSupplier.calls)));
        credentials == o.cache && r == o.reply &&
        wrappedSupplier.calls == old(wrappedSupplier.calls) + (if o.exchanged then 1 else 0)
      // reuse: not before now + 60 s, so no exchange and nothing changes
      ensures old(credentials).expiration >= now + RefreshMargin ==>
        wrappedSupplier.calls == old(wrappedSupplier.calls) &&
        credentials == old(credentials) && r == Served(ToAwsCredential(credentials))
      // refresh: strictly before now + 60 s, so exactly one exchange, whose
      // answer replaces the cache whole, or whose failure leaves it as it was
      ensures old(credentials).expiration < now + RefreshMargin ==>
        var answer := wrappedSupplier.responses(old(wrappedSupplier.calls));
        wrappedSupplier.calls == old(wrappedSupplier.calls) + 1 &&
        (answer.Ok? ==> credentials == answer.value && r == Served(ToAwsCredential(answer.value))) &&
        (answer.Err? ==> credentials == old(credentials) && r == Failed(answer.cause))
    {
      if IsStale(credentials, now) {
        var answer := wrappedSupplier.Get();
        match answer
        case Ok(c) =>
          credentials := c;
        case Err(cause) =>
          r := Failed(cause);
          return;
      }
      r := Served(ToAwsCredential(credentials));
    }
  }

  /** A driver using the cache over one 900-second credential: construction
      asks the exchanger once; calls at the issue instant and ten seconds later
      reuse the answer; a call 850 seconds after issue is inside the margin and
      asks exactly once more. */
  method NineHundredSecondClient(issued: Instant, first: Credentials, second: Credentials)
      returns (replies: seq<Reply>, calls: nat)
    requires first.expiration == issued + Seconds(900)
    ensures calls == 2
    ensures replies == [Served(ToAwsCredential(first)), Served(ToAwsCredential(first)),
                        Served(ToAwsCredential(second))]
  {
    var exchanger := new CredentialsSupplier((k: nat) => if k == 0 then Ok(first) else Ok(second));
    var created := MongoAwsCredentialSupplier.Create(exchanger);
    var cache := created.value;
    var r0 := cache.Get(issued);
    var r1 := cache.Get(issued + Seconds(10));
    var r2 := cache.Get(issued + Seconds(850));
    replies, calls := [r0, r1, r2], exchanger.calls;
  }
}
