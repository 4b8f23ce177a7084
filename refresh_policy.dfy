/** The refresh rule of the credential cache as pure functions: one call of
    get() is a Step from the cached credential to the new cached credential and
    the reply; a run of calls is Serve. The exchanger is an oracle whose k-th
    call (counting from 0 over the life of the cache) answers responses(k). */
module RefreshPolicy {
  import opened AwsCredentials

  /** What one call of get() leaves behind: the cached credential after the
      call, the reply to the caller, and whether the exchanger was called. */
  datatype StepOutcome = StepOutcome(
    cache: Credentials,
    reply: Reply,
    exchanged: bool)

  /** One call of get() at instant `now` on cached credential `cached`, where
      `response` is what the exchanger answers if it is asked. */
  function Step(cached: Credentials, now: Instant, response: Result<Credentials>): (o: StepOutcome)
    // the exchanger is asked exactly when the cached value expires strictly before now + 60 s
    ensures o.exchanged <==> cached.expiration < now + RefreshMargin
    // the cache is kept, or replaced whole by exactly what the exchanger answered
    ensures o.cache == cached || (o.exchanged && response == Ok(o.cache))
    ensures o.exchanged && response.Ok? ==> o.cache == response.value
    // a failed exchange reaches the caller and leaves the cache as it was
    ensures o.reply.Failed? <==> o.exchanged && response.Err?
    ensures o.reply.Failed? ==> o.reply.cause == response.cause
    // a successful reply is the driver's view of the cache after the check
    ensures o.reply.Served? ==> o.reply.credential == ToAwsCredential(o.cache)
    // a reply served without an exchange is valid for at least the margin
    ensures o.reply.Served? && !o.exchanged ==> o.cache.expiration >= now + RefreshMargin
  {
    if IsStale(cached, now) then
      match response
      case Ok(answer) => StepOutcome(answer, Served(ToAwsCredential(answer)), true)
      case Err(cause) => StepOutcome(cached, Failed(cause), true)
    else
      StepOutcome(cached, Served(ToAwsCredential(cached)), false)
  }

  /** Freshness: when the exchanger's answer, if any, is itself valid for the
      margin, every successful get() leaves a cache valid for the margin. */
  lemma ConditionalFreshness(cached: Credentials, now: Instant, response: Result<Credentials>)
    requires response.Ok? ==> response.value.expiration >= now + RefreshMargin
    ensures var o := Step(cached, now, response);
      o.reply.Served? ==> o.cache.expiration >= now + RefreshMargin
  {
  }

  /** After a whole run of calls: the final cache, the number of exchanger calls
      made so far, and the replies in call order. */
  datatype Trace = Trace(
    cache: Credentials,
    calls: nat,
    replies: seq<Reply>)

  /** Successive calls of get() at the instants `nows`, starting from cached
      credential `cache` after `k` exchanger calls. */
  function Serve(cache: Credentials, k: nat, nows: seq<Instant>,
                 responses: nat -> Result<Credentials>): (t: Trace)
    ensures |t.replies| == |nows|
    // at most |nows| exchanger calls in all
    ensures k <= t.calls <= k + |nows|
    decreases |nows|
  {
    if nows == [] then
      Trace(cache, k, [])
    else
      var o := Step(cache, nows[0], responses(k));
      var rest := Serve(o.cache, if o.exchanged then k + 1 else k, nows[1..], responses);
      Trace(rest.cache, rest.calls, [o.reply] + rest.replies)
  }

  /** The replies of a run in which nobody asks the exchanger: all are the
      driver's view of the one cached credential. */
  function Reused(c: Credentials, n: nat): seq<Reply>
  {
    seq(n, _ => Served(ToAwsCredential(c)))
  }

  /** Reuse: while every call comes at an instant at which the cached value is
      still valid for the margin, no call asks the exchanger, the cache is
      untouched and every reply is the cached value. */
  lemma {:induction false} ReuseWhileFresh(cache: Credentials, k: nat, nows: seq<Instant>,
                                           responses: nat -> Result<Credentials>)
    requires forall i :: 0 <= i < |nows| ==> nows[i] + RefreshMargin <= cache.expiration
    ensures Serve(cache, k, nows, responses) == Trace(cache, k, Reused(cache, |nows|))
    decreases |nows|
  {
    if nows != [] {
      assert nows[0] + RefreshMargin <= cache.expiration;
      ReuseWhileFresh(cache, k, nows[1..], responses);
      assert Reused(cache, |nows|) == [Served(ToAwsCredential(cache))] + Reused(cache, |nows| - 1);
    }
  }

  /** The cache is only ever a credential the exchanger handed out: the one
      cached when the run began, or the answer of one of the calls made during
      the run. It is never assembled from parts of several answers. */
  lemma {:induction false} CacheComesFromExchanger(cache: Credentials, k: nat, nows: seq<Instant>,
                                                   responses: nat -> Result<Credentials>)
    ensures var t := Serve(cache, k, nows, responses);
      t.cache == cache || exists j :: k <= j < t.calls && responses(j) == Ok(t.cache)
    decreases |nows|
  {
    if nows != [] {
      var o := Step(cache, nows[0], responses(k));
      var k' := if o.exchanged then k + 1 else k;
      CacheComesFromExchanger(o.cache, k', nows[1..], responses);
      var t := Serve(cache, k, nows, responses);
      assert t == Serve(o.cache, k', nows[1..], responses).(replies := t.replies);
      if t.cache != cache && t.cache != o.cache {
        var j :| k' <= j < t.calls && responses(j) == Ok(t.cache);
      } else if t.cache != cache {
        assert responses(k) == Ok(t.cache);
      }
    }
  }

  /** A successful refresh followed by calls inside the new credential's
      validity: one exchanger call in all, and every later call reuses the
      answer it returned. */
  lemma RefreshThenReuse(cache: Credentials, k: nat, now: Instant, later: seq<Instant>,
                         responses: nat -> Result<Credentials>)
    requires IsStale(cache, now)
    requires responses(k).Ok?
    requires forall i :: 0 <= i < |later| ==> later[i] + RefreshMargin <= responses(k).value.expiration
    ensures var c := responses(k).value;
      Serve(cache, k, [now] + later, responses)
        == Trace(c, k + 1, [Served(ToAwsCredential(c))] + Reused(c, |later|))
  {
    var c := responses(k).value;
    assert ([now] + later)[1..] == later;
    ReuseWhileFresh(c, k + 1, later, responses);
  }

  /** Two calls at the same instant, when the first one ends with a cache that
      is valid for the margin (it was already, or the exchanger answered with
      such a credential): at most one exchanger call in total, and both callers
      receive the same credential. */
  lemma SameInstantTwice(cache: Credentials, k: nat, now: Instant,
                         responses: nat -> Result<Credentials>)
    requires !IsStale(cache, now) || (responses(k).Ok? && !IsStale(responses(k).value, now))
    ensures var t := Serve(cache, k, [now, now], responses);
      t.calls <= k + 1 && t.replies[0].Served? && t.replies[1] == t.replies[0]
  {
    var o := Step(cache, now, responses(k));
    var k' := if o.exchanged then k + 1 else k;
    assert [now, now][1..] == [now];
    ReuseWhileFresh(o.cache, k', [now], responses);
  }

  /** Failure isolation: a failed exchange leaves the stale cache in place, so
      the next call at the same instant asks the exchanger again, and answers
      with what that second call returns. */
  lemma FailedExchangeIsRetried(cache: Credentials, k: nat, now: Instant,
                                responses: nat -> Result<Credentials>)
    requires IsStale(cache, now)
    requires responses(k).Err?
    ensures var t := Serve(cache, k, [now, now], responses);
      t.calls == k + 2 && t.replies[0] == Failed(responses(k).cause) &&
      (responses(k + 1).Ok? ==> t.cache == responses(k + 1).value &&
                                t.replies[1] == Served(ToAwsCredential(responses(k + 1).value))) &&
      (responses(k + 1).Err? ==> t.cache == cache && t.replies[1] == Failed(responses(k + 1).cause))
  {
    var first := Step(cache, now, responses(k));
    assert first.cache == cache && first.exchanged;
    assert [now, now][1..] == [now];
    var second := Step(cache, now, responses(k + 1));
    assert Serve(cache, k + 1, [now], responses)
        == Trace(second.cache, k + 2, [second.reply]);
  }

  /** Why the freshness results carry a hypothesis on the answer: a refresh
      serves the exchanger's answer without checking it again, so an answer
      already inside the margin is handed to the caller, and the next call at
      the same instant asks the exchanger again. */
  lemma StaleAnswerIsServedAndRefetched(cache: Credentials, k: nat, now: Instant,
                                        responses: nat -> Result<Credentials>)
    requires IsStale(cache, now)
    requires responses(k).Ok? && IsStale(responses(k).value, now)
    ensures var d := responses(k).value;
      var t := Serve(cache, k, [now, now], responses);
      t.calls == k + 2 && t.replies[0] == Served(ToAwsCredential(d)) &&
      d.expiration < now + RefreshMargin
  {
    var d := responses(k).value;
    assert [now, now][1..] == [now];
    var second := Step(d, now, responses(k + 1));
    assert Serve(d, k + 1, [now], responses) == Trace(second.cache, k + 2, [second.reply]);
  }

  /** Single refresh: calls made no later than `until`, with an exchanger that
      never fails and always answers with credentials valid for the margin at
      `until`. Whatever the order of the calls, the exchanger is asked at most
      once and every caller receives credentials. */
  lemma {:induction false} AtMostOneRefreshUntil(cache: Credentials, k: nat, nows: seq<Instant>,
                                                 until: Instant, responses: nat -> Result<Credentials>)
    requires forall i :: 0 <= i < |nows| ==> nows[i] <= until
    requires forall j :: k <= j ==> responses(j).Ok? &&
                                    until + RefreshMargin <= responses(j).value.expiration
    ensures var t := Serve(cache, k, nows, responses);
      t.calls <= k + 1 && forall i :: 0 <= i < |nows| ==> t.replies[i].Served?
    decreases |nows|
  {
    if nows == [] {
    } else if IsStale(cache, nows[0]) {
      // the first call refreshes, and its answer outlives every later call
      assert nows == [nows[0]] + nows[1..];
      forall i | 0 <= i < |nows[1..]|
        ensures nows[1..][i] + RefreshMargin <= responses(k).value.expiration
      {
        assert nows[1..][i] == nows[i + 1];
      }
      RefreshThenReuse(cache, k, nows[0], nows[1..], responses);
    } else {
      // the first call reuses the cache, and the rest of the run starts as this one did
      var rest := nows[1..];
      forall i | 0 <= i < |rest|
        ensures rest[i] <= until
      {
        assert rest[i] == nows[i + 1];
      }
      AtMostOneRefreshUntil(cache, k, rest, until, responses);
      var t := Serve(cache, k, nows, responses);
      assert t.replies == [Served(ToAwsCredential(cache))] + Serve(cache, k, rest, responses).replies;
    }
  }

  /** Serving two runs one after the other is serving their concatenation:
      the second run starts from the cache and call count the first left. */
  lemma {:induction false} ServeAppend(cache: Credentials, k: nat, a: seq<Instant>, b: seq<Instant>,
                                       responses: nat -> Result<Credentials>)
    ensures var t1 := Serve(cache, k, a, responses);
      var t2 := Serve(t1.cache, t1.calls, b, responses);
      Serve(cache, k, a + b, responses) == Trace(t2.cache, t2.calls, t1.replies + t2.replies)
    decreases |a|
  {
    if a == [] {
      assert a + b == b;
    } else {
      var o := Step(cache, a[0], responses(k));
      var k' := if o.exchanged then k + 1 else k;
      assert (a + b)[0] == a[0] && (a + b)[1..] == a[1..] + b;
      ServeAppend(o.cache, k', a[1..], b, responses);
      var t1 := Serve(cache, k, a, responses);
      var rest := Serve(o.cache, k', a[1..], responses);
      assert t1.replies == [o.reply] + rest.replies;
      assert [o.reply] + (rest.replies + Serve(t1.cache, t1.calls, b, responses).replies)
          == t1.replies + Serve(t1.cache, t1.calls, b, responses).replies;
    }
  }

  /** The scenario of a credential issued for 900 seconds, from the state that
      construction leaves (the exchanger asked once, its answer `first`
      cached): a call at the issue instant and one ten seconds later reuse it;
      a call 850 seconds after issue falls inside the 60-second margin and asks
      the exchanger exactly once more. */
  lemma NineHundredSecondLifetime(issued: Instant, first: Credentials, second: Credentials,
                                  responses: nat -> Result<Credentials>)
    requires first.expiration == issued + Seconds(900)
    requires responses(1) == Ok(second)
    ensures var t := Serve(first, 1, [issued, issued + Seconds(10), issued + Seconds(850)], responses);
      t.calls == 2 && t.cache == second &&
      t.replies == [Served(ToAwsCredential(first)), Served(ToAwsCredential(first)),
                    Served(ToAwsCredential(second))]
  {
    var early := [issued, issued + Seconds(10)];
    var late := issued + Seconds(850);
    ReuseWhileFresh(first, 1, early, responses);
    ServeAppend(first, 1, early, [late], responses);
    assert early + [late] == [issued, issued + Seconds(10), late];
    assert Serve(first, 1, [late], responses)
        == Trace(second, 2, [Served(ToAwsCredential(second))]);
  }
}
