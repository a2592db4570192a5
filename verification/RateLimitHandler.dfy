/** The HTTP middleware around the script: who is asking, and what the reply turns into. */
module RateLimitHandler {
  import opened Wrappers
  import opened Bytes
  import opened Clock
  import opened TokenBucket
  import opened Sequences
  import opened SlidingWindow
  import opened RateLimitStore
  import opened Splitting
  import Decimal
  import Hex

  /** What is read of a request. `remoteHost` is the host part of `remoteAddr`, if it has one. */
  datatype Request = Request(
    subject: Option<string>,
    remoteAddr: string,
    remoteHost: Option<string>,
    forwardedFor: string)

  datatype RateLimiterConfig = RateLimiterConfig(capacity: int, refillRate: int, refillPeriodNs: int) {
    predicate Positive() {
      Script().Positive()
    }

    /** The limits the script is called with. */
    function Script(): Limits {
      Limits(capacity, refillRate, refillPeriodNs / NANOS_PER_MILLI)
    }
  }

  /** Authenticated subject first, then the first X-Forwarded-For hop, then the peer address. */
  function ClientIdentifier(trim: string -> string, r: Request): string {
    if Authenticated(r) then "user:" + r.subject.value else "ip:" + Address(trim, r)
  }

  predicate Anonymous(r: Request) {
    r.subject == None || r.subject == Some("")
  }

  predicate Authenticated(r: Request) {
    r.subject.Some? && r.subject.value != ""
  }

  function Address(trim: string -> string, r: Request): string {
    if r.forwardedFor != "" then trim(Split(r.forwardedFor, ',')[0])
    else if r.remoteHost.Some? then r.remoteHost.value
    else r.remoteAddr
  }

  function BucketKey(sha256: string -> Data, id: string): string {
    "ratelimit:" + Hex.Encode(sha256(id))
  }

  /**
    The user, whoever forwards for them; without one, the first hop of X-Forwarded-For, up to the
    comma if there is one, trimmed; without that, the peer's host, or all of its address if it has none.
  */
  lemma IdentifierIs(trim: string -> string, r: Request, user: string, hop: string, rest: string)
    ensures user != "" && r.subject == Some(user) ==> ClientIdentifier(trim, r) == "user:" + user
    ensures Anonymous(r) && ',' !in hop && r.forwardedFor == hop + "," + rest ==>
              ClientIdentifier(trim, r) == "ip:" + trim(hop)
    ensures Anonymous(r) && ',' !in hop && hop != "" && r.forwardedFor == hop ==>
              ClientIdentifier(trim, r) == "ip:" + trim(hop)
    ensures Anonymous(r) && r.forwardedFor == "" && r.remoteHost == Some(hop) ==>
              ClientIdentifier(trim, r) == "ip:" + hop
    ensures Anonymous(r) && r.forwardedFor == "" && r.remoteHost == None ==>
              ClientIdentifier(trim, r) == "ip:" + r.remoteAddr
  {
    if ',' !in hop {
      SplitPiece(hop, rest, ',');
      assert hop + [','] + rest == hop + "," + rest;
    }
  }

  /** The same user, or the same address without a user; the two prefixes keep them apart. */
  predicate SameClient(trim: string -> string, r: Request, q: Request) {
    if Authenticated(r) then Authenticated(q) && r.subject == q.subject
    else !Authenticated(q) && Address(trim, r) == Address(trim, q)
  }

  lemma SameIdentifier(trim: string -> string, r: Request, q: Request)
    ensures ClientIdentifier(trim, r) == ClientIdentifier(trim, q) <==> SameClient(trim, r, q)
  {
    var a, b := ClientIdentifier(trim, r), ClientIdentifier(trim, q);
    assert a[0] == if Authenticated(r) then 'u' else 'i';
    assert b[0] == if Authenticated(q) then 'u' else 'i';
    if Authenticated(r) && Authenticated(q) {
      assert a[5..] == r.subject.value && b[5..] == q.subject.value;
    } else if !Authenticated(r) && !Authenticated(q) {
      assert a[3..] == Address(trim, r) && b[3..] == Address(trim, q);
    }
  }

  /**
    Two requests share a bucket exactly if they come from the same authenticated user or, both being
    unauthenticated, from the same address, unless two different identifiers hash alike.
  */
  lemma BucketsSeparateClients(trim: string -> string, sha256: string -> Data, r: Request, q: Request)
    requires
      var a, b := ClientIdentifier(trim, r), ClientIdentifier(trim, q);
      sha256(a) == sha256(b) ==> a == b
    ensures BucketKey(sha256, ClientIdentifier(trim, r)) == BucketKey(sha256, ClientIdentifier(trim, q))
       <==> SameClient(trim, r, q)
  {
    SameIdentifier(trim, r, q);
    KeysSeparateHashes(sha256, ClientIdentifier(trim, r), ClientIdentifier(trim, q));
  }

  /** Two identifiers share a bucket exactly if they hash alike. */
  lemma KeysSeparateHashes(sha256: string -> Data, a: string, b: string)
    ensures BucketKey(sha256, a) == BucketKey(sha256, b) <==> sha256(a) == sha256(b)
  {
    KeyNamesHash(sha256, a);
    KeyNamesHash(sha256, b);
  }

  /** The key is a fixed prefix and the hash of the identifier in hex. */
  lemma KeyNamesHash(sha256: string -> Data, id: string)
    ensures BucketKey(sha256, id)[..10] == "ratelimit:"
    ensures BucketKey(sha256, id)[10..] == Hex.Encode(sha256(id))
    ensures Hex.Decode(BucketKey(sha256, id)[10..]) == Some(sha256(id))
  {
    Hex.RoundTrip(sha256(id));
    assert BucketKey(sha256, id)[10..] == Hex.Encode(sha256(id));
  }

  // ---------------------------------------------------------------------------------------
  // The response.

  class ResponseWriter {
    var headers: map<string, string>
    var status: int

    constructor ()
      ensures headers == map[] && status == 0
    {
      headers, status := map[], 0;
    }
  }

  /** The script is called with the configured capacity and rate, and the period in whole milliseconds. */
  lemma LimitsArePassed(config: RateLimiterConfig)
    ensures config.Script().capacity == config.capacity && config.Script().rate == config.refillRate
    ensures config.Script().periodMs * 1_000_000 <= config.refillPeriodNs < (config.Script().periodMs + 1) * 1_000_000
  {}

  /** Go's int64(d.Seconds()) on a duration that is not negative. */
  function RetryAfter(config: RateLimiterConfig): int {
    config.refillPeriodNs / NANOS_PER_SECOND
  }

  lemma RetryAfterIsWholeSeconds(config: RateLimiterConfig)
    ensures InSecond(config.refillPeriodNs, RetryAfter(config))
  {
    UnixIsItsSecond(config.refillPeriodNs, RetryAfter(config));
  }

  lemma TwoAtOnce(m: map<string, string>, k: string, v: string, l: string, u: string)
    ensures m[k := v][l := u] == m + map[k := v, l := u]
  {}

  class RateLimiterMiddleware {
    const config: RateLimiterConfig
    /** How often the next handler has been called. */
    var forwarded: nat

    constructor (config: RateLimiterConfig)
      ensures this.config == config && forwarded == 0
    {
      this.config := config;
      forwarded := 0;
    }

    /** `outcome` is the backend's answer; an error lets the request through untouched. */
    method Handle(w: ResponseWriter, outcome: Result<Reply, string>)
      modifies this`forwarded, w
      ensures forwarded == old(forwarded) + Passed(outcome)
      ensures outcome.Err? ==> w.headers == old(w.headers) && w.status == old(w.status)
      ensures outcome.Ok? && outcome.value.allowed ==>
                w.status == old(w.status) &&
                w.headers == old(w.headers) + map[
                  "X-RateLimit-Limit" := Decimal.Print(config.capacity),
                  "X-RateLimit-Remaining" := Decimal.Print(outcome.value.remaining)]
      ensures outcome.Ok? && !outcome.value.allowed ==>
                w.status == 429 &&
                w.headers == old(w.headers) + map[
                  "X-RateLimit-Limit" := Decimal.Print(config.capacity),
                  "X-RateLimit-Remaining" := Decimal.Print(outcome.value.remaining)] + map[
                  "Retry-After" := Decimal.Print(RetryAfter(config)),
                  "Content-Type" := "application/json"]
    {
      if outcome.Err? {
        forwarded := forwarded + 1;
        return;
      }
      ghost var before := w.headers;
      w.headers := w.headers["X-RateLimit-Limit" := Decimal.Print(config.capacity)];
      w.headers := w.headers["X-RateLimit-Remaining" := Decimal.Print(outcome.value.remaining)];
      TwoAtOnce(before, "X-RateLimit-Limit", Decimal.Print(config.capacity),
                "X-RateLimit-Remaining", Decimal.Print(outcome.value.remaining));
      if !outcome.value.allowed {
        ghost var told := w.headers;
        w.headers := w.headers["Retry-After" := Decimal.Print(config.refillPeriodNs / NANOS_PER_SECOND)];
        w.headers := w.headers["Content-Type" := "application/json"];
        TwoAtOnce(told, "Retry-After", Decimal.Print(config.refillPeriodNs / NANOS_PER_SECOND),
                  "Content-Type", "application/json");
        w.status := 429;
        return;
      }
      forwarded := forwarded + 1;
    }
  }

  function Passed(outcome: Result<Reply, string>): nat {
    if outcome.Err? || outcome.value.allowed then 1 else 0
  }

  // ---------------------------------------------------------------------------------------
  // What the middleware lets through.

  function Forwarded(outcomes: seq<Result<Reply, string>>): nat {
    if outcomes == [] then 0 else Forwarded(Front(outcomes)) + Passed(Last(outcomes))
  }

  function Errors(outcomes: seq<Result<Reply, string>>): nat {
    if outcomes == [] then 0 else Errors(Front(outcomes)) + Tally(Last(outcomes).Err?)
  }

  /** The replies that did arrive, in order. */
  function Answers(outcomes: seq<Result<Reply, string>>): seq<Reply> {
    if outcomes == [] then []
    else Answers(Front(outcomes)) + if Last(outcomes).Ok? then [Last(outcomes).value] else []
  }

  function Admitted(replies: seq<Reply>): nat {
    Count(Verdicts(replies), 0, |replies|)
  }

  lemma {:induction false} CountPrefix(pick: seq<bool>, more: seq<bool>, j: nat)
    requires j <= |pick|
    ensures Count(pick + more, 0, j) == Count(pick, 0, j)
  {
    if j > 0 {
      CountPrefix(pick, more, j - 1);
    }
  }

  lemma AdmittedMore(replies: seq<Reply>, reply: Reply)
    ensures Admitted(replies + [reply]) == Admitted(replies) + Tally(reply.allowed)
  {
    CountPrefix(Verdicts(replies), [reply.allowed], |replies|);
    assert Verdicts(replies + [reply]) == Verdicts(replies) + [reply.allowed];
  }

  /** Forwarded requests are the admissions that arrived and the backend errors, no more and no fewer. */
  lemma {:induction false} ForwardedExactly(outcomes: seq<Result<Reply, string>>)
    ensures Forwarded(outcomes) == Admitted(Answers(outcomes)) + Errors(outcomes)
  {
    if outcomes != [] {
      ForwardedExactly(Front(outcomes));
      if Last(outcomes).Ok? {
        AdmittedMore(Answers(Front(outcomes)), Last(outcomes).value);
      } else {
        assert Answers(outcomes) == Answers(Front(outcomes));
      }
    }
  }

  /**
    One request's try at the backend. An error may mean that the script never ran, or that it ran and
    its reply was lost or unreadable.
  */
  datatype Attempt = Answered | Lost(error: string) | Unreached(error: string)

  /** How often the script ran. */
  function Ran(attempts: seq<Attempt>): nat {
    if attempts == [] then 0 else Ran(Front(attempts)) + Tally(!Last(attempts).Unreached?)
  }

  /** What the middleware is told, `replies` being those of the script's runs in turn. */
  function Outcomes(attempts: seq<Attempt>, replies: seq<Reply>): seq<Result<Reply, string>>
    requires |replies| == Ran(attempts)
  {
    if attempts == [] then []
    else
      match Last(attempts)
      case Answered => Outcomes(Front(attempts), Front(replies)) + [Ok(Last(replies))]
      case Lost(error) => Outcomes(Front(attempts), Front(replies)) + [Err(error)]
      case Unreached(error) => Outcomes(Front(attempts), replies) + [Err(error)]
  }

  /** The admissions whose reply was lost: a token was spent, and the request counts as an error. */
  function Wasted(attempts: seq<Attempt>, replies: seq<Reply>): nat
    requires |replies| == Ran(attempts)
  {
    if attempts == [] then 0
    else
      match Last(attempts)
      case Answered => Wasted(Front(attempts), Front(replies))
      case Lost(_) => Wasted(Front(attempts), Front(replies)) + Tally(Last(replies).allowed)
      case Unreached(_) => Wasted(Front(attempts), replies)
  }

  /** Every admission arrives or is wasted. */
  lemma {:induction false} ArrivedOrWasted(attempts: seq<Attempt>, replies: seq<Reply>)
    requires |replies| == Ran(attempts)
    ensures Admitted(Answers(Outcomes(attempts, replies))) + Wasted(attempts, replies) == Admitted(replies)
  {
    if attempts != [] {
      var front, last := Front(attempts), Last(attempts);
      if last.Unreached? {
        ArrivedOrWasted(front, replies);
        AnswersMore(Outcomes(front, replies), Err(last.error));
      } else {
        ArrivedOrWasted(front, Front(replies));
        AdmittedLast(replies);
        if last.Answered? {
          AnswersMore(Outcomes(front, Front(replies)), Ok(Last(replies)));
          AdmittedMore(Answers(Outcomes(front, Front(replies))), Last(replies));
        } else {
          AnswersMore(Outcomes(front, Front(replies)), Err(last.error));
        }
      }
    }
  }

  lemma AdmittedLast(replies: seq<Reply>)
    requires replies != []
    ensures Admitted(replies) == Admitted(Front(replies)) + Tally(Last(replies).allowed)
  {
    AdmittedMore(Front(replies), Last(replies));
    assert replies == Front(replies) + [Last(replies)];
  }

  lemma AnswersMore(outcomes: seq<Result<Reply, string>>, outcome: Result<Reply, string>)
    ensures Answers(outcomes + [outcome]) ==
              if outcome.Ok? then Answers(outcomes) + [outcome.value] else Answers(outcomes)
  {
    assert Front(outcomes + [outcome]) == outcomes && Last(outcomes + [outcome]) == outcome;
  }

  /**
    Forwarded requests exceed the script's admissions by exactly the backend errors that spent no
    token.
  */
  lemma ForwardedBalance(attempts: seq<Attempt>, replies: seq<Reply>)
    requires |replies| == Ran(attempts)
    ensures
      var outcomes := Outcomes(attempts, replies);
      Forwarded(outcomes) + Wasted(attempts, replies) == Admitted(replies) + Errors(outcomes)
  {
    ForwardedExactly(Outcomes(attempts, replies));
    ArrivedOrWasted(attempts, replies);
  }

  /**
    With gateways whose clocks disagree in any way, and backend errors that may or may not have spent
    a token, the requests of one client that are let through are at most its capacity, what was
    refilled by the advance of its bucket's clock, and one per error that spent none.
  */
  lemma ForwardedBound(c: Config, ts: seq<int>, attempts: seq<Attempt>) returns (b: Bucket)
    requires ts != [] && |ts| == Ran(attempts)
    ensures BucketAt(c, ts, |ts|) == Some(b) && b.lastUpdate >= ts[0]
    ensures
      var outcomes, wasted := Outcomes(attempts, ScriptReplies(c, ts)), Wasted(attempts, ScriptReplies(c, ts));
      Forwarded(outcomes) as real + wasted as real
      <= c.capacity as real + Earned(c, b.lastUpdate - ts[0]) + Errors(outcomes) as real
  {
    b := AdmissionBound(c, ts, |ts|);
    ForwardedBalance(attempts, ScriptReplies(c, ts));
    VerdictsAreDecisions(c, ts);
  }

  /**
    The same over any run of the shared store, with other clients, expiry, reaping and clocks within
    `skew` of the server's: what is refilled is the refill of the elapsed server time and twice the
    skew. A client whose requests never reach the script is let through once per error.
  */
  lemma ClientForwardBound(c: Config, skew: int, es: seq<Event>, key: string, attempts: seq<Attempt>)
    requires Honest(es, skew) && Tolerates(c, TtlMs(c), skew)
    requires |Replies(c, TtlMs(c), es, key)| == Ran(attempts)
    ensures
      var replies := Replies(c, TtlMs(c), es, key);
      var outcomes, wasted := Outcomes(attempts, replies), Wasted(attempts, replies);
      if replies == [] then Forwarded(outcomes) == Errors(outcomes)
      else
        es != [] &&
        Forwarded(outcomes) as real + wasted as real
        <= c.capacity as real + Earned(c, Last(es).server - es[0].server + 2 * skew) + Errors(outcomes) as real
  {
    var replies := Replies(c, TtlMs(c), es, key);
    ForwardedBalance(attempts, replies);
    RepliesPerReading(c, TtlMs(c), es, key);
    if replies != [] {
      ClientAdmissionBound(c, skew, es, key);
    }
  }

  /** One reply per request of the client. */
  lemma {:induction false} RepliesPerReading(c: Config, keep: int, es: seq<Event>, key: string)
    ensures |Replies(c, keep, es, key)| == |Readings(es, key)|
  {
    if es != [] {
      RepliesPerReading(c, keep, Front(es), key);
    }
  }

  // ---------------------------------------------------------------------------------------
  // Retry-After.

  lemma WholeSeconds(ns: int)
    requires ns >= 0
    ensures ns / NANOS_PER_MILLI / 1000 == ns / NANOS_PER_SECOND
    ensures ns / NANOS_PER_MILLI < 1000 * (ns / NANOS_PER_SECOND) + 1000
    ensures ns % NANOS_PER_SECOND == 0 ==> ns / NANOS_PER_MILLI == 1000 * (ns / NANOS_PER_SECOND)
  {}

  /**
    A client that waits out the advertised Retry-After is always admitted, nothing else being
    admitted meanwhile, exactly if one token is refilled in that many whole seconds. That is so for
    every period of whole seconds, and for every period of at least a second with two tokens or more.
  */
  lemma RetryAfterSuffices(config: RateLimiterConfig)
    requires config.Positive()
    ensures WaitSuffices(config.Script(), 1000 * RetryAfter(config))
       <==> config.Script().periodMs <= config.refillRate * (1000 * RetryAfter(config))
    ensures config.refillPeriodNs % NANOS_PER_SECOND == 0 ==> WaitSuffices(config.Script(), 1000 * RetryAfter(config))
    ensures config.refillPeriodNs >= NANOS_PER_SECOND && config.refillRate >= 2 ==>
              WaitSuffices(config.Script(), 1000 * RetryAfter(config))
  {
    var ns, wait := config.refillPeriodNs, 1000 * RetryAfter(config);
    WaitSufficesExactly(config.Script(), wait);
    WholeSeconds(ns);
    if wait >= 1 {
      IntTimesKeepsOrder(1, config.refillRate, wait);
      IntTimesKeepsOrder(2, config.refillRate, wait);
    }
  }

  /** A period of 1.5 seconds with one token: the header says 1, and a retry after one second is denied. */
  lemma RetryAfterTooShort()
    ensures
      var config := RateLimiterConfig(1, 1, 1_500_000_000);
      !WaitSuffices(config.Script(), 1000 * RetryAfter(config))
  {
    RetryAfterSuffices(RateLimiterConfig(1, 1, 1_500_000_000));
  }
}
