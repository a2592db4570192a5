/**
  The shared store the script runs on: many client keys, each with an expiry on the server's clock.

  `Evaluate` and `Reaped` are the two things that can happen to the store; `ValkeyServer` performs
  them in place. A run is a sequence of events; the results say what one client sees of it.
*/
module RateLimitStore {
  import opened Sequences
  import opened Wrappers
  import opened TokenBucket
  import opened SlidingWindow

  /** A stored hash and the server time, in milliseconds, up to which it is kept. */
  datatype Row = Row(bucket: Bucket, expiresAt: int)

  type Table = map<string, Row>

  function Ceil(x: real): int {
    -((-x).Floor)
  }

  /** The script's `ttl`, in seconds. */
  function Ttl(c: Config): int {
    Ceil((c.capacity as real / c.rate as real) * (c.periodMs as real / 1000.0) * 2.0)
  }

  function TtlMs(c: Config): int {
    Ttl(c) * 1000
  }

  predicate Expired(row: Row, server: int) {
    row.expiresAt < server
  }

  /** What HMGET finds. */
  function Live(t: Table, key: string, server: int): Option<Bucket> {
    if key in t && !Expired(t[key], server) then Some(t[key].bucket) else None
  }

  /** One evaluation of the script; an admission keeps the row for another `keep` milliseconds. */
  function Evaluate(c: Config, keep: int, t: Table, key: string, now: int, server: int): (Table, Reply) {
    var (stored, reply) := Script(c, Live(t, key, server), now);
    (if reply.allowed then t[key := Row(stored.value, server + keep)] else t, reply)
  }

  /** The server's background cycle drops any of the expired rows, here those of `keys`. */
  function Reaped(t: Table, keys: set<string>, server: int): Table {
    map k | k in t && !(k in keys && Expired(t[k], server)) :: t[k]
  }

  /** Only rows past their time go, and of those exactly the ones the cycle comes to. */
  lemma ReapedExactly(t: Table, keys: set<string>, server: int, k: string)
    ensures k in Reaped(t, keys, server) <==> k in t && (k in keys ==> server <= t[k].expiresAt)
    ensures k in Reaped(t, keys, server) ==> Reaped(t, keys, server)[k] == t[k]
  {}

  class ValkeyServer {
    var rows: Table

    constructor ()
      ensures rows == map[]
    {
      rows := map[];
    }

    /** The Lua script, statement by statement. */
    method Eval(key: string, c: Config, now: int, server: int) returns (allowed: int, remaining: int)
      modifies this
      ensures rows == Evaluate(c, TtlMs(c), old(rows), key, now, server).0
      ensures allowed == (if Evaluate(c, TtlMs(c), old(rows), key, now, server).1.allowed then 1 else 0)
      ensures remaining == Evaluate(c, TtlMs(c), old(rows), key, now, server).1.remaining
    {
      var data := Live(rows, key, server);
      var tokens, lastUpdate;
      if data.None? {
        tokens := c.capacity as real;
        lastUpdate := now;
      } else {
        tokens := data.value.tokens;
        lastUpdate := data.value.lastUpdate;
        var elapsed := now - lastUpdate;
        if elapsed > 0 {
          var refilled := elapsed as real * (c.rate as real / c.periodMs as real);
          if refilled > 0.0 {
            tokens := if tokens + refilled < c.capacity as real then tokens + refilled else c.capacity as real;
            lastUpdate := now;
          }
        }
      }
      ghost var b := Refill(c, data, now);
      assert Bucket(tokens, lastUpdate) == b;
      if tokens >= 1.0 {
        tokens := tokens - 1.0;
        var ttl := Ceil((c.capacity as real / c.rate as real) * (c.periodMs as real / 1000.0) * 2.0);
        assert ttl == Ttl(c);
        assert Script(c, data, now).0 == Some(Bucket(tokens, lastUpdate));
        rows := rows[key := Row(Bucket(tokens, lastUpdate), server + ttl * 1000)];
        return 1, (tokens * 1000.0).Floor;
      } else {
        return 0, (tokens * 1000.0).Floor;
      }
    }

    method Reap(keys: set<string>, server: int)
      modifies this
      ensures rows == Reaped(old(rows), keys, server)
    {
      rows := map k | k in rows && !(k in keys && Expired(rows[k], server)) :: rows[k];
    }
  }

  // ---------------------------------------------------------------------------------------
  // The TTL is twice the time an empty bucket takes to fill, rounded up to a second.

  lemma CeilBounds(x: real)
    ensures x <= Ceil(x) as real < x + 1.0
  {}

  lemma TwiceTheFillTime(capacity: real, rate: real, period: real)
    requires rate > 0.0
    ensures (capacity / rate) * (period / 1000.0) * 2.0 * 1000.0 * rate == 2.0 * (capacity * period)
  {
    var q := capacity / rate;
    DivideTimes(capacity, rate);
    assert q * (period / 1000.0) * 2.0 * 1000.0 == q * period * 2.0;
    assert q * period * 2.0 * rate == q * rate * period * 2.0;
  }

  lemma ProductOrder(y: real, n: int, rate: int, total: int)
    requires rate >= 1 && y * rate as real == total as real
    ensures n as real < y <==> n * rate < total
  {
    TimesKeepsOrder(n as real, y, rate as real);
    IntTimesReal(n, rate);
  }

  lemma ProductInRange(y: real, n: int, rate: int, twice: int)
    requires rate >= 1 && y * rate as real == twice as real && y <= n as real < y + 1000.0
    ensures twice <= n * rate < twice + 1000 * rate
  {
    ProductOrder(y, n, rate, twice);
    ProductOrder(y, n - 1000, rate, twice);
    assert (n - 1000) * rate == n * rate - 1000 * rate;
  }

  lemma CeilInRange(x: real)
    ensures x * 1000.0 <= (Ceil(x) * 1000) as real < x * 1000.0 + 1000.0
  {
    CeilBounds(x);
  }

  lemma TtlInRange(capacity: int, rate: int, period: int, ttl: int)
    requires rate >= 1
    requires ttl == Ceil((capacity as real / rate as real) * (period as real / 1000.0) * 2.0)
    ensures 2 * (capacity * period) <= ttl * 1000 * rate < 2 * (capacity * period) + 1000 * rate
  {
    TwiceTheFillTime(capacity as real, rate as real, period as real);
    IntTimesReal(capacity, period);
    var x := (capacity as real / rate as real) * (period as real / 1000.0) * 2.0;
    CeilInRange(x);
    ProductInRange(x * 1000.0, ttl * 1000, rate, 2 * (capacity * period));
  }

  lemma TtlIsTwiceTheFillTime(c: Config)
    ensures 2 * Full(c) <= TtlMs(c) * c.rate < 2 * Full(c) + 1000 * c.rate
  {
    TtlInRange(c.capacity, c.rate, c.periodMs, Ttl(c));
  }

  lemma TtlIsPositive(c: Config)
    ensures TtlMs(c) >= 1
  {
    TtlIsTwiceTheFillTime(c);
    AvailableWithin(c, None, 0);
    if TtlMs(c) <= 0 {
      IntTimesKeepsOrder(TtlMs(c), 0, c.rate);
      assert false;
    }
  }

  // ---------------------------------------------------------------------------------------
  // Runs.

  datatype Event =
    | Request(key: string, now: int, server: int)
    | Reap(keys: set<string>, server: int)

  function TableAfter(c: Config, keep: int, es: seq<Event>): Table {
    if es == [] then map[]
    else
      match Last(es)
      case Request(key, now, server) => Evaluate(c, keep, TableAfter(c, keep, Front(es)), key, now, server).0
      case Reap(keys, server) => Reaped(TableAfter(c, keep, Front(es)), keys, server)
  }

  predicate Concerns(e: Event, key: string) {
    e.Request? && e.key == key
  }

  /** The replies one client gets, in order. */
  function Replies(c: Config, keep: int, es: seq<Event>, key: string): seq<Reply> {
    if es == [] then []
    else
      Replies(c, keep, Front(es), key) +
      if Concerns(Last(es), key)
      then [Evaluate(c, keep, TableAfter(c, keep, Front(es)), key, Last(es).now, Last(es).server).1]
      else []
  }

  /** The clock readings its requests carried. */
  function Readings(es: seq<Event>, key: string): seq<int> {
    if es == [] then []
    else Readings(Front(es), key) + if Concerns(Last(es), key) then [Last(es).now] else []
  }

  /** The run with every other client's requests and every reaping left out. */
  function Alone(es: seq<Event>, key: string): seq<Event> {
    if es == [] then []
    else Alone(Front(es), key) + if Concerns(Last(es), key) then [Last(es)] else []
  }

  /** The server's clock does not go backwards. */
  ghost predicate Ordered(es: seq<Event>) {
    forall i, j :: 0 <= i <= j < |es| ==> es[i].server <= es[j].server
  }

  // ---------------------------------------------------------------------------------------
  // Isolation.

  lemma {:induction false} LiveAlone(c: Config, keep: int, es: seq<Event>, key: string, server: int)
    requires Ordered(es) && (es != [] ==> Last(es).server <= server)
    ensures Live(TableAfter(c, keep, es), key, server) == Live(TableAfter(c, keep, Alone(es, key)), key, server)
  {
    if es != [] {
      var rest, e := Front(es), Last(es);
      LiveAlone(c, keep, rest, key, server);
      LiveAlone(c, keep, rest, key, e.server);
      if Concerns(e, key) {
        var mine := Alone(rest, key) + [e];
        assert Front(mine) == Alone(rest, key) && Last(mine) == e;
      } else {
        assert Alone(es, key) == Alone(rest, key);
      }
    }
  }

  /**
    Per-client isolation: in any interleaved run, with expiry and reaping, a client gets the
    replies it would get if it were the only one.
  */
  lemma {:induction false} ClientsAreIsolated(c: Config, keep: int, es: seq<Event>, key: string)
    requires Ordered(es)
    ensures Replies(c, keep, es, key) == Replies(c, keep, Alone(es, key), key)
  {
    if es != [] {
      var rest, e := Front(es), Last(es);
      ClientsAreIsolated(c, keep, rest, key);
      if Concerns(e, key) {
        LiveAlone(c, keep, rest, key, e.server);
        var mine := Alone(rest, key) + [e];
        assert Front(mine) == Alone(rest, key) && Last(mine) == e;
      } else {
        assert Alone(es, key) == Alone(rest, key);
      }
    }
  }

  // ---------------------------------------------------------------------------------------
  // Expiry is invisible.

  /** Every gateway's reading is within `skew` of the server's clock, which does not go backwards. */
  ghost predicate Honest(es: seq<Event>, skew: int) {
    Ordered(es) &&
    forall i :: 0 <= i < |es| && es[i].Request? ==> -skew <= es[i].now - es[i].server <= skew
  }

  /** What the clients would see if no row were ever dropped: the script's replies, key by key. */
  function ScriptReplies(c: Config, ts: seq<int>): seq<Reply> {
    seq(|ts|, k requires 0 <= k < |ts| => ReplyAt(c, ts, k))
  }

  /** The script's answer to ts and then one more reading. */
  lemma {:induction false} BucketOfPrefix(c: Config, ts: seq<int>, now: int, k: nat)
    requires k <= |ts|
    ensures BucketAt(c, ts + [now], k) == BucketAt(c, ts, k)
    ensures k < |ts| ==> ReplyAt(c, ts + [now], k) == ReplyAt(c, ts, k)
  {
    if k > 0 {
      BucketOfPrefix(c, ts, now, k - 1);
    }
  }

  lemma ScriptRepliesGrow(c: Config, ts: seq<int>, now: int)
    ensures ScriptReplies(c, ts + [now]) == ScriptReplies(c, ts) + [Script(c, BucketAt(c, ts, |ts|), now).1]
    ensures BucketAt(c, ts + [now], |ts| + 1) == Script(c, BucketAt(c, ts, |ts|), now).0
  {
    forall k | 0 <= k <= |ts|
      ensures BucketAt(c, ts + [now], k) == BucketAt(c, ts, k)
      ensures k < |ts| ==> ReplyAt(c, ts + [now], k) == ReplyAt(c, ts, k)
    {
      BucketOfPrefix(c, ts, now, k);
    }
    var after := ts + [now];
    assert after[|ts|] == now;
  }

  lemma EnoughRefilled(c: Config, dt: int)
    requires Full(c) <= c.rate * dt
    ensures dt > 0 && c.capacity as real <= Earned(c, dt)
  {
    AvailableWithin(c, None, 0);
    IntTimesKeepsOrder(1, dt, c.rate);
    IntTimesKeepsOrder(dt, 0, c.rate);
    AddFractions(0, dt, c.rate, c.periodMs);
    DivideCompare(dt * c.rate, c.capacity, c.periodMs);
  }

  /** A bucket that has had the time to fill is as good as no bucket. */
  lemma FilledIsFresh(c: Config, b: Bucket, now: int)
    requires b.tokens >= 0.0 && Full(c) <= c.rate * (now - b.lastUpdate)
    ensures Script(c, Some(b), now) == Script(c, None, now)
  {
    assert Refill(c, Some(b), now) == Refill(c, None, now) by {
      EnoughRefilled(c, now - b.lastUpdate);
    }
  }

  /** How the store's row for a key relates to the bucket that is never dropped. */
  ghost predicate Shadows(c: Config, keep: int, skew: int, t: Table, key: string, b: Option<Bucket>, server: int) {
    && (key in t ==> b == Some(t[key].bucket) && t[key].bucket.lastUpdate + keep - skew <= t[key].expiresAt)
    && (key !in t && b.Some? ==> b.value.lastUpdate + keep - skew < server)
    && (b.Some? ==> b.value.tokens >= 0.0 && b.value.lastUpdate <= server + skew)
  }

  /** A key is gone for so long only if its bucket would have filled meanwhile. */
  predicate Tolerates(c: Config, keep: int, skew: int) {
    Full(c) <= c.rate * (keep + 1 - 2 * skew)
  }

  lemma SameAnswer(c: Config, keep: int, skew: int, t: Table, key: string, b: Option<Bucket>, now: int, server: int)
    requires Shadows(c, keep, skew, t, key, b, server) && Tolerates(c, keep, skew) && now >= server - skew
    ensures Script(c, Live(t, key, server), now) == Script(c, b, now)
  {
    if Live(t, key, server) != b {
      assert b.value.lastUpdate + keep - skew < server;
      IntTimesKeepsOrder(keep + 1 - 2 * skew, now - b.value.lastUpdate, c.rate);
      FilledIsFresh(c, b.value, now);
    }
  }

  lemma ScriptStamps(c: Config, b: Option<Bucket>, now: int)
    requires b.Some? ==> b.value.tokens >= 0.0
    ensures
      var (b', reply) := Script(c, b, now);
      if reply.allowed
      then b'.Some? && b'.value.tokens >= 0.0 && (b'.value.lastUpdate == now || b'.value.lastUpdate == Kept(b, now))
      else b' == b
  {}

  function Kept(b: Option<Bucket>, now: int): int {
    if b.Some? then b.value.lastUpdate else now
  }

  lemma ShadowsOnRequest(c: Config, keep: int, skew: int, t: Table, key: string, b: Option<Bucket>, now: int,
                         server: int)
    requires Shadows(c, keep, skew, t, key, b, server) && Tolerates(c, keep, skew) && -skew <= now - server <= skew
    ensures Shadows(c, keep, skew, Evaluate(c, keep, t, key, now, server).0, key, Script(c, b, now).0, server)
    ensures Evaluate(c, keep, t, key, now, server).1 == Script(c, b, now).1
  {
    SameAnswer(c, keep, skew, t, key, b, now, server);
    ScriptStamps(c, b, now);
    if !Script(c, b, now).1.allowed && Live(t, key, server) != b {
      ScriptStamps(c, None, now);
    }
  }

  lemma {:induction false} StoreShadowsScript(c: Config, keep: int, skew: int, es: seq<Event>, key: string, server: int)
    requires Honest(es, skew) && Tolerates(c, keep, skew) && (es != [] ==> Last(es).server <= server)
    ensures
      var ts := Readings(es, key);
      Shadows(c, keep, skew, TableAfter(c, keep, es), key, BucketAt(c, ts, |ts|), server) &&
      Replies(c, keep, es, key) == ScriptReplies(c, ts)
  {
    if es != [] {
      var rest, e := Front(es), Last(es);
      StoreShadowsScript(c, keep, skew, rest, key, e.server);
      var ts := Readings(rest, key);
      if Concerns(e, key) {
        ShadowsOnRequest(c, keep, skew, TableAfter(c, keep, rest), key, BucketAt(c, ts, |ts|), e.now, e.server);
        ScriptRepliesGrow(c, ts, e.now);
      } else {
        assert Readings(es, key) == ts && Replies(c, keep, es, key) == Replies(c, keep, rest, key);
        ShadowsOnOther(c, keep, skew, es, key, BucketAt(c, ts, |ts|));
      }
      var now := Readings(es, key);
      ShadowsLater(c, keep, skew, TableAfter(c, keep, es), key, BucketAt(c, now, |now|), e.server, server);
    }
  }

  lemma ShadowsOnOther(c: Config, keep: int, skew: int, es: seq<Event>, key: string, b: Option<Bucket>)
    requires es != [] && !Concerns(Last(es), key)
    requires Shadows(c, keep, skew, TableAfter(c, keep, Front(es)), key, b, Last(es).server)
    ensures Shadows(c, keep, skew, TableAfter(c, keep, es), key, b, Last(es).server)
  {}

  lemma ShadowsLater(c: Config, keep: int, skew: int, t: Table, key: string, b: Option<Bucket>, server: int, later: int)
    requires Shadows(c, keep, skew, t, key, b, server) && server <= later
    ensures Shadows(c, keep, skew, t, key, b, later)
  {}

  /** Each client sees the script run on its own readings, as though nothing were ever dropped. */
  ghost predicate ExpiryInvisible(c: Config, keep: int, skew: int) {
    forall es: seq<Event>, key: string | Honest(es, skew) ::
      Replies(c, keep, es, key) == ScriptReplies(c, Readings(es, key))
  }

  // A run that shows the condition cannot be relaxed: empty the bucket with a fast clock, come back
  // just after the row is dropped with a slow one.

  function Repeat(es: seq<Event>, e: Event, n: nat): seq<Event> {
    if n == 0 then es else Repeat(es, e, n - 1) + [e]
  }

  lemma {:induction false} RepeatLength(es: seq<Event>, e: Event, n: nat)
    ensures |Repeat(es, e, n)| == |es| + n
    ensures forall i :: 0 <= i < |es| + n ==> Repeat(es, e, n)[i] == if i < |es| then es[i] else e
  {
    if n > 0 {
      RepeatLength(es, e, n - 1);
    }
  }

  lemma {:induction false} RepeatReadings(es: seq<Event>, e: Event, n: nat)
    requires e.Request?
    ensures Readings(Repeat(es, e, n), e.key) == Readings(es, e.key) + seq(n, _ => e.now)
  {
    if n > 0 {
      RepeatReadings(es, e, n - 1);
      assert Front(Repeat(es, e, n)) == Repeat(es, e, n - 1);
    }
  }

  /** One request against a row that stands for s, on the store and on the integers. */
  lemma StoreStep(c: Config, keep: int, t: Table, e: Event, s: Option<Scaled>)
    requires keep >= 0 && e.Request? && Within(c, s) && Live(t, e.key, e.server) == Unscale(c, s)
    ensures
      var (t', reply) := Evaluate(c, keep, t, e.key, e.now, e.server);
      Live(t', e.key, e.server) == Unscale(c, ScaledScript(c, s, e.now).0) &&
      reply == ScaledScript(c, s, e.now).1 &&
      if reply.allowed then e.key in t' && t'[e.key].expiresAt == e.server + keep else t' == t
  {
    ScriptIsScaled(c, s, e.now);
  }

  /** The table holds what n requests of a burst leave, and if there were any, kept from now on. */
  ghost predicate HoldsBurst(c: Config, keep: int, t: Table, e: Event, n: nat)
    requires e.Request?
  {
    && Live(t, e.key, e.server) == Unscale(c, Burst(c, None, e.now, n))
    && (n > 0 ==> e.key in t && t[e.key].expiresAt == e.server + keep)
  }

  lemma HoldsOneMore(c: Config, keep: int, t: Table, e: Event, n: nat)
    requires keep >= 0 && e.Request? && HoldsBurst(c, keep, t, e, n)
    ensures
      var (t', reply) := Evaluate(c, keep, t, e.key, e.now, e.server);
      HoldsBurst(c, keep, t', e, n + 1) && reply == ScaledScript(c, Burst(c, None, e.now, n), e.now).1
  {
    BurstServed(c, None, e.now, n);
    StoreStep(c, keep, t, e, Burst(c, None, e.now, n));
    if n == 0 {
      AvailableWithin(c, None, e.now);
    }
  }

  lemma RepeatOneMore(es: seq<Event>, e: Event, n: nat)
    ensures Repeat(es, e, n + 1) != [] && Last(Repeat(es, e, n + 1)) == e
    ensures Front(Repeat(es, e, n + 1)) == Repeat(es, e, n)
  {}

  /** Repeated requests of a client with no live row are served like a burst on a fresh bucket. */
  lemma {:induction false} StoreBurst(c: Config, keep: int, es: seq<Event>, e: Event, n: nat)
    requires keep >= 0 && e.Request? && Live(TableAfter(c, keep, es), e.key, e.server) == None
    ensures HoldsBurst(c, keep, TableAfter(c, keep, Repeat(es, e, n)), e, n)
  {
    if n > 0 {
      StoreBurst(c, keep, es, e, n - 1);
      RepeatOneMore(es, e, n - 1);
      HoldsOneMore(c, keep, TableAfter(c, keep, Repeat(es, e, n - 1)), e, n - 1);
    }
  }

  /** The last reply of a repetition is what its last request gets from the table before it. */
  lemma LastReply(c: Config, keep: int, es: seq<Event>, e: Event, n: nat)
    requires e.Request?
    ensures
      var replies := Replies(c, keep, Repeat(es, e, n + 1), e.key);
      replies != [] &&
      replies[|replies| - 1] == Evaluate(c, keep, TableAfter(c, keep, Repeat(es, e, n)), e.key, e.now, e.server).1
  {
    RepeatOneMore(es, e, n);
  }

  lemma LastOfBurst(c: Config, keep: int, es: seq<Event>, e: Event, n: nat)
    requires keep >= 0 && e.Request? && Live(TableAfter(c, keep, es), e.key, e.server) == None
    ensures
      var replies := Replies(c, keep, Repeat(es, e, n + 1), e.key);
      replies != [] && replies[|replies| - 1] == ScaledScript(c, Burst(c, None, e.now, n), e.now).1
  {
    LastReply(c, keep, es, e, n);
    StoreBurst(c, keep, es, e, n);
    HoldsOneMore(c, keep, TableAfter(c, keep, Repeat(es, e, n)), e, n);
  }

  lemma {:induction false} BurstStamp(c: Config, now: int, n: nat)
    requires n >= 1
    ensures Burst(c, None, now, n).Some? && Burst(c, None, now, n).value.lastUpdate == now
  {
    if n == 1 {
      AvailableWithin(c, None, now);
      assert Burst(c, None, now, 0) == None;
    } else {
      BurstStamp(c, now, n - 1);
    }
  }

  lemma EmptiedThenLate(c: Config, early: int, late: int)
    requires c.rate * (late - early) < Full(c)
    ensures Within(c, Burst(c, None, early, c.capacity))
    ensures Available(c, Burst(c, None, early, c.capacity), late) < Full(c)
  {
    var s := Burst(c, None, early, c.capacity);
    BurstServed(c, None, early, c.capacity);
    BurstStamp(c, early, c.capacity);
    AvailableWithin(c, None, 0);
    assert Available(c, s, early) == 0;
    if late >= early {
      RefillComposes(c, s, early, late);
    }
  }

  lemma LateBurstDenied(c: Config, early: int, late: int)
    requires c.rate * (late - early) < Full(c)
    ensures
      var ts := seq(c.capacity, _ => early) + seq(c.capacity, _ => late);
      !Admits(c, ts, 2 * c.capacity - 1)
  {
    var n, ts := c.capacity, seq(c.capacity, _ => early) + seq(c.capacity, _ => late);
    TwoBursts(c, ts, early, late);
    AdmitsOnIntegers(c, ts, 2 * n - 1);
    SecondBurstFallsShort(c, early, late);
  }

  lemma TwoBursts(c: Config, ts: seq<int>, early: int, late: int)
    requires ts == seq(c.capacity, _ => early) + seq(c.capacity, _ => late)
    ensures ScaledAt(c, ts, 2 * c.capacity - 1) == Burst(c, Burst(c, None, early, c.capacity), late, c.capacity - 1)
  {
    var n := c.capacity;
    SameReadingIsBurst(c, ts, 0, n);
    assert ScaledAt(c, ts, 0) == None;
    SameReadingIsBurst(c, ts, n, n - 1);
  }

  lemma SecondBurstFallsShort(c: Config, early: int, late: int)
    requires c.rate * (late - early) < Full(c)
    ensures Available(c, Burst(c, Burst(c, None, early, c.capacity), late, c.capacity - 1), late) < c.periodMs
  {
    EmptiedThenLate(c, early, late);
    BurstServed(c, Burst(c, None, early, c.capacity), late, c.capacity - 1);
  }

  /** Emptied with a clock `skew` ahead, then asked again just after the drop with one `skew` behind. */
  function DropRun(c: Config, keep: int, skew: int): seq<Event> {
    var gone := keep + 1;
    Repeat(Repeat([], Request("client", skew, 0), c.capacity), Request("client", gone - skew, gone), c.capacity)
  }

  lemma DropRunHonest(c: Config, keep: int, skew: int)
    requires skew >= 0 && keep >= 0
    ensures Honest(DropRun(c, keep, skew), skew)
  {
    var n, gone := c.capacity, keep + 1;
    var early, late := Request("client", skew, 0), Request("client", gone - skew, gone);
    RepeatLength([], early, n);
    RepeatLength(Repeat([], early, n), late, n);
  }

  lemma DropRunReadings(c: Config, keep: int, skew: int)
    ensures Readings(DropRun(c, keep, skew), "client")
         == seq(c.capacity, _ => skew) + seq(c.capacity, _ => keep + 1 - skew)
  {
    var n, gone := c.capacity, keep + 1;
    var early, late := Request("client", skew, 0), Request("client", gone - skew, gone);
    FirstReadings(early, n);
    RepeatReadings(Repeat([], early, n), late, n);
  }

  lemma FirstReadings(e: Event, n: nat)
    requires e.Request?
    ensures Readings(Repeat([], e, n), e.key) == seq(n, _ => e.now)
  {
    RepeatReadings([], e, n);
    assert [] + seq(n, _ => e.now) == seq(n, _ => e.now);
  }

  lemma DropRunServed(c: Config, keep: int, skew: int)
    requires keep >= 0
    ensures
      var replies := Replies(c, keep, DropRun(c, keep, skew), "client");
      replies != [] && replies[|replies| - 1].allowed
  {
    var early, late := Request("client", skew, 0), Request("client", keep + 1 - skew, keep + 1);
    BurstDropped(c, keep, early);
    FullBurstServed(c, keep, Repeat([], early, c.capacity), late);
  }

  /** A full burst's row is gone once its time is up. */
  lemma BurstDropped(c: Config, keep: int, e: Event)
    requires keep >= 0 && e.Request?
    ensures Live(TableAfter(c, keep, Repeat([], e, c.capacity)), e.key, e.server + keep + 1) == None
  {
    StoreBurst(c, keep, [], e, c.capacity);
  }

  /** A client with no live row can empty a full bucket. */
  lemma FullBurstServed(c: Config, keep: int, es: seq<Event>, e: Event)
    requires keep >= 0 && e.Request? && Live(TableAfter(c, keep, es), e.key, e.server) == None
    ensures
      var replies := Replies(c, keep, Repeat(es, e, c.capacity), e.key);
      replies != [] && replies[|replies| - 1].allowed
  {
    var n := c.capacity - 1;
    LastOfBurst(c, keep, es, e, n);
    BurstServed(c, None, e.now, n);
  }

  lemma ExpiryShows(c: Config, keep: int, skew: int)
    requires skew >= 0 && keep >= 0 && !Tolerates(c, keep, skew)
    ensures Honest(DropRun(c, keep, skew), skew)
    ensures
      var es := DropRun(c, keep, skew);
      Replies(c, keep, es, "client") != ScriptReplies(c, Readings(es, "client"))
  {
    var n, late := c.capacity, keep + 1 - skew;
    DropRunHonest(c, keep, skew);
    DropRunReadings(c, keep, skew);
    DropRunServed(c, keep, skew);
    LateBurstDenied(c, skew, late);
    var replies, ts := Replies(c, keep, DropRun(c, keep, skew), "client"), seq(n, _ => skew) + seq(n, _ => late);
    assert Readings(DropRun(c, keep, skew), "client") == ts;
    assert ScriptReplies(c, ts)[2 * n - 1] == ReplyAt(c, ts, 2 * n - 1);
    assert |ScriptReplies(c, ts)| == 2 * n;
  }

  /**
    Exactly when dropping idle keys is invisible: with every gateway's clock within `skew` of the
    server's, each client's replies are those of a bucket that is never dropped, on every run, if
    and only if a bucket fills up in the time a row is kept less twice the skew.
  */
  lemma InvisibleExactly(c: Config, keep: int, skew: int)
    requires skew >= 0 && keep >= 0
    ensures ExpiryInvisible(c, keep, skew) <==> Tolerates(c, keep, skew)
  {
    if Tolerates(c, keep, skew) {
      forall es: seq<Event>, key: string | Honest(es, skew)
        ensures Replies(c, keep, es, key) == ScriptReplies(c, Readings(es, key))
      {
        StoreShadowsScript(c, keep, skew, es, key, if es == [] then 0 else Last(es).server);
      }
    } else {
      ExpiryShows(c, keep, skew);
    }
  }

  /** The script's own TTL: invisible exactly for the skews that leave a bucket time to fill. */
  lemma ScriptExpiryInvisible(c: Config, skew: int)
    requires skew >= 0
    ensures ExpiryInvisible(c, TtlMs(c), skew) <==> Full(c) <= c.rate * (TtlMs(c) + 1 - 2 * skew)
    ensures 2 * skew * c.rate <= Full(c) ==> ExpiryInvisible(c, TtlMs(c), skew)
  {
    TtlIsPositive(c);
    InvisibleExactly(c, TtlMs(c), skew);
    if 2 * skew * c.rate <= Full(c) {
      TtlIsTwiceTheFillTime(c);
      HalfTtlTolerated(c, TtlMs(c), skew);
    }
  }

  /** Half the TTL is room enough: any skew whose double costs no more refill than a full bucket. */
  lemma HalfTtlTolerated(c: Config, keep: int, skew: int)
    requires 2 * Full(c) <= keep * c.rate && 2 * skew * c.rate <= Full(c)
    ensures Tolerates(c, keep, skew)
  {
    assert c.rate * (keep + 1 - 2 * skew) == keep * c.rate + c.rate - 2 * skew * c.rate;
  }

  // ---------------------------------------------------------------------------------------
  // What one client can get out of the shared store.

  function Verdicts(replies: seq<Reply>): seq<bool> {
    seq(|replies|, k requires 0 <= k < |replies| => replies[k].allowed)
  }

  lemma {:induction false} FirstReading(es: seq<Event>, skew: int, key: string)
    requires Honest(es, skew) && Readings(es, key) != []
    ensures Readings(es, key)[0] >= es[0].server - skew
  {
    var rest, e := Front(es), Last(es);
    if Readings(rest, key) != [] {
      FirstReading(rest, skew, key);
    } else {
      assert Concerns(e, key) && Readings(es, key) == [e.now];
    }
  }

  lemma EarnedGrows(c: Config, dt: int, du: int)
    requires dt <= du
    ensures Earned(c, dt) <= Earned(c, du)
  {
    EarnedAdds(c, dt, du - dt);
    assert Earned(c, du - dt) >= 0.0;
  }

  /**
    Over any run of the shared store, with other clients, expiry, reaping, and gateway clocks
    within `skew` of the server's, a client is admitted no more than its capacity and the refill of
    the elapsed server time plus twice the skew.
  */
  lemma ClientAdmissionBound(c: Config, skew: int, es: seq<Event>, key: string)
    requires Honest(es, skew) && Tolerates(c, TtlMs(c), skew) && Readings(es, key) != []
    ensures
      var verdicts := Verdicts(Replies(c, TtlMs(c), es, key));
      Count(verdicts, 0, |verdicts|) as real
      <= c.capacity as real + Earned(c, Last(es).server - es[0].server + 2 * skew)
  {
    var ts := Readings(es, key);
    StampWithinSkew(c, skew, es, key);
    VerdictsAreDecisions(c, ts);
    var b := AdmissionBound(c, ts, |ts|);
    EarnedGrows(c, b.lastUpdate - ts[0], Last(es).server - es[0].server + 2 * skew);
  }

  lemma VerdictsAreDecisions(c: Config, ts: seq<int>)
    ensures Verdicts(ScriptReplies(c, ts)) == Decisions(c, ts)
  {}

  /** The client's replies are the script's, and its bucket is stamped no further from its first reading than this. */
  lemma StampWithinSkew(c: Config, skew: int, es: seq<Event>, key: string)
    requires Honest(es, skew) && Tolerates(c, TtlMs(c), skew) && Readings(es, key) != []
    ensures
      var ts := Readings(es, key);
      && Replies(c, TtlMs(c), es, key) == ScriptReplies(c, ts)
      && (BucketAt(c, ts, |ts|).Some? ==>
            BucketAt(c, ts, |ts|).value.lastUpdate - ts[0] <= Last(es).server - es[0].server + 2 * skew)
  {
    StoreShadowsScript(c, TtlMs(c), skew, es, key, Last(es).server);
    FirstReading(es, skew, key);
  }
}
