/**
  The token bucket script of the rate limiter, for one key.

  `Script` follows the Lua text branch by branch over exact reals. `Scaled` is the same bucket
  counted in units of 1 / periodMs of a token, so that every quantity is an integer;
  `ScriptIsScaled` shows that the two agree on every input, and the theorems about whole runs
  are proved on the integers and read back on the script.
*/
module TokenBucket {
  import opened Wrappers

  /** What the script is given: bucket size, tokens per period, and the period in milliseconds. */
  datatype Limits = Limits(capacity: int, rate: int, periodMs: int) {
    predicate Positive() {
      capacity >= 1 && rate >= 1 && periodMs >= 1
    }
  }

  type Config = c: Limits | c.Positive() witness Limits(1, 1, 1)

  /** The hash stored under a key. */
  datatype Bucket = Bucket(tokens: real, lastUpdate: int)

  /** The script's two-element reply; the second element counts thousandths of a token. */
  datatype Reply = Reply(allowed: bool, remaining: int)

  /** The script's locals `tokens` and `last_update` once the refill is done. */
  function Refill(c: Config, stored: Option<Bucket>, now: int): Bucket {
    match stored
    case None => Bucket(c.capacity as real, now)
    case Some(b) =>
      var elapsed := now - b.lastUpdate;
      var refilled := elapsed as real * (c.rate as real / c.periodMs as real);
      if elapsed > 0 && refilled > 0.0 then
        var sum := b.tokens + refilled;
        Bucket(if sum < c.capacity as real then sum else c.capacity as real, now)
      else
        b
  }

  /** One evaluation: what is stored afterwards, and the reply. A denial leaves the store alone. */
  function Script(c: Config, stored: Option<Bucket>, now: int): (r: (Option<Bucket>, Reply)) {
    var b := Refill(c, stored, now);
    if b.tokens >= 1.0 then
      var left := b.tokens - 1.0;
      (Some(Bucket(left, b.lastUpdate)), Reply(true, (left * 1000.0).Floor))
    else
      (stored, Reply(false, (b.tokens * 1000.0).Floor))
  }

  // ---------------------------------------------------------------------------------------
  // The same bucket on integers.

  /** A stored bucket holding `level / periodMs` tokens. */
  datatype Scaled = Scaled(level: int, lastUpdate: int)

  function Full(c: Config): int {
    c.capacity * c.periodMs
  }

  function Min(a: int, b: int): int {
    if a < b then a else b
  }

  function Max(a: int, b: int): int {
    if a < b then b else a
  }

  /** What the bucket would hold at `now`, before anything is taken. */
  function Available(c: Config, s: Option<Scaled>, now: int): int {
    match s
    case None => Full(c)
    case Some(b) => if now > b.lastUpdate then Min(Full(c), b.level + (now - b.lastUpdate) * c.rate) else b.level
  }

  function Stamp(s: Option<Scaled>, now: int): int {
    match s
    case None => now
    case Some(b) => Max(now, b.lastUpdate)
  }

  function ScaledScript(c: Config, s: Option<Scaled>, now: int): (Option<Scaled>, Reply) {
    var a := Available(c, s, now);
    if a >= c.periodMs then
      (Some(Scaled(a - c.periodMs, Stamp(s, now))), Reply(true, (a - c.periodMs) * 1000 / c.periodMs))
    else
      (s, Reply(false, a * 1000 / c.periodMs))
  }

  ghost predicate Within(c: Config, s: Option<Scaled>) {
    s.Some? ==> 0 <= s.value.level <= Full(c)
  }

  /** The stored bucket that a scaled one stands for. */
  function Unscale(c: Config, s: Option<Scaled>): Option<Bucket> {
    match s
    case None => None
    case Some(b) => Some(Bucket(b.level as real / c.periodMs as real, b.lastUpdate))
  }

  lemma TimesKeepsOrder(x: real, y: real, p: real)
    requires p > 0.0
    ensures x < y <==> x * p < y * p
    ensures x == y <==> x * p == y * p
  {
    if x < y {
      assert (y - x) * p > 0.0;
    } else {
      assert (x - y) * p >= 0.0;
      if x > y { assert (x - y) * p > 0.0; }
    }
  }

  lemma IntTimesKeepsOrder(x: int, y: int, p: int)
    requires p >= 1
    ensures x <= y <==> x * p <= y * p
  {
    if x <= y {
      assert (y - x) * p >= 0;
    } else {
      assert (x - y) * p > 0;
    }
  }

  lemma IntTimesReal(a: int, b: int)
    ensures (a * b) as real == a as real * b as real
  {}

  lemma DivideTimes(x: real, p: real)
    requires p > 0.0
    ensures x / p * p == x
  {}

  lemma DivideCompare(a: int, b: int, p: int)
    requires p >= 1
    ensures a as real / p as real < b as real <==> a < b * p
    ensures a as real / p as real == b as real <==> a == b * p
  {
    TimesKeepsOrder(a as real / p as real, b as real, p as real);
    DivideTimes(a as real, p as real);
    IntTimesReal(b, p);
  }

  lemma QuotientBounds(a: int, p: int)
    requires p >= 1
    ensures a / p * p <= a < a / p * p + p
  {
    assert a == p * (a / p) + a % p;
  }

  /** Rounding a fraction down is integer division. */
  lemma FloorOfFraction(a: int, p: int)
    requires p >= 1
    ensures (a as real / p as real * 1000.0).Floor == a * 1000 / p
  {
    ThousandFold(a, p);
    FloorOfQuotient(a * 1000, p);
  }

  lemma ThousandFold(a: int, p: int)
    requires p >= 1
    ensures a as real / p as real * 1000.0 == (a * 1000) as real / p as real
  {}

  lemma FloorOfQuotient(n: int, p: int)
    requires p >= 1
    ensures (n as real / p as real).Floor == n / p
  {
    var q := n / p;
    QuotientBounds(n, p);
    DivideCompare(n, q, p);
    assert (q + 1) * p == q * p + p;
    DivideCompare(n, q + 1, p);
  }

  lemma AddFractions(a: int, e: int, r: int, p: int)
    requires p >= 1
    ensures (a + e * r) as real / p as real == a as real / p as real + e as real * (r as real / p as real)
  {
    IntTimesReal(e, r);
    var x, y, z := a as real / p as real, e as real * (r as real / p as real), p as real;
    DivideTimes(a as real, z);
    DivideTimes(r as real, z);
    assert (x + y) * z == x * z + y * z;
    assert y * z == e as real * (r as real / z * z);
    DivideTimes((a + e * r) as real, z);
    TimesKeepsOrder((a + e * r) as real / z, x + y, z);
  }

  lemma RefillIsScaled(c: Config, s: Option<Scaled>, now: int)
    requires Within(c, s)
    ensures Refill(c, Unscale(c, s), now)
         == Bucket(Available(c, s, now) as real / c.periodMs as real, Stamp(s, now))
  {
    DivideCompare(Full(c), c.capacity, c.periodMs);
    if s.Some? && now > s.value.lastUpdate {
      var elapsed := now - s.value.lastUpdate;
      AddFractions(s.value.level, elapsed, c.rate, c.periodMs);
      DivideCompare(s.value.level + elapsed * c.rate, c.capacity, c.periodMs);
      assert elapsed as real * (c.rate as real / c.periodMs as real) > 0.0;
    }
  }

  lemma AvailableWithin(c: Config, s: Option<Scaled>, now: int)
    requires Within(c, s)
    ensures 0 <= Available(c, s, now) <= Full(c)
    ensures c.periodMs <= Full(c)
  {
    assert (c.capacity - 1) * c.periodMs >= 0;
    if s.Some? && now > s.value.lastUpdate {
      assert (now - s.value.lastUpdate) * c.rate >= 0;
    }
  }

  lemma OneLess(a: int, p: int)
    requires p >= 1
    ensures a as real / p as real - 1.0 == (a - p) as real / p as real
  {
    AddFractions(a - p, 1, p, p);
    assert p as real / p as real == 1.0;
  }

  /** The script on reals and the script on integers give the same reply and the same store. */
  lemma ScriptIsScaled(c: Config, s: Option<Scaled>, now: int)
    requires Within(c, s)
    ensures
      var (s', reply) := ScaledScript(c, s, now);
      Script(c, Unscale(c, s), now) == (Unscale(c, s'), reply) && Within(c, s')
  {
    RefillIsScaled(c, s, now);
    AvailableWithin(c, s, now);
    TakeIsScaled(c, Available(c, s, now));
  }

  /** Comparing, taking and reporting agree between a number of units and the tokens it stands for. */
  lemma TakeIsScaled(c: Config, a: int)
    ensures
      var tokens, p := a as real / c.periodMs as real, c.periodMs;
      (tokens >= 1.0 <==> a >= p) && tokens - 1.0 == (a - p) as real / p as real &&
      (tokens * 1000.0).Floor == a * 1000 / p && ((tokens - 1.0) * 1000.0).Floor == (a - p) * 1000 / p
  {
    DivideCompare(a, 1, c.periodMs);
    OneLess(a, c.periodMs);
    FloorOfFraction(a, c.periodMs);
    FloorOfFraction(a - c.periodMs, c.periodMs);
  }

  // ---------------------------------------------------------------------------------------
  // Runs: request k arrives with its gateway's clock reading ts[k]; the key starts out absent.

  /** The hash stored before request k. */
  function BucketAt(c: Config, ts: seq<int>, k: nat): Option<Bucket>
    requires k <= |ts|
  {
    if k == 0 then None else Script(c, BucketAt(c, ts, k - 1), ts[k - 1]).0
  }

  function ReplyAt(c: Config, ts: seq<int>, k: nat): Reply
    requires k < |ts|
  {
    Script(c, BucketAt(c, ts, k), ts[k]).1
  }

  predicate Admits(c: Config, ts: seq<int>, k: nat)
    requires k < |ts|
  {
    ReplyAt(c, ts, k).allowed
  }

  function ScaledAt(c: Config, ts: seq<int>, k: nat): Option<Scaled>
    requires k <= |ts|
  {
    if k == 0 then None else ScaledScript(c, ScaledAt(c, ts, k - 1), ts[k - 1]).0
  }

  lemma {:induction false} StoredIsScaled(c: Config, ts: seq<int>, k: nat)
    requires k <= |ts|
    ensures BucketAt(c, ts, k) == Unscale(c, ScaledAt(c, ts, k))
    ensures Within(c, ScaledAt(c, ts, k))
  {
    if k > 0 {
      StoredIsScaled(c, ts, k - 1);
      ScriptIsScaled(c, ScaledAt(c, ts, k - 1), ts[k - 1]);
    }
  }

  /** On every run, whatever the clocks do, the integer bucket simulates the stored one. */
  lemma RunIsScaled(c: Config, ts: seq<int>, k: nat)
    requires k < |ts|
    ensures BucketAt(c, ts, k) == Unscale(c, ScaledAt(c, ts, k))
    ensures Within(c, ScaledAt(c, ts, k))
    ensures ReplyAt(c, ts, k) == ScaledScript(c, ScaledAt(c, ts, k), ts[k]).1
  {
    StoredIsScaled(c, ts, k);
    ScriptIsScaled(c, ScaledAt(c, ts, k), ts[k]);
  }

  /** Admission told on the integers alone. */
  lemma AdmitsOnIntegers(c: Config, ts: seq<int>, k: nat)
    requires k < |ts|
    ensures Within(c, ScaledAt(c, ts, k))
    ensures Admits(c, ts, k) <==> c.periodMs <= Available(c, ScaledAt(c, ts, k), ts[k])
  {
    RunIsScaled(c, ts, k);
  }

  // ---------------------------------------------------------------------------------------
  // Bursts: several requests with one clock reading.

  /** The bucket after n requests at `now`. */
  function Burst(c: Config, s: Option<Scaled>, now: int, n: nat): Option<Scaled> {
    if n == 0 then s else ScaledScript(c, Burst(c, s, now, n - 1), now).0
  }

  /** A burst is served exactly as far as the tokens reach. */
  lemma {:induction false} BurstServed(c: Config, s: Option<Scaled>, now: int, n: nat)
    requires Within(c, s)
    ensures Within(c, Burst(c, s, now, n))
    ensures n * c.periodMs <= Available(c, s, now)
            ==> Available(c, Burst(c, s, now, n), now) == Available(c, s, now) - n * c.periodMs
    ensures ScaledScript(c, Burst(c, s, now, n), now).1.allowed <==> (n + 1) * c.periodMs <= Available(c, s, now)
  {
    var a := Available(c, s, now);
    assert (n + 1) * c.periodMs == n * c.periodMs + c.periodMs;
    if n == 0 {
      assert n * c.periodMs == 0;
    } else {
      BurstServed(c, s, now, n - 1);
      ScriptIsScaled(c, Burst(c, s, now, n - 1), now);
      assert n * c.periodMs == (n - 1) * c.periodMs + c.periodMs;
    }
  }

  /**
    The number in the reply is an exact forecast: after a reply with second element m, the next
    m / 1000 requests with the same clock reading are admitted and the one after them is denied.
  */
  lemma RemainingIsExact(c: Config, s: Option<Scaled>, now: int, n: nat)
    requires Within(c, s)
    ensures var (after, reply) := ScaledScript(c, s, now);
            ScaledScript(c, Burst(c, after, now, n), now).1.allowed <==> n < reply.remaining / 1000
  {
    var (after, reply) := ScaledScript(c, s, now);
    var p := c.periodMs;
    ScriptIsScaled(c, s, now);
    BurstServed(c, after, now, n);
    var a := Available(c, after, now);
    ThousandthsToTokens(a, p);
    assert reply.remaining == a * 1000 / p;
    WholeUnits(n + 1, a, p);
  }

  lemma WholeUnits(n: int, a: int, p: int)
    requires p >= 1
    ensures n * p <= a <==> n <= a / p
  {
    QuotientBounds(a, p);
    var d := a / p - n;
    assert d * p == a / p * p - n * p;
    if d >= 0 {
      assert d * p >= 0;
    } else {
      assert (-1 - d) * p >= 0;
    }
  }

  lemma ThousandthsToTokens(a: int, p: int)
    requires p >= 1
    ensures a * 1000 / p / 1000 == a / p
  {
    var q := a / p;
    QuotientBounds(a, p);
    WholeUnits(q * 1000, a * 1000, p);
    WholeUnits(q * 1000 + 1000, a * 1000, p);
    assert (q * 1000) * p == (q * p) * 1000;
    assert (q * 1000 + 1000) * p == (q * p + p) * 1000;
  }
}
