/** Go's clock: instants and durations counted in nanoseconds. */
module Clock {
  const NANOS_PER_MILLI := 1_000_000
  const NANOS_PER_SECOND := 1_000_000_000

  /** Seconds since the epoch, rounded down. */
  function Unix(ns: int): int {
    ns / NANOS_PER_SECOND
  }

  /** The instant falls in the second that begins s seconds after the epoch. */
  predicate InSecond(ns: int, s: int) {
    s * 1_000_000_000 <= ns < (s + 1) * 1_000_000_000
  }

  ghost predicate SameSecond(m: int, n: int) {
    exists s :: InSecond(m, s) && InSecond(n, s)
  }

  /** The Unix time of an instant, before the epoch as after it, is the second it falls in. */
  lemma UnixIsItsSecond(ns: int, s: int)
    ensures Unix(ns) == s <==> InSecond(ns, s)
  {}

  lemma SameSecondIsSameUnix(m: int, n: int)
    ensures SameSecond(m, n) <==> Unix(m) == Unix(n)
  {
    UnixIsItsSecond(m, Unix(m));
    if s :| InSecond(m, s) && InSecond(n, s) {
      UnixIsItsSecond(m, s);
      UnixIsItsSecond(n, s);
    }
    if Unix(m) == Unix(n) {
      UnixIsItsSecond(n, Unix(n));
      assert InSecond(m, Unix(m)) && InSecond(n, Unix(m));
    }
  }
}
