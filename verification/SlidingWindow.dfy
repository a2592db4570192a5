/**
  What the token bucket guarantees over whole runs, stated without mentioning a bucket: the
  reference is the sliding-window rule `Conforms`.
*/
module SlidingWindow {
  import opened Wrappers
  import opened TokenBucket

  function Tally(pick: bool): nat {
    if pick then 1 else 0
  }

  /** How many of pick[i..j] are true. */
  function Count(pick: seq<bool>, i: nat, j: nat): nat
    requires i <= j <= |pick|
  {
    if i == j then 0 else Count(pick, i, j - 1) + Tally(pick[j - 1])
  }

  /** The verdicts the script returns on the clock readings ts. */
  function Decisions(c: Config, ts: seq<int>): seq<bool> {
    seq(|ts|, k requires 0 <= k < |ts| => Admits(c, ts, k))
  }

  ghost predicate NonDecreasing(ts: seq<int>) {
    forall i, j :: 0 <= i <= j < |ts| ==> ts[i] <= ts[j]
  }

  /** n requests, the first at ts[i] and the last at ts[k], are within the limit. */
  predicate Allowance(c: Config, ts: seq<int>, i: nat, k: nat, n: int)
    requires i < |ts| && k < |ts|
  {
    n * c.periodMs <= c.capacity * c.periodMs + c.rate * (ts[k] - ts[i])
  }

  /** The picks among requests i..k are within the limit. */
  predicate WindowHolds(c: Config, ts: seq<int>, pick: seq<bool>, i: nat, k: nat)
    requires |pick| == |ts| && i <= k < |ts|
  {
    Allowance(c, ts, i, k, Count(pick, i, k + 1))
  }

  /** Picking request k as well would keep window i..k within the limit. */
  predicate RoomFor(c: Config, ts: seq<int>, pick: seq<bool>, i: nat, k: nat)
    requires |pick| == |ts| && i <= k < |ts|
  {
    Allowance(c, ts, i, k, Count(pick, i, k) + 1)
  }

  /** The sliding-window rule: no window holds more than capacity + rate * length / period picks. */
  ghost predicate Conforms(c: Config, ts: seq<int>, pick: seq<bool>) {
    |pick| == |ts| &&
    forall i, k :: 0 <= i <= k < |ts| ==> WindowHolds(c, ts, pick, i, k)
  }

  // ---------------------------------------------------------------------------------------
  // Closed form of a bucket that serves an arbitrary selection of the requests.

  function Cost(c: Config, pick: bool): int {
    if pick then c.periodMs else 0
  }

  /** A level after dt milliseconds of refill. */
  function Topped(c: Config, level: int, dt: int): int {
    Min(Full(c), level + c.rate * dt)
  }

  lemma ToppedTwice(c: Config, level: int, dt: int, du: int)
    requires dt >= 0 && du >= 0
    ensures Topped(c, Topped(c, level, dt), du) == Topped(c, level, dt + du)
    ensures level <= Full(c) ==> Topped(c, level, 0) == level
  {
    assert c.rate * (dt + du) == c.rate * dt + c.rate * du;
    assert c.rate * du >= 0;
    assert c.rate * 0 == 0;
  }

  lemma ToppedEnough(c: Config, level: int, dt: int, wait: int)
    requires 0 <= level && wait <= dt && c.periodMs <= c.rate * wait
    ensures c.periodMs <= Topped(c, level, dt)
  {
    IntTimesKeepsOrder(wait, dt, c.rate);
    AvailableWithin(c, None, 0);
  }

  /** The level just before request k when the picked requests are served. */
  function Level(c: Config, ts: seq<int>, pick: seq<bool>, k: nat): int
    requires |pick| == |ts| && k < |ts|
  {
    if k == 0 then Full(c)
    else Topped(c, Level(c, ts, pick, k - 1) - Cost(c, pick[k - 1]), ts[k] - ts[k - 1])
  }

  /** What window i..k leaves for request k. */
  function Slack(c: Config, ts: seq<int>, pick: seq<bool>, i: nat, k: nat): int
    requires |pick| == |ts| && i <= k < |ts|
  {
    Full(c) + c.rate * (ts[k] - ts[i]) - Count(pick, i, k) * c.periodMs
  }

  lemma SlackStep(c: Config, ts: seq<int>, pick: seq<bool>, i: nat, k: nat)
    requires |pick| == |ts| && i <= k && k + 1 < |ts|
    ensures Slack(c, ts, pick, i, k + 1)
         == Slack(c, ts, pick, i, k) - Cost(c, pick[k]) + c.rate * (ts[k + 1] - ts[k])
  {
    var n := Count(pick, i, k);
    assert (n + 1) * c.periodMs == n * c.periodMs + c.periodMs;
    assert c.rate * (ts[k + 1] - ts[i]) == c.rate * (ts[k] - ts[i]) + c.rate * (ts[k + 1] - ts[k]);
  }

  /** The level is the least slack over all windows ending here; `best` is where it is attained. */
  lemma {:induction false} LevelIsLeastSlack(c: Config, ts: seq<int>, pick: seq<bool>, k: nat) returns (best: nat)
    requires |pick| == |ts| && k < |ts|
    ensures forall i :: 0 <= i <= k ==> Level(c, ts, pick, k) <= Slack(c, ts, pick, i, k)
    ensures best <= k && Level(c, ts, pick, k) == Slack(c, ts, pick, best, k)
  {
    best := k;
    assert Slack(c, ts, pick, k, k) == Full(c);
    if k > 0 {
      var before := LevelIsLeastSlack(c, ts, pick, k - 1);
      forall i | 0 <= i < k
        ensures Level(c, ts, pick, k) <= Slack(c, ts, pick, i, k)
      {
        SlackStep(c, ts, pick, i, k - 1);
      }
      SlackStep(c, ts, pick, before, k - 1);
      if Level(c, ts, pick, k) != Full(c) {
        best := before;
      }
    }
  }

  // ---------------------------------------------------------------------------------------
  // The script's bucket is the one that serves the script's own decisions.

  /** Waiting in two steps refills as much as waiting once. */
  lemma RefillComposes(c: Config, s: Option<Scaled>, t: int, u: int)
    requires Within(c, s) && t <= u
    requires s.Some? ==> s.value.lastUpdate <= t
    ensures Available(c, s, u) == Topped(c, Available(c, s, t), u - t)
  {
    if s.Some? {
      var l := s.value.lastUpdate;
      ToppedTwice(c, s.value.level, t - l, u - t);
      ToppedTwice(c, s.value.level, 0, 0);
    } else {
      assert c.rate * (u - t) >= 0;
    }
  }

  /** One request, then a wait until u: the bucket's level moves as a serving level does. */
  lemma TrackStep(c: Config, s: Option<Scaled>, t: int, u: int)
    requires Within(c, s) && t <= u && (s.Some? ==> s.value.lastUpdate <= t)
    ensures
      var level, s' := Available(c, s, t), ScaledScript(c, s, t).0;
      && Within(c, s') && (s'.Some? ==> s'.value.lastUpdate <= t)
      && Available(c, s', u) == Topped(c, level - Cost(c, c.periodMs <= level), u - t)
  {
    var s' := ScaledScript(c, s, t).0;
    AvailableWithin(c, s, t);
    RefillComposes(c, s', t, u);
  }

  /** d[k] is what the integer bucket decides. */
  ghost predicate Decides(c: Config, ts: seq<int>, d: seq<bool>, k: nat)
    requires |d| == |ts| && k < |ts|
  {
    d[k] <==> c.periodMs <= Available(c, ScaledAt(c, ts, k), ts[k])
  }

  lemma {:induction false} ScaledTracksLevel(c: Config, ts: seq<int>, d: seq<bool>, k: nat)
    requires NonDecreasing(ts) && k < |ts| && |d| == |ts| && forall j :: 0 <= j < k ==> Decides(c, ts, d, j)
    ensures Within(c, ScaledAt(c, ts, k))
    ensures ScaledAt(c, ts, k).Some? ==> ScaledAt(c, ts, k).value.lastUpdate <= ts[k]
    ensures Available(c, ScaledAt(c, ts, k), ts[k]) == Level(c, ts, d, k)
  {
    if k > 0 {
      ScaledTracksLevel(c, ts, d, k - 1);
      assert Decides(c, ts, d, k - 1);
      TrackStep(c, ScaledAt(c, ts, k - 1), ts[k - 1], ts[k]);
    }
  }

  lemma BucketTracksLevel(c: Config, ts: seq<int>, k: nat)
    requires NonDecreasing(ts) && k < |ts|
    ensures ScaledAt(c, ts, k).Some? ==> ScaledAt(c, ts, k).value.lastUpdate <= ts[k]
    ensures Available(c, ScaledAt(c, ts, k), ts[k]) == Level(c, ts, Decisions(c, ts), k)
    ensures 0 <= Level(c, ts, Decisions(c, ts), k)
    ensures Admits(c, ts, k) <==> c.periodMs <= Level(c, ts, Decisions(c, ts), k)
  {
    forall j | 0 <= j <= k
      ensures Decides(c, ts, Decisions(c, ts), j)
    {
      AdmitsOnIntegers(c, ts, j);
    }
    ScaledTracksLevel(c, ts, Decisions(c, ts), k);
    AvailableWithin(c, ScaledAt(c, ts, k), ts[k]);
    assert Decides(c, ts, Decisions(c, ts), k);
  }

  // ---------------------------------------------------------------------------------------
  // Main results for a clock that does not go backwards.

  lemma RoomIsSlack(c: Config, ts: seq<int>, pick: seq<bool>, i: nat, k: nat)
    requires |pick| == |ts| && i <= k < |ts|
    ensures RoomFor(c, ts, pick, i, k) <==> c.periodMs <= Slack(c, ts, pick, i, k)
  {
    assert (Count(pick, i, k) + 1) * c.periodMs == Count(pick, i, k) * c.periodMs + c.periodMs;
  }

  /**
    The script admits request k exactly when every window ending at k has room for it. This fixes
    every decision from the earlier ones, with no bucket in sight.
  */
  lemma DecisionIsWindowRule(c: Config, ts: seq<int>, k: nat)
    requires NonDecreasing(ts) && k < |ts|
    ensures Admits(c, ts, k)
       <==> forall i :: 0 <= i <= k ==> RoomFor(c, ts, Decisions(c, ts), i, k)
  {
    var d := Decisions(c, ts);
    BucketTracksLevel(c, ts, k);
    var best := LevelIsLeastSlack(c, ts, d, k);
    forall i | 0 <= i <= k
      ensures RoomFor(c, ts, d, i, k) <==> c.periodMs <= Slack(c, ts, d, i, k)
    {
      RoomIsSlack(c, ts, d, i, k);
    }
  }

  lemma CountBounds(pick: seq<bool>, i: nat, j: nat)
    requires i <= j <= |pick|
    ensures Count(pick, i, j) <= j - i
    ensures (forall k :: i <= k < j ==> !pick[k]) <==> Count(pick, i, j) == 0
    ensures (forall k :: i <= k < j ==> pick[k]) <==> Count(pick, i, j) == j - i
  {}

  lemma AllowanceWaits(c: Config, ts: seq<int>, i: nat, k: nat, n: int)
    requires i <= k && k + 1 < |ts| && ts[k] <= ts[k + 1] && Allowance(c, ts, i, k, n)
    ensures Allowance(c, ts, i, k + 1, n)
  {
    IntTimesKeepsOrder(ts[k] - ts[i], ts[k + 1] - ts[i], c.rate);
  }

  /** A conforming selection never overdraws its bucket. */
  lemma ConformingStaysPositive(c: Config, ts: seq<int>, pick: seq<bool>, k: nat)
    requires Conforms(c, ts, pick) && k < |ts| && pick[k]
    ensures c.periodMs <= Level(c, ts, pick, k)
  {
    var best := LevelIsLeastSlack(c, ts, pick, k);
    assert WindowHolds(c, ts, pick, best, k);
    RoomIsSlack(c, ts, pick, best, k);
  }

  /** A selection that a bucket of its own could serve: there is a token for every pick. */
  ghost predicate Solvent(c: Config, ts: seq<int>, pick: seq<bool>) {
    |pick| == |ts| && forall k :: 0 <= k < |ts| && pick[k] ==> c.periodMs <= Level(c, ts, pick, k)
  }

  lemma {:induction false} SolventWithin(c: Config, ts: seq<int>, pick: seq<bool>, i: nat, k: nat)
    requires NonDecreasing(ts) && Solvent(c, ts, pick) && i <= k < |ts|
    ensures WindowHolds(c, ts, pick, i, k)
  {
    if pick[k] {
      AffordableWithin(c, ts, pick, i, k);
    } else if i < k {
      SolventWithin(c, ts, pick, i, k - 1);
      AllowanceWaits(c, ts, i, k - 1, Count(pick, i, k));
    } else {
      NothingPicked(c, ts, pick, k);
    }
  }

  /** A pick its own bucket can afford keeps every window ending there within the limit. */
  lemma AffordableWithin(c: Config, ts: seq<int>, pick: seq<bool>, i: nat, k: nat)
    requires |pick| == |ts| && i <= k < |ts| && pick[k] && c.periodMs <= Level(c, ts, pick, k)
    ensures WindowHolds(c, ts, pick, i, k)
  {
    var best := LevelIsLeastSlack(c, ts, pick, k);
    RoomIsSlack(c, ts, pick, i, k);
  }

  lemma NothingPicked(c: Config, ts: seq<int>, pick: seq<bool>, k: nat)
    requires |pick| == |ts| && k < |ts| && !pick[k]
    ensures WindowHolds(c, ts, pick, k, k)
  {
    assert Count(pick, k, k + 1) == 0;
    assert c.rate * (ts[k] - ts[k]) == 0;
  }

  /** The sliding-window rule is the bucket itself: it picks out the selections some bucket could serve. */
  lemma SolventExactly(c: Config, ts: seq<int>, pick: seq<bool>)
    requires NonDecreasing(ts)
    ensures Solvent(c, ts, pick) <==> Conforms(c, ts, pick)
  {
    if Solvent(c, ts, pick) {
      forall i, k | 0 <= i <= k < |ts|
        ensures WindowHolds(c, ts, pick, i, k)
      {
        SolventWithin(c, ts, pick, i, k);
      }
    }
    if Conforms(c, ts, pick) {
      forall k | 0 <= k < |ts| && pick[k]
        ensures c.periodMs <= Level(c, ts, pick, k)
      {
        ConformingStaysPositive(c, ts, pick, k);
      }
    }
  }

  /** What the script admits never breaks the sliding-window rule. */
  lemma DecisionsConform(c: Config, ts: seq<int>)
    requires NonDecreasing(ts)
    ensures Conforms(c, ts, Decisions(c, ts))
  {
    forall k | 0 <= k < |ts| && Decisions(c, ts)[k]
      ensures c.periodMs <= Level(c, ts, Decisions(c, ts), k)
    {
      BucketTracksLevel(c, ts, k);
    }
    SolventExactly(c, ts, Decisions(c, ts));
  }

  /** d picks request k exactly if its own bucket holds a token then. */
  ghost predicate GreedyAt(c: Config, ts: seq<int>, d: seq<bool>, k: nat)
    requires |d| == |ts| && k < |ts|
  {
    d[k] <==> c.periodMs <= Level(c, ts, d, k)
  }

  ghost predicate Greedy(c: Config, ts: seq<int>, d: seq<bool>) {
    |d| == |ts| && forall k :: 0 <= k < |ts| ==> GreedyAt(c, ts, d, k)
  }

  lemma DecisionsAreGreedy(c: Config, ts: seq<int>)
    requires NonDecreasing(ts)
    ensures Greedy(c, ts, Decisions(c, ts))
  {
    forall k | 0 <= k < |ts|
      ensures GreedyAt(c, ts, Decisions(c, ts), k)
    {
      BucketTracksLevel(c, ts, k);
    }
  }

  /** A selection that is behind by `lead` requests holds at most that many requests' worth more. */
  lemma {:induction false} LeadCoversLevel(c: Config, ts: seq<int>, d: seq<bool>, pick: seq<bool>, k: nat)
    returns (lead: nat)
    requires Greedy(c, ts, d) && Conforms(c, ts, pick) && k < |ts|
    ensures lead == Count(d, 0, k) - Count(pick, 0, k)
    ensures Level(c, ts, pick, k) <= Level(c, ts, d, k) + lead * c.periodMs
    ensures pick[k] && !d[k] ==> lead >= 1
  {
    lead := 0;
    if k > 0 {
      var before := LeadCoversLevel(c, ts, d, pick, k - 1);
      lead := before + Tally(d[k - 1]) - Tally(pick[k - 1]);
      LeadStep(c, Level(c, ts, pick, k - 1), Level(c, ts, d, k - 1), before, lead, pick[k - 1], d[k - 1],
               ts[k] - ts[k - 1]);
    }
    if pick[k] && !d[k] {
      ConformingStaysPositive(c, ts, pick, k);
      assert GreedyAt(c, ts, d, k);
      LeadIsPositive(lead, Level(c, ts, pick, k), Level(c, ts, d, k), c.periodMs);
    }
  }

  lemma LeadStep(c: Config, x: int, y: int, lead: int, lead': int, pickX: bool, pickY: bool, dt: int)
    requires x <= y + lead * c.periodMs
    requires lead' == lead + Tally(pickY) - Tally(pickX) >= 0
    ensures Topped(c, x - Cost(c, pickX), dt) <= Topped(c, y - Cost(c, pickY), dt) + lead' * c.periodMs
  {
    assert lead' * c.periodMs == lead * c.periodMs + Cost(c, pickY) - Cost(c, pickX);
    assert lead' * c.periodMs >= 0;
  }

  lemma LeadIsPositive(lead: int, x: int, y: int, p: int)
    requires lead >= 0 && p >= 1 && y < p <= x <= y + lead * p
    ensures lead >= 1
  {
    assert lead == 0 ==> lead * p == 0;
  }

  /**
    Greedy optimality. On every prefix, the script admits at least as many requests as any
    selection that obeys the sliding-window rule.
  */
  lemma GreedyIsOptimal(c: Config, ts: seq<int>, pick: seq<bool>, k: nat)
    requires NonDecreasing(ts) && Conforms(c, ts, pick) && k <= |ts|
    ensures Count(pick, 0, k) <= Count(Decisions(c, ts), 0, k)
  {
    DecisionsAreGreedy(c, ts);
    if k > 0 {
      var lead := LeadCoversLevel(c, ts, Decisions(c, ts), pick, k - 1);
    }
  }

  /** So no way of serving the same requests from such a bucket is ever ahead of the script's. */
  lemma GreedyBeatsAnyBucket(c: Config, ts: seq<int>, pick: seq<bool>, k: nat)
    requires NonDecreasing(ts) && Solvent(c, ts, pick) && k <= |ts|
    ensures Count(pick, 0, k) <= Count(Decisions(c, ts), 0, k)
  {
    SolventExactly(c, ts, pick);
    GreedyIsOptimal(c, ts, pick, k);
  }

  /** c allows at least as much as b: no smaller a bucket, no slower a refill. */
  predicate AtLeast(c: Config, b: Config) {
    c.capacity >= b.capacity && c.rate * b.periodMs >= b.rate * c.periodMs
  }

  lemma AllowanceGrows(b: Config, c: Config, ts: seq<int>, i: nat, k: nat, n: int)
    requires AtLeast(c, b) && i < |ts| && k < |ts| && ts[i] <= ts[k]
    requires Allowance(b, ts, i, k, n)
    ensures Allowance(c, ts, i, k, n)
  {
    var over := n - c.capacity;
    IntTimesKeepsOrder(b.capacity, c.capacity, b.periodMs);
    assert over * b.periodMs == n * b.periodMs - c.capacity * b.periodMs;
    CrossMultiply(over, b.rate, c.rate, b.periodMs, c.periodMs, ts[k] - ts[i]);
    assert over * c.periodMs == n * c.periodMs - c.capacity * c.periodMs;
  }

  lemma CrossMultiply(n: int, slow: int, fast: int, p: int, q: int, dt: nat)
    requires p >= 1 && q >= 1 && slow * q <= fast * p && n * p <= slow * dt
    ensures n * q <= fast * dt
  {
    calc {
      (n * q) * p;
      { Swap(n, q, p); }
      (n * p) * q;
    <= { IntTimesKeepsOrder(n * p, slow * dt, q); }
      (slow * dt) * q;
      { Swap(slow, dt, q); }
      (slow * q) * dt;
    <= { if dt >= 1 { IntTimesKeepsOrder(slow * q, fast * p, dt); } }
      (fast * p) * dt;
      { Swap(fast, p, dt); }
      (fast * dt) * p;
    }
    IntTimesKeepsOrder(n * q, fast * dt, p);
  }

  lemma Swap(x: int, y: int, z: int)
    ensures (x * y) * z == (x * z) * y
  {}

  /** What one bucket admits, a more generous one could serve. */
  lemma ConformsToMore(b: Config, c: Config, ts: seq<int>)
    requires NonDecreasing(ts) && AtLeast(c, b)
    ensures Conforms(c, ts, Decisions(b, ts))
  {
    var d := Decisions(b, ts);
    DecisionsConform(b, ts);
    forall i, k | 0 <= i <= k < |ts|
      ensures WindowHolds(c, ts, d, i, k)
    {
      assert WindowHolds(b, ts, d, i, k);
      AllowanceGrows(b, c, ts, i, k, Count(d, i, k + 1));
    }
  }

  /** Raising the capacity or the refill rate never lowers the number admitted on any prefix. */
  lemma MoreGenerousAdmitsMore(b: Config, c: Config, ts: seq<int>, k: nat)
    requires NonDecreasing(ts) && AtLeast(c, b) && k <= |ts|
    ensures Count(Decisions(b, ts), 0, k) <= Count(Decisions(c, ts), 0, k)
  {
    ConformsToMore(b, c, ts);
    GreedyIsOptimal(c, ts, Decisions(b, ts), k);
  }

  /** All the same, a more generous bucket denies what the other admits only when it has admitted more before. */
  lemma OnlyTheLeaderIsDenied(b: Config, c: Config, ts: seq<int>, k: nat)
    requires NonDecreasing(ts) && AtLeast(c, b) && k < |ts| && Admits(b, ts, k) && !Admits(c, ts, k)
    ensures Count(Decisions(b, ts), 0, k) < Count(Decisions(c, ts), 0, k)
  {
    ConformsToMore(b, c, ts);
    DecisionsAreGreedy(c, ts);
    assert Decisions(b, ts)[k] && !Decisions(c, ts)[k];
    var lead := LeadCoversLevel(c, ts, Decisions(c, ts), Decisions(b, ts), k);
  }

  /** A single decision may flip all the same: doubling this rate turns the last verdict into a denial. */
  lemma SingleDecisionMayFlip()
    ensures AtLeast(Limits(1, 2, 10), Limits(1, 1, 10)) && NonDecreasing([0, 9, 10])
    ensures Admits(Limits(1, 1, 10), [0, 9, 10], 2) && !Admits(Limits(1, 2, 10), [0, 9, 10], 2)
  {
    LastOfThree(Limits(1, 1, 10));
    LastOfThree(Limits(1, 2, 10));
  }

  /** At rate 1 the second request is denied and the third admitted; at rate 2 it is the other way round. */
  lemma LastOfThree(c: Config)
    requires c == Limits(1, 1, 10) || c == Limits(1, 2, 10)
    ensures Admits(c, [0, 9, 10], 2) <==> c.rate == 1
  {
    var ts := [0, 9, 10];
    AdmitsOnIntegers(c, ts, 2);
    assert ScaledAt(c, ts, 0) == None;
    assert ScaledAt(c, ts, 1) == Some(Scaled(0, 0));
    assert ScaledAt(c, ts, 2) == Some(if c.rate == 1 then Scaled(0, 0) else Scaled(0, 9));
  }

  /** The tokens refilled in dt milliseconds: rate * dt / period. */
  function Earned(c: Config, dt: int): real {
    dt as real * (c.rate as real / c.periodMs as real)
  }

  /** capacity + rate * (ts[k] - ts[i]) / period, less the picks among requests i..k. */
  function Headroom(c: Config, ts: seq<int>, pick: seq<bool>, i: nat, k: nat): real
    requires |pick| == |ts| && i <= k < |ts|
  {
    c.capacity as real + Earned(c, ts[k] - ts[i]) - Count(pick, i, k + 1) as real
  }

  /** The level left by a picked request, in tokens, is the least headroom over the windows ending there. */
  lemma LevelIsLeastHeadroom(c: Config, ts: seq<int>, pick: seq<bool>, k: nat) returns (best: nat)
    requires |pick| == |ts| && k < |ts| && pick[k]
    ensures
      var tokens := (Level(c, ts, pick, k) - c.periodMs) as real / c.periodMs as real;
      best <= k && tokens == Headroom(c, ts, pick, best, k) &&
      forall i :: 0 <= i <= k ==> tokens <= Headroom(c, ts, pick, i, k)
  {
    var p := c.periodMs;
    best := LevelIsLeastSlack(c, ts, pick, k);
    forall i | 0 <= i <= k
      ensures (Level(c, ts, pick, k) - p) as real / p as real <= Headroom(c, ts, pick, i, k)
    {
      HeadroomIsSlack(c, ts, pick, i, k);
      FractionOrder(Level(c, ts, pick, k) - p, Slack(c, ts, pick, i, k) - p, p);
    }
    HeadroomIsSlack(c, ts, pick, best, k);
  }

  /**
    The tokens stored by an admitted request are the least headroom over all windows ending there;
    `best` is where it is attained.
  */
  lemma StoredTokensClosedForm(c: Config, ts: seq<int>, k: nat) returns (best: nat)
    requires NonDecreasing(ts) && k < |ts| && Admits(c, ts, k)
    ensures BucketAt(c, ts, k + 1).Some? && BucketAt(c, ts, k + 1).value.lastUpdate == ts[k]
    ensures forall i :: 0 <= i <= k ==>
              BucketAt(c, ts, k + 1).value.tokens <= Headroom(c, ts, Decisions(c, ts), i, k)
    ensures best <= k && BucketAt(c, ts, k + 1).value.tokens == Headroom(c, ts, Decisions(c, ts), best, k)
  {
    StoredIsLevel(c, ts, k);
    best := LevelIsLeastHeadroom(c, ts, Decisions(c, ts), k);
  }

  lemma StoredIsLevel(c: Config, ts: seq<int>, k: nat)
    requires NonDecreasing(ts) && k < |ts| && Admits(c, ts, k)
    ensures BucketAt(c, ts, k + 1)
         == Some(Bucket((Level(c, ts, Decisions(c, ts), k) - c.periodMs) as real / c.periodMs as real, ts[k]))
  {
    StoredIsScaled(c, ts, k + 1);
    ScaledAfterAdmission(c, ts, k);
  }

  lemma ScaledAfterAdmission(c: Config, ts: seq<int>, k: nat)
    requires NonDecreasing(ts) && k < |ts| && Admits(c, ts, k)
    ensures ScaledAt(c, ts, k + 1) == Some(Scaled(Level(c, ts, Decisions(c, ts), k) - c.periodMs, ts[k]))
  {
    BucketTracksLevel(c, ts, k);
  }

  lemma FractionOrder(a: int, b: int, p: int)
    requires p >= 1 && a <= b
    ensures a as real / p as real <= b as real / p as real
  {
    TimesKeepsOrder(b as real / p as real, a as real / p as real, p as real);
    DivideTimes(a as real, p as real);
    DivideTimes(b as real, p as real);
  }

  lemma SlackAfter(c: Config, ts: seq<int>, pick: seq<bool>, i: nat, k: nat)
    requires |pick| == |ts| && i <= k < |ts| && pick[k]
    ensures Slack(c, ts, pick, i, k) - c.periodMs
         == c.capacity * c.periodMs + c.rate * (ts[k] - ts[i]) - Count(pick, i, k + 1) * c.periodMs
  {
    var n := Count(pick, i, k);
    assert (n + 1) * c.periodMs == n * c.periodMs + c.periodMs;
  }

  lemma UnitsInTokens(x: int, whole: int, dt: int, rate: int, spent: int, p: int)
    requires p >= 1 && x == whole * p + rate * dt - spent * p
    ensures x as real / p as real == whole as real + dt as real * (rate as real / p as real) - spent as real
  {
    AddFractions(whole * p - spent * p, dt, rate, p);
    DivideCompare((whole - spent) * p, whole - spent, p);
    assert (whole - spent) * p == whole * p - spent * p;
  }

  lemma HeadroomIsSlack(c: Config, ts: seq<int>, pick: seq<bool>, i: nat, k: nat)
    requires |pick| == |ts| && i <= k < |ts| && pick[k]
    ensures Headroom(c, ts, pick, i, k) == (Slack(c, ts, pick, i, k) - c.periodMs) as real / c.periodMs as real
  {
    SlackAfter(c, ts, pick, i, k);
    UnitsInTokens(Slack(c, ts, pick, i, k) - c.periodMs, c.capacity, ts[k] - ts[i], c.rate,
                  Count(pick, i, k + 1), c.periodMs);
  }

  /** Requests i..k are within the limit even if every one of them is served. */
  predicate WholeWindowHolds(c: Config, ts: seq<int>, i: nat, k: nat)
    requires i <= k < |ts|
  {
    Allowance(c, ts, i, k, k + 1 - i)
  }

  /** A sequence of requests is admitted in full exactly when every window of it is within the limit. */
  lemma FullyAdmitted(c: Config, ts: seq<int>)
    requires NonDecreasing(ts)
    ensures (forall k :: 0 <= k < |ts| ==> Admits(c, ts, k))
       <==> (forall i, k :: 0 <= i <= k < |ts| ==> WholeWindowHolds(c, ts, i, k))
  {
    if forall k :: 0 <= k < |ts| ==> Admits(c, ts, k) {
      DecisionsConform(c, ts);
      forall i, k | 0 <= i <= k < |ts|
        ensures WholeWindowHolds(c, ts, i, k)
      {
        assert WindowHolds(c, ts, Decisions(c, ts), i, k);
        CountBounds(Decisions(c, ts), i, k + 1);
      }
    }
    if forall i, k :: 0 <= i <= k < |ts| ==> WholeWindowHolds(c, ts, i, k) {
      forall k | 0 <= k < |ts|
        ensures Admits(c, ts, k)
      {
        PrefixAdmitted(c, ts, k);
      }
    }
  }

  lemma {:induction false} PrefixAdmitted(c: Config, ts: seq<int>, k: nat)
    requires NonDecreasing(ts) && k < |ts|
    requires forall i, k :: 0 <= i <= k < |ts| ==> WholeWindowHolds(c, ts, i, k)
    ensures forall j :: 0 <= j <= k ==> Admits(c, ts, j)
  {
    if k > 0 {
      PrefixAdmitted(c, ts, k - 1);
    }
    forall i | 0 <= i <= k
      ensures RoomFor(c, ts, Decisions(c, ts), i, k)
    {
      CountBounds(Decisions(c, ts), i, k);
      assert WholeWindowHolds(c, ts, i, k);
    }
    DecisionIsWindowRule(c, ts, k);
  }

  // ---------------------------------------------------------------------------------------
  // Clocks in any order: many gateways write with their own readings.

  /** From b to b', with n tokens spent: time does not run back, and no token comes from nowhere. */
  predicate Conserved(c: Config, b: Bucket, b': Bucket, n: nat) {
    && b.lastUpdate <= b'.lastUpdate
    && n as real + b'.tokens <= b.tokens + Earned(c, b'.lastUpdate - b.lastUpdate)
  }

  lemma ScriptConserves(c: Config, b: Bucket, now: int)
    ensures
      var (stored, reply) := Script(c, Some(b), now);
      stored.Some? && Conserved(c, b, stored.value, Tally(reply.allowed)) &&
      (b.tokens >= 0.0 ==> stored.value.tokens >= 0.0)
  {
    assert Earned(c, 0) == 0.0;
  }

  lemma EarnedAdds(c: Config, dt: int, du: int)
    ensures Earned(c, dt) + Earned(c, du) == Earned(c, dt + du)
  {
    var r := c.rate as real / c.periodMs as real;
    assert dt as real * r + du as real * r == (dt as real + du as real) * r;
  }

  /** The step from the bucket after request k - 1 to the bucket after request k is a fair one. */
  ghost predicate ConservedAt(c: Config, buckets: seq<Bucket>, d: seq<bool>, k: nat)
    requires |buckets| == |d| && 1 <= k < |d|
  {
    Conserved(c, buckets[k - 1], buckets[k], Tally(d[k]))
  }

  lemma {:induction false} ConservedThroughout(c: Config, buckets: seq<Bucket>, d: seq<bool>, i: nat, j: nat)
    requires |buckets| == |d| && i <= j < |d|
    requires forall k :: 1 <= k < |d| ==> ConservedAt(c, buckets, d, k)
    ensures Conserved(c, buckets[i], buckets[j], Count(d, i + 1, j + 1))
  {
    if i == j {
      assert Earned(c, 0) == 0.0;
    } else {
      ConservedThroughout(c, buckets, d, i, j - 1);
      assert ConservedAt(c, buckets, d, j);
      EarnedAdds(c, buckets[j - 1].lastUpdate - buckets[i].lastUpdate,
                 buckets[j].lastUpdate - buckets[j - 1].lastUpdate);
    }
  }

  /** Once admitted, always stored. */
  lemma {:induction false} StaysStored(c: Config, ts: seq<int>, k: nat)
    requires 1 <= k <= |ts|
    ensures BucketAt(c, ts, k).Some? && BucketAt(c, ts, k).value.tokens >= 0.0
  {
    if k == 1 {
      FirstBucket(c, ts);
    } else {
      StaysStored(c, ts, k - 1);
      ScriptConserves(c, BucketAt(c, ts, k - 1).value, ts[k - 1]);
    }
  }

  /** The buckets stored after each of the first n requests. */
  ghost function Trail(c: Config, ts: seq<int>, n: nat): (buckets: seq<Bucket>)
    requires n <= |ts|
    ensures |buckets| == n
    ensures forall k :: 0 <= k < n ==> Some(buckets[k]) == BucketAt(c, ts, k + 1) && buckets[k].tokens >= 0.0
  {
    if n == 0 then []
    else
      StaysStored(c, ts, n);
      Trail(c, ts, n - 1) + [BucketAt(c, ts, n).value]
  }

  lemma TrailConserved(c: Config, ts: seq<int>, k: nat)
    requires 1 <= k < |ts|
    ensures ConservedAt(c, Trail(c, ts, |ts|), Decisions(c, ts), k)
  {
    var b := Trail(c, ts, |ts|)[k - 1];
    assert Some(b) == BucketAt(c, ts, k);
    ScriptConserves(c, b, ts[k]);
  }

  /**
    Whatever the order of the clock readings, between any two moments of a key's life the tokens
    spent and the tokens kept are covered by the tokens held before and the refill earned by the
    advance of `last_update`, which never moves back.
  */
  lemma TokensAreConserved(c: Config, ts: seq<int>, i: nat, j: nat) returns (b: Bucket, b': Bucket)
    requires 1 <= i <= j <= |ts|
    ensures BucketAt(c, ts, i) == Some(b) && BucketAt(c, ts, j) == Some(b') && b'.tokens >= 0.0
    ensures Conserved(c, b, b', Count(Decisions(c, ts), i, j))
  {
    b, b' := Trail(c, ts, |ts|)[i - 1], Trail(c, ts, |ts|)[j - 1];
    forall k | 1 <= k < |ts|
      ensures ConservedAt(c, Trail(c, ts, |ts|), Decisions(c, ts), k)
    {
      TrailConserved(c, ts, k);
    }
    ConservedThroughout(c, Trail(c, ts, |ts|), Decisions(c, ts), i - 1, j - 1);
  }

  /** With skewed clocks, a key is never admitted more than its capacity and its recorded time allow. */
  lemma AdmissionBound(c: Config, ts: seq<int>, j: nat) returns (b: Bucket)
    requires 1 <= j <= |ts|
    ensures BucketAt(c, ts, j) == Some(b) && b.tokens >= 0.0 && ts[0] <= b.lastUpdate
    ensures Count(Decisions(c, ts), 0, j) as real + b.tokens <= c.capacity as real + Earned(c, b.lastUpdate - ts[0])
  {
    var first;
    first, b := TokensAreConserved(c, ts, 1, j);
    FirstBucket(c, ts);
    CountSplits(Decisions(c, ts), j);
  }

  lemma FirstBucket(c: Config, ts: seq<int>)
    requires 1 <= |ts|
    ensures Admits(c, ts, 0)
    ensures BucketAt(c, ts, 1) == Some(Bucket(c.capacity as real - 1.0, ts[0]))
  {
    assert BucketAt(c, ts, 0) == None;
  }

  lemma {:induction false} CountSplits(pick: seq<bool>, j: nat)
    requires 1 <= j <= |pick|
    ensures Count(pick, 0, j) == Count(pick, 1, j) + Tally(pick[0])
  {
    if j > 1 {
      CountSplits(pick, j - 1);
    } else {
      assert Count(pick, 0, 1) == Count(pick, 0, 0) + Tally(pick[0]);
    }
  }

  // ---------------------------------------------------------------------------------------
  // Retry-After.

  /** Request m follows the denied request k by at least `wait` milliseconds, nothing admitted between. */
  ghost predicate Retries(c: Config, ts: seq<int>, k: nat, m: nat, wait: int) {
    && k < m < |ts| && NonDecreasing(ts) && ts[m] >= ts[k] + wait
    && forall j :: k <= j < m ==> !Admits(c, ts, j)
  }

  /** Waiting this long after a denial is always enough. */
  ghost predicate WaitSuffices(c: Config, wait: int) {
    forall ts: seq<int>, k: nat, m: nat | Retries(c, ts, k, m, wait) :: Admits(c, ts, m)
  }

  lemma {:induction false} SameReadingIsBurst(c: Config, ts: seq<int>, start: nat, n: nat)
    requires start + n <= |ts|
    requires forall j :: start <= j < start + n ==> ts[j] == ts[start]
    ensures n > 0 ==> ScaledAt(c, ts, start + n) == Burst(c, ScaledAt(c, ts, start), ts[start], n)
  {
    if n > 1 {
      SameReadingIsBurst(c, ts, start, n - 1);
    } else if n == 1 {
      assert Burst(c, ScaledAt(c, ts, start), ts[start], 0) == ScaledAt(c, ts, start);
    }
  }

  lemma EmptiedAtZero(c: Config, ts: seq<int>)
    requires c.capacity < |ts| && forall j :: 0 <= j <= c.capacity ==> ts[j] == 0
    ensures Available(c, ScaledAt(c, ts, c.capacity), 0) == 0
  {
    SameReadingIsBurst(c, ts, 0, c.capacity);
    assert ScaledAt(c, ts, 0) == None;
    BurstServed(c, None, 0, c.capacity);
  }

  /** A run that empties the bucket at time 0, is denied there, and asks again `wait` later. */
  lemma EmptyThenRetry(c: Config, wait: int) returns (ts: seq<int>, k: nat)
    requires wait >= 0 && c.rate * wait < c.periodMs
    ensures Retries(c, ts, k, k + 1, wait) && !Admits(c, ts, k + 1)
  {
    k := c.capacity;
    ts := seq(k + 1, _ => 0) + [wait];
    EmptiedThenDenied(c, ts, wait);
  }

  lemma EmptiedThenDenied(c: Config, ts: seq<int>, wait: int)
    requires wait >= 0 && c.rate * wait < c.periodMs
    requires |ts| == c.capacity + 2 && ts[c.capacity + 1] == wait && forall j :: 0 <= j <= c.capacity ==> ts[j] == 0
    ensures !Admits(c, ts, c.capacity) && !Admits(c, ts, c.capacity + 1)
  {
    var k := c.capacity;
    var s := ScaledAt(c, ts, k);
    EmptiedAtZero(c, ts);
    AdmitsOnIntegers(c, ts, k);
    AdmitsOnIntegers(c, ts, k + 1);
    assert ScaledAt(c, ts, k + 1) == s;
    EmptyBucketRefills(c, s, wait);
  }

  lemma EmptyBucketRefills(c: Config, s: Option<Scaled>, now: int)
    requires Within(c, s) && Available(c, s, 0) == 0 && now >= 0
    ensures Available(c, s, now) <= c.rate * now
  {
    AvailableWithin(c, s, 0);
    if s.Some? && now > s.value.lastUpdate {
      var l := s.value.lastUpdate;
      assert (now - l) * c.rate == now * c.rate - l * c.rate;
      assert l < 0 ==> -l * c.rate >= 0;
      assert l >= 0 ==> l * c.rate >= 0;
    }
  }

  /** While nothing is picked, the level just refills. */
  lemma {:induction false} LevelWhileIdle(c: Config, ts: seq<int>, pick: seq<bool>, k: nat, m: nat)
    requires |pick| == |ts| && k <= m < |ts| && NonDecreasing(ts)
    requires forall j :: k <= j < m ==> !pick[j]
    ensures Level(c, ts, pick, m) == Topped(c, Level(c, ts, pick, k), ts[m] - ts[k])
  {
    LevelWithin(c, ts, pick, k);
    ToppedTwice(c, Level(c, ts, pick, k), 0, 0);
    if k < m {
      LevelWhileIdle(c, ts, pick, k, m - 1);
      ToppedTwice(c, Level(c, ts, pick, k), ts[m - 1] - ts[k], ts[m] - ts[m - 1]);
    }
  }

  lemma LevelWithin(c: Config, ts: seq<int>, pick: seq<bool>, k: nat)
    requires |pick| == |ts| && k < |ts|
    ensures Level(c, ts, pick, k) <= Full(c)
  {}

  lemma LevelAfterWait(c: Config, ts: seq<int>, pick: seq<bool>, k: nat, m: nat, wait: int)
    requires |pick| == |ts| && k <= m < |ts| && NonDecreasing(ts) && ts[m] >= ts[k] + wait
    requires forall j :: k <= j < m ==> !pick[j]
    requires 0 <= Level(c, ts, pick, k) && c.periodMs <= c.rate * wait
    ensures c.periodMs <= Level(c, ts, pick, m)
  {
    assert c.periodMs <= Topped(c, Level(c, ts, pick, k), ts[m] - ts[k]) by {
      ToppedEnough(c, Level(c, ts, pick, k), ts[m] - ts[k], wait);
    }
    LevelWhileIdle(c, ts, pick, k, m);
  }

  lemma RetryAdmitted(c: Config, ts: seq<int>, k: nat, m: nat, wait: int)
    requires Retries(c, ts, k, m, wait) && c.periodMs <= c.rate * wait
    ensures Admits(c, ts, m)
  {
    var d := Decisions(c, ts);
    BucketTracksLevel(c, ts, k);
    BucketTracksLevel(c, ts, m);
    assert forall j :: k <= j < m ==> !d[j];
    LevelAfterWait(c, ts, d, k, m, wait);
  }

  /** Exactly how long a wait is long enough: the time in which one token is refilled. */
  lemma WaitSufficesExactly(c: Config, wait: int)
    requires wait >= 0
    ensures WaitSuffices(c, wait) <==> c.periodMs <= c.rate * wait
  {
    if c.periodMs <= c.rate * wait {
      forall ts: seq<int>, k: nat, m: nat | Retries(c, ts, k, m, wait)
        ensures Admits(c, ts, m)
      {
        RetryAdmitted(c, ts, k, m, wait);
      }
    } else {
      var ts, k := EmptyThenRetry(c, wait);
    }
  }
}
