/** The rate limiter's tables: one query at a time, and the cleanup of idle entries. */
module RateLimiter {
  import opened Arithmetic
  import opened Names
  import opened Records
  import opened TokenBucket
  import opened DuplicateDomain

  const MAX_TRACKED_RRL_ENTRIES: nat := 65536
  const ANY: RecordType := OtherType(255)

  type Subnet = nat

  datatype Protocol = Udp | Tcp | Dot | Doh

  datatype Client = Client(subnet: Subnet, loopback: bool)

  datatype RrlKey = RrlKey(subnet: Subnet, qname: Name, qtype: RecordType)

  // ----- One query on one bucket -----

  function FullBucket(c: Config, now: int): TokenBucket.Bucket {
    TokenBucket.Bucket(c.capacity, now, now)
  }

  /** Refill for the time since the last refill, then take a token if there is one. */
  function TokenStep(c: Config, b: TokenBucket.Bucket, now: int): (TokenBucket.Bucket, bool) {
    var elapsed := Max(now - b.lastRefill, 0);
    var refilled :=
      if c.Credit(elapsed) > 0
      then TokenBucket.Bucket(Arithmetic.Min(b.tokens + c.Credit(elapsed), c.capacity), now, now)
      else b.(lastSeen := now);
    if refilled.tokens > 0 then (refilled.(tokens := refilled.tokens - 1), true) else (refilled, false)
  }

  /** A thread that is not interleaved performs exactly this step. */
  lemma SoloThreadSteps(c: Config, s: TokenBucket.State, i: nat, now: int)
    requires c.Valid() && i < |s.threads| && s.threads[i].Idle?
    ensures
      var loaded := TokenBucket.Apply(c, TokenBucket.Apply(c, s, Enter(i, now)), LoadRefill(i));
      var ready := if loaded.threads[i].Loaded?
                   then TokenBucket.Apply(c, TokenBucket.Apply(c, loaded, CompareExchange(i)), AddTokens(i)) else loaded;
      var done := TokenBucket.Apply(c, ready, TakeToken(i));
      var (bucket, granted) := TokenStep(c, s.bucket, now);
      done.bucket == bucket && done.grants == s.grants + (if granted then 1 else 0) && done.threads[i].Idle?
  {
    CreditSplits(c, 0, 0);
    assert c.Credit(0) == 0;
  }

  // ----- Eviction -----

  datatype Event = Query(subnet: Subnet, now: int) | Sweep(now: int)

  type Buckets = map<Subnet, TokenBucket.Bucket>

  function BucketOf(c: Config, m: Buckets, subnet: Subnet, now: int): TokenBucket.Bucket {
    if subnet in m then m[subnet] else FullBucket(c, now)
  }

  /** cleanup with a given maximum age */
  function Swept(m: Buckets, maxAge: nat, now: int): Buckets {
    map k | k in m && m[k].lastSeen >= now - maxAge :: m[k]
  }

  /** Token decisions of a run; without a maximum age nothing is ever evicted. */
  function Decisions(c: Config, maxAge: Option<nat>, m: Buckets, events: seq<Event>): seq<bool>
    decreases |events|
  {
    if events == [] then []
    else
      match events[0]
      case Query(subnet, now) =>
        var (b, granted) := TokenStep(c, BucketOf(c, m, subnet, now), now);
        [granted] + Decisions(c, maxAge, m[subnet := b], events[1..])
      case Sweep(now) =>
        Decisions(c, maxAge, if maxAge.Some? then Swept(m, maxAge.value, now) else m, events[1..])
  }

  ghost predicate Clocked(start: int, events: seq<Event>) {
    && (forall i :: 0 <= i < |events| ==> start <= events[i].now)
    && (forall i, j :: 0 <= i < j < |events| ==> events[i].now <= events[j].now)
  }

  /** The shortest idle time that can lead to eviction, one millisecond more than
      the maximum age, is long enough to refill from empty. */
  predicate RefillsWhileIdle(c: Config, maxAge: nat) {
    (maxAge + 1) * c.refillPerSec >= 1000 * c.capacity
  }

  ghost predicate BucketOk(c: Config, b: TokenBucket.Bucket, now: int) {
    0 <= b.tokens <= c.capacity && b.lastRefill <= b.lastSeen <= now
  }

  /** The evicting table misses only buckets that have been idle for longer than maxAge. */
  ghost predicate Simulates(c: Config, maxAge: nat, kept: Buckets, evicting: Buckets, now: int) {
    && (forall k <- evicting :: k in kept && kept[k] == evicting[k])
    && (forall k <- kept :: BucketOk(c, kept[k], now))
    && (forall k <- kept :: k !in evicting ==> now - kept[k].lastSeen > maxAge)
  }

  /** An evicted bucket, had it been kept, would be full again: the next query
      makes the same of it as of a new one. */
  lemma IdleEqualsNew(c: Config, maxAge: nat, b: TokenBucket.Bucket, now: int)
    requires c.Valid() && c.capacity >= 1 && RefillsWhileIdle(c, maxAge) && BucketOk(c, b, now) && now - b.lastSeen > maxAge
    ensures TokenStep(c, b, now) == TokenStep(c, FullBucket(c, now), now)
  {
    var elapsed := now - b.lastRefill;
    ProductMonotone(maxAge + 1, elapsed, c.refillPerSec);
    assert c.Credit(elapsed) >= c.capacity;
    assert c.Credit(0) == 0;
  }

  lemma StepKeepsBucketOk(c: Config, b: TokenBucket.Bucket, now: int)
    requires c.Valid() && BucketOk(c, b, now)
    ensures BucketOk(c, TokenStep(c, b, now).0, now)
  {
    CreditSplits(c, Max(now - b.lastRefill, 0), 0);
  }

  lemma {:induction false} SameDecisions(c: Config, maxAge: nat, kept: Buckets, evicting: Buckets, now: int, events: seq<Event>)
    requires c.Valid() && c.capacity >= 1 && RefillsWhileIdle(c, maxAge)
    requires Simulates(c, maxAge, kept, evicting, now) && Clocked(now, events)
    ensures Decisions(c, Some(maxAge), evicting, events) == Decisions(c, None, kept, events)
    decreases |events|
  {
    if events != [] {
      var later := events[0].now;
      match events[0]
      case Query(subnet, _) =>
        var b := BucketOf(c, kept, subnet, later);
        if subnet in kept && subnet !in evicting {
          IdleEqualsNew(c, maxAge, b, later);
        }
        StepKeepsBucketOk(c, b, later);
        var after := TokenStep(c, b, later).0;
        assert TokenStep(c, BucketOf(c, evicting, subnet, later), later) == TokenStep(c, b, later);
        assert Simulates(c, maxAge, kept[subnet := after], evicting[subnet := after], later);
        SameDecisions(c, maxAge, kept[subnet := after], evicting[subnet := after], later, events[1..]);
      case Sweep(_) =>
        assert Simulates(c, maxAge, kept, Swept(evicting, maxAge, later), later);
        SameDecisions(c, maxAge, kept, Swept(evicting, maxAge, later), later, events[1..]);
    }
  }

  /** Queries of one subnet at one moment. */
  function Burst(n: nat, at: int): (r: seq<Event>)
    ensures |r| == n && forall e <- r :: e == Query(0, at)
  {
    if n == 0 then [] else [Query(0, at)] + Burst(n - 1, at)
  }

  /** Their decisions when no refill is due and t tokens are there. */
  function Grants(t: nat, n: nat): (r: seq<bool>)
    ensures |r| == n && forall i :: 0 <= i < n ==> r[i] == (i < t)
  {
    if n == 0 then [] else [t > 0] + Grants(if t > 0 then t - 1 else 0, n - 1)
  }

  function Spent(b: TokenBucket.Bucket, n: nat, at: int): TokenBucket.Bucket {
    if n == 0 then b else TokenBucket.Bucket(Max(b.tokens - n, 0), b.lastRefill, at)
  }

  predicate Settled(c: Config, b: TokenBucket.Bucket, at: int) {
    b.tokens >= 0 && c.Credit(Max(at - b.lastRefill, 0)) <= 0
  }

  lemma Overwrite(m: Buckets, a: TokenBucket.Bucket, b: TokenBucket.Bucket)
    ensures m[0 := a][0 := b] == m[0 := b]
  {
  }

  lemma {:induction false} BurstDecides(c: Config, maxAge: Option<nat>, m: Buckets, n: nat, at: int, rest: seq<Event>)
    requires 0 in m && Settled(c, m[0], at)
    ensures Decisions(c, maxAge, m, Burst(n, at) + rest)
         == Grants(m[0].tokens, n) + Decisions(c, maxAge, m[0 := Spent(m[0], n, at)], rest)
  {
    var events := Burst(n, at) + rest;
    if n == 0 {
      assert events == rest && m[0 := m[0]] == m;
    } else {
      assert events[1..] == Burst(n - 1, at) + rest;
      var b := Spent(m[0], 1, at);
      assert TokenStep(c, m[0], at) == (b, m[0].tokens > 0);
      BurstDecides(c, maxAge, m[0 := b], n - 1, at, rest);
      Overwrite(m, b, Spent(b, n - 1, at));
      assert Spent(b, n - 1, at) == Spent(m[0], n, at);
    }
  }

  lemma StartsFull(c: Config, maxAge: Option<nat>, n: nat, at: int, rest: seq<Event>)
    requires n >= 1
    ensures Decisions(c, maxAge, map[], Burst(n, at) + rest)
         == Decisions(c, maxAge, map[0 := FullBucket(c, at)], Burst(n, at) + rest)
  {
    assert (Burst(n, at) + rest)[0] == Query(0, at);
    var b := TokenStep(c, FullBucket(c, at), at).0;
    assert map[][0 := b] == map[0 := FullBucket(c, at)][0 := b];
  }

  /** Empty the bucket, clean up at the first moment it may be evicted, and ask as often again. */
  function Probe(c: Config, maxAge: nat): seq<Event>
    requires c.capacity >= 1
  {
    Burst(c.capacity, 0) + ([Sweep(maxAge + 1)] + (Burst(c.capacity, maxAge + 1) + []))
  }

  lemma ProbeEvicting(c: Config, maxAge: nat)
    requires c.Valid() && c.capacity >= 1
    ensures Decisions(c, Some(maxAge), map[], Probe(c, maxAge)) == Grants(c.capacity, c.capacity) + Grants(c.capacity, c.capacity)
  {
    var n, at, cap := c.capacity, maxAge + 1, Some(maxAge);
    var second := Burst(n, at) + [];
    var rest := [Sweep(at)] + second;
    assert c.Credit(0) == 0;
    StartsFull(c, cap, n, 0, rest);
    BurstDecides(c, cap, map[0 := FullBucket(c, 0)], n, 0, rest);
    var m := map[0 := FullBucket(c, 0)][0 := Spent(FullBucket(c, 0), n, 0)];
    assert rest[1..] == second && Swept(m, maxAge, at) == map[];
    StartsFull(c, cap, n, at, []);
    BurstDecides(c, cap, map[0 := FullBucket(c, at)], n, at, []);
  }

  lemma ProbeKeeping(c: Config, maxAge: nat)
    requires c.Valid() && c.capacity >= 1 && !RefillsWhileIdle(c, maxAge)
    ensures Decisions(c, None, map[], Probe(c, maxAge)) ==
      Grants(c.capacity, c.capacity) + Grants(c.Credit(maxAge + 1), c.capacity)
    ensures 0 <= c.Credit(maxAge + 1) < c.capacity
  {
    var n, at := c.capacity, maxAge + 1;
    var second := Burst(n, at) + [];
    var rest := [Sweep(at)] + second;
    var full := FullBucket(c, 0);
    CreditSplits(c, at, 0);
    assert c.Credit(0) == 0;
    StartsFull(c, None, n, 0, rest);
    BurstDecides(c, None, map[0 := full], n, 0, rest);
    var m := map[0 := full][0 := Spent(full, n, 0)];
    assert m == map[0 := TokenBucket.Bucket(0, 0, 0)] && rest[1..] == second;
    FirstRefills(c, m, n, at);
  }

  /** The first query of a burst on an empty bucket brings its tokens up to date. */
  lemma FirstRefills(c: Config, m: Buckets, n: nat, at: nat)
    requires c.Valid() && n >= 1 && m == map[0 := TokenBucket.Bucket(0, 0, 0)] && 0 <= c.Credit(at) < c.capacity
    ensures Decisions(c, None, m, Burst(n, at) + []) == Grants(c.Credit(at), n)
  {
    var k := c.Credit(at);
    var (b, granted) := TokenStep(c, m[0], at);
    assert c.Credit(0) == 0;
    assert granted == (k > 0) && b.tokens == Max(k - 1, 0) && Settled(c, b, at);
    var events := Burst(n, at) + [];
    assert events[0] == Query(0, at) && events[1..] == Burst(n - 1, at) + [];
    BurstDecides(c, None, m[0 := b], n - 1, at, []);
  }

  ghost predicate SameEitherWay(c: Config, maxAge: nat, events: seq<Event>) {
    Decisions(c, Some(maxAge), map[], events) == Decisions(c, None, map[], events)
  }

  ghost predicate Unobservable(c: Config, maxAge: nat) {
    forall start, events | Clocked(start, events) :: SameEitherWay(c, maxAge, events)
  }

  lemma ProbeClocked(c: Config, maxAge: nat)
    requires c.capacity >= 1
    ensures Clocked(0, Probe(c, maxAge))
  {
    var n := c.capacity;
    var first, second := Burst(n, 0), Burst(n, maxAge + 1);
    forall i | 0 <= i < |Probe(c, maxAge)|
      ensures Probe(c, maxAge)[i].now == if i < n then 0 else maxAge + 1
    {
      if i < n {
        assert first[i] in first;
      } else if i > n {
        assert second[i - n - 1] in second;
      }
    }
  }

  lemma ProbeDiffers(c: Config, maxAge: nat)
    requires c.Valid() && c.capacity >= 1 && !RefillsWhileIdle(c, maxAge)
    ensures !SameEitherWay(c, maxAge, Probe(c, maxAge))
  {
    ProbeEvicting(c, maxAge);
    ProbeKeeping(c, maxAge);
    var n := c.capacity;
    var full, fewer := Grants(n, n), Grants(c.Credit(maxAge + 1), n);
    assert (full + full)[n + n - 1] == full[n - 1] == true;
    assert (full + fewer)[n + n - 1] == fewer[n - 1] == false;
  }

  /** With a clock that never steps back, cleaning up at any moments changes no
      decision if and only if the shortest idle time that can lead to eviction
      refills an empty bucket. */
  lemma EvictionUnobservable(c: Config, maxAge: nat)
    requires c.Valid() && c.capacity >= 1
    ensures Unobservable(c, maxAge) <==> RefillsWhileIdle(c, maxAge)
  {
    if RefillsWhileIdle(c, maxAge) {
      forall start, events | Clocked(start, events) ensures SameEitherWay(c, maxAge, events) {
        SameDecisions(c, maxAge, map[], map[], start, events);
      }
    } else {
      ProbeClocked(c, maxAge);
      ProbeDiffers(c, maxAge);
    }
  }

  const DEFAULTS: Config := Config(300, 60)
  const CLEANUP_AGE_MS: nat := 900_000

  /** The settings the program starts with meet the condition. */
  lemma DefaultsUnobservable()
    ensures Unobservable(DEFAULTS, CLEANUP_AGE_MS)
  {
    EvictionUnobservable(DEFAULTS, CLEANUP_AGE_MS);
  }

  // ----- The tables -----

  class Limiter {
    const config: Config
    var subnetBuckets: Buckets
    var rrlBuckets: map<RrlKey, DuplicateDomain.Bucket>

    constructor (config: Config)
      ensures this.config == config && subnetBuckets == map[] && rrlBuckets == map[]
    {
      this.config := config;
      subnetBuckets := map[];
      rrlBuckets := map[];
    }

    /** One whole query, its clock reading given. The token bucket is asked first
        and by every protocol; the duplicate check by UDP alone, and not for new
        names once its table is full. */
    method CheckQuery(protocol: Protocol, client: Client, qname: Name, qtype: RecordType, nowMs: nat)
      returns (action: RrlAction)
      modifies this
      ensures
        var step := TokenStep(config, BucketOf(config, old(subnetBuckets), client.subnet, nowMs), nowMs);
        if client.loopback then
          action == Allow && subnetBuckets == old(subnetBuckets) && rrlBuckets == old(rrlBuckets)
        else if protocol.Udp? && qtype == ANY then
          action == Drop && subnetBuckets == old(subnetBuckets) && rrlBuckets == old(rrlBuckets)
        else
          && subnetBuckets == old(subnetBuckets)[client.subnet := step.0]
          && (!step.1 ==> action == Drop && rrlBuckets == old(rrlBuckets))
          && (step.1 ==> DuplicateChecked(old(rrlBuckets), rrlBuckets, protocol, RrlKey(client.subnet, qname, qtype), nowMs, action))
    {
      if client.loopback {
        return Allow;
      }
      if protocol.Udp? && qtype == ANY {
        return Drop;
      }
      var (bucket, granted) := TokenStep(config, BucketOf(config, subnetBuckets, client.subnet, nowMs), nowMs);
      subnetBuckets := subnetBuckets[client.subnet := bucket];
      if !granted {
        return Drop;
      }
      if !protocol.Udp? {
        return Allow;
      }
      var key := RrlKey(client.subnet, qname, qtype);
      if key !in rrlBuckets && |rrlBuckets| >= MAX_TRACKED_RRL_ENTRIES {
        return Allow;
      }
      var nowS := nowMs / 1000;
      var entry := if key in rrlBuckets then rrlBuckets[key] else NewBucket(nowS);
      var checked := Check(entry, nowS);
      rrlBuckets := rrlBuckets[key := checked.0];
      action := checked.1;
    }

    /** Keeps what was used within the maximum age, and nothing else. */
    method Cleanup(maxAgeMs: nat, nowMs: nat)
      modifies this
      ensures subnetBuckets == Swept(old(subnetBuckets), maxAgeMs, nowMs)
      ensures rrlBuckets == map k | k in old(rrlBuckets)
                && EpochOf(old(rrlBuckets)[k].word) >= TruncatedSeconds(nowMs - maxAgeMs) :: old(rrlBuckets)[k]
    {
      var cutoffS := TruncatedSeconds(nowMs - maxAgeMs);
      subnetBuckets := map k | k in subnetBuckets && subnetBuckets[k].lastSeen >= nowMs - maxAgeMs :: subnetBuckets[k];
      rrlBuckets := map k | k in rrlBuckets && EpochOf(rrlBuckets[k].word) >= cutoffS :: rrlBuckets[k];
    }
  }

  /** Milliseconds to seconds, rounded toward zero as the machine divides. */
  function TruncatedSeconds(ms: int): int {
    if ms >= 0 then ms / 1000 else -((-ms) / 1000)
  }

  ghost predicate DuplicateChecked(before: map<RrlKey, DuplicateDomain.Bucket>, after: map<RrlKey, DuplicateDomain.Bucket>,
                                   protocol: Protocol, key: RrlKey, nowMs: nat, action: RrlAction) {
    if !protocol.Udp? || (key !in before && |before| >= 65536)
    then action == Allow && after == before
    else
      var entry := if key in before then before[key] else NewBucket(nowMs / 1000);
      var (bucket, outcome) := Check(entry, nowMs / 1000);
      action == outcome && after == before[key := bucket]
  }
}
