/** One subnet's token bucket under any interleaving of its atomic operations. */
module TokenBucket {
  import opened Arithmetic

  datatype Config = Config(capacity: int, refillPerSec: int) {
    predicate Valid() {
      capacity >= 0 && refillPerSec >= 0
    }

    /** Whole tokens earned in a stretch of milliseconds. */
    function Credit(elapsedMs: int): int {
      elapsedMs * refillPerSec / 1000
    }
  }

  datatype Bucket = Bucket(tokens: int, lastRefill: int, lastSeen: int)

  /** Where a thread stands inside check_query. */
  datatype Thread =
    | Idle
    | Entered(now: int)
    | Loaded(now: int, seen: int)
    | Won(credit: int)
    | Refilled

  /** latest is the greatest clock reading any thread has used since the bucket
      was created; grants counts the tokens taken. */
  datatype State = State(bucket: Bucket, threads: seq<Thread>, grants: nat, created: int, latest: int)

  datatype Action =
    | Enter(i: nat, now: int)
    | LoadRefill(i: nat)
    | CompareExchange(i: nat)
    | AddTokens(i: nat)
    | TakeToken(i: nat)

  predicate Enabled(s: State, a: Action) {
    && a.i < |s.threads|
    && match a
       case Enter(i, _) => s.threads[i].Idle?
       case LoadRefill(i) => s.threads[i].Entered?
       case CompareExchange(i) => s.threads[i].Loaded?
       case AddTokens(i) => s.threads[i].Won?
       case TakeToken(i) => s.threads[i].Refilled?
  }

  /** One atomic operation of one thread. */
  function Apply(c: Config, s: State, a: Action): State
    requires Enabled(s, a)
  {
    match a
    case Enter(i, now) =>
      s.(bucket := s.bucket.(lastSeen := now), threads := s.threads[i := Entered(now)], latest := Max(s.latest, now))
    case LoadRefill(i) =>
      var now := s.threads[i].now;
      var elapsed := Max(now - s.bucket.lastRefill, 0);
      s.(threads := s.threads[i := if elapsed > 0 && c.Credit(elapsed) > 0 then Loaded(now, s.bucket.lastRefill) else Refilled])
    case CompareExchange(i) =>
      var t := s.threads[i];
      if s.bucket.lastRefill == t.seen
      then s.(bucket := s.bucket.(lastRefill := t.now), threads := s.threads[i := Won(c.Credit(t.now - t.seen))])
      else s.(threads := s.threads[i := Refilled])
    case AddTokens(i) =>
      s.(bucket := s.bucket.(tokens := Min(s.bucket.tokens + s.threads[i].credit, c.capacity)),
         threads := s.threads[i := Refilled])
    case TakeToken(i) =>
      if s.bucket.tokens > 0
      then s.(bucket := s.bucket.(tokens := s.bucket.tokens - 1), threads := s.threads[i := Idle], grants := s.grants + 1)
      else s.(threads := s.threads[i := Idle])
  }

  /** A full bucket that its creating thread, any one of them, has just inserted. */
  ghost predicate Initial(c: Config, s: State) {
    && s.bucket == Bucket(c.capacity, s.created, s.created)
    && (forall t <- s.threads :: t.Idle?)
    && s.grants == 0 && s.latest == s.created
  }

  ghost predicate IsRun(c: Config, states: seq<State>, actions: seq<Action>) {
    && |states| == |actions| + 1
    && Initial(c, states[0])
    && forall i :: 0 <= i < |actions| ==> Enabled(states[i], actions[i]) && states[i + 1] == Apply(c, states[i], actions[i])
  }

  /** Credits won by compare-exchange but not yet added. */
  function Pending(threads: seq<Thread>): int {
    if threads == [] then 0
    else Pending(threads[..|threads| - 1]) + Outstanding(threads[|threads| - 1])
  }

  function Outstanding(t: Thread): int {
    if t.Won? then t.credit else 0
  }

  lemma {:induction false} PendingUpdate(threads: seq<Thread>, i: nat, t: Thread)
    requires i < |threads|
    ensures Pending(threads[i := t]) == Pending(threads) - Outstanding(threads[i]) + Outstanding(t)
  {
    var last := |threads| - 1;
    if i == last {
      assert threads[i := t][..last] == threads[..last];
    } else {
      assert threads[i := t][..last] == threads[..last][i := t];
      PendingUpdate(threads[..last], i, t);
    }
  }

  lemma {:induction false} PendingNonNegative(threads: seq<Thread>)
    requires forall i :: 0 <= i < |threads| ==> Outstanding(threads[i]) >= 0
    ensures Pending(threads) >= 0
  {
    if threads != [] {
      PendingNonNegative(threads[..|threads| - 1]);
    }
  }

  lemma {:induction false} PendingNone(threads: seq<Thread>)
    requires forall t <- threads :: t.Idle?
    ensures Pending(threads) == 0
  {
    if threads != [] {
      assert threads[|threads| - 1] in threads;
      PendingNone(threads[..|threads| - 1]);
    }
  }

  ghost predicate ThreadOk(s: State, t: Thread) {
    match t
    case Entered(now) => now <= s.latest
    case Loaded(now, seen) => s.created <= seen < now <= s.latest
    case Won(credit) => credit >= 0
    case _ => true
  }

  /** Tokens held, granted or won never exceed what the bucket began with plus
      what the time up to the last refill earned. */
  ghost predicate Inv(c: Config, s: State) {
    && 0 <= s.bucket.tokens <= c.capacity
    && s.created <= s.bucket.lastRefill <= s.latest
    && (forall i :: 0 <= i < |s.threads| ==> ThreadOk(s, s.threads[i]))
    && s.grants + s.bucket.tokens + Pending(s.threads) <= c.capacity + c.Credit(s.bucket.lastRefill - s.created)
  }

  /** Consecutive stretches never earn more apart than together. */
  lemma CreditSplits(c: Config, a: int, b: int)
    requires c.Valid() && 0 <= a && 0 <= b
    ensures 0 <= c.Credit(a) && c.Credit(a) + c.Credit(b) <= c.Credit(a + b)
  {
    var x, y := a * c.refillPerSec, b * c.refillPerSec;
    assert (a + b) * c.refillPerSec == x + y;
    assert x >= 0 && y >= 0;
    assert x / 1000 + y / 1000 <= (x + y) / 1000;
  }

  lemma CreditMonotone(c: Config, a: int, b: int)
    requires c.Valid() && 0 <= a <= b
    ensures c.Credit(a) <= c.Credit(b)
  {
    CreditSplits(c, a, b - a);
    CreditSplits(c, b - a, 0);
  }

  lemma StepKeepsInv(c: Config, s: State, a: Action)
    requires c.Valid() && Inv(c, s) && Enabled(s, a)
    ensures Inv(c, Apply(c, s, a))
    ensures Apply(c, s, a).created == s.created && s.latest <= Apply(c, s, a).latest
    ensures s.bucket.lastRefill <= Apply(c, s, a).bucket.lastRefill
  {
    var s' := Apply(c, s, a);
    PendingUpdate(s.threads, a.i, s'.threads[a.i]);
    assert s'.threads == s.threads[a.i := s'.threads[a.i]];
    if a.CompareExchange? {
      var t := s.threads[a.i];
      CreditSplits(c, t.now - t.seen, 0);
      if s.bucket.lastRefill == t.seen {
        CreditSplits(c, t.seen - s.created, t.now - t.seen);
      }
    }
  }

  lemma {:induction false} RunKeepsInv(c: Config, states: seq<State>, actions: seq<Action>, i: nat)
    requires c.Valid() && IsRun(c, states, actions) && i < |states|
    ensures Inv(c, states[i]) && states[i].created == states[0].created
  {
    if i == 0 {
      PendingNone(states[0].threads);
    } else {
      RunKeepsInv(c, states, actions, i - 1);
      StepKeepsInv(c, states[i - 1], actions[i - 1]);
    }
  }

  /** Conservation: in every state of every interleaving the bucket holds between
      0 and capacity tokens, and no more queries were granted than a full bucket
      and the time up to the latest clock reading pay for. */
  lemma GrantsBounded(c: Config, states: seq<State>, actions: seq<Action>, i: nat)
    requires c.Valid() && IsRun(c, states, actions) && i < |states|
    ensures 0 <= states[i].bucket.tokens <= c.capacity
    ensures states[i].grants <= c.capacity + c.Credit(states[i].latest - states[0].created)
  {
    RunKeepsInv(c, states, actions, i);
    var s := states[i];
    forall k | 0 <= k < |s.threads| ensures Outstanding(s.threads[k]) >= 0 { assert ThreadOk(s, s.threads[k]); }
    PendingNonNegative(s.threads);
    CreditMonotone(c, s.bucket.lastRefill - s.created, s.latest - s.created);
  }

  const I64_MAX: int := 0x7FFF_FFFF_FFFF_FFFF

  /** When the time since creation times the rate, plus the capacity, fits in 64
      bits, so does every product and sum that check_query computes. */
  lemma NoOverflow(c: Config, s: State, a: Action)
    requires c.Valid() && Inv(c, s) && Enabled(s, a)
    requires (s.latest - s.created) * c.refillPerSec + c.capacity <= I64_MAX
    ensures a.LoadRefill? ==> Max(s.threads[a.i].now - s.bucket.lastRefill, 0) * c.refillPerSec <= I64_MAX
    ensures a.AddTokens? ==> s.bucket.tokens + s.threads[a.i].credit <= I64_MAX
  {
    var span := s.latest - s.created;
    if a.LoadRefill? {
      assert ThreadOk(s, s.threads[a.i]);
      ProductMonotone(Max(s.threads[a.i].now - s.bucket.lastRefill, 0), span, c.refillPerSec);
    }
    if a.AddTokens? {
      PendingUpdate(s.threads, a.i, Refilled);
      var rest := s.threads[a.i := Refilled];
      forall k | 0 <= k < |rest| ensures Outstanding(rest[k]) >= 0 {
        assert ThreadOk(s, s.threads[k]);
      }
      PendingNonNegative(rest);
      CreditMonotone(c, s.bucket.lastRefill - s.created, span);
      assert c.Credit(span) <= span * c.refillPerSec by { ProductMonotone(0, span, c.refillPerSec); }
    }
  }

  lemma ProductMonotone(a: int, b: int, r: int)
    requires 0 <= a <= b && r >= 0
    ensures 0 <= a * r <= b * r
  {
    assert b * r == a * r + (b - a) * r;
  }
}
