/** Duplicate-query limiting for one client subnet, name and type: a packed
    (epoch, count) word updated atomically, beside a penalty timer. */
module DuplicateDomain {
  import opened Arithmetic
  import opened Selections

  const HALF_WORD: nat := 0x1_0000_0000
  const MAX_COUNT: nat := 0xFFFF_FFFF
  const PENALTY_SECS: nat := 3

  datatype RrlAction = Allow | Truncate | Drop

  /** (epoch << 32) | count on a 64-bit word; the count must fit its half. */
  function Pack(epoch: nat, count: nat): nat {
    epoch % HALF_WORD * HALF_WORD + count % HALF_WORD
  }

  function EpochOf(word: nat): nat {
    word / HALF_WORD
  }

  function CountOf(word: nat): nat {
    word % HALF_WORD
  }

  /** Both halves come back, as long as the epoch fits in 32 bits. */
  lemma RoundTrip(epoch: nat, count: nat)
    requires epoch < HALF_WORD && count < HALF_WORD
    ensures EpochOf(Pack(epoch, count)) == epoch && CountOf(Pack(epoch, count)) == count
    ensures Pack(epoch, count) < HALF_WORD * HALF_WORD
  {
    DivMod(Pack(epoch, count), HALF_WORD, epoch, count);
  }

  /** The closure of the atomic update: the new word and the count it stands for. */
  function Bump(word: nat, now: nat): (nat, nat) {
    if now > EpochOf(word) then (Pack(now, 1), 1)
    else
      var count := if CountOf(word) + 1 < MAX_COUNT then CountOf(word) + 1 else MAX_COUNT;
      (Pack(EpochOf(word), count), count)
  }

  function Outcome(count: nat): RrlAction {
    if count == 1 then Allow else if count == 2 then Truncate else Drop
  }

  /** An update moves to a later second with count 1, or stays in its second with
      a higher count that saturates and never reaches into the epoch. */
  lemma BumpMeans(word: nat, now: nat)
    requires word < HALF_WORD * HALF_WORD && now < HALF_WORD
    ensures
      var (next, count) := Bump(word, now);
      && next < HALF_WORD * HALF_WORD && CountOf(next) == count
      && EpochOf(next) == (if now > EpochOf(word) then now else EpochOf(word))
      && (now > EpochOf(word) ==> count == 1)
      && (now <= EpochOf(word) ==> count > CountOf(word) || count == MAX_COUNT == CountOf(word))
  {
    EpochBound(word);
    var (next, count) := Bump(word, now);
    RoundTrip(if now > EpochOf(word) then now else EpochOf(word), count);
  }

  lemma EpochBound(word: nat)
    requires word < HALF_WORD * HALF_WORD
    ensures EpochOf(word) < HALF_WORD
  {
  }

  // ----- Any interleaving -----

  datatype Thread =
    | Idle
    | Penalized(now: nat)
    | Passed(now: nat)
    | Counted(now: nat, count: nat)

  datatype Entry = Entry(epoch: nat, count: nat) {
    function Action(): RrlAction {
      Outcome(count)
    }
  }

  /** log lists what each atomic update returned, in the order of the updates. */
  datatype State = State(word: nat, penalizedUntil: nat, threads: seq<Thread>, log: seq<Entry>)

  datatype Operation =
    | LoadPenalty(i: nat, now: nat)
    | ExtendPenalty(i: nat)
    | FetchUpdate(i: nat)
    | Answer(i: nat)

  predicate Enabled(s: State, op: Operation) {
    && op.i < |s.threads|
    && match op
       case LoadPenalty(i, now) => s.threads[i].Idle? && now < HALF_WORD
       case ExtendPenalty(i) => s.threads[i].Penalized?
       case FetchUpdate(i) => s.threads[i].Passed?
       case Answer(i) => s.threads[i].Counted?
  }

  function Apply(s: State, op: Operation): State
    requires Enabled(s, op)
  {
    match op
    case LoadPenalty(i, now) =>
      s.(threads := s.threads[i := if now < s.penalizedUntil then Penalized(now) else Passed(now)])
    case ExtendPenalty(i) =>
      s.(penalizedUntil := s.threads[i].now + PENALTY_SECS, threads := s.threads[i := Idle])
    case FetchUpdate(i) =>
      var now := s.threads[i].now;
      var (word, count) := Bump(s.word, now);
      s.(word := word, threads := s.threads[i := Counted(now, count)], log := s.log + [Entry(EpochOf(word), count)])
    case Answer(i) =>
      s.(penalizedUntil := if Outcome(s.threads[i].count).Drop? then s.threads[i].now + PENALTY_SECS else s.penalizedUntil,
         threads := s.threads[i := Idle])
  }

  /** A fresh bucket of the second in which it was created. */
  ghost predicate Initial(s: State, created: nat) {
    && created < HALF_WORD && s.word == Pack(created, 0) && s.penalizedUntil == 0 && s.log == []
    && forall t <- s.threads :: t.Idle?
  }

  ghost predicate IsRun(states: seq<State>, ops: seq<Operation>, created: nat) {
    && |states| == |ops| + 1
    && Initial(states[0], created)
    && forall i :: 0 <= i < |ops| ==> Enabled(states[i], ops[i]) && states[i + 1] == Apply(states[i], ops[i])
  }

  /** The word holds the last update; within one second the counts rise. */
  ghost predicate Inv(s: State) {
    && s.word < HALF_WORD * HALF_WORD
    && (forall t <- s.threads :: t.Passed? ==> t.now < HALF_WORD)
    && (forall i :: 0 <= i < |s.log| ==> s.log[i].count >= 1 && Before(s.log[i], EpochOf(s.word), CountOf(s.word)))
    && (forall i, j :: 0 <= i < j < |s.log| ==>
          && Before(s.log[i], s.log[j].epoch, s.log[j].count)
          && (s.log[i].epoch == s.log[j].epoch ==> Rises(s.log[i].count, s.log[j].count)))
  }

  ghost predicate Before(e: Entry, epoch: nat, count: nat) {
    e.epoch < epoch || (e.epoch == epoch && e.count <= count)
  }

  predicate Rises(a: nat, b: nat) {
    a < b || a == b == MAX_COUNT
  }

  lemma StepKeepsInv(s: State, op: Operation)
    requires Inv(s) && Enabled(s, op)
    ensures Inv(Apply(s, op))
  {
    if op.FetchUpdate? {
      assert s.threads[op.i] in s.threads;
      BumpMeans(s.word, s.threads[op.i].now);
    }
  }

  lemma {:induction false} RunKeepsInv(states: seq<State>, ops: seq<Operation>, created: nat, i: nat)
    requires IsRun(states, ops, created) && i < |states|
    ensures Inv(states[i])
  {
    if i == 0 {
      RoundTrip(created, 0);
    } else {
      RunKeepsInv(states, ops, created, i - 1);
      StepKeepsInv(states[i - 1], ops[i - 1]);
    }
  }

  /** In every interleaving each second lets at most one query through and
      challenges at most one. */
  lemma OneOfEachPerEpoch(states: seq<State>, ops: seq<Operation>, created: nat, k: nat, i: nat, j: nat)
    requires IsRun(states, ops, created) && k < |states|
    requires i < j < |states[k].log| && states[k].log[i].epoch == states[k].log[j].epoch
    ensures states[k].log[i].Action() == states[k].log[j].Action() ==> states[k].log[i].Action() == Drop
    ensures states[k].log[j].Action() != Allow
  {
    RunKeepsInv(states, ops, created, k);
  }

  // ----- The order within one second -----

  function InEpoch(epoch: nat): Entry -> bool {
    (e: Entry) => e.epoch == epoch
  }

  /** Every update's count is its place among those of its second, as far as it fits. */
  ghost predicate Counts(s: State) {
    && (forall i :: 0 <= i < |s.log| ==> CountsPlace(s.log, i))
    && CountOf(s.word) == Min(Number(s.log, InEpoch(EpochOf(s.word))), MAX_COUNT)
  }

  predicate CountsPlace(log: seq<Entry>, i: nat)
    requires i < |log|
  {
    log[i].count == Min(Number(log[..i], InEpoch(log[i].epoch)) + 1, MAX_COUNT)
  }

  lemma {:induction false} NoneLater(log: seq<Entry>, epoch: nat)
    requires forall e <- log :: e.epoch < epoch
    ensures Number(log, InEpoch(epoch)) == 0
  {
    if log != [] {
      NoneLater(log[..|log| - 1], epoch);
    }
  }

  lemma UpdateKeepsCounts(s: State, i: nat)
    requires Inv(s) && Counts(s) && Enabled(s, FetchUpdate(i))
    ensures Counts(Apply(s, FetchUpdate(i)))
  {
    var now := s.threads[i].now;
    var (word, count) := Bump(s.word, now);
    var log, e := s.log, Entry(EpochOf(word), count);
    assert s.threads[i] in s.threads;
    BumpMeans(s.word, now);
    if now > EpochOf(s.word) { NoneLater(log, now); }
    var more := log + [e];
    assert more[..|log|] == log;
    forall k | 0 <= k < |more| ensures CountsPlace(more, k) {
      assert k < |log| ==> more[..k] == log[..k] && CountsPlace(log, k);
    }
  }

  lemma {:induction false} RunCounts(states: seq<State>, ops: seq<Operation>, created: nat, i: nat)
    requires IsRun(states, ops, created) && i < |states|
    ensures Counts(states[i])
  {
    if i == 0 {
      RoundTrip(created, 0);
    } else {
      RunCounts(states, ops, created, i - 1);
      RunKeepsInv(states, ops, created, i - 1);
      if ops[i - 1].FetchUpdate? { UpdateKeepsCounts(states[i - 1], ops[i - 1].i); }
    }
  }

  /** In every interleaving the first update of a second lets its query through, the
      second one challenges its query, and all later ones drop theirs. */
  lemma ByPlace(states: seq<State>, ops: seq<Operation>, created: nat, k: nat, i: nat)
    requires IsRun(states, ops, created) && k < |states| && i < |states[k].log|
    ensures
      var log := states[k].log;
      var earlier := Number(log[..i], InEpoch(log[i].epoch));
      log[i].Action() == if earlier == 0 then Allow else if earlier == 1 then Truncate else Drop
  {
    RunCounts(states, ops, created, k);
    assert CountsPlace(states[k].log, i);
  }

  // ----- Queries one after another -----

  datatype Bucket = Bucket(word: nat, penalizedUntil: nat)

  function NewBucket(now: nat): Bucket {
    Bucket(Pack(now, 0), 0)
  }

  /** One whole duplicate check of a bucket. */
  function Check(b: Bucket, now: nat): (Bucket, RrlAction) {
    if now < b.penalizedUntil then (b.(penalizedUntil := now + PENALTY_SECS), Drop)
    else
      var (word, count) := Bump(b.word, now);
      if Outcome(count).Drop? then (Bucket(word, now + PENALTY_SECS), Drop)
      else (b.(word := word), Outcome(count))
  }

  /** A thread that is not interleaved performs exactly this check. */
  lemma SoloThreadChecks(s: State, i: nat, now: nat)
    requires i < |s.threads| && s.threads[i].Idle? && now < HALF_WORD
    ensures
      var loaded := Apply(s, LoadPenalty(i, now));
      var done := if loaded.threads[i].Penalized? then Apply(loaded, ExtendPenalty(i))
                  else Apply(Apply(loaded, FetchUpdate(i)), Answer(i));
      var (bucket, action) := Check(Bucket(s.word, s.penalizedUntil), now);
      && Bucket(done.word, done.penalizedUntil) == bucket && done.threads[i].Idle?
      && (loaded.threads[i].Penalized? ==> action == Drop && done.log == s.log)
      && (loaded.threads[i].Passed? ==> |done.log| == |s.log| + 1 && done.log[|s.log|].Action() == action)
  {
  }

  /** The outcomes of the queries made at the given seconds, and the bucket left. */
  function Checks(b: Bucket, nows: seq<nat>): (r: (Bucket, seq<RrlAction>))
    ensures |r.1| == |nows|
  {
    if nows == [] then (b, [])
    else
      var (before, actions) := Checks(b, nows[..|nows| - 1]);
      var (after, action) := Check(before, nows[|nows| - 1]);
      (after, actions + [action])
  }

  ghost predicate Clocked(created: nat, nows: seq<nat>) {
    && created < HALF_WORD
    && (forall i :: 0 <= i < |nows| ==> created <= nows[i] < HALF_WORD)
    && (forall i, j :: 0 <= i < j < |nows| ==> nows[i] <= nows[j])
  }

  /** After the last query the bucket's second is not in the future, the penalty lasts
      three seconds from it at most, and a drop has set it to that. */
  lemma {:induction false} ChecksInvariant(created: nat, nows: seq<nat>)
    requires Clocked(created, nows)
    ensures
      var (b, actions) := Checks(NewBucket(created), nows);
      && b.word < HALF_WORD * HALF_WORD
      && EpochOf(b.word) <= (if nows == [] then created else nows[|nows| - 1])
      && b.penalizedUntil <= (if nows == [] then 0 else nows[|nows| - 1] + PENALTY_SECS)
      && (nows != [] && actions[|nows| - 1] == Drop ==> b.penalizedUntil == nows[|nows| - 1] + PENALTY_SECS)
  {
    if nows == [] {
      RoundTrip(created, 0);
    } else {
      var init, now := nows[..|nows| - 1], nows[|nows| - 1];
      ChecksInvariant(created, init);
      BumpMeans(Checks(NewBucket(created), init).0.word, now);
    }
  }

  lemma {:induction false} ChecksPrefix(b: Bucket, nows: seq<nat>, k: nat)
    requires k <= |nows|
    ensures Checks(b, nows).1[..k] == Checks(b, nows[..k]).1
    decreases |nows|
  {
    if k < |nows| {
      var init := nows[..|nows| - 1];
      ChecksPrefix(b, init, k);
      assert init[..k] == nows[..k];
    } else {
      assert nows[..k] == nows;
    }
  }

  /** With a clock that never steps back, the first query after a drop that is
      not itself dropped is let through, and comes at least three seconds after
      the query just before it. */
  lemma ReleasedAfterPenalty(created: nat, nows: seq<nat>, k: nat)
    requires Clocked(created, nows) && k + 1 < |nows|
    requires Checks(NewBucket(created), nows).1[k] == Drop
    ensures
      var next := Checks(NewBucket(created), nows).1[k + 1];
      next != Drop ==> next == Allow && nows[k + 1] >= nows[k] + 3
  {
    var b := NewBucket(created);
    ChecksPrefix(b, nows, k + 1);
    ChecksPrefix(b, nows, k + 2);
    var upTo, now := nows[..k + 1], nows[k + 1];
    assert nows[..k + 2][..k + 1] == upTo;
    ChecksInvariant(created, upTo);
    assert Checks(b, upTo).1[k] == Checks(b, nows).1[..k + 1][k];
    assert Checks(b, nows[..k + 2]).1[k + 1] == Checks(b, nows).1[..k + 2][k + 1];
    assert Checks(b, nows[..k + 2]).1[k + 1] == Check(Checks(b, upTo).0, now).1;
  }

  /** The first query is let through, and so is every query that comes three seconds or
      more after the one before it, whatever became of that. */
  lemma AllowedAfterPause(created: nat, nows: seq<nat>, k: nat)
    requires Clocked(created, nows) && k < |nows| && (k > 0 ==> nows[k] >= nows[k - 1] + 3)
    ensures Checks(NewBucket(created), nows).1[k] == Allow
  {
    var b := NewBucket(created);
    ChecksPrefix(b, nows, k + 1);
    var upTo, now := nows[..k], nows[k];
    assert nows[..k + 1][..k] == upTo;
    ChecksInvariant(created, upTo);
    if k == 0 { RoundTrip(created, 0); }
    assert Checks(b, nows[..k + 1]).1[k] == Checks(b, nows).1[..k + 1][k];
    assert Checks(b, nows[..k + 1]).1[k] == Check(Checks(b, upTo).0, now).1;
  }
}
