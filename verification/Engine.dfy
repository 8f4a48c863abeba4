/** The response cache as a machine of atomic steps, and the responses built
    from its entries. */
module Engine {
  import opened Arithmetic
  import opened Names
  import opened Records
  import opened Status
  import opened Serial
  import opened Ttl
  import opened Selections

  const STALE_SERVE_TTL: U32 := 30
  const MAX_U64: nat := 0xFFFF_FFFF_FFFF_FFFF

  datatype Key = Key(name: Name, rtype: RecordType)

  datatype CacheFreshness = Fresh | Stale | Expired

  datatype CacheEntry = CacheEntry(msg: Message, minTtl: U32, cachedAt: nat, lastRevalidatedAt: nat, status: DnssecStatus)

  predicate CacheableCode(msg: Message) {
    msg.code.NoError? || msg.code.NXDomain?
  }

  function SaturatingSub(a: nat, b: nat): nat {
    if a < b then 0 else a - b
  }

  function SaturatingAdd(a: nat, b: nat): nat {
    if a + b > MAX_U64 then MAX_U64 else a + b
  }

  function Freshness(e: CacheEntry, now: nat, maxStale: nat): CacheFreshness {
    var age := SaturatingSub(now, e.cachedAt);
    if age < e.minTtl then Fresh
    else if age < SaturatingAdd(e.minTtl, maxStale) then Stale
    else Expired
  }

  /** An entry is fresh for minTtl seconds, then stale for maxStale more (as far as their
      sum fits 64 bits), then expired; before it was made it counts as just made. */
  lemma FreshnessExactly(e: CacheEntry, now: nat, maxStale: nat)
    ensures
      var t, end := Max(now, e.cachedAt), e.cachedAt + Min(e.minTtl + maxStale, MAX_U64);
      && (Freshness(e, now, maxStale).Fresh? <==> t < e.cachedAt + e.minTtl)
      && (Freshness(e, now, maxStale).Stale? <==> e.cachedAt + e.minTtl <= t < end)
      && (Freshness(e, now, maxStale).Expired? <==> end <= t)
  {
  }

  /** It may still be served at now. */
  predicate Servable(e: CacheEntry, now: nat, maxStale: nat) {
    Max(now, e.cachedAt) < e.cachedAt + Min(e.minTtl + maxStale, MAX_U64)
  }

  // ----- The time an entry may live -----

  function Signed(msg: Message): seq<Record> {
    msg.answers + msg.authority
  }

  /** Seconds that a signature still runs at now; not positive once it expired. */
  function Remaining(sig: Rrsig, now: nat): int {
    Diff(sig.expiration, Low(now))
  }

  ghost predicate Unexpired(msg: Message, now: nat) {
    forall r <- Signed(msg) :: r.data.RrsigData? ==> Remaining(r.data.sig, now) > 0
  }

  /** A signature anywhere in the answers or the authority section counts, and it has so
      long to run: its expiration is that far from now on the unwrapped clock. */
  lemma UnexpiredExactly(msg: Message, now: nat)
    ensures Unexpired(msg, now) <==>
      forall r | (r in msg.answers || r in msg.authority) && r.data.RrsigData? :: Remaining(r.data.sig, now) > 0
    ensures forall sig :: (now + Remaining(sig, now)) % MODULUS == sig.expiration && 0 <= Remaining(sig, now) + HALF < MODULUS
  {
  }

  /** ttl is the longest time, up to the smallest TTL, within every signature's run. */
  ghost predicate BoundedBySignatures(msg: Message, now: nat, ttl: U32) {
    if Unexpired(msg, now) then
      && ttl <= MinTtl(msg)
      && (forall r <- Signed(msg) :: r.data.RrsigData? ==> ttl <= Remaining(r.data.sig, now))
      && (ttl == MinTtl(msg) || exists r <- Signed(msg) :: r.data.RrsigData? && ttl == Remaining(r.data.sig, now))
    else ttl == 0
  }

  ghost predicate CacheTtlOf(msg: Message, status: DnssecStatus, now: nat, ttl: U32) {
    if status.Secure? then BoundedBySignatures(msg, now, ttl) else ttl == MinTtl(msg)
  }

  lemma CacheTtlAtMost(msg: Message, status: DnssecStatus, now: nat, a: U32, b: U32)
    requires CacheTtlOf(msg, status, now, a) && CacheTtlOf(msg, status, now, b)
    ensures a <= b
  {
    if status.Secure? && Unexpired(msg, now) && b != MinTtl(msg) {
      var r :| r in Signed(msg) && r.data.RrsigData? && b == Remaining(r.data.sig, now);
      assert a <= Remaining(r.data.sig, now);
    }
  }

  /** The conditions above leave one value. */
  lemma CacheTtlUnique(msg: Message, status: DnssecStatus, now: nat, a: U32, b: U32)
    requires CacheTtlOf(msg, status, now, a) && CacheTtlOf(msg, status, now, b)
    ensures a == b
  {
    CacheTtlAtMost(msg, status, now, a, b);
    CacheTtlAtMost(msg, status, now, b, a);
  }

  method CalculateCacheTtl(msg: Message, status: DnssecStatus, now: nat) returns (ttl: U32)
    ensures CacheTtlOf(msg, status, now, ttl)
  {
    ttl := CalculateMinTtl(msg);
    if status.Secure? {
      var records := Signed(msg);
      var minValidity: U32 := MAX_TTL;
      for i := 0 to |records|
        invariant forall j :: 0 <= j < i && records[j].data.RrsigData? ==> 0 < Remaining(records[j].data.sig, now)
        invariant forall j :: 0 <= j < i && records[j].data.RrsigData? ==> minValidity <= Remaining(records[j].data.sig, now)
        invariant minValidity == MAX_TTL
                  || exists j :: 0 <= j < i && records[j].data.RrsigData? && minValidity == Remaining(records[j].data.sig, now)
      {
        if records[i].data.RrsigData? {
          var diff := Remaining(records[i].data.sig, now);
          if diff > 0 {
            minValidity := if diff < minValidity then diff else minValidity;
          } else {
            assert records[i] in records;
            return 0;
          }
        }
      }
      if minValidity != MAX_TTL {
        ttl := Min(ttl, minValidity);
      }
    }
  }

  // ----- Responses -----

  datatype Request = Request(rtype: RecordType, dnssecOk: bool, authenticData: bool, checkingDisabled: bool, edns: bool)

  datatype Response = Response(
    code: ResponseCode, authenticData: bool, checkingDisabled: bool, edns: bool,
    answers: seq<Record>, authority: seq<Record>, additionals: seq<Record>)

  predicate IsDnssecRecord(t: RecordType) {
    t in {RRSIG, NSEC, NSEC3}
  }

  predicate Shown(r: Record, req: Request) {
    req.dnssecOk || !IsDnssecRecord(r.Type()) || r.Type() == req.rtype
  }

  /** now.saturating_sub(cached_at) as u32 */
  function Age(now: nat, cachedAt: nat): U32 {
    SaturatingSub(now, cachedAt) % MODULUS
  }

  function ServedTtl(ttl: U32, freshness: CacheFreshness, age: U32): U32 {
    match freshness
    case Fresh => SaturatingSub(ttl, age)
    case Stale => STALE_SERVE_TTL
    case Expired => 0
  }

  /** The shown records of a section with their served TTLs, in order. */
  function Section(records: seq<Record>, req: Request, freshness: CacheFreshness, age: U32): seq<Record> {
    if records == [] then []
    else
      var init, r := Section(records[..|records| - 1], req, freshness, age), records[|records| - 1];
      if Shown(r, req) then init + [r.(ttl := ServedTtl(r.ttl, freshness, age))] else init
  }

  predicate AuthenticData(status: DnssecStatus, freshness: CacheFreshness, req: Request) {
    status.Secure? && freshness.Fresh? && (req.dnssecOk || req.authenticData) && !req.checkingDisabled
  }

  function Respond(msg: Message, status: DnssecStatus, freshness: CacheFreshness, cachedAt: nat, req: Request,
                   now: nat): Response {
    var age := Age(now, cachedAt);
    Response(
      msg.code, AuthenticData(status, freshness, req), req.checkingDisabled, req.edns,
      Section(msg.answers, req, freshness, age),
      Section(msg.authority, req, freshness, age),
      Section(WithoutOpt(msg.additionals), req, freshness, age))
  }

  // ----- What a response conveys of its message -----

  /** DNSSEC records are for clients that ask for them, by the flag or by type. */
  predicate MayShow(r: Record, req: Request) {
    req.dnssecOk || r.Type() !in {RRSIG, NSEC, NSEC3} || r.Type() == req.rtype
  }

  /** x is r but for its TTL: less by its age while fresh, 30 seconds when stale. */
  predicate IsServed(r: Record, x: Record, freshness: CacheFreshness, age: U32) {
    && x.name == r.name && x.class_ == r.class_ && x.data == r.data
    && match freshness
       case Fresh => x.ttl == if age <= r.ttl then r.ttl - age else 0
       case Stale => x.ttl == 30
       case Expired => x.ttl == 0
  }

  function ShownTo(req: Request): Record -> bool {
    (r: Record) => MayShow(r, req)
  }

  function ServedAs(freshness: CacheFreshness, age: U32): (Record, Record) -> bool {
    (r: Record, x: Record) => IsServed(r, x, freshness, age)
  }

  /** resp answers req with what msg says: its code, and of each section the records shown
      to this client, all of them, in their order; AD exactly if the message is Secure,
      fresh, the client wants to know and did not ask to do without checking. */
  ghost predicate Conveys(resp: Response, msg: Message, status: DnssecStatus, freshness: CacheFreshness, age: U32,
                          req: Request) {
    && resp.code == msg.code && resp.checkingDisabled == req.checkingDisabled && resp.edns == req.edns
    && (resp.authenticData <==>
          status == Secure && freshness == Fresh && (req.dnssecOk || req.authenticData) && !req.checkingDisabled)
    && Selects(msg.answers, ShownTo(req), ServedAs(freshness, age), resp.answers)
    && Selects(msg.authority, ShownTo(req), ServedAs(freshness, age), resp.authority)
    && Selects(msg.additionals, Both(NoOpt(), ShownTo(req)), ServedAs(freshness, age), resp.additionals)
  }

  lemma {:induction false} SectionSelects(records: seq<Record>, req: Request, freshness: CacheFreshness, age: U32)
    ensures Selects(records, ShownTo(req), ServedAs(freshness, age), Section(records, req, freshness, age))
  {
    if records != [] {
      var init, r := records[..|records| - 1], records[|records| - 1];
      assert records == init + [r];
      SectionSelects(init, req, freshness, age);
      if ShownTo(req)(r) {
        var x := r.(ttl := ServedTtl(r.ttl, freshness, age));
        SelectsSnoc(init, r, ShownTo(req), ServedAs(freshness, age), Section(init, req, freshness, age), x);
      } else {
        SelectsSkip(init, r, ShownTo(req), ServedAs(freshness, age), Section(init, req, freshness, age));
      }
    }
  }

  lemma RespondConveys(msg: Message, status: DnssecStatus, freshness: CacheFreshness, cachedAt: nat, req: Request, now: nat)
    ensures Conveys(Respond(msg, status, freshness, cachedAt, req, now), msg, status, freshness, Age(now, cachedAt), req)
  {
    var age := Age(now, cachedAt);
    SectionSelects(msg.answers, req, freshness, age);
    SectionSelects(msg.authority, req, freshness, age);
    SectionSelects(WithoutOpt(msg.additionals), req, freshness, age);
    WithoutOptSelects(msg.additionals);
    SelectsThen(msg.additionals, NoOpt(), WithoutOpt(msg.additionals), ShownTo(req), ServedAs(freshness, age),
      Section(WithoutOpt(msg.additionals), req, freshness, age));
  }

  /** There is one such response. */
  lemma ConveysUnique(a: Response, b: Response, msg: Message, status: DnssecStatus, freshness: CacheFreshness, age: U32,
                      req: Request)
    requires Conveys(a, msg, status, freshness, age, req) && Conveys(b, msg, status, freshness, age, req)
    ensures a == b
  {
    SelectsUnique(msg.answers, ShownTo(req), ServedAs(freshness, age), a.answers, b.answers);
    SelectsUnique(msg.authority, ShownTo(req), ServedAs(freshness, age), a.authority, b.authority);
    SelectsUnique(msg.additionals, Both(NoOpt(), ShownTo(req)), ServedAs(freshness, age), a.additionals, b.additionals);
  }

  method BuildSection(records: seq<Record>, req: Request, freshness: CacheFreshness, age: U32) returns (s: seq<Record>)
    ensures s == Section(records, req, freshness, age)
  {
    s := [];
    for i := 0 to |records|
      invariant s == Section(records[..i], req, freshness, age)
    {
      var r := records[i];
      assert records[..i + 1][..i] == records[..i];
      if !req.dnssecOk && IsDnssecRecord(r.Type()) && r.Type() != req.rtype {
        continue;
      }
      s := s + [r.(ttl := ServedTtl(r.ttl, freshness, age))];
    }
    assert records[..|records|] == records;
  }

  method ConstructClientResponse(msg: Message, status: DnssecStatus, freshness: CacheFreshness, cachedAt: nat,
                                 req: Request, now: nat)
    returns (resp: Response)
    ensures resp == Respond(msg, status, freshness, cachedAt, req, now)
    ensures Conveys(resp, msg, status, freshness, Age(now, cachedAt), req)
  {
    RespondConveys(msg, status, freshness, cachedAt, req, now);
    var clientWantsAd := req.dnssecOk || req.authenticData;
    var ad := status == Secure && freshness == Fresh && clientWantsAd && !req.checkingDisabled;
    var age := Age(now, cachedAt);
    var answers := BuildSection(msg.answers, req, freshness, age);
    var authority := BuildSection(msg.authority, req, freshness, age);
    var additionals := BuildSection(WithoutOpt(msg.additionals), req, freshness, age);
    resp := Response(msg.code, ad, req.checkingDisabled, req.edns, answers, authority, additionals);
  }

  // ----- The machine -----

  /** now: the clock; running: one element per revalidation task alive; disk: the
      last file written. */
  datatype State = State(
    now: nat, cache: map<Key, CacheEntry>, inFlight: set<Key>, running: multiset<Key>, disk: map<Key, CacheEntry>)

  /** Each task reads the clock before it acts on the cache; `at` is that reading. */
  datatype Step =
    | Tick(later: nat)
    | Hit(key: Key, at: nat)
    | MissDone(key: Key, at: nat, msg: Message, status: DnssecStatus, ttl: U32)
    | Revalidated(key: Key, at: nat, msg: Message, status: DnssecStatus, ttl: U32)
    | RevalidationEnds(key: Key)
    | Preloaded(key: Key, at: nat, msg: Message, status: DnssecStatus, ttl: U32)
    | Save(at: nat)
    | Restart(readable: set<Key>, at: nat)

  /** What a verdict on a message for a key must be backed by. */
  type Backing = (Key, Message, DnssecStatus) -> bool

  /** A validation gave this verdict and the TTL is the calculated one. */
  ghost predicate Judged(backed: Backing, key: Key, at: nat, msg: Message, status: DnssecStatus, ttl: U32) {
    (Cacheable(status) ==> backed(key, msg, status)) && CacheTtlOf(msg, status, at, ttl)
  }

  /** What must hold for a step to be possible. */
  ghost predicate Enabled(s: State, step: Step, backed: Backing) {
    match step
    case Tick(later) => s.now <= later
    case Hit(_, at) => at <= s.now
    case MissDone(key, at, msg, status, ttl) => at <= s.now && Judged(backed, key, at, msg, status, ttl)
    case Revalidated(key, at, msg, status, ttl) =>
      key in s.running && at <= s.now && Judged(backed, key, at, msg, status, ttl)
    case RevalidationEnds(key) => key in s.running
    case Preloaded(key, at, msg, status, ttl) => at <= s.now && Judged(backed, key, at, msg, status, ttl)
    case Save(at) => at <= s.now
    case Restart(_, at) => at <= s.now
  }

  function Unspoiled(m: map<Key, CacheEntry>, now: nat, maxStale: nat): map<Key, CacheEntry> {
    map k | k in m && Freshness(m[k], now, maxStale) != Expired :: m[k]
  }

  function Insert(cache: map<Key, CacheEntry>, key: Key, msg: Message, status: DnssecStatus, ttl: U32, at: nat)
    : map<Key, CacheEntry>
  {
    cache[key := CacheEntry(msg, ttl, at, at, status)]
  }

  function Apply(s: State, step: Step, maxStale: nat): State {
    match step
    case Tick(later) => s.(now := later)
    case Hit(key, at) =>
      if key in s.cache && Freshness(s.cache[key], at, maxStale) == Stale && key !in s.inFlight
      then s.(inFlight := s.inFlight + {key}, running := s.running + multiset{key})
      else s
    case MissDone(key, at, msg, status, ttl) =>
      if CacheableCode(msg) && Cacheable(status)
      then s.(cache := Insert(s.cache, key, msg, status, ttl, at)) else s
    case Revalidated(key, at, msg, status, ttl) =>
      if status.Bogus? then s
      else if CacheableCode(msg) && Cacheable(status)
      then s.(cache := Insert(s.cache, key, msg, status, ttl, at))
      else if key in s.cache then s.(cache := s.cache[key := s.cache[key].(lastRevalidatedAt := at)])
      else s
    case RevalidationEnds(key) => s.(inFlight := s.inFlight - {key}, running := s.running - multiset{key})
    case Preloaded(key, at, msg, status, ttl) =>
      if CacheableCode(msg) && !status.Bogus? && !status.InsecureUnknown?
      then s.(cache := Insert(s.cache, key, msg, status, ttl, at)) else s
    case Save(at) => s.(disk := Unspoiled(s.cache, at, maxStale))
    case Restart(readable, at) =>
      s.(cache := Unspoiled(map k | k in s.disk && k in readable :: s.disk[k], at, maxStale),
         inFlight := {}, running := multiset{})
  }

  ghost predicate EntryOk(key: Key, e: CacheEntry, now: nat, backed: Backing) {
    && Cacheable(e.status)
    && backed(key, e.msg, e.status)
    && CacheableCode(e.msg)
    && e.cachedAt <= now
    && CacheTtlOf(e.msg, e.status, e.cachedAt, e.minTtl)
  }

  ghost predicate EntriesOk(m: map<Key, CacheEntry>, now: nat, backed: Backing) {
    forall k <- m :: EntryOk(k, m[k], now, backed)
  }

  ghost predicate Inv(s: State, backed: Backing) {
    && EntriesOk(s.cache, s.now, backed)
    && EntriesOk(s.disk, s.now, backed)
    && (forall k: Key :: s.running[k] == if k in s.inFlight then 1 else 0)
  }

  ghost predicate Initial(s: State) {
    s.cache == map[] && s.disk == map[] && s.inFlight == {} && s.running == multiset{}
  }

  /** states is a run of the machine taking the listed steps. */
  ghost predicate IsRun(states: seq<State>, steps: seq<Step>, maxStale: nat, backed: Backing) {
    && |states| == |steps| + 1
    && Initial(states[0])
    && forall i :: 0 <= i < |steps| ==>
         Enabled(states[i], steps[i], backed) && states[i + 1] == Apply(states[i], steps[i], maxStale)
  }

  lemma StepKeepsInv(s: State, step: Step, maxStale: nat, backed: Backing)
    requires Inv(s, backed) && Enabled(s, step, backed)
    ensures Inv(Apply(s, step, maxStale), backed)
    ensures s.now <= Apply(s, step, maxStale).now
  {
  }

  /** In every state of every run all entries, in memory and on disk, are Secure
      or proven unsigned, backed as a verdict must be, with the TTL their
      signatures allow; and the in-flight set is exactly the set of keys with a
      running revalidation, one each. */
  lemma {:induction false} RunKeepsInv(states: seq<State>, steps: seq<Step>, maxStale: nat, backed: Backing, i: nat)
    requires IsRun(states, steps, maxStale, backed) && i < |states|
    ensures Inv(states[i], backed)
  {
    if i > 0 {
      RunKeepsInv(states, steps, maxStale, backed, i - 1);
      StepKeepsInv(states[i - 1], steps[i - 1], maxStale, backed);
    }
  }

  // ----- What each step changes -----

  ghost predicate SameElsewhere(m: map<Key, CacheEntry>, n: map<Key, CacheEntry>, key: Key) {
    forall k: Key | k != key :: (k in m <==> k in n) && (k in m ==> m[k] == n[k])
  }

  /** The answer of a miss, a revalidation or a preload is stored exactly if its code is
      NoError or NXDomain and its verdict Secure or InsecureUnsigned; otherwise an entry
      there is kept as it is, but for the mark that a revalidation not ending Bogus leaves. */
  lemma StoresExactly(s: State, step: Step, maxStale: nat)
    requires step.MissDone? || step.Revalidated? || step.Preloaded?
    ensures
      var t, fits := Apply(s, step, maxStale),
                     step.msg.code in {NoError, NXDomain} && step.status in {Secure, InsecureUnsigned};
      && t.now == s.now && t.inFlight == s.inFlight && t.running == s.running && t.disk == s.disk
      && SameElsewhere(s.cache, t.cache, step.key)
      && (step.key in t.cache <==> fits || step.key in s.cache)
      && (fits ==> t.cache[step.key] == CacheEntry(step.msg, step.ttl, step.at, step.at, step.status))
      && (!fits && step.key in s.cache ==>
            t.cache[step.key] == s.cache[step.key].(lastRevalidatedAt :=
              if step.Revalidated? && !step.status.Bogus? then step.at else s.cache[step.key].lastRevalidatedAt))
  {
  }

  /** A hit changes nothing but that it starts one revalidation, for a stale entry whose
      key has none in flight. */
  lemma HitStarts(s: State, key: Key, at: nat, maxStale: nat)
    ensures
      var t := Apply(s, Hit(key, at), maxStale);
      var starts := key in s.cache && Servable(s.cache[key], at, maxStale)
                    && Max(at, s.cache[key].cachedAt) >= s.cache[key].cachedAt + s.cache[key].minTtl && key !in s.inFlight;
      && t.now == s.now && t.cache == s.cache && t.disk == s.disk
      && (starts ==> t.inFlight == s.inFlight + {key} && t.running == s.running + multiset{key})
      && (!starts ==> t == s)
  {
    if key in s.cache { FreshnessExactly(s.cache[key], at, maxStale); }
  }

  /** Saving and restarting keep exactly the entries that may still be served. */
  lemma DiskExactly(s: State, readable: set<Key>, at: nat, maxStale: nat, k: Key)
    ensures
      var saved, restarted := Apply(s, Save(at), maxStale), Apply(s, Restart(readable, at), maxStale);
      && (k in saved.disk <==> k in s.cache && Servable(s.cache[k], at, maxStale))
      && (k in saved.disk ==> saved.disk[k] == s.cache[k]) && saved.cache == s.cache
      && (k in restarted.cache <==> k in s.disk && k in readable && Servable(s.disk[k], at, maxStale))
      && (k in restarted.cache ==> restarted.cache[k] == s.disk[k])
      && restarted.inFlight == {} && restarted.running == multiset{} && restarted.disk == s.disk
  {
    if k in s.cache { FreshnessExactly(s.cache[k], at, maxStale); }
    if k in s.disk { FreshnessExactly(s.disk[k], at, maxStale); }
  }

  // ----- What a hit may claim -----

  /** While a Secure entry is fresh, every signature it holds is unexpired in
      serial order, across the 32-bit rollover; for a reading from before the
      entry was made, at the moment it was made. */
  lemma FreshMeansUnexpired(key: Key, e: CacheEntry, now: nat, backed: Backing, at: nat, maxStale: nat)
    requires EntryOk(key, e, now, backed) && e.status.Secure? && Freshness(e, at, maxStale).Fresh?
    ensures Unexpired(e.msg, Max(at, e.cachedAt))
  {
    var moment := Max(at, e.cachedAt);
    forall r <- Signed(e.msg) | r.data.RrsigData? ensures Remaining(r.data.sig, moment) > 0 {
      assert e.minTtl <= Remaining(r.data.sig, e.cachedAt);
      DiffAges(r.data.sig.expiration, e.cachedAt, moment);
    }
  }

  /** On a fresh hit every served TTL is at least 1. If the entry is not newer
      than the reading, the age is not truncated, no TTL saturates, and each runs
      out at a moment fixed when the entry was made; an entry made after the
      reading is served unaged, and runs out before that moment. */
  lemma FreshTtl(key: Key, e: CacheEntry, now: nat, backed: Backing, at: nat, maxStale: nat, r: Record)
    requires EntryOk(key, e, now, backed) && Freshness(e, at, maxStale).Fresh? && r in AllRecords(e.msg)
    ensures
      var served := ServedTtl(r.ttl, Fresh, Age(at, e.cachedAt));
      && served >= 1
      && (e.cachedAt <= at ==> Age(at, e.cachedAt) == at - e.cachedAt <= r.ttl && at + served == e.cachedAt + r.ttl)
      && (e.cachedAt > at ==> served == r.ttl && at + served < e.cachedAt + r.ttl)
  {
    MinTtlBounds(e.msg);
    assert e.minTtl <= MinTtl(e.msg) <= r.ttl;
  }

  /** The response that a hit with this reading gives. */
  function HitResponse(e: CacheEntry, at: nat, maxStale: nat, req: Request): Response {
    Respond(e.msg, e.status, Freshness(e, at, maxStale), e.cachedAt, req, at)
  }

  /** The response conveys the entry's message: as fresh, aged by the time since the entry
      was made, until minTtl seconds have passed; from then on as stale. */
  ghost predicate HitConveys(e: CacheEntry, at: nat, req: Request, resp: Response) {
    var age := Max(at, e.cachedAt) - e.cachedAt;
    if age < e.minTtl then Conveys(resp, e.msg, e.status, Fresh, age, req)
    else Conveys(resp, e.msg, e.status, Stale, Age(at, e.cachedAt), req)
  }

  lemma HitResponseConveys(e: CacheEntry, at: nat, maxStale: nat, req: Request)
    requires Servable(e, at, maxStale)
    ensures HitConveys(e, at, req, HitResponse(e, at, maxStale, req))
  {
    FreshnessExactly(e, at, maxStale);
    RespondConveys(e.msg, e.status, Freshness(e, at, maxStale), e.cachedAt, req, at);
  }

  /** In every run: a hit answered with AD set is fresh, Secure, asked for and
      backed, and all its signatures are unexpired at its reading or, if the entry
      is newer, when the entry was made; neither lies in the future. */
  lemma AdOnlyWhileSigned(states: seq<State>, steps: seq<Step>, maxStale: nat, backed: Backing, i: nat, key: Key,
                          at: nat, req: Request)
    requires IsRun(states, steps, maxStale, backed) && i < |steps| && steps[i] == Hit(key, at) && key in states[i].cache
    requires HitResponse(states[i].cache[key], at, maxStale, req).authenticData
    ensures
      var e := states[i].cache[key];
      && e.status.Secure? && Freshness(e, at, maxStale).Fresh?
      && (req.dnssecOk || req.authenticData) && !req.checkingDisabled
      && backed(key, e.msg, Secure)
      && Unexpired(e.msg, Max(at, e.cachedAt)) && Max(at, e.cachedAt) <= states[i].now
  {
    RunKeepsInv(states, steps, maxStale, backed, i);
    FreshMeansUnexpired(key, states[i].cache[key], states[i].now, backed, at, maxStale);
  }

  /** The loop over all entries that the save and the load share. */
  method CopyUnspoiled(m: map<Key, CacheEntry>, now: nat, maxStale: nat) returns (kept: map<Key, CacheEntry>)
    ensures kept == Unspoiled(m, now, maxStale)
  {
    kept := map[];
    var todo := m.Keys;
    while todo != {}
      invariant todo <= m.Keys
      invariant forall k :: k in kept <==> k in m && k !in todo && Freshness(m[k], now, maxStale) != Expired
      invariant forall k <- kept :: kept[k] == m[k]
      decreases |todo|
    {
      var k :| k in todo;
      if Freshness(m[k], now, maxStale) != Expired {
        kept := kept[k := m[k]];
      }
      todo := todo - {k};
    }
  }

  // ----- The program's state and its atomic operations -----

  datatype Outcome = Success(response: Response) | ServFailed

  class AppState {
    const maxStale: nat
    const dnssecEnforce: bool
    ghost const backed: Backing
    var clock: nat
    var cache: map<Key, CacheEntry>
    var inFlight: set<Key>
    var file: map<Key, CacheEntry>
    /** The revalidation tasks alive. */
    ghost var running: multiset<Key>

    constructor (maxStale: nat, dnssecEnforce: bool, ghost backed: Backing, now: nat)
      ensures Valid() && Initial(View()) && clock == now && this.maxStale == maxStale && this.backed == backed
    {
      this.maxStale := maxStale;
      this.dnssecEnforce := dnssecEnforce;
      this.backed := backed;
      clock, cache, inFlight, file, running := now, map[], {}, map[], multiset{};
    }

    ghost function View(): State
      reads this
    {
      State(clock, cache, inFlight, running, file)
    }

    ghost predicate Valid()
      reads this
    {
      Inv(View(), backed)
    }

    method NowSecs() returns (now: nat)
      requires Valid()
      modifies this`clock
      ensures Valid() && now == clock >= old(clock)
      ensures View() == Apply(old(View()), Tick(now), maxStale)
    {
      now :| now >= clock;
      clock := now;
    }

    /** The cache-hit path after a clock reading: a fresh or stale entry is served,
        and a stale one starts a revalidation unless one is in flight. */
    method ServeHit(key: Key, at: nat, req: Request) returns (resp: Option<Response>)
      requires Valid() && at <= clock
      modifies this`inFlight, this`running
      ensures Valid() && View() == Apply(old(View()), Hit(key, at), maxStale)
      ensures resp.Some? <==> key in cache && Servable(cache[key], at, maxStale)
      ensures resp.Some? ==>
        resp.value == HitResponse(cache[key], at, maxStale, req) && HitConveys(cache[key], at, req, resp.value)
      ensures resp.Some? && resp.value.authenticData ==>
        cache[key].status.Secure? && Unexpired(cache[key].msg, Max(at, cache[key].cachedAt))
    {
      if key !in cache {
        return None;
      }
      var e := cache[key];
      FreshnessExactly(e, at, maxStale);
      var freshness := Freshness(e, at, maxStale);
      if freshness == Expired {
        return None;
      }
      if freshness == Stale && key !in inFlight {
        inFlight := inFlight + {key};
        running := running + multiset{key};
      }
      var r := ConstructClientResponse(e.msg, e.status, freshness, e.cachedAt, req, at);
      assert r == HitResponse(e, at, maxStale, req);
      HitResponseConveys(e, at, maxStale, req);
      if r.authenticData {
        FreshMeansUnexpired(key, e, clock, backed, at, maxStale);
      }
      resp := Some(r);
    }

    /** What a miss answers, for a query that read the clock at `at`. */
    ghost function MissOutcome(at: nat, req: Request, result: Option<Message>, status: DnssecStatus): Outcome {
      match result
      case None => ServFailed
      case Some(msg) =>
        if status.Bogus? && dnssecEnforce && !req.checkingDisabled then ServFailed
        else Success(Respond(msg, status, Fresh, at, req, at))
    }

    /** The end of the miss path. */
    method FinishMiss(key: Key, at: nat, req: Request, result: Option<Message>, status: DnssecStatus)
      returns (outcome: Outcome, ghost ttl: U32)
      requires Valid() && at <= clock
      requires result.Some? && Cacheable(status) ==> backed(key, result.value, status)
      modifies this`cache
      ensures Valid()
      ensures result.None? ==> View() == old(View())
      ensures result.Some? ==>
        && CacheTtlOf(result.value, status, at, ttl)
        && View() == Apply(old(View()), MissDone(key, at, result.value, status, ttl), maxStale)
      ensures outcome == MissOutcome(at, req, result, status)
      ensures result.Some? && CacheableCode(result.value) && Cacheable(status) ==>
        key in cache && cache[key] == CacheEntry(result.value, ttl, at, at, status)
      ensures outcome.ServFailed? <==> result.None? || (status.Bogus? && dnssecEnforce && !req.checkingDisabled)
      ensures outcome.Success? ==> Conveys(outcome.response, result.value, status, Fresh, 0, req)
    {
      ttl := 0;
      if result.None? {
        return ServFailed, ttl;
      }
      var msg := result.value;
      var minTtl := CalculateCacheTtl(msg, status, at);
      ttl := minTtl;
      StepKeepsInv(View(), MissDone(key, at, msg, status, ttl), maxStale, backed);
      if status == Bogus && dnssecEnforce && !req.checkingDisabled {
        return ServFailed, ttl;
      }
      if CacheableCode(msg) && Cacheable(status) {
        cache := cache[key := CacheEntry(msg, minTtl, at, at, status)];
      }
      assert Age(at, at) == 0;
      var resp := ConstructClientResponse(msg, status, Fresh, at, req, at);
      outcome := Success(resp);
    }

    /** What a revalidation task does with its answer. */
    method StoreRevalidated(key: Key, at: nat, msg: Message, status: DnssecStatus) returns (ghost ttl: U32)
      requires Valid() && key in running && at <= clock
      requires Cacheable(status) ==> backed(key, msg, status)
      modifies this`cache
      ensures Valid()
      ensures CacheTtlOf(msg, status, at, ttl)
      ensures View() == Apply(old(View()), Revalidated(key, at, msg, status, ttl), maxStale)
      ensures CacheableCode(msg) && Cacheable(status) ==> key in cache && cache[key] == CacheEntry(msg, ttl, at, at, status)
    {
      var minTtl := CalculateCacheTtl(msg, status, at);
      ttl := minTtl;
      StepKeepsInv(View(), Revalidated(key, at, msg, status, ttl), maxStale, backed);
      if status == Bogus {
        return;
      }
      if CacheableCode(msg) && Cacheable(status) {
        cache := cache[key := CacheEntry(msg, minTtl, at, at, status)];
      } else if key in cache {
        cache := cache[key := cache[key].(lastRevalidatedAt := at)];
      }
    }

    method EndRevalidation(key: Key)
      requires Valid() && key in running
      modifies this`inFlight, this`running
      ensures Valid() && View() == Apply(old(View()), RevalidationEnds(key), maxStale)
      ensures key !in running && key !in inFlight
    {
      inFlight := inFlight - {key};
      running := running - multiset{key};
    }

    method Preload(key: Key, at: nat, msg: Message, status: DnssecStatus) returns (ghost ttl: U32)
      requires Valid() && at <= clock
      requires Cacheable(status) ==> backed(key, msg, status)
      modifies this`cache
      ensures Valid()
      ensures CacheTtlOf(msg, status, at, ttl)
      ensures View() == Apply(old(View()), Preloaded(key, at, msg, status, ttl), maxStale)
      ensures CacheableCode(msg) && Cacheable(status) ==> key in cache && cache[key] == CacheEntry(msg, ttl, at, at, status)
    {
      var minTtl := CalculateCacheTtl(msg, status, at);
      ttl := minTtl;
      StepKeepsInv(View(), Preloaded(key, at, msg, status, ttl), maxStale, backed);
      if CacheableCode(msg) {
        if status == Bogus || status == InsecureUnknown {
          return;
        }
        cache := cache[key := CacheEntry(msg, minTtl, at, at, status)];
      }
    }

    method SaveToDisk(at: nat)
      requires Valid() && at <= clock
      modifies this`file
      ensures Valid() && View() == Apply(old(View()), Save(at), maxStale)
    {
      StepKeepsInv(View(), Save(at), maxStale, backed);
      file := CopyUnspoiled(cache, at, maxStale);
    }

    /** A new process: nothing in flight, and in memory the entries of the file
        that still decode and have not expired. */
    method RestartFromDisk(readable: set<Key>, at: nat)
      requires Valid() && at <= clock
      modifies this`cache, this`inFlight, this`running
      ensures Valid() && View() == Apply(old(View()), Restart(readable, at), maxStale)
    {
      StepKeepsInv(View(), Restart(readable, at), maxStale, backed);
      inFlight, running := {}, multiset{};
      cache := CopyUnspoiled(map k | k in file && k in readable :: file[k], at, maxStale);
    }

    /** Other tasks step, and time passes; nobody else ends the revalidations that
        the caller has alive. */
    method OthersStep(ghost own: multiset<Key>)
      requires Valid() && own <= running
      modifies this
      ensures Valid() && clock >= old(clock) && own <= running
    {
      var _ := NowSecs();
    }
  }
}
