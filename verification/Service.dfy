/** Queries, revalidations and preloading from end to end: the cache, the resolver
    and the validator together. */
module Service {
  import opened Records
  import opened Status
  import opened Engine
  import opened Trust
  import opened Authenticity
  import opened History
  import opened Serial
  import opened Refusal
  import Resolver
  import Validator

  /** The answer section decides the message; otherwise its authority section does. */
  predicate Positive(msg: Message) {
    msg.code.NoError? && msg.answers != []
  }

  ghost predicate SecureProof(prim: Primitives, key: Key, msg: Message) {
    if Positive(msg) then exists ev :: AnswerSecure(prim, key.name, key.rtype, msg.answers, ev)
    else NegativeAccepted(prim, msg, key.name, key.rtype, Secure)
  }

  ghost predicate UnsignedProof(prim: Primitives, key: Key, msg: Message) {
    if Positive(msg) then AnswerUnsigned(prim, key.name, key.rtype, msg.answers)
    else NegativeUnsigned(prim, msg) || NegativeAccepted(prim, msg, key.name, key.rtype, InsecureUnsigned)
  }

  /** The proof that a verdict which may be cached rests on. */
  ghost predicate Proven(prim: Primitives, key: Key, msg: Message, status: DnssecStatus) {
    match status
    case Secure => SecureProof(prim, key, msg)
    case InsecureUnsigned => UnsignedProof(prim, key, msg)
    case _ => false
  }

  ghost function Proofs(prim: Primitives): Backing {
    (key: Key, msg: Message, status: DnssecStatus) => Proven(prim, key, msg, status)
  }

  /** In every run whose verdicts come from validations: every entry, in memory and
      on disk, has the proof of the validation that produced it. */
  lemma EntriesProven(prim: Primitives, states: seq<State>, steps: seq<Step>, maxStale: nat, i: nat, key: Key)
    requires IsRun(states, steps, maxStale, Proofs(prim)) && i < |states|
    ensures key in states[i].cache ==> Proven(prim, key, states[i].cache[key].msg, states[i].cache[key].status)
    ensures key in states[i].disk ==> Proven(prim, key, states[i].disk[key].msg, states[i].disk[key].status)
  {
    RunKeepsInv(states, steps, maxStale, Proofs(prim), i);
    if key in states[i].cache {
      assert EntryOk(key, states[i].cache[key], states[i].now, Proofs(prim));
    }
    if key in states[i].disk {
      assert EntryOk(key, states[i].disk[key], states[i].now, Proofs(prim));
    }
  }

  /** In every run: a positive hit answered with AD set shows data published by the
      zones above the owners involved, if those zones sign honestly. */
  lemma AdAuthentic(prim: Primitives, w: World, states: seq<State>, steps: seq<Step>, maxStale: nat, i: nat,
                    key: Key, at: nat, req: Request)
    requires IsRun(states, steps, maxStale, Proofs(prim)) && i < |steps| && steps[i] == Hit(key, at) && key in states[i].cache
    requires HitResponse(states[i].cache[key], at, maxStale, req).authenticData && Positive(states[i].cache[key].msg)
    requires Unforgeable(prim, w)
    requires forall n :: Involved(n, key.name, key.rtype, states[i].cache[key].msg.answers) ==> HonestPath(w, n)
    ensures AnswerPublished(w, key.name, key.rtype, states[i].cache[key].msg.answers)
  {
    var msg := states[i].cache[key].msg;
    AdOnlyWhileSigned(states, steps, maxStale, Proofs(prim), i, key, at, req);
    assert Proven(prim, key, msg, Secure);
    var ev :| AnswerSecure(prim, key.name, key.rtype, msg.answers, ev);
    AnswerGenuine(prim, w, key.name, key.rtype, msg.answers, ev);
  }

  /** The same for a negative hit: its denial is true of the zone it names. */
  lemma AdDenialTrue(prim: Primitives, w: World, reg: Registry, states: seq<State>, steps: seq<Step>, maxStale: nat, i: nat,
                     key: Key, at: nat, req: Request)
    requires IsRun(states, steps, maxStale, Proofs(prim)) && i < |steps| && steps[i] == Hit(key, at) && key in states[i].cache
    requires HitResponse(states[i].cache[key], at, maxStale, req).authenticData && !Positive(states[i].cache[key].msg)
    requires Unforgeable(prim, w) && HonestAbout(prim, w, reg, states[i].cache[key].msg, key.name)
    ensures exists zone :: DeniedBy(prim, reg, zone, states[i].cache[key].msg, key.name, key.rtype)
  {
    AdOnlyWhileSigned(states, steps, maxStale, Proofs(prim), i, key, at, req);
    assert Proven(prim, key, states[i].cache[key].msg, Secure);
    NegativeGenuine(prim, w, reg, states[i].cache[key].msg, key.name, key.rtype);
  }

  /** A message that one validation between two clock readings found Secure, all its
      walks having arrived with keys in date. */
  ghost predicate ValidatedWithin(prim: Primitives, granted: set<Grant>, key: Key, msg: Message, ev: Evidence,
                                  from: nat, to: nat) {
    && from <= ev.start && ev.end <= to && Sourced(prim, granted, ev.log, NoEvent, ev.start)
    && if Positive(msg) then AnswerSecure(prim, key.name, key.rtype, msg.answers, ev)
       else NegativeHeld(prim, msg, key.name, key.rtype, Secure, ev)
  }

  /** Its answer section then holds, for the RRset at the end of its redirections, a
      signature that was within its run at a reading between the two, made with a key in date. */
  lemma SignedWithin(prim: Primitives, granted: set<Grant>, key: Key, msg: Message, ev: Evidence, from: nat, to: nat)
    requires ValidatedWithin(prim, granted, key, msg, ev, from, to) && Positive(msg)
    ensures
      var owner := FinalOwner(key.name, ChainOf(key.name, key.rtype, msg.answers).steps);
      exists r, keys, k, now: nat ::
        && Signs(prim, owner, key.rtype, msg.answers, r, keys, k, now) && from <= now <= to && prim.isReading(now)
        && UsedInDate(granted, ev.log, ev.start, r.data.sig.signer, keys)
  {
    var owner := FinalOwner(key.name, ChainOf(key.name, key.rtype, msg.answers).steps);
    AnswerSigned(prim, granted, key.name, key.rtype, msg.answers, ev);
    var r, keys, k, now: nat :|
      && Signs(prim, owner, key.rtype, msg.answers, r, keys, k, now)
      && ev.start <= now <= ev.end && prim.isReading(now) && Arrived(ev.log, r.data.sig.signer, keys);
    ArrivedInDate(prim, granted, ev.log, ev.start, r.data.sig.signer, keys);
  }

  /** Without answers it is the SOA, and every record of the denial, that have one. */
  lemma DenialSignedWithin(prim: Primitives, granted: set<Grant>, key: Key, msg: Message, ev: Evidence, from: nat, to: nat,
                           r: Record)
    requires ValidatedWithin(prim, granted, key, msg, ev, from, to) && !Positive(msg)
    requires FirstSoa(msg.authority) == Some(r) || r in DenialRecords(msg.authority)
    ensures exists sig, now: nat ::
      && sig in SigsAt(msg.authority, r.name, r.Type())
      && InRun(sig.expiration, sig.inception, now) && from <= now <= to && prim.isReading(now)
    ensures UsedInDate(granted, ev.log, ev.start, ev.log.last.zone, ev.log.last.keys)
  {
    var keys := ev.log.last.keys;
    assert RecordSigned(prim, keys, r, msg.authority, ev.start, ev.end);
    var sig, k, now: nat :|
      && sig in SigsAt(msg.authority, r.name, r.Type()) && ev.start <= now <= ev.end && prim.isReading(now)
      && SignedBy(prim, keys, sig, k, r.name, RrsetOf(msg.authority, r.name, r.Type()), now);
    ArrivedInDate(prim, granted, ev.log, ev.start, ev.log.last.zone, keys);
  }

  /** How a query was served, for its contract. */
  datatype Served =
    | FromCache(entry: CacheEntry)
    | Unresolved
    | FromUpstream(msg: Message, status: DnssecStatus, story: Resolver.Story, ev: Evidence)

  class Server {
    const state: AppState
    const recursor: Resolver.RecursiveResolver
    const validator: Validator.DnssecValidator

    constructor (state: AppState, recursor: Resolver.RecursiveResolver, validator: Validator.DnssecValidator)
      requires state.Valid() && recursor.Valid() && validator.Valid() && state.backed == Proofs(validator.prim)
      ensures Valid()
      ensures this.state == state && this.recursor == recursor && this.validator == validator
    {
      this.state := state;
      this.recursor := recursor;
      this.validator := validator;
    }

    ghost predicate Valid()
      reads state, recursor, validator
    {
      state.Valid() && recursor.Valid() && validator.Valid() && state.backed == Proofs(validator.prim)
    }

    /** The message is what the resolver made of what it heard after since, and the verdict
        that of a validation begun at reading from or later. */
    ghost predicate Upstream(key: Key, served: Served, since: Resolver.Trace, from: nat)
      requires served.FromUpstream?
      reads recursor, validator
    {
      && Resolver.Final(served.msg.code)
      && Resolver.Tells(served.story, key.name, key.rtype, Resolver.Resolved(served.msg), recursor.heard, since)
      && (Cacheable(served.status) ==> Proven(validator.prim, key, served.msg, served.status))
      && (served.status.Secure? ==>
            ValidatedWithin(validator.prim, validator.granted.Keys, key, served.msg, served.ev, from, validator.clock))
    }

    /** It is in the cache, as of this reading. */
    ghost predicate Kept(key: Key, served: Served, at: nat)
      requires served.FromUpstream?
      reads state
    {
      CacheableCode(served.msg) && Cacheable(served.status) ==>
        && key in state.cache && state.cache[key].msg == served.msg
        && state.cache[key].status == served.status && state.cache[key].cachedAt == at
    }

    /** A message for the key from upstream, with the verdict of one validation. */
    method ResolveAndValidate(key: Key, ghost own: multiset<Key>)
      returns (msg: Option<Message>, status: DnssecStatus, ghost served: Served)
      requires Valid() && own <= state.running
      modifies state, recursor, validator
      ensures Valid() && state.clock >= old(state.clock) && own <= state.running
      ensures if msg.None? then served.Unresolved?
              else served.FromUpstream? && served.msg == msg.value && served.status == status
      ensures served.FromUpstream? ==> Upstream(key, served, old(recursor.heard), old(validator.clock))
    {
      var r, _, story := recursor.Resolve(key.name, key.rtype);
      match r
      case Failed(_) =>
        msg, status, served := None, InsecureUnknown, Unresolved;
      case Resolved(m) =>
        var verdict, budget := validator.ValidateMessage(m, key.name, key.rtype);
        msg, status := Some(m), verdict;
        served := FromUpstream(m, verdict, story, budget.Seen(validator.clock));
      state.OthersStep(own);
    }

    /** The clock reading of a query and its cache-hit path. */
    method TryCache(key: Key, req: Request) returns (resp: Option<Response>, at: nat, ghost served: Served)
      requires Valid()
      modifies state
      ensures Valid() && old(state.clock) <= at <= state.clock
      ensures resp.Some? <==> key in state.cache && Servable(state.cache[key], at, state.maxStale)
      ensures resp.Some? ==>
        && served == FromCache(state.cache[key]) && HitProven(key, req, at, resp.value, served.entry)
    {
      at := state.NowSecs();
      state.OthersStep(multiset{});
      resp := state.ServeHit(key, at, req);
      served := Unresolved;
      if resp.Some? {
        assert EntryOk(key, state.cache[key], state.clock, state.backed);
        served := FromCache(state.cache[key]);
      }
    }

    /** The response is that of an entry which has not expired and has its proof. */
    ghost predicate HitProven(key: Key, req: Request, at: nat, resp: Response, e: CacheEntry) {
      && HitConveys(e, at, req, resp) && Servable(e, at, state.maxStale)
      && Proven(validator.prim, key, e.msg, e.status)
    }

    /** What a message from upstream is answered with: with dnssec_enforce a Bogus one is
        refused unless the client disabled checking. */
    ghost predicate Answered(outcome: Outcome, msg: Message, status: DnssecStatus, req: Request) {
      if status.Bogus? && state.dnssecEnforce && !req.checkingDisabled then outcome == ServFailed
      else outcome.Success? && Conveys(outcome.response, msg, status, Fresh, 0, req)
    }

    /** The cache-miss path after a clock reading. */
    method ResolveMiss(key: Key, at: nat, req: Request) returns (outcome: Outcome, ghost served: Served)
      requires Valid() && at <= state.clock
      modifies state, recursor, validator
      ensures Valid() && state.clock >= old(state.clock) && !served.FromCache?
      ensures served.Unresolved? ==> outcome == ServFailed
      ensures served.FromUpstream? ==>
        && Answered(outcome, served.msg, served.status, req)
        && Upstream(key, served, old(recursor.heard), old(validator.clock)) && Kept(key, served, at)
    {
      var msg, status;
      msg, status, served := ResolveAndValidate(key, multiset{});
      ghost var ttl;
      outcome, ttl := state.FinishMiss(key, at, req, msg, status);
    }

    /** One client query that the rate limiter let through: answered from an entry
        with its proof, or from a message resolved and validated for it, which is
        then in the cache if it may be. AD=1 always has a proof of Secure behind it. */
    method ProcessQuery(key: Key, req: Request) returns (outcome: Outcome, ghost at: nat, ghost served: Served)
      requires Valid()
      modifies state, recursor, validator
      ensures Valid() && old(state.clock) <= at <= state.clock
      ensures served.FromCache? ==>
        && outcome.Success? && HitProven(key, req, at, outcome.response, served.entry)
        && key in state.cache && state.cache[key] == served.entry
      ensures served.Unresolved? ==> outcome == ServFailed
      ensures served.FromUpstream? ==>
        && Answered(outcome, served.msg, served.status, req)
        && Upstream(key, served, old(recursor.heard), old(validator.clock)) && Kept(key, served, at)
      ensures outcome.Success? && outcome.response.authenticData ==>
        && !served.Unresolved?
        && SecureProof(validator.prim, key, if served.FromCache? then served.entry.msg else served.msg)
        && (served.FromUpstream? ==> served.status.Secure?)
    {
      var hit, now;
      hit, now, served := TryCache(key, req);
      at := now;
      if hit.Some? {
        outcome := Success(hit.value);
      } else {
        outcome, served := ResolveMiss(key, now, req);
      }
    }

    /** The task that a stale hit starts. */
    method Revalidate(key: Key) returns (ghost served: Served, ghost at: nat)
      requires Valid() && key in state.running
      modifies state, recursor, validator
      ensures Valid() && key !in state.running && key !in state.inFlight
      ensures served.FromUpstream? ==>
        Upstream(key, served, old(recursor.heard), old(validator.clock)) && Kept(key, served, at) && at >= old(state.clock)
    {
      var msg, status;
      msg, status, served := ResolveAndValidate(key, multiset{key});
      at := state.clock;
      if msg.Some? && status != Bogus {
        var now := state.NowSecs();
        at := now;
        state.OthersStep(multiset{key});
        var _ := state.StoreRevalidated(key, now, msg.value, status);
      }
      state.EndRevalidation(key);
    }

    /** Preloading one key at start-up; keys that are cached already are skipped. */
    method Warm(key: Key) returns (ghost served: Served, ghost at: nat)
      requires Valid()
      modifies state, recursor, validator
      ensures Valid()
      ensures key in old(state.cache) ==> state.View() == old(state.View()) && served.Unresolved?
      ensures served.FromUpstream? ==>
        Upstream(key, served, old(recursor.heard), old(validator.clock)) && Kept(key, served, at) && at >= old(state.clock)
    {
      served, at := Unresolved, state.clock;
      if key in state.cache {
        return;
      }
      var msg, status;
      msg, status, served := ResolveAndValidate(key, multiset{});
      if msg.Some? && CacheableCode(msg.value) {
        var now := state.NowSecs();
        at := now;
        state.OthersStep(multiset{});
        var _ := state.Preload(key, now, msg.value, status);
      }
    }
  }
}
