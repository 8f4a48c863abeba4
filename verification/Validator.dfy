/** The DNSSEC validator: its shared caches, its signature budget and the nested
    stages of one validation. */
module Validator {
  import opened Names
  import opened Records
  import opened Status
  import opened Redirection
  import opened Trust
  import opened Refusal
  import opened History
  import opened Serial
  import opened Arithmetic
  import opened Ttl
  import Tbs
  import Nsec
  import Nsec3

  const PER_VALIDATION_MAX_SIG_CHECKS: nat := 24

  datatype CachedZoneKeys = CachedZoneKeys(keys: seq<Dnskey>, expiresAt: nat)

  datatype ZoneSignedness = Signed | ProvablyUnsigned | Unknown

  datatype SignedZoneEntry = SignedZoneEntry(signedness: ZoneSignedness, expiresAt: nat)

  datatype ChainOutcome = Trusted(keys: seq<Dnskey>, ttl: U32) | Unsigned(ttl: U32) | BrokenChain

  datatype KeyTrial = Accepted | Declined | OutOfBudget

  datatype SigTrial = Proven | Fatal | Unproven | UnsignedSigner

  datatype DsOutcome = Anchors(anchors: seq<Anchor>, ttl: U32) | NoSecureEntry(ttl: U32) | BadDs

  /** The work budget of one validation. Ghost fields count the signature
      verifications made under it, remember whether it ever said no, and record
      what the validation saw. */
  class ValidationBudget {
    var sigChecks: nat
    const maxSigChecks: nat
    ghost var verifyCalls: nat
    ghost var refused: bool
    ghost var log: Log
    ghost var trials: set<Trial>
    /** A clock reading from before the validation. */
    ghost const start: nat

    constructor (ghost start: nat)
      ensures Valid() && !refused && log == NoEvent && trials == {} && this.start == start && sigChecks == 0
      ensures maxSigChecks == PER_VALIDATION_MAX_SIG_CHECKS
    {
      sigChecks := 0;
      maxSigChecks := PER_VALIDATION_MAX_SIG_CHECKS;
      verifyCalls := 0;
      refused := false;
      log, trials := NoEvent, {};
      this.start := start;
    }

    ghost predicate Valid()
      reads this`verifyCalls, this`sigChecks
    {
      verifyCalls <= sigChecks <= maxSigChecks
    }

    /** What was seen up to a reading. */
    ghost function Seen(now: nat): Evidence
      reads this`log, this`trials
    {
      Evidence(log, trials, start, now)
    }

    method CanCheckSig() returns (ok: bool)
      requires Valid() && !refused
      modifies this`sigChecks, this`refused
      ensures Valid()
      ensures ok == (old(sigChecks) < maxSigChecks)
      ensures sigChecks == if ok then old(sigChecks) + 1 else old(sigChecks)
      ensures refused == !ok
    {
      if sigChecks >= maxSigChecks {
        refused := true;
        ok := false;
      } else {
        sigChecks := sigChecks + 1;
        ok := true;
      }
    }
  }

  /** What a cached signedness claims about a zone. */
  ghost predicate Substantiated(prim: Primitives, z: Name, s: ZoneSignedness) {
    match s
    case Signed => exists keys :: Derived(prim, z, keys)
    case ProvablyUnsigned => ProvenUnsigned(prim, z)
    case Unknown => false
  }

  ghost predicate AllAbove(path: seq<Name>, target: Name) {
    forall k :: 0 <= k < |path| ==> ZoneOf(path[k], target)
  }

  lemma AboveChild(path: seq<Name>, target: Name)
    requires target != [] && AllAbove(path, target[1..])
    ensures AllAbove(path + [target], target)
  {
    forall k | 0 <= k < |path| ensures ZoneOf(path[k], target) {
      ZoneOfBase(path[k], target);
    }
  }

  /** The names from the root down to target. */
  function PathFromRoot(target: Name): (path: seq<Name>)
    ensures |path| == |target| + 1 && path[0] == [] && path[|target|] == target
    ensures forall k :: 0 < k < |path| ==> path[k] != [] && path[k][1..] == path[k - 1]
    ensures AllAbove(path, target)
  {
    if target == [] then [[]]
    else
      var path := PathFromRoot(target[1..]);
      AboveChild(path, target);
      path + [target]
  }

  /** Every cached key set derives from the root anchors. */
  ghost predicate KeysSound(prim: Primitives, m: map<Name, CachedZoneKeys>) {
    forall z <- m :: Derived(prim, z, m[z].keys)
  }

  /** Every cached key set is a grant. */
  ghost predicate Remembered(granted: set<Grant>, m: map<Name, CachedZoneKeys>) {
    forall z <- m :: Grant(z, m[z].keys, m[z].expiresAt) in granted
  }

  /** Every grant rests on its response. */
  ghost predicate AllRest(prim: Primitives, granted: map<Grant, Basis>, now: nat) {
    forall g {:trigger Rests(prim, g, granted[g], now)} | g in granted :: Rests(prim, g, granted[g], now)
  }

  lemma AllRestInsert(prim: Primitives, granted: map<Grant, Basis>, now: nat, g: Grant, b: Basis)
    requires AllRest(prim, granted, now) && Rests(prim, g, b, now)
    ensures AllRest(prim, granted[g := b], now)
  {
    var more := granted[g := b];
    forall x <- more ensures Rests(prim, x, more[x], now) {
      assert x != g ==> Rests(prim, x, granted[x], now);
    }
  }

  lemma AllRestLater(prim: Primitives, granted: map<Grant, Basis>, now: nat, later: nat)
    requires AllRest(prim, granted, now) && now <= later
    ensures AllRest(prim, granted, later)
  {
    forall g <- granted ensures Rests(prim, g, granted[g], later) {
      assert Rests(prim, g, granted[g], now);
    }
  }

  /** Every zone on the way to target has keys in the cache that live past now. */
  ghost predicate AllLive(m: map<Name, CachedZoneKeys>, target: Name, now: nat) {
    forall z | ZoneOf(z, target) :: LiveKeys(m, z, now)
  }

  /** r are the cached keys of target, with the lifetime that nothing was fetched for. */
  predicate FromEntry(m: map<Name, CachedZoneKeys>, target: Name, r: ChainOutcome) {
    target in m && r == Trusted(m[target].keys, DEFAULT_TTL)
  }

  predicate LiveKeys(m: map<Name, CachedZoneKeys>, z: Name, now: nat) {
    z in m && m[z].expiresAt > now
  }

  /** What the cached signedness of name and its ancestors says at now: the entries that
      count are a live one for name itself, and live ones that prove a zone unsigned. */
  ghost predicate Recalled(m: map<Name, SignedZoneEntry>, name: Name, s: ZoneSignedness, now: nat) {
    match s
    case Signed => CountsSigned(m, name, name, now)
    case ProvablyUnsigned => exists z :: ZoneOf(z, name) && CountsUnsigned(m, z, now)
    case Unknown => forall z | ZoneOf(z, name) :: Uncounted(m, name, z, now)
  }

  ghost predicate Uncounted(m: map<Name, SignedZoneEntry>, name: Name, z: Name, now: nat) {
    !CountsSigned(m, name, z, now) && !CountsUnsigned(m, z, now)
  }

  /** Nothing below cur on the way to name counts. */
  ghost predicate NoneCounts(m: map<Name, SignedZoneEntry>, name: Name, cur: Name, now: nat) {
    forall z {:trigger Uncounted(m, name, z, now)} | ZoneOf(z, name) && !ZoneOf(z, cur) :: Uncounted(m, name, z, now)
  }

  lemma NoneCountsNext(m: map<Name, SignedZoneEntry>, name: Name, cur: Name, now: nat, later: nat)
    requires NoneCounts(m, name, cur, now) && now <= later && cur != [] && Uncounted(m, name, cur, later)
    ensures NoneCounts(m, name, BaseName(cur), later)
  {
    forall z | ZoneOf(z, name) && !ZoneOf(z, BaseName(cur)) ensures Uncounted(m, name, z, later) {
      ZoneOfBase(z, cur);
      assert z != cur ==> Uncounted(m, name, z, now);
    }
  }

  lemma NoneCountsRoot(m: map<Name, SignedZoneEntry>, name: Name, now: nat, later: nat)
    requires NoneCounts(m, name, [], now) && now <= later && Uncounted(m, name, [], later)
    ensures Recalled(m, name, Unknown, later)
  {
    forall z | ZoneOf(z, name) ensures Uncounted(m, name, z, later) {
      assert z != [] ==> Uncounted(m, name, z, now);
    }
  }

  ghost predicate CountsSigned(m: map<Name, SignedZoneEntry>, name: Name, z: Name, now: nat) {
    z == name && z in m && m[z].signedness.Signed? && m[z].expiresAt > now
  }

  ghost predicate CountsUnsigned(m: map<Name, SignedZoneEntry>, z: Name, now: nat) {
    z in m && m[z].signedness.ProvablyUnsigned? && m[z].expiresAt > now
  }

  lemma KeysSoundInsert(prim: Primitives, m: map<Name, CachedZoneKeys>, zone: Name, entry: CachedZoneKeys)
    requires KeysSound(prim, m) && Derived(prim, zone, entry.keys)
    ensures KeysSound(prim, m[zone := entry])
  {
    var n := m[zone := entry];
    forall z <- n ensures Derived(prim, z, n[z].keys) {
      assert z == zone || z in m;
    }
  }

  /** Every cached signedness has its proof. */
  ghost predicate SignedSound(prim: Primitives, m: map<Name, SignedZoneEntry>) {
    forall z <- m :: Substantiated(prim, z, m[z].signedness)
  }

  lemma SignedSoundInsert(prim: Primitives, m: map<Name, SignedZoneEntry>, zone: Name, entry: SignedZoneEntry)
    requires SignedSound(prim, m) && Substantiated(prim, zone, entry.signedness)
    ensures SignedSound(prim, m[zone := entry])
  {
    var n := m[zone := entry];
    forall z <- n ensures Substantiated(prim, z, n[z].signedness) {
      assert z == zone || z in m;
    }
  }

  lemma UnsignedStepDecides(prim: Primitives, name: Name, t: RecordType, records: seq<Record>, steps: seq<Step>, step: Step)
    requires ChainOf(name, t, records) == Complete(steps) && step in steps && StepUnsigned(prim, step)
    ensures AnswerUnsigned(prim, name, t, records)
  {
    var n := if ProvenUnsigned(prim, Justification(step).0) then Justification(step).0 else step.inputName;
    assert Involved(n, name, t, records);
  }

  /** The queries went upward from name and none showed an apex. */
  ghost predicate AllSilent(name: Name, asked: seq<Event>) {
    forall k :: 0 <= k < |asked| ==>
      k <= |name| && asked[k].Asked? && asked[k].name == name[k..] && ShowsApex(name, asked[k], None)
  }

  lemma SilentNext(name: Name, before: seq<Event>, e: Event)
    requires |before| <= |name| && AllSilent(name, before)
    requires e.Asked? && e.name == name[|before|..] && ShowsApex(name, e, None)
    ensures AllSilent(name, before + [e])
  {
  }

  lemma SearchEnds(name: Name, before: seq<Event>, e: Event, apex: Option<Name>)
    requires |before| <= |name| && AllSilent(name, before)
    requires e.Asked? && e.name == name[|before|..] && ShowsApex(name, e, apex)
    requires apex.None? ==> |before| == |name|
    ensures Searched(name, before + [e], apex)
  {
  }

  /** Every hop of an answer's chain comes from an RRset of that answer. */
  lemma StepsJustified(name: Name, t: RecordType, records: seq<Record>, steps: seq<Step>)
    requires ChainOf(name, t, records) == Complete(steps)
    ensures forall step <- steps :: JustifiedIn(step, records)
  {
    if t != CNAME {
      CollectedDescribes(records, name);
      forall i | 0 <= i < |steps| ensures JustifiedIn(steps[i], records) {
        HopJustified(records, Orbit(records, name, i).value);
      }
    }
  }

  lemma HopJustified(records: seq<Record>, n: Name)
    requires NextStep(records, n).Some?
    ensures JustifiedIn(NextStep(records, n).value, records)
  {
    CnameJustified(records, n);
    DnameJustified(records, n);
  }

  lemma {:induction false} CnameJustified(records: seq<Record>, n: Name)
    ensures CnameTarget(records, n).Some? ==> RrsetOf(records, n, CNAME) != []
  {
    if records != [] {
      CnameJustified(records[1..], n);
    }
  }

  lemma {:induction false} DnameJustified(records: seq<Record>, n: Name)
    ensures DnameRedirect(records, n).Some? ==>
      DnameRedirect(records, n).value.DnameStep? && JustifiedIn(DnameRedirect(records, n).value, records)
  {
    if records != [] {
      DnameJustified(records[1..], n);
    }
  }

  class DnssecValidator {
    const prim: Primitives
    /** The latest reading of the wall clock. */
    var clock: nat
    var keyCache: map<Name, CachedZoneKeys>
    var signedCache: map<Name, SignedZoneEntry>
    /** All key sets ever accepted, whether they are still cached or not. */
    ghost var granted: map<Grant, Basis>

    constructor (prim: Primitives, now: nat)
      requires prim.isReading(now) && prim.rootAnchors == ROOT_TRUST_ANCHORS
      ensures Valid() && this.prim == prim
      ensures keyCache == map[] && signedCache == map[] && granted == map[]
    {
      this.prim := prim;
      clock := now;
      keyCache := map[];
      signedCache := map[];
      granted := map[];
    }

    /** Every cached key set derives from the root anchors and every cached
        signedness has its proof, whoever wrote the entry and when. */
    ghost predicate Valid()
      reads this
    {
      && prim.isReading(clock)
      && KeysSound(prim, keyCache)
      && SignedSound(prim, signedCache)
      && AllRest(prim, granted, clock)
      && Remembered(granted.Keys, keyCache)
    }

    /** The budget of a running validation; all keys that its walks have arrived with
        were in date. */
    ghost predicate Sound(budget: ValidationBudget)
      reads this`granted, budget
    {
      budget.Valid() && Sourced(prim, granted.Keys, budget.log, NoEvent, budget.start)
    }

    /** All that the walk which began at reading began, after since, has arrived with. */
    ghost predicate Walking(since: Log, began: nat, budget: ValidationBudget)
      reads this`granted, budget
    {
      && Sound(budget) && budget.start <= began
      && Sourced(prim, granted.Keys, budget.log, since, began) && Continues(budget.log, since)
    }

    method NowSecs() returns (now: nat)
      requires Valid()
      modifies this`clock
      ensures Valid() && now == clock >= old(clock)
    {
      now :| now >= clock && prim.isReading(now);
      AllRestLater(prim, granted, clock, now);
      clock := now;
    }

    /** An upstream query: any answer or none, after any time. Other tasks run
        meanwhile, so callers learn nothing of the caches but Valid(). */
    method Resolve(name: Name, rtype: RecordType, ghost since: Log, ghost began: nat, ghost budget: ValidationBudget)
      returns (r: Option<Message>)
      requires Valid() && Walking(since, began, budget)
      modifies this, budget`log
      ensures Valid() && clock >= old(clock) && Walking(since, began, budget) && old(granted.Keys) <= granted.Keys
      ensures budget.log == Then(old(budget.log), Asked(name, rtype, r))
    {
      r := *;
      SourcedNext(prim, granted.Keys, budget.log, Asked(name, rtype, r), NoEvent, budget.start);
      SourcedNext(prim, granted.Keys, budget.log, Asked(name, rtype, r), since, began);
      budget.log := Then(budget.log, Asked(name, rtype, r));
      var _ := NowSecs();
    }

    method VerifyRrsig(sig: Rrsig, key: Dnskey, owner: Name, rrset: seq<Record>, ghost budget: ValidationBudget)
      returns (ok: bool)
      requires Valid() && budget.Valid() && budget.verifyCalls < budget.sigChecks
      modifies this`clock, budget`verifyCalls
      ensures Valid() && clock >= old(clock)
      ensures budget.Valid() && budget.verifyCalls == old(budget.verifyCalls) + 1
      ensures ok == Verifies(prim, sig, key, owner, rrset, clock)
    {
      budget.verifyCalls := budget.verifyCalls + 1;
      var now := NowSecs();
      RunExactly(sig.expiration, sig.inception, now);
      if !InWindow(sig.expiration, sig.inception, now) {
        return false;
      }
      if sig.algorithm != key.algorithm {
        return false;
      }
      var tbs := Tbs.Build(prim, sig, owner, rrset);
      match tbs
      case None => ok := false;
      case Some(octets) => ok := prim.signatureHolds(sig.algorithm, key.publicKey, octets, sig.signature);
    }

    /** The loop over signatures and tag-matching keys shared by the DS, DNSKEY
        and denial stages; it stops for good when the budget says no. */
    method VerifyAny(sigs: seq<Rrsig>, keys: seq<Dnskey>, owner: Name, rrset: seq<Record>, budget: ValidationBudget)
      returns (ok: bool)
      requires Valid() && budget.Valid() && !budget.refused && budget.start <= clock
      modifies this`clock, budget`sigChecks, budget`verifyCalls, budget`refused
      ensures Valid() && clock >= old(clock) && budget.Valid()
      ensures ok ==> !budget.refused && SignedDuring(prim, keys, sigs, owner, rrset, budget.start, clock)
      ensures !ok && !budget.refused ==> Rejected(prim, keys, sigs, owner, rrset, budget.start, clock)
    {
      ghost var start := budget.start;
      for i := 0 to |sigs|
        invariant Valid() && clock >= old(clock) && budget.Valid() && !budget.refused
        invariant Rejected(prim, keys, sigs[..i], owner, rrset, start, clock)
      {
        for j := 0 to |keys|
          invariant Valid() && clock >= old(clock) && budget.Valid() && !budget.refused
          invariant Rejected(prim, keys, sigs[..i], owner, rrset, start, clock)
          invariant Rejected(prim, keys[..j], [sigs[i]], owner, rrset, start, clock)
        {
          ghost var t := clock;
          if prim.keyTag(keys[j]) == sigs[i].keyTag {
            var may := budget.CanCheckSig();
            if !may {
              return false;
            }
            ok := VerifyRrsig(sigs[i], keys[j], owner, rrset, budget);
            if ok {
              assert SignedBy(prim, keys, sigs[i], keys[j], owner, rrset, clock);
              return true;
            }
            assert FailsDuring(prim, sigs[i], keys[j], owner, rrset, start, clock);
            RejectedLater(prim, keys, sigs[..i], owner, rrset, start, t, clock);
            RejectedLater(prim, keys[..j], [sigs[i]], owner, rrset, start, t, clock);
          }
          assert keys[..j + 1] == keys[..j] + [keys[j]];
        }
        assert keys[..|keys|] == keys;
        assert sigs[..i + 1] == sigs[..i] + [sigs[i]];
      }
      assert sigs[..|sigs|] == sigs;
      ok := false;
    }

    method VerifyNegativeRrset(rec: Record, authority: seq<Record>, keys: seq<Dnskey>, budget: ValidationBudget)
      returns (ok: bool)
      requires Valid() && budget.Valid() && !budget.refused && budget.start <= clock && rec in authority
      modifies this`clock, budget`sigChecks, budget`verifyCalls, budget`refused
      ensures Valid() && clock >= old(clock) && budget.Valid()
      ensures ok ==> !budget.refused && RecordSigned(prim, keys, rec, authority, budget.start, clock)
      ensures !ok && !budget.refused ==> RecordRejected(prim, keys, rec, authority, budget.start, clock)
    {
      var owner, rtype := rec.name, rec.Type();
      var sigs := SigsAt(authority, owner, rtype);
      if sigs == [] {
        return false;
      }
      var fullRrset := RrsetOf(authority, owner, rtype);
      // rec itself is in it, so the program's test for an empty set never fires
      RrsetListed(authority, owner, rtype);
      assert fullRrset != [];
      ok := VerifyAny(sigs, keys, owner, fullRrset, budget);
    }

    /** The loop over the records of a denial: every one must verify. */
    method VerifyAll(records: seq<Record>, authority: seq<Record>, keys: seq<Dnskey>, budget: ValidationBudget)
      returns (ok: bool)
      requires Valid() && budget.Valid() && !budget.refused && budget.start <= clock && forall r <- records :: r in authority
      modifies this`clock, budget`sigChecks, budget`verifyCalls, budget`refused
      ensures Valid() && clock >= old(clock) && budget.Valid()
      ensures ok ==> !budget.refused && AllSigned(prim, keys, records, authority, budget.start, clock)
      ensures !ok && !budget.refused ==> SomeRejected(prim, keys, records, authority, budget.start, clock)
    {
      for i := 0 to |records|
        invariant Valid() && clock >= old(clock) && budget.Valid() && !budget.refused
        invariant AllSigned(prim, keys, records[..i], authority, budget.start, clock)
      {
        ghost var t := clock;
        ok := VerifyNegativeRrset(records[i], authority, keys, budget);
        if !ok {
          return false;
        }
        AllSignedLater(prim, keys, records[..i], authority, budget.start, t, clock);
        assert records[..i + 1] == records[..i] + [records[i]];
      }
      assert records[..|records|] == records;
      ok := true;
    }

    /** validate_nsec and validate_nsec3 as called for an authority section: the
        verdict of the records shown once all of them verify, otherwise Bogus;
        unusable hash parameters are reported before any signature is tried. */
    method ValidateDenial(keys: seq<Dnskey>, qname: Name, qtype: RecordType, authority: seq<Record>, budget: ValidationBudget)
      returns (status: DnssecStatus)
      requires Valid() && budget.Valid() && !budget.refused && budget.start <= clock
      modifies this`clock, budget`sigChecks, budget`verifyCalls, budget`refused
      ensures Valid() && clock >= old(clock) && budget.Valid()
      ensures budget.refused ==> status == Bogus
      ensures Cacheable(status) ==>
        && Denied(prim, keys, qname, qtype, authority, status)
        && AllSigned(prim, keys, DenialRecords(authority), authority, budget.start, clock)
      ensures !Cacheable(status) && !budget.refused ==>
        DenialRefused(prim, keys, qname, qtype, authority, status, budget.start, clock)
    {
      if HasType(authority, NSEC3) {
        status := ValidateNsec3(keys, qname, qtype, authority, budget);
      } else if HasType(authority, NSEC) {
        status := ValidateNsec(keys, qname, qtype, authority, budget);
      } else {
        status := Bogus;
      }
    }

    method ValidateNsec(keys: seq<Dnskey>, qname: Name, qtype: RecordType, authority: seq<Record>, budget: ValidationBudget)
      returns (status: DnssecStatus)
      requires Valid() && budget.Valid() && !budget.refused && budget.start <= clock
      requires HasType(authority, NSEC) && !HasType(authority, NSEC3)
      modifies this`clock, budget`sigChecks, budget`verifyCalls, budget`refused
      ensures Valid() && clock >= old(clock) && budget.Valid()
      ensures budget.refused ==> status == Bogus
      ensures Cacheable(status) ==>
        && Denied(prim, keys, qname, qtype, authority, status)
        && AllSigned(prim, keys, DenialRecords(authority), authority, budget.start, clock)
      ensures !Cacheable(status) && !budget.refused ==>
        DenialRefused(prim, keys, qname, qtype, authority, status, budget.start, clock)
    {
      var records := NsecRecords(authority);
      var ok := VerifyAll(records, authority, keys, budget);
      if !ok {
        return Bogus;
      }
      SignedIsVouched(prim, keys, records, authority, budget.start, clock);
      var nodata := Nsec.CheckNodata(qname, qtype, records);
      if nodata.Some? {
        return nodata.value;
      }
      var closest := Nsec.FindClosestEncloser(qname, records);
      if closest.None? {
        return Bogus;
      }
      var wildcard := Nsec.CheckWildcardNodata(qname, qtype, closest.value, records);
      if wildcard.Some? {
        return wildcard.value;
      }
      status := Nsec.CheckNxdomain(qname, closest.value, records).GetOr(Bogus);
    }

    method ValidateNsec3(keys: seq<Dnskey>, qname: Name, qtype: RecordType, authority: seq<Record>, budget: ValidationBudget)
      returns (status: DnssecStatus)
      requires Valid() && budget.Valid() && !budget.refused && budget.start <= clock && HasType(authority, NSEC3)
      modifies this`clock, budget`sigChecks, budget`verifyCalls, budget`refused
      ensures Valid() && clock >= old(clock) && budget.Valid()
      ensures budget.refused ==> status == Bogus
      ensures Cacheable(status) ==>
        && Denied(prim, keys, qname, qtype, authority, status)
        && AllSigned(prim, keys, DenialRecords(authority), authority, budget.start, clock)
      ensures !Cacheable(status) && !budget.refused ==>
        DenialRefused(prim, keys, qname, qtype, authority, status, budget.start, clock)
    {
      var records := Nsec3Records(authority);
      var first := records[0].data;
      if !first.Nsec3Data? {
        return Bogus;
      }
      if first.algorithm != NSEC3_SHA1 {
        return InsecureUnknown;
      }
      if first.iterations > MAX_NSEC3_ITERATIONS {
        return InsecureUnknown;
      }
      if !SameParameters(records, first) {
        return Bogus;
      }
      var ok := VerifyAll(records, authority, keys, budget);
      if !ok {
        return Bogus;
      }
      SignedIsVouched(prim, keys, records, authority, budget.start, clock);
      var h := HasherOf(prim, first.salt, first.iterations);
      status := JudgeHashed(h, qname, qtype, records);
    }

    /** The checks of validate_nsec3 after its signatures. */
    static method JudgeHashed(h: Nsec3.Hasher, qname: Name, qtype: RecordType, records: seq<Record>)
      returns (status: DnssecStatus)
      ensures status == Nsec3.Verdict(h, qname, qtype, records)
    {
      var nodata := Nsec3.CheckNodata(h, qname, qtype, records);
      if nodata.Some? {
        return nodata.value;
      }
      var closest := Nsec3.FindClosestEncloser(h, qname, records);
      if closest.None? && qtype == DS {
        closest := Some(BaseName(qname));
      }
      assert closest == Nsec3.EncloserUsed(h, qname, qtype, records);
      Nsec3.EncloserIsProper(h, qname, qtype, records);
      if closest.None? {
        return Bogus;
      }
      if closest.value == qname {
        return Bogus;
      }
      var wildcard := Nsec3.CheckWildcardNodata(h, closest.value, qtype, records);
      if wildcard.Some? {
        return wildcard.value;
      }
      var nxdomain := Nsec3.CheckNxdomain(h, qname, closest.value, qtype, records);
      status := nxdomain.GetOr(Bogus);
    }

    /** The part of build_trust_chain that judges a DS response for zone. */
    method JudgeDs(zone: Name, parentKeys: seq<Dnskey>, msg: Message, budget: ValidationBudget) returns (o: DsOutcome)
      requires Valid() && budget.Valid() && !budget.refused && budget.start <= clock
      modifies this`clock, budget`sigChecks, budget`verifyCalls, budget`refused
      ensures Valid() && clock >= old(clock) && budget.Valid()
      ensures budget.refused ==> o.BadDs?
      ensures o.Anchors? ==>
        && DsStep(prim, zone, parentKeys, msg.answers)
        && o == Anchors(SupportedAnchors(DsAt(msg.answers, zone)), MinTtl(msg))
        && o.anchors != []
      ensures o.NoSecureEntry? ==> o.ttl == MinTtl(msg) && CutUnsigned(prim, zone, parentKeys, DsSection(msg, zone))
      ensures o.BadDs? && !budget.refused ==> DsFails(prim, zone, parentKeys, msg, budget.start, clock)
    {
      var ttl := CalculateMinTtl(msg);
      var ds := DsAt(msg.answers, zone);
      if ds == [] {
        var denial := ValidateDenial(parentKeys, zone, DS, msg.authority, budget);
        if Cacheable(denial) {
          assert Denied(prim, parentKeys, zone, DS, msg.authority, denial);
          return NoSecureEntry(ttl);
        }
        if !budget.refused { RefusalIsFailure(prim, parentKeys, zone, DS, msg.authority, denial, budget.start, clock); }
        return BadDs;
      }
      var sigs := SigsCovering(msg.answers, DS);
      if sigs == [] {
        return BadDs;
      }
      var verified := VerifyAny(sigs, parentKeys, zone, RrsetOf(msg.answers, zone, DS), budget);
      if !verified {
        return BadDs;
      }
      var anchors := SupportedAnchors(ds);
      if anchors == [] {
        return NoSecureEntry(ttl);
      }
      o := Anchors(anchors, ttl);
    }

    /** The candidates that some anchor matches. */
    method MatchKeys(zone: Name, candidates: seq<Dnskey>, anchors: seq<Anchor>) returns (matched: seq<Dnskey>)
      ensures forall k :: k in matched <==> k in candidates && MatchesAnchor(prim, zone, k, anchors)
      ensures forall k <- matched :: exists a <- anchors ::
        a.keyTag == prim.keyTag(k) && a.algorithm == k.algorithm && prim.dsDigest(zone, k, a.digestType) == Some(a.digest)
      ensures forall k <- candidates, a <- anchors ::
        a.keyTag == prim.keyTag(k) && a.algorithm == k.algorithm && prim.dsDigest(zone, k, a.digestType) == Some(a.digest)
        ==> k in matched
    {
      matched := [];
      for i := 0 to |candidates|
        invariant forall k :: k in matched <==> k in candidates[..i] && MatchesAnchor(prim, zone, k, anchors)
      {
        var cand := candidates[i];
        ghost var before := matched;
        for j := 0 to |anchors|
          invariant forall k :: k in matched <==> k in before || (k == cand && MatchesAnchor(prim, zone, k, anchors[..j]))
        {
          var a := anchors[j];
          if a.keyTag == prim.keyTag(cand) && a.algorithm == cand.algorithm
             && prim.dsDigest(zone, cand, a.digestType) == Some(a.digest) {
            matched := matched + [cand];
          }
          assert anchors[..j + 1] == anchors[..j] + [a];
        }
        assert anchors[..|anchors|] == anchors;
        assert candidates[..i + 1] == candidates[..i] + [cand];
      }
      assert candidates[..|candidates|] == candidates;
    }

    /** The part of build_trust_chain that judges a DNSKEY response for zone. */
    method JudgeKeys(zone: Name, anchors: seq<Anchor>, msg: Message, budget: ValidationBudget)
      returns (keys: Option<seq<Dnskey>>, ghost matched: seq<Dnskey>)
      requires Valid() && budget.Valid() && !budget.refused && budget.start <= clock
      modifies this`clock, budget`sigChecks, budget`verifyCalls, budget`refused
      ensures Valid() && clock >= old(clock) && budget.Valid()
      ensures budget.refused ==> keys.None?
      ensures keys.Some? ==> KeyStep(prim, zone, anchors, msg.answers, matched, keys.value)
      ensures keys.None? && !budget.refused ==> KeysFail(prim, zone, anchors, msg, budget.start, clock)
    {
      matched := [];
      var candidates := KeysAt(msg.answers, zone);
      if candidates == [] {
        return None, matched;
      }
      var sigs := SigsCovering(msg.answers, DNSKEY);
      if sigs == [] {
        return None, matched;
      }
      var matchedKeys := MatchKeys(zone, candidates, anchors);
      matched := matchedKeys;
      if matchedKeys == [] {
        return None, matched;
      }
      var verified := VerifyAny(sigs, matchedKeys, zone, RrsetOf(msg.answers, zone, DNSKEY), budget);
      if !verified {
        return None, matched;
      }
      keys := Some(ZoneKeys(candidates));
    }

    /** Fetches and judges zone's DS RRset. */
    method FetchAnchors(zone: Name, parentKeys: seq<Dnskey>, ghost since: Log, ghost began: nat, budget: ValidationBudget)
      returns (ds: DsOutcome)
      requires Valid() && Walking(since, began, budget) && !budget.refused && began <= clock
      requires zone != [] && Derived(prim, zone[1..], parentKeys) && EndsHeld(budget.log, zone[1..], parentKeys)
      modifies this, budget`sigChecks, budget`verifyCalls, budget`refused, budget`log
      ensures Valid() && clock >= old(clock) && Walking(since, began, budget) && old(granted.Keys) <= granted.Keys
      ensures exists answer :: budget.log == Then(old(budget.log), Asked(zone, DS, answer))
      ensures budget.refused ==> ds.BadDs?
      ensures ds.BadDs? && !budget.refused ==> LinkBroken(prim, zone, budget.Seen(clock))
      ensures ds.Anchors? ==>
        AnchorsNow(prim, budget.log, zone, ds.anchors)
        && budget.log.last.answer.Some? && ds.ttl == MinTtl(budget.log.last.answer.value)
      ensures ds.NoSecureEntry? ==> ShownUnsigned(prim, zone, budget.log, ds.ttl)
    {
      var msg := Resolve(zone, DS, since, began, budget);
      if msg.None? {
        BrokenByDs(prim, zone, parentKeys, msg, budget.Seen(clock));
        return BadDs;
      }
      ds := JudgeDs(zone, parentKeys, msg.value, budget);
      match ds
      case BadDs => if !budget.refused { BrokenByDs(prim, zone, parentKeys, msg, budget.Seen(clock)); }
      case Anchors(anchors, _) => AnchorsAreNow(prim, budget.log, zone, parentKeys, msg.value, anchors);
      case NoSecureEntry(_) =>
    }

    /** Fetches and judges zone's DNSKEY RRset. */
    method FetchKeys(zone: Name, anchors: seq<Anchor>, dsTtl: U32, ghost since: Log, ghost began: nat,
                     budget: ValidationBudget)
      returns (r: ChainOutcome)
      requires Valid() && Walking(since, began, budget) && !budget.refused && began <= clock
      requires AnchorsNow(prim, budget.log, zone, anchors)
      requires zone != [] ==> budget.log.last.answer.Some? && dsTtl == MinTtl(budget.log.last.answer.value)
      modifies this, budget`sigChecks, budget`verifyCalls, budget`refused, budget`log
      ensures Valid() && clock >= old(clock) && Walking(since, began, budget) && old(granted.Keys) <= granted.Keys
      ensures exists answer :: budget.log == Then(old(budget.log), Asked(zone, DNSKEY, answer))
      ensures budget.refused ==> r.BrokenChain?
      ensures r.BrokenChain? && !budget.refused ==> LinkBroken(prim, zone, budget.Seen(clock))
      ensures !r.Unsigned?
      ensures r.Trusted? ==> Derived(prim, zone, r.keys) && JustFetched(budget.log, zone, r.keys, r.ttl)
    {
      ghost var before := budget.log;
      var msg := Resolve(zone, DNSKEY, since, began, budget);
      if msg.None? {
        BrokenByKeys(prim, zone, anchors, msg, budget.Seen(clock));
        return BrokenChain;
      }
      var keys;
      ghost var matched;
      keys, matched := JudgeKeys(zone, anchors, msg.value, budget);
      if keys.None? {
        if !budget.refused { BrokenByKeys(prim, zone, anchors, msg, budget.Seen(clock)); }
        return BrokenChain;
      }
      DerivedNow(prim, before, zone, anchors, msg.value.answers, matched, keys.value);
      var keyTtl := CalculateMinTtl(msg.value);
      r := Trusted(keys.value, if zone == [] then keyTtl else Min(keyTtl, dsTtl));
    }

    /** Authenticated keys enter the shared cache for their time to live. */
    method CacheKeys(zone: Name, keys: seq<Dnskey>, ttl: U32, ghost msg: Message)
      requires Valid() && Derived(prim, zone, keys)
      requires keys == ZoneKeys(KeysAt(msg.answers, zone)) && ttl <= MinTtl(msg)
      modifies this`clock, this`keyCache, this`granted
      ensures Valid() && clock >= old(clock)
      ensures keyCache == old(keyCache)[zone := CachedZoneKeys(keys, clock + ttl)]
      ensures granted == old(granted)[Grant(zone, keys, clock + ttl) := Basis(msg, clock)]
    {
      var now := NowSecs();
      var entry := CachedZoneKeys(keys, now + ttl);
      KeysSoundInsert(prim, keyCache, zone, entry);
      AllRestInsert(prim, granted, now, Grant(zone, keys, now + ttl), Basis(msg, now));
      keyCache := keyCache[zone := entry];
      granted := granted[Grant(zone, keys, now + ttl) := Basis(msg, now)];
    }

    /** One uncached zone of the walk: its keys from its parent's, or from the
        root anchors. */
    method TrustZone(zone: Name, parentKeys: seq<Dnskey>, ghost since: Log, ghost began: nat, budget: ValidationBudget)
      returns (r: ChainOutcome)
      requires Valid() && Walking(since, began, budget) && !budget.refused && began <= clock
      requires zone != [] ==> Derived(prim, zone[1..], parentKeys) && EndsHeld(budget.log, zone[1..], parentKeys)
      modifies this, budget`sigChecks, budget`verifyCalls, budget`refused, budget`log
      ensures Valid() && clock >= old(clock) && Walking(since, began, budget) && old(granted.Keys) <= granted.Keys
      ensures budget.refused ==> r.BrokenChain?
      ensures r.Trusted? ==>
        && Derived(prim, zone, r.keys) && EndsHeld(budget.log, zone, r.keys)
        && budget.log.last.source == Fetched(r.ttl) && WalkTtl(budget.log, since) == r.ttl
        && zone in keyCache && keyCache[zone].keys == r.keys && keyCache[zone].expiresAt == clock + r.ttl
      ensures r.Unsigned? ==> ShownUnsigned(prim, zone, budget.log, r.ttl)
      ensures r.BrokenChain? && !budget.refused ==> LinkBroken(prim, zone, budget.Seen(clock))
    {
      var anchors, dsTtl := prim.rootAnchors, DEFAULT_TTL;
      if zone != [] {
        var ds := FetchAnchors(zone, parentKeys, since, began, budget);
        match ds {
          case BadDs => return BrokenChain;
          case NoSecureEntry(ttl) => return Unsigned(ttl);
          case Anchors(a, ttl) => anchors, dsTtl := a, ttl;
        }
      }
      r := FetchKeys(zone, anchors, dsTtl, since, began, budget);
      if r.Trusted? {
        TakeKeys(zone, r, since, began, budget);
      }
    }

    /** The keys of an entry that has not expired: the walk has arrived with them. */
    method LookUp(zone: Name, ghost since: Log, ghost began: nat, ghost budget: ValidationBudget)
      returns (keys: Option<seq<Dnskey>>)
      requires Valid() && Walking(since, began, budget) && began <= clock
      modifies this`clock, budget`log
      ensures Valid() && clock >= old(clock) && Walking(since, began, budget)
      ensures keys.Some? <==> LiveKeys(keyCache, zone, clock)
      ensures keys.Some? ==>
        && keys.value == keyCache[zone].keys && Derived(prim, zone, keys.value) && EndsHeld(budget.log, zone, keys.value)
        && WalkTtl(budget.log, since) == WalkTtl(old(budget.log), since)
      ensures keys.None? ==> budget.log == old(budget.log)
    {
      if zone in keyCache {
        var cached := keyCache[zone];
        var now := NowSecs();
        if cached.expiresAt > now {
          ghost var e := Held(zone, cached.keys, Kept(cached.expiresAt, now));
          SourcedNext(prim, granted.Keys, budget.log, e, NoEvent, budget.start);
          SourcedNext(prim, granted.Keys, budget.log, e, since, began);
          WalkTtlNext(budget.log, e, since);
          budget.log := Then(budget.log, e);
          return Some(cached.keys);
        }
      }
      keys := None;
    }

    /** Keys just received are cached, and the walk has arrived with them. */
    method TakeKeys(zone: Name, r: ChainOutcome, ghost since: Log, ghost began: nat, ghost budget: ValidationBudget)
      requires Valid() && Walking(since, began, budget) && r.Trusted? && Derived(prim, zone, r.keys)
      requires JustFetched(budget.log, zone, r.keys, r.ttl)
      modifies this`clock, this`keyCache, this`granted, budget`log
      ensures Valid() && clock >= old(clock) && Walking(since, began, budget) && old(granted.Keys) <= granted.Keys
      ensures budget.log == Then(old(budget.log), Held(zone, r.keys, Fetched(r.ttl)))
      ensures WalkTtl(budget.log, since) == r.ttl
      ensures keyCache == old(keyCache)[zone := CachedZoneKeys(r.keys, clock + r.ttl)]
    {
      ghost var known, log, e := granted.Keys, budget.log, Held(zone, r.keys, Fetched(r.ttl));
      CacheKeys(zone, r.keys, r.ttl, budget.log.last.answer.value);
      SourcedMore(prim, known, granted.Keys, log, NoEvent, budget.start);
      SourcedMore(prim, known, granted.Keys, log, since, began);
      FetchedInDate(prim, granted.Keys, log, zone, r.keys, r.ttl, budget.start);
      FetchedInDate(prim, granted.Keys, log, zone, r.keys, r.ttl, began);
      SourcedNext(prim, granted.Keys, log, e, NoEvent, budget.start);
      SourcedNext(prim, granted.Keys, log, e, since, began);
      WalkTtlNext(log, e, since);
      budget.log := Then(log, e);
    }

    /** Keys of the target zone, zone by zone from the root: cached ones where they have
        not expired, otherwise from the DS and DNSKEY sets fetched now. */
    method BuildTrustChain(target: Name, budget: ValidationBudget) returns (r: ChainOutcome)
      requires Valid() && Sound(budget) && !budget.refused && budget.start <= clock
      modifies this, budget`sigChecks, budget`verifyCalls, budget`refused, budget`log
      ensures Valid() && clock >= old(clock) && old(granted.Keys) <= granted.Keys
      ensures Walking(old(budget.log), old(clock), budget)
      ensures budget.refused ==> r.BrokenChain?
      ensures r.Trusted? ==>
        Derived(prim, target, r.keys) && EndsHeld(budget.log, target, r.keys) && r.ttl == WalkTtl(budget.log, old(budget.log))
      ensures r.Unsigned? ==> WalkUnsigned(prim, target, budget.log, r.ttl) && ProvenUnsigned(prim, target)
      ensures r.BrokenChain? && !budget.refused ==> ChainBroken(prim, target, budget.Seen(clock))
      ensures AllLive(old(keyCache), target, clock) ==>
        FromEntry(old(keyCache), target, r) && budget.sigChecks == old(budget.sigChecks)
    {
      var path := PathFromRoot(target);
      var trustedParentKeys: Option<seq<Dnskey>> := None;
      var lastTtl := DEFAULT_TTL;
      ghost var since, began := budget.log, clock;
      ghost var dead: Option<Name> := None;
      for k := 0 to |path|
        invariant Valid() && clock >= began && Walking(since, began, budget) && !budget.refused
        invariant old(granted.Keys) <= granted.Keys && lastTtl == WalkTtl(budget.log, since)
        invariant k > 0 ==>
          && trustedParentKeys.Some? && Derived(prim, path[k - 1], trustedParentKeys.value)
          && EndsHeld(budget.log, path[k - 1], trustedParentKeys.value)
        invariant dead.Some? ==> ZoneOf(dead.value, target) && !LiveKeys(old(keyCache), dead.value, clock)
        invariant dead.None? ==>
          keyCache == old(keyCache) && lastTtl == DEFAULT_TTL && budget.sigChecks == old(budget.sigChecks)
        invariant dead.None? && k > 0 ==> FromEntry(keyCache, path[k - 1], Trusted(trustedParentKeys.value, lastTtl))
      {
        var zone := path[k];
        var keys := LookUp(zone, since, began, budget);
        if keys.Some? {
          trustedParentKeys := keys;
          continue;
        }
        dead := if dead.None? then Some(zone) else dead;
        // below the root trustedParentKeys is Some: the program's fallback is dead
        var parentKeys := if zone == [] then [] else trustedParentKeys.value;
        var step := TrustZone(zone, parentKeys, since, began, budget);
        match step
        case BrokenChain =>
          if !budget.refused { ChainBrokenAt(prim, zone, target, budget.Seen(clock)); }
          return BrokenChain;
        case Unsigned(ttl) =>
          ShownIsProven(prim, zone, target, budget.log, ttl);
          return Unsigned(ttl);
        case Trusted(keys, ttl) =>
          trustedParentKeys := Some(keys);
          lastTtl := ttl;
      }
      r := Trusted(trustedParentKeys.value, lastTtl);
    }

    /** The SOA owner with most labels among those at or above name. */
    static method BestSoa(name: Name, records: seq<Record>) returns (best: Option<Name>)
      ensures BestApex(name, records, best)
    {
      best := None;
      for i := 0 to |records|
        invariant BestApex(name, records[..i], best)
      {
        var r := records[i];
        assert records[..i + 1] == records[..i] + [r];
        if r.data.SoaData? && ZoneOf(r.name, name) {
          if best.None? || Tbs.CountedLabels(r.name) > Tbs.CountedLabels(best.value) {
            assert r in records[..i + 1];
            best := Some(r.name);
          }
        }
      }
      assert records[..|records|] == records;
    }

    /** Asks for the SOA of name and its ancestors in turn until a response shows an apex. */
    method FindZoneApex(name: Name, ghost budget: ValidationBudget) returns (apex: Option<Name>, ghost asked: seq<Event>)
      requires Valid() && Sound(budget)
      modifies this, budget`log
      ensures Valid() && clock >= old(clock) && Sound(budget)
      ensures budget.log == Extended(old(budget.log), asked) && Searched(name, asked, apex)
      ensures apex.Some? ==> ZoneOf(apex.value, name)
    {
      var candidate := name;
      apex, asked := None, [];
      while true
        invariant Valid() && clock >= old(clock) && Sound(budget)
        invariant budget.log == Extended(old(budget.log), asked)
        invariant |asked| <= |name| && candidate == name[|asked|..] && AllSilent(name, asked)
        decreases |candidate|
      {
        ghost var before := asked;
        var msg := Resolve(candidate, SOA, budget.log, budget.start, budget);
        asked := before + [Asked(candidate, SOA, msg)];
        ExtendedSnoc(old(budget.log), before, Asked(candidate, SOA, msg));
        if msg.Some? {
          var answers := msg.value.answers;
          if exists r <- answers :: r.name == candidate && r.Type() == SOA {
            SearchEnds(name, before, asked[|before|], Some(candidate));
            return Some(candidate), asked;
          }
          if !exists r <- answers :: r.name == candidate && r.Type() == CNAME {
            var best := BestSoa(name, answers + msg.value.authority);
            if best.Some? {
              SearchEnds(name, before, asked[|before|], best);
              return best, asked;
            }
          }
        }
        assert ShowsApex(name, asked[|before|], None);
        if candidate == [] {
          SearchEnds(name, before, asked[|before|], None);
          return None, asked;
        }
        SilentNext(name, before, asked[|before|]);
        candidate := BaseName(candidate);
      }
    }

    method CacheSignedness(zone: Name, s: ZoneSignedness, ttl: U32)
      requires Valid() && Substantiated(prim, zone, s)
      modifies this`clock, this`signedCache
      ensures Valid() && clock >= old(clock)
      ensures zone in signedCache && signedCache[zone].signedness == s && signedCache[zone].expiresAt == clock + Min(ttl, ONE_DAY)
    {
      var now := NowSecs();
      var entry := SignedZoneEntry(s, now + Min(ttl, ONE_DAY));
      SignedSoundInsert(prim, signedCache, zone, entry);
      signedCache := signedCache[zone := entry];
    }

    /** A live cached verdict: unsigned at name or any ancestor, or signed at name itself. */
    method CachedSignedness(name: Name) returns (s: ZoneSignedness)
      requires Valid()
      modifies this`clock
      ensures Valid() && clock >= old(clock)
      ensures Recalled(signedCache, name, s, clock)
      ensures s.ProvablyUnsigned? ==> ProvenUnsigned(prim, name)
      ensures s.Signed? ==> exists keys :: Derived(prim, name, keys)
    {
      var cur := name;
      while true
        invariant Valid() && clock >= old(clock) && ZoneOf(cur, name)
        invariant NoneCounts(signedCache, name, cur, clock)
        decreases |cur|
      {
        ghost var t := clock;
        if cur in signedCache {
          var entry := signedCache[cur];
          var now := NowSecs();
          if entry.expiresAt > now {
            if entry.signedness.ProvablyUnsigned? {
              UnsignedBelow(prim, cur, name);
              assert CountsUnsigned(signedCache, cur, clock);
              return ProvablyUnsigned;
            }
            if entry.signedness.Signed? && cur == name {
              return Signed;
            }
          }
        }
        assert Uncounted(signedCache, name, cur, clock);
        if cur == [] {
          NoneCountsRoot(signedCache, name, t, clock);
          return Unknown;
        }
        ZoneOfBase(cur, name);
        NoneCountsNext(signedCache, name, cur, t, clock);
        cur := BaseName(cur);
      }
    }

    /** Whether name lies in a signed zone: from the cache, or by a walk. */
    method IsZoneSigned(name: Name, budget: ValidationBudget) returns (s: ZoneSignedness, ghost cached: bool)
      requires Valid() && Sound(budget) && !budget.refused && budget.start <= clock
      modifies this, budget`sigChecks, budget`verifyCalls, budget`refused, budget`log
      ensures Valid() && clock >= old(clock) && Sound(budget) && Continues(budget.log, old(budget.log))
      ensures budget.refused ==> s.Unknown?
      ensures cached ==> budget.log == old(budget.log) && !s.Unknown? && Recalled(old(signedCache), name, s, clock)
      ensures s.ProvablyUnsigned? ==> ProvenUnsigned(prim, name) && (!cached ==> ApexUnsigned(prim, name, budget.log))
      ensures s.Signed? ==> KnownSigned(prim, name, budget.log)
      ensures s.Unknown? && !budget.refused ==> ChainBroken(prim, name, budget.Seen(clock))
    {
      s := CachedSignedness(name);
      cached := !s.Unknown?;
      if s.Unknown? {
        s := SearchSignedness(name, budget);
      }
    }

    /** A walk to the zone that the search for name's apex gives, or the parent; what it
        finds is cached. */
    method SearchSignedness(name: Name, budget: ValidationBudget) returns (s: ZoneSignedness)
      requires Valid() && Sound(budget) && !budget.refused && budget.start <= clock
      modifies this, budget`sigChecks, budget`verifyCalls, budget`refused, budget`log
      ensures Valid() && clock >= old(clock) && Sound(budget) && Continues(budget.log, old(budget.log))
      ensures budget.refused ==> s.Unknown?
      ensures s.ProvablyUnsigned? ==> ProvenUnsigned(prim, name) && ApexUnsigned(prim, name, budget.log)
      ensures s.Signed? ==> KnownSigned(prim, name, budget.log)
      ensures s.Unknown? && !budget.refused ==> ChainBroken(prim, name, budget.Seen(clock))
    {
      ghost var since := budget.log;
      var apex;
      ghost var asked;
      apex, asked := FindZoneApex(name, budget);
      ContinuesExtended(since, asked);
      ZoneOfBase(name, name);
      var zone := apex.GetOr(BaseName(name));
      ghost var searched := budget.log;
      var chain := BuildTrustChain(zone, budget);
      ContinuesTransitive(budget.log, searched, since);
      assert Sound(budget) && Continues(budget.log, since);
      match chain
      case Trusted(keys, ttl) =>
        s := Signed;
        assert ApexHeld(prim, name, budget.log, since, asked, apex, keys);
        CacheSignedness(zone, Signed, ttl);
      case Unsigned(ttl) =>
        s := ProvablyUnsigned;
        UnsignedBelow(prim, zone, name);
        assert ApexLacks(prim, name, budget.log, since, asked, apex, ttl);
        CacheSignedness(zone, ProvablyUnsigned, ttl);
      case BrokenChain =>
        s := Unknown;
        if !budget.refused { ChainBrokenBelow(prim, zone, name, budget.Seen(clock)); }
    }

    /** The signatures inside their window made by an ancestor-or-self of owner. */
    method CandidateSigs(sigs: seq<Rrsig>, owner: Name) returns (candidates: seq<Rrsig>)
      requires Valid()
      modifies this`clock
      ensures Valid() && clock >= old(clock)
      ensures forall s ::
        s in candidates <==> s in sigs && InRun(s.expiration, s.inception, clock) && ZoneOf(s.signer, owner)
      ensures RestUnusable(prim, sigs, candidates, owner, old(clock), clock)
    {
      var now := NowSecs();
      candidates := [];
      for i := 0 to |sigs|
        invariant Valid() && clock == now
        invariant forall s ::
          s in candidates <==> s in sigs[..i] && InRun(s.expiration, s.inception, now) && ZoneOf(s.signer, owner)
      {
        assert sigs[..i + 1] == sigs[..i] + [sigs[i]];
        RunExactly(sigs[i].expiration, sigs[i].inception, now);
        if InWindow(sigs[i].expiration, sigs[i].inception, now) && ZoneOf(sigs[i].signer, owner) {
          candidates := candidates + [sigs[i]];
        }
      }
      assert sigs[..|sigs|] == sigs;
    }

    /** Tries one signature with every trusted key; every key costs budget, its
        tag matching or not. */
    method TryKeys(sig: Rrsig, keys: seq<Dnskey>, owner: Name, rrset: seq<Record>, budget: ValidationBudget)
      returns (r: KeyTrial, ghost key: Option<Dnskey>)
      requires Valid() && budget.Valid() && !budget.refused && budget.start <= clock
      modifies this`clock, budget`sigChecks, budget`verifyCalls, budget`refused
      ensures Valid() && clock >= old(clock) && budget.Valid()
      ensures r.OutOfBudget? <==> budget.refused
      ensures r.Accepted? ==> key.Some? && SignedBy(prim, keys, sig, key.value, owner, rrset, clock)
      ensures r.Declined? ==>
        Rejected(prim, keys, [sig], owner, rrset, budget.start, clock) && budget.sigChecks == old(budget.sigChecks) + |keys|
      ensures r.OutOfBudget? ==> budget.sigChecks == budget.maxSigChecks < old(budget.sigChecks) + |keys|
    {
      key := None;
      ghost var start := budget.start;
      for j := 0 to |keys|
        invariant Valid() && clock >= old(clock) && budget.Valid() && !budget.refused
        invariant Rejected(prim, keys[..j], [sig], owner, rrset, start, clock)
        invariant budget.sigChecks == old(budget.sigChecks) + j
      {
        ghost var t := clock;
        var may := budget.CanCheckSig();
        if !may {
          return OutOfBudget, None;
        }
        if prim.keyTag(keys[j]) == sig.keyTag {
          var ok := VerifyRrsig(sig, keys[j], owner, rrset, budget);
          if ok {
            return Accepted, Some(keys[j]);
          }
          assert FailsDuring(prim, sig, keys[j], owner, rrset, start, clock);
          RejectedLater(prim, keys[..j], [sig], owner, rrset, start, t, clock);
        }
        assert keys[..j + 1] == keys[..j] + [keys[j]];
      }
      assert keys[..|keys|] == keys;
      r := Declined;
    }

    /** One in-window signature by an authorized signer: its trust chain, then its keys. */
    method TryCandidate(sig: Rrsig, owner: Name, rtype: RecordType, targetRecords: seq<Record>,
                        allRecords: seq<Record>, budget: ValidationBudget)
      returns (r: SigTrial)
      requires Valid() && Sound(budget) && !budget.refused && budget.start <= clock
      requires targetRecords == RrsetOf(allRecords, owner, rtype)
      requires sig in SigsAt(allRecords, owner, rtype) && ZoneOf(sig.signer, owner)
      modifies this, budget
      ensures Valid() && clock >= old(clock) && Sound(budget) && Extends(budget.Seen(clock), old(budget.Seen(clock)))
      ensures budget.refused ==> r.Fatal?
      ensures r.Proven? ==> RrsetSecure(prim, owner, rtype, allRecords, budget.Seen(clock))
      ensures r.UnsignedSigner? ==> ProvenUnsigned(prim, sig.signer)
      ensures r.Unproven? ==> TriedInVain(prim, sig, owner, targetRecords, budget.Seen(clock))
      ensures r.Fatal? && !budget.refused ==> ChainBroken(prim, owner, budget.Seen(clock))
    {
      var chain := BuildTrustChain(sig.signer, budget);
      match chain
      case BrokenChain =>
        r := Fatal;
        if !budget.refused { ChainBrokenBelow(prim, sig.signer, owner, budget.Seen(clock)); }
      case Unsigned(_) => r := UnsignedSigner;
      case Trusted(keys, _) =>
        budget.trials := budget.trials + {Trial(owner, sig, keys)};
        var trial, key := TryKeys(sig, keys, owner, targetRecords, budget);
        match trial {
          case Accepted =>
            assert RrsetProof(prim, owner, rtype, allRecords, sig, keys, key.value, clock);
            r := Proven;
          case OutOfBudget => r := Fatal;
          case Declined =>
            assert VainTrial(prim, Trial(owner, sig, keys), targetRecords, budget.Seen(clock));
            r := Unproven;
        }
    }

    method ValidateRrset(owner: Name, rtype: RecordType, targetRecords: seq<Record>, allRecords: seq<Record>,
                         budget: ValidationBudget)
      returns (status: DnssecStatus)
      requires Valid() && Sound(budget) && !budget.refused && budget.start <= clock
      requires targetRecords == RrsetOf(allRecords, owner, rtype)
      modifies this, budget
      ensures Valid() && clock >= old(clock) && Sound(budget) && Extends(budget.Seen(clock), old(budget.Seen(clock)))
      ensures budget.refused ==> !Cacheable(status)
      ensures status.Secure? ==> RrsetSecure(prim, owner, rtype, allRecords, budget.Seen(clock))
      ensures status.InsecureUnsigned? ==> ProvenUnsigned(prim, owner)
      ensures !status.Secure? && !budget.refused ==> RrsetRefused(prim, owner, rtype, allRecords, status, budget.Seen(clock))
    {
      var sigs := SigsAt(allRecords, owner, rtype);
      if sigs == [] {
        var signedness, _ := IsZoneSigned(owner, budget);
        match signedness
        case Signed => return Bogus;
        case ProvablyUnsigned => return InsecureUnsigned;
        case Unknown => return InsecureUnknown;
      }
      var candidates := CandidateSigs(sigs, owner);
      ghost var t := clock;
      status := TryCandidates(candidates, owner, rtype, targetRecords, allRecords, budget);
      RestUnusableWidens(prim, sigs, candidates, owner, old(clock), t, budget.start, clock);
      ghost var vain := status.Bogus? && candidates != [];
      assert UsedUp(prim, candidates, vain, owner, targetRecords, budget.Seen(clock)) ==>
        NoneLeft(prim, candidates, vain, owner, rtype, allRecords, budget.Seen(clock));
    }

    /** The loop of validate_rrset over the usable signatures. */
    method TryCandidates(candidates: seq<Rrsig>, owner: Name, rtype: RecordType, targetRecords: seq<Record>,
                         allRecords: seq<Record>, budget: ValidationBudget)
      returns (status: DnssecStatus)
      requires Valid() && Sound(budget) && !budget.refused && budget.start <= clock
      requires targetRecords == RrsetOf(allRecords, owner, rtype)
      requires forall s <- candidates :: s in SigsAt(allRecords, owner, rtype) && ZoneOf(s.signer, owner)
      modifies this, budget
      ensures Valid() && clock >= old(clock) && Sound(budget) && Extends(budget.Seen(clock), old(budget.Seen(clock)))
      ensures budget.refused ==> status.Bogus?
      ensures status.Secure? ==> RrsetSecure(prim, owner, rtype, allRecords, budget.Seen(clock))
      ensures status.InsecureUnsigned? ==>
        candidates != [] && ProvenUnsigned(prim, owner)
        && UsedUp(prim, candidates, false, owner, targetRecords, budget.Seen(clock))
      ensures status.Bogus? && !budget.refused ==>
        || ChainBroken(prim, owner, budget.Seen(clock))
        || UsedUp(prim, candidates, candidates != [], owner, targetRecords, budget.Seen(clock))
      ensures !status.InsecureUnknown?
    {
      if candidates == [] {
        return Bogus;
      }
      var anyTrustedChain := false;
      for i := 0 to |candidates|
        invariant Valid() && clock >= old(clock) && Sound(budget) && !budget.refused
        invariant Extends(budget.Seen(clock), old(budget.Seen(clock)))
        invariant UsedUp(prim, candidates[..i], anyTrustedChain, owner, targetRecords, budget.Seen(clock))
      {
        assert candidates[i] in candidates;
        ghost var seen, before := budget.Seen(clock), anyTrustedChain;
        var trial := TryCandidate(candidates[i], owner, rtype, targetRecords, allRecords, budget);
        ExtendsTransitive(budget.Seen(clock), seen, old(budget.Seen(clock)));
        match trial {
          case Proven => return Secure;
          case Fatal => return Bogus;
          case Unproven => anyTrustedChain := true;
          case UnsignedSigner =>
        }
        UsedUpNext(prim, candidates, i, before, trial.Unproven?, owner, targetRecords, seen, budget.Seen(clock));
      }
      assert candidates[..|candidates|] == candidates;
      if anyTrustedChain {
        return Bogus;
      }
      UnsignedBelow(prim, candidates[0].signer, owner);
      status := InsecureUnsigned;
    }

    /** The RRset of one owner and type of the answer section. */
    method ValidateOwner(owner: Name, rtype: RecordType, records: seq<Record>, budget: ValidationBudget)
      returns (status: DnssecStatus)
      requires Valid() && Sound(budget) && !budget.refused && budget.start <= clock
      modifies this, budget
      ensures Valid() && clock >= old(clock) && Sound(budget) && Extends(budget.Seen(clock), old(budget.Seen(clock)))
      ensures budget.refused ==> !Cacheable(status)
      ensures status.Secure? ==> RrsetSecure(prim, owner, rtype, records, budget.Seen(clock))
      ensures status.InsecureUnsigned? ==> ProvenUnsigned(prim, owner)
      ensures !status.Secure? && !budget.refused && RrsetOf(records, owner, rtype) != [] ==>
        RrsetRefused(prim, owner, rtype, records, status, budget.Seen(clock))
    {
      var rrset := RrsetOf(records, owner, rtype);
      if rrset == [] {
        return Bogus;
      }
      status := ValidateRrset(owner, rtype, rrset, records, budget);
    }

    method ValidateStep(step: Step, records: seq<Record>, budget: ValidationBudget) returns (status: DnssecStatus)
      requires Valid() && Sound(budget) && !budget.refused && budget.start <= clock
      modifies this, budget
      ensures Valid() && clock >= old(clock) && Sound(budget) && Extends(budget.Seen(clock), old(budget.Seen(clock)))
      ensures budget.refused ==> !Cacheable(status)
      ensures status.Secure? ==> StepSecure(prim, step, records, budget.Seen(clock))
      ensures status.InsecureUnsigned? ==> StepUnsigned(prim, step)
      ensures !status.Secure? && !budget.refused && JustifiedIn(step, records) ==>
        StepRefused(prim, step, records, status, budget.Seen(clock))
    {
      var (owner, rtype) := Justification(step);
      status := ValidateOwner(owner, rtype, records, budget);
      if status.Secure? && step.DnameStep? {
        ghost var seen := budget.Seen(clock);
        var synthesized := RrsetOf(records, step.inputName, CNAME);
        if synthesized != [] && SigsAt(records, step.inputName, CNAME) != [] {
          status := ValidateRrset(step.inputName, CNAME, synthesized, records, budget);
          ExtendsTransitive(budget.Seen(clock), seen, old(budget.Seen(clock)));
          if status.Secure? {
            RrsetSecureLater(prim, owner, rtype, records, seen, budget.Seen(clock));
          }
        }
      }
    }

    /** Every hop of the chain in order, stopping at the first that is not
        Secure; that hop is returned too. */
    method ValidateSteps(steps: seq<Step>, records: seq<Record>, budget: ValidationBudget)
      returns (status: DnssecStatus, ghost last: Option<Step>)
      requires Valid() && Sound(budget) && !budget.refused && budget.start <= clock
      modifies this, budget
      ensures Valid() && clock >= old(clock) && Sound(budget) && Extends(budget.Seen(clock), old(budget.Seen(clock)))
      ensures budget.refused ==> !Cacheable(status)
      ensures status.Secure? ==> StepsSecure(prim, steps, records, budget.Seen(clock))
      ensures !status.Secure? ==> last.Some? && last.value in steps
      ensures status.InsecureUnsigned? ==> StepUnsigned(prim, last.value)
      ensures !status.Secure? && !budget.refused && JustifiedIn(last.value, records) ==>
        StepRefused(prim, last.value, records, status, budget.Seen(clock))
    {
      last := None;
      for i := 0 to |steps|
        invariant Valid() && clock >= old(clock) && Sound(budget) && !budget.refused
        invariant Extends(budget.Seen(clock), old(budget.Seen(clock)))
        invariant StepsSecure(prim, steps[..i], records, budget.Seen(clock))
      {
        ghost var seen := budget.Seen(clock);
        status := ValidateStep(steps[i], records, budget);
        ExtendsTransitive(budget.Seen(clock), seen, old(budget.Seen(clock)));
        if !status.Secure? {
          return status, Some(steps[i]);
        }
        StepsSecureNext(prim, steps, i, records, seen, budget.Seen(clock));
      }
      assert steps[..|steps|] == steps;
      status := Secure;
    }

    method ValidateAnswer(name: Name, rtype: RecordType, records: seq<Record>, budget: ValidationBudget)
      returns (status: DnssecStatus)
      requires Valid() && Sound(budget) && !budget.refused && budget.start <= clock
      modifies this, budget
      ensures Valid() && clock >= old(clock) && Sound(budget) && Extends(budget.Seen(clock), old(budget.Seen(clock)))
      ensures budget.refused ==> !Cacheable(status)
      ensures status.Secure? ==> AnswerSecure(prim, name, rtype, records, budget.Seen(clock))
      ensures status.InsecureUnsigned? ==> AnswerUnsigned(prim, name, rtype, records)
      ensures !status.Secure? && !budget.refused ==> AnswerRefused(prim, name, rtype, records, status, budget.Seen(clock))
    {
      var steps: seq<Step> := [];
      if rtype != CNAME {
        var chain := Collect(name, records);
        match chain {
          case Complete(s) => steps := s;
          case Loop => return Bogus;
          case TooLong => return Bogus;
        }
      }
      ghost var last;
      status, last := ValidateSteps(steps, records, budget);
      if !status.Secure? {
        StepsJustified(name, rtype, records, steps);
        if status.InsecureUnsigned? { UnsignedStepDecides(prim, name, rtype, records, steps, last.value); }
        return;
      }
      ghost var seen := budget.Seen(clock);
      status := ValidateEnd(name, rtype, steps, records, budget);
      ExtendsTransitive(budget.Seen(clock), seen, old(budget.Seen(clock)));
    }

    /** The RRset at the end of the redirections, once every hop is Secure. */
    method ValidateEnd(name: Name, rtype: RecordType, steps: seq<Step>, records: seq<Record>, budget: ValidationBudget)
      returns (status: DnssecStatus)
      requires Valid() && Sound(budget) && !budget.refused && budget.start <= clock
      requires ChainOf(name, rtype, records) == Complete(steps) && StepsSecure(prim, steps, records, budget.Seen(clock))
      modifies this, budget
      ensures Valid() && clock >= old(clock) && Sound(budget) && Extends(budget.Seen(clock), old(budget.Seen(clock)))
      ensures budget.refused ==> !Cacheable(status)
      ensures status.Secure? ==> AnswerSecure(prim, name, rtype, records, budget.Seen(clock))
      ensures status.InsecureUnsigned? ==> AnswerUnsigned(prim, name, rtype, records)
      ensures !status.Secure? && !budget.refused ==> AnswerRefused(prim, name, rtype, records, status, budget.Seen(clock))
    {
      var finalOwner := FinalOwner(name, steps);
      var target := RrsetOf(records, finalOwner, rtype);
      if target == [] {
        return InsecureUnknown;
      }
      ghost var seen := budget.Seen(clock);
      status := ValidateRrset(finalOwner, rtype, target, records, budget);
      assert Involved(finalOwner, name, rtype, records);
      if status.Secure? {
        StepsSecureLater(prim, steps, records, seen, budget.Seen(clock));
      }
    }

    /** The SOA and the denial of a negative answer against the keys of its zone. */
    method ValidateProof(keys: seq<Dnskey>, soa: Record, msg: Message, qname: Name, qtype: RecordType, budget: ValidationBudget)
      returns (status: DnssecStatus)
      requires Valid() && budget.Valid() && !budget.refused && budget.start <= clock
      requires FirstSoa(msg.authority) == Some(soa) && Derived(prim, soa.name, keys) && EndsHeld(budget.log, soa.name, keys)
      requires ZoneOf(soa.name, FinalTarget(msg.answers, qname)) || ZoneOf(soa.name, qname)
      modifies this`clock, budget`sigChecks, budget`verifyCalls, budget`refused
      ensures Valid() && clock >= old(clock) && budget.Valid()
      ensures budget.refused ==> status == Bogus
      ensures Cacheable(status) ==> NegativeHeld(prim, msg, qname, qtype, status, budget.Seen(clock))
      ensures !Cacheable(status) && !budget.refused ==> NegativeRefused(prim, msg, qname, qtype, status, budget.Seen(clock))
    {
      var target := FinalTarget(msg.answers, qname);
      var soaOk := VerifyNegativeRrset(soa, msg.authority, keys, budget);
      if !soaOk {
        if !budget.refused { ProofRefusedDecides(prim, keys, msg, qname, qtype, Bogus, budget.Seen(clock)); }
        return Bogus;
      }
      ghost var t := clock;
      status := ValidateDenial(keys, target, qtype, msg.authority, budget);
      if Cacheable(status) {
        AllSignedLater(prim, keys, [soa], msg.authority, budget.start, t, clock);
        assert soa in [soa];
        ProofAccepted(prim, keys, msg, qname, qtype, status);
      } else if !budget.refused {
        ProofRefusedDecides(prim, keys, msg, qname, qtype, status, budget.Seen(clock));
      }
    }

    method ValidateNegative(msg: Message, qname: Name, qtype: RecordType, budget: ValidationBudget)
      returns (status: DnssecStatus)
      requires Valid() && Sound(budget) && !budget.refused && budget.start <= clock
      modifies this, budget
      ensures Valid() && clock >= old(clock) && Sound(budget) && Extends(budget.Seen(clock), old(budget.Seen(clock)))
      ensures budget.refused ==> !Cacheable(status)
      ensures status.Secure? ==> NegativeHeld(prim, msg, qname, qtype, Secure, budget.Seen(clock))
      ensures status.InsecureUnsigned? ==>
        NegativeUnsigned(prim, msg) || NegativeHeld(prim, msg, qname, qtype, InsecureUnsigned, budget.Seen(clock))
      ensures !Cacheable(status) && !budget.refused ==> NegativeRefused(prim, msg, qname, qtype, status, budget.Seen(clock))
    {
      var soa := FirstSoa(msg.authority);
      if soa.None? {
        return InsecureUnknown;
      }
      var zone := soa.value.name;
      var finalTarget := FinalTarget(msg.answers, qname);
      if !ZoneOf(zone, finalTarget) && !ZoneOf(zone, qname) {
        return Bogus;
      }
      status := ValidateUnder(soa.value, msg, qname, qtype, budget);
    }

    /** The trust chain of the SOA's zone, and the proof under its keys. */
    method ValidateUnder(soa: Record, msg: Message, qname: Name, qtype: RecordType, budget: ValidationBudget)
      returns (status: DnssecStatus)
      requires Valid() && Sound(budget) && !budget.refused && budget.start <= clock && FirstSoa(msg.authority) == Some(soa)
      requires ZoneOf(soa.name, FinalTarget(msg.answers, qname)) || ZoneOf(soa.name, qname)
      modifies this, budget
      ensures Valid() && clock >= old(clock) && Sound(budget) && Extends(budget.Seen(clock), old(budget.Seen(clock)))
      ensures budget.refused ==> !Cacheable(status)
      ensures status.Secure? ==> NegativeHeld(prim, msg, qname, qtype, Secure, budget.Seen(clock))
      ensures status.InsecureUnsigned? ==>
        NegativeUnsigned(prim, msg) || NegativeHeld(prim, msg, qname, qtype, InsecureUnsigned, budget.Seen(clock))
      ensures !Cacheable(status) && !budget.refused ==> NegativeRefused(prim, msg, qname, qtype, status, budget.Seen(clock))
    {
      var chain := BuildTrustChain(soa.name, budget);
      assert Extends(budget.Seen(clock), old(budget.Seen(clock)));
      match chain
      case BrokenChain =>
        status := Bogus;
        if !budget.refused { BrokenRefuses(prim, msg, qname, qtype, budget.Seen(clock)); }
      case Unsigned(_) => status := InsecureUnsigned;
      case Trusted(keys, _) =>
        status := ValidateProof(keys, soa, msg, qname, qtype, budget);
    }

    /** One whole validation under a fresh budget: at most 24 signatures are
        verified over all its stages, and a run that ever ran out of budget ends
        in a verdict that must not be cached. */
    method ValidateMessage(msg: Message, qname: Name, qtype: RecordType)
      returns (status: DnssecStatus, budget: ValidationBudget)
      requires Valid()
      modifies this
      ensures Valid() && clock >= old(clock)
      ensures fresh(budget) && budget.start == old(clock) && Sound(budget)
      ensures budget.maxSigChecks == 24 && budget.verifyCalls <= 24
      ensures budget.refused ==> !Cacheable(status)
      ensures status.Secure? ==>
        if msg.code.NoError? && msg.answers != []
        then AnswerSecure(prim, qname, qtype, msg.answers, budget.Seen(clock))
        else NegativeHeld(prim, msg, qname, qtype, Secure, budget.Seen(clock))
      ensures status.InsecureUnsigned? ==>
        if msg.code.NoError? && msg.answers != []
        then AnswerUnsigned(prim, qname, qtype, msg.answers)
        else NegativeUnsigned(prim, msg) || NegativeHeld(prim, msg, qname, qtype, InsecureUnsigned, budget.Seen(clock))
      ensures !msg.code.NoError? && !msg.code.NXDomain? ==> status.InsecureUnknown?
      ensures msg.code.NoError? && msg.answers != [] && !status.Secure? && !budget.refused ==>
        AnswerRefused(prim, qname, qtype, msg.answers, status, budget.Seen(clock))
      ensures (msg.code.NXDomain? || (msg.code.NoError? && msg.answers == [])) && !Cacheable(status) && !budget.refused ==>
        NegativeRefused(prim, msg, qname, qtype, status, budget.Seen(clock))
    {
      budget := new ValidationBudget(clock);
      if msg.code.NXDomain? || (msg.code.NoError? && msg.answers == []) {
        status := ValidateNegative(msg, qname, qtype, budget);
      } else if msg.code.NoError? {
        status := ValidateAnswer(qname, qtype, msg.answers, budget);
      } else {
        status := InsecureUnknown;
      }
    }
  }
}
