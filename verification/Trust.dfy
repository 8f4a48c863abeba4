/** What it means for keys, RRsets and denials to be backed by signatures that
    chain to the root anchors. */
module Trust {
  import opened Order
  import opened Names
  import opened Records
  import opened Status
  import opened Serial
  import opened Tbs
  import opened Redirection
  import opened History
  import opened Ttl
  import opened Arithmetic
  import opened Selections
  import Nsec
  import Nsec3

  const MAX_NEGATIVE_RECORDS: nat := 8
  const MAX_NSEC3_ITERATIONS: nat := 150
  const NSEC3_SHA1: Octet := 1

  const ROOT_TRUST_ANCHORS: seq<Anchor> := [
    Anchor(20326, 8, 2, [
      0xE0, 0x6D, 0x44, 0xB8, 0x0B, 0x8F, 0x1D, 0x39, 0xA9, 0x5C, 0x0B, 0x0D, 0x7C, 0x65, 0xD0, 0x84,
      0x58, 0xE8, 0x80, 0x40, 0x9B, 0xBC, 0x68, 0x34, 0x57, 0x10, 0x42, 0x37, 0xC7, 0xF8, 0xEC, 0x8D]),
    Anchor(38696, 8, 2, [
      0x68, 0x3D, 0x2D, 0x0A, 0xCB, 0x8C, 0x9B, 0x71, 0x2A, 0x19, 0x48, 0xB2, 0x7F, 0x74, 0x12, 0x19,
      0x29, 0x8D, 0x0A, 0x45, 0x0D, 0x61, 0x2C, 0x48, 0x3A, 0xF4, 0x44, 0xA4, 0xC0, 0xFB, 0x2B, 0x16])]

  // ----- One signature -----

  /** verify_rrsig at clock reading now. */
  ghost predicate Verifies(prim: Primitives, sig: Rrsig, key: Dnskey, owner: Name, rrset: seq<Record>, now: nat) {
    && InRun(sig.expiration, sig.inception, now)
    && sig.algorithm == key.algorithm
    && match BuildTbs(prim, sig, owner, rrset)
       case None => false
       case Some(tbs) => prim.signatureHolds(sig.algorithm, key.publicKey, tbs, sig.signature)
  }

  ghost predicate SignedBy(prim: Primitives, keys: seq<Dnskey>, sig: Rrsig, key: Dnskey, owner: Name, rrset: seq<Record>, now: nat) {
    key in keys && prim.keyTag(key) == sig.keyTag && Verifies(prim, sig, key, owner, rrset, now)
  }

  /** Some listed signature over the RRset verified under some listed key at a
      reading of the clock. */
  ghost predicate Vouched(prim: Primitives, keys: seq<Dnskey>, sigs: seq<Rrsig>, owner: Name, rrset: seq<Record>) {
    exists sig, key, now :: sig in sigs && prim.isReading(now) && SignedBy(prim, keys, sig, key, owner, rrset, now)
  }

  /** It did so at a reading from start to end. */
  ghost predicate SignedDuring(prim: Primitives, keys: seq<Dnskey>, sigs: seq<Rrsig>, owner: Name, rrset: seq<Record>,
                               start: nat, end: nat) {
    exists sig, key, now: nat ::
      sig in sigs && start <= now <= end && prim.isReading(now) && SignedBy(prim, keys, sig, key, owner, rrset, now)
  }

  // ----- Selecting records -----

  function SigsCovering(records: seq<Record>, t: RecordType): seq<Rrsig> {
    if records == [] then []
    else
      var rest := SigsCovering(records[1..], t);
      if records[0].data.RrsigData? && records[0].data.sig.covered == t then [records[0].data.sig] + rest else rest
  }

  function SigsAt(records: seq<Record>, owner: Name, t: RecordType): seq<Rrsig> {
    if records == [] then []
    else
      var rest := SigsAt(records[1..], owner, t);
      if records[0].data.RrsigData? && records[0].data.sig.covered == t && records[0].name == owner
      then [records[0].data.sig] + rest else rest
  }

  function DsAt(records: seq<Record>, zone: Name): seq<Ds> {
    if records == [] then []
    else
      var rest := DsAt(records[1..], zone);
      if records[0].name == zone && records[0].data.DsData? then [records[0].data.ds] + rest else rest
  }

  /** The section of a DS response that decides: the answers, or the authority
      section when they hold no DS record for zone. */
  function DsSection(msg: Message, zone: Name): seq<Record> {
    if DsAt(msg.answers, zone) == [] then msg.authority else msg.answers
  }

  function KeysAt(records: seq<Record>, zone: Name): seq<Dnskey> {
    if records == [] then []
    else
      var rest := KeysAt(records[1..], zone);
      if records[0].name == zone && records[0].data.DnskeyData?
      then [records[0].data.key] + rest else rest
  }

  function ZoneKeys(keys: seq<Dnskey>): seq<Dnskey> {
    if keys == [] then []
    else if keys[0].flags / 0x100 % 2 == 1 then [keys[0]] + ZoneKeys(keys[1..])
    else ZoneKeys(keys[1..])
  }

  function SupportedAnchors(ds: seq<Ds>): seq<Anchor> {
    if ds == [] then []
    else
      var d, rest := ds[0], SupportedAnchors(ds[1..]);
      if d.digestType in {2, 4} && d.algorithm in {8, 10, 13, 14, 15, 18}
      then [Anchor(d.keyTag, d.algorithm, d.digestType, d.digest)] + rest else rest
  }

  // Each selection lists exactly what its condition admits, in the order of the section.

  function SigIn(): (Record, Rrsig) -> bool {
    (r: Record, s: Rrsig) => r.data == RrsigData(s)
  }

  function Covering(t: RecordType): Record -> bool {
    (r: Record) => r.data.RrsigData? && r.data.sig.covered == t
  }

  function CoveringAt(owner: Name, t: RecordType): Record -> bool {
    (r: Record) => r.name == owner && r.data.RrsigData? && r.data.sig.covered == t
  }

  lemma {:induction false} SigsCoveringSelects(records: seq<Record>, t: RecordType)
    ensures Selects(records, Covering(t), SigIn(), SigsCovering(records, t))
  {
    if records != [] {
      SigsCoveringSelects(records[1..], t);
      if Covering(t)(records[0]) {
        SelectsTaken(records, Covering(t), SigIn(), records[0].data.sig, SigsCovering(records[1..], t));
      } else {
        SelectsPassed(records, Covering(t), SigIn(), SigsCovering(records[1..], t));
      }
    }
  }

  lemma {:induction false} SigsAtSelects(records: seq<Record>, owner: Name, t: RecordType)
    ensures Selects(records, CoveringAt(owner, t), SigIn(), SigsAt(records, owner, t))
  {
    if records != [] {
      SigsAtSelects(records[1..], owner, t);
      if CoveringAt(owner, t)(records[0]) {
        SelectsTaken(records, CoveringAt(owner, t), SigIn(), records[0].data.sig, SigsAt(records[1..], owner, t));
      } else {
        SelectsPassed(records, CoveringAt(owner, t), SigIn(), SigsAt(records[1..], owner, t));
      }
    }
  }

  function DsOf(zone: Name): Record -> bool {
    (r: Record) => r.name == zone && r.data.DsData?
  }

  function DsIn(): (Record, Ds) -> bool {
    (r: Record, d: Ds) => r.data == DsData(d)
  }

  lemma {:induction false} DsAtSelects(records: seq<Record>, zone: Name)
    ensures Selects(records, DsOf(zone), DsIn(), DsAt(records, zone))
  {
    if records != [] {
      DsAtSelects(records[1..], zone);
      if DsOf(zone)(records[0]) {
        SelectsTaken(records, DsOf(zone), DsIn(), records[0].data.ds, DsAt(records[1..], zone));
      } else {
        SelectsPassed(records, DsOf(zone), DsIn(), DsAt(records[1..], zone));
      }
    }
  }

  function KeyOf(zone: Name): Record -> bool {
    (r: Record) => r.name == zone && r.data.DnskeyData?
  }

  function KeyIn(): (Record, Dnskey) -> bool {
    (r: Record, k: Dnskey) => r.data == DnskeyData(k)
  }

  lemma {:induction false} KeysAtSelects(records: seq<Record>, zone: Name)
    ensures Selects(records, KeyOf(zone), KeyIn(), KeysAt(records, zone))
  {
    if records != [] {
      KeysAtSelects(records[1..], zone);
      if KeyOf(zone)(records[0]) {
        SelectsTaken(records, KeyOf(zone), KeyIn(), records[0].data.key, KeysAt(records[1..], zone));
      } else {
        SelectsPassed(records, KeyOf(zone), KeyIn(), KeysAt(records[1..], zone));
      }
    }
  }

  /** The zone-key bit of the flags, bit 7 of RFC 4034 section 2.1.1, is set. */
  function IsZoneKey(): Dnskey -> bool {
    (k: Dnskey) => k.flags / 0x100 % 2 == 1
  }

  lemma {:induction false} ZoneKeysSelects(keys: seq<Dnskey>)
    ensures Selects(keys, IsZoneKey(), Same(), ZoneKeys(keys))
  {
    if keys != [] {
      ZoneKeysSelects(keys[1..]);
      if IsZoneKey()(keys[0]) {
        SelectsTaken(keys, IsZoneKey(), Same(), keys[0], ZoneKeys(keys[1..]));
      } else {
        SelectsPassed(keys, IsZoneKey(), Same(), ZoneKeys(keys[1..]));
      }
    }
  }

  /** SHA-256 or SHA-384, of a key whose algorithm is RSA/SHA-256, RSA/SHA-512, one of the
      two ECDSA curves, Ed25519 or Ed448. */
  function Supported(): Ds -> bool {
    (d: Ds) =>
      && (d.digestType == 2 || d.digestType == 4)
      && (d.algorithm == 8 || d.algorithm == 10 || 13 <= d.algorithm <= 15 || d.algorithm == 18)
  }

  function AnchorIn(): (Ds, Anchor) -> bool {
    (d: Ds, a: Anchor) => a == Anchor(d.keyTag, d.algorithm, d.digestType, d.digest)
  }

  lemma {:induction false} AnchorsSelect(ds: seq<Ds>)
    ensures Selects(ds, Supported(), AnchorIn(), SupportedAnchors(ds))
  {
    if ds != [] {
      AnchorsSelect(ds[1..]);
      if Supported()(ds[0]) {
        var a := Anchor(ds[0].keyTag, ds[0].algorithm, ds[0].digestType, ds[0].digest);
        SelectsTaken(ds, Supported(), AnchorIn(), a, SupportedAnchors(ds[1..]));
      } else {
        SelectsPassed(ds, Supported(), AnchorIn(), SupportedAnchors(ds[1..]));
      }
    }
  }

  lemma {:induction false} SigsCoverType(records: seq<Record>, owner: Name, t: RecordType)
    ensures forall s <- SigsCovering(records, t) :: s.covered == t
    ensures forall s <- SigsAt(records, owner, t) :: s.covered == t
  {
    if records != [] {
      SigsCoverType(records[1..], owner, t);
    }
  }

  lemma {:induction false} ZoneKeysListed(keys: seq<Dnskey>)
    ensures forall k :: k in ZoneKeys(keys) <==> k in keys && k.flags / 0x100 % 2 == 1
  {
    if keys != [] {
      ZoneKeysListed(keys[1..]);
    }
  }

  predicate MatchesAnchor(prim: Primitives, zone: Name, key: Dnskey, anchors: seq<Anchor>) {
    exists a <- anchors ::
      a.keyTag == prim.keyTag(key) && a.algorithm == key.algorithm
      && prim.dsDigest(zone, key, a.digestType) == Some(a.digest)
  }

  // ----- Chains -----

  /** keys come from a DNSKEY RRset signed by one of its keys that an anchor matches. */
  ghost predicate KeyStep(prim: Primitives, zone: Name, anchors: seq<Anchor>, answers: seq<Record>,
                          matched: seq<Dnskey>, keys: seq<Dnskey>) {
    && keys == ZoneKeys(KeysAt(answers, zone))
    && (forall k <- matched :: k in KeysAt(answers, zone) && MatchesAnchor(prim, zone, k, anchors))
    && Vouched(prim, matched, SigsCovering(answers, DNSKEY), zone, RrsetOf(answers, zone, DNSKEY))
  }

  /** answers hold a DS RRset for zone that the parent's keys verify. */
  ghost predicate DsStep(prim: Primitives, zone: Name, parentKeys: seq<Dnskey>, answers: seq<Record>) {
    && DsAt(answers, zone) != []
    && Vouched(prim, parentKeys, SigsCovering(answers, DS), zone, RrsetOf(answers, zone, DS))
  }

  ghost predicate Link(prim: Primitives, zone: Name, parentKeys: seq<Dnskey>, dsAnswers: seq<Record>,
                       answers: seq<Record>, matched: seq<Dnskey>, keys: seq<Dnskey>) {
    && DsStep(prim, zone, parentKeys, dsAnswers)
    && KeyStep(prim, zone, SupportedAnchors(DsAt(dsAnswers, zone)), answers, matched, keys)
  }

  /** The responses and keys through which a zone's keys are reached from the root anchors. */
  datatype Derivation =
    | RootStep(answers: seq<Record>, matched: seq<Dnskey>)
    | ZoneStep(parent: Derivation, parentKeys: seq<Dnskey>, dsAnswers: seq<Record>, answers: seq<Record>, matched: seq<Dnskey>)

  /** d leads to these keys for zone, beginning at the root anchors just when zone is the root. */
  ghost predicate Derives(prim: Primitives, d: Derivation, zone: Name, keys: seq<Dnskey>)
    decreases d, 1
  {
    (zone == [] <==> d.RootStep?) && LastStep(prim, d, zone, keys)
  }

  /** The last step of d is verified, and the steps before it lead to the parent's keys. */
  ghost predicate LastStep(prim: Primitives, d: Derivation, zone: Name, keys: seq<Dnskey>)
    decreases d, 0
  {
    match d
    case RootStep(answers, matched) => KeyStep(prim, zone, prim.rootAnchors, answers, matched, keys)
    case ZoneStep(parent, parentKeys, dsAnswers, answers, matched) =>
      && zone != [] && Derives(prim, parent, zone[1..], parentKeys)
      && Link(prim, zone, parentKeys, dsAnswers, answers, matched, keys)
  }

  /** keys derive inductively from the root anchors, zone by zone, through
      signatures that each verified at a reading of the clock. */
  ghost predicate Derived(prim: Primitives, zone: Name, keys: seq<Dnskey>) {
    exists d :: Derives(prim, d, zone, keys)
  }

  lemma ExtendDerivation(prim: Primitives, zone: Name, parentKeys: seq<Dnskey>, dsAnswers: seq<Record>, anchors: seq<Anchor>,
                         answers: seq<Record>, matched: seq<Dnskey>, keys: seq<Dnskey>)
    requires zone == [] ==> anchors == prim.rootAnchors
    requires zone != [] ==>
      && Derived(prim, zone[1..], parentKeys) && DsStep(prim, zone, parentKeys, dsAnswers)
      && anchors == SupportedAnchors(DsAt(dsAnswers, zone))
    requires KeyStep(prim, zone, anchors, answers, matched, keys)
    ensures Derived(prim, zone, keys)
  {
    if zone == [] {
      assert Derives(prim, RootStep(answers, matched), zone, keys);
    } else {
      var d :| Derives(prim, d, zone[1..], parentKeys);
      assert Derives(prim, ZoneStep(d, parentKeys, dsAnswers, answers, matched), zone, keys);
    }
  }

  // ----- Where the walk has its keys from -----

  /** Made at a reading up to now from a DNSKEY response for the zone, and good for no
      longer than that response's time to live. */
  predicate Rests(prim: Primitives, g: Grant, b: Basis, now: nat) {
    && prim.isReading(b.at) && b.at <= now
    && g.keys == ZoneKeys(KeysAt(b.msg.answers, g.zone))
    && g.expiresAt <= b.at + MinTtl(b.msg)
  }

  /** The log ends with zone's DNSKEY response, below the root right after its DS
      response, and these are its keys and the shorter time to live. */
  predicate JustFetched(log: Log, zone: Name, keys: seq<Dnskey>, ttl: U32) {
    && log.Then? && log.last.Asked? && log.last.name == zone && log.last.rtype == DNSKEY && log.last.answer.Some?
    && keys == ZoneKeys(KeysAt(log.last.answer.value.answers, zone))
    && if zone == [] then ttl == MinTtl(log.last.answer.value)
       else
         && log.before.Then? && log.before.last.Asked? && log.before.last.name == zone && log.before.last.rtype == DS
         && log.before.last.answer.Some?
         && ttl == Min(MinTtl(log.last.answer.value), MinTtl(log.before.last.answer.value))
  }

  /** The keys the walk just arrived with were received right before, or are those of a
      grant that had not expired at a reading from start on. */
  predicate InDate(prim: Primitives, granted: set<Grant>, log: Log, start: nat)
    requires log.Then? && log.last.Held?
  {
    match log.last.source
    case Kept(expiresAt, at) =>
      && Grant(log.last.zone, log.last.keys, expiresAt) in granted
      && prim.isReading(at) && start <= at < expiresAt
    case Fetched(ttl) => JustFetched(log.before, log.last.zone, log.last.keys, ttl)
  }

  /** So is every arrival logged after since. */
  predicate Sourced(prim: Primitives, granted: set<Grant>, log: Log, since: Log, start: nat)
    decreases log, 1
  {
    log == since || (log.Then? && LastSourced(prim, granted, log, since, start))
  }

  predicate LastSourced(prim: Primitives, granted: set<Grant>, log: Log, since: Log, start: nat)
    requires log.Then?
    decreases log, 0
  {
    (log.last.Held? ==> InDate(prim, granted, log, start)) && Sourced(prim, granted, log.before, since, start)
  }

  lemma SourcedNext(prim: Primitives, granted: set<Grant>, log: Log, e: Event, since: Log, start: nat)
    requires Sourced(prim, granted, log, since, start) && (e.Held? ==> InDate(prim, granted, Then(log, e), start))
    ensures Sourced(prim, granted, Then(log, e), since, start)
  {
    assert LastSourced(prim, granted, Then(log, e), since, start);
  }

  lemma {:induction false} SourcedMore(prim: Primitives, granted: set<Grant>, more: set<Grant>, log: Log,
                                       since: Log, start: nat)
    requires granted <= more && Sourced(prim, granted, log, since, start)
    ensures Sourced(prim, more, log, since, start)
  {
    if log != since {
      assert LastSourced(prim, granted, log, since, start);
      SourcedMore(prim, granted, more, log.before, since, start);
      assert LastSourced(prim, more, log, since, start);
    }
  }

  lemma {:induction false} SourcedJoin(prim: Primitives, granted: set<Grant>, log: Log, middle: Log, since: Log,
                                       start: nat, later: nat)
    requires start <= later && Sourced(prim, granted, log, middle, later) && Sourced(prim, granted, middle, since, start)
    ensures Sourced(prim, granted, log, since, start)
  {
    if log != middle {
      assert LastSourced(prim, granted, log, middle, later);
      SourcedJoin(prim, granted, log.before, middle, since, start, later);
      assert LastSourced(prim, granted, log, since, start);
    }
  }

  lemma SourcedOnward(prim: Primitives, granted: set<Grant>, more: set<Grant>, log: Log, middle: Log, since: Log,
                      start: nat, later: nat)
    requires granted <= more && start <= later
    requires Sourced(prim, granted, middle, since, start) && Sourced(prim, more, log, middle, later)
    ensures Sourced(prim, more, log, since, start)
  {
    SourcedMore(prim, granted, more, middle, since, start);
    SourcedJoin(prim, more, log, middle, since, start, later);
  }

  lemma FetchedInDate(prim: Primitives, granted: set<Grant>, log: Log, zone: Name, keys: seq<Dnskey>, ttl: U32, start: nat)
    requires JustFetched(log, zone, keys, ttl)
    ensures InDate(prim, granted, Then(log, Held(zone, keys, Fetched(ttl))), start)
  {
  }

  lemma {:induction false} SourcedContinues(prim: Primitives, granted: set<Grant>, log: Log, since: Log, start: nat)
    requires Sourced(prim, granted, log, since, start)
    ensures Continues(log, since)
  {
    if log != since {
      assert LastSourced(prim, granted, log, since, start);
      SourcedContinues(prim, granted, log.before, since, start);
    }
  }

  /** How long the result of a walk may be kept: as long as the keys fetched last. */
  function WalkTtl(log: Log, since: Log): U32 {
    if log == since || log.NoEvent? then DEFAULT_TTL
    else if log.last.Held? && log.last.source.Fetched? then log.last.source.ttl
    else WalkTtl(log.before, since)
  }

  lemma WalkTtlNext(log: Log, e: Event, since: Log)
    requires Continues(log, since)
    ensures WalkTtl(Then(log, e), since) == if e.Held? && e.source.Fetched? then e.source.ttl else WalkTtl(log, since)
  {
    ContinuesSize(log, since);
  }

  /** Received in the span, or granted before it for longer than until it began. */
  ghost predicate UsedInDate(granted: set<Grant>, log: Log, start: nat, zone: Name, keys: seq<Dnskey>) {
    || (exists g <- granted :: g.zone == zone && g.keys == keys && start < g.expiresAt)
    || (exists msg :: Logged(log, Asked(zone, DNSKEY, Some(msg))) && keys == ZoneKeys(KeysAt(msg.answers, zone)))
  }

  lemma {:induction false} ArrivedInDate(prim: Primitives, granted: set<Grant>, log: Log, start: nat, zone: Name,
                                         keys: seq<Dnskey>)
    requires Sourced(prim, granted, log, NoEvent, start) && Arrived(log, zone, keys)
    ensures UsedInDate(granted, log, start, zone, keys)
  {
    assert LastSourced(prim, granted, log, NoEvent, start);
    if EndsHeld(log, zone, keys) {
      match log.last.source
      case Kept(expiresAt, at) => assert Grant(zone, keys, expiresAt) in granted;
      case Fetched(ttl) => assert Logged(log.before, Asked(zone, DNSKEY, log.before.last.answer));
    } else {
      ArrivedInDate(prim, granted, log.before, start, zone, keys);
    }
  }

  // ----- Denials -----

  function NsecRecords(authority: seq<Record>): seq<Record> {
    FirstOfType(authority, NSEC, MAX_NEGATIVE_RECORDS)
  }

  function Nsec3Records(authority: seq<Record>): seq<Record> {
    FirstOfType(authority, NSEC3, MAX_NEGATIVE_RECORDS)
  }

  predicate HasType(records: seq<Record>, t: RecordType) {
    exists r <- records :: r.Type() == t
  }

  function HasherOf(prim: Primitives, salt: Octets, iterations: U16): Nsec3.Hasher {
    (n: Name) => prim.nsec3Hash(n, salt, iterations)
  }

  /** The hash parameters shared by the whole proof; the verdict when they do not allow one. */
  datatype Parameters = Usable(salt: Octets, iterations: U16) | Unusable(status: DnssecStatus)

  predicate SameParameters(records: seq<Record>, first: RData)
    requires first.Nsec3Data?
  {
    forall r <- records :: r.data.Nsec3Data? && r.data.algorithm == first.algorithm
                           && r.data.iterations == first.iterations && r.data.salt == first.salt
  }

  function ParametersOf(records: seq<Record>): Parameters
    requires records != []
  {
    var first := records[0].data;
    if !first.Nsec3Data? then Unusable(Bogus)
    else if first.algorithm != NSEC3_SHA1 then Unusable(InsecureUnknown)
    else if first.iterations > MAX_NSEC3_ITERATIONS then Unusable(InsecureUnknown)
    else if !SameParameters(records, first) then Unusable(Bogus)
    else Usable(first.salt, first.iterations)
  }

  /** One proof has one hash: SHA-1 (number 1 in RFC 5155 section 11), at most 150 extra
      iterations, the same salt in every record. Another algorithm or more iterations in
      the first record leave the answer InsecureUnknown; any other mixture is Bogus. */
  lemma ParametersExactly(records: seq<Record>, salt: Octets, iterations: U16)
    requires records != []
    ensures ParametersOf(records) == Usable(salt, iterations) <==>
      && iterations <= 150
      && forall r <- records ::
           r.data.Nsec3Data? && r.data.algorithm == 1 && r.data.salt == salt && r.data.iterations == iterations
    ensures ParametersOf(records) == Unusable(InsecureUnknown) <==>
      records[0].data.Nsec3Data? && (records[0].data.algorithm != 1 || records[0].data.iterations > 150)
    ensures ParametersOf(records).Unusable? ==> ParametersOf(records).status in {Bogus, InsecureUnknown}
  {
    assert records[0] in records;
  }

  /** The verdict on an authority section whose denial records all verify. */
  function DenialVerdict(prim: Primitives, qname: Name, qtype: RecordType, authority: seq<Record>): DnssecStatus {
    if HasType(authority, NSEC3) then
      match ParametersOf(Nsec3Records(authority))
      case Unusable(status) => status
      case Usable(salt, iterations) =>
        Nsec3.Verdict(HasherOf(prim, salt, iterations), qname, qtype, Nsec3Records(authority))
    else if HasType(authority, NSEC) then Nsec.Verdict(qname, qtype, NsecRecords(authority))
    else Bogus
  }

  /** The records a denial verdict rests on. */
  function DenialRecords(authority: seq<Record>): seq<Record> {
    if HasType(authority, NSEC3) then Nsec3Records(authority) else NsecRecords(authority)
  }

  /** They are the first eight of one type, all of them if fewer: NSEC3 if there is any,
      otherwise NSEC. */
  lemma DenialRecordsExactly(authority: seq<Record>) returns (k: nat)
    ensures k <= |authority|
    ensures
      var t := if exists r <- authority :: r.Type() == NSEC3 then NSEC3 else NSEC;
      Selects(authority[..k], OfType(t), Same(), DenialRecords(authority))
    ensures k < |authority| ==> |DenialRecords(authority)| == 8
  {
    k := FirstOfTypeSelects(authority, if HasType(authority, NSEC3) then NSEC3 else NSEC, MAX_NEGATIVE_RECORDS);
  }

  /** The whole RRset of r in the section verified under keys. */
  ghost predicate RecordVouched(prim: Primitives, keys: seq<Dnskey>, r: Record, section: seq<Record>) {
    Vouched(prim, keys, SigsAt(section, r.name, r.Type()), r.name, RrsetOf(section, r.name, r.Type()))
  }

  ghost predicate AllVouched(prim: Primitives, keys: seq<Dnskey>, records: seq<Record>, section: seq<Record>) {
    forall r <- records :: RecordVouched(prim, keys, r, section)
  }

  ghost predicate RecordSigned(prim: Primitives, keys: seq<Dnskey>, r: Record, section: seq<Record>, start: nat, end: nat) {
    SignedDuring(prim, keys, SigsAt(section, r.name, r.Type()), r.name, RrsetOf(section, r.name, r.Type()), start, end)
  }

  ghost predicate AllSigned(prim: Primitives, keys: seq<Dnskey>, records: seq<Record>, section: seq<Record>,
                            start: nat, end: nat) {
    forall r <- records :: RecordSigned(prim, keys, r, section, start, end)
  }

  lemma AllSignedLater(prim: Primitives, keys: seq<Dnskey>, records: seq<Record>, section: seq<Record>,
                       start: nat, end: nat, later: nat)
    requires end <= later && AllSigned(prim, keys, records, section, start, end)
    ensures AllSigned(prim, keys, records, section, start, later)
  {
    forall r <- records ensures RecordSigned(prim, keys, r, section, start, later) {
      assert RecordSigned(prim, keys, r, section, start, end);
    }
  }

  lemma SignedIsVouched(prim: Primitives, keys: seq<Dnskey>, records: seq<Record>, section: seq<Record>, start: nat, end: nat)
    requires AllSigned(prim, keys, records, section, start, end)
    ensures AllVouched(prim, keys, records, section)
  {
    forall r <- records ensures RecordVouched(prim, keys, r, section) {
      assert RecordSigned(prim, keys, r, section, start, end);
    }
  }

  /** A cacheable verdict on a negative section, with every record it rests on verified. */
  ghost predicate Denied(prim: Primitives, keys: seq<Dnskey>, qname: Name, qtype: RecordType,
                         authority: seq<Record>, status: DnssecStatus) {
    && Cacheable(status)
    && status == DenialVerdict(prim, qname, qtype, authority)
    && AllVouched(prim, keys, DenialRecords(authority), authority)
  }

  /** zone's parent proves it unsigned: its DS is denied, or its verified DS set
      names no digest and algorithm that is supported. */
  ghost predicate CutUnsigned(prim: Primitives, zone: Name, parentKeys: seq<Dnskey>, section: seq<Record>) {
    || (exists status :: Denied(prim, parentKeys, zone, DS, section, status))
    || (DsStep(prim, zone, parentKeys, section) && SupportedAnchors(DsAt(section, zone)) == [])
  }

  ghost predicate UnsignedAt(prim: Primitives, zone: Name, parentKeys: seq<Dnskey>, section: seq<Record>) {
    zone != [] && Derived(prim, zone[1..], parentKeys) && CutUnsigned(prim, zone, parentKeys, section)
  }

  /** Some ancestor-or-self of n is proven unsigned by trusted keys of its parent. */
  ghost predicate ProvenUnsigned(prim: Primitives, n: Name) {
    exists zone, parentKeys, section :: ZoneOf(zone, n) && UnsignedAt(prim, zone, parentKeys, section)
  }

  // ----- Answers -----

  /** The signature, signer keys, key and clock reading that made an RRset Secure. */
  ghost predicate RrsetProof(prim: Primitives, owner: Name, t: RecordType, records: seq<Record>,
                             sig: Rrsig, keys: seq<Dnskey>, key: Dnskey, now: nat) {
    && sig in SigsAt(records, owner, t)
    && ZoneOf(sig.signer, owner)
    && Derived(prim, sig.signer, keys)
    && prim.isReading(now)
    && SignedBy(prim, keys, sig, key, owner, RrsetOf(records, owner, t), now)
  }

  /** The RRset has a signature in its window at a reading of this span, made by an
      ancestor-or-self of its owner with a key of the set the walk held for that zone. */
  ghost predicate RrsetSecure(prim: Primitives, owner: Name, t: RecordType, records: seq<Record>, ev: Evidence) {
    exists sig: Rrsig, keys, key, now: nat ::
      && ev.start <= now <= ev.end && Arrived(ev.log, sig.signer, keys)
      && RrsetProof(prim, owner, t, records, sig, keys, key, now)
  }

  // ----- What Secure means, on the records -----

  /** r is a signature over the RRset by an ancestor-or-self of its owner, within its run
      at now, and holds over the RRset's octets under this key of that zone. */
  ghost predicate Signs(prim: Primitives, owner: Name, t: RecordType, records: seq<Record>, r: Record,
                        keys: seq<Dnskey>, key: Dnskey, now: nat) {
    && r in records && r.name == owner && r.data.RrsigData? && r.data.sig.covered == t
    && var sig, octets := r.data.sig, BuildTbs(prim, r.data.sig, owner, RrsetOf(records, owner, t));
       && ZoneOf(sig.signer, owner) && InRun(sig.expiration, sig.inception, now)
       && Derived(prim, sig.signer, keys) && key in keys
       && prim.keyTag(key) == sig.keyTag && key.algorithm == sig.algorithm
       && octets.Some? && prim.signatureHolds(sig.algorithm, key.publicKey, octets.value, sig.signature)
  }

  /** Some record signs the RRset at a reading of the span, with keys that the walk held
      for the signer. */
  ghost predicate SignedInSpan(prim: Primitives, owner: Name, t: RecordType, records: seq<Record>, ev: Evidence) {
    exists r, keys, key, now: nat ::
      && Signs(prim, owner, t, records, r, keys, key, now)
      && ev.start <= now <= ev.end && prim.isReading(now) && Arrived(ev.log, r.data.sig.signer, keys)
  }

  lemma SigAtExactly(records: seq<Record>, owner: Name, t: RecordType, sig: Rrsig)
    ensures sig in SigsAt(records, owner, t) <==>
      exists r <- records :: r.name == owner && r.data == RrsigData(sig) && sig.covered == t
  {
    SigsAtSelects(records, owner, t);
    if sig in SigsAt(records, owner, t) {
      SelectsOnly(records, CoveringAt(owner, t), SigIn(), SigsAt(records, owner, t), sig);
    }
    if r :| r in records && r.name == owner && r.data == RrsigData(sig) && sig.covered == t {
      SelectsListed(records, CoveringAt(owner, t), SigIn(), SigsAt(records, owner, t), r);
    }
  }

  lemma SignsExactly(prim: Primitives, owner: Name, t: RecordType, records: seq<Record>, r: Record, keys: seq<Dnskey>,
                     key: Dnskey, now: nat)
    requires r in records && r.name == owner && r.data.RrsigData? && r.data.sig.covered == t && prim.isReading(now)
    ensures Signs(prim, owner, t, records, r, keys, key, now) <==>
      RrsetProof(prim, owner, t, records, r.data.sig, keys, key, now)
  {
    SigAtExactly(records, owner, t, r.data.sig);
  }

  lemma SecureExactly(prim: Primitives, owner: Name, t: RecordType, records: seq<Record>, ev: Evidence)
    ensures RrsetSecure(prim, owner, t, records, ev) <==> SignedInSpan(prim, owner, t, records, ev)
  {
    if RrsetSecure(prim, owner, t, records, ev) {
      var sig: Rrsig, keys, key, now: nat :|
        && ev.start <= now <= ev.end && Arrived(ev.log, sig.signer, keys)
        && RrsetProof(prim, owner, t, records, sig, keys, key, now);
      SigAtExactly(records, owner, t, sig);
      var r :| r in records && r.name == owner && r.data == RrsigData(sig) && sig.covered == t;
      SignsExactly(prim, owner, t, records, r, keys, key, now);
    }
    if SignedInSpan(prim, owner, t, records, ev) {
      var r, keys, key, now: nat :|
        && Signs(prim, owner, t, records, r, keys, key, now)
        && ev.start <= now <= ev.end && prim.isReading(now) && Arrived(ev.log, r.data.sig.signer, keys);
      SignsExactly(prim, owner, t, records, r, keys, key, now);
    }
  }

  /** A Secure RRset rests on keys that were in date. */
  ghost predicate SecureInDate(prim: Primitives, granted: set<Grant>, owner: Name, t: RecordType, records: seq<Record>,
                               ev: Evidence) {
    exists r, keys, key, now: nat ::
      && Signs(prim, owner, t, records, r, keys, key, now) && ev.start <= now <= ev.end
      && UsedInDate(granted, ev.log, ev.start, r.data.sig.signer, keys)
  }

  lemma SecureIsInDate(prim: Primitives, granted: set<Grant>, owner: Name, t: RecordType, records: seq<Record>, ev: Evidence)
    requires Sourced(prim, granted, ev.log, NoEvent, ev.start) && RrsetSecure(prim, owner, t, records, ev)
    ensures SecureInDate(prim, granted, owner, t, records, ev)
  {
    SecureExactly(prim, owner, t, records, ev);
    var r, keys, key, now: nat :|
      && Signs(prim, owner, t, records, r, keys, key, now)
      && ev.start <= now <= ev.end && prim.isReading(now) && Arrived(ev.log, r.data.sig.signer, keys);
    ArrivedInDate(prim, granted, ev.log, ev.start, r.data.sig.signer, keys);
  }

  // ----- Redirections -----

  /** The redirections an answer is checked along; a CNAME query follows none. */
  function ChainOf(name: Name, t: RecordType, records: seq<Record>): ChainResult {
    if t == CNAME then Complete([]) else Collected(records, name)
  }

  function FinalOwner(name: Name, steps: seq<Step>): Name {
    if steps == [] then name else steps[|steps| - 1].Destination()
  }

  /** Owner and type of the RRset that justifies a redirection. */
  function Justification(step: Step): (Name, RecordType) {
    match step
    case CnameStep(owner, _) => (owner, CNAME)
    case DnameStep(owner, _, _, _) => (owner, DNAME)
  }

  /** The CNAME RRset beside a DNAME hop, when the answer signs one. */
  predicate SignedSynthesis(step: Step, records: seq<Record>) {
    step.DnameStep? && RrsetOf(records, step.inputName, CNAME) != [] && SigsAt(records, step.inputName, CNAME) != []
  }

  ghost predicate StepSecure(prim: Primitives, step: Step, records: seq<Record>, ev: Evidence) {
    && RrsetSecure(prim, Justification(step).0, Justification(step).1, records, ev)
    && (SignedSynthesis(step, records) ==> RrsetSecure(prim, step.inputName, CNAME, records, ev))
  }

  ghost predicate StepsSecure(prim: Primitives, steps: seq<Step>, records: seq<Record>, ev: Evidence) {
    forall step <- steps :: StepSecure(prim, step, records, ev)
  }

  /** An owner that decides this redirection is proven unsigned. */
  ghost predicate StepUnsigned(prim: Primitives, step: Step) {
    ProvenUnsigned(prim, Justification(step).0) || (step.DnameStep? && ProvenUnsigned(prim, step.inputName))
  }

  /** Every redirection from name and the RRset at its end are Secure. */
  ghost predicate AnswerSecure(prim: Primitives, name: Name, t: RecordType, records: seq<Record>, ev: Evidence) {
    var chain := ChainOf(name, t, records);
    && chain.Complete?
    && StepsSecure(prim, chain.steps, records, ev)
    && RrsetOf(records, FinalOwner(name, chain.steps), t) != []
    && RrsetSecure(prim, FinalOwner(name, chain.steps), t, records, ev)
  }

  /** Every RRset that a Secure answer rests on was signed within the span, with keys in date. */
  lemma AnswerSigned(prim: Primitives, granted: set<Grant>, name: Name, t: RecordType, records: seq<Record>, ev: Evidence)
    requires AnswerSecure(prim, name, t, records, ev) && Sourced(prim, granted, ev.log, NoEvent, ev.start)
    ensures
      var steps := ChainOf(name, t, records).steps;
      && (if t == CNAME then steps == [] else Describes(records, name, Complete(steps)))
      && FinalOwner(name, steps) == (if steps == [] then name else steps[|steps| - 1].Destination())
      && SignedInSpan(prim, FinalOwner(name, steps), t, records, ev)
      && SecureInDate(prim, granted, FinalOwner(name, steps), t, records, ev)
      && forall step <- steps ::
           && SignedInSpan(prim, Justification(step).0, Justification(step).1, records, ev)
           && SecureInDate(prim, granted, Justification(step).0, Justification(step).1, records, ev)
  {
    var steps := ChainOf(name, t, records).steps;
    CollectedDescribes(records, name);
    SecureExactly(prim, FinalOwner(name, steps), t, records, ev);
    SecureIsInDate(prim, granted, FinalOwner(name, steps), t, records, ev);
    forall step <- steps
      ensures SignedInSpan(prim, Justification(step).0, Justification(step).1, records, ev)
      ensures SecureInDate(prim, granted, Justification(step).0, Justification(step).1, records, ev)
    {
      assert StepSecure(prim, step, records, ev);
      SecureExactly(prim, Justification(step).0, Justification(step).1, records, ev);
      SecureIsInDate(prim, granted, Justification(step).0, Justification(step).1, records, ev);
    }
  }

  /** The owners whose RRsets decide an answer. */
  ghost predicate Involved(n: Name, name: Name, t: RecordType, records: seq<Record>) {
    var chain := ChainOf(name, t, records);
    chain.Complete? &&
    (n == FinalOwner(name, chain.steps)
     || exists step <- chain.steps :: n == Justification(step).0 || (step.DnameStep? && n == step.inputName))
  }

  ghost predicate AnswerUnsigned(prim: Primitives, name: Name, t: RecordType, records: seq<Record>) {
    exists n :: Involved(n, name, t, records) && ProvenUnsigned(prim, n)
  }

  /** The name a negative answer is about: the last alias target, or the query name. */
  function FinalTarget(answers: seq<Record>, qname: Name): Name {
    if answers == [] then qname
    else
      var last := answers[|answers| - 1];
      if last.Type() != CNAME then FinalTarget(answers[..|answers| - 1], qname)
      else if last.data.CnameData? then last.data.target
      else qname
  }

  function FirstSoa(authority: seq<Record>): (r: Option<Record>)
    ensures r.Some? ==> r.value in authority && r.value.data.SoaData?
  {
    if authority == [] then None
    else if authority[0].data.SoaData? then Some(authority[0])
    else FirstSoa(authority[1..])
  }

  lemma {:induction false} FirstSoaExactly(authority: seq<Record>, r: Record)
    ensures FirstSoa(authority) == Some(r) <==> IsFirst(authority, OfSoa(), r)
    ensures FirstSoa(authority).None? <==> forall x <- authority :: !x.data.SoaData?
  {
    if authority != [] {
      FirstSoaExactly(authority[1..], r);
      IsFirstCons(authority, OfSoa(), r);
      assert authority == [authority[0]] + authority[1..];
    }
  }

  /** The SOA of a trusted zone and its denial of the final target both verified. */
  ghost predicate NegativeProven(prim: Primitives, zone: Name, keys: seq<Dnskey>, msg: Message, qname: Name,
                                 t: RecordType, status: DnssecStatus) {
    var target := FinalTarget(msg.answers, qname);
    && (exists soa <- msg.authority ::
          soa.data.SoaData? && soa.name == zone && RecordVouched(prim, keys, soa, msg.authority))
    && (ZoneOf(zone, target) || ZoneOf(zone, qname))
    && Derived(prim, zone, keys)
    && Denied(prim, keys, target, t, msg.authority, status)
  }

  ghost predicate NegativeAccepted(prim: Primitives, msg: Message, qname: Name, t: RecordType, status: DnssecStatus) {
    exists zone, keys :: NegativeProven(prim, zone, keys, msg, qname, t, status)
  }

  lemma ProofAccepted(prim: Primitives, keys: seq<Dnskey>, msg: Message, qname: Name, t: RecordType, status: DnssecStatus)
    requires
      var soa, target := FirstSoa(msg.authority), FinalTarget(msg.answers, qname);
      && soa.Some? && RecordVouched(prim, keys, soa.value, msg.authority) && Derived(prim, soa.value.name, keys)
      && (ZoneOf(soa.value.name, target) || ZoneOf(soa.value.name, qname))
      && Denied(prim, keys, target, t, msg.authority, status)
    ensures NegativeProven(prim, FirstSoa(msg.authority).value.name, keys, msg, qname, t, status)
  {
    var soa := FirstSoa(msg.authority).value;
    assert soa in msg.authority && soa.data.SoaData?;
  }

  /** A negative answer from a zone proven unsigned. */
  ghost predicate NegativeUnsigned(prim: Primitives, msg: Message) {
    FirstSoa(msg.authority).Some? && ProvenUnsigned(prim, FirstSoa(msg.authority).value.name)
  }

  lemma RrsetSecureLater(prim: Primitives, owner: Name, t: RecordType, records: seq<Record>, ev: Evidence, later: Evidence)
    requires Extends(later, ev) && RrsetSecure(prim, owner, t, records, ev)
    ensures RrsetSecure(prim, owner, t, records, later)
  {
    var sig: Rrsig, keys, key, now: nat :|
      && ev.start <= now <= ev.end && Arrived(ev.log, sig.signer, keys)
      && RrsetProof(prim, owner, t, records, sig, keys, key, now);
    ArrivedLater(later.log, ev.log, sig.signer, keys);
  }

  lemma StepsSecureLater(prim: Primitives, steps: seq<Step>, records: seq<Record>, ev: Evidence, later: Evidence)
    requires Extends(later, ev) && StepsSecure(prim, steps, records, ev)
    ensures StepsSecure(prim, steps, records, later)
  {
    forall step <- steps ensures StepSecure(prim, step, records, later) {
      RrsetSecureLater(prim, Justification(step).0, Justification(step).1, records, ev, later);
      if SignedSynthesis(step, records) {
        RrsetSecureLater(prim, step.inputName, CNAME, records, ev, later);
      }
    }
  }

  /** One more hop, checked after the others. */
  lemma StepsSecureNext(prim: Primitives, steps: seq<Step>, i: nat, records: seq<Record>, ev: Evidence, later: Evidence)
    requires i < |steps| && Extends(later, ev)
    requires StepsSecure(prim, steps[..i], records, ev)
    requires StepSecure(prim, steps[i], records, later)
    ensures StepsSecure(prim, steps[..i + 1], records, later)
  {
    StepsSecureLater(prim, steps[..i], records, ev, later);
    forall step <- steps[..i + 1] ensures StepSecure(prim, step, records, later) {
      assert step in steps[..i] || step == steps[i];
    }
  }

  lemma UnsignedBelow(prim: Primitives, a: Name, n: Name)
    requires ProvenUnsigned(prim, a) && ZoneOf(a, n)
    ensures ProvenUnsigned(prim, n)
  {
    var zone, pk, section :| ZoneOf(zone, a) && UnsignedAt(prim, zone, pk, section);
    ZoneOfTransitive(zone, a, n);
  }
}
