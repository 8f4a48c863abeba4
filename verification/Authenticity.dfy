/** What acceptance means for the data when the zones on the path sign honestly:
    signatures cover octets, so an accepted RRset is its owner's or that of the
    wildcard it was expanded from. */
module Authenticity {
  import opened Order
  import opened Names
  import opened Records
  import opened Status
  import opened Tbs
  import opened Trust
  import opened History
  import Nsec
  import Nsec3

  /** The truth a validator tries to establish: which zones sign honestly, whose
      key is whose, and which RRsets each zone publishes at which owner. */
  datatype World = World(
    honest: Name -> bool,
    isKey: (Name, Dnskey) -> bool,
    publishes: (Name, Name, RecordType, seq<Record>) -> bool)

  /** The zone publishes an RRset that holds this data. */
  ghost predicate Publishes(w: World, zone: Name, owner: Name, t: RecordType, d: RData) {
    exists pub, r: Record :: w.publishes(zone, owner, t, pub) && r in pub && r.data == d
  }

  /** Octets that the zone has reason to sign: those of an RRset it publishes, under
      a signature that counts the owner's labels (RFC 4034 section 3.1.3). */
  ghost predicate SignedFor(prim: Primitives, w: World, zone: Name, octets: Octets) {
    exists sig: Rrsig, owner, pub ::
      && w.publishes(zone, owner, sig.covered, pub) && sig.labels == CountedLabels(owner)
      && BuildTbs(prim, sig, owner, pub) == Some(octets)
  }

  /** Encodings can be told apart; a root anchor matches keys of the root alone; a
      key of an honest zone verifies nothing but octets its zone signed; a key that
      matches a DS record of an honest parent is the child's; and the DNSKEY records
      of an honest zone are its own keys. Nothing is assumed of the other zones. */
  ghost predicate Unforgeable(prim: Primitives, w: World) {
    && Unambiguous(prim)
    && (forall key | MatchesAnchor(prim, [], key, prim.rootAnchors) :: w.isKey([], key))
    && (forall zone, key, octets, s
          | w.honest(zone) && w.isKey(zone, key) && prim.signatureHolds(key.algorithm, key.publicKey, octets, s)
          :: SignedFor(prim, w, zone, octets))
    && (forall zone, owner, ds, key
          | zone != [] && w.honest(zone[1..]) && Publishes(w, zone[1..], owner, DS, DsData(ds))
            && MatchesAnchor(prim, zone, key, SupportedAnchors([ds]))
          :: w.isKey(zone, key))
    && (forall zone, owner, key
          | w.honest(zone) && Publishes(w, zone, owner, DNSKEY, DnskeyData(key))
          :: w.isKey(zone, key))
  }

  ghost predicate HonestPath(w: World, n: Name) {
    forall a :: ZoneOf(a, n) ==> w.honest(a)
  }

  lemma HonestAbove(w: World, a: Name, n: Name)
    requires HonestPath(w, n) && ZoneOf(a, n)
    ensures HonestPath(w, a) && w.honest(a)
  {
    forall b | ZoneOf(b, a) ensures w.honest(b) { ZoneOfTransitive(b, a, n); }
  }

  // ----- One signature -----

  predicate SameData(a: seq<Record>, b: seq<Record>) {
    && a != [] && b != [] && a[0].class_ == b[0].class_
    && multiset(Datas(a)) == multiset(Datas(b))
  }

  /** The zone publishes these data, in any order and with any TTLs, at owner. */
  ghost predicate Published(w: World, zone: Name, owner: Name, t: RecordType, rrset: seq<Record>) {
    exists pub :: w.publishes(zone, owner, t, pub) && SameData(pub, rrset)
  }

  ghost predicate PublishesAll(w: World, zone: Name, owner: Name, t: RecordType, rrset: seq<Record>) {
    forall r <- rrset :: Publishes(w, zone, owner, t, r.data)
  }

  lemma PublishedData(w: World, zone: Name, owner: Name, t: RecordType, rrset: seq<Record>)
    requires Published(w, zone, owner, t, rrset)
    ensures PublishesAll(w, zone, owner, t, rrset)
  {
    var pub :| w.publishes(zone, owner, t, pub) && SameData(pub, rrset);
    forall i | 0 <= i < |rrset| ensures Publishes(w, zone, owner, t, rrset[i].data) {
      assert Datas(rrset)[i] in multiset(Datas(rrset));
      assert rrset[i].data in multiset(Datas(pub));
      var k :| 0 <= k < |pub| && Datas(pub)[k] == rrset[i].data;
      assert pub[k] in pub;
    }
  }

  /** What an honest zone's key verifies, the zone publishes: at the owner, or at
      the wildcard that the signature's label count points to. */
  lemma SignatureGenuine(prim: Primitives, w: World, zone: Name, keys: seq<Dnskey>, sig: Rrsig, key: Dnskey,
                         owner: Name, rrset: seq<Record>, now: nat)
    requires Unforgeable(prim, w) && w.honest(zone) && w.isKey(zone, key)
    requires SignedBy(prim, keys, sig, key, owner, rrset, now)
    ensures Published(w, zone, SignedOwner(owner, sig.labels), sig.covered, rrset)
  {
    var octets := BuildTbs(prim, sig, owner, rrset).value;
    assert prim.signatureHolds(key.algorithm, key.publicKey, octets, sig.signature);
    assert SignedFor(prim, w, zone, octets);
    var sig': Rrsig, owner', pub :|
      && w.publishes(zone, owner', sig'.covered, pub) && sig'.labels == CountedLabels(owner')
      && BuildTbs(prim, sig', owner', pub) == Some(octets);
    OctetsDetermine(prim, sig, owner, rrset, sig', owner', pub);
    assert SameData(pub, rrset);
  }

  lemma VouchedGenuine(prim: Primitives, w: World, zone: Name, keys: seq<Dnskey>, sigs: seq<Rrsig>,
                       owner: Name, t: RecordType, rrset: seq<Record>) returns (sig: Rrsig)
    requires Unforgeable(prim, w) && w.honest(zone)
    requires forall k <- keys :: w.isKey(zone, k)
    requires forall s <- sigs :: s.covered == t
    requires Vouched(prim, keys, sigs, owner, rrset)
    ensures sig in sigs && PublishesAll(w, zone, SignedOwner(owner, sig.labels), t, rrset)
  {
    var s, key, now :| s in sigs && prim.isReading(now) && SignedBy(prim, keys, s, key, owner, rrset, now);
    SignatureGenuine(prim, w, zone, keys, s, key, owner, rrset, now);
    PublishedData(w, zone, SignedOwner(owner, s.labels), t, rrset);
    sig := s;
  }

  // ----- Keys -----

  lemma {:induction false} KeyRecord(records: seq<Record>, zone: Name, key: Dnskey) returns (r: Record)
    requires key in KeysAt(records, zone)
    ensures r in records && r.name == zone && r.data == DnskeyData(key)
  {
    if records[0].name == zone && records[0].data == DnskeyData(key) {
      r := records[0];
    } else {
      r := KeyRecord(records[1..], zone, key);
    }
  }

  lemma {:induction false} DsRecord(records: seq<Record>, zone: Name, ds: Ds) returns (r: Record)
    requires ds in DsAt(records, zone)
    ensures r in records && r.name == zone && r.data == DsData(ds)
  {
    if records[0].name == zone && records[0].data == DsData(ds) {
      r := records[0];
    } else {
      r := DsRecord(records[1..], zone, ds);
    }
  }

  /** A key matched through a list of DS records is matched through one of them. */
  lemma {:induction false} MatchedByOne(prim: Primitives, zone: Name, key: Dnskey, list: seq<Ds>) returns (ds: Ds)
    requires MatchesAnchor(prim, zone, key, SupportedAnchors(list))
    ensures ds in list && MatchesAnchor(prim, zone, key, SupportedAnchors([ds]))
  {
    if MatchesAnchor(prim, zone, key, SupportedAnchors([list[0]])) {
      ds := list[0];
    } else {
      ds := MatchedByOne(prim, zone, key, list[1..]);
    }
  }

  lemma PublishedKeys(prim: Primitives, w: World, zone: Name, answers: seq<Record>, owner: Name)
    requires Unforgeable(prim, w) && w.honest(zone) && PublishesAll(w, zone, owner, DNSKEY, RrsetOf(answers, zone, DNSKEY))
    ensures forall k <- KeysAt(answers, zone) :: w.isKey(zone, k)
  {
    RrsetListed(answers, zone, DNSKEY);
    forall k <- KeysAt(answers, zone) ensures w.isKey(zone, k) {
      var r := KeyRecord(answers, zone, k);
      assert Publishes(w, zone, owner, DNSKEY, r.data);
    }
  }

  lemma KeyStepGenuine(prim: Primitives, w: World, zone: Name, anchors: seq<Anchor>, answers: seq<Record>,
                       matched: seq<Dnskey>, keys: seq<Dnskey>)
    requires Unforgeable(prim, w) && w.honest(zone)
    requires forall k :: MatchesAnchor(prim, zone, k, anchors) ==> w.isKey(zone, k)
    requires KeyStep(prim, zone, anchors, answers, matched, keys)
    ensures forall k <- keys :: w.isKey(zone, k)
  {
    SigsCoverType(answers, zone, DNSKEY);
    ZoneKeysListed(KeysAt(answers, zone));
    var sig := VouchedGenuine(prim, w, zone, matched, SigsCovering(answers, DNSKEY), zone, DNSKEY,
                              RrsetOf(answers, zone, DNSKEY));
    PublishedKeys(prim, w, zone, answers, SignedOwner(zone, sig.labels));
  }

  lemma PublishedDs(prim: Primitives, w: World, zone: Name, answers: seq<Record>, owner: Name, key: Dnskey)
    requires Unforgeable(prim, w) && zone != [] && w.honest(zone[1..])
    requires PublishesAll(w, zone[1..], owner, DS, RrsetOf(answers, zone, DS))
    requires MatchesAnchor(prim, zone, key, SupportedAnchors(DsAt(answers, zone)))
    ensures w.isKey(zone, key)
  {
    RrsetListed(answers, zone, DS);
    var ds := MatchedByOne(prim, zone, key, DsAt(answers, zone));
    var r := DsRecord(answers, zone, ds);
    assert Publishes(w, zone[1..], owner, DS, r.data);
  }

  /** What matches a DS set that the parent's keys verified is a key of the zone. */
  lemma DsStepGenuine(prim: Primitives, w: World, zone: Name, parentKeys: seq<Dnskey>, answers: seq<Record>, key: Dnskey)
    requires Unforgeable(prim, w) && zone != [] && w.honest(zone[1..])
    requires forall k <- parentKeys :: w.isKey(zone[1..], k)
    requires DsStep(prim, zone, parentKeys, answers) && MatchesAnchor(prim, zone, key, SupportedAnchors(DsAt(answers, zone)))
    ensures w.isKey(zone, key)
  {
    SigsCoverType(answers, zone, DS);
    var sig := VouchedGenuine(prim, w, zone[1..], parentKeys, SigsCovering(answers, DS), zone, DS, RrsetOf(answers, zone, DS));
    PublishedDs(prim, w, zone, answers, SignedOwner(zone, sig.labels), key);
  }

  /** Every key of a derived set really belongs to the zone, if the zone and all
      its ancestors sign honestly. */
  lemma DerivedGenuine(prim: Primitives, w: World, zone: Name, keys: seq<Dnskey>)
    requires Unforgeable(prim, w) && HonestPath(w, zone) && Derived(prim, zone, keys)
    ensures forall k <- keys :: w.isKey(zone, k)
  {
    var d :| Derives(prim, d, zone, keys);
    DerivationGenuine(prim, w, d, zone, keys);
  }

  lemma {:induction false} DerivationGenuine(prim: Primitives, w: World, d: Derivation, zone: Name, keys: seq<Dnskey>)
    requires Unforgeable(prim, w) && HonestPath(w, zone) && Derives(prim, d, zone, keys)
    ensures forall k <- keys :: w.isKey(zone, k)
    decreases d
  {
    HonestAbove(w, zone, zone);
    assert LastStep(prim, d, zone, keys);
    match d
    case RootStep(answers, matched) =>
      KeyStepGenuine(prim, w, zone, prim.rootAnchors, answers, matched, keys);
    case ZoneStep(parent, pk, dsAnswers, answers, matched) =>
      HonestAbove(w, zone[1..], zone);
      DerivationGenuine(prim, w, parent, zone[1..], pk);
      var anchors := SupportedAnchors(DsAt(dsAnswers, zone));
      forall k | MatchesAnchor(prim, zone, k, anchors) ensures w.isKey(zone, k) {
        DsStepGenuine(prim, w, zone, pk, dsAnswers, k);
      }
      KeyStepGenuine(prim, w, zone, anchors, answers, matched, keys);
  }

  // ----- RRsets and answers -----

  /** A signature with this label count over owner's RRset is one for a wildcard. */
  predicate Expands(owner: Name, labels: nat) {
    0 < labels < CountedLabels(owner)
  }

  /** The owner that was signed is another name exactly then. */
  lemma ExpandsExactly(owner: Name, labels: nat)
    ensures !Expands(owner, labels) ==> SignedOwner(owner, labels) == owner
    ensures ValidName(owner) ==> (Expands(owner, labels) <==> SignedOwner(owner, labels) != owner)
  {
    if ValidName(owner) && Expands(owner, labels) {
      var base := owner[|owner| - labels..];
      WildcardFits(base, owner);
      assert |["*"] + base| == labels + 1 && (["*"] + base)[0] == "*";
    }
  }

  predicate Unexpanded(owner: Name, t: RecordType, records: seq<Record>) {
    forall sig <- SigsAt(records, owner, t) :: !Expands(owner, sig.labels)
  }

  /** A zone at or above owner publishes this RRset, at owner or at the wildcard
      that one of the RRset's signatures points to. */
  ghost predicate FromSigned(w: World, owner: Name, t: RecordType, records: seq<Record>) {
    exists sig <- SigsAt(records, owner, t) ::
      ZoneOf(sig.signer, owner) && Published(w, sig.signer, SignedOwner(owner, sig.labels), t, RrsetOf(records, owner, t))
  }

  /** A zone at or above owner publishes this RRset at owner. */
  ghost predicate FromOwner(w: World, owner: Name, t: RecordType, rrset: seq<Record>) {
    exists zone :: ZoneOf(zone, owner) && Published(w, zone, owner, t, rrset)
  }

  lemma UnexpandedFromOwner(w: World, owner: Name, t: RecordType, records: seq<Record>)
    requires FromSigned(w, owner, t, records) && Unexpanded(owner, t, records)
    ensures FromOwner(w, owner, t, RrsetOf(records, owner, t))
  {
    var sig :| sig in SigsAt(records, owner, t) && ZoneOf(sig.signer, owner)
               && Published(w, sig.signer, SignedOwner(owner, sig.labels), t, RrsetOf(records, owner, t));
    ExpandsExactly(owner, sig.labels);
  }

  /** An RRset accepted as Secure is published, whoever delivered it, by a zone at
      or above its owner, if the owner's ancestors-or-self sign honestly: at the
      owner itself unless a signature is one for a wildcard. */
  lemma SecureGenuine(prim: Primitives, w: World, owner: Name, t: RecordType, records: seq<Record>, ev: Evidence)
    requires Unforgeable(prim, w) && HonestPath(w, owner) && RrsetSecure(prim, owner, t, records, ev)
    ensures FromSigned(w, owner, t, records)
    ensures Unexpanded(owner, t, records) ==> FromOwner(w, owner, t, RrsetOf(records, owner, t))
  {
    var sig: Rrsig, keys, key, now: nat :|
      && ev.start <= now <= ev.end && Arrived(ev.log, sig.signer, keys)
      && RrsetProof(prim, owner, t, records, sig, keys, key, now);
    HonestAbove(w, sig.signer, owner);
    DerivedGenuine(prim, w, sig.signer, keys);
    SignatureGenuine(prim, w, sig.signer, keys, sig, key, owner, RrsetOf(records, owner, t), now);
    SigsCoverType(records, owner, t);
    if Unexpanded(owner, t, records) {
      UnexpandedFromOwner(w, owner, t, records);
    }
  }

  /** Every RRset that decides the answer is published, at its owner or at the
      wildcard that one of its signatures points to. */
  ghost predicate AnswerPublished(w: World, name: Name, t: RecordType, records: seq<Record>) {
    var chain := ChainOf(name, t, records);
    && chain.Complete?
    && (forall step <- chain.steps :: FromSigned(w, Justification(step).0, Justification(step).1, records))
    && FromSigned(w, FinalOwner(name, chain.steps), t, records)
  }

  /** Along a Secure answer every alias that was followed and the records at its
      end are published at their owners, or at wildcards that stand for them; the
      records at its end at their owner, unless a signature is one for a wildcard. */
  lemma AnswerGenuine(prim: Primitives, w: World, name: Name, t: RecordType, records: seq<Record>, ev: Evidence)
    requires Unforgeable(prim, w) && AnswerSecure(prim, name, t, records, ev)
    requires forall n :: Involved(n, name, t, records) ==> HonestPath(w, n)
    ensures AnswerPublished(w, name, t, records)
    ensures
      var owner := FinalOwner(name, ChainOf(name, t, records).steps);
      Unexpanded(owner, t, records) ==> FromOwner(w, owner, t, RrsetOf(records, owner, t))
  {
    var steps := ChainOf(name, t, records).steps;
    forall step <- steps ensures FromSigned(w, Justification(step).0, Justification(step).1, records) {
      assert StepSecure(prim, step, records, ev);
      assert Involved(Justification(step).0, name, t, records);
      SecureGenuine(prim, w, Justification(step).0, Justification(step).1, records, ev);
    }
    assert Involved(FinalOwner(name, steps), name, t, records);
    SecureGenuine(prim, w, FinalOwner(name, steps), t, records, ev);
  }

  // ----- Denials -----

  /** The NSEC and NSEC3 chains of the zones of a world. */
  datatype Registry = Registry(nsec: Name -> Nsec.Zone, nsec3: Name -> Nsec3.Zone)

  /** r is the link of zone's own chain at its owner. */
  ghost predicate OwnLink(prim: Primitives, reg: Registry, zone: Name, r: Record) {
    if r.data.Nsec3Data?
    then Nsec3.OnChain(HasherOf(prim, r.data.salt, r.data.iterations), reg.nsec3(zone), r)
    else Nsec.OnChain(reg.nsec(zone), r)
  }

  predicate DenialType(t: RecordType) {
    t == NSEC || t == NSEC3
  }

  /** The denial records that the zone publishes are links of its own chains. */
  ghost predicate ChainsTrue(prim: Primitives, w: World, reg: Registry, zone: Name) {
    forall owner, t, d | Publishes(w, zone, owner, t, d) && DenialType(t) :: OwnLink(prim, reg, zone, Record(owner, 1, 0, d))
  }

  /** src is r under the owner that one of its signatures in the section signs. */
  predicate SourceOf(src: Record, r: Record, section: seq<Record>) {
    exists sig <- SigsAt(section, r.name, r.Type()) :: src == r.(name := SignedOwner(r.name, sig.labels))
  }

  /** What a zone's keys vouch for as a denial record has a source on its chain. */
  lemma LinkGenuine(prim: Primitives, w: World, reg: Registry, zone: Name, keys: seq<Dnskey>, r: Record, section: seq<Record>)
    returns (src: Record)
    requires Unforgeable(prim, w) && w.honest(zone) && ChainsTrue(prim, w, reg, zone) && (forall k <- keys :: w.isKey(zone, k))
    requires r in section && DenialType(r.Type()) && RecordVouched(prim, keys, r, section)
    ensures SourceOf(src, r, section) && OwnLink(prim, reg, zone, src)
  {
    var rrset := RrsetOf(section, r.name, r.Type());
    SigsCoverType(section, r.name, r.Type());
    RrsetListed(section, r.name, r.Type());
    var sig := VouchedGenuine(prim, w, zone, keys, SigsAt(section, r.name, r.Type()), r.name, r.Type(), rrset);
    assert Publishes(w, zone, SignedOwner(r.name, sig.labels), r.Type(), r.data);
    src := r.(name := SignedOwner(r.name, sig.labels));
    assert OwnLink(prim, reg, zone, Record(src.name, 1, 0, src.data));
  }

  /** The true links behind the NSEC records of a section. */
  ghost predicate Sources(links: seq<Record>, authority: seq<Record>) {
    SourcesOf(links, NsecRecords(authority), authority)
  }

  ghost predicate SourcesOf(links: seq<Record>, records: seq<Record>, section: seq<Record>) {
    |links| == |records| && forall i :: 0 <= i < |records| ==> SourceOf(links[i], records[i], section)
  }

  /** Every signature over a denial record counts the labels of its owner. */
  predicate DenialUnexpanded(authority: seq<Record>) {
    forall r <- NsecRecords(authority) :: Unexpanded(r.name, r.Type(), authority)
  }

  ghost predicate HasSource(zone: Nsec.Zone, r: Record, section: seq<Record>) {
    exists src :: SourceOf(src, r, section) && Nsec.OnChain(zone, src)
  }

  lemma {:induction false} CollectSources(zone: Nsec.Zone, records: seq<Record>,
                                          section: seq<Record>) returns (links: seq<Record>)
    requires forall r <- records :: HasSource(zone, r, section)
    ensures SourcesOf(links, records, section) && Nsec.AllOnChain(zone, links)
  {
    if records == [] {
      links := [];
    } else {
      assert HasSource(zone, records[0], section);
      var src :| SourceOf(src, records[0], section) && Nsec.OnChain(zone, src);
      var rest := CollectSources(zone, records[1..], section);
      links := [src] + rest;
    }
  }

  /** A negative answer accepted as Secure on NSEC records rests on true links of
      the zone whose keys were used, if that zone and its ancestors sign honestly;
      and it states the truth when the links refute the query, which they do unless
      a record was expanded from a wildcard. */
  lemma DenialGenuine(prim: Primitives, w: World, reg: Registry, zone: Name, keys: seq<Dnskey>,
                      qname: Name, qtype: RecordType, authority: seq<Record>) returns (links: seq<Record>)
    requires Unforgeable(prim, w) && HonestPath(w, zone) && ChainsTrue(prim, w, reg, zone)
    requires Derived(prim, zone, keys) && Denied(prim, keys, qname, qtype, authority, Secure) && !HasType(authority, NSEC3)
    ensures Sources(links, authority) && Nsec.AllOnChain(reg.nsec(zone), links)
    ensures DenialUnexpanded(authority) ==> Nsec.Refutes(links, qname, qtype)
    ensures Nsec.Refutes(links, qname, qtype) ==> !Nsec.Present(reg.nsec(zone), qname, qtype)
  {
    HonestAbove(w, zone, zone);
    DerivedGenuine(prim, w, zone, keys);
    var records := NsecRecords(authority);
    forall r <- records ensures HasSource(reg.nsec(zone), r, authority) {
      assert r in DenialRecords(authority) && RecordVouched(prim, keys, r, authority);
      var src := LinkGenuine(prim, w, reg, zone, keys, r, authority);
    }
    links := CollectSources(reg.nsec(zone), records, authority);
    if DenialUnexpanded(authority) {
      UnexpandedSources(links, authority);
      Nsec.VerdictRefutes(qname, qtype, records);
    }
    if Nsec.Refutes(links, qname, qtype) {
      Nsec.RefutesIsAbsent(reg.nsec(zone), links, qname, qtype);
    }
  }

  lemma UnexpandedSources(links: seq<Record>, authority: seq<Record>)
    requires Sources(links, authority) && DenialUnexpanded(authority)
    ensures links == NsecRecords(authority)
  {
    var records := NsecRecords(authority);
    forall i | 0 <= i < |records| ensures links[i] == records[i] {
      var r := records[i];
      var sig :| sig in SigsAt(authority, r.name, r.Type()) && links[i] == r.(name := SignedOwner(r.name, sig.labels));
      assert Unexpanded(r.name, r.Type(), authority);
      ExpandsExactly(r.name, sig.labels);
    }
  }

  /** No wildcard owns a hash, so NSEC3 records are never expanded. */
  lemma SourceOfHashed(prim: Primitives, reg: Registry, zone: Name, src: Record, r: Record, section: seq<Record>)
    requires SourceOf(src, r, section) && r.data.Nsec3Data? && OwnLink(prim, reg, zone, src)
    ensures src == r
  {
    if src.name != r.name {
      assert src.name[0] == "*";
      assert Nsec3.OwnerHash(src).Some?;
      StarIsNoHash(src);
    }
  }

  lemma StarIsNoHash(r: Record)
    requires r.name != [] && r.name[0] == "*"
    ensures Nsec3.OwnerHash(r).None?
  {
    assert '*' in r.name[0];
  }

  /** A negative answer accepted as Secure on NSEC3 records states the truth about
      the zone whose keys were used, except that one decided by a wildcard's record
      speaks of that wildcard, and of qname only if the records refute it as well. */
  lemma HashedDenialGenuine(prim: Primitives, w: World, reg: Registry, zone: Name, keys: seq<Dnskey>,
                            qname: Name, qtype: RecordType, authority: seq<Record>)
    requires Unforgeable(prim, w) && HonestPath(w, zone) && ChainsTrue(prim, w, reg, zone)
    requires Derived(prim, zone, keys) && Denied(prim, keys, qname, qtype, authority, Secure) && HasType(authority, NSEC3)
    ensures
      var records := Nsec3Records(authority);
      var p := ParametersOf(records);
      && p.Usable?
      && HashedTruth(HasherOf(prim, p.salt, p.iterations), reg.nsec3(zone), qname, qtype, records)
  {
    HonestAbove(w, zone, zone);
    DerivedGenuine(prim, w, zone, keys);
    var records := Nsec3Records(authority);
    var p := ParametersOf(records);
    var h := HasherOf(prim, p.salt, p.iterations);
    forall r <- records ensures Nsec3.OnChain(h, reg.nsec3(zone), r) {
      assert r in DenialRecords(authority) && RecordVouched(prim, keys, r, authority);
      assert r.data.Nsec3Data? && r.data.salt == p.salt && r.data.iterations == p.iterations;
      var src := LinkGenuine(prim, w, reg, zone, keys, r, authority);
      SourceOfHashed(prim, reg, zone, src, r, authority);
    }
    HashedVerdictTrue(h, reg.nsec3(zone), qname, qtype, records);
  }

  /** What a Secure verdict over true links says when the zone's names and those
      above qname have hashes of their own. */
  ghost predicate HashedTruth(h: Nsec3.Hasher, z: Nsec3.Zone, qname: Name, qtype: RecordType, records: seq<Record>) {
    z.Valid() && Nsec3.CollisionFree(h, z, qname) ==>
      if Nsec3.ByWildcard(h, qname, qtype, records) then
        && !z.Present(WildcardName(Nsec3.EncloserUsed(h, qname, qtype, records).value), qtype)
        && (Nsec3.Refutes(h, z.apex, qname, qtype, records) ==> !z.Present(qname, qtype))
      else !z.Present(qname, qtype)
  }

  lemma HashedVerdictTrue(h: Nsec3.Hasher, z: Nsec3.Zone, qname: Name, qtype: RecordType, records: seq<Record>)
    requires Nsec3.AllOnChain(h, z, records) && Nsec3.Verdict(h, qname, qtype, records) == Secure
    ensures HashedTruth(h, z, qname, qtype, records)
  {
    if z.Valid() && Nsec3.CollisionFree(h, z, qname) {
      Nsec3.VerdictSound(h, z, qname, qtype, records);
      if Nsec3.Refutes(h, z.apex, qname, qtype, records) {
        Nsec3.RefutesIsAbsent(h, z, qname, qtype, records);
      }
    }
  }

  /** What a Secure denial that verified under a zone's keys says about that zone. */
  ghost predicate DenialTruth(prim: Primitives, reg: Registry, zone: Name, qname: Name, qtype: RecordType,
                              authority: seq<Record>) {
    if HasType(authority, NSEC3) then
      var p := ParametersOf(Nsec3Records(authority));
      p.Usable? && HashedTruth(HasherOf(prim, p.salt, p.iterations), reg.nsec3(zone), qname, qtype, Nsec3Records(authority))
    else DenialUnexpanded(authority) ==> !Nsec.Present(reg.nsec(zone), qname, qtype)
  }

  lemma DenialIsTrue(prim: Primitives, w: World, reg: Registry, zone: Name, keys: seq<Dnskey>,
                     qname: Name, qtype: RecordType, authority: seq<Record>)
    requires Unforgeable(prim, w) && HonestPath(w, zone) && ChainsTrue(prim, w, reg, zone)
    requires Derived(prim, zone, keys) && Denied(prim, keys, qname, qtype, authority, Secure)
    ensures DenialTruth(prim, reg, zone, qname, qtype, authority)
  {
    if HasType(authority, NSEC3) {
      HashedDenialGenuine(prim, w, reg, zone, keys, qname, qtype, authority);
    } else {
      var links := DenialGenuine(prim, w, reg, zone, keys, qname, qtype, authority);
    }
  }

  /** The zone named by a SOA of the message, at or above the query name or the last
      alias target, to which its denial is true. */
  ghost predicate DeniedBy(prim: Primitives, reg: Registry, zone: Name, msg: Message, qname: Name, qtype: RecordType) {
    && (exists soa <- msg.authority :: soa.data.SoaData? && soa.name == zone)
    && (ZoneOf(zone, FinalTarget(msg.answers, qname)) || ZoneOf(zone, qname))
    && DenialTruth(prim, reg, zone, FinalTarget(msg.answers, qname), qtype, msg.authority)
  }

  /** The zones at or above the query name and the last alias target sign honestly
      and publish their own chains. */
  ghost predicate HonestAbout(prim: Primitives, w: World, reg: Registry, msg: Message, qname: Name) {
    var target := FinalTarget(msg.answers, qname);
    && HonestPath(w, qname) && HonestPath(w, target)
    && forall z :: ZoneOf(z, qname) || ZoneOf(z, target) ==> ChainsTrue(prim, w, reg, z)
  }

  /** A negative answer accepted as Secure is true of such a zone, if the zones
      concerned are honest; nothing is assumed of any other zone. */
  lemma NegativeGenuine(prim: Primitives, w: World, reg: Registry, msg: Message, qname: Name, qtype: RecordType)
    requires Unforgeable(prim, w) && HonestAbout(prim, w, reg, msg, qname)
    requires NegativeAccepted(prim, msg, qname, qtype, Secure)
    ensures exists zone :: DeniedBy(prim, reg, zone, msg, qname, qtype)
  {
    var zone, keys :| NegativeProven(prim, zone, keys, msg, qname, qtype, Secure);
    HonestAbove(w, zone, if ZoneOf(zone, qname) then qname else FinalTarget(msg.answers, qname));
    DenialIsTrue(prim, w, reg, zone, keys, FinalTarget(msg.answers, qname), qtype, msg.authority);
    assert DeniedBy(prim, reg, zone, msg, qname, qtype);
  }
}
