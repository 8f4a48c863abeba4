/** Where acceptance says less than a reader may expect: wildcard signatures are
    not tied to a proof that the name does not exist, neither for answers nor for
    NSEC records. Exact conditions, each with a world that shows the failure. */
module Expansion {
  import opened Order
  import opened Circular
  import opened Names
  import opened Records
  import opened Status
  import opened Tbs
  import opened Trust
  import opened History
  import opened Authenticity
  import opened Worlds
  import Nsec
  import Nsec3

  // ----- Answers -----

  /** Whenever an RRset of owner, signed only with this label count, is Secure, an
      honest zone publishes it at owner. */
  ghost predicate AlwaysOwners(owner: Name, labels: Octet) {
    forall prim, w, t, records, ev
      | Unforgeable(prim, w) && HonestPath(w, owner) && RrsetSecure(prim, owner, t, records, ev)
        && (forall sig <- SigsAt(records, owner, t) :: sig.labels == labels)
      :: FromOwner(w, owner, t, RrsetOf(records, owner, t))
  }

  /** A validation at reading 1 that fetched the root's keys. */
  function RootWalk(): Evidence {
    var answers := [At([], DnskeyData(KEY)), At([], RrsigData(SigOver(DNSKEY, 0)))];
    var response := Message(NoError, true, answers, [], []);
    Evidence(Then(Then(NoEvent, Asked([], DNSKEY, Some(response))), Held([], [KEY], Fetched(0))), {}, 1, 1)
  }

  /** The failing input: the zone publishes y at owner and x at the wildcard above
      it; x shown at owner with the wildcard's signature is Secure. */
  lemma ExpansionAccepted(owner: Name, labels: Octet, x: RData, y: RData)
    returns (prim: Primitives, w: World, records: seq<Record>)
    requires SignedOwner(owner, labels) != owner
    requires x != y && x.Type() !in {DS, DNSKEY, RRSIG} && y.Type() == x.Type()
    ensures Unforgeable(prim, w) && HonestPath(w, owner)
    ensures w.publishes([], owner, x.Type(), [At(owner, y)])
    ensures RrsetSecure(prim, owner, x.Type(), records, RootWalk()) && RrsetOf(records, owner, x.Type()) == [At(owner, x)]
    ensures SigsAt(records, owner, x.Type()) == [SigOver(x.Type(), labels)]
    ensures !FromOwner(w, owner, x.Type(), RrsetOf(records, owner, x.Type()))
  {
    var wildcard := Pub(SignedOwner(owner, labels), x);
    WildcardStands(wildcard, labels, owner);
    prim, w := ExampleWorld(wildcard, wildcard, Pub(owner, y));
    records := SignedRecord(owner, labels, x);
    SignedParts(owner, labels, x);
    ShownSecure(prim, owner, labels, x);
    NotPublished(w, wildcard, owner, y);
  }

  lemma WildcardStands(p: Pub, labels: Octet, owner: Name)
    requires p.owner == SignedOwner(owner, labels) && p.owner != owner
    ensures Stands(p, labels, owner) && p.owner != []
  {
  }

  lemma ShownSecure(prim: Primitives, owner: Name, labels: Octet, x: RData)
    requires x.Type() != RRSIG && Derived(prim, [], [KEY]) && prim.isReading(1)
    requires SignedBy(prim, [KEY], SigOver(x.Type(), labels), KEY, owner, [At(owner, x)], 1)
    ensures RrsetSecure(prim, owner, x.Type(), SignedRecord(owner, labels, x), RootWalk())
  {
    SignedParts(owner, labels, x);
    assert RrsetProof(prim, owner, x.Type(), SignedRecord(owner, labels, x), SigOver(x.Type(), labels), [KEY], KEY, 1);
  }

  lemma NotPublished(w: World, wildcard: Pub, owner: Name, y: RData)
    requires NoMore(w, wildcard, wildcard, Pub(owner, y)) && wildcard.owner != owner && wildcard.data != y
    requires wildcard.data.Type() != DNSKEY
    ensures !FromOwner(w, owner, wildcard.data.Type(), [At(owner, wildcard.data)])
  {
    var x := wildcard.data;
    if zone :| ZoneOf(zone, owner) && Published(w, zone, owner, x.Type(), [At(owner, x)]) {
      PublishedData(w, zone, owner, x.Type(), [At(owner, x)]);
    }
  }

  /** A Secure RRset is always its owner's if and only if the label count does not
      make another name the signed one; for valid names, if and only if it is zero
      or at least the number of the owner's labels. */
  lemma OwnerExact(owner: Name, labels: Octet)
    ensures AlwaysOwners(owner, labels) <==> SignedOwner(owner, labels) == owner
    ensures ValidName(owner) ==> (AlwaysOwners(owner, labels) <==> !Expands(owner, labels))
  {
    ExpandsExactly(owner, labels);
    if SignedOwner(owner, labels) == owner {
      forall prim, w, t, records, ev
        | Unforgeable(prim, w) && HonestPath(w, owner) && RrsetSecure(prim, owner, t, records, ev)
          && (forall sig <- SigsAt(records, owner, t) :: sig.labels == labels)
        ensures FromOwner(w, owner, t, RrsetOf(records, owner, t))
      {
        SecureGenuine(prim, w, owner, t, records, ev);
      }
    } else {
      var prim, w, records := ExpansionAccepted(owner, labels, AData(V4([0])), AData(V4([1])));
      assert !AlwaysOwners(owner, labels);
    }
  }

  // ----- NSEC records -----

  /** One NSEC record of qname, with these contents and signed only with this label
      count, is all the section holds. */
  ghost predicate OneNsec(authority: seq<Record>, qname: Name, labels: Octet, next: Name, types: set<RecordType>) {
    && !HasType(authority, NSEC3)
    && (exists r :: NsecRecords(authority) == [r] && r.name == qname && r.data == NsecData(next, types))
    && forall sig <- SigsAt(authority, qname, NSEC) :: sig.labels == labels
  }

  /** The section denies the query under derived keys of a zone that, like those
      above it, signs honestly. */
  ghost predicate HonestDenial(prim: Primitives, w: World, reg: Registry, zone: Name, keys: seq<Dnskey>,
                               qname: Name, qtype: RecordType, authority: seq<Record>) {
    && Unforgeable(prim, w) && HonestPath(w, zone) && ChainsTrue(prim, w, reg, zone)
    && Derived(prim, zone, keys) && Denied(prim, keys, qname, qtype, authority, Secure)
  }

  /** Whenever such a section is accepted as Secure from an honest zone, the zone
      has no RRset of the type at qname. */
  ghost predicate AlwaysLacks(qname: Name, qtype: RecordType, labels: Octet, next: Name, types: set<RecordType>) {
    forall prim, w, reg, zone, keys, authority
      | HonestDenial(prim, w, reg, zone, keys, qname, qtype, authority) && OneNsec(authority, qname, labels, next, types)
      :: !Nsec.Present(reg.nsec(zone), qname, qtype)
  }

  /** The record shown decides a query for the type. */
  predicate Decides(qtype: RecordType, types: set<RecordType>) {
    qtype !in types && CNAME !in types && !(qtype == DS && SOA in types)
  }

  /** A zone in which src's link leads to next and qname has the type. */
  lemma ZoneWith(src: Name, next: Name, types: set<RecordType>, qname: Name, qtype: RecordType) returns (z: Nsec.Zone)
    requires src != qname && !Nsec.NsecCovers(src, next, qname)
    ensures Nsec.OnChain(z, At(src, NsecData(next, types))) && Nsec.Present(z, qname, qtype)
  {
    NameStrictTotal();
    z := map[src := types, next := {}, qname := {qtype}];
    assert Successor(NameLess, {src, next}, src, next);
    SuccessorStays(NameLess, {src, next}, src, next, {qname});
    assert z.Keys == {src, next} + {qname};
  }

  /** The failing input: an NSEC record expanded to qname is accepted as a denial
      although the zone has the RRset, published too, at qname. */
  lemma ExpandedDenialAccepted(qname: Name, qtype: RecordType, labels: Octet, next: Name, types: set<RecordType>)
    returns (prim: Primitives, w: World, reg: Registry, authority: seq<Record>)
    requires Decides(qtype, types) && SignedOwner(qname, labels) != qname
    requires !Nsec.NsecCovers(SignedOwner(qname, labels), next, qname)
    ensures HonestDenial(prim, w, reg, [], [KEY], qname, qtype, authority)
    ensures OneNsec(authority, qname, labels, next, types)
    ensures Nsec.Present(reg.nsec([]), qname, qtype) && w.publishes([], qname, qtype, [At(qname, Raw(qtype, []))])
  {
    var src := Pub(SignedOwner(qname, labels), NsecData(next, types));
    WildcardStands(src, labels, qname);
    prim, w, reg, authority := HidingDenial(src, labels, qname, qtype);
  }

  lemma HidingDenial(src: Pub, labels: Octet, qname: Name, qtype: RecordType)
    returns (prim: Primitives, w: World, reg: Registry, authority: seq<Record>)
    requires Stands(src, labels, qname) && src.owner != qname && src.data.NsecData? && Decides(qtype, src.data.types)
    requires !Nsec.NsecCovers(src.owner, src.data.next, qname)
    ensures HonestDenial(prim, w, reg, [], [KEY], qname, qtype, authority)
    ensures OneNsec(authority, qname, labels, src.data.next, src.data.types)
    ensures Nsec.Present(reg.nsec([]), qname, qtype) && w.publishes([], qname, qtype, [At(qname, Raw(qtype, []))])
  {
    prim, w, reg := HidingWorld(src, qname, qtype);
    authority := LinkDenies(prim, src, labels, qname, qtype);
    ExampleDenial(prim, w, reg, src, src, Pub(qname, Raw(qtype, [])), qname, qtype, authority);
  }

  /** A world that publishes src's link, and an RRset of the type at a name outside
      the link's arc. */
  lemma HidingWorld(src: Pub, qname: Name, qtype: RecordType) returns (prim: Primitives, w: World, reg: Registry)
    requires Plain(src) && src.data.NsecData? && src.owner != qname && !Nsec.NsecCovers(src.owner, src.data.next, qname)
    ensures Example(prim, w, src, src, Pub(qname, Raw(qtype, []))) && ChainsTrue(prim, w, reg, [])
    ensures Nsec.Present(reg.nsec([]), qname, qtype) && w.publishes([], qname, qtype, [At(qname, Raw(qtype, []))])
  {
    var other := Pub(qname, Raw(qtype, []));
    assert other.data.Type() == qtype;
    prim, w := ExampleWorld(src, src, other);
    reg := ChainsWith(prim, w, src.owner, src.data.next, src.data.types, qname, qtype);
  }

  lemma ExampleDenial(prim: Primitives, w: World, reg: Registry, a: Pub, b: Pub, other: Pub,
                      qname: Name, qtype: RecordType, authority: seq<Record>)
    requires Example(prim, w, a, b, other) && ChainsTrue(prim, w, reg, [])
    requires Denied(prim, [KEY], qname, qtype, authority, Secure)
    ensures HonestDenial(prim, w, reg, [], [KEY], qname, qtype, authority)
  {
  }

  /** Chains for that world in which qname has the type. */
  lemma ChainsWith(prim: Primitives, w: World, src: Name, next: Name, types: set<RecordType>, qname: Name, qtype: RecordType)
    returns (reg: Registry)
    requires src != qname && !Nsec.NsecCovers(src, next, qname)
    requires NoMore(w, Pub(src, NsecData(next, types)), Pub(src, NsecData(next, types)), Pub(qname, Raw(qtype, [])))
    ensures ChainsTrue(prim, w, reg, []) && Nsec.Present(reg.nsec([]), qname, qtype)
  {
    var z := ZoneWith(src, next, types, qname, qtype);
    reg := RootChain(z);
    ExampleChains(prim, w, Pub(src, NsecData(next, types)), Pub(src, NsecData(next, types)), Pub(qname, Raw(qtype, [])), z);
  }

  /** A link shown where its signature may stand denies the query. */
  lemma LinkDenies(prim: Primitives, src: Pub, labels: Octet, qname: Name, qtype: RecordType)
    returns (authority: seq<Record>)
    requires Shows(prim, src) && prim.isReading(1) && Stands(src, labels, qname)
    requires src.data.NsecData? && Decides(qtype, src.data.types)
    ensures OneNsec(authority, qname, labels, src.data.next, src.data.types)
    ensures Denied(prim, [KEY], qname, qtype, authority, Secure)
  {
    ShowsAt(prim, src, qname, labels);
    authority := ShownDenies(prim, labels, qname, qtype, src.data);
  }

  /** A section whose NSEC record verifies at qname denies the query. */
  lemma ShownDenies(prim: Primitives, labels: Octet, qname: Name, qtype: RecordType, d: RData)
    returns (authority: seq<Record>)
    requires d.NsecData? && Decides(qtype, d.types) && prim.isReading(1)
    requires SignedBy(prim, [KEY], SigOver(d.Type(), labels), KEY, qname, [At(qname, d)], 1)
    ensures OneNsec(authority, qname, labels, d.next, d.types) && Denied(prim, [KEY], qname, qtype, authority, Secure)
  {
    authority := SignedRecord(qname, labels, d);
    SignedParts(qname, labels, d);
    ShownNsec(qname, labels, d, authority);
    assert Nsec.Verdict(qname, qtype, [At(qname, d)]) == Secure;
    assert Vouched(prim, [KEY], [SigOver(NSEC, labels)], qname, [At(qname, d)]);
    assert RecordVouched(prim, [KEY], At(qname, d), authority);
  }

  lemma ShownNsec(qname: Name, labels: Octet, d: RData, authority: seq<Record>)
    requires d.NsecData? && authority == SignedRecord(qname, labels, d)
    ensures NsecRecords(authority) == [At(qname, d)] && HasType(authority, NSEC) && !HasType(authority, NSEC3)
  {
    var a, b := authority[0], authority[1];
    assert authority[1..] == [b] && [b][1..] == [];
    assert a in authority;
    assert FirstOfType([b], NSEC, 7) == [];
  }

  /** An accepted NSEC record of qname proves that qname lacks the type if and only
      if it was signed for qname itself, or the arc of the wildcard it was signed
      for covers qname. */
  lemma NodataExact(qname: Name, qtype: RecordType, labels: Octet, next: Name, types: set<RecordType>)
    requires Decides(qtype, types)
    ensures
      var src := SignedOwner(qname, labels);
      AlwaysLacks(qname, qtype, labels, next, types) <==> src == qname || Nsec.NsecCovers(src, next, qname)
  {
    var src := SignedOwner(qname, labels);
    if src == qname || Nsec.NsecCovers(src, next, qname) {
      forall prim, w, reg, zone, keys, authority
        | HonestDenial(prim, w, reg, zone, keys, qname, qtype, authority) && OneNsec(authority, qname, labels, next, types)
        ensures !Nsec.Present(reg.nsec(zone), qname, qtype)
      {
        NodataTrue(prim, w, reg, zone, keys, qname, qtype, authority, labels, next, types);
      }
    } else {
      var prim, w, reg, authority := ExpandedDenialAccepted(qname, qtype, labels, next, types);
    }
  }

  lemma NodataTrue(prim: Primitives, w: World, reg: Registry, zone: Name, keys: seq<Dnskey>, qname: Name, qtype: RecordType,
                   authority: seq<Record>, labels: Octet, next: Name, types: set<RecordType>)
    requires HonestDenial(prim, w, reg, zone, keys, qname, qtype, authority) && OneNsec(authority, qname, labels, next, types)
    requires qtype !in types && (SignedOwner(qname, labels) == qname || Nsec.NsecCovers(SignedOwner(qname, labels), next, qname))
    ensures !Nsec.Present(reg.nsec(zone), qname, qtype)
  {
    var links := DenialGenuine(prim, w, reg, zone, keys, qname, qtype, authority);
    OneSource(links, authority, qname, labels, next, types);
  }

  lemma OneSource(links: seq<Record>, authority: seq<Record>, qname: Name, labels: Octet, next: Name, types: set<RecordType>)
    requires Sources(links, authority) && OneNsec(authority, qname, labels, next, types)
    ensures |links| == 1 && links[0].name == SignedOwner(qname, labels) && links[0].data == NsecData(next, types)
  {
    var r :| NsecRecords(authority) == [r] && r.name == qname && r.data == NsecData(next, types);
    assert SourceOf(links[0], r, authority);
  }
}
