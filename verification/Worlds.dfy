/** Concrete honest worlds for failing inputs: the root is the only zone with a key,
    and signs two records of its choice, each an RRset of its own. */
module Worlds {
  import opened Order
  import opened Names
  import opened Records
  import opened Tbs
  import opened Trust
  import opened Serial
  import opened Authenticity
  import Nsec
  import Nsec3

  const KEY := Dnskey(0x100, 8, [])

  function SigOver(t: RecordType, labels: Octet): Rrsig {
    Rrsig(t, 8, labels, 0, 2, 0, 0, [], [])
  }

  function At(owner: Name, d: RData): Record {
    Record(owner, 1, 0, d)
  }

  /** A published record. */
  datatype Pub = Pub(owner: Name, data: RData)

  /** Neither key material nor a signature, at an owner whose labels can be counted. */
  predicate Plain(p: Pub) {
    p.data.Type() !in {DS, DNSKEY, RRSIG} && CountedLabels(p.owner) < 256
  }

  function NameCode(a: Pub, b: Pub, n: Name): Option<Octets> {
    if n == [] then Some([0]) else if n == a.owner then Some([1]) else if n == b.owner then Some([2]) else None
  }

  function RdataCode(a: Pub, b: Pub, x: RData): Option<Octets> {
    if x == a.data then Some([0]) else if x == b.data then Some([1]) else if x == DnskeyData(KEY) then Some([2]) else None
  }

  function Encodings(a: Pub, b: Pub): Primitives {
    Primitives(
      (k: Dnskey) => 0,
      (g: Octet, k: Octets, o: Octets, s: Octets) => false,
      (z: Name, k: Dnskey, t: Octet) => if z == [] && k == KEY then Some([]) else None,
      (n: Name) => NameCode(a, b, n),
      (x: RData) => RdataCode(a, b, x),
      (n: Name, s: Octets, i: U16) => [],
      (t: nat) => true,
      [Anchor(0, 8, 2, [])])
  }

  /** What the root's key signs: its own DNSKEY RRset and the two records. */
  function KeyOctets(a: Pub, b: Pub): Option<Octets> {
    BuildTbs(Encodings(a, b), SigOver(DNSKEY, 0), [], [At([], DnskeyData(KEY))])
  }

  function PubOctets(a: Pub, b: Pub, p: Pub): Option<Octets>
    requires Plain(p)
  {
    BuildTbs(Encodings(a, b), SigOver(p.data.Type(), CountedLabels(p.owner)), p.owner, [At(p.owner, p.data)])
  }

  predicate Signed(a: Pub, b: Pub, octets: Octets)
    requires Plain(a) && Plain(b)
  {
    Some(octets) == KeyOctets(a, b) || Some(octets) == PubOctets(a, b, a) || Some(octets) == PubOctets(a, b, b)
  }

  function Signing(a: Pub, b: Pub): Primitives
    requires Plain(a) && Plain(b)
  {
    Encodings(a, b).(signatureHolds := (g: Octet, k: Octets, o: Octets, s: Octets) => Signed(a, b, o))
  }

  /** The RRsets of the root's own zone: its key, the two records and a third. */
  predicate InZone(a: Pub, b: Pub, other: Pub, o: Name, t: RecordType, pub: seq<Record>) {
    || (o == [] && t == DNSKEY && pub == [At([], DnskeyData(KEY))])
    || (o == a.owner && t == a.data.Type() && pub == [At(a.owner, a.data)])
    || (o == b.owner && t == b.data.Type() && pub == [At(b.owner, b.data)])
    || (o == other.owner && t == other.data.Type() && pub == [At(other.owner, other.data)])
  }

  function Publishing(a: Pub, b: Pub, other: Pub): World {
    World(
      (n: Name) => true,
      (z: Name, k: Dnskey) => z == [] && k == KEY,
      (z: Name, o: Name, t: RecordType, pub: seq<Record>) => z == [] && InZone(a, b, other, o, t, pub))
  }

  lemma SameEncodings(p: Primitives, q: Primitives, sig: Rrsig, owner: Name, records: seq<Record>)
    requires p.encodeName == q.encodeName && p.encodeRdata == q.encodeRdata
    ensures BuildTbs(p, sig, owner, records) == BuildTbs(q, sig, owner, records)
  {
    SameRdatas(p, q, records);
  }

  lemma {:induction false} SameRdatas(p: Primitives, q: Primitives, records: seq<Record>)
    requires p.encodeRdata == q.encodeRdata
    ensures Rdatas(p, records) == Rdatas(q, records)
  {
    if records != [] {
      SameRdatas(p, q, records[1..]);
    }
  }

  lemma OneRdata(p: Primitives, r: Record)
    ensures Rdatas(p, [r]) == match p.encodeRdata(r.data) case None => None case Some(x) => Some([x])
  {
    assert [r][1..] == [] && Rdatas(p, []) == Some([]);
    assert forall x: Octets :: [x] + [] == [x];
  }

  /** p's signature, with this label count, points from owner to p's owner. */
  predicate Stands(p: Pub, labels: Octet, owner: Name) {
    SignedOwner(owner, labels) == p.owner && CountedLabels(p.owner) == labels
  }

  /** A record at owner and one at the wildcard it is expanded from have the same
      signed octets. */
  lemma ExpansionSigned(prim: Primitives, p: Pub, labels: Octet, owner: Name)
    requires Stands(p, labels, owner)
    ensures BuildTbs(prim, SigOver(p.data.Type(), labels), owner, [At(owner, p.data)])
         == BuildTbs(prim, SigOver(p.data.Type(), labels), p.owner, [At(p.owner, p.data)])
  {
    OneRdata(prim, At(owner, p.data));
    OneRdata(prim, At(p.owner, p.data));
  }

  lemma OctetsExist(a: Pub, b: Pub, p: Pub)
    requires Plain(p) && (p == a || p == b)
    ensures KeyOctets(a, b).Some? && PubOctets(a, b, p).Some?
  {
    OneRdata(Encodings(a, b), At([], DnskeyData(KEY)));
    OneRdata(Encodings(a, b), At(p.owner, p.data));
    assert SignedOwner(p.owner, CountedLabels(p.owner)) == p.owner;
  }

  lemma CodesApart(prim: Primitives, a: Pub, b: Pub)
    requires prim.encodeName == ((n: Name) => NameCode(a, b, n)) && prim.encodeRdata == ((x: RData) => RdataCode(a, b, x))
    ensures Unambiguous(prim)
  {
    assert NamesApart(prim) by {
      forall m, n, x: Octets, y: Octets
        | prim.encodeName(m).Some? && prim.encodeName(n).Some? && prim.encodeName(m).value + x == prim.encodeName(n).value + y
        ensures m == n
      {
        NameCodesDiffer(a, b, m, x, n, y);
      }
    }
    assert DataApart(prim);
    assert DataShort(prim);
  }

  lemma NameCodesDiffer(a: Pub, b: Pub, m: Name, x: Octets, n: Name, y: Octets)
    requires NameCode(a, b, m).Some? && NameCode(a, b, n).Some?
    requires NameCode(a, b, m).value + x == NameCode(a, b, n).value + y
    ensures m == n
  {
    assert (NameCode(a, b, m).value + x)[0] == (NameCode(a, b, n).value + y)[0];
  }

  lemma KeySigned(a: Pub, b: Pub, other: Pub, octets: Octets)
    requires Plain(a) && Plain(b) && Some(octets) == KeyOctets(a, b)
    ensures SignedFor(Signing(a, b), Publishing(a, b, other), [], octets)
  {
    var w := Publishing(a, b, other);
    SameEncodings(Encodings(a, b), Signing(a, b), SigOver(DNSKEY, 0), [], [At([], DnskeyData(KEY))]);
    assert InZone(a, b, other, [], DNSKEY, [At([], DnskeyData(KEY))]);
    assert w.publishes([], [], SigOver(DNSKEY, 0).covered, [At([], DnskeyData(KEY))]);
  }

  lemma PubSigned(a: Pub, b: Pub, other: Pub, p: Pub, octets: Octets)
    requires Plain(a) && Plain(b) && (p == a || p == b) && Some(octets) == PubOctets(a, b, p)
    ensures SignedFor(Signing(a, b), Publishing(a, b, other), [], octets)
  {
    var w, sig := Publishing(a, b, other), SigOver(p.data.Type(), CountedLabels(p.owner));
    SameEncodings(Encodings(a, b), Signing(a, b), sig, p.owner, [At(p.owner, p.data)]);
    assert InZone(a, b, other, p.owner, p.data.Type(), [At(p.owner, p.data)]);
    assert w.publishes([], p.owner, sig.covered, [At(p.owner, p.data)]);
  }

  lemma SignedIsFor(a: Pub, b: Pub, other: Pub, octets: Octets)
    requires Plain(a) && Plain(b) && Signed(a, b, octets)
    ensures SignedFor(Signing(a, b), Publishing(a, b, other), [], octets)
  {
    if Some(octets) == KeyOctets(a, b) {
      KeySigned(a, b, other, octets);
    } else if Some(octets) == PubOctets(a, b, a) {
      PubSigned(a, b, other, a, octets);
    } else {
      PubSigned(a, b, other, b, octets);
    }
  }

  /** The zone publishes no more than its key and these three records. */
  ghost predicate NoMore(w: World, a: Pub, b: Pub, other: Pub) {
    forall zone, o, t, x | Publishes(w, zone, o, t, x) ::
      zone == [] && t == x.Type() && ((o == [] && x == DnskeyData(KEY)) || Pub(o, x) == a || Pub(o, x) == b || Pub(o, x) == other)
  }

  lemma PublishedThere(a: Pub, b: Pub, other: Pub, zone: Name, o: Name, t: RecordType, x: RData)
    requires Publishes(Publishing(a, b, other), zone, o, t, x)
    ensures zone == [] && x.Type() == t
    ensures (o == [] && x == DnskeyData(KEY)) || Pub(o, x) == a || Pub(o, x) == b || Pub(o, x) == other
  {
    var pub, r: Record :| Publishing(a, b, other).publishes(zone, o, t, pub) && r in pub && r.data == x;
    InZoneHolds(a, b, other, o, t, pub, r);
  }

  lemma InZoneHolds(a: Pub, b: Pub, other: Pub, o: Name, t: RecordType, pub: seq<Record>, r: Record)
    requires InZone(a, b, other, o, t, pub) && r in pub
    ensures r.Type() == t
    ensures (o == [] && r.data == DnskeyData(KEY)) || Pub(o, r.data) == a || Pub(o, r.data) == b || Pub(o, r.data) == other
  {
  }

  lemma PublishingNoMore(a: Pub, b: Pub, other: Pub)
    ensures NoMore(Publishing(a, b, other), a, b, other)
  {
    forall zone, o, t, x | Publishes(Publishing(a, b, other), zone, o, t, x)
      ensures zone == [] && t == x.Type()
      ensures (o == [] && x == DnskeyData(KEY)) || Pub(o, x) == a || Pub(o, x) == b || Pub(o, x) == other
    {
      PublishedThere(a, b, other, zone, o, t, x);
    }
  }

  /** All hypotheses about an honest world hold of it. */
  lemma WorldUnforgeable(a: Pub, b: Pub, other: Pub)
    requires Plain(a) && Plain(b) && !other.data.DsData? && !other.data.DnskeyData?
    ensures Unforgeable(Signing(a, b), Publishing(a, b, other))
  {
    var p, w := Signing(a, b), Publishing(a, b, other);
    CodesApart(p, a, b);
    forall zone, key, octets, s | w.isKey(zone, key) && p.signatureHolds(key.algorithm, key.publicKey, octets, s)
      ensures SignedFor(p, w, zone, octets)
    {
      SignedIsFor(a, b, other, octets);
    }
    forall zone, o, ds | zone != [] && Publishes(w, zone[1..], o, DS, DsData(ds)) ensures false {
      PublishedThere(a, b, other, zone[1..], o, DS, DsData(ds));
    }
    forall zone, o, key | Publishes(w, zone, o, DNSKEY, DnskeyData(key)) ensures w.isKey(zone, key) {
      PublishedThere(a, b, other, zone, o, DNSKEY, DnskeyData(key));
    }
  }

  lemma SignedByKey(a: Pub, b: Pub, sig: Rrsig, owner: Name, records: seq<Record>)
    requires Plain(a) && Plain(b)
    requires sig.algorithm == 8 && sig.inception == 0 && sig.expiration == 2 && sig.keyTag == 0
    requires BuildTbs(Signing(a, b), sig, owner, records).Some?
    requires Signed(a, b, BuildTbs(Signing(a, b), sig, owner, records).value)
    ensures SignedBy(Signing(a, b), [KEY], sig, KEY, owner, records, 1)
  {
    assert OpensAt(sig.expiration, sig.inception, 0);
  }

  lemma KeyParts(keyRecord: Record, sigRecord: Record)
    requires keyRecord == At([], DnskeyData(KEY)) && sigRecord == At([], RrsigData(SigOver(DNSKEY, 0)))
    ensures RrsetOf([keyRecord, sigRecord], [], DNSKEY) == [keyRecord]
    ensures SigsCovering([keyRecord, sigRecord], DNSKEY) == [SigOver(DNSKEY, 0)]
    ensures KeysAt([keyRecord, sigRecord], []) == [KEY] && ZoneKeys([KEY]) == [KEY]
  {
    assert [keyRecord, sigRecord][1..] == [sigRecord] && [sigRecord][1..] == [];
    assert RrsetOf([sigRecord], [], DNSKEY) == [] && SigsCovering([sigRecord], DNSKEY) == [SigOver(DNSKEY, 0)] + [];
    assert KeysAt([sigRecord], []) == [];
    assert KEY.flags / 0x100 % 2 == 1;
    assert [KEY][1..] == [];
  }

  lemma RootDerived(a: Pub, b: Pub)
    requires Plain(a) && Plain(b)
    ensures Derived(Signing(a, b), [], [KEY])
  {
    var p := Signing(a, b);
    OctetsExist(a, b, a);
    SameEncodings(Encodings(a, b), p, SigOver(DNSKEY, 0), [], [At([], DnskeyData(KEY))]);
    SignedByKey(a, b, SigOver(DNSKEY, 0), [], [At([], DnskeyData(KEY))]);
    assert MatchesAnchor(p, [], KEY, p.rootAnchors) by { assert p.rootAnchors[0] in p.rootAnchors; }
    KeyDerived(p);
  }

  lemma KeyDerived(p: Primitives)
    requires MatchesAnchor(p, [], KEY, p.rootAnchors) && p.isReading(1)
    requires SignedBy(p, [KEY], SigOver(DNSKEY, 0), KEY, [], [At([], DnskeyData(KEY))], 1)
    ensures Derived(p, [], [KEY])
  {
    var answers := [At([], DnskeyData(KEY)), At([], RrsigData(SigOver(DNSKEY, 0)))];
    KeyParts(answers[0], answers[1]);
    assert answers == [answers[0], answers[1]];
    assert Vouched(p, [KEY], [SigOver(DNSKEY, 0)], [], [At([], DnskeyData(KEY))]);
    ExtendDerivation(p, [], [], [], p.rootAnchors, answers, [KEY], [KEY]);
  }

  /** Wherever p's signature points to p's owner, p's data verify. */
  ghost predicate Shows(prim: Primitives, p: Pub) {
    forall owner, labels: Octet | Stands(p, labels, owner) ::
      SignedBy(prim, [KEY], SigOver(p.data.Type(), labels), KEY, owner, [At(owner, p.data)], 1)
  }

  lemma SigningShows(a: Pub, b: Pub, p: Pub)
    requires Plain(a) && Plain(b) && (p == a || p == b)
    ensures Shows(Signing(a, b), p)
  {
    forall owner, labels: Octet | Stands(p, labels, owner)
      ensures SignedBy(Signing(a, b), [KEY], SigOver(p.data.Type(), labels), KEY, owner, [At(owner, p.data)], 1)
    {
      OctetsExist(a, b, p);
      ExpansionSigned(Signing(a, b), p, labels, owner);
      SameEncodings(Encodings(a, b), Signing(a, b), SigOver(p.data.Type(), labels), p.owner, [At(p.owner, p.data)]);
      SignedByKey(a, b, SigOver(p.data.Type(), labels), owner, [At(owner, p.data)]);
    }
  }

  /** An honest world in which the root publishes three records, signs the first two,
      and these verify wherever their signatures may stand. */
  ghost predicate Example(prim: Primitives, w: World, a: Pub, b: Pub, other: Pub) {
    && Unforgeable(prim, w) && (forall n :: HonestPath(w, n)) && Derived(prim, [], [KEY]) && prim.isReading(1)
    && Shows(prim, a) && Shows(prim, b)
    && w.publishes([], other.owner, other.data.Type(), [At(other.owner, other.data)])
    && NoMore(w, a, b, other)
  }

  lemma ExampleWorld(a: Pub, b: Pub, other: Pub) returns (prim: Primitives, w: World)
    requires Plain(a) && Plain(b) && !other.data.DsData? && !other.data.DnskeyData?
    ensures Example(prim, w, a, b, other)
  {
    prim, w := Signing(a, b), Publishing(a, b, other);
    WorldUnforgeable(a, b, other);
    RootDerived(a, b);
    SigningShows(a, b, a);
    SigningShows(a, b, b);
    PublishingNoMore(a, b, other);
    assert InZone(a, b, other, other.owner, other.data.Type(), [At(other.owner, other.data)]);
  }

  lemma ShowsAt(prim: Primitives, p: Pub, owner: Name, labels: Octet)
    requires Shows(prim, p) && Stands(p, labels, owner)
    ensures SignedBy(prim, [KEY], SigOver(p.data.Type(), labels), KEY, owner, [At(owner, p.data)], 1)
  {
  }

  /** p is no NSEC3 record, and its NSEC link is z's. */
  ghost predicate LinkOfZone(z: Nsec.Zone, p: Pub) {
    !p.data.Nsec3Data? && Nsec.OnChain(z, At(p.owner, p.data))
  }

  function RootChain(z: Nsec.Zone): Registry {
    Registry((n: Name) => z, (n: Name) => Nsec3.Zone([], map[]))
  }

  /** With z for the root's chain all published denial records are true. */
  lemma ExampleChains(prim: Primitives, w: World, a: Pub, b: Pub, other: Pub, z: Nsec.Zone)
    requires NoMore(w, a, b, other) && LinkOfZone(z, a) && LinkOfZone(z, b) && LinkOfZone(z, other)
    ensures forall zone :: ChainsTrue(prim, w, RootChain(z), zone)
  {
    forall zone, o, t, d | Publishes(w, zone, o, t, d) && DenialType(t)
      ensures OwnLink(prim, RootChain(z), zone, Record(o, 1, 0, d))
    {
    }
  }

  // ----- Sections that show them -----

  /** A record with its signature. */
  function SignedRecord(owner: Name, labels: Octet, d: RData): seq<Record> {
    [At(owner, d), At(owner, RrsigData(SigOver(d.Type(), labels)))]
  }

  lemma SignedParts(owner: Name, labels: Octet, d: RData)
    requires d.Type() != RRSIG
    ensures RrsetOf(SignedRecord(owner, labels, d), owner, d.Type()) == [At(owner, d)]
    ensures SigsAt(SignedRecord(owner, labels, d), owner, d.Type()) == [SigOver(d.Type(), labels)]
  {
    var a, b := At(owner, d), At(owner, RrsigData(SigOver(d.Type(), labels)));
    assert SignedRecord(owner, labels, d)[1..] == [b] && [b][1..] == [];
    assert RrsetOf([b], owner, d.Type()) == [] && SigsAt([b], owner, d.Type()) == [SigOver(d.Type(), labels)] + [];
  }

  lemma {:induction false} AppendedParts(s: seq<Record>, more: seq<Record>, owner: Name, t: RecordType)
    ensures RrsetOf(s + more, owner, t) == RrsetOf(s, owner, t) + RrsetOf(more, owner, t)
    ensures SigsAt(s + more, owner, t) == SigsAt(s, owner, t) + SigsAt(more, owner, t)
  {
    if s == [] {
      assert s + more == more;
    } else {
      assert (s + more)[1..] == s[1..] + more;
      AppendedParts(s[1..], more, owner, t);
    }
  }
}
