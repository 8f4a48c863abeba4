/** Denial of existence by NSEC records (RFC 4035 section 5.4). */
module Nsec {
  import opened Circular
  import opened Names
  import opened Records
  import opened Status

  predicate Owns(records: seq<Record>, n: Name) {
    exists r <- records :: r.name == n
  }

  predicate NsecCovers(owner: Name, next: Name, target: Name) {
    Open(NameLess, owner, next, target)
  }

  predicate Covered(records: seq<Record>, target: Name) {
    exists r <- records :: r.data.NsecData? && NsecCovers(r.name, r.data.next, target)
  }

  function CheckNodata(qname: Name, qtype: RecordType, records: seq<Record>): Option<DnssecStatus> {
    if records == [] then None
    else
      var r := records[0];
      if r.name == qname && r.data.NsecData? && qtype == DS && SOA in r.data.types then Some(Bogus)
      else if r.name == qname && r.data.NsecData? && qtype !in r.data.types && CNAME !in r.data.types
      then Some(Secure)
      else CheckNodata(qname, qtype, records[1..])
  }

  function FirstOwnedBy(records: seq<Record>, n: Name): (r: Option<Record>)
    ensures r.Some? <==> Owns(records, n)
    ensures r.Some? ==> r.value in records && r.value.name == n
  {
    if records == [] then None
    else if records[0].name == n then Some(records[0])
    else FirstOwnedBy(records[1..], n)
  }

  function CheckWildcardNodata(qname: Name, qtype: RecordType, closest: Name, records: seq<Record>): Option<DnssecStatus> {
    match FirstOwnedBy(records, WildcardName(closest))
    case None => None
    case Some(w) =>
      if !w.data.NsecData? || qtype in w.data.types || CNAME in w.data.types then None
      else if Covered(records, qname) then Some(Secure)
      else None
  }

  function CheckNxdomain(qname: Name, closest: Name, records: seq<Record>): Option<DnssecStatus> {
    if Covered(records, qname) && Covered(records, WildcardName(closest)) then Some(Secure) else None
  }

  /** The nearest of n and its ancestors, at most `steps` of them, that owns a record. */
  function NearestOwner(n: Name, records: seq<Record>, steps: nat): (r: Option<Name>)
    ensures r.Some? ==> ZoneOf(r.value, n) && Owns(records, r.value) && |n| - |r.value| < steps
    ensures forall a :: ZoneOf(a, n) && |n| - |a| < steps && Owns(records, a) ==>
      r.Some? && |a| <= |r.value|
    decreases |n|
  {
    if steps == 0 then None
    else if Owns(records, n) then Some(n)
    else if n == [] then None
    else
      ZoneOfBase(n, n);
      assert forall a :: ZoneOf(a, n) && a != n ==> ZoneOf(a, BaseName(n)) by {
        forall a { ZoneOfBase(a, n); }
      }
      var r := NearestOwner(BaseName(n), records, steps - 1);
      assert r.Some? ==> ZoneOf(r.value, n) by { if r.Some? { ZoneOfBase(r.value, n); } }
      r
  }

  method FindClosestEncloser(qname: Name, records: seq<Record>) returns (closest: Option<Name>)
    ensures closest == NearestOwner(BaseName(qname), records, MAX_CLOSEST_ENCLOSER_STEPS)
  {
    var cur := BaseName(qname);
    var steps := 0;
    while true
      invariant steps <= MAX_CLOSEST_ENCLOSER_STEPS
      invariant NearestOwner(BaseName(qname), records, MAX_CLOSEST_ENCLOSER_STEPS)
             == NearestOwner(cur, records, MAX_CLOSEST_ENCLOSER_STEPS - steps)
      decreases MAX_CLOSEST_ENCLOSER_STEPS - steps
    {
      steps := steps + 1;
      if steps > MAX_CLOSEST_ENCLOSER_STEPS {
        return None;
      }
      if Owns(records, cur) {
        return Some(cur);
      }
      if cur == [] {
        break;
      }
      cur := BaseName(cur);
    }
    closest := None;
  }

  /** The verdict once every record of the proof has verified. */
  function Verdict(qname: Name, qtype: RecordType, records: seq<Record>): DnssecStatus {
    match CheckNodata(qname, qtype, records)
    case Some(s) => s
    case None =>
      match NearestOwner(BaseName(qname), records, MAX_CLOSEST_ENCLOSER_STEPS)
      case None => Bogus
      case Some(closest) => VerdictUnder(qname, qtype, closest, records)
  }

  /** The verdict under a closest encloser, when no link at qname decided. */
  function VerdictUnder(qname: Name, qtype: RecordType, closest: Name, records: seq<Record>): DnssecStatus {
    match CheckWildcardNodata(qname, qtype, closest, records)
    case Some(s) => s
    case None => CheckNxdomain(qname, closest, records).GetOr(Bogus)
  }

  // ----- Meaning over a zone -----

  /** Owner names of the NSEC chain with the types present at each. */
  type Zone = map<Name, set<RecordType>>

  /** r is the link of the zone's canonical NSEC chain at its owner. */
  ghost predicate OnChain(zone: Zone, r: Record) {
    r.data.NsecData? ==>
      && r.name in zone
      && r.data.types == zone[r.name]
      && Successor(NameLess, zone.Keys, r.name, r.data.next)
  }

  predicate Present(zone: Zone, n: Name, t: RecordType) {
    n in zone && t in zone[n]
  }

  lemma CoveredIsAbsent(zone: Zone, records: seq<Record>, n: Name)
    requires forall r <- records :: OnChain(zone, r)
    ensures Covered(records, n) ==> n !in zone
  {
    NameStrictTotal();
    forall r <- records | r.data.NsecData? && n in zone ensures !NsecCovers(r.name, r.data.next, n) {
      MemberNotCovered(NameLess, zone.Keys, r.name, r.data.next, n);
    }
  }

  lemma {:induction false} NodataIsAbsent(zone: Zone, qname: Name, qtype: RecordType, records: seq<Record>)
    requires forall r <- records :: OnChain(zone, r)
    requires CheckNodata(qname, qtype, records) == Some(Secure)
    ensures qname in zone && !Present(zone, qname, qtype) && !Present(zone, qname, CNAME)
  {
    assert OnChain(zone, records[0]);
    var r := records[0];
    if !(r.name == qname && r.data.NsecData? && qtype !in r.data.types && CNAME !in r.data.types) {
      NodataIsAbsent(zone, qname, qtype, records[1..]);
    }
  }

  /** Soundness: a Secure verdict over links of the zone's chain means that the
      zone has no RRset of this type at qname; and unless a link owned by qname
      decided it, qname owns nothing at all and the wildcard under the chosen
      encloser has no RRset of this type either. */
  lemma VerdictSound(zone: Zone, qname: Name, qtype: RecordType, records: seq<Record>)
    requires forall r <- records :: OnChain(zone, r)
    requires Verdict(qname, qtype, records) == Secure
    ensures !Present(zone, qname, qtype)
    ensures CheckNodata(qname, qtype, records).None? ==>
      var closest := NearestOwner(BaseName(qname), records, MAX_CLOSEST_ENCLOSER_STEPS);
      && qname !in zone
      && closest.Some? && ZoneOf(closest.value, BaseName(qname))
      && !Present(zone, WildcardName(closest.value), qtype)
  {
    if CheckNodata(qname, qtype, records).Some? {
      NodataIsAbsent(zone, qname, qtype, records);
    } else {
      var closest := NearestOwner(BaseName(qname), records, MAX_CLOSEST_ENCLOSER_STEPS).value;
      CoveredIsAbsent(zone, records, qname);
      CoveredIsAbsent(zone, records, WildcardName(closest));
      var w := FirstOwnedBy(records, WildcardName(closest));
      assert w.Some? ==> OnChain(zone, w.value);
    }
  }

  ghost predicate AllOnChain(zone: Zone, links: seq<Record>) {
    forall r <- links :: OnChain(zone, r)
  }

  /** One of the links sits at qname without the type, or covers qname. */
  predicate Refutes(links: seq<Record>, qname: Name, qtype: RecordType) {
    exists r <- links ::
      r.data.NsecData? && ((r.name == qname && qtype !in r.data.types) || NsecCovers(r.name, r.data.next, qname))
  }

  /** Exactly these links prove the absence of an RRset: those of any zone having
      them all settle it if and only if one sits at qname without the type or
      covers qname. */
  lemma RefutesExactly(zone: Zone, links: seq<Record>, qname: Name, qtype: RecordType)
    requires AllOnChain(zone, links)
    ensures Refutes(links, qname, qtype) <==> forall z | AllOnChain(z, links) :: !Present(z, qname, qtype)
  {
    if Refutes(links, qname, qtype) {
      forall z | AllOnChain(z, links) ensures !Present(z, qname, qtype) {
        RefutesIsAbsent(z, links, qname, qtype);
      }
    } else if !Present(zone, qname, qtype) {
      WithNameOnChain(zone, links, qname, qtype);
      assert Present(zone[qname := {qtype}], qname, qtype);
    }
  }

  lemma RefutesIsAbsent(zone: Zone, links: seq<Record>, qname: Name, qtype: RecordType)
    requires AllOnChain(zone, links) && Refutes(links, qname, qtype)
    ensures !Present(zone, qname, qtype)
  {
    var r :| r in links && r.data.NsecData? &&
             ((r.name == qname && qtype !in r.data.types) || NsecCovers(r.name, r.data.next, qname));
    assert OnChain(zone, r);
    NameStrictTotal();
    if qname in zone {
      MemberNotCovered(NameLess, zone.Keys, r.name, r.data.next, qname);
    }
  }

  /** What is not refuted can be added to the zone. */
  lemma WithNameOnChain(zone: Zone, links: seq<Record>, qname: Name, qtype: RecordType)
    requires AllOnChain(zone, links) && !Refutes(links, qname, qtype) && !Present(zone, qname, qtype)
    ensures AllOnChain(zone[qname := {qtype}], links)
  {
    var bigger := zone[qname := {qtype}];
    NameStrictTotal();
    forall r <- links | r.data.NsecData? ensures OnChain(bigger, r) {
      assert OnChain(zone, r);
      SuccessorStays(NameLess, zone.Keys, r.name, r.data.next, {qname});
      assert bigger.Keys == zone.Keys + {qname};
    }
  }

  /** A Secure verdict over records taken as links always rests on such a link. */
  lemma VerdictRefutes(qname: Name, qtype: RecordType, records: seq<Record>)
    requires Verdict(qname, qtype, records) == Secure
    ensures Refutes(records, qname, qtype)
  {
    NodataRefutes(qname, qtype, records);
  }

  lemma {:induction false} NodataRefutes(qname: Name, qtype: RecordType, records: seq<Record>)
    ensures CheckNodata(qname, qtype, records) == Some(Secure) ==> Refutes(records, qname, qtype)
  {
    if records != [] {
      NodataRefutes(qname, qtype, records[1..]);
      assert records[0] in records;
    }
  }

  // ----- Delegations -----

  /** Names below a delegation belong to another zone and have no link. */
  ghost predicate Proper(zone: Zone) {
    forall d, n | d in zone && IsCut(zone[d]) && n in zone && ZoneOf(d, n) :: d == n
  }

  predicate IsDelegation(zone: Zone, n: Name) {
    n in zone && IsCut(zone[n])
  }

  /** The zone has delegated the RRset: a delegation lies above qname or at it,
      where the zone keeps no more than the DS. */
  ghost predicate Delegated(zone: Zone, qname: Name, qtype: RecordType) {
    exists d :: IsDelegation(zone, d) && ZoneOf(d, qname) && (d != qname || qtype != DS)
  }

  /** A link shown sits at such a delegation. */
  predicate FromAbove(links: seq<Record>, qname: Name, qtype: RecordType) {
    exists r <- links ::
      r.data.NsecData? && IsCut(r.data.types) && ZoneOf(r.name, qname) && (r.name != qname || qtype != DS)
  }

  /** Links that refute an RRset come from the zone that holds it exactly when none
      of them sits at a delegation above it: in every proper zone having them the
      RRset is delegated if and only if one does. */
  lemma HeldExactly(zone: Zone, links: seq<Record>, qname: Name, qtype: RecordType)
    requires Proper(zone) && AllOnChain(zone, links) && Refutes(links, qname, qtype)
    ensures Delegated(zone, qname, qtype) <==> FromAbove(links, qname, qtype)
  {
    if FromAbove(links, qname, qtype) {
      var r :| r in links && r.data.NsecData? && IsCut(r.data.types) && ZoneOf(r.name, qname) && (r.name != qname || qtype != DS);
      assert OnChain(zone, r) && IsDelegation(zone, r.name);
    }
    if d :| IsDelegation(zone, d) && ZoneOf(d, qname) && (d != qname || qtype != DS) {
      DelegatedIsShown(zone, links, qname, qtype, d);
    }
  }

  lemma DelegatedIsShown(zone: Zone, links: seq<Record>, qname: Name, qtype: RecordType, d: Name)
    requires Proper(zone) && AllOnChain(zone, links) && Refutes(links, qname, qtype)
    requires IsDelegation(zone, d) && ZoneOf(d, qname) && (d != qname || qtype != DS)
    ensures FromAbove(links, qname, qtype)
  {
    var r :| r in links && r.data.NsecData? &&
             ((r.name == qname && qtype !in r.data.types) || NsecCovers(r.name, r.data.next, qname));
    assert OnChain(zone, r);
    if r.name == qname {
      assert d == qname;
    } else {
      DelegationShown(zone, r.name, r.data.next, qname, d);
    }
  }

  /** The link that covers a name below a delegation is the delegation's own. */
  lemma DelegationShown(zone: Zone, o: Name, next: Name, qname: Name, d: Name)
    requires Proper(zone) && Successor(NameLess, zone.Keys, o, next) && NsecCovers(o, next, qname)
    requires IsDelegation(zone, d) && ZoneOf(d, qname)
    ensures o == d
  {
    NameStrictTotal();
    MemberNotCovered(NameLess, zone.Keys, o, next, d);
    if d == qname {
      MemberNotCovered(NameLess, zone.Keys, o, next, qname);
    } else if o != d {
      AncestorLess(d, qname);
      BetweenIsBelow(d, o, qname);
    }
  }

  /** Where it is not: the genuine link of a delegation denies everything below it,
      whatever the child zone holds. */
  lemma DelegationHides(zone: Zone, child: Name, qname: Name, qtype: RecordType) returns (r: Record)
    requires Proper(zone) && IsDelegation(zone, child) && ZoneOf(child, qname) && child != qname
    requires ValidName(qname) && |qname| - |child| <= MAX_CLOSEST_ENCLOSER_STEPS
    ensures OnChain(zone, r) && r.name == child && Verdict(qname, qtype, [r]) == Secure
  {
    NameStrictTotal();
    var next := SuccessorExists(NameLess, zone.Keys, child);
    r := Record(child, 1, 0, NsecData(next, zone[child]));
    var w := WildcardName(child);
    WildcardFits(child, qname);
    assert w[1..] == child;
    BelowCovered(zone, child, next, qname);
    BelowCovered(zone, child, next, w);
    OneLink(r, qname, qtype);
  }

  lemma BelowCovered(zone: Zone, child: Name, next: Name, x: Name)
    requires Proper(zone) && IsDelegation(zone, child) && Successor(NameLess, zone.Keys, child, next)
    requires ZoneOf(child, x) && child != x
    ensures NsecCovers(child, next, x)
  {
    NameStrictTotal();
    AncestorLess(child, x);
    if NameLess(child, next) && !NameLess(x, next) && x != next {
      BetweenIsBelow(child, next, x);
    }
  }

  lemma OnlyOwner(r: Record, n: Name, steps: nat)
    requires ZoneOf(r.name, n) && |n| - |r.name| < steps
    ensures NearestOwner(n, [r], steps) == Some(r.name)
  {
    assert r in [r] && Owns([r], r.name);
    assert NearestOwner(n, [r], steps).Some?;
    assert Owns([r], NearestOwner(n, [r], steps).value);
  }

  lemma OneNodata(r: Record, qname: Name, qtype: RecordType)
    requires r.name != qname
    ensures CheckNodata(qname, qtype, [r]) == None
  {
    assert [r][1..] == [];
  }

  /** A link that covers a name and the wildcard denies it under that wildcard. */
  lemma OneUnder(r: Record, qname: Name, qtype: RecordType, closest: Name)
    requires r.data.NsecData? && WildcardName(closest) != r.name
    requires NsecCovers(r.name, r.data.next, qname) && NsecCovers(r.name, r.data.next, WildcardName(closest))
    ensures VerdictUnder(qname, qtype, closest, [r]) == Secure
  {
    assert r in [r];
    assert FirstOwnedBy([r], WildcardName(closest)).None?;
  }

  /** One link above qname that covers it and the wildcard is enough. */
  lemma OneLink(r: Record, qname: Name, qtype: RecordType)
    requires r.data.NsecData? && ZoneOf(r.name, qname) && 0 < |qname| - |r.name| <= MAX_CLOSEST_ENCLOSER_STEPS
    requires NsecCovers(r.name, r.data.next, qname) && WildcardName(r.name) != r.name
    requires NsecCovers(r.name, r.data.next, WildcardName(r.name))
    ensures Verdict(qname, qtype, [r]) == Secure
  {
    ZoneOfBase(r.name, qname);
    OneNodata(r, qname, qtype);
    OnlyOwner(r, BaseName(qname), MAX_CLOSEST_ENCLOSER_STEPS);
    OneUnder(r, qname, qtype, r.name);
  }

  /** A denial of the DS RRset at n is one at a delegation if and only if a link of
      n with NS and without SOA is shown: so in every zone having the links. */
  lemma CutExactly(zone: Zone, links: seq<Record>, n: Name)
    requires AllOnChain(zone, links) && Refutes(links, n, DS)
    ensures IsDelegation(zone, n) <==> ShowsCut(links, n)
  {
    if ShowsCut(links, n) {
      var r :| r in links && r.name == n && r.data.NsecData? && IsCut(r.data.types);
      assert OnChain(zone, r);
    }
    if IsDelegation(zone, n) {
      var r :| r in links && r.data.NsecData? &&
               ((r.name == n && DS !in r.data.types) || NsecCovers(r.name, r.data.next, n));
      assert OnChain(zone, r);
      NameStrictTotal();
      MemberNotCovered(NameLess, zone.Keys, r.name, r.data.next, n);
    }
  }

  predicate ShowsCut(links: seq<Record>, n: Name) {
    exists r <- links :: r.name == n && r.data.NsecData? && IsCut(r.data.types)
  }

  /** What a zone says to a negative query for qname once its wildcard is w. */
  predicate Denies(zone: Zone, qname: Name, qtype: RecordType, w: Name) {
    if qname in zone
    then !Present(zone, qname, qtype) && !Present(zone, qname, CNAME) && !(qtype == DS && Present(zone, qname, SOA))
    else !Present(zone, w, qtype) && !Present(zone, w, CNAME)
  }

  lemma {:induction false} NodataDecides(zone: Zone, qname: Name, qtype: RecordType, records: seq<Record>)
    requires forall r <- records :: OnChain(zone, r) && r.data.NsecData?
    ensures CheckNodata(qname, qtype, records) ==
      if !Owns(records, qname) then None
      else if qtype == DS && Present(zone, qname, SOA) then Some(Bogus)
      else if !Present(zone, qname, qtype) && !Present(zone, qname, CNAME) then Some(Secure)
      else None
  {
    if records != [] {
      assert OnChain(zone, records[0]);
      NodataDecides(zone, qname, qtype, records[1..]);
      assert Owns(records, qname) <==> records[0].name == qname || Owns(records[1..], qname);
      if Owns(records[1..], qname) {
        var r :| r in records[1..] && r.name == qname;
        assert OnChain(zone, r);
      }
    }
  }

  /** Exactness: when the links shown settle qname and the encloser's wildcard,
      the verdict is Secure if and only if the zone denies the query. */
  lemma VerdictExact(zone: Zone, qname: Name, qtype: RecordType, records: seq<Record>)
    requires forall r <- records :: OnChain(zone, r) && r.data.NsecData?
    requires Owns(records, qname) || Covered(records, qname)
    requires NearestOwner(BaseName(qname), records, MAX_CLOSEST_ENCLOSER_STEPS).Some?
    requires
      var w := WildcardName(NearestOwner(BaseName(qname), records, MAX_CLOSEST_ENCLOSER_STEPS).value);
      Owns(records, w) || Covered(records, w)
    ensures
      var w := WildcardName(NearestOwner(BaseName(qname), records, MAX_CLOSEST_ENCLOSER_STEPS).value);
      Verdict(qname, qtype, records) == Secure <==> Denies(zone, qname, qtype, w)
  {
    var closest := NearestOwner(BaseName(qname), records, MAX_CLOSEST_ENCLOSER_STEPS).value;
    NodataDecides(zone, qname, qtype, records);
    CoveredIsAbsent(zone, records, qname);
    if Owns(records, qname) {
      OwnedDecides(zone, qname, qtype, closest, records);
    } else {
      WildcardDecides(zone, qname, qtype, closest, records);
    }
  }

  /** A name that owns a link is covered by none, so nothing else can deny it. */
  lemma OwnedDecides(zone: Zone, qname: Name, qtype: RecordType, closest: Name, records: seq<Record>)
    requires forall r <- records :: OnChain(zone, r) && r.data.NsecData?
    requires Owns(records, qname)
    ensures qname in zone && VerdictUnder(qname, qtype, closest, records) == Bogus
  {
    CoveredIsAbsent(zone, records, qname);
    OwnedIsPresent(zone, records, qname);
  }

  /** Once qname is covered, the wildcard's link decides. */
  lemma WildcardDecides(zone: Zone, qname: Name, qtype: RecordType, closest: Name, records: seq<Record>)
    requires forall r <- records :: OnChain(zone, r) && r.data.NsecData?
    requires Covered(records, qname)
    requires Owns(records, WildcardName(closest)) || Covered(records, WildcardName(closest))
    ensures VerdictUnder(qname, qtype, closest, records) == Secure
       <==> !Present(zone, WildcardName(closest), qtype) && !Present(zone, WildcardName(closest), CNAME)
  {
    CoveredIsAbsent(zone, records, WildcardName(closest));
    OwnedIsPresent(zone, records, WildcardName(closest));
  }

  lemma OwnedIsPresent(zone: Zone, records: seq<Record>, n: Name)
    requires forall r <- records :: OnChain(zone, r) && r.data.NsecData?
    ensures match FirstOwnedBy(records, n)
            case None => !Owns(records, n)
            case Some(r) => n in zone && r.data.NsecData? && r.data.types == zone[n]
  {
    var first := FirstOwnedBy(records, n);
    assert first.Some? ==> OnChain(zone, first.value);
  }
}
