/** Denial of existence by NSEC3 records (RFC 5155 section 8). The hash of a name
    is a function h, fixed by the salt and iterations of the proof. */
module Nsec3 {
  import opened Order
  import opened Circular
  import opened Names
  import opened Records
  import opened Status
  import Base32Hex

  type Hasher = Name -> Octets

  /** The hash spelled by the owner's first label, when it is a SHA-1 hash. */
  function OwnerHash(r: Record): Option<Octets> {
    if r.name == [] then None
    else
      match Base32Hex.Decoded(r.name[0])
      case None => None
      case Some(o) => if |o| == 20 then Some(o) else None
  }

  predicate HashCovers(r: Record, target: Octets) {
    && OwnerHash(r).Some?
    && r.data.Nsec3Data?
    && HalfOpen(OctetsLess, OwnerHash(r).value, r.data.nextHash, target)
  }

  predicate OwnsHash(records: seq<Record>, x: Octets) {
    exists r <- records :: OwnerHash(r) == Some(x)
  }

  function CheckNodata(h: Hasher, qname: Name, qtype: RecordType, records: seq<Record>): Option<DnssecStatus> {
    if records == [] then None
    else
      var r := records[0];
      if OwnerHash(r) == Some(h(qname)) && r.data.Nsec3Data? && qtype == DS && SOA in r.data.types then Some(Bogus)
      else if OwnerHash(r) == Some(h(qname)) && r.data.Nsec3Data? && qtype !in r.data.types && CNAME !in r.data.types
      then Some(Secure)
      else CheckNodata(h, qname, qtype, records[1..])
  }

  /** The nearest of n and its ancestors, at most `steps` of them, whose hash owns a record. */
  function NearestHashed(h: Hasher, n: Name, records: seq<Record>, steps: nat): Option<Name> {
    if steps == 0 then None
    else if OwnsHash(records, h(n)) then Some(n)
    else if n == [] then None
    else NearestHashed(h, BaseName(n), records, steps - 1)
  }

  lemma {:induction false} NearestIsOwner(h: Hasher, n: Name, records: seq<Record>, steps: nat)
    ensures
      var r := NearestHashed(h, n, records, steps);
      r.Some? ==> ZoneOf(r.value, n) && OwnsHash(records, h(r.value)) && |n| - |r.value| < steps
  {
    if steps > 0 && !OwnsHash(records, h(n)) && n != [] {
      NearestIsOwner(h, BaseName(n), records, steps - 1);
      var r := NearestHashed(h, n, records, steps);
      if r.Some? { ZoneOfBase(r.value, n); }
    }
  }

  /** The name k labels up. */
  function Up(n: Name, k: nat): Name {
    if k == 0 then n else Up(BaseName(n), k - 1)
  }

  lemma {:induction false} UpTo(a: Name, n: Name)
    requires ZoneOf(a, n)
    ensures Up(n, |n| - |a|) == a
    decreases |n|
  {
    if |a| < |n| {
      ZoneOfBase(a, n);
      UpTo(a, BaseName(n));
    }
  }

  lemma {:induction false} NearestAbove(h: Hasher, n: Name, records: seq<Record>, steps: nat, k: nat)
    requires k <= |n| && k < steps && OwnsHash(records, h(Up(n, k)))
    ensures NearestHashed(h, n, records, steps).Some? && |n| - k <= |NearestHashed(h, n, records, steps).value|
  {
    if k > 0 && !OwnsHash(records, h(n)) {
      NearestAbove(h, BaseName(n), records, steps - 1, k - 1);
    }
  }

  /** No deeper candidate owns a record. */
  lemma NearestIsDeepest(h: Hasher, n: Name, records: seq<Record>, steps: nat, a: Name)
    requires ZoneOf(a, n) && |n| - |a| < steps && OwnsHash(records, h(a))
    ensures NearestHashed(h, n, records, steps).Some? && |a| <= |NearestHashed(h, n, records, steps).value|
  {
    UpTo(a, n);
    NearestAbove(h, n, records, steps, |n| - |a|);
  }

  method FindClosestEncloser(h: Hasher, qname: Name, records: seq<Record>) returns (closest: Option<Name>)
    ensures closest == NearestHashed(h, qname, records, MAX_CLOSEST_ENCLOSER_STEPS)
  {
    var cur := qname;
    var steps := 0;
    while true
      invariant steps <= MAX_CLOSEST_ENCLOSER_STEPS
      invariant NearestHashed(h, qname, records, MAX_CLOSEST_ENCLOSER_STEPS)
             == NearestHashed(h, cur, records, MAX_CLOSEST_ENCLOSER_STEPS - steps)
      decreases MAX_CLOSEST_ENCLOSER_STEPS - steps
    {
      steps := steps + 1;
      if steps > MAX_CLOSEST_ENCLOSER_STEPS {
        return None;
      }
      if OwnsHash(records, h(cur)) {
        return Some(cur);
      }
      if cur == [] {
        break;
      }
      cur := BaseName(cur);
    }
    closest := None;
  }

  function FirstOwnedBy(records: seq<Record>, x: Octets): (r: Option<Record>)
    ensures r.Some? <==> OwnsHash(records, x)
    ensures r.Some? ==> r.value in records && OwnerHash(r.value) == Some(x)
  {
    if records == [] then None
    else if OwnerHash(records[0]) == Some(x) then Some(records[0])
    else FirstOwnedBy(records[1..], x)
  }

  function CheckWildcardNodata(h: Hasher, closest: Name, qtype: RecordType, records: seq<Record>): Option<DnssecStatus> {
    match FirstOwnedBy(records, h(WildcardName(closest)))
    case None => None
    case Some(w) =>
      if !w.data.Nsec3Data? || qtype in w.data.types || CNAME in w.data.types then None else Some(Secure)
  }

  function FirstCovering(records: seq<Record>, x: Octets): (r: Option<Record>)
    ensures r.Some? <==> exists c <- records :: HashCovers(c, x)
    ensures r.Some? ==> r.value in records && HashCovers(r.value, x)
  {
    if records == [] then None
    else if HashCovers(records[0], x) then Some(records[0])
    else FirstCovering(records[1..], x)
  }

  /** The ancestor-or-self of qname one label below closest. */
  function NextCloser(qname: Name, closest: Name): Name
    requires |closest| < |qname|
  {
    qname[|qname| - |closest| - 1..]
  }

  /** The outcome once the next closer name is known. */
  function DecideNextCloser(h: Hasher, nextCloser: Name, closest: Name, qtype: RecordType,
                            records: seq<Record>): Option<DnssecStatus> {
    match FirstCovering(records, h(nextCloser))
    case None => None
    case Some(c) =>
      if c.data.flags % 2 != 0 && qtype == DS then Some(InsecureUnsigned)
      else if FirstCovering(records, h(WildcardName(closest))).None? then Some(Bogus)
      else Some(Secure)
  }

  /** Walks from qname up to the child of closest; None when closest is not above it. */
  method FindNextCloser(qname: Name, closest: Name) returns (nc: Option<Name>)
    ensures ZoneOf(closest, qname) && closest != qname ==> nc == Some(NextCloser(qname, closest))
    ensures !ZoneOf(closest, qname) ==> nc == None
  {
    var nextCloser := qname;
    while BaseName(nextCloser) != closest
      invariant ZoneOf(nextCloser, qname)
      invariant ZoneOf(closest, qname) && closest != qname ==> |nextCloser| > |closest|
      decreases |nextCloser|
    {
      var parent := BaseName(nextCloser);
      if parent == nextCloser {
        return None;
      }
      ZoneOfBase(nextCloser, qname);
      nextCloser := parent;
    }
    ZoneOfBase(nextCloser, qname);
    nc := Some(nextCloser);
  }

  method CheckNxdomain(h: Hasher, qname: Name, closest: Name, qtype: RecordType, records: seq<Record>)
    returns (status: Option<DnssecStatus>)
    ensures ZoneOf(closest, qname) && closest != qname ==>
      status == DecideNextCloser(h, NextCloser(qname, closest), closest, qtype, records)
    ensures !ZoneOf(closest, qname) ==> status == Some(Bogus)
  {
    var nextCloser := FindNextCloser(qname, closest);
    match nextCloser
    case None => status := Some(Bogus);
    case Some(nc) => status := DecideNextCloser(h, nc, closest, qtype, records);
  }

  /** The encloser used: the one found, or the parent for a DS query that found none. */
  function EncloserUsed(h: Hasher, qname: Name, qtype: RecordType, records: seq<Record>): Option<Name> {
    var found := NearestHashed(h, qname, records, MAX_CLOSEST_ENCLOSER_STEPS);
    if found.None? && qtype == DS then Some(BaseName(qname)) else found
  }

  /** The verdict once every record of the proof has verified. */
  function Verdict(h: Hasher, qname: Name, qtype: RecordType, records: seq<Record>): DnssecStatus {
    match CheckNodata(h, qname, qtype, records)
    case Some(s) => s
    case None =>
      match EncloserUsed(h, qname, qtype, records)
      case None => Bogus
      case Some(closest) =>
        if closest == qname then Bogus
        else
          match CheckWildcardNodata(h, closest, qtype, records)
          case Some(s) => s
          case None =>
            EncloserIsProper(h, qname, qtype, records);
            DecideNextCloser(h, NextCloser(qname, closest), closest, qtype, records).GetOr(Bogus)
  }

  lemma EncloserIsProper(h: Hasher, qname: Name, qtype: RecordType, records: seq<Record>)
    ensures
      var closest := EncloserUsed(h, qname, qtype, records);
      closest.Some? && closest.value != qname ==> ZoneOf(closest.value, qname) && |closest.value| < |qname|
  {
    ZoneOfBase(qname, qname);
    NearestIsOwner(h, qname, records, MAX_CLOSEST_ENCLOSER_STEPS);
  }

  // ----- Meaning over a zone -----

  /** A zone without opt-out: its apex and the types at every name that has a
      hash in the chain, empty non-terminals included. */
  datatype Zone = Zone(apex: Name, names: map<Name, set<RecordType>>) {
    ghost predicate Valid() {
      && (forall n <- names :: ZoneOf(apex, n))
      && (forall n {:trigger BaseName(n)} | n in names && n != apex :: BaseName(n) in names)
    }

    ghost function Hashes(h: Hasher): set<Octets> {
      set n <- names :: h(n)
    }

    predicate Present(n: Name, t: RecordType) {
      n in names && t in names[n]
    }
  }

  /** r is the link of the zone's hash chain at its owner hash. */
  ghost predicate OnChain(h: Hasher, zone: Zone, r: Record) {
    && r.data.Nsec3Data?
    && OwnerHash(r).Some?
    && Successor(OctetsLess, zone.Hashes(h), OwnerHash(r).value, r.data.nextHash)
    && forall n <- zone.names :: h(n) == OwnerHash(r).value ==> r.data.types == zone.names[n]
  }

  /** No name on the path from n to the root shares its hash with another name of the zone. */
  ghost predicate CollisionFree(h: Hasher, zone: Zone, n: Name) {
    forall a, m :: ZoneOf(a, n) && m in zone.names && h(a) == h(m) ==> a == m
  }

  /** A covered hash is either outside the zone or owned by a record of the proof. */
  lemma CoveredIsAbsent(h: Hasher, zone: Zone, records: seq<Record>, n: Name)
    requires forall r <- records :: OnChain(h, zone, r)
    requires FirstCovering(records, h(n)).Some? && !OwnsHash(records, h(n))
    ensures n !in zone.names
  {
    var c := FirstCovering(records, h(n)).value;
    OctetsStrictTotal();
    HalfOpenIs(OctetsLess, OwnerHash(c).value, c.data.nextHash, h(n));
    if n in zone.names {
      MemberNotCovered(OctetsLess, zone.Hashes(h), OwnerHash(c).value, c.data.nextHash, h(n));
    }
  }

  /** The encloser search begins at qname, so nothing strictly between qname and
      the encloser used, the next closer name included, owns a record. */
  lemma NextCloserUnowned(h: Hasher, qname: Name, qtype: RecordType, records: seq<Record>)
    requires EncloserUsed(h, qname, qtype, records).Some?
    requires EncloserUsed(h, qname, qtype, records).value != qname
    ensures
      var closest := EncloserUsed(h, qname, qtype, records).value;
      |closest| < |qname| && !OwnsHash(records, h(NextCloser(qname, closest)))
  {
    EncloserIsProper(h, qname, qtype, records);
    NearestIsOwner(h, qname, records, MAX_CLOSEST_ENCLOSER_STEPS);
    var nc := NextCloser(qname, EncloserUsed(h, qname, qtype, records).value);
    if OwnsHash(records, h(nc)) {
      NearestIsDeepest(h, qname, records, MAX_CLOSEST_ENCLOSER_STEPS, nc);
    }
  }

  lemma {:induction false} AbsentBelow(zone: Zone, top: Name, n: Name)
    requires zone.Valid() && ZoneOf(top, n) && top !in zone.names
    requires ZoneOf(zone.apex, top) && top != zone.apex
    ensures n !in zone.names
    decreases |n|
  {
    if n != top {
      ZoneOfBase(top, n);
      AbsentBelow(zone, top, BaseName(n));
      if n == zone.apex {
        AncestorsNested(top, zone.apex, n);
        AncestorsNested(zone.apex, top, n);
      }
    }
  }

  /** Soundness: over links of a zone's chain without opt-out, a Secure verdict
      from a record owned by qname's hash means that qname lacks the type; one
      from a wildcard record, that this wildcard lacks it; and one from the
      next-closer test, that neither the next closer name nor qname exists,
      while the wildcard can exist only where a record shown owns its hash. */
  lemma VerdictSound(h: Hasher, zone: Zone, qname: Name, qtype: RecordType, records: seq<Record>)
    requires zone.Valid() && forall r <- records :: OnChain(h, zone, r)
    requires CollisionFree(h, zone, qname)
    requires Verdict(h, qname, qtype, records) == Secure
    ensures CheckNodata(h, qname, qtype, records).Some? ==>
      qname in zone.names && !zone.Present(qname, qtype) && !zone.Present(qname, CNAME)
    ensures CheckNodata(h, qname, qtype, records).None? ==>
      var used := EncloserUsed(h, qname, qtype, records);
      && used.Some? && |used.value| < |qname|
      && if CheckWildcardNodata(h, used.value, qtype, records).Some?
         then !zone.Present(WildcardName(used.value), qtype)
         else
           && NextCloser(qname, used.value) !in zone.names
           && qname !in zone.names
           && (WildcardName(used.value) in zone.names ==> OwnsHash(records, h(WildcardName(used.value))))
  {
    if CheckNodata(h, qname, qtype, records).Some? {
      NodataIsAbsent(h, zone, qname, qtype, records);
    } else {
      var closest := EncloserUsed(h, qname, qtype, records).value;
      EncloserIsProper(h, qname, qtype, records);
      if CheckWildcardNodata(h, closest, qtype, records).Some? {
        WildcardLacks(h, zone, closest, qtype, records);
      } else {
        NextCloserAbsent(h, zone, qname, qtype, records, closest);
      }
    }
  }

  lemma WildcardLacks(h: Hasher, zone: Zone, closest: Name, qtype: RecordType, records: seq<Record>)
    requires forall r <- records :: OnChain(h, zone, r)
    requires CheckWildcardNodata(h, closest, qtype, records).Some?
    ensures !zone.Present(WildcardName(closest), qtype)
  {
    var w := FirstOwnedBy(records, h(WildcardName(closest))).value;
    assert OnChain(h, zone, w);
  }

  lemma NextCloserAbsent(h: Hasher, zone: Zone, qname: Name, qtype: RecordType, records: seq<Record>, closest: Name)
    requires zone.Valid() && forall r <- records :: OnChain(h, zone, r)
    requires CollisionFree(h, zone, qname)
    requires EncloserUsed(h, qname, qtype, records) == Some(closest) && closest != qname && |closest| < |qname|
    requires DecideNextCloser(h, NextCloser(qname, closest), closest, qtype, records) == Some(Secure)
    ensures NextCloser(qname, closest) !in zone.names
    ensures qname !in zone.names
    ensures WildcardName(closest) in zone.names ==> OwnsHash(records, h(WildcardName(closest)))
  {
    var nc := NextCloser(qname, closest);
    NextCloserUnowned(h, qname, qtype, records);
    CoveredIsAbsent(h, zone, records, nc);
    EncloserOwned(h, qname, qtype, records, closest);
    EncloserIsProper(h, qname, qtype, records);
    if nc != qname {
      NameAbsent(h, zone, qname, records, closest);
    }
    if !OwnsHash(records, h(WildcardName(closest))) {
      CoveredIsAbsent(h, zone, records, WildcardName(closest));
    }
  }

  /** Below an existing encloser, an absent next closer name leaves no room for n. */
  lemma BelowEncloser(zone: Zone, closest: Name, nc: Name, n: Name)
    requires zone.Valid() && closest in zone.names
    requires nc != [] && nc[1..] == closest && ZoneOf(nc, n) && nc !in zone.names
    ensures n !in zone.names
  {
    assert ZoneOf(closest, nc);
    ZoneOfTransitive(zone.apex, closest, nc);
    AbsentBelow(zone, nc, n);
  }

  /** An ancestor-or-self of qname whose hash owns a link is a name of the zone. */
  lemma OwnerInZone(h: Hasher, zone: Zone, qname: Name, a: Name, records: seq<Record>)
    requires forall r <- records :: OnChain(h, zone, r)
    requires CollisionFree(h, zone, qname) && ZoneOf(a, qname) && OwnsHash(records, h(a))
    ensures a in zone.names
  {
    var r :| r in records && OwnerHash(r) == Some(h(a));
    assert OnChain(h, zone, r);
    assert h(a) in zone.Hashes(h);
  }

  lemma EncloserOwned(h: Hasher, qname: Name, qtype: RecordType, records: seq<Record>, closest: Name)
    requires EncloserUsed(h, qname, qtype, records) == Some(closest) && |closest| < |qname|
    ensures OwnsHash(records, h(closest)) || NextCloser(qname, closest) == qname
  {
    NearestIsOwner(h, qname, records, MAX_CLOSEST_ENCLOSER_STEPS);
  }

  lemma NameAbsent(h: Hasher, zone: Zone, qname: Name, records: seq<Record>, closest: Name)
    requires zone.Valid() && forall r <- records :: OnChain(h, zone, r)
    requires CollisionFree(h, zone, qname) && ZoneOf(closest, qname) && closest != qname
    requires OwnsHash(records, h(closest))
    requires NextCloser(qname, closest) !in zone.names
    ensures qname !in zone.names
  {
    OwnerInZone(h, zone, qname, closest, records);
    BelowEncloser(zone, closest, NextCloser(qname, closest), qname);
  }

  lemma {:induction false} NodataIsAbsent(h: Hasher, zone: Zone, qname: Name, qtype: RecordType, records: seq<Record>)
    requires forall r <- records :: OnChain(h, zone, r)
    requires CollisionFree(h, zone, qname)
    requires CheckNodata(h, qname, qtype, records) == Some(Secure)
    ensures qname in zone.names && !zone.Present(qname, qtype) && !zone.Present(qname, CNAME)
  {
    var r := records[0];
    assert OnChain(h, zone, r);
    if OwnerHash(r) == Some(h(qname)) {
      assert h(qname) in zone.Hashes(h);
      assert ZoneOf(qname, qname);
    }
    if !(OwnerHash(r) == Some(h(qname)) && qtype !in r.data.types && CNAME !in r.data.types) {
      NodataIsAbsent(h, zone, qname, qtype, records[1..]);
    }
  }

  // ----- What the links shown prove -----

  ghost predicate AllOnChain(h: Hasher, zone: Zone, records: seq<Record>) {
    forall r <- records :: OnChain(h, zone, r)
  }

  /** n's hash lies strictly inside the arc of a record. */
  ghost predicate HashInside(h: Hasher, records: seq<Record>, n: Name) {
    exists r <- records ::
      r.data.Nsec3Data? && OwnerHash(r).Some? && Open(OctetsLess, OwnerHash(r).value, r.data.nextHash, h(n))
  }

  /** n is on the way from the apex down to qname. */
  predicate OnPath(apex: Name, n: Name, qname: Name) {
    ZoneOf(apex, n) && ZoneOf(n, qname)
  }

  ghost predicate OwnsLacking(h: Hasher, qname: Name, qtype: RecordType, records: seq<Record>) {
    exists r <- records :: OwnerHash(r) == Some(h(qname)) && r.data.Nsec3Data? && qtype !in r.data.types
  }

  /** A record owns qname's hash and lacks the type, or the hash of a name on the
      way down to qname lies inside the arc of one. */
  ghost predicate Refutes(h: Hasher, apex: Name, qname: Name, qtype: RecordType, records: seq<Record>) {
    || OwnsLacking(h, qname, qtype, records)
    || exists n :: OnPath(apex, n, qname) && HashInside(h, records, n)
  }

  /** A zone with this apex that could have produced the records. */
  ghost predicate Explains(h: Hasher, zone: Zone, apex: Name, qname: Name, records: seq<Record>) {
    zone.apex == apex && zone.Valid() && CollisionFree(h, zone, qname) && AllOnChain(h, zone, records)
  }

  /** The names from qname up to the apex have different hashes. */
  ghost predicate PathApart(h: Hasher, apex: Name, qname: Name) {
    forall a, b :: OnPath(apex, a, qname) && ZoneOf(b, qname) && h(a) == h(b) ==> a == b
  }

  /** Exactly these records prove the absence of an RRset: every zone that could
      have produced them lacks it if and only if they refute it. */
  lemma RefutesExactly(h: Hasher, zone: Zone, qname: Name, qtype: RecordType, records: seq<Record>)
    requires Explains(h, zone, zone.apex, qname, records)
    requires ZoneOf(zone.apex, qname) && PathApart(h, zone.apex, qname)
    ensures Refutes(h, zone.apex, qname, qtype, records)
       <==> forall z | Explains(h, z, zone.apex, qname, records) :: !z.Present(qname, qtype)
  {
    if Refutes(h, zone.apex, qname, qtype, records) {
      forall z | Explains(h, z, zone.apex, qname, records) ensures !z.Present(qname, qtype) {
        RefutesIsAbsent(h, z, qname, qtype, records);
      }
    } else if !zone.Present(qname, qtype) {
      WithPathExplains(h, zone, qname, qtype, records);
      assert WithPath(zone, qname, qtype).Present(qname, qtype);
    }
  }

  /** With a name every name on the way to it is in the zone. */
  lemma {:induction false} AncestorInZone(zone: Zone, a: Name, n: Name)
    requires zone.Valid() && n in zone.names && OnPath(zone.apex, a, n)
    ensures a in zone.names
    decreases |n|
  {
    if a != n {
      ZoneOfBase(a, n);
      if n == zone.apex { AncestorsNested(a, zone.apex, n); }
      AncestorInZone(zone, a, BaseName(n));
    }
  }

  lemma InsideIsAbsent(h: Hasher, zone: Zone, records: seq<Record>, n: Name)
    requires AllOnChain(h, zone, records) && HashInside(h, records, n)
    ensures n !in zone.names
  {
    OctetsStrictTotal();
    var r :| r in records && r.data.Nsec3Data? && OwnerHash(r).Some?
             && Open(OctetsLess, OwnerHash(r).value, r.data.nextHash, h(n));
    assert OnChain(h, zone, r);
    if n in zone.names {
      MemberNotCovered(OctetsLess, zone.Hashes(h), OwnerHash(r).value, r.data.nextHash, h(n));
    }
  }

  lemma RefutesIsAbsent(h: Hasher, zone: Zone, qname: Name, qtype: RecordType, records: seq<Record>)
    requires Explains(h, zone, zone.apex, qname, records) && Refutes(h, zone.apex, qname, qtype, records)
    ensures !zone.Present(qname, qtype)
  {
    if qname in zone.names {
      if OwnsLacking(h, qname, qtype, records) {
        var r :| r in records && OwnerHash(r) == Some(h(qname)) && r.data.Nsec3Data? && qtype !in r.data.types;
        assert OnChain(h, zone, r);
      } else {
        var n :| OnPath(zone.apex, n, qname) && HashInside(h, records, n);
        AncestorInZone(zone, n, qname);
        InsideIsAbsent(h, zone, records, n);
      }
    }
  }

  function PathTo(apex: Name, qname: Name): (p: set<Name>)
    requires ZoneOf(apex, qname)
    ensures forall n :: n in p <==> OnPath(apex, n, qname)
  {
    var p := set k | 0 <= k <= |qname| - |apex| :: qname[k..];
    assert forall n :: n in p <==> OnPath(apex, n, qname) by {
      forall n ensures n in p <==> OnPath(apex, n, qname) {
        PathMember(apex, n, qname);
      }
    }
    p
  }

  lemma PathMember(apex: Name, n: Name, qname: Name)
    requires ZoneOf(apex, qname)
    ensures OnPath(apex, n, qname) <==> exists k :: 0 <= k <= |qname| - |apex| && n == qname[k..]
  {
    if OnPath(apex, n, qname) {
      assert n == qname[|qname| - |n|..];
    }
    if k :| 0 <= k <= |qname| - |apex| && n == qname[k..] {
      assert n[|n| - |apex|..] == qname[|qname| - |apex|..];
    }
  }

  /** The zone with the RRset at qname, and the names on the way to it, added. */
  function WithPath(zone: Zone, qname: Name, qtype: RecordType): Zone
    requires ZoneOf(zone.apex, qname)
  {
    Zone(zone.apex, map n | n in zone.names.Keys + PathTo(zone.apex, qname) ::
      if n == qname then {qtype} else if n in zone.names then zone.names[n] else {})
  }

  lemma WithPathValid(zone: Zone, qname: Name, qtype: RecordType)
    requires zone.Valid() && ZoneOf(zone.apex, qname)
    ensures WithPath(zone, qname, qtype).Valid()
  {
    var bigger := WithPath(zone, qname, qtype);
    forall n <- bigger.names | n != zone.apex ensures BaseName(n) in bigger.names {
      if n !in zone.names {
        ZoneOfBase(n, qname);
        ZoneOfBase(zone.apex, n);
      }
    }
  }

  lemma WithPathHashes(h: Hasher, zone: Zone, qname: Name, qtype: RecordType)
    requires ZoneOf(zone.apex, qname)
    ensures WithPath(zone, qname, qtype).Hashes(h) == zone.Hashes(h) + set n <- PathTo(zone.apex, qname) :: h(n)
  {
    var bigger := WithPath(zone, qname, qtype);
    var more := set n <- PathTo(zone.apex, qname) :: h(n);
    forall x ensures x in bigger.Hashes(h) <==> x in zone.Hashes(h) + more {
      if x in zone.Hashes(h) {
        var n :| n in zone.names && x == h(n);
        assert n in bigger.names;
      }
      if x in more {
        var n :| n in PathTo(zone.apex, qname) && x == h(n);
        assert n in bigger.names;
      }
    }
  }

  lemma WithPathLink(h: Hasher, zone: Zone, qname: Name, qtype: RecordType, records: seq<Record>, r: Record)
    requires Explains(h, zone, zone.apex, qname, records) && ZoneOf(zone.apex, qname) && r in records
    requires !Refutes(h, zone.apex, qname, qtype, records) && !zone.Present(qname, qtype)
    ensures OnChain(h, WithPath(zone, qname, qtype), r)
  {
    var bigger := WithPath(zone, qname, qtype);
    var more := set n <- PathTo(zone.apex, qname) :: h(n);
    assert OnChain(h, zone, r);
    OctetsStrictTotal();
    SuccessorStays(OctetsLess, zone.Hashes(h), OwnerHash(r).value, r.data.nextHash, more);
    WithPathHashes(h, zone, qname, qtype);
    forall n <- bigger.names | h(n) == OwnerHash(r).value ensures r.data.types == bigger.names[n] {
      if OnPath(zone.apex, n, qname) {
        OwnerInZone(h, zone, qname, n, records);
      }
    }
  }

  /** What is not refuted can be added to the zone. */
  lemma WithPathExplains(h: Hasher, zone: Zone, qname: Name, qtype: RecordType, records: seq<Record>)
    requires Explains(h, zone, zone.apex, qname, records)
    requires ZoneOf(zone.apex, qname) && PathApart(h, zone.apex, qname)
    requires !Refutes(h, zone.apex, qname, qtype, records) && !zone.Present(qname, qtype)
    ensures Explains(h, WithPath(zone, qname, qtype), zone.apex, qname, records)
  {
    WithPathValid(zone, qname, qtype);
    forall r <- records ensures OnChain(h, WithPath(zone, qname, qtype), r) {
      WithPathLink(h, zone, qname, qtype, records, r);
    }
  }

  /** The verdict came from the record owned by the wildcard's hash. */
  predicate ByWildcard(h: Hasher, qname: Name, qtype: RecordType, records: seq<Record>) {
    && CheckNodata(h, qname, qtype, records).None?
    && EncloserUsed(h, qname, qtype, records).Some?
    && CheckWildcardNodata(h, EncloserUsed(h, qname, qtype, records).value, qtype, records).Some?
  }

  /** A Secure verdict proves the absence of the RRset, except that one given by
      a wildcard's record does so only if the records refute the RRset as well. */
  lemma SecureDeniesExactly(h: Hasher, zone: Zone, qname: Name, qtype: RecordType, records: seq<Record>)
    requires Explains(h, zone, zone.apex, qname, records)
    requires ZoneOf(zone.apex, qname) && PathApart(h, zone.apex, qname)
    requires Verdict(h, qname, qtype, records) == Secure
    ensures (forall z | Explains(h, z, zone.apex, qname, records) :: !z.Present(qname, qtype))
       <==> (ByWildcard(h, qname, qtype, records) ==> Refutes(h, zone.apex, qname, qtype, records))
  {
    RefutesExactly(h, zone, qname, qtype, records);
    if !ByWildcard(h, qname, qtype, records) {
      SecureRefutes(h, zone, qname, qtype, records);
    }
  }

  lemma SecureRefutes(h: Hasher, zone: Zone, qname: Name, qtype: RecordType, records: seq<Record>)
    requires Explains(h, zone, zone.apex, qname, records) && ZoneOf(zone.apex, qname)
    requires Verdict(h, qname, qtype, records) == Secure && !ByWildcard(h, qname, qtype, records)
    ensures Refutes(h, zone.apex, qname, qtype, records)
  {
    if CheckNodata(h, qname, qtype, records).Some? {
      NodataLacks(h, qname, qtype, records);
    } else {
      var closest := SecureBelow(h, qname, qtype, records);
      NextCloserInside(h, qname, qtype, records, closest);
      NextCloserOnPath(h, zone, qname, qtype, records, closest);
    }
  }

  /** A Secure verdict by neither kind of no-data record rests on a covered next closer name. */
  lemma SecureBelow(h: Hasher, qname: Name, qtype: RecordType, records: seq<Record>) returns (closest: Name)
    requires Verdict(h, qname, qtype, records) == Secure
    requires CheckNodata(h, qname, qtype, records).None? && !ByWildcard(h, qname, qtype, records)
    ensures EncloserUsed(h, qname, qtype, records) == Some(closest) && |closest| < |qname| && ZoneOf(closest, qname)
    ensures FirstCovering(records, h(NextCloser(qname, closest))).Some?
  {
    closest := EncloserUsed(h, qname, qtype, records).value;
    EncloserIsProper(h, qname, qtype, records);
  }

  lemma NextCloserInside(h: Hasher, qname: Name, qtype: RecordType, records: seq<Record>, closest: Name)
    requires EncloserUsed(h, qname, qtype, records) == Some(closest) && |closest| < |qname|
    requires FirstCovering(records, h(NextCloser(qname, closest))).Some?
    ensures HashInside(h, records, NextCloser(qname, closest))
  {
    NextCloserUnowned(h, qname, qtype, records);
    CoverIsInside(h, records, NextCloser(qname, closest));
  }

  lemma NextCloserOnPath(h: Hasher, zone: Zone, qname: Name, qtype: RecordType, records: seq<Record>, closest: Name)
    requires Explains(h, zone, zone.apex, qname, records) && ZoneOf(zone.apex, qname)
    requires EncloserUsed(h, qname, qtype, records) == Some(closest) && |closest| < |qname| && ZoneOf(closest, qname)
    ensures OnPath(zone.apex, NextCloser(qname, closest), qname)
  {
    var nc := NextCloser(qname, closest);
    EncloserOwned(h, qname, qtype, records, closest);
    if nc != qname {
      OwnerInZone(h, zone, qname, closest, records);
      assert ZoneOf(closest, nc);
      ZoneOfTransitive(zone.apex, closest, nc);
    }
  }

  lemma {:induction false} NodataLacks(h: Hasher, qname: Name, qtype: RecordType, records: seq<Record>)
    requires CheckNodata(h, qname, qtype, records) == Some(Secure)
    ensures OwnsLacking(h, qname, qtype, records)
  {
    var r := records[0];
    if !(OwnerHash(r) == Some(h(qname)) && r.data.Nsec3Data? && qtype !in r.data.types && CNAME !in r.data.types) {
      NodataLacks(h, qname, qtype, records[1..]);
    } else {
      assert r in records;
    }
  }

  lemma CoverIsInside(h: Hasher, records: seq<Record>, n: Name)
    requires FirstCovering(records, h(n)).Some? && !OwnsHash(records, h(n))
    ensures HashInside(h, records, n)
  {
    var c := FirstCovering(records, h(n)).value;
    OctetsStrictTotal();
    HalfOpenIs(OctetsLess, OwnerHash(c).value, c.data.nextHash, h(n));
  }

  /** n is in the zone and shares its hash, of SHA-1 length, with no other name there. */
  ghost predicate Apart(h: Hasher, zone: Zone, n: Name) {
    n in zone.names && |h(n)| == 20 && forall m <- zone.names :: h(m) == h(n) ==> m == n
  }

  /** The link of the zone's chain at n's hash, as a record. */
  lemma LinkOf(h: Hasher, zone: Zone, n: Name) returns (r: Record)
    requires Apart(h, zone, n)
    ensures OnChain(h, zone, r) && OwnerHash(r) == Some(h(n)) && r.data.types == zone.names[n]
  {
    OctetsStrictTotal();
    assert h(n) in zone.Hashes(h);
    var next := SuccessorExists(OctetsLess, zone.Hashes(h), h(n));
    Base32Hex.RoundTrip(h(n));
    r := Record([Base32Hex.Encode(h(n))] + zone.apex, 1, 0, Nsec3Data(1, 0, 0, [], next, zone.names[n]));
  }

  lemma TwoFirst(a: Record, b: Record, x: Octets)
    requires OwnerHash(a) != Some(x) && OwnerHash(b) == Some(x)
    ensures FirstOwnedBy([a, b], x) == Some(b)
  {
    assert [a, b][1..] == [b];
  }

  lemma TwoNodata(h: Hasher, a: Record, b: Record, qname: Name, qtype: RecordType)
    requires OwnerHash(a) != Some(h(qname)) && OwnerHash(b) != Some(h(qname))
    ensures CheckNodata(h, qname, qtype, [a, b]) == None && !OwnsHash([a, b], h(qname))
  {
    NodataNone(h, qname, qtype, [a, b]);
  }

  lemma ParentNearest(h: Hasher, qname: Name, records: seq<Record>)
    requires qname != [] && !OwnsHash(records, h(qname)) && OwnsHash(records, h(BaseName(qname)))
    ensures NearestHashed(h, qname, records, MAX_CLOSEST_ENCLOSER_STEPS) == Some(BaseName(qname))
  {
  }

  lemma WildcardIsOther(closest: Name)
    ensures WildcardName(closest) != closest
  {
    if closest == [] {
      assert ["*"] + closest == ["*"] && ["*"][1..] == [];
    } else {
      assert |["*"] + closest| == |closest| + 1;
    }
  }

  /** A record of the parent's hash and one of its wildcard's, without the type,
      decide for qname. */
  lemma TwoHide(h: Hasher, qname: Name, qtype: RecordType, a: Record, b: Record, w: Name)
    requires qname != [] && w == WildcardName(BaseName(qname))
    requires OwnerHash(a) == Some(h(BaseName(qname))) && OwnerHash(b) == Some(h(w))
    requires h(qname) != h(BaseName(qname)) && h(qname) != h(w) && h(w) != h(BaseName(qname))
    requires b.data.Nsec3Data? && qtype !in b.data.types && CNAME !in b.data.types
    ensures Verdict(h, qname, qtype, [a, b]) == Secure && ByWildcard(h, qname, qtype, [a, b])
  {
    var records := [a, b];
    TwoNodata(h, a, b, qname, qtype);
    assert a in records;
    ParentNearest(h, qname, records);
    TwoFirst(a, b, h(w));
    VerdictBelow(h, qname, qtype, records, BaseName(qname));
  }

  /** Where it is not a proof: two genuine links, those of the parent and of its
      wildcard, make the verdict Secure for every name below the parent that is
      in the zone, whatever types it has. */
  lemma WildcardHides(h: Hasher, zone: Zone, qname: Name, qtype: RecordType) returns (records: seq<Record>)
    requires qname in zone.names && qname != [] && Apart(h, zone, BaseName(qname))
    requires
      var w := WildcardName(BaseName(qname));
      Apart(h, zone, w) && w != qname && !zone.Present(w, qtype) && !zone.Present(w, CNAME)
    ensures AllOnChain(h, zone, records)
    ensures Verdict(h, qname, qtype, records) == Secure && ByWildcard(h, qname, qtype, records)
  {
    var w := WildcardName(BaseName(qname));
    var a := LinkOf(h, zone, BaseName(qname));
    var b := LinkOf(h, zone, w);
    WildcardIsOther(BaseName(qname));
    TwoHide(h, qname, qtype, a, b, w);
    records := [a, b];
  }

  // ----- Exactness -----

  /** An opt-out record over the next closer name answers a DS query. */
  predicate OptOutDelegation(h: Hasher, nc: Name, qtype: RecordType, records: seq<Record>) {
    qtype == DS && FirstCovering(records, h(nc)).Some? && FirstCovering(records, h(nc)).value.data.flags % 2 != 0
  }

  /** The records shown settle the next closer name and the wildcard under the
      encloser that is used. */
  predicate SettledBelow(h: Hasher, qname: Name, qtype: RecordType, records: seq<Record>) {
    var used := EncloserUsed(h, qname, qtype, records);
    && used.Some? && |used.value| < |qname|
    && FirstCovering(records, h(NextCloser(qname, used.value))).Some?
    && (OwnsHash(records, h(WildcardName(used.value))) || FirstCovering(records, h(WildcardName(used.value))).Some?)
  }

  /** What a zone says to a negative query for qname once its wildcard is w. */
  predicate Denies(zone: Zone, qname: Name, qtype: RecordType, w: Name) {
    if qname in zone.names
    then !zone.Present(qname, qtype) && !zone.Present(qname, CNAME) && !(qtype == DS && zone.Present(qname, SOA))
    else !zone.Present(w, qtype) && !zone.Present(w, CNAME)
  }

  predicate AllTyped(records: seq<Record>, x: Octets, types: set<RecordType>) {
    forall r <- records :: OwnerHash(r) == Some(x) ==> r.data.Nsec3Data? && r.data.types == types
  }

  /** Records that own the hash of a name show the types it has. */
  lemma OwnersTyped(h: Hasher, zone: Zone, n: Name, records: seq<Record>)
    requires AllOnChain(h, zone, records) && CollisionFree(h, zone, n) && OwnsHash(records, h(n))
    ensures n in zone.names && AllTyped(records, h(n), zone.names[n])
  {
    OwnerInZone(h, zone, n, n, records);
    forall r <- records | OwnerHash(r) == Some(h(n)) ensures r.data.Nsec3Data? && r.data.types == zone.names[n] {
      assert OnChain(h, zone, r);
    }
  }

  lemma {:induction false} NodataDecides(h: Hasher, qname: Name, qtype: RecordType, records: seq<Record>,
                                         types: set<RecordType>)
    requires AllTyped(records, h(qname), types)
    ensures CheckNodata(h, qname, qtype, records) ==
      if !OwnsHash(records, h(qname)) then None
      else if qtype == DS && SOA in types then Some(Bogus)
      else if qtype !in types && CNAME !in types then Some(Secure)
      else None
  {
    if records != [] {
      NodataDecides(h, qname, qtype, records[1..], types);
      assert OwnsHash(records, h(qname)) <==> OwnerHash(records[0]) == Some(h(qname)) || OwnsHash(records[1..], h(qname));
    }
  }

  lemma NodataNone(h: Hasher, qname: Name, qtype: RecordType, records: seq<Record>)
    requires !OwnsHash(records, h(qname))
    ensures CheckNodata(h, qname, qtype, records) == None
  {
    NodataDecides(h, qname, qtype, records, {});
  }

  /** Exactness for a name that owns a link: Secure if and only if the zone denies
      the query. */
  lemma OwnedExact(h: Hasher, zone: Zone, qname: Name, qtype: RecordType, records: seq<Record>, w: Name)
    requires AllOnChain(h, zone, records) && CollisionFree(h, zone, qname) && OwnsHash(records, h(qname))
    ensures qname in zone.names
    ensures Verdict(h, qname, qtype, records) == Secure <==> Denies(zone, qname, qtype, w)
  {
    OwnersTyped(h, zone, qname, records);
    NodataDecides(h, qname, qtype, records, zone.names[qname]);
    OwnedEncloser(h, qname, qtype, records);
  }

  lemma OwnedEncloser(h: Hasher, qname: Name, qtype: RecordType, records: seq<Record>)
    requires OwnsHash(records, h(qname))
    ensures EncloserUsed(h, qname, qtype, records) == Some(qname)
  {
  }

  /** The name itself is not in the zone. */
  lemma SettledAbsent(h: Hasher, zone: Zone, qname: Name, qtype: RecordType, records: seq<Record>)
    requires zone.Valid() && AllOnChain(h, zone, records) && CollisionFree(h, zone, qname)
    requires SettledBelow(h, qname, qtype, records)
    ensures qname !in zone.names
  {
    var closest := EncloserUsed(h, qname, qtype, records).value;
    var nc := NextCloser(qname, closest);
    NextCloserUnowned(h, qname, qtype, records);
    CoveredIsAbsent(h, zone, records, nc);
    EncloserOwned(h, qname, qtype, records, closest);
    EncloserIsProper(h, qname, qtype, records);
    if nc != qname {
      NameAbsent(h, zone, qname, records, closest);
    }
  }

  /** The verdict below the encloser that is used, when no record owns qname's hash. */
  lemma VerdictBelow(h: Hasher, qname: Name, qtype: RecordType, records: seq<Record>, closest: Name)
    requires CheckNodata(h, qname, qtype, records) == None && EncloserUsed(h, qname, qtype, records) == Some(closest)
    requires |closest| < |qname|
    ensures CheckWildcardNodata(h, closest, qtype, records).Some? ==> Verdict(h, qname, qtype, records) == Secure
    ensures CheckWildcardNodata(h, closest, qtype, records).None? ==>
      Verdict(h, qname, qtype, records) == DecideNextCloser(h, NextCloser(qname, closest), closest, qtype, records).GetOr(Bogus)
  {
  }

  lemma DecideSettled(h: Hasher, nc: Name, closest: Name, qtype: RecordType, records: seq<Record>)
    requires FirstCovering(records, h(nc)).Some? && FirstCovering(records, h(WildcardName(closest))).Some?
    ensures DecideNextCloser(h, nc, closest, qtype, records)
         == Some(if OptOutDelegation(h, nc, qtype, records) then InsecureUnsigned else Secure)
  {
  }

  lemma SettledVerdict(h: Hasher, qname: Name, qtype: RecordType, records: seq<Record>, closest: Name)
    requires !OwnsHash(records, h(qname)) && SettledBelow(h, qname, qtype, records)
    requires EncloserUsed(h, qname, qtype, records) == Some(closest)
    requires FirstCovering(records, h(WildcardName(closest))).Some?
    ensures ByWildcard(h, qname, qtype, records) <==> CheckWildcardNodata(h, closest, qtype, records).Some?
    ensures Verdict(h, qname, qtype, records) == Secure
       <==> ByWildcard(h, qname, qtype, records) || !OptOutDelegation(h, NextCloser(qname, closest), qtype, records)
  {
    NodataNone(h, qname, qtype, records);
    VerdictBelow(h, qname, qtype, records, closest);
    DecideSettled(h, NextCloser(qname, closest), closest, qtype, records);
  }

  /** Exactness for the rest: once next closer name and wildcard are settled, the
      name is not in the zone. */
  lemma UnownedExact(h: Hasher, zone: Zone, qname: Name, qtype: RecordType, records: seq<Record>, closest: Name)
    requires zone.Valid() && AllOnChain(h, zone, records) && CollisionFree(h, zone, qname)
    requires !OwnsHash(records, h(qname)) && SettledBelow(h, qname, qtype, records)
    requires EncloserUsed(h, qname, qtype, records) == Some(closest) && CollisionFree(h, zone, WildcardName(closest))
    ensures qname !in zone.names && UnownedAgrees(h, zone, qname, qtype, records, closest)
  {
    SettledAbsent(h, zone, qname, qtype, records);
    WildcardSettled(h, zone, WildcardName(closest), NextCloser(qname, closest), closest, qtype, records);
    UnownedDecides(h, zone, qname, qtype, records, closest);
  }

  /** The verdict is Secure except for an opt-out delegation that no wildcard's
      record overrides. It is what the zone says unless the wildcard's record is
      shown with the type or a CNAME, or there is an opt-out delegation and the
      wildcard's record is not shown. */
  predicate UnownedAgrees(h: Hasher, zone: Zone, qname: Name, qtype: RecordType, records: seq<Record>, closest: Name)
    requires |closest| < |qname|
  {
    var w := WildcardName(closest);
    var optOut := OptOutDelegation(h, NextCloser(qname, closest), qtype, records);
    var secure := Verdict(h, qname, qtype, records) == Secure;
    && (secure <==> ByWildcard(h, qname, qtype, records) || !optOut)
    && ((secure <==> Denies(zone, qname, qtype, w)) <==>
        ByWildcard(h, qname, qtype, records) || (optOut <==> OwnsHash(records, h(w))))
  }

  lemma UnownedDecides(h: Hasher, zone: Zone, qname: Name, qtype: RecordType, records: seq<Record>, closest: Name)
    requires qname !in zone.names && !OwnsHash(records, h(qname)) && SettledBelow(h, qname, qtype, records)
    requires EncloserUsed(h, qname, qtype, records) == Some(closest)
    requires WildcardDecided(h, zone, WildcardName(closest), closest, qtype, records)
    ensures UnownedAgrees(h, zone, qname, qtype, records, closest)
  {
    SettledVerdict(h, qname, qtype, records, closest);
    DeniesDecided(h, zone, qname, WildcardName(closest), closest, qtype, records);
    var w := WildcardName(closest);
    var secure, byWildcard := Verdict(h, qname, qtype, records) == Secure, ByWildcard(h, qname, qtype, records);
    var optOut, shown := OptOutDelegation(h, NextCloser(qname, closest), qtype, records), OwnsHash(records, h(w));
    assert secure <==> byWildcard || !optOut;
    assert Denies(zone, qname, qtype, w) <==> byWildcard || !shown;
    assert byWildcard ==> shown;
  }

  /** The zone denies an absent name exactly when the wildcard's record is not
      shown, or lacks the type. */
  lemma DeniesDecided(h: Hasher, zone: Zone, qname: Name, w: Name, closest: Name, qtype: RecordType, records: seq<Record>)
    requires qname !in zone.names && WildcardDecided(h, zone, w, closest, qtype, records)
    ensures Denies(zone, qname, qtype, w) <==>
      CheckWildcardNodata(h, closest, qtype, records).Some? || !OwnsHash(records, h(w))
    ensures CheckWildcardNodata(h, closest, qtype, records).Some? ==> OwnsHash(records, h(w))
  {
  }

  /** What a settled wildcard comes down to. */
  predicate WildcardDecided(h: Hasher, zone: Zone, w: Name, closest: Name, qtype: RecordType, records: seq<Record>) {
    && FirstCovering(records, h(w)).Some?
    && if OwnsHash(records, h(w))
       then w in zone.names
            && (CheckWildcardNodata(h, closest, qtype, records).Some? <==> !zone.Present(w, qtype) && !zone.Present(w, CNAME))
       else w !in zone.names && CheckWildcardNodata(h, closest, qtype, records).None?
  }

  /** Where some arc is not empty, the wildcard's own record counts as covering it,
      so its types do not stand in the way of a Secure verdict. */
  lemma WildcardSettled(h: Hasher, zone: Zone, w: Name, nc: Name, closest: Name, qtype: RecordType, records: seq<Record>)
    requires AllOnChain(h, zone, records) && w == WildcardName(closest) && CollisionFree(h, zone, w)
    requires FirstCovering(records, h(nc)).Some? && (OwnsHash(records, h(w)) || FirstCovering(records, h(w)).Some?)
    ensures WildcardDecided(h, zone, w, closest, qtype, records)
  {
    if OwnsHash(records, h(w)) {
      OwnersTyped(h, zone, w, records);
      var own := FirstOwnedBy(records, h(w)).value;
      OwnerCovers(h, zone, own, FirstCovering(records, h(nc)).value, h(nc));
      assert HashCovers(own, h(w));
    } else {
      CoveredIsAbsent(h, zone, records, w);
    }
  }

  lemma OwnerCovers(h: Hasher, zone: Zone, own: Record, c: Record, x: Octets)
    requires OnChain(h, zone, own) && OnChain(h, zone, c) && HashCovers(c, x)
    ensures HashCovers(own, OwnerHash(own).value)
  {
    OctetsStrictTotal();
    HalfOpenIs(OctetsLess, OwnerHash(c).value, c.data.nextHash, x);
    HalfOpenIs(OctetsLess, OwnerHash(own).value, own.data.nextHash, OwnerHash(own).value);
    SelfLoop(OctetsLess, zone.Hashes(h), OwnerHash(c).value, c.data.nextHash);
    SelfLoop(OctetsLess, zone.Hashes(h), OwnerHash(own).value, own.data.nextHash);
  }

  /** r is an opt-out record over the name nc, which owns no record of the proof. */
  predicate OptsOut(h: Hasher, records: seq<Record>, r: Record, nc: Name) {
    r in records && HashCovers(r, h(nc)) && r.data.flags % 2 == 1 && !OwnsHash(records, h(nc))
  }

  /** The verdict "insecure delegation" is given to DS queries alone, and only
      when an opt-out record covers the unowned next closer name. */
  lemma OptOutOnly(h: Hasher, qname: Name, qtype: RecordType, records: seq<Record>)
    requires Verdict(h, qname, qtype, records) == InsecureUnsigned
    ensures qtype == DS
    ensures exists r, nc :: ZoneOf(nc, qname) && OptsOut(h, records, r, nc)
  {
    NodataStatus(h, qname, qtype, records);
    var closest := EncloserUsed(h, qname, qtype, records).value;
    NextCloserUnowned(h, qname, qtype, records);
    OptOutCover(h, NextCloser(qname, closest), closest, qtype, records);
    var r :| OptsOut(h, records, r, NextCloser(qname, closest));
    assert ZoneOf(NextCloser(qname, closest), qname);
  }

  lemma OptOutCover(h: Hasher, nc: Name, closest: Name, qtype: RecordType, records: seq<Record>)
    requires DecideNextCloser(h, nc, closest, qtype, records) == Some(InsecureUnsigned)
    requires !OwnsHash(records, h(nc))
    ensures qtype == DS && exists r :: OptsOut(h, records, r, nc)
  {
    assert OptsOut(h, records, FirstCovering(records, h(nc)).value, nc);
  }

  lemma {:induction false} NodataStatus(h: Hasher, qname: Name, qtype: RecordType, records: seq<Record>)
    ensures CheckNodata(h, qname, qtype, records) in {None, Some(Secure), Some(Bogus)}
  {
    if records != [] {
      NodataStatus(h, qname, qtype, records[1..]);
    }
  }
}