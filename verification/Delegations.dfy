/** What NSEC3 proofs say about delegations: whether the zone that signs them holds
    the name, and what opt-out leaves open (RFC 5155 sections 6 and 8). */
module Delegations {
  import opened Order
  import opened Circular
  import opened Names
  import opened Records
  import opened Status
  import opened Nsec3

  // ----- Delegations in the chain -----

  /** Names below a delegation belong to another zone and have no hash in the chain. */
  ghost predicate Proper(zone: Zone) {
    forall d, n | d in zone.names && IsCut(zone.names[d]) && n in zone.names && ZoneOf(d, n) :: d == n
  }

  predicate IsDelegation(zone: Zone, n: Name) {
    n in zone.names && IsCut(zone.names[n])
  }

  /** A delegation with a link lies above qname, or at it for other types than DS. */
  ghost predicate Delegated(zone: Zone, qname: Name, qtype: RecordType) {
    exists d :: IsDelegation(zone, d) && ZoneOf(d, qname) && (d != qname || qtype != DS)
  }

  predicate ShowsCutAt(h: Hasher, r: Record, d: Name) {
    OwnerHash(r) == Some(h(d)) && r.data.Nsec3Data? && IsCut(r.data.types)
  }

  ghost predicate ShowsCut(h: Hasher, records: seq<Record>, d: Name) {
    exists r <- records :: ShowsCutAt(h, r, d)
  }

  /** A record shown is the link of such a delegation. */
  ghost predicate FromAbove(h: Hasher, qname: Name, qtype: RecordType, records: seq<Record>) {
    exists d :: ShowsCut(h, records, d) && ZoneOf(d, qname) && (d != qname || qtype != DS)
  }

  /** A name that owns a link is a delegation if and only if the link says so. */
  lemma CutExactly(h: Hasher, zone: Zone, n: Name, records: seq<Record>)
    requires AllOnChain(h, zone, records) && CollisionFree(h, zone, n) && OwnsHash(records, h(n))
    ensures IsDelegation(zone, n) <==> ShowsCut(h, records, n)
  {
    OwnersTyped(h, zone, n, records);
    var r :| r in records && OwnerHash(r) == Some(h(n));
    assert ShowsCutAt(h, r, n) <==> IsDelegation(zone, n);
  }

  lemma ShownIsDelegation(h: Hasher, zone: Zone, qname: Name, d: Name, records: seq<Record>)
    requires AllOnChain(h, zone, records) && CollisionFree(h, zone, qname) && ZoneOf(d, qname) && ShowsCut(h, records, d)
    ensures IsDelegation(zone, d)
  {
    CollisionFreeAbove(h, zone, d, qname);
    var r :| r in records && ShowsCutAt(h, r, d);
    assert OwnsHash(records, h(d));
    CutExactly(h, zone, d, records);
  }

  lemma CollisionFreeAbove(h: Hasher, zone: Zone, d: Name, n: Name)
    requires CollisionFree(h, zone, n) && ZoneOf(d, n)
    ensures CollisionFree(h, zone, d)
  {
    forall a, m | ZoneOf(a, d) && m in zone.names && h(a) == h(m) ensures a == m {
      ZoneOfTransitive(a, d, n);
    }
  }

  /** Secure verdicts not given by a wildcard come from the zone that holds the RRset
      exactly when no record shown is the link of a delegation above it. (A DS query
      for which no encloser is found shows none and leaves this open.) */
  lemma HeldExactly(h: Hasher, zone: Zone, qname: Name, qtype: RecordType, records: seq<Record>)
    requires Proper(zone) && Explains(h, zone, zone.apex, qname, records) && ZoneOf(zone.apex, qname)
    requires Verdict(h, qname, qtype, records) == Secure && !ByWildcard(h, qname, qtype, records)
    requires NearestHashed(h, qname, records, MAX_CLOSEST_ENCLOSER_STEPS).Some?
    ensures Delegated(zone, qname, qtype) <==> FromAbove(h, qname, qtype, records)
  {
    if FromAbove(h, qname, qtype, records) {
      var d :| ShowsCut(h, records, d) && ZoneOf(d, qname) && (d != qname || qtype != DS);
      ShownIsDelegation(h, zone, qname, d, records);
    }
    if d :| IsDelegation(zone, d) && ZoneOf(d, qname) && (d != qname || qtype != DS) {
      var owned := DelegationOwned(h, zone, qname, qtype, records, d);
      CollisionFreeAbove(h, zone, d, qname);
      CutExactly(h, zone, d, records);
    }
  }

  /** The encloser used, or qname itself, is the delegation, and owns a record. */
  lemma DelegationOwned(h: Hasher, zone: Zone, qname: Name, qtype: RecordType, records: seq<Record>, d: Name)
    returns (owned: Name)
    requires Proper(zone) && Explains(h, zone, zone.apex, qname, records) && ZoneOf(zone.apex, qname)
    requires Verdict(h, qname, qtype, records) == Secure && !ByWildcard(h, qname, qtype, records)
    requires NearestHashed(h, qname, records, MAX_CLOSEST_ENCLOSER_STEPS).Some?
    requires IsDelegation(zone, d) && ZoneOf(d, qname)
    ensures owned == d && OwnsHash(records, h(d))
  {
    if CheckNodata(h, qname, qtype, records).Some? {
      NodataIsAbsent(h, zone, qname, qtype, records);
      NodataLacks(h, qname, qtype, records);
      owned := qname;
    } else {
      var closest := SecureBelow(h, qname, qtype, records);
      NearestIsOwner(h, qname, records, MAX_CLOSEST_ENCLOSER_STEPS);
      OwnerInZone(h, zone, qname, closest, records);
      NextCloserInside(h, qname, qtype, records, closest);
      AboveEncloser(h, zone, qname, records, closest, d);
      owned := closest;
    }
  }

  /** Every name of the zone above qname is at or above the encloser. */
  lemma AboveEncloser(h: Hasher, zone: Zone, qname: Name, records: seq<Record>, closest: Name, d: Name)
    requires zone.Valid() && AllOnChain(h, zone, records) && closest in zone.names
    requires ZoneOf(closest, qname) && |closest| < |qname| && HashInside(h, records, NextCloser(qname, closest))
    requires d in zone.names && ZoneOf(d, qname)
    ensures ZoneOf(d, closest)
  {
    var nc := NextCloser(qname, closest);
    InsideIsAbsent(h, zone, records, nc);
    assert ZoneOf(nc, qname) && ZoneOf(closest, nc);
    if |d| > |closest| {
      AncestorsNested(nc, d, qname);
      ZoneOfTransitive(zone.apex, closest, nc);
      AncestorInZone(zone, nc, d);
    } else {
      AncestorsNested(d, closest, qname);
    }
  }

  // ----- Opt-out -----

  /** A zone with opt-out: its chain, and the names left out of it, which are
      insecure delegations and the empty names above them. */
  datatype Sparse = Sparse(chain: Zone, left: set<Name>) {
    ghost predicate Valid() {
      forall n <- left :: n !in chain.names && n != [] && ZoneOf(chain.apex, n) && (n[1..] in left || n[1..] in chain.names)
    }
  }

  predicate Inside(h: Hasher, r: Record, n: Name) {
    r.data.Nsec3Data? && OwnerHash(r).Some? && Open(OctetsLess, OwnerHash(r).value, r.data.nextHash, h(n))
  }

  /** A record without the opt-out flag has n's hash inside its arc. */
  predicate ClearOver(h: Hasher, records: seq<Record>, n: Name) {
    exists r <- records :: Inside(h, r, n) && r.data.flags % 2 == 0
  }

  /** A zone with this apex, opting out perhaps, that could have produced the records. */
  ghost predicate Admits(h: Hasher, s: Sparse, apex: Name, qname: Name, records: seq<Record>) {
    && Explains(h, s.chain, apex, qname, records) && s.Valid()
    && forall n <- s.left :: !ClearOver(h, records, n)
  }

  /** qname is a name left out of the chain, or below one. */
  ghost predicate LeftAbove(s: Sparse, qname: Name) {
    exists d :: d in s.left && ZoneOf(d, qname)
  }

  /** Once an encloser owns a record and the next closer name is covered, the proof
      excludes an insecure delegation at or above the name if and only if a covering
      record has the opt-out flag clear. */
  lemma OptOutExact(h: Hasher, s: Sparse, qname: Name, records: seq<Record>, closest: Name)
    requires Admits(h, s, s.chain.apex, qname, records) && ZoneOf(s.chain.apex, qname)
    requires ZoneOf(closest, qname) && |closest| < |qname| && OwnsHash(records, h(closest))
    requires HashInside(h, records, NextCloser(qname, closest))
    ensures (forall z | Admits(h, z, s.chain.apex, qname, records) :: !LeftAbove(z, qname))
       <==> ClearOver(h, records, NextCloser(qname, closest))
  {
    if ClearOver(h, records, NextCloser(qname, closest)) {
      forall z | Admits(h, z, s.chain.apex, qname, records) ensures !LeftAbove(z, qname) {
        ClearExcludes(h, z, qname, records, closest);
      }
    } else {
      LeavingOut(h, s, qname, records, closest);
    }
  }

  lemma NextCloserBelow(qname: Name, closest: Name, zone: Zone)
    requires ZoneOf(closest, qname) && |closest| < |qname| && zone.Valid() && closest in zone.names
    ensures NextCloser(qname, closest) != [] && NextCloser(qname, closest)[1..] == closest
    ensures ZoneOf(NextCloser(qname, closest), qname) && ZoneOf(zone.apex, NextCloser(qname, closest))
  {
    var nc := NextCloser(qname, closest);
    assert nc[1..] == closest && ZoneOf(closest, nc);
    ZoneOfTransitive(zone.apex, closest, nc);
  }

  lemma LeavingOne(h: Hasher, s: Sparse, qname: Name, records: seq<Record>, n: Name)
    requires Admits(h, s, s.chain.apex, qname, records) && !ClearOver(h, records, n)
    requires n != [] && n[1..] in s.chain.names && n !in s.chain.names && ZoneOf(s.chain.apex, n) && ZoneOf(n, qname)
    ensures Admits(h, Sparse(s.chain, {n}), s.chain.apex, qname, records) && LeftAbove(Sparse(s.chain, {n}), qname)
  {
    assert n in Sparse(s.chain, {n}).left;
  }

  lemma ClearExcludes(h: Hasher, z: Sparse, qname: Name, records: seq<Record>, closest: Name)
    requires Admits(h, z, z.chain.apex, qname, records) && ZoneOf(z.chain.apex, qname)
    requires ZoneOf(closest, qname) && |closest| < |qname| && OwnsHash(records, h(closest))
    requires HashInside(h, records, NextCloser(qname, closest)) && ClearOver(h, records, NextCloser(qname, closest))
    ensures !LeftAbove(z, qname)
  {
    var nc := NextCloser(qname, closest);
    OwnerInZone(h, z.chain, qname, closest, records);
    InsideIsAbsent(h, z.chain, records, nc);
    if d :| d in z.left && ZoneOf(d, qname) {
      LeftAtNextCloser(z, qname, closest, d);
    }
  }

  /** If anything above qname is left out, the next closer name is. */
  lemma LeftAtNextCloser(z: Sparse, qname: Name, closest: Name, d: Name)
    requires z.Valid() && z.chain.Valid() && d in z.left && ZoneOf(d, qname)
    requires ZoneOf(closest, qname) && |closest| < |qname| && closest in z.chain.names
    requires NextCloser(qname, closest) !in z.chain.names
    ensures NextCloser(qname, closest) in z.left
  {
    var nc := NextCloser(qname, closest);
    NextCloserBelow(qname, closest, z.chain);
    if |d| <= |closest| {
      AncestorsNested(d, closest, qname);
      AncestorInZone(z.chain, d, closest);
    } else {
      AncestorsNested(nc, d, qname);
      LeftUp(z, nc, d);
    }
  }

  /** Above a name left out everything is, down from the first absent name. */
  lemma {:induction false} LeftUp(z: Sparse, nc: Name, d: Name)
    requires z.Valid() && z.chain.Valid() && d in z.left && ZoneOf(nc, d) && nc !in z.chain.names && ZoneOf(z.chain.apex, nc)
    ensures nc in z.left
    decreases |d|
  {
    if d != nc {
      ZoneOfBase(nc, d);
      if d[1..] in z.chain.names {
        AncestorInZone(z.chain, nc, d[1..]);
      } else {
        LeftUp(z, nc, d[1..]);
      }
    }
  }

  /** The next closer name can be left out where no covering record says otherwise. */
  lemma LeavingOut(h: Hasher, s: Sparse, qname: Name, records: seq<Record>, closest: Name)
    requires Admits(h, s, s.chain.apex, qname, records)
    requires ZoneOf(closest, qname) && |closest| < |qname| && OwnsHash(records, h(closest))
    requires HashInside(h, records, NextCloser(qname, closest)) && !ClearOver(h, records, NextCloser(qname, closest))
    ensures
      var z := Sparse(s.chain, {NextCloser(qname, closest)});
      Admits(h, z, s.chain.apex, qname, records) && LeftAbove(z, qname)
  {
    var nc := NextCloser(qname, closest);
    OwnerInZone(h, s.chain, qname, closest, records);
    InsideIsAbsent(h, s.chain, records, nc);
    NextCloserBelow(qname, closest, s.chain);
    LeavingOne(h, s, qname, records, nc);
  }

  /** A Secure verdict not given by a wildcard excludes an insecure delegation at or
      above the name if and only if the name's own link decided, or a record over the
      next closer name has the flag clear. */
  lemma SecureOptOut(h: Hasher, s: Sparse, qname: Name, qtype: RecordType, records: seq<Record>)
    requires Admits(h, s, s.chain.apex, qname, records) && ZoneOf(s.chain.apex, qname)
    requires Verdict(h, qname, qtype, records) == Secure && !ByWildcard(h, qname, qtype, records)
    requires NearestHashed(h, qname, records, MAX_CLOSEST_ENCLOSER_STEPS).Some?
    ensures (forall z | Admits(h, z, s.chain.apex, qname, records) :: !LeftAbove(z, qname))
       <==> CheckNodata(h, qname, qtype, records).Some? || ClearOverNext(h, qname, qtype, records)
  {
    if CheckNodata(h, qname, qtype, records).Some? {
      forall z | Admits(h, z, s.chain.apex, qname, records) ensures !LeftAbove(z, qname) {
        NodataNotLeft(h, z, qname, qtype, records);
      }
    } else {
      var closest := CoveredSecure(h, qname, qtype, records);
      OptOutExact(h, s, qname, records, closest);
    }
  }

  /** What OptOutExact needs of such a verdict. */
  lemma CoveredSecure(h: Hasher, qname: Name, qtype: RecordType, records: seq<Record>) returns (closest: Name)
    requires Verdict(h, qname, qtype, records) == Secure
    requires CheckNodata(h, qname, qtype, records).None? && !ByWildcard(h, qname, qtype, records)
    requires NearestHashed(h, qname, records, MAX_CLOSEST_ENCLOSER_STEPS).Some?
    ensures ZoneOf(closest, qname) && |closest| < |qname| && OwnsHash(records, h(closest))
    ensures HashInside(h, records, NextCloser(qname, closest))
    ensures ClearOverNext(h, qname, qtype, records) <==> ClearOver(h, records, NextCloser(qname, closest))
  {
    closest := SecureBelow(h, qname, qtype, records);
    NearestIsOwner(h, qname, records, MAX_CLOSEST_ENCLOSER_STEPS);
    NextCloserInside(h, qname, qtype, records, closest);
  }

  /** A record without the flag covers the next closer name under the encloser used. */
  ghost predicate ClearOverNext(h: Hasher, qname: Name, qtype: RecordType, records: seq<Record>) {
    var used := EncloserUsed(h, qname, qtype, records);
    used.Some? && |used.value| < |qname| && ClearOver(h, records, NextCloser(qname, used.value))
  }

  lemma NodataNotLeft(h: Hasher, z: Sparse, qname: Name, qtype: RecordType, records: seq<Record>)
    requires Admits(h, z, z.chain.apex, qname, records)
    requires Verdict(h, qname, qtype, records) == Secure && CheckNodata(h, qname, qtype, records).Some?
    ensures !LeftAbove(z, qname)
  {
    NodataIsAbsent(h, z.chain, qname, qtype, records);
    PresentNotLeft(z, qname);
  }

  lemma PresentNotLeft(z: Sparse, n: Name)
    requires z.Valid() && z.chain.Valid() && n in z.chain.names
    ensures !LeftAbove(z, n)
  {
    if d :| d in z.left && ZoneOf(d, n) {
      AncestorInZone(z.chain, d, n);
    }
  }

  // ----- The failing input -----

  /** Every name of the zone has a hash of SHA-1 length of its own. */
  ghost predicate AllApart(h: Hasher, zone: Zone) {
    forall n <- zone.names :: Apart(h, zone, n)
  }

  /** The link at n's hash with the opt-out flag set. */
  lemma OptOutLinkOf(h: Hasher, zone: Zone, n: Name) returns (r: Record)
    requires Apart(h, zone, n)
    ensures OptedLink(h, zone, r) && OwnerHash(r) == Some(h(n))
  {
    var link := LinkOf(h, zone, n);
    r := link.(data := link.data.(flags := 1));
    assert OwnerHash(r) == OwnerHash(link);
  }

  /** A genuine link with the flag set. */
  ghost predicate OptedLink(h: Hasher, zone: Zone, r: Record) {
    OnChain(h, zone, r) && r.data.flags % 2 != 0
  }

  /** The link whose arc holds the hash of an absent name, with the flag set. */
  lemma OptOutLinkOver(h: Hasher, zone: Zone, x: Name, a: Name, b: Name) returns (r: Record)
    requires AllApart(h, zone) && h(x) !in zone.Hashes(h)
    requires a in zone.names && b in zone.names && a != b
    ensures OptedLink(h, zone, r) && HashCovers(r, h(x))
  {
    OctetsStrictTotal();
    assert h(a) in zone.Hashes(h);
    var o := PredecessorExists(OctetsLess, zone.Hashes(h), h(x));
    var n :| n in zone.names && h(n) == o;
    r := OptOutLinkOf(h, zone, n);
    CoveredIffPrecedes(OctetsLess, zone.Hashes(h), o, r.data.nextHash, h(x));
    TwoHashes(h, zone, a, b);
    SelfLoop(OctetsLess, zone.Hashes(h), o, r.data.nextHash);
    HalfOpenIs(OctetsLess, o, r.data.nextHash, h(x));
  }

  lemma TwoHashes(h: Hasher, zone: Zone, a: Name, b: Name)
    requires AllApart(h, zone) && a in zone.names && b in zone.names && a != b
    ensures |zone.Hashes(h)| >= 2
  {
    assert Apart(h, zone, a);
    assert h(a) in zone.Hashes(h) && h(b) in zone.Hashes(h) && h(a) != h(b);
    SubsetSize({h(a), h(b)}, zone.Hashes(h));
  }

  /** Genuine links with the flag set. */
  ghost predicate Opted(h: Hasher, chain: Zone, records: seq<Record>) {
    forall r <- records :: OptedLink(h, chain, r)
  }

  lemma OptedAdmit(h: Hasher, chain: Zone, d: Name, records: seq<Record>)
    requires Opted(h, chain, records) && chain.Valid() && CollisionFree(h, chain, d)
    requires d != [] && d[1..] in chain.names && d !in chain.names && ZoneOf(chain.apex, d)
    ensures Admits(h, Sparse(chain, {d}), chain.apex, d, records) && LeftAbove(Sparse(chain, {d}), d)
  {
    assert ZoneOf(d, d) && d in Sparse(chain, {d}).left;
  }

  lemma OptedOwners(h: Hasher, chain: Zone, records: seq<Record>)
    requires Opted(h, chain, records)
    ensures forall r <- records :: OwnerHash(r).Some? && OwnerHash(r).value in chain.Hashes(h)
  {
  }

  /** d is an insecure delegation directly below a name of the zone, absent from its
      chain like the wildcard there. */
  ghost predicate LeftBelow(h: Hasher, chain: Zone, d: Name) {
    && d != [] && d[1..] in chain.names && d !in chain.names && ZoneOf(chain.apex, d)
    && h(d) !in chain.Hashes(h) && h(WildcardName(d[1..])) !in chain.Hashes(h)
  }

  /** Under opt-out genuine links with the flag set deny it for every type but DS. */
  lemma OptOutHides(h: Hasher, chain: Zone, d: Name, qtype: RecordType, other: Name) returns (records: seq<Record>)
    requires chain.Valid() && AllApart(h, chain) && CollisionFree(h, chain, d) && LeftBelow(h, chain, d)
    requires other in chain.names && other != d[1..] && qtype != DS
    ensures Admits(h, Sparse(chain, {d}), chain.apex, d, records) && LeftAbove(Sparse(chain, {d}), d)
    ensures Verdict(h, d, qtype, records) == Secure
  {
    records := OptOutRecords(h, chain, d, other);
    OptedAdmit(h, chain, d, records);
    OptedOwners(h, chain, records);
    CoveredDenies(h, d, qtype, records, chain.Hashes(h));
  }

  lemma OptOutRecords(h: Hasher, chain: Zone, d: Name, other: Name) returns (records: seq<Record>)
    requires AllApart(h, chain) && LeftBelow(h, chain, d) && other in chain.names && other != d[1..]
    ensures Opted(h, chain, records) && OwnsHash(records, h(d[1..]))
    ensures FirstCovering(records, h(d)).Some? && FirstCovering(records, h(WildcardName(d[1..]))).Some?
  {
    var a := OptOutLinkOf(h, chain, d[1..]);
    var b := OptOutLinkOver(h, chain, d, d[1..], other);
    var c := OptOutLinkOver(h, chain, WildcardName(d[1..]), d[1..], other);
    records := [a, b, c];
    ThreeListed(records, a, b, c, h(d[1..]), h(d), h(WildcardName(d[1..])));
  }

  lemma ThreeListed(records: seq<Record>, a: Record, b: Record, c: Record, x: Octets, y: Octets, z: Octets)
    requires records == [a, b, c] && OwnerHash(a) == Some(x) && HashCovers(b, y) && HashCovers(c, z)
    ensures OwnsHash(records, x) && FirstCovering(records, y).Some? && FirstCovering(records, z).Some?
  {
    assert a in records && b in records && c in records;
  }

  /** Records that own hashes other than those of d and the wildcard, but own the
      parent's and cover both, make the verdict Secure. */
  lemma CoveredDenies(h: Hasher, d: Name, qtype: RecordType, records: seq<Record>, hashes: set<Octets>)
    requires d != [] && qtype != DS && h(d) !in hashes && h(WildcardName(d[1..])) !in hashes
    requires forall r <- records :: OwnerHash(r).Some? && OwnerHash(r).value in hashes
    requires OwnsHash(records, h(d[1..]))
    requires FirstCovering(records, h(d)).Some? && FirstCovering(records, h(WildcardName(d[1..]))).Some?
    ensures Verdict(h, d, qtype, records) == Secure
  {
    assert !OwnsHash(records, h(d)) && !OwnsHash(records, h(WildcardName(d[1..])));
    NodataNone(h, d, qtype, records);
    ParentNearest(h, d, records);
    VerdictBelow(h, d, qtype, records, d[1..]);
    assert NextCloser(d, d[1..]) == d;
    DecideSettled(h, d, d[1..], qtype, records);
  }
}
