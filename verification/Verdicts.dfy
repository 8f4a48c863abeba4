/** The verdicts of both denial checkers read off the records shown, without the
    functions that compute them: which records decide, and which of them first. */
module Verdicts {
  import opened Order
  import opened Names
  import opened Records
  import opened Status
  import Nsec
  import Nsec3

  predicate Lacks(types: set<RecordType>, qtype: RecordType) {
    qtype !in types && CNAME !in types
  }

  /** The types settle a query at their name: they lack it, or they are an apex's and
      the query is for its own DS. */
  predicate Settle(types: set<RecordType>, qtype: RecordType) {
    Lacks(types, qtype) || (qtype == DS && SOA in types)
  }

  // ----- NSEC -----

  function Settling(qname: Name, qtype: RecordType): Record -> bool {
    (r: Record) => r.name == qname && r.data.NsecData? && Settle(r.data.types, qtype)
  }

  /** A link that is not an apex's answering for its own DS. */
  function NoApex(qtype: RecordType): Record -> bool {
    (r: Record) => !(qtype == DS && (r.data.NsecData? || r.data.Nsec3Data?) && SOA in r.data.types)
  }

  function OwnedBy(n: Name): Record -> bool {
    (r: Record) => r.name == n
  }

  /** The first link that settles the query at qname does not do so as an apex. */
  ghost predicate NoData(qname: Name, qtype: RecordType, records: seq<Record>) {
    FirstIs(records, Settling(qname, qtype), NoApex(qtype))
  }

  predicate NoneSettles(qname: Name, qtype: RecordType, records: seq<Record>) {
    forall r <- records :: !Settling(qname, qtype)(r)
  }

  lemma NodataCons(qname: Name, qtype: RecordType, records: seq<Record>)
    requires records != []
    ensures Nsec.CheckNodata(qname, qtype, records) ==
      if Settling(qname, qtype)(records[0]) then Some(if NoApex(qtype)(records[0]) then Secure else Bogus)
      else Nsec.CheckNodata(qname, qtype, records[1..])
  {
  }

  lemma {:induction false} NodataExactly(qname: Name, qtype: RecordType, records: seq<Record>)
    ensures Nsec.CheckNodata(qname, qtype, records) == Some(Secure) <==> NoData(qname, qtype, records)
    ensures Nsec.CheckNodata(qname, qtype, records) == None <==> NoneSettles(qname, qtype, records)
    ensures Nsec.CheckNodata(qname, qtype, records) in {None, Some(Secure), Some(Bogus)}
  {
    if records != [] {
      NodataExactly(qname, qtype, records[1..]);
      NodataCons(qname, qtype, records);
      FirstIsCons(records, Settling(qname, qtype), NoApex(qtype));
      NoneSettlesCons(qname, qtype, records);
    }
  }

  lemma NoneSettlesCons(qname: Name, qtype: RecordType, records: seq<Record>)
    requires records != []
    ensures NoneSettles(qname, qtype, records) <==>
      !Settling(qname, qtype)(records[0]) && NoneSettles(qname, qtype, records[1..])
  {
    assert records == [records[0]] + records[1..];
  }

  predicate OwnsRecord(records: seq<Record>, n: Name) {
    exists r <- records :: r.name == n
  }

  /** a is the deepest of the 16 nearest proper ancestors of qname that owns a record. */
  ghost predicate Encloses(qname: Name, records: seq<Record>, a: Name) {
    Nearby(qname, records, a) && forall b :: Nearby(qname, records, b) ==> |b| <= |a|
  }

  predicate Nearby(qname: Name, records: seq<Record>, a: Name) {
    ZoneOf(a, BaseName(qname)) && |BaseName(qname)| - |a| < 16 && OwnsRecord(records, a)
  }

  lemma EnclosesExactly(qname: Name, records: seq<Record>, a: Name)
    ensures Encloses(qname, records, a)
       <==> Nsec.NearestOwner(BaseName(qname), records, MAX_CLOSEST_ENCLOSER_STEPS) == Some(a)
  {
    var n := BaseName(qname);
    var nearest := Nsec.NearestOwner(n, records, MAX_CLOSEST_ENCLOSER_STEPS);
    assert forall b :: OwnsRecord(records, b) == Nsec.Owns(records, b);
    if Encloses(qname, records, a) {
      assert nearest.Some? && Nearby(qname, records, nearest.value);
      AncestorsNested(a, nearest.value, n);
    }
  }

  lemma {:induction false} FirstOwnedExactly(records: seq<Record>, n: Name, r: Record)
    ensures IsFirst(records, OwnedBy(n), r) <==> Nsec.FirstOwnedBy(records, n) == Some(r)
  {
    if records != [] {
      IsFirstCons(records, OwnedBy(n), r);
      FirstOwnedExactly(records[1..], n, r);
    }
  }

  /** Some link's open arc on the ring of names holds n. */
  predicate InArc(records: seq<Record>, n: Name) {
    exists r <- records ::
      r.data.NsecData? &&
      if NameLess(r.name, r.data.next) then NameLess(r.name, n) && NameLess(n, r.data.next)
      else NameLess(r.name, n) || NameLess(n, r.data.next)
  }

  /** The first record owned by n is a link that lacks the type. */
  ghost predicate ShownLacking(records: seq<Record>, n: Name, qtype: RecordType) {
    exists r :: IsFirst(records, OwnedBy(n), r) && r.data.NsecData? && Lacks(r.data.types, qtype)
  }

  lemma ShownLackingExactly(records: seq<Record>, n: Name, qtype: RecordType)
    ensures
      var first := Nsec.FirstOwnedBy(records, n);
      ShownLacking(records, n, qtype) <==> first.Some? && first.value.data.NsecData? && Lacks(first.value.data.types, qtype)
  {
    forall r { FirstOwnedExactly(records, n, r); }
  }

  /** NSEC, on the records: Secure when the first link settling the query at qname
      lacks the type; or when none settles it, qname lies in an arc, and the wildcard
      under the nearest owning ancestor is shown lacking the type or lies in an arc.
      Everything else is Bogus. */
  lemma NsecOnRecords(qname: Name, qtype: RecordType, records: seq<Record>)
    ensures Nsec.Verdict(qname, qtype, records) == Secure <==>
      || NoData(qname, qtype, records)
      || (&& NoneSettles(qname, qtype, records) && InArc(records, qname)
          && exists a :: Encloses(qname, records, a)
               && (ShownLacking(records, WildcardName(a), qtype) || InArc(records, WildcardName(a))))
    ensures Nsec.Verdict(qname, qtype, records) in {Secure, Bogus}
  {
    NodataExactly(qname, qtype, records);
    forall a { EnclosesExactly(qname, records, a); }
    var nearest := Nsec.NearestOwner(BaseName(qname), records, MAX_CLOSEST_ENCLOSER_STEPS);
    if nearest.Some? {
      UnderOnRecords(qname, qtype, nearest.value, records);
    }
  }

  lemma UnderOnRecords(qname: Name, qtype: RecordType, a: Name, records: seq<Record>)
    ensures Nsec.VerdictUnder(qname, qtype, a, records) ==
      if InArc(records, qname) && (ShownLacking(records, WildcardName(a), qtype) || InArc(records, WildcardName(a)))
      then Secure else Bogus
  {
    ShownLackingExactly(records, WildcardName(a), qtype);
    assert InArc(records, qname) == Nsec.Covered(records, qname);
    assert InArc(records, WildcardName(a)) == Nsec.Covered(records, WildcardName(a));
  }

  // ----- NSEC3 -----

  function OwnedByHash(x: Octets): Record -> bool {
    (r: Record) => Nsec3.OwnerHash(r) == Some(x)
  }

  function SettlingHashed(x: Octets, qtype: RecordType): Record -> bool {
    (r: Record) => Nsec3.OwnerHash(r) == Some(x) && r.data.Nsec3Data? && Settle(r.data.types, qtype)
  }

  predicate OwnsHashOf(h: Nsec3.Hasher, records: seq<Record>, n: Name) {
    exists r <- records :: Nsec3.OwnerHash(r) == Some(h(n))
  }

  ghost predicate HashedNoData(h: Nsec3.Hasher, qname: Name, qtype: RecordType, records: seq<Record>) {
    FirstIs(records, SettlingHashed(h(qname), qtype), NoApex(qtype))
  }

  lemma {:induction false} HashedNodataExactly(h: Nsec3.Hasher, qname: Name, qtype: RecordType, records: seq<Record>)
    ensures Nsec3.CheckNodata(h, qname, qtype, records) == Some(Secure) <==> HashedNoData(h, qname, qtype, records)
    ensures Nsec3.CheckNodata(h, qname, qtype, records) in {None, Some(Secure), Some(Bogus)}
  {
    if records != [] {
      HashedNodataExactly(h, qname, qtype, records[1..]);
      FirstIsCons(records, SettlingHashed(h(qname), qtype), NoApex(qtype));
    }
  }

  predicate Candidate(h: Nsec3.Hasher, qname: Name, records: seq<Record>, a: Name) {
    ZoneOf(a, qname) && |qname| - |a| < 16 && OwnsHashOf(h, records, a)
  }

  /** a is the deepest of the 16 names from qname upward whose hash owns a record; for
      a DS query that finds none, it is the parent. */
  ghost predicate EnclosesHashed(h: Nsec3.Hasher, qname: Name, qtype: RecordType, records: seq<Record>, a: Name) {
    if exists b :: Candidate(h, qname, records, b)
    then Candidate(h, qname, records, a) && forall b :: Candidate(h, qname, records, b) ==> |b| <= |a|
    else qtype == DS && a == BaseName(qname)
  }

  lemma EnclosesHashedExactly(h: Nsec3.Hasher, qname: Name, qtype: RecordType, records: seq<Record>, a: Name)
    ensures EnclosesHashed(h, qname, qtype, records, a) <==> Nsec3.EncloserUsed(h, qname, qtype, records) == Some(a)
  {
    var found := Nsec3.NearestHashed(h, qname, records, MAX_CLOSEST_ENCLOSER_STEPS);
    Nsec3.NearestIsOwner(h, qname, records, MAX_CLOSEST_ENCLOSER_STEPS);
    forall b | Candidate(h, qname, records, b) ensures found.Some? && |b| <= |found.value| {
      Nsec3.NearestIsDeepest(h, qname, records, MAX_CLOSEST_ENCLOSER_STEPS, b);
    }
    if found.Some? {
      assert Candidate(h, qname, records, found.value);
      if Candidate(h, qname, records, a) { AncestorsNested(a, found.value, qname); }
    }
  }

  lemma {:induction false} FirstOwnerExactly(records: seq<Record>, x: Octets, r: Record)
    ensures IsFirst(records, OwnedByHash(x), r) <==> Nsec3.FirstOwnedBy(records, x) == Some(r)
  {
    if records != [] {
      IsFirstCons(records, OwnedByHash(x), r);
      FirstOwnerExactly(records[1..], x, r);
    }
  }

  /** The arc of r, its own hash included, holds the hash x on the ring of hashes; an
      arc from a hash to itself is empty. */
  predicate ArcHolds(r: Record, x: Octets) {
    && r.data.Nsec3Data? && Nsec3.OwnerHash(r).Some?
    && var o, n := Nsec3.OwnerHash(r).value, r.data.nextHash;
       if o == n then false
       else if OctetsLess(o, n) then (o == x || OctetsLess(o, x)) && OctetsLess(x, n)
       else o == x || OctetsLess(o, x) || OctetsLess(x, n)
  }

  function Holding(x: Octets): Record -> bool {
    (r: Record) => ArcHolds(r, x)
  }

  lemma ArcHoldsExactly(r: Record, x: Octets)
    ensures ArcHolds(r, x) <==> Nsec3.HashCovers(r, x)
  {
    OctetsStrictTotal();
  }

  lemma {:induction false} FirstArcExactly(records: seq<Record>, x: Octets, r: Record)
    ensures IsFirst(records, Holding(x), r) <==> Nsec3.FirstCovering(records, x) == Some(r)
  {
    if records != [] {
      ArcHoldsExactly(records[0], x);
      IsFirstCons(records, Holding(x), r);
      FirstArcExactly(records[1..], x, r);
    }
  }

  predicate SomeArc(records: seq<Record>, x: Octets) {
    exists r <- records :: ArcHolds(r, x)
  }

  lemma SomeArcExactly(records: seq<Record>, x: Octets)
    ensures SomeArc(records, x) <==> Nsec3.FirstCovering(records, x).Some?
  {
    forall r ensures ArcHolds(r, x) <==> Nsec3.HashCovers(r, x) { ArcHoldsExactly(r, x); }
  }

  /** The first record owning n's hash is a link that lacks the type. */
  ghost predicate HashShownLacking(h: Nsec3.Hasher, records: seq<Record>, n: Name, qtype: RecordType) {
    exists r :: IsFirst(records, OwnedByHash(h(n)), r) && r.data.Nsec3Data? && Lacks(r.data.types, qtype)
  }

  /** The first record whose arc holds n's hash has the opt-out flag. */
  ghost predicate OptOutOver(h: Nsec3.Hasher, records: seq<Record>, n: Name) {
    exists r :: IsFirst(records, Holding(h(n)), r) && r.data.Nsec3Data? && r.data.flags % 2 == 1
  }

  lemma HashShownExactly(h: Nsec3.Hasher, records: seq<Record>, a: Name, qtype: RecordType)
    ensures HashShownLacking(h, records, WildcardName(a), qtype)
       <==> Nsec3.CheckWildcardNodata(h, a, qtype, records) == Some(Secure)
    ensures Nsec3.CheckWildcardNodata(h, a, qtype, records) in {None, Some(Secure)}
  {
    forall r { FirstOwnerExactly(records, h(WildcardName(a)), r); }
  }

  lemma OptOutOverExactly(h: Nsec3.Hasher, records: seq<Record>, n: Name)
    ensures
      var first := Nsec3.FirstCovering(records, h(n));
      OptOutOver(h, records, n) <==> first.Some? && first.value.data.flags % 2 == 1
  {
    forall r { FirstArcExactly(records, h(n), r); }
  }

  /** What the records decide below the encloser a, nc being its child toward the name:
      the wildcard's own record comes first, then opt-out for DS queries, and only then
      the arc over the wildcard. */
  ghost predicate Below(h: Nsec3.Hasher, nc: Name, a: Name, qtype: RecordType, records: seq<Record>, v: DnssecStatus) {
    var w := WildcardName(a);
    if HashShownLacking(h, records, w, qtype) then v == Secure
    else if !SomeArc(records, h(nc)) then v == Bogus
    else if qtype == DS && OptOutOver(h, records, nc) then v == InsecureUnsigned
    else v == if SomeArc(records, h(w)) then Secure else Bogus
  }

  /** NSEC3, on the records. A name whose hash owns a record is denied only by the first
      of its links that settles the query; any other name is judged below its encloser,
      and without one the verdict is Bogus. */
  lemma HashedOnRecords(h: Nsec3.Hasher, qname: Name, qtype: RecordType, records: seq<Record>)
    ensures OwnsHashOf(h, records, qname) ==>
      Nsec3.Verdict(h, qname, qtype, records) == if HashedNoData(h, qname, qtype, records) then Secure else Bogus
    ensures forall a | !OwnsHashOf(h, records, qname) && EnclosesHashed(h, qname, qtype, records, a) && |a| < |qname| ::
      Below(h, qname[|qname| - |a| - 1..], a, qtype, records, Nsec3.Verdict(h, qname, qtype, records))
    ensures !OwnsHashOf(h, records, qname) && (forall a :: !(EnclosesHashed(h, qname, qtype, records, a) && |a| < |qname|)) ==>
      Nsec3.Verdict(h, qname, qtype, records) == Bogus
  {
    if OwnsHashOf(h, records, qname) {
      HashedOwned(h, qname, qtype, records);
    } else {
      forall a | EnclosesHashed(h, qname, qtype, records, a) && |a| < |qname|
        ensures Below(h, qname[|qname| - |a| - 1..], a, qtype, records, Nsec3.Verdict(h, qname, qtype, records))
      {
        HashedBelow(h, qname, qtype, records, a);
      }
      if forall a :: !(EnclosesHashed(h, qname, qtype, records, a) && |a| < |qname|) {
        HashedAlone(h, qname, qtype, records);
      }
    }
  }

  lemma HashedOwned(h: Nsec3.Hasher, qname: Name, qtype: RecordType, records: seq<Record>)
    requires OwnsHashOf(h, records, qname)
    ensures Nsec3.Verdict(h, qname, qtype, records) == if HashedNoData(h, qname, qtype, records) then Secure else Bogus
  {
    HashedNodataExactly(h, qname, qtype, records);
    Nsec3.OwnedEncloser(h, qname, qtype, records);
  }

  lemma HashedBelow(h: Nsec3.Hasher, qname: Name, qtype: RecordType, records: seq<Record>, a: Name)
    requires !OwnsHashOf(h, records, qname) && EnclosesHashed(h, qname, qtype, records, a) && |a| < |qname|
    ensures Below(h, qname[|qname| - |a| - 1..], a, qtype, records, Nsec3.Verdict(h, qname, qtype, records))
  {
    Nsec3.NodataNone(h, qname, qtype, records);
    EnclosesHashedExactly(h, qname, qtype, records, a);
    BelowExactly(h, qname, a, qtype, records);
  }

  lemma HashedAlone(h: Nsec3.Hasher, qname: Name, qtype: RecordType, records: seq<Record>)
    requires !OwnsHashOf(h, records, qname)
    requires forall a :: !(EnclosesHashed(h, qname, qtype, records, a) && |a| < |qname|)
    ensures Nsec3.Verdict(h, qname, qtype, records) == Bogus
  {
    Nsec3.NodataNone(h, qname, qtype, records);
    Nsec3.EncloserIsProper(h, qname, qtype, records);
    var used := Nsec3.EncloserUsed(h, qname, qtype, records);
    if used.Some? {
      EnclosesHashedExactly(h, qname, qtype, records, used.value);
    }
  }

  lemma BelowExactly(h: Nsec3.Hasher, qname: Name, a: Name, qtype: RecordType, records: seq<Record>)
    requires Nsec3.CheckNodata(h, qname, qtype, records) == None
    requires Nsec3.EncloserUsed(h, qname, qtype, records) == Some(a) && |a| < |qname|
    ensures Below(h, qname[|qname| - |a| - 1..], a, qtype, records, Nsec3.Verdict(h, qname, qtype, records))
  {
    var nc, w := qname[|qname| - |a| - 1..], WildcardName(a);
    Nsec3.VerdictBelow(h, qname, qtype, records, a);
    HashShownExactly(h, records, a, qtype);
    SomeArcExactly(records, h(nc));
    SomeArcExactly(records, h(w));
    OptOutOverExactly(h, records, nc);
  }

  lemma OptOutHolds(h: Nsec3.Hasher, records: seq<Record>, n: Name)
    requires OptOutOver(h, records, n)
    ensures SomeArc(records, h(n))
  {
    FirstExists(records, Holding(h(n)));
  }

  /** What makes an insecure delegation below the encloser a. */
  ghost predicate InsecureBelow(h: Nsec3.Hasher, qname: Name, records: seq<Record>, a: Name) {
    && EnclosesHashed(h, qname, DS, records, a) && |a| < |qname|
    && !HashShownLacking(h, records, WildcardName(a), DS)
    && OptOutOver(h, records, qname[|qname| - |a| - 1..])
  }

  /** An insecure delegation is answered exactly to a DS query for a name that owns no
      record, below an encloser whose wildcard is not shown to lack the DS, when the
      first arc over the next closer name belongs to an opt-out record. */
  lemma InsecureExactly(h: Nsec3.Hasher, qname: Name, qtype: RecordType, records: seq<Record>)
    ensures Nsec3.Verdict(h, qname, qtype, records) == InsecureUnsigned <==>
      qtype == DS && !OwnsHashOf(h, records, qname) && exists a :: InsecureBelow(h, qname, records, a)
  {
    HashedOnRecords(h, qname, qtype, records);
    if a :| InsecureBelow(h, qname, records, a) {
      OptOutHolds(h, records, qname[|qname| - |a| - 1..]);
    }
    if Nsec3.Verdict(h, qname, qtype, records) == InsecureUnsigned {
      var a :| EnclosesHashed(h, qname, qtype, records, a) && |a| < |qname|;
      assert Below(h, qname[|qname| - |a| - 1..], a, qtype, records, InsecureUnsigned);
      assert InsecureBelow(h, qname, records, a);
    }
  }

  /** So an opt-out answer needs no record about the wildcard: the encloser's record, and
      records with the flag over the next closer name, are enough. */
  lemma OptOutSuffices(h: Nsec3.Hasher, qname: Name, records: seq<Record>, a: Name)
    requires !OwnsHashOf(h, records, qname) && EnclosesHashed(h, qname, DS, records, a) && |a| < |qname|
    requires !OwnsHashOf(h, records, WildcardName(a)) && SomeArc(records, h(qname[|qname| - |a| - 1..]))
    requires forall r <- records :: ArcHolds(r, h(qname[|qname| - |a| - 1..])) ==> r.data.flags % 2 == 1
    ensures Nsec3.Verdict(h, qname, DS, records) == InsecureUnsigned
  {
    AllOptOut(h, records, qname[|qname| - |a| - 1..]);
    FirstExists(records, OwnedByHash(h(WildcardName(a))));
    assert InsecureBelow(h, qname, records, a);
    InsecureExactly(h, qname, DS, records);
  }

  lemma AllOptOut(h: Nsec3.Hasher, records: seq<Record>, n: Name)
    requires SomeArc(records, h(n)) && forall r <- records :: ArcHolds(r, h(n)) ==> r.data.flags % 2 == 1
    ensures OptOutOver(h, records, n)
  {
    FirstExists(records, Holding(h(n)));
  }
}
