/** How far an accepted negative answer reaches: which name it speaks of, whether the
    zone behind it holds that name, and whether a denied DS means a delegation.
    Exact conditions, each with the input that fails. */
module Scope {
  import opened Order
  import opened Names
  import opened Records
  import opened Status
  import opened Tbs
  import opened Trust
  import opened Redirection
  import opened Authenticity
  import opened Worlds
  import opened Expansion
  import opened Engine
  import opened Service
  import Circular
  import Nsec
  import Resolver

  // ----- The name -----

  /** No CNAME record ends the answers' aliases, or the last one leads to qname. */
  predicate EndsAt(answers: seq<Record>, qname: Name) {
    forall i | 0 <= i < |answers| && answers[i].Type() == CNAME && NoAliasAfter(answers, i) ::
      answers[i].data.CnameData? ==> answers[i].data.target == qname
  }

  predicate NoAliasAfter(answers: seq<Record>, i: nat) {
    forall j | i < j < |answers| :: answers[j].Type() != CNAME
  }

  lemma {:induction false} EndsAtExactly(answers: seq<Record>, qname: Name)
    ensures FinalTarget(answers, qname) == qname <==> EndsAt(answers, qname)
  {
    if answers != [] {
      var init, k := answers[..|answers| - 1], |answers| - 1;
      EndsAtExactly(init, qname);
      if answers[k].Type() == CNAME {
        assert NoAliasAfter(answers, k);
      } else {
        forall i: nat | i < k ensures NoAliasAfter(answers, i) <==> NoAliasAfter(init, i) {
          assert forall j | i < j < k :: answers[j] == init[j];
        }
        assert forall i | 0 <= i < k :: answers[i] == init[i];
      }
    }
  }

  /** The failing input: one alias record that nobody signed moves a genuine denial of
      its target to any query name, when the resolver merges the two. */
  lemma AliasMoves(prim: Primitives, hop: Message, final: Message, qname: Name, target: Name, t: RecordType)
    requires hop.answers == [At(qname, CnameData(target))] && hop.authority == []
    requires final.code.NXDomain? && final.answers == [] && SecureProof(prim, Key(target, t), final)
    ensures SecureProof(prim, Key(qname, t), Resolver.Merge(hop, final))
  {
    var merged := Resolver.Merge(hop, final);
    assert merged.answers == hop.answers && merged.authority == final.authority;
    OneAlias(hop.answers, qname, target);
    DenialMoves(prim, final, merged, qname, target, t);
  }

  lemma OneAlias(answers: seq<Record>, qname: Name, target: Name)
    requires answers == [At(qname, CnameData(target))]
    ensures FinalTarget(answers, qname) == target
  {
  }

  /** The denial depends on the query name only through the last alias target. */
  lemma DenialMoves(prim: Primitives, final: Message, merged: Message, qname: Name, target: Name, t: RecordType)
    requires NegativeAccepted(prim, final, target, t, Secure) && merged.authority == final.authority
    requires FinalTarget(final.answers, target) == target && FinalTarget(merged.answers, qname) == target
    ensures NegativeAccepted(prim, merged, qname, t, Secure)
  {
    var zone, keys :| NegativeProven(prim, zone, keys, final, target, t, Secure);
    assert NegativeProven(prim, zone, keys, merged, qname, t, Secure);
  }

  /** A zone at or above qname that a SOA of the message names denies qname itself. */
  ghost predicate DeniesItself(prim: Primitives, reg: Registry, zone: Name, msg: Message, qname: Name, qtype: RecordType) {
    && (exists soa <- msg.authority :: soa.data.SoaData? && soa.name == zone)
    && ZoneOf(zone, qname) && DenialTruth(prim, reg, zone, qname, qtype, msg.authority)
  }

  /** Whenever a message with these answers is accepted as a Secure denial, and the
      zones concerned are honest, one of them denies qname itself. */
  ghost predicate AlwaysItself(qname: Name, qtype: RecordType, answers: seq<Record>) {
    forall prim, w, reg, msg: Message
      | msg.answers == answers && Unforgeable(prim, w) && HonestAbout(prim, w, reg, msg, qname)
        && NegativeAccepted(prim, msg, qname, qtype, Secure)
      :: exists zone :: DeniesItself(prim, reg, zone, msg, qname, qtype)
  }

  /** A Secure negative answer speaks of the query name if and only if its answers
      hold no CNAME record or the last one leads to that name. */
  lemma ItselfExactly(qname: Name, qtype: RecordType, answers: seq<Record>)
    requires ValidName(FinalTarget(answers, qname))
    ensures AlwaysItself(qname, qtype, answers) <==> EndsAt(answers, qname)
  {
    EndsAtExactly(answers, qname);
    if EndsAt(answers, qname) {
      forall prim, w, reg, msg: Message
        | msg.answers == answers && Unforgeable(prim, w) && HonestAbout(prim, w, reg, msg, qname)
          && NegativeAccepted(prim, msg, qname, qtype, Secure)
        ensures exists zone :: DeniesItself(prim, reg, zone, msg, qname, qtype)
      {
        ItselfDenied(prim, w, reg, msg, qname, qtype);
      }
    } else {
      var prim, w, reg, msg := OtherDenied(qname, qtype, answers);
    }
  }

  lemma ItselfDenied(prim: Primitives, w: World, reg: Registry, msg: Message, qname: Name, qtype: RecordType)
    requires Unforgeable(prim, w) && HonestAbout(prim, w, reg, msg, qname)
    requires NegativeAccepted(prim, msg, qname, qtype, Secure) && FinalTarget(msg.answers, qname) == qname
    ensures exists zone :: DeniesItself(prim, reg, zone, msg, qname, qtype)
  {
    NegativeGenuine(prim, w, reg, msg, qname, qtype);
    var zone :| DeniedBy(prim, reg, zone, msg, qname, qtype);
    assert DeniesItself(prim, reg, zone, msg, qname, qtype);
  }

  lemma {:induction false} LabelsFit(n: Name)
    ensures |n| < WireLength(n)
  {
    if n != [] {
      LabelsFit(n[1..]);
    }
  }

  /** A world where the last alias target is rightly denied and qname has the type. */
  lemma OtherDenied(qname: Name, qtype: RecordType, answers: seq<Record>)
    returns (prim: Primitives, w: World, reg: Registry, msg: Message)
    requires FinalTarget(answers, qname) != qname && ValidName(FinalTarget(answers, qname))
    ensures msg.answers == answers && Unforgeable(prim, w) && HonestAbout(prim, w, reg, msg, qname)
    ensures NegativeAccepted(prim, msg, qname, qtype, Secure)
    ensures !exists zone :: DeniesItself(prim, reg, zone, msg, qname, qtype)
  {
    var target := FinalTarget(answers, qname);
    LabelsFit(target);
    var soa, link, other := Pub([], SoaData([])), Pub(target, NsecData(qname, {})), Pub(qname, Raw(qtype, []));
    assert other.data.Type() == qtype;
    prim, w := ExampleWorld(soa, link, other);
    NextNotCovered(target, qname);
    var z := ZoneWith(target, qname, {}, qname, qtype);
    reg := RootChain(z);
    ExampleChains(prim, w, soa, link, other, z);
    msg := Message(NXDomain, false, answers, Proof(link), []);
    ProofProves(prim, link);
    ProofAccepts(prim, link, msg, qname, qtype);
    forall zone ensures !DeniesItself(prim, reg, zone, msg, qname, qtype) {
      ProofSpeaks(prim, z, link, msg, qname, qtype, zone);
    }
  }

  lemma NextNotCovered(o: Name, n: Name)
    ensures !Nsec.NsecCovers(o, n, n)
  {
    NameStrictTotal();
  }

  /** The root's SOA and a link, each with its signature. */
  function Proof(link: Pub): seq<Record>
    requires CountedLabels(link.owner) < 256
  {
    SignedRecord([], 0, SoaData([])) + SignedRecord(link.owner, CountedLabels(link.owner), link.data)
  }

  /** p's record with its signature among others of other types. */
  ghost predicate Alone(section: seq<Record>, p: Pub) {
    && CountedLabels(p.owner) < 256 && RrsetOf(section, p.owner, p.data.Type()) == [At(p.owner, p.data)]
    && SigsAt(section, p.owner, p.data.Type()) == [SigOver(p.data.Type(), CountedLabels(p.owner))]
  }

  lemma AloneVouched(prim: Primitives, section: seq<Record>, p: Pub)
    requires Alone(section, p) && Shows(prim, p) && prim.isReading(1)
    ensures RecordVouched(prim, [KEY], At(p.owner, p.data), section)
  {
    ShowsAt(prim, p, p.owner, CountedLabels(p.owner));
    var sig := SigOver(p.data.Type(), CountedLabels(p.owner));
    assert Vouched(prim, [KEY], [sig], p.owner, [At(p.owner, p.data)]);
  }

  lemma SoaAlone(link: Pub)
    requires Plain(link) && link.data.NsecData?
    ensures Alone(Proof(link), Pub([], SoaData([])))
  {
    var a, b := SignedRecord([], 0, SoaData([])), SignedRecord(link.owner, CountedLabels(link.owner), link.data);
    AppendedParts(a, b, [], SOA);
    SignedParts([], 0, SoaData([]));
    OthersAbsent(link.owner, CountedLabels(link.owner), link.data, [], SOA);
  }

  lemma LinkAlone(link: Pub)
    requires Plain(link) && link.data.NsecData?
    ensures Alone(Proof(link), link)
  {
    var a, b := SignedRecord([], 0, SoaData([])), SignedRecord(link.owner, CountedLabels(link.owner), link.data);
    AppendedParts(a, b, link.owner, NSEC);
    SignedParts(link.owner, CountedLabels(link.owner), link.data);
    OthersAbsent([], 0, SoaData([]), link.owner, NSEC);
  }

  lemma OthersAbsent(owner: Name, labels: Octet, d: RData, n: Name, t: RecordType)
    requires d.Type() != t && t != RRSIG && d.Type() != RRSIG
    ensures RrsetOf(SignedRecord(owner, labels, d), n, t) == [] && SigsAt(SignedRecord(owner, labels, d), n, t) == []
  {
    var s := SignedRecord(owner, labels, d);
    assert s[1..] == [s[1]] && [s[1]][1..] == [];
    assert RrsetOf([s[1]], n, t) == [] && SigsAt([s[1]], n, t) == [];
  }

  /** Only the third of four records is an NSEC record. */
  lemma OneOfFour(a: Record, b: Record, c: Record, d: Record)
    requires a.Type() != NSEC && b.Type() != NSEC && c.Type() == NSEC && d.Type() != NSEC
    ensures FirstOfType([a, b, c, d], NSEC, 8) == [c]
  {
    var s := [a, b, c, d];
    assert s[1..] == [b, c, d] && [b, c, d][1..] == [c, d] && [c, d][1..] == [d] && [d][1..] == [];
    assert FirstOfType([d], NSEC, 7) == [];
    assert FirstOfType([c, d], NSEC, 8) == [c];
    assert FirstOfType([b, c, d], NSEC, 8) == [c];
  }

  lemma ProofDenials(link: Pub)
    requires Plain(link) && link.data.NsecData?
    ensures NsecRecords(Proof(link)) == [At(link.owner, link.data)]
    ensures HasType(Proof(link), NSEC) && !HasType(Proof(link), NSEC3)
    ensures forall r <- Proof(link) :: r.data.SoaData? ==> r.name == []
    ensures At([], SoaData([])) in Proof(link)
  {
    var s := Proof(link);
    assert s == [s[0], s[1], s[2], s[3]];
    OneOfFour(s[0], s[1], s[2], s[3]);
    assert s[0] in s && s[2] in s;
  }

  /** A section that proves no more than its SOA, the root's, and this link. */
  ghost predicate Proves(prim: Primitives, authority: seq<Record>, link: Pub) {
    && At([], SoaData([])) in authority && (forall r <- authority :: r.data.SoaData? ==> r.name == [])
    && NsecRecords(authority) == [At(link.owner, link.data)]
    && HasType(authority, NSEC) && !HasType(authority, NSEC3)
    && RecordVouched(prim, [KEY], At([], SoaData([])), authority)
    && RecordVouched(prim, [KEY], At(link.owner, link.data), authority)
    && (forall sig <- SigsAt(authority, link.owner, NSEC) :: sig.labels == CountedLabels(link.owner))
  }

  lemma ProofProves(prim: Primitives, link: Pub)
    requires Plain(link) && link.data.NsecData? && prim.isReading(1)
    requires Shows(prim, Pub([], SoaData([]))) && Shows(prim, link)
    ensures Proves(prim, Proof(link), link)
  {
    SoaAlone(link);
    LinkAlone(link);
    AloneVouched(prim, Proof(link), Pub([], SoaData([])));
    AloneVouched(prim, Proof(link), link);
    ProofDenials(link);
  }

  lemma ProofAccepts(prim: Primitives, link: Pub, msg: Message, qname: Name, qtype: RecordType)
    requires link.data.NsecData? && link.data.types == {} && Proves(prim, msg.authority, link)
    requires FinalTarget(msg.answers, qname) == link.owner && Derived(prim, [], [KEY])
    ensures NegativeAccepted(prim, msg, qname, qtype, Secure)
  {
    var r := At(link.owner, link.data);
    assert Nsec.Verdict(link.owner, qtype, [r]) == Secure;
    assert Denied(prim, [KEY], link.owner, qtype, msg.authority, Secure);
    assert NegativeProven(prim, [], [KEY], msg, qname, qtype, Secure);
  }

  lemma ProofSpeaks(prim: Primitives, z: Nsec.Zone, link: Pub, msg: Message, qname: Name, qtype: RecordType, zone: Name)
    requires link.data.NsecData? && Proves(prim, msg.authority, link) && Nsec.Present(z, qname, qtype)
    ensures !DeniesItself(prim, RootChain(z), zone, msg, qname, qtype)
  {
    assert Unexpanded(link.owner, NSEC, msg.authority);
    assert DenialUnexpanded(msg.authority);
  }

  /** In every run: a negative hit answered with AD set, whose aliases end at the name
      asked for, denies that name itself, if the zones above it are honest. */
  lemma AdDeniesKey(prim: Primitives, w: World, reg: Registry, states: seq<State>, steps: seq<Engine.Step>,
                    maxStale: nat, i: nat,
                    key: Key, at: nat, req: Request)
    requires IsRun(states, steps, maxStale, Proofs(prim)) && i < |steps| && steps[i] == Hit(key, at) && key in states[i].cache
    requires HitResponse(states[i].cache[key], at, maxStale, req).authenticData && !Positive(states[i].cache[key].msg)
    requires Unforgeable(prim, w) && HonestAbout(prim, w, reg, states[i].cache[key].msg, key.name)
    requires EndsAt(states[i].cache[key].msg.answers, key.name)
    ensures exists zone :: DeniesItself(prim, reg, zone, states[i].cache[key].msg, key.name, key.rtype)
  {
    EndsAtExactly(states[i].cache[key].msg.answers, key.name);
    AdOnlyWhileSigned(states, steps, maxStale, Proofs(prim), i, key, at, req);
    assert Proven(prim, key, states[i].cache[key].msg, Secure);
    ItselfDenied(prim, w, reg, states[i].cache[key].msg, key.name, key.rtype);
  }

  // ----- The zone -----

  /** The NSEC records of an accepted denial that was not expanded come from the zone
      that holds the name exactly when none sits at a delegation above it. */
  lemma HeldGenuine(prim: Primitives, w: World, reg: Registry, zone: Name, keys: seq<Dnskey>,
                    qname: Name, qtype: RecordType, authority: seq<Record>)
    requires HonestDenial(prim, w, reg, zone, keys, qname, qtype, authority)
    requires Nsec.Proper(reg.nsec(zone)) && !HasType(authority, NSEC3) && DenialUnexpanded(authority)
    ensures Nsec.Delegated(reg.nsec(zone), qname, qtype) <==> Nsec.FromAbove(NsecRecords(authority), qname, qtype)
  {
    var links := DenialGenuine(prim, w, reg, zone, keys, qname, qtype, authority);
    UnexpandedSources(links, authority);
    Nsec.HeldExactly(reg.nsec(zone), links, qname, qtype);
  }

  // ----- Denied DS -----

  /** A zone in which n has these types and its link leads to next. */
  lemma LinkZone(n: Name, next: Name, types: set<RecordType>) returns (z: Nsec.Zone)
    ensures n in z && z[n] == types && Nsec.OnChain(z, At(n, NsecData(next, types)))
  {
    NameStrictTotal();
    z := map[next := {}, n := types];
    assert z.Keys == {n, next};
  }

  /** Whenever such a section denies the DS RRset at n for an honest zone, that zone
      has a delegation at n. */
  ghost predicate AlwaysCut(n: Name, labels: Octet, next: Name, types: set<RecordType>) {
    forall prim, w, reg, zone, keys, authority
      | HonestDenial(prim, w, reg, zone, keys, n, DS, authority) && OneNsec(authority, n, labels, next, types)
      :: Nsec.IsDelegation(reg.nsec(zone), n)
  }

  /** An NSEC record of n that denies DS shows a delegation, and not an ordinary name,
      if and only if its types have NS and not SOA. */
  lemma CutExact(n: Name, next: Name, types: set<RecordType>)
    requires Decides(DS, types) && CountedLabels(n) < 256
    ensures AlwaysCut(n, CountedLabels(n), next, types) <==> IsCut(types)
  {
    if IsCut(types) {
      forall prim, w, reg, zone, keys, authority
        | HonestDenial(prim, w, reg, zone, keys, n, DS, authority) && OneNsec(authority, n, CountedLabels(n), next, types)
        ensures Nsec.IsDelegation(reg.nsec(zone), n)
      {
        var links := DenialGenuine(prim, w, reg, zone, keys, n, DS, authority);
        OneSource(links, authority, n, CountedLabels(n), next, types);
        assert Nsec.OnChain(reg.nsec(zone), links[0]);
      }
    } else {
      var other := Pub(n, Raw(A, []));
      var prim, w, reg, authority := OrdinaryDenial(n, next, types, other);
    }
  }

  /** An honest world in which n is no delegation and its own link denies the DS. */
  lemma OrdinaryDenial(n: Name, next: Name, types: set<RecordType>, other: Pub)
    returns (prim: Primitives, w: World, reg: Registry, authority: seq<Record>)
    requires Decides(DS, types) && CountedLabels(n) < 256 && !IsCut(types)
    requires other.data.Raw? || other.data.AData?
    ensures HonestDenial(prim, w, reg, [], [KEY], n, DS, authority) && OneNsec(authority, n, CountedLabels(n), next, types)
    ensures !Nsec.IsDelegation(reg.nsec([]), n)
    ensures w.publishes([], other.owner, other.data.Type(), [At(other.owner, other.data)])
  {
    var link := Pub(n, NsecData(next, types));
    prim, w := ExampleWorld(link, link, other);
    var z := LinkZone(n, next, types);
    reg := RootChain(z);
    ExampleChains(prim, w, link, link, other, z);
    authority := LinkDenies(prim, link, CountedLabels(n), n, DS);
    ExampleDenial(prim, w, reg, link, link, other, n, DS, authority);
  }

  lemma {:induction false} NsecNotUnsigned(qname: Name, qtype: RecordType, records: seq<Record>)
    ensures Nsec.CheckNodata(qname, qtype, records) != Some(InsecureUnsigned)
  {
    if records != [] {
      NsecNotUnsigned(qname, qtype, records[1..]);
    }
  }

  /** What proves a zone unsigned under an honest parent, where NSEC records do: the
      parent has delegated it without a supported DS if and only if a link of the zone
      with NS and without SOA is among the records. */
  lemma UnsignedGenuine(prim: Primitives, w: World, reg: Registry, zone: Name, parentKeys: seq<Dnskey>, section: seq<Record>)
    requires UnsignedAt(prim, zone, parentKeys, section)
    requires Unforgeable(prim, w) && HonestPath(w, zone[1..]) && ChainsTrue(prim, w, reg, zone[1..])
    requires !HasType(section, NSEC3) && DenialUnexpanded(section)
    ensures
      || (DsStep(prim, zone, parentKeys, section) && SupportedAnchors(DsAt(section, zone)) == [])
      || (Nsec.IsDelegation(reg.nsec(zone[1..]), zone) <==> Nsec.ShowsCut(NsecRecords(section), zone))
  {
    if status :| Denied(prim, parentKeys, zone, DS, section, status) {
      NsecNotUnsigned(zone, DS, NsecRecords(section));
      var links := DenialGenuine(prim, w, reg, zone[1..], parentKeys, zone, DS, section);
      UnexpandedSources(links, section);
      Nsec.CutExactly(reg.nsec(zone[1..]), links, zone);
    }
  }

  lemma PlainAnswer(n: Name, r: Record)
    requires r.name == n && r.Type() == A
    ensures ChainOf(n, A, [r]) == Complete([])
  {
    assert [r][1..] == [];
    assert CnameTarget([r], n) == None;
    FirstSomeNone([r], RewriteOf(n));
  }

  /** At a name proven unsigned an address without a signature needs no other proof. */
  lemma UnsignedAnswer(prim: Primitives, n: Name, forged: RData)
    requires ProvenUnsigned(prim, n) && forged.Type() == A
    ensures UnsignedProof(prim, Key(n, A), Message(NoError, false, [At(n, forged)], [], []))
  {
    PlainAnswer(n, At(n, forged));
    assert Involved(n, n, A, [At(n, forged)]);
  }

  /** The failing input: a name directly below the root is an ordinary one with an
      address. Its own genuine NSEC record, shown for a DS query, proves it unsigned,
      and any address without a signature is then accepted as one of an unsigned zone. */
  lemma OrdinaryUnsigned(l: Label, next: Name, address: RData)
    returns (prim: Primitives, w: World, reg: Registry, section: seq<Record>)
    requires address.AData?
    ensures HonestDenial(prim, w, reg, [], [KEY], [l], DS, section) && !Nsec.IsDelegation(reg.nsec([]), [l])
    ensures w.publishes([], [l], A, [At([l], address)])
    ensures ProvenUnsigned(prim, [l])
    ensures forall forged: RData | forged.Type() == A ::
      UnsignedProof(prim, Key([l], A), Message(NoError, false, [At([l], forged)], [], []))
  {
    prim, w, reg, section := OrdinaryDenial([l], next, {A}, Pub([l], address));
    RootCut(prim, l, section);
    forall forged: RData | forged.Type() == A
      ensures UnsignedProof(prim, Key([l], A), Message(NoError, false, [At([l], forged)], [], []))
    {
      UnsignedAnswer(prim, [l], forged);
    }
  }

  lemma RootCut(prim: Primitives, l: Label, section: seq<Record>)
    requires Derived(prim, [], [KEY]) && Denied(prim, [KEY], [l], DS, section, Secure)
    ensures ProvenUnsigned(prim, [l])
  {
    assert [l][1..] == [] && ZoneOf([l], [l]);
    assert UnsignedAt(prim, [l], [KEY], section);
  }
}
