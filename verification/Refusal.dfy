/** Why a validation ends without trust. Every reason is read off the record of
    that validation: what upstream answered, which keys each zone was held to
    have, which keys each signature was tried with, and the span of clock readings. */
module Refusal {
  import opened Names
  import opened Records
  import opened Status
  import opened Trust
  import opened Redirection
  import opened Tbs
  import opened History
  import opened Serial
  import opened Ttl

  // ----- Signatures -----

  ghost predicate FailsDuring(prim: Primitives, sig: Rrsig, key: Dnskey, owner: Name, rrset: seq<Record>, start: nat,
                              end: nat) {
    exists now: nat :: start <= now <= end && prim.isReading(now) && !Verifies(prim, sig, key, owner, rrset, now)
  }

  /** Every tag-matching pair was tried at a reading from start to end and failed. */
  ghost predicate Rejected(prim: Primitives, keys: seq<Dnskey>, sigs: seq<Rrsig>, owner: Name,
                           rrset: seq<Record>, start: nat, end: nat) {
    forall sig, key {:trigger FailsDuring(prim, sig, key, owner, rrset, start, end)}
      | sig in sigs && key in keys && prim.keyTag(key) == sig.keyTag ::
      FailsDuring(prim, sig, key, owner, rrset, start, end)
  }

  lemma RejectedLater(prim: Primitives, keys: seq<Dnskey>, sigs: seq<Rrsig>, owner: Name, rrset: seq<Record>,
                      start: nat, end: nat, later: nat)
    requires end <= later && Rejected(prim, keys, sigs, owner, rrset, start, end)
    ensures Rejected(prim, keys, sigs, owner, rrset, start, later)
  {
    forall sig <- sigs, key <- keys | prim.keyTag(key) == sig.keyTag
      ensures FailsDuring(prim, sig, key, owner, rrset, start, later)
    {
      assert FailsDuring(prim, sig, key, owner, rrset, start, end);
    }
  }

  ghost predicate RecordRejected(prim: Primitives, keys: seq<Dnskey>, r: Record, section: seq<Record>, start: nat, end: nat) {
    Rejected(prim, keys, SigsAt(section, r.name, r.Type()), r.name, RrsetOf(section, r.name, r.Type()), start, end)
  }

  ghost predicate SomeRejected(prim: Primitives, keys: seq<Dnskey>, records: seq<Record>, section: seq<Record>,
                               start: nat, end: nat) {
    exists r <- records :: RecordRejected(prim, keys, r, section, start, end)
  }

  /** The verdict is what the records shown deserve, or Bogus because one of them
      does not verify. */
  ghost predicate DenialRefused(prim: Primitives, keys: seq<Dnskey>, qname: Name, qtype: RecordType,
                                authority: seq<Record>, status: DnssecStatus, start: nat, end: nat) {
    || status == DenialVerdict(prim, qname, qtype, authority)
    || (status.Bogus? && SomeRejected(prim, keys, DenialRecords(authority), authority, start, end))
  }

  /** The records shown do not deny the query, or one of them does not verify. */
  ghost predicate DenialFails(prim: Primitives, keys: seq<Dnskey>, qname: Name, qtype: RecordType,
                              authority: seq<Record>, start: nat, end: nat) {
    || !Cacheable(DenialVerdict(prim, qname, qtype, authority))
    || SomeRejected(prim, keys, DenialRecords(authority), authority, start, end)
  }

  lemma RefusalIsFailure(prim: Primitives, keys: seq<Dnskey>, qname: Name, qtype: RecordType, authority: seq<Record>,
                         status: DnssecStatus, start: nat, end: nat)
    requires !Cacheable(status) && DenialRefused(prim, keys, qname, qtype, authority, status, start, end)
    ensures DenialFails(prim, keys, qname, qtype, authority, start, end)
  {
  }

  // ----- Chains -----

  /** A DS response that neither extends the chain nor ends it in an unsigned zone. */
  ghost predicate DsFails(prim: Primitives, zone: Name, parentKeys: seq<Dnskey>, msg: Message, start: nat, end: nat) {
    if DsAt(msg.answers, zone) == []
    then DenialFails(prim, parentKeys, zone, DS, msg.authority, start, end)
    else Rejected(prim, parentKeys, SigsCovering(msg.answers, DS), zone, RrsetOf(msg.answers, zone, DS), start, end)
  }

  /** A DNSKEY response none of whose anchored keys verifies it. */
  ghost predicate KeysFail(prim: Primitives, zone: Name, anchors: seq<Anchor>, msg: Message, start: nat, end: nat) {
    forall sig, key {:trigger FailsDuring(prim, sig, key, zone, RrsetOf(msg.answers, zone, DNSKEY), start, end)}
      | sig in SigsCovering(msg.answers, DNSKEY) && key in KeysAt(msg.answers, zone)
        && MatchesAnchor(prim, zone, key, anchors) && prim.keyTag(key) == sig.keyTag ::
      FailsDuring(prim, sig, key, zone, RrsetOf(msg.answers, zone, DNSKEY), start, end)
  }

  /** The log ends with a DS query for zone, made when the walk held these keys
      for its parent, and this answer. */
  ghost predicate EndsWithDs(prim: Primitives, log: Log, zone: Name, parentKeys: seq<Dnskey>, answer: Option<Message>) {
    && zone != [] && log.Then? && log.last == Asked(zone, DS, answer)
    && EndsHeld(log.before, zone[1..], parentKeys) && Derived(prim, zone[1..], parentKeys)
  }

  /** anchors are what zone's keys are to be checked against at this point of the
      log: the root's, or those of the DS set just received and verified. */
  ghost predicate AnchorsNow(prim: Primitives, log: Log, zone: Name, anchors: seq<Anchor>) {
    if zone == [] then anchors == prim.rootAnchors
    else exists parentKeys, msg ::
      && EndsWithDs(prim, log, zone, parentKeys, Some(msg)) && DsStep(prim, zone, parentKeys, msg.answers)
      && anchors == SupportedAnchors(DsAt(msg.answers, zone))
  }

  /** A DNSKEY set that verifies against them extends the derivation. */
  lemma DerivedNow(prim: Primitives, log: Log, zone: Name, anchors: seq<Anchor>, answers: seq<Record>,
                   matched: seq<Dnskey>, keys: seq<Dnskey>)
    requires AnchorsNow(prim, log, zone, anchors) && KeyStep(prim, zone, anchors, answers, matched, keys)
    ensures Derived(prim, zone, keys)
  {
    var parentKeys, ds := [], [];
    if zone != [] {
      var pk, msg :|
        && EndsWithDs(prim, log, zone, pk, Some(msg)) && DsStep(prim, zone, pk, msg.answers)
        && anchors == SupportedAnchors(DsAt(msg.answers, zone));
      parentKeys, ds := pk, msg.answers;
    }
    ExtendDerivation(prim, zone, parentKeys, ds, anchors, answers, matched, keys);
  }

  lemma AnchorsAreNow(prim: Primitives, log: Log, zone: Name, parentKeys: seq<Dnskey>, msg: Message, anchors: seq<Anchor>)
    requires EndsWithDs(prim, log, zone, parentKeys, Some(msg)) && DsStep(prim, zone, parentKeys, msg.answers)
    requires anchors == SupportedAnchors(DsAt(msg.answers, zone))
    ensures AnchorsNow(prim, log, zone, anchors)
  {
  }

  /** The DS response that ends the log proves zone unsigned under the keys held for its
      parent, and says so for ttl seconds. */
  ghost predicate ShownUnsigned(prim: Primitives, zone: Name, log: Log, ttl: U32) {
    && log.Then? && log.last.Asked? && log.last.answer.Some? && log.before.Then? && log.before.last.Held?
    && var parentKeys, msg := log.before.last.keys, log.last.answer.value;
       && EndsWithDs(prim, log, zone, parentKeys, Some(msg))
       && CutUnsigned(prim, zone, parentKeys, DsSection(msg, zone)) && ttl == MinTtl(msg)
  }

  lemma ShownIsProven(prim: Primitives, zone: Name, target: Name, log: Log, ttl: U32)
    requires ZoneOf(zone, target) && ShownUnsigned(prim, zone, log, ttl)
    ensures ProvenUnsigned(prim, target)
  {
    assert UnsignedAt(prim, zone, log.before.last.keys, DsSection(log.last.answer.value, zone));
  }

  /** The walk to target ended at a zone that its last query showed to be unsigned. */
  ghost predicate WalkUnsigned(prim: Primitives, target: Name, log: Log, ttl: U32) {
    log.Then? && log.last.Asked? && ZoneOf(log.last.name, target) && ShownUnsigned(prim, log.last.name, log, ttl)
  }

  lemma WalkIsProven(prim: Primitives, target: Name, log: Log, ttl: U32)
    requires WalkUnsigned(prim, target, log, ttl)
    ensures ProvenUnsigned(prim, target)
  {
    ShownIsProven(prim, log.last.name, target, log, ttl);
  }

  /** The DS query that ends the log went unanswered or its answer fails. */
  ghost predicate DsBreaks(prim: Primitives, zone: Name, parentKeys: seq<Dnskey>, answer: Option<Message>, ev: Evidence) {
    && EndsWithDs(prim, ev.log, zone, parentKeys, answer)
    && (answer.Some? ==> DsFails(prim, zone, parentKeys, answer.value, ev.start, ev.end))
  }

  /** The DNSKEY query that ends the log went unanswered or its answer fails. */
  ghost predicate KeysBreak(prim: Primitives, zone: Name, anchors: seq<Anchor>, answer: Option<Message>, ev: Evidence) {
    && ev.log.Then? && ev.log.last == Asked(zone, DNSKEY, answer)
    && AnchorsNow(prim, ev.log.before, zone, anchors)
    && (answer.Some? ==> KeysFail(prim, zone, anchors, answer.value, ev.start, ev.end))
  }

  /** The last query, for zone, broke the link to it. */
  ghost predicate LinkBroken(prim: Primitives, zone: Name, ev: Evidence) {
    || (exists parentKeys, answer :: DsBreaks(prim, zone, parentKeys, answer, ev))
    || (exists anchors, answer :: KeysBreak(prim, zone, anchors, answer, ev))
  }

  /** The log ends with the query, made for a zone at or above target, that broke
      the chain to target. */
  ghost predicate ChainBroken(prim: Primitives, target: Name, ev: Evidence) {
    exists zone :: ZoneOf(zone, target) && LinkBroken(prim, zone, ev)
  }

  lemma BrokenByDs(prim: Primitives, zone: Name, parentKeys: seq<Dnskey>, answer: Option<Message>, ev: Evidence)
    requires EndsWithDs(prim, ev.log, zone, parentKeys, answer)
    requires answer.Some? ==> DsFails(prim, zone, parentKeys, answer.value, ev.start, ev.end)
    ensures LinkBroken(prim, zone, ev)
  {
    assert DsBreaks(prim, zone, parentKeys, answer, ev);
  }

  lemma BrokenByKeys(prim: Primitives, zone: Name, anchors: seq<Anchor>, answer: Option<Message>, ev: Evidence)
    requires ev.log.Then? && ev.log.last == Asked(zone, DNSKEY, answer) && AnchorsNow(prim, ev.log.before, zone, anchors)
    requires answer.Some? ==> KeysFail(prim, zone, anchors, answer.value, ev.start, ev.end)
    ensures LinkBroken(prim, zone, ev)
  {
    assert KeysBreak(prim, zone, anchors, answer, ev);
  }

  /** A broken link breaks every chain through its zone. */
  lemma ChainBrokenAt(prim: Primitives, zone: Name, target: Name, ev: Evidence)
    requires ZoneOf(zone, target) && LinkBroken(prim, zone, ev)
    ensures ChainBroken(prim, target, ev)
  {
  }

  /** A broken chain above a name breaks every chain through that name. */
  lemma ChainBrokenBelow(prim: Primitives, a: Name, n: Name, ev: Evidence)
    requires ZoneOf(a, n) && ChainBroken(prim, a, ev)
    ensures ChainBroken(prim, n, ev)
  {
    var zone :| ZoneOf(zone, a) && LinkBroken(prim, zone, ev);
    ZoneOfTransitive(zone, a, n);
  }

  /** A broken chain is the work of the query that ends the log: it was for the DS
      or DNSKEY set of a zone at or above the target, and what it was answered, if
      anything, fails against the very keys or anchors the walk then held. */
  lemma BrokenByLastQuery(prim: Primitives, target: Name, ev: Evidence)
    requires ChainBroken(prim, target, ev)
    ensures ev.log.Then? && ev.log.last.Asked? && ev.log.last.rtype in {DS, DNSKEY} && ZoneOf(ev.log.last.name, target)
    ensures ev.log.last.rtype == DS && ev.log.last.answer.Some? ==>
      && ev.log.before.Then? && ev.log.before.last.Held?
      && DsFails(prim, ev.log.last.name, ev.log.before.last.keys, ev.log.last.answer.value, ev.start, ev.end)
    ensures ev.log.last.rtype == DNSKEY && ev.log.last.answer.Some? ==>
      exists anchors :: AnchorsNow(prim, ev.log.before, ev.log.last.name, anchors)
                        && KeysFail(prim, ev.log.last.name, anchors, ev.log.last.answer.value, ev.start, ev.end)
  {
    var zone :| ZoneOf(zone, target) && LinkBroken(prim, zone, ev);
  }

  // ----- Zone apexes -----

  /** best is an SOA owner with most labels among those at or above name. */
  ghost predicate BestApex(name: Name, records: seq<Record>, best: Option<Name>) {
    match best
    case None => forall r <- records :: !(r.data.SoaData? && ZoneOf(r.name, name))
    case Some(z) =>
      && ZoneOf(z, name) && (exists r <- records :: r.data.SoaData? && r.name == z)
      && forall r <- records :: r.data.SoaData? && ZoneOf(r.name, name) ==> CountedLabels(r.name) <= CountedLabels(z)
  }

  /** What one SOA response at candidate says about name's zone apex. */
  ghost predicate ShowsApex(name: Name, e: Event, apex: Option<Name>) {
    && e.Asked? && e.rtype == SOA
    && match e.answer
       case None => apex == None
       case Some(msg) =>
         if exists r <- msg.answers :: r.name == e.name && r.Type() == SOA then apex == Some(e.name)
         else if exists r <- msg.answers :: r.name == e.name && r.Type() == CNAME then apex == None
         else BestApex(name, msg.answers + msg.authority, apex)
  }

  /** The queries went upward from name, and only the last may show an apex. */
  ghost predicate Searched(name: Name, asked: seq<Event>, apex: Option<Name>) {
    && 0 < |asked| <= |name| + 1
    && (forall k :: 0 <= k < |asked| ==>
          asked[k].Asked? && asked[k].name == name[k..] && ShowsApex(name, asked[k], if k == |asked| - 1 then apex else None))
    && (apex.None? ==> |asked| == |name| + 1)
  }

  /** After a search for name's apex the walk arrived at the zone it gave, the
      parent when it gave none, with derived keys. */
  ghost predicate ApexHeld(prim: Primitives, name: Name, log: Log, since: Log, asked: seq<Event>, apex: Option<Name>,
                           keys: seq<Dnskey>) {
    && Searched(name, asked, apex) && Continues(log, Extended(since, asked))
    && EndsHeld(log, apex.GetOr(BaseName(name)), keys) && Derived(prim, apex.GetOr(BaseName(name)), keys)
  }

  /** The same, but the walk found the zone it gave to be unsigned. */
  ghost predicate ApexLacks(prim: Primitives, name: Name, log: Log, since: Log, asked: seq<Event>, apex: Option<Name>,
                            ttl: U32) {
    && Searched(name, asked, apex) && Continues(log, Extended(since, asked))
    && WalkUnsigned(prim, apex.GetOr(BaseName(name)), log, ttl)
  }

  ghost predicate ApexUnsigned(prim: Primitives, name: Name, log: Log) {
    exists since, asked, apex, ttl: U32 :: ApexLacks(prim, name, log, since, asked, apex, ttl)
  }

  /** The zone of name is signed: keys derive for name itself, or for the zone that
      its apex search has just led to. */
  ghost predicate KnownSigned(prim: Primitives, name: Name, log: Log) {
    || (exists keys :: Derived(prim, name, keys))
    || (exists since, asked, apex, keys :: ApexHeld(prim, name, log, since, asked, apex, keys))
  }

  // ----- RRsets -----

  /** Outside its window at a reading from start to end, or by a signer that is
      not an ancestor-or-self of owner. */
  ghost predicate SigUnusable(prim: Primitives, sig: Rrsig, owner: Name, start: nat, end: nat) {
    || !ZoneOf(sig.signer, owner)
    || exists now: nat :: start <= now <= end && prim.isReading(now) && !InRun(sig.expiration, sig.inception, now)
  }

  /** Every signature that is not among the candidates is unusable. */
  ghost predicate RestUnusable(prim: Primitives, sigs: seq<Rrsig>, candidates: seq<Rrsig>, owner: Name, start: nat, end: nat) {
    forall s <- sigs | s !in candidates :: SigUnusable(prim, s, owner, start, end)
  }

  lemma RestUnusableWidens(prim: Primitives, sigs: seq<Rrsig>, candidates: seq<Rrsig>, owner: Name,
                           start: nat, end: nat, earlier: nat, later: nat)
    requires earlier <= start && end <= later && RestUnusable(prim, sigs, candidates, owner, start, end)
    ensures RestUnusable(prim, sigs, candidates, owner, earlier, later)
  {
    forall s <- sigs | s !in candidates ensures SigUnusable(prim, s, owner, earlier, later) {
      assert SigUnusable(prim, s, owner, start, end);
    }
  }

  /** The keys it was tried with were its signer's, and none verified it. */
  ghost predicate VainTrial(prim: Primitives, t: Trial, rrset: seq<Record>, ev: Evidence) {
    && t in ev.trials && Derived(prim, t.sig.signer, t.keys)
    && Rejected(prim, t.keys, [t.sig], t.owner, rrset, ev.start, ev.end)
  }

  ghost predicate TriedInVain(prim: Primitives, sig: Rrsig, owner: Name, rrset: seq<Record>, ev: Evidence) {
    exists keys :: VainTrial(prim, Trial(owner, sig, keys), rrset, ev)
  }

  lemma TriedInVainLater(prim: Primitives, sig: Rrsig, owner: Name, rrset: seq<Record>, ev: Evidence, later: Evidence)
    requires Extends(later, ev) && TriedInVain(prim, sig, owner, rrset, ev)
    ensures TriedInVain(prim, sig, owner, rrset, later)
  {
    var keys :| VainTrial(prim, Trial(owner, sig, keys), rrset, ev);
    RejectedLater(prim, keys, [sig], owner, rrset, ev.start, ev.end, later.end);
    assert VainTrial(prim, Trial(owner, sig, keys), rrset, later);
  }

  /** How signatures were used up: each made by an unsigned zone or tried in
      vain; vain says whether there was one of the second kind. */
  ghost predicate UsedUp(prim: Primitives, sigs: seq<Rrsig>, vain: bool, owner: Name, rrset: seq<Record>, ev: Evidence) {
    if vain then
      && (exists sig <- sigs :: TriedInVain(prim, sig, owner, rrset, ev))
      && forall sig <- sigs :: ProvenUnsigned(prim, sig.signer) || TriedInVain(prim, sig, owner, rrset, ev)
    else forall sig <- sigs :: ProvenUnsigned(prim, sig.signer)
  }

  lemma UsedUpLater(prim: Primitives, sigs: seq<Rrsig>, vain: bool, owner: Name, rrset: seq<Record>, ev: Evidence,
                    later: Evidence)
    requires Extends(later, ev) && UsedUp(prim, sigs, vain, owner, rrset, ev)
    ensures UsedUp(prim, sigs, vain, owner, rrset, later)
  {
    forall sig <- sigs | TriedInVain(prim, sig, owner, rrset, ev)
      ensures TriedInVain(prim, sig, owner, rrset, later)
    {
      TriedInVainLater(prim, sig, owner, rrset, ev, later);
    }
  }

  lemma UsedUpSnoc(prim: Primitives, sigs: seq<Rrsig>, sig: Rrsig, before: bool, vain: bool, owner: Name, rrset: seq<Record>,
                   ev: Evidence)
    requires UsedUp(prim, sigs, before, owner, rrset, ev)
    requires if vain then TriedInVain(prim, sig, owner, rrset, ev) else ProvenUnsigned(prim, sig.signer)
    ensures UsedUp(prim, sigs + [sig], before || vain, owner, rrset, ev)
  {
    assert (sigs + [sig])[|sigs|] == sig;
    if before {
      var s :| s in sigs && TriedInVain(prim, s, owner, rrset, ev);
      assert s in sigs + [sig];
    }
  }

  /** One more signature is used up. */
  lemma UsedUpNext(prim: Primitives, sigs: seq<Rrsig>, i: nat, before: bool, vain: bool, owner: Name, rrset: seq<Record>,
                   ev: Evidence, later: Evidence)
    requires i < |sigs| && Extends(later, ev) && UsedUp(prim, sigs[..i], before, owner, rrset, ev)
    requires if vain then TriedInVain(prim, sigs[i], owner, rrset, later) else ProvenUnsigned(prim, sigs[i].signer)
    ensures UsedUp(prim, sigs[..i + 1], before || vain, owner, rrset, later)
  {
    UsedUpLater(prim, sigs[..i], before, owner, rrset, ev, later);
    UsedUpSnoc(prim, sigs[..i], sigs[i], before, vain, owner, rrset, later);
    TakeNext(sigs, i);
  }

  lemma TakeNext<T>(s: seq<T>, i: nat)
    requires i < |s|
    ensures s[..i + 1] == s[..i] + [s[i]]
  {
  }

  /** The usable signatures of an RRset, all used up. */
  ghost predicate NoneLeft(prim: Primitives, usable: seq<Rrsig>, vain: bool, owner: Name, t: RecordType,
                           records: seq<Record>, ev: Evidence) {
    && (forall sig <- usable :: sig in SigsAt(records, owner, t))
    && RestUnusable(prim, SigsAt(records, owner, t), usable, owner, ev.start, ev.end)
    && UsedUp(prim, usable, vain, owner, RrsetOf(records, owner, t), ev)
  }

  /** Why an RRset is not Secure: the chain to it broke; it has no signature
      although its zone is signed, or is proven unsigned; no signature can be
      used; or the usable ones are used up, Bogus if one was tried in vain. */
  ghost predicate RrsetRefused(prim: Primitives, owner: Name, t: RecordType, records: seq<Record>,
                               status: DnssecStatus, ev: Evidence) {
    var sigs := SigsAt(records, owner, t);
    match status
    case Secure => false
    case InsecureUnknown => sigs == [] && ChainBroken(prim, owner, ev)
    case InsecureUnsigned =>
      ProvenUnsigned(prim, owner)
      && (sigs != [] ==> exists usable :: usable != [] && NoneLeft(prim, usable, false, owner, t, records, ev))
    case Bogus =>
      if sigs == [] then KnownSigned(prim, owner, ev.log)
      else
        || ChainBroken(prim, owner, ev)
        || exists usable, vain :: NoneLeft(prim, usable, vain, owner, t, records, ev) && (usable != [] ==> vain)
  }

  // ----- Answers -----

  /** The RRset a hop was taken from is there. */
  predicate JustifiedIn(step: Step, records: seq<Record>) {
    RrsetOf(records, Justification(step).0, Justification(step).1) != []
  }

  ghost predicate StepRefused(prim: Primitives, step: Step, records: seq<Record>, status: DnssecStatus, ev: Evidence) {
    || RrsetRefused(prim, Justification(step).0, Justification(step).1, records, status, ev)
    || (SignedSynthesis(step, records) && RrsetRefused(prim, step.inputName, CNAME, records, status, ev))
  }

  /** Why an answer is not Secure: its redirections do not end, one of them or the
      RRset at their end is refused with this status, or there is no such RRset. */
  ghost predicate AnswerRefused(prim: Primitives, name: Name, t: RecordType, records: seq<Record>,
                                status: DnssecStatus, ev: Evidence) {
    match ChainOf(name, t, records)
    case Loop => status.Bogus?
    case TooLong => status.Bogus?
    case Complete(steps) =>
      || (exists step <- steps :: StepRefused(prim, step, records, status, ev))
      || (if RrsetOf(records, FinalOwner(name, steps), t) == [] then status.InsecureUnknown?
          else RrsetRefused(prim, FinalOwner(name, steps), t, records, status, ev))
  }

  // ----- Negative answers -----

  /** A negative answer proven with the keys that the walk has just arrived with, all its
      signatures verified within the span. */
  ghost predicate NegativeHeld(prim: Primitives, msg: Message, qname: Name, t: RecordType, status: DnssecStatus, ev: Evidence) {
    && ev.log.Then? && ev.log.last.Held? && NegativeProven(prim, ev.log.last.zone, ev.log.last.keys, msg, qname, t, status)
    && FirstSoa(msg.authority).Some?
    && RecordSigned(prim, ev.log.last.keys, FirstSoa(msg.authority).value, msg.authority, ev.start, ev.end)
    && AllSigned(prim, ev.log.last.keys, DenialRecords(msg.authority), msg.authority, ev.start, ev.end)
  }

  /** The keys the walk has just arrived at the SOA's zone with do not verify the
      SOA or a record of the denial, or the records shown deserve this verdict. */
  ghost predicate ProofRefused(prim: Primitives, keys: seq<Dnskey>, soa: Record, target: Name, t: RecordType,
                               authority: seq<Record>, status: DnssecStatus, ev: Evidence) {
    && EndsHeld(ev.log, soa.name, keys) && Derived(prim, soa.name, keys)
    && (|| DenialRefused(prim, keys, target, t, authority, status, ev.start, ev.end)
        || (status.Bogus? && RecordRejected(prim, keys, soa, authority, ev.start, ev.end)))
  }

  /** Why a negative answer is not accepted: it shows no SOA, or one of a foreign
      zone; the chain to that zone broke; or its proof is refused. */
  ghost predicate NegativeRefused(prim: Primitives, msg: Message, qname: Name, t: RecordType, status: DnssecStatus,
                                  ev: Evidence) {
    var target := FinalTarget(msg.answers, qname);
    match FirstSoa(msg.authority)
    case None => status.InsecureUnknown?
    case Some(soa) =>
      || (status.Bogus? && !ZoneOf(soa.name, target) && !ZoneOf(soa.name, qname))
      || (status.Bogus? && ChainBroken(prim, soa.name, ev))
      || exists keys :: ProofRefused(prim, keys, soa, target, t, msg.authority, status, ev)
  }

  lemma BrokenRefuses(prim: Primitives, msg: Message, qname: Name, t: RecordType, ev: Evidence)
    requires FirstSoa(msg.authority).Some? && ChainBroken(prim, FirstSoa(msg.authority).value.name, ev)
    ensures NegativeRefused(prim, msg, qname, t, Bogus, ev)
  {
  }

  lemma ProofRefusedDecides(prim: Primitives, keys: seq<Dnskey>, msg: Message, qname: Name, t: RecordType,
                            status: DnssecStatus, ev: Evidence)
    requires FirstSoa(msg.authority).Some?
    requires ProofRefused(prim, keys, FirstSoa(msg.authority).value, FinalTarget(msg.answers, qname), t, msg.authority, status, ev)
    ensures NegativeRefused(prim, msg, qname, t, status, ev)
  {
  }
}
