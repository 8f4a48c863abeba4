# A verified model of the resolver and its DNSSEC validator

This project models a recursive DNS resolver that validates DNSSEC itself, and
proves what its pieces promise.

- **Validator** (`Validator`, `History`, `Trust`, `Refusal`). The nested stages of one
  validation as methods over shared caches, a clock and a signature budget. `History`
  is the record of one validation: the queries it made with their answers, the keys
  with which its walks arrived at each zone and where those came from, the keys each
  signature was tried with, and the span of clock readings. `Trust` says what
  acceptance means: key sets derived zone by zone from the root anchors and in date
  when used, RRsets and denials backed by signatures that were within their run.
  `Refusal` says what a rejection means, read off that record.
- **Consequences** (`Authenticity`, `Worlds`, `Expansion`, `Scope`). What acceptance
  says about the data when the zones concerned sign honestly and signatures cannot
  be forged: an accepted RRset is published by a zone at or above its owner, at the
  owner or at the wildcard its signature points to; accepted NSEC3 and unexpanded
  NSEC records are true links. `Expansion` gives the exact conditions under which
  that amounts to "the owner's own data" and "the type does not exist". `Scope` gives
  those under which a denial speaks of the query name, comes from the zone that
  holds it, and means a delegation. `Worlds` builds the honest worlds in which each
  of them fails.
- **Denial of existence** (`Circular`, `Nsec`, `Nsec3`, `Verdicts`, `Delegations`,
  `Base32Hex`). The two circular cover tests over an arbitrary strict total order, the
  verdicts of both denial checkers, read off the records shown and against finite zones
  closed into successor chains, with delegations and opt-out, and the base32hex decoder
  with its 64-bit accumulator.
- **Redirection** (`Orbits`, `Redirection`, `Dname`). The CNAME/DNAME collector as
  iteration of a partial step, and DNAME substitution on text against suffix
  replacement on labels.
- **Signed data** (`Tbs`). The octets under a signature, field by field at their
  offsets, as a function of the multiset of record data, and back: the octets
  determine what was signed.
- **Resolver** (`Resolver`). The referral walk nested in the recursion over aliases
  and name servers: what every outcome is made of, out of the responses heard, with
  its call count, its rounds and the exact reach of its step limit.
- **Cache and service** (`Engine`, `Ttl`, `Serial`, `Service`). The response cache
  as a machine of atomic steps, the class whose methods take those steps, the
  responses built from entries, and queries from end to end: every cached verdict
  and every AD bit has the proof of the validation that produced it.
- **Selections** (`Selections`). The lists that are picked out of message sections:
  which records, in which order, how often.
- **Rate limiter** (`TokenBucket`, `DuplicateDomain`, `RateLimiter`). Atomic
  operations of any number of threads, whole queries one after another, and the
  cleanup of idle entries.

Names are sequences of lower-case labels, leaf first. Cryptographic primitives,
wire encodings of names and record data, and NSEC3 hashing are function-valued
fields of `Records.Primitives`; nothing is assumed of them except where a lemma
lists it. Upstream answers are arbitrary. The wall clock never steps back within
the caches; a validator method may observe any later reading. While a method
waits for upstream, other tasks may rewrite the shared caches in any way that
keeps the class invariant.

Eleven statements come out differently from what a reader might expect of the code:

- A signature that counts fewer labels than the owner is checked against the
  wildcard, and no proof is asked for that the owner does not exist. A Secure RRset
  is always its owner's own if and only if no label count lies strictly between
  zero and the owner's (`Expansion.OwnerExact`; failing input in
  `Expansion.ExpansionAccepted`).
- NSEC records are expanded in the same way. One shown at the query name proves
  that the name lacks the type if and only if it was signed for that name, or the
  arc of the wildcard it was signed for covers the name (`Expansion.NodataExact`;
  failing input in `Expansion.ExpandedDenialAccepted`).
- An NSEC3 record of the wildcard decides without any proof that the query name is
  absent. A Secure verdict given by it proves absence if and only if the records
  refute the name as well (`Nsec3.SecureDeniesExactly`; failing input in
  `Nsec3.WildcardHides`).
- For a name that is absent, an NSEC3 verdict is Secure even where the wildcard's
  record is shown and has the type, because the half-open cover test counts that
  record as covering its own hash (`Nsec3.UnownedExact`).
- A negative answer is checked for the target of the last CNAME record of its answer
  section, which nobody verifies. It speaks of the query name if and only if there is
  no such record or the last one leads to that name (`Scope.ItselfExactly`; failing
  input in `Scope.AliasMoves`).
- The link of a delegation denies everything below it, whatever the child zone holds
  (`Nsec.DelegationHides`). A denial comes from the zone that holds the RRset if and
  only if no record shown is the link of a delegation above it (`Nsec.HeldExactly`,
  `Delegations.HeldExactly`).
- Any denial of a DS RRset is taken for an insecure delegation, so the genuine NSEC
  record of an ordinary name proves that name unsigned (`Scope.OrdinaryUnsigned`). It
  shows a delegation if and only if its types have NS and not SOA (`Scope.CutExact`).
- For types other than DS the opt-out flag is not looked at. A Secure NSEC3 answer
  excludes an insecure delegation at or above the name if and only if the name's own
  link decided or a record over the next closer name has the flag clear
  (`Delegations.SecureOptOut`; failing input in `Delegations.OptOutHides`).
- DNAME substitution on text agrees with label replacement unless owner or target
  is the root; `Dname.AgreesExactly` gives the exact condition, and
  `Dname.RootTargetRefused` and `Dname.RootOwnerGlues` what the code returns then.
- Eviction of idle token buckets is invisible if and only if the shortest idle
  time that can lead to it, one millisecond more than the maximum age, refills an
  empty bucket (`RateLimiter.EvictionUnobservable`). The built-in settings do so.
- A one-element NSEC3 chain covers nothing, because the half-open test is empty
  when both ends are equal (`Circular.HalfOpenPartition`).

Where the repository's own documentation differs from its code the model follows
the code: served TTLs age from each record's own TTL, not from the entry's
effective TTL, and a redirection chain counts as complete only below 16 hops.

## Model

| member | source | states |
|---|---|---|
| Circular.CoveredIffPrecedes | src/dnssec.rs:1571-1581 | a chain link covers a non-member exactly when its owner is that name's predecessor on the ring |
| Circular.OpenPartition | src/dnssec.rs:1571-1581 | for every non-empty finite set closed into its successor ring, one-element rings included: no member is covered, and each non-member by exactly one link |
| Circular.HalfOpenIs | src/dnssec.rs:1593-1607 | the NSEC3 test is the open one plus the owner itself, and empty when both ends are equal |
| Circular.HalfOpenPartition | src/dnssec.rs:1593-1607 | the half-open arcs hold every hash exactly once if and only if the ring has two or more elements |
| Order.OctetsLessExactly | src/dnssec.rs:1593-1607 | octet strings compare by their first difference, a proper prefix first |
| Names.NameStrictTotal | src/dnssec.rs:1571-1581 | canonical name order is a strict total order on all names |
| Names.SiblingsByLabel | src/dnssec.rs:1571-1581 | under a common parent the label with the smaller first different character comes first, a proper prefix before the longer label |
| Names.WildcardFits | src/dnssec.rs:1561-1569 | under a proper ancestor of a valid name the wildcard name always fits, so the fallback to the root is never taken there |
| Nsec.FindClosestEncloser | src/dnssec.rs:1126-1147 | the loop returns the deepest proper ancestor owning a record, among 16 candidates |
| Nsec.NearestOwner | src/dnssec.rs:1126-1147 | the result is an ancestor-or-self that owns a record, and no deeper one within the steps does |
| Nsec.NodataIsAbsent | src/dnssec.rs:1149-1172 | a Secure no-data verdict means the name exists in the zone with neither the type nor a CNAME |
| Nsec.CoveredIsAbsent | src/dnssec.rs:1212-1233 | a name covered by a link of the zone's chain is not in the zone |
| Nsec.VerdictSound | src/dnssec.rs:620-664 | Secure over links of the zone's chain means no RRset of that type at the name; when no link at the name decided, the name owns nothing and the wildcard under the chosen encloser lacks the type |
| Nsec.VerdictExact | src/dnssec.rs:620-664 | when the links shown settle the name and the encloser's wildcard, the verdict is Secure if and only if the zone denies the query |
| Nsec.RefutesExactly | src/dnssec.rs:1149-1236 | links prove that an RRset does not exist, in every zone having them, if and only if one sits at the name without the type or covers the name |
| Nsec.VerdictRefutes | src/dnssec.rs:620-664 | every Secure verdict rests on such a link |
| Nsec.OwnedDecides | src/dnssec.rs:1174-1236 | a name that owns a link cannot be denied by the wildcard or name-error checks |
| Nsec.WildcardDecides | src/dnssec.rs:1174-1236 | for a covered name these checks end Secure exactly when the wildcard lacks the type and a CNAME |
| Verdicts.NsecOnRecords | src/dnssec.rs:620-664 | Secure exactly when the first link settling the query at the name lacks the type, or none settles it, the name lies in an arc, and the wildcard under the nearest owning ancestor is shown lacking the type or lies in an arc; all else is Bogus |
| Names.AncestorLess | src/dnssec.rs:1571-1581 | in canonical order a name comes before those below it |
| Names.BetweenIsBelow | src/dnssec.rs:1571-1581 | between a name and one below it there are only names below it |
| Nsec.HeldExactly | src/dnssec.rs:1149-1236 | in every zone without links below its delegations, refuting links deny a delegated RRset if and only if one of them sits at a delegation above it |
| Nsec.DelegationHides | src/dnssec.rs:1207-1236 | failing input: the genuine link of a delegation makes the verdict Secure for every name below it and every type |
| Nsec.CutExactly | src/dnssec.rs:838-867 | links that deny DS at a name show a delegation there if and only if one of the name has NS and not SOA |
| Nsec3.FindClosestEncloser | src/dnssec.rs:1238-1264 | the loop, starting at the name itself, returns the deepest ancestor-or-self whose hash owns a record |
| Nsec3.FindNextCloser | src/dnssec.rs:1329-1336 | the walk ends at the child of the encloser on the path to the name, or finds that the encloser is not above it |
| Nsec3.CheckNxdomain | src/dnssec.rs:1321-1367 | decided by the next closer name as `Verdicts.HashedOnRecords` reads it off the records; an encloser that is not above the name is Bogus |
| Nsec3.NextCloserUnowned | src/dnssec.rs:731-757 | because the search starts at the name, no record owns the next closer's hash, the DS fallback included |
| Nsec3.CoveredIsAbsent | src/dnssec.rs:1593-1607 | a covered hash that no record owns belongs to no name of the zone, so the half-open test acts as the open one |
| Nsec3.NodataIsAbsent | src/dnssec.rs:1266-1292 | without collisions a Secure no-data verdict means the name exists with neither the type nor a CNAME |
| Nsec3.WildcardLacks | src/dnssec.rs:1294-1319 | a Secure wildcard verdict means the wildcard lacks the type |
| Nsec3.NextCloserAbsent | src/dnssec.rs:1321-1367 | in a collision-free zone without opt-out, Secure means that neither the next closer name nor the name exists |
| Nsec3.VerdictSound | src/dnssec.rs:666-760 | what each way of reaching Secure says about the zone |
| Nsec3.NearestIsDeepest | src/dnssec.rs:1238-1264 | no deeper ancestor-or-self within the steps has a hash that owns a record |
| Nsec3.RefutesExactly | src/dnssec.rs:666-760 | records prove that an RRset does not exist, in every zone that could have produced them, if and only if one owns the name's hash without the type or the hash of a name on the way down to it lies inside an arc |
| Nsec3.SecureDeniesExactly | src/dnssec.rs:727-760 | a Secure verdict proves absence, except that one by a wildcard's record does so exactly when the records refute the name as well |
| Nsec3.WildcardHides | src/dnssec.rs:1294-1319 | failing input: the genuine links of the parent and its wildcard make the verdict Secure for every name below the parent that is in the zone, whatever its types |
| Nsec3.OwnedExact | src/dnssec.rs:1266-1292 | for a name that owns a link the verdict is Secure if and only if the zone denies the query |
| Nsec3.UnownedExact | src/dnssec.rs:1294-1367 | with next closer name and wildcard settled the name is absent; when exactly the verdict is Secure, and when exactly it agrees with the zone |
| Nsec3.WildcardSettled | src/dnssec.rs:1356-1366 | a wildcard record that is shown also counts as covering the wildcard, whatever its types |
| Nsec3.OptOutOnly | src/dnssec.rs:1343-1355 | the insecure-delegation verdict is given to DS queries alone, with an opt-out record over an unowned ancestor-or-self of the name |
| Verdicts.HashedOnRecords | src/dnssec.rs:727-760 | for a name owning a link its first settling link decides; for any other name, below its encloser: the wildcard's own record first, then the arc over the next closer name, then opt-out for DS, and only then the arc over the wildcard; without an encloser Bogus |
| Verdicts.InsecureExactly | src/dnssec.rs:1343-1355 | an insecure delegation is answered if and only if the query is for DS, the name owns no record, the encloser's wildcard is not shown to lack the type, and the first arc over the next closer name has the opt-out flag |
| Verdicts.OptOutSuffices | src/dnssec.rs:1343-1364 | so the encloser's record and flagged records over the next closer name are enough, whatever covers the wildcard |
| Verdicts.EnclosesHashedExactly | src/dnssec.rs:731-737 | the encloser is the deepest of 16 names whose hash owns a record; a DS query that finds none uses the parent |
| Verdicts.ArcHoldsExactly | src/dnssec.rs:1593-1607 | which hashes an arc holds, its own included, across the wrap of the ring |
| Delegations.CutExactly | src/dnssec.rs:1266-1292 | a name that owns an NSEC3 link is a delegation if and only if the link has NS and not SOA |
| Delegations.HeldExactly | src/dnssec.rs:1321-1367 | a Secure NSEC3 verdict not given by a wildcard denies a delegated RRset if and only if a record shown is the link of a delegation above it |
| Delegations.OptOutExact | src/dnssec.rs:1343-1355 | with the encloser shown and the next closer name covered, an insecure delegation left out at or above the name is excluded if and only if a covering record has the flag clear |
| Delegations.SecureOptOut | src/dnssec.rs:1321-1367 | so for every Secure verdict not given by a wildcard, the no-data case included |
| Delegations.OptOutHides | src/dnssec.rs:1343-1366 | failing input: genuine links with the flag set deny an insecure delegation for every type but DS |
| Base32Hex.DigitStep | src/dnssec.rs:1636-1646 | one digit leaves the finished octets alone, and the bits dropped from the 64-bit word are never needed |
| Base32Hex.Decode | src/dnssec.rs:1633-1649 | the accumulator loop returns the whole octets at the head of the digit string's number, or nothing if a character is no digit |
| Base32Hex.DecodedAt | src/dnssec.rs:1633-1649 | the result has floor(5n/8) octets and octet i is bits 8i to 8i+7 of the digit string |
| Base32Hex.RoundTrip | src/dnssec.rs:1633-1649 | decoding inverts base32hex encoding for octet strings of every length |
| Base32Hex.OrderPreserved | src/dnssec.rs:1583-1607 | equally long labels of whole octets compare as their hashes do |
| Dname.SubstituteIsReplace | src/recursor.rs:108-136 | for non-root owner and target the text code is suffix replacement on labels: the second format check is dead, and YXDomain means exactly that the result exceeds 255 octets |
| Dname.RootTargetRefused | src/recursor.rs:108-136 | a root target is always refused although the replaced name fits |
| Dname.RootOwnerGlues | src/recursor.rs:108-136 | a root owner glues the last label to the target's first |
| Dname.AgreesExactly | src/recursor.rs:108-136 | for every proper descendant, exactly when the text code agrees with label replacement |
| Orbits.NeverEnds | src/dnssec.rs:1384-1387 | once a point repeats, no number of steps ends the iteration |
| Redirection.Collect | src/dnssec.rs:1379-1437 | the loop with its seen set computes the walk specified by a recursive function |
| Redirection.CollectedDescribes | src/dnssec.rs:1379-1437 | Complete: fewer than 16 linked hops over distinct names ending where no hop applies; Loop: the orbit repeats and never ends; TooLong: 16 hops over 17 distinct names |
| Redirection.OutcomeExact | src/dnssec.rs:1379-1437 | each outcome is returned if and only if its description holds |
| Redirection.NextStepExactly | src/dnssec.rs:1393-1428 | the first decoded CNAME at the name is always followed; without one the first DNAME above it that can rewrite it; there is no hop only where there is neither |
| Redirection.RewriteExactly | src/dnssec.rs:1405-1428 | a DNAME rewrites exactly the names below it, into the substituted name |
| Tbs.Build | src/dnssec.rs:1707-1793 | the loops and their early exits compute the specified octets, or none |
| Tbs.SortSorts | src/dnssec.rs:1786 | the canonical sort is ordered and a permutation |
| Tbs.SortedUnique | src/dnssec.rs:1786 | a multiset of data has one sorted arrangement |
| Tbs.OrderAndTtlIrrelevant | src/dnssec.rs:1707-1793 | permuting the RRset and changing record TTLs leaves the signed octets, or their absence, unchanged |
| Tbs.OctetsDetermine | src/dnssec.rs:1707-1793 | equal signed octets come from equal type, label count, signer, times, signed owner and class and the same multiset of data |
| Tbs.LayoutExactly | src/dnssec.rs:1707-1793 | octets exist exactly for one owner, type and class and encodable parts; they are the fixed fields and the signer at their offsets, then each record under the signed owner in ascending order of data |
| Tbs.HeaderLayout | src/dnssec.rs:1723-1739 | type, algorithm, labels, original TTL, expiration, inception, key tag, big-endian at octets 0, 2, 3, 4, 8, 12 and 16, then the signer |
| Tbs.RecordLayout | src/dnssec.rs:1767-1777 | owner, type, class, original TTL, data length and data of one record at their offsets |
| Tbs.SignedOwnerExactly | src/dnssec.rs:1741-1749 | the signed owner has exactly the labels counted and ends like the owner, unless none or as many are counted or the name would not fit |
| Trust.ExtendDerivation | src/dnssec.rs:782-1072 | trusted keys of the parent, a verified DS set and a DNSKEY set signed by a matching key derive the zone's keys |
| Records.RrsetSelects | src/dnssec.rs:892-897 | an RRset is every record of that owner and type, in order, each once |
| Records.FirstOfTypeSelects | src/dnssec.rs:673-677 | the records of a denial are the first eight of the type, all of them if fewer |
| Trust.SigsAtSelects | src/dnssec.rs:575-590 | exactly the signatures of the owner covering the type, in order |
| Trust.SigsCoveringSelects | src/dnssec.rs:876-887 | exactly the signatures covering the type, whatever their owner |
| Trust.DsAtSelects | src/dnssec.rs:828-836 | exactly the decoded DS records of the zone |
| Trust.KeysAtSelects | src/dnssec.rs:960-968 | exactly the decoded keys of the zone |
| Trust.AnchorsSelect | src/dnssec.rs:922-937 | exactly the DS entries with a SHA-256 or SHA-384 digest and a supported algorithm become anchors, field by field |
| Trust.ParametersExactly | src/dnssec.rs:682-717 | one proof has one SHA-1 salt and count up to 150; which mixtures are unknown and which Bogus |
| Trust.DenialRecordsExactly | src/dnssec.rs:545-564 | a denial rests on the first eight NSEC3 records if there is any, otherwise on the first eight NSEC records |
| Trust.ArrivedInDate | src/dnssec.rs:783-791 | keys a walk arrived with were received in that validation or granted for longer than until it began |
| Trust.SecureExactly | src/dnssec.rs:317-462 | an RRset is Secure if and only if a signature record of its owner and type, by an ancestor-or-self, was within its run at a reading of the span and holds over the octets under a key of the set the walk held |
| Trust.SecureIsInDate | src/dnssec.rs:783-791 | and that key set was in date |
| Trust.AnswerSigned | src/dnssec.rs:170-315 | both for every redirection of a Secure answer and the RRset at its end |
| Trust.FirstSoaExactly | src/dnssec.rs:474-486 | the SOA of a negative answer is the first that decodes |
| Trust.ZoneKeysListed | src/dnssec.rs:1058-1061 | the keys kept are exactly the candidates with the zone-key flag |
| Trust.UnsignedBelow | src/dnssec.rs:1498-1519 | below a zone proven unsigned every name is proven unsigned |
| Trust.StepsSecureNext | src/dnssec.rs:193-279 | hops stay Secure while later ones are checked |
| Authenticity.SignatureGenuine | src/dnssec.rs:1083-1123 | what a key of an honest zone verifies, that zone publishes, at the owner or at the wildcard the label count points to |
| Authenticity.DsStepGenuine | src/dnssec.rs:825-945 | a key that matches a DS set verified by an honest parent's keys is the zone's own |
| Authenticity.DerivationGenuine | src/dnssec.rs:762-1081 | by induction over a derivation, every key at its end is the zone's own |
| Authenticity.DerivedGenuine | src/dnssec.rs:762-1081 | if signatures cannot be forged and a zone and its ancestors sign honestly, every key derived for it is its own |
| Authenticity.ExpandsExactly | src/dnssec.rs:1741-1751 | for valid names the signed owner is another name exactly when the label count lies strictly between zero and the owner's |
| Authenticity.SecureGenuine | src/dnssec.rs:317-462 | an RRset accepted as Secure is published by a zone at or above its owner: at the owner unless a signature is one for a wildcard, else possibly at that wildcard |
| Authenticity.AnswerGenuine | src/dnssec.rs:170-315 | so are the aliases followed by a Secure answer and the records at its end |
| Authenticity.LinkGenuine | src/dnssec.rs:567-618 | a denial record that verified is, under the owner its signature counts, a link of the zone's own chain |
| Authenticity.DenialGenuine | src/dnssec.rs:464-565 | a Secure NSEC answer rests on true links; it states the truth when they refute the query, which they do unless a record was expanded |
| Authenticity.HashedDenialGenuine | src/dnssec.rs:666-760 | a Secure NSEC3 answer states the truth, except that one by a wildcard's record speaks of the wildcard, and of the name only if the records refute it too |
| Authenticity.NegativeGenuine | src/dnssec.rs:464-565 | a Secure negative answer is true of a zone named by a SOA of the message, at or above the query name or the last alias target, if the zones above those two names are honest |
| Expansion.ExpansionAccepted | src/dnssec.rs:1741-1749 | failing input: the zone publishes y at the owner and x at the wildcard; x shown at the owner is Secure |
| Expansion.OwnerExact | src/dnssec.rs:1741-1749 | Secure always means the owner's own data if and only if the label count makes no other name the signed one |
| Expansion.ExpandedDenialAccepted | src/dnssec.rs:567-618 | failing input: an NSEC record expanded to a name denies a type that the zone publishes there |
| Expansion.NodataExact | src/dnssec.rs:567-664 | an accepted NSEC record of the name proves the type absent if and only if it was signed for the name or its true arc covers the name |
| Worlds.ExampleWorld | src/dnssec.rs:1083-1123 | the hypotheses about honest zones can be met by a world whose root signs two records of choice |
| Scope.EndsAtExactly | src/dnssec.rs:488-500 | the name a negative answer is checked for is the query name exactly when the last CNAME record, if any, leads to it |
| Scope.AliasMoves | src/recursor.rs:213-294 | failing input: one unsigned alias merged in front moves a genuine denial of its target to any query name |
| Scope.ItselfExactly | src/dnssec.rs:464-565 | a Secure negative answer always speaks of the query name if and only if its last CNAME record, if any, leads to it |
| Scope.AdDeniesKey | src/engine.rs:271-372 | in every run such a hit with AD set denies the name asked for |
| Scope.HeldGenuine | src/dnssec.rs:620-664 | an accepted unexpanded NSEC denial is one of a delegated RRset if and only if a record shown sits at a delegation above it |
| Scope.CutExact | src/dnssec.rs:838-867 | an NSEC record that denies DS always shows a delegation if and only if its types have NS and not SOA |
| Scope.UnsignedGenuine | src/dnssec.rs:825-945 | what proves a zone unsigned under an honest parent: no supported DS, or a denial that means a delegation exactly when the zone's link has NS and not SOA |
| Scope.OrdinaryUnsigned | src/dnssec.rs:838-867 | failing input: the genuine link of an ordinary name proves it unsigned, and any unsigned address is then accepted there |
| Refusal.UsedUpNext | src/dnssec.rs:404-461 | one more signature tried in vain, or made by an unsigned zone, extends the account of those used up |
| Refusal.BrokenByLastQuery | src/dnssec.rs:782-1061 | a broken chain is the work of the last query: for the DS or DNSKEY set of a zone at or above the target, unanswered or answered with what fails against the keys or anchors then held |
| Refusal.ChainBrokenBelow | src/dnssec.rs:1522-1539 | a broken chain above a name breaks every chain through it |
| Refusal.RejectedLater | src/dnssec.rs:605-618 | a rejection stays one when the span of readings grows |
| Validator.ValidationBudget.CanCheckSig | src/dnssec.rs:61-70 | says yes and counts up exactly while the count is below the limit; a refusal is remembered |
| Validator.DnssecValidator.VerifyRrsig | src/dnssec.rs:1083-1123 | true exactly when the reading taken lies in the run of the window, the algorithms agree and the signature holds over the built octets; counts one verification |
| Validator.DnssecValidator.VerifyAny | src/dnssec.rs:899-915 | true only if a listed signature verified under a listed key with its tag within this validation; false within budget only if every such pair failed |
| Validator.DnssecValidator.VerifyNegativeRrset | src/dnssec.rs:567-618 | the same for the whole RRset of one authority record |
| Validator.DnssecValidator.VerifyAll | src/dnssec.rs:636-644 | every record of a denial verifies, or one is rejected, or the budget ran out |
| Validator.DnssecValidator.ValidateDenial | src/dnssec.rs:545-564 | a cacheable verdict is the one the records deserve and all of them verified within this validation; any other is deserved or Bogus for a rejected record; running out of budget is Bogus |
| Validator.DnssecValidator.ValidateNsec | src/dnssec.rs:620-664 | the same for NSEC |
| Validator.DnssecValidator.ValidateNsec3 | src/dnssec.rs:666-760 | the same for NSEC3, unusable hash parameters included; `Verdicts.HashedOnRecords` says which records deserve which verdict |
| Validator.DnssecValidator.JudgeHashed | src/dnssec.rs:727-759 | the checks in order give the verdict that `Verdicts.HashedOnRecords` reads off the records |
| Validator.DnssecValidator.JudgeDs | src/dnssec.rs:825-945 | a DS response yields the supported anchors of a verified DS set, or proves the zone unsigned by a verified denial or a verified set without supported entries, or fails for a stated reason |
| Validator.DnssecValidator.MatchKeys | src/dnssec.rs:993-1006 | exactly the candidates that some anchor matches |
| Validator.DnssecValidator.JudgeKeys | src/dnssec.rs:960-1061 | a DNSKEY response yields zone keys only when a key that an anchor matches verifies the set; otherwise every such key failed |
| Validator.DnssecValidator.CacheKeys | src/dnssec.rs:1063-1069 | authenticated keys enter the shared cache until the reading plus their TTL, never beyond their response's, and nothing else changes |
| Validator.DnssecValidator.FetchAnchors | src/dnssec.rs:815-945 | one DS query is logged; anchors are those of its verified answer, with its TTL, or it proves the zone unsigned, or it broke the chain |
| Validator.DnssecValidator.FetchKeys | src/dnssec.rs:948-1061 | one DNSKEY query is logged; the keys are the zone keys of its answer, with the shorter time to live |
| Validator.DnssecValidator.TrustZone | src/dnssec.rs:782-1072 | one zone of the walk: derived keys just received, cached for the shorter of both times to live; a proof of unsignedness in the last response; or a link that the last query broke; the missing-parent fallback is dead |
| Validator.DnssecValidator.LookUp | src/dnssec.rs:785-790 | a cached key set is used if and only if its expiry lies after the reading taken |
| Validator.DnssecValidator.BuildTrustChain | src/dnssec.rs:762-1081 | every arrival of the walk is with an entry whose expiry exceeds a reading of this call, or follows the DNSKEY response of this call that gave the keys; Trusted keys derive from the root anchors, their TTL is that of the last fetch; Unsigned is shown by the last response; a broken chain was broken by the last query; with every entry on the way live nothing is fetched or verified |
| Validator.DnssecValidator.BestSoa | src/dnssec.rs:1460-1479 | the SOA owner with most labels among those at or above the name |
| Validator.DnssecValidator.FindZoneApex | src/dnssec.rs:1441-1489 | asks upward from the name, exactly until a response shows an apex or the root is passed; the apex is what the last response shows |
| Validator.DnssecValidator.CachedSignedness | src/dnssec.rs:1498-1519 | a live entry decides: unsigned at the name or above, signed at the name itself; unknown exactly when no live entry counts; the verdict holds for the name asked |
| Validator.DnssecValidator.IsZoneSigned | src/dnssec.rs:1491-1559 | from a live cache entry, or by the walk to the zone that the search for the name's apex gives, the parent without one; unsigned only with a proof, signed only with derived keys, unknown within budget only if the last query broke a chain |
| Validator.DnssecValidator.SearchSignedness | src/dnssec.rs:1520-1559 | the uncached part: apex search, then the walk to exactly that zone |
| Validator.DnssecValidator.CandidateSigs | src/dnssec.rs:366-392 | exactly the signatures whose run holds the reading taken and whose signer is at or above the owner |
| Validator.DnssecValidator.TryKeys | src/dnssec.rs:414-432 | accepted with a key that verified; declined when every tag match failed, at the cost of one check per key; out of budget exactly when fewer checks were left |
| Validator.DnssecValidator.TryCandidate | src/dnssec.rs:406-444 | one usable signature: proven, tried in vain with the recorded keys, by an unsigned zone, or fatal because a chain broke |
| Validator.DnssecValidator.TryCandidates | src/dnssec.rs:394-462 | Secure at the first that proves; unsigned only if every signer is; Bogus only for a broken chain or when all were used up and one in vain |
| Validator.DnssecValidator.ValidateRrset | src/dnssec.rs:317-462 | Secure only with a signature by an ancestor-or-self within its run at a reading of this validation, under a key of a set in date; every other verdict with its reason; running out of budget is never cacheable |
| Validator.DnssecValidator.ValidateStep | src/dnssec.rs:193-279 | the same for one redirection and the CNAME beside a DNAME |
| Validator.DnssecValidator.ValidateSteps | src/dnssec.rs:193-279 | all hops Secure, or the first that is not and why |
| Validator.StepsJustified | src/dnssec.rs:196-233 | every collected hop comes from an RRset of the answer, so the tests for an empty one never fire |
| Validator.DnssecValidator.ValidateAnswer | src/dnssec.rs:170-315 | Secure means every hop and the final RRset are Secure within this validation; every other verdict has its reason |
| Validator.DnssecValidator.ValidateProof | src/dnssec.rs:528-565 | SOA and denial of a negative answer against trusted keys: accepted, or refused for a stated reason |
| Validator.DnssecValidator.ValidateNegative | src/dnssec.rs:464-565 | accepted only with the key set just arrived with, a SOA and a denial verified within this validation, or a zone proven unsigned; otherwise refused for a stated reason |
| Validator.DnssecValidator.ValidateMessage | src/dnssec.rs:138-168 | for any message at most 24 signature verifications over all stages; all key sets used were in date; a run that ever ran out of budget ends in a verdict that is not cacheable; what each verdict means |
| Validator.KeysSoundInsert | src/dnssec.rs:1063-1069 | the key cache keeps holding derived key sets only |
| Validator.SignedSoundInsert | src/dnssec.rs:1541-1549 | the signedness cache keeps holding substantiated verdicts only |
| Validator.PathFromRoot | src/dnssec.rs:767-776 | the walk visits every ancestor-or-self of the target once, each right after its parent |
| Ttl.MinTtlBounds | src/recursor.rs:1013-1029 | the shortest TTL of any record if below a day, else a day; five minutes exactly when no record limits it |
| Ttl.CalculateMinTtl | src/recursor.rs:1013-1029 | the running minimum over three sections is the minimum over the message |
| Serial.DiffAges | src/engine.rs:64-77 | time passing within the distance to a deadline shortens the serial distance by exactly as much, across rollover |
| Serial.RunExactly | src/dnssec.rs:1369-1377 | the three serial comparisons hold if and only if the reading lies in a run of the window on an unwrapped clock |
| Serial.WindowExactly | src/dnssec.rs:1369-1377 | for readings within half the range of the moment it opens: usable if and only if between that moment and its end |
| Resolver.WeightInsert | src/recursor.rs:457-466 | a new alias key stands for one nested call, a new name server key for two |
| Resolver.ReferralDeeper | src/recursor.rs:615-632 | every accepted referral after the first is a strictly deeper ancestor-or-self of the query name |
| Resolver.ReferralsBounded | src/recursor.rs:615-632 | a walk for a name of L labels accepts at most L+1 delegations |
| Resolver.OneLabelReferrals | src/recursor.rs:615-632 | delegation one label at a time is accepted all the way down, so that bound is attained |
| Resolver.StepLimitReachable | src/recursor.rs:328-389 | the steps can run out, a failed cached start included, if and only if the name has 14 labels or more |
| Resolver.FollowWithin | src/recursor.rs:416-455 | the end of the CNAME chain inside one response, or the first name on it that holds the type; aborts exactly on a chain that never ends |
| Resolver.FirstDnameExactly | src/recursor.rs:475-486 | the DNAME applied is the first of a proper ancestor |
| Resolver.JudgeAnswers | src/recursor.rs:391-547 | which of deliver, follow a CNAME, follow a DNAME, refuse or fall through an answer section leads to, and with which message |
| Resolver.AppendNew | src/recursor.rs:239-247 | records are appended in order, none equal up to TTL to one before it, and together they hold both lists up to TTL |
| Resolver.AppendNewSnoc | src/recursor.rs:239-247 | a record is appended exactly if neither the list nor the records before it hold it up to TTL |
| Resolver.Merge | src/recursor.rs:213-294 | the hop's answers come first; every record of the target is there up to its TTL, and only denial records are taken from the hop's authority |
| Resolver.MergeAuthority | src/recursor.rs:249-268 | the target's authority, then the hop's denial and signature records and no others |
| Resolver.MergeAdditionals | src/recursor.rs:270-287 | the target's additional records but OPT, then the hop's signatures and keys and no others |
| Resolver.JudgeReferral | src/recursor.rs:549-634 | a delegation is accepted only with one owner, in bailiwick and above the name; every other end is the response itself or no progress |
| Resolver.ReferralExactly | src/recursor.rs:549-634 | when exactly a response without usable answers is returned whole, delegates, to which zone with which hosts, or fails |
| Resolver.GlueSelects | src/recursor.rs:640-666 | glue is exactly the addresses that the additional section gives for listed hosts inside the bailiwick or the delegated zone |
| Resolver.SafeOnlySelects | src/recursor.rs:206-210 | exactly the safe addresses stay |
| Resolver.AddressesSelect | src/recursor.rs:688-708 | exactly the addresses of the type asked for are taken from an answer |
| Resolver.DelegationTtlExactly | src/recursor.rs:1031-1044 | the shortest TTL up to two days; five minutes when no record limits it |
| Resolver.StartExactly | src/recursor.rs:747-767 | a cached delegation may serve a query at or below it, for the name's own DS only below it |
| Resolver.Dedup | src/recursor.rs:716-718 | the same addresses, each once |
| Resolver.RecursiveResolver.FindCachedStart | src/recursor.rs:747-767 | the deepest live cached delegation at or above the name, for DS above it, or none exists |
| Resolver.RecursiveResolver.PurgeDelegationFor | src/recursor.rs:310-326 | removes the deepest entry at or above the start, live or not, or there is none |
| Resolver.RecursiveResolver.EnterZone | src/recursor.rs:636-732 | servers are exactly the safe glue if there is any, else safe addresses found by resolving the hosts; they are cached for the delegated zone until the reading plus the delegation's TTL |
| Resolver.RecursiveResolver.ResolveHost | src/recursor.rs:679-708 | two nested calls for a name server not looked up before, none otherwise; each address is in the answers of one of them |
| Resolver.RecursiveResolver.ResolveHosts | src/recursor.rs:677-719 | up to four hosts in order, until four addresses are known; the addresses found, each once, all safe and from the hosts' resolutions; nested calls accounted for by the visited set |
| Resolver.RecursiveResolver.FollowAlias | src/recursor.rs:457-471 | one nested call for a new alias target, none for a visited one; the result is the merge of hop and target |
| Resolver.RecursiveResolver.UseAnswers | src/recursor.rs:390-547 | exactly what the judged action asks for: the delivered message, the failure, or the merge of the hop with what the target resolves to; falls through only when the answers ask for nothing |
| Resolver.RecursiveResolver.Descend | src/recursor.rs:549-740 | returns the response or fails as it refers, or moves into the accepted delegation with its servers |
| Resolver.RecursiveResolver.UseResponse | src/recursor.rs:390-740 | one response ends the walk with a told outcome or moves it into the delegated zone |
| Resolver.RecursiveResolver.Walk | src/recursor.rs:340-745 | the loop: the outcome is told by the responses heard, the deciding one from servers of the zone just entered; rounds bounded by the delegations accepted |
| Resolver.HeldReturned | src/recursor.rs:391-400 | a deciding response that holds the type at the name is returned whole |
| Resolver.ResolvedFrom | src/recursor.rs:390-547 | a resolved message is the deciding response, that with YXDomain or the implied CNAME, or a hop's answers followed by what its target's result adds |
| Resolver.RecursiveResolver.ResolveInternal | src/recursor.rs:328-745 | the outcome is told by the responses heard since; calls made equal one plus the weight added to the visited set; rounds at most the delegations accepted plus two, so at most L+3; the step limit is met only if this name or an alias followed has 14 labels or more |
| Resolver.RecursiveResolver.Resolve | src/recursor.rs:305-308 | the outcome is told by the responses heard since; exactly 1 + CNAME keys + DNAME keys + 2 * NS keys calls; the step limit needs this name or an alias it followed to have 14 labels or more |
| Engine.CalculateCacheTtl | src/engine.rs:62-85 | the longest time within the smallest TTL and every signature's remaining run, zero if one has expired |
| Engine.CacheTtlUnique | src/engine.rs:62-85 | that condition determines the TTL |
| Engine.UnexpiredExactly | src/engine.rs:62-85 | the signatures that limit an entry are those of answers and authority, each by the time to its expiration on the unwrapped clock |
| Engine.SectionSelects | src/engine.rs:145-187 | a section holds the records shown, in order, each once, with the TTL due |
| Engine.RespondConveys | src/engine.rs:103-199 | the specified response conveys the message section by section |
| Engine.ConveysUnique | src/engine.rs:103-199 | there is one response that does |
| Engine.FreshnessExactly | src/cache.rs:74-85 | fresh for the TTL from the moment the entry was made, stale for the configured time after it, then expired |
| Engine.ConstructClientResponse | src/engine.rs:103-199 | the message's code; of each section all records shown to this client, in order, changed in their TTL alone; OPT left out; CD and EDNS echoed; AD if and only if Secure, fresh, asked for and CD clear |
| Engine.StepKeepsInv | src/engine.rs:271-446 | every step keeps the invariant of cache, file and in-flight set |
| Engine.RunKeepsInv | src/engine.rs:271-446 | in every state of every run all entries, on disk too, are Secure or proven unsigned, backed as their verdict must be, with their calculated TTL; and the in-flight set is exactly the keys with one running revalidation |
| Engine.StoresExactly | src/engine.rs:289-338 | an answer is stored exactly if NoError or NXDomain and Secure or proven unsigned; otherwise an entry stays, marked unless the revalidation was Bogus |
| Engine.HitStarts | src/engine.rs:273-289 | a hit starts one revalidation exactly for a stale entry without one in flight |
| Engine.DiskExactly | src/cache.rs:101-191 | saving and restarting keep exactly the entries that may still be served |
| Engine.FreshMeansUnexpired | src/cache.rs:74-85 | while a Secure entry is fresh all its signatures are unexpired in serial order, across the 32-bit rollover, at the reading or, for an older reading, when the entry was made |
| Engine.FreshTtl | src/engine.rs:144-154 | on a fresh hit every served TTL is at least 1; read at or after the entry was made, the age loses nothing and the TTL ends at a moment fixed then; read before it, the TTL is served unaged and ends earlier |
| Engine.AdOnlyWhileSigned | src/engine.rs:137-142 | in every run a hit with AD set is fresh, Secure, backed, asked for, and all its signatures still run at the later of its reading and the making of the entry, neither in the future |
| Engine.CopyUnspoiled | src/cache.rs:173-177 | keeps exactly the entries that have not expired |
| Engine.AppState.ServeHit | src/engine.rs:273-372 | serves exactly until the stale time after the TTL has run out, conveying the entry's message aged or stale; a stale entry starts a revalidation unless one is in flight |
| Engine.AppState.FinishMiss | src/engine.rs:379-497 | ServFail exactly without a message, or for Bogus enforced and not disabled; otherwise the response conveys the message; what may be cached is |
| Engine.AppState.StoreRevalidated | src/engine.rs:289-338 | the revalidation step: Bogus keeps the old entry, other uncacheable answers only mark it |
| Engine.AppState.EndRevalidation | src/engine.rs:339 | afterwards no revalidation of the key runs and it is not in flight |
| Engine.AppState.Preload | src/main.rs:330-373 | the preload step caches neither Bogus nor unknown answers |
| Engine.AppState.SaveToDisk | src/cache.rs:163-191 | the file holds exactly the entries that have not expired |
| Engine.AppState.RestartFromDisk | src/cache.rs:101-153 | a new process holds the readable entries that have not expired and nothing in flight |
| Service.EntriesProven | src/engine.rs:271-446 | in every run every entry, in memory and on disk, has the proof of the validation that produced it |
| Service.AdAuthentic | src/engine.rs:271-372 | in every run a positive hit with AD set shows data published by the zones above the owners involved, if those zones are honest |
| Service.AdDenialTrue | src/engine.rs:271-372 | likewise a negative hit with AD set is a true denial of the last alias target by the zone it names |
| Service.SignedWithin | src/engine.rs:379-497 | the answer section of a message found Secure in a call holds a signature over the final RRset that was within its run at a reading of that call, by a key in date |
| Service.DenialSignedWithin | src/engine.rs:379-497 | the same of the SOA and each denial record of a negative one |
| Service.Server.ResolveAndValidate | src/engine.rs:379-383 | the message is what the resolver made of the responses heard in this call; a cacheable verdict has its proof; Secure was found within this call with keys in date |
| Service.Server.TryCache | src/engine.rs:266-372 | answered exactly from an entry that may still be served; the response conveys that entry, which has its proof |
| Service.Server.ResolveMiss | src/engine.rs:379-497 | outcome and cache entry are those of one message and its verdict |
| Service.Server.ProcessQuery | src/engine.rs:202-497 | every query is answered from a proven entry or from one resolved and validated message, which is then cached if it may be; AD=1 always has a proof of Secure behind it |
| Service.Server.Revalidate | src/engine.rs:279-339 | a cacheable answer is stored with its proof; ends with its key neither running nor in flight |
| Service.Server.Warm | src/main.rs:325-373 | a cacheable answer is stored with its proof; cached keys are left alone |
| TokenBucket.CreditSplits | src/ratelimit.rs:103 | consecutive stretches never earn more apart than together |
| TokenBucket.StepKeepsInv | src/ratelimit.rs:91-132 | every atomic operation keeps tokens, grants and credits in flight within what was earned; the refill time never goes back |
| TokenBucket.RunKeepsInv | src/ratelimit.rs:91-132 | so does every interleaving |
| TokenBucket.GrantsBounded | src/ratelimit.rs:91-132 | tokens stay between 0 and capacity, and grants never exceed capacity plus what the time up to the latest reading earned |
| TokenBucket.NoOverflow | src/ratelimit.rs:103-116 | products and sums fit 64 bits while the time since creation times the rate plus the capacity does |
| DuplicateDomain.RoundTrip | src/ratelimit.rs:149-184 | both halves of the packed word come back for epochs below 2^32 |
| DuplicateDomain.BumpMeans | src/ratelimit.rs:168-184 | a later second restarts the count, the same second raises it, and it saturates without reaching the epoch |
| DuplicateDomain.StepKeepsInv | src/ratelimit.rs:149-196 | every atomic operation keeps counts rising within a second |
| DuplicateDomain.OneOfEachPerEpoch | src/ratelimit.rs:149-196 | in every interleaving a second lets at most one query through and challenges at most one |
| DuplicateDomain.ByPlace | src/ratelimit.rs:186-196 | in every interleaving the first query counted in a second is allowed, the second truncated, all later ones dropped |
| DuplicateDomain.AllowedAfterPause | src/ratelimit.rs:149-196 | the first query, and any at least three seconds after the one before it, is allowed |
| DuplicateDomain.ReleasedAfterPenalty | src/ratelimit.rs:149-196 | after a drop the next query that is not dropped is let through, at least three seconds after the query just before it |
| DuplicateDomain.SoloThreadChecks | src/ratelimit.rs:149-196 | a thread that is not interleaved performs exactly one whole check |
| RateLimiter.SoloThreadSteps | src/ratelimit.rs:91-132 | a thread that is not interleaved performs exactly one whole token step |
| RateLimiter.IdleEqualsNew | src/ratelimit.rs:91-116 | a bucket idle long enough to be evicted steps exactly like a new one |
| RateLimiter.SameDecisions | src/ratelimit.rs:214-219 | a table that evicts decides like one that does not |
| RateLimiter.EvictionUnobservable | src/ratelimit.rs:214-219 | cleanup at any moments changes no decision if and only if the shortest idle time leading to eviction refills an empty bucket |
| RateLimiter.DefaultsUnobservable | src/main.rs:87-120 | the built-in settings meet that condition |
| RateLimiter.Limiter.CheckQuery | src/ratelimit.rs:71-197 | which checks apply to whom, in which order, and exactly what each changes |
| RateLimiter.Limiter.Cleanup | src/ratelimit.rs:214-225 | keeps exactly the buckets used within the maximum age |

## Left out

- Validator.DnssecValidator.ValidateMessage: when the signature budget runs out the contract says only that the verdict is not cacheable, not which signature met the limit.
- Validator.DnssecValidator.Resolve: an arbitrary answer or none; the resolver's own contract is stated separately.
- Resolver.RecursiveResolver.Query: an arbitrary NoError or NXDomain response or none; server order, batches and timeouts are not modelled.
- Service.Server.Revalidate: when its answer is not stored, which entry is in the cache afterwards is open, because other tasks insert too; the exact step is in Engine.AppState.StoreRevalidated.
- Engine.AppState.SaveToDisk: one atomic copy; the program iterates while other tasks insert, so its file may mix entries of several moments, each of which still keeps the entry invariant.
- Authenticity.Unforgeable: a hypothesis about the world, not about the code; `Worlds.ExampleWorld` shows that it can hold.
- Delegations.HeldExactly: does not speak of verdicts given by a wildcard's record, which need not concern the query name, nor of DS queries whose encloser search finds nothing, where the records show no ancestor.
- Scope.UnsignedGenuine: NSEC proofs only; for NSEC3 the parts are Delegations.CutExactly and Delegations.OptOutExact, because what an opt-out zone leaves out is no part of its chain.
- TokenBucket.NoOverflow: beyond its hypothesis the 64-bit arithmetic of the program wraps; the model's is unbounded.
- Sockets, TLS, HTTP, WebSockets, TCP framing, JSON and base64 of the cache file, environment parsing, the domain list and logging: I/O.
- Signature, digest and hash algorithms, `compute_key_tag`, and the encoding of names, keys and record data: uninterpreted functions. The NSEC3 hash loop and the hex decoding of the two anchors are not modelled.
- Encoding and decoding of cached messages is taken to be faithful; an undecodable cached message falls through to resolution in the program.
- Labels with escaped dots and international names; upper case is taken to be folded on input, so comparisons are plain equality.
- `is_safe_upstream_ip` is a given predicate; `to_subnet` maps clients to an abstract subnet.
- Truncated and SERVFAIL wires, the large-response challenge, message identifiers and EDNS sizes: single-field plumbing.
- The encloser found by the NSEC search is the deepest ancestor owning a record of the response, which need not be the zone's closest encloser; no claim needs that it is.
- Negative capacity or refill rate in the configuration.
- `src/acl.rs` and `src/dnscheck.rs`: not part of the program's module tree.
