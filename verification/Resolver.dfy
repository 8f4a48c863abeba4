/** The iterative resolver: a bounded referral walk nested in a bounded
    recursion over aliases and name server addresses. */
module Resolver {
  import opened Names
  import opened Records
  import opened Redirection
  import opened Orbits
  import opened Selections
  import Dname
  import Ttl

  const MAX_DEPTH: nat := 16
  const MAX_STEPS: nat := 16
  const MIN_DELEGATION_TTL: nat := 300
  const MAX_DELEGATION_TTL: nat := 172800
  const MAX_NS_RESOLVED: nat := 4

  datatype RecursorError = DepthExceeded | StepLimitExceeded | AllNameserversFailed | GlueResolutionFailed | NoProgress

  datatype Resolution = Resolved(msg: Message) | Failed(error: RecursorError)

  /** The strings kept in the visited set, by prefix. */
  datatype VisitKey = CnameKey(target: Name) | DnameKey(target: Name) | NsKey(host: Name) {
    function Target(): Name {
      match this
      case CnameKey(n) => n
      case DnameKey(n) => n
      case NsKey(n) => n
    }
  }

  datatype DelegationEntry = DelegationEntry(servers: seq<Ip>, expiresAt: nat)

  // ----- The visited set accounts for every nested call -----

  /** Calls that one visited key stands for: an alias target is resolved once, a
      name server for both address types. */
  function Cost(k: VisitKey): nat {
    if k.NsKey? then 2 else 1
  }

  function Weight(visited: set<VisitKey>): nat {
    |set k | k in visited && k.CnameKey?| + |set k | k in visited && k.DnameKey?| + 2 * |set k | k in visited && k.NsKey?|
  }

  lemma WeightInsert(visited: set<VisitKey>, k: VisitKey)
    requires k !in visited
    ensures Weight(visited + {k}) == Weight(visited) + Cost(k)
  {
    var c, d, n := (set x | x in visited && x.CnameKey?), (set x | x in visited && x.DnameKey?), (set x | x in visited && x.NsKey?);
    var after := visited + {k};
    KindInsert(after, visited, k);
    assert |c + {k}| == |c| + 1 && |d + {k}| == |d| + 1 && |n + {k}| == |n| + 1;
  }

  lemma KindInsert(after: set<VisitKey>, visited: set<VisitKey>, k: VisitKey)
    requires after == visited + {k}
    ensures (set x | x in after && x.CnameKey?) == (set x | x in visited && x.CnameKey?) + if k.CnameKey? then {k} else {}
    ensures (set x | x in after && x.DnameKey?) == (set x | x in visited && x.DnameKey?) + if k.DnameKey? then {k} else {}
    ensures (set x | x in after && x.NsKey?) == (set x | x in visited && x.NsKey?) + if k.NsKey? then {k} else {}
  {
  }

  // ----- Referrals -----

  predicate AcceptsReferral(name: Name, bailiwick: Name, lastZone: Option<Name>, owner: Name) {
    && lastZone != Some(owner)
    && ZoneOf(owner, name)
    && (bailiwick == [] || ZoneOf(bailiwick, owner))
  }

  /** Every accepted referral after the first is strictly deeper: still an
      ancestor-or-self of the query name, with more labels than the last zone. */
  lemma ReferralDeeper(name: Name, zone: Name, owner: Name)
    requires ZoneOf(zone, name) && AcceptsReferral(name, zone, Some(zone), owner)
    ensures ZoneOf(zone, owner) && |owner| > |zone|
  {
    AncestorsNested(zone, owner, name);
    AncestorsNested(owner, zone, name);
  }

  /** The zone a walk has come to. */
  function LastOf(walk: seq<Name>): Option<Name> {
    if walk == [] then None else Some(walk[|walk| - 1])
  }

  ghost predicate AcceptedAfter(name: Name, before: seq<Name>, owner: Name) {
    AcceptsReferral(name, LastOf(before).GetOr([]), LastOf(before), owner)
  }

  /** walk lists delegations accepted one after another from the root servers. */
  ghost predicate Referrals(name: Name, walk: seq<Name>) {
    forall k :: 0 <= k < |walk| ==> AcceptedAfter(name, walk[..k], walk[k])
  }

  lemma ReferralsNext(name: Name, walk: seq<Name>, owner: Name)
    requires Referrals(name, walk) && AcceptedAfter(name, walk, owner)
    ensures Referrals(name, walk + [owner])
  {
    var more := walk + [owner];
    forall k | 0 <= k < |more| ensures AcceptedAfter(name, more[..k], more[k]) {
      assert more[..k] == walk[..k];
    }
  }

  lemma ReferralsInit(name: Name, walk: seq<Name>, owner: Name)
    requires Referrals(name, walk + [owner])
    ensures Referrals(name, walk) && AcceptedAfter(name, walk, owner)
  {
    var more := walk + [owner];
    assert more[..|walk|] == walk && more[|walk|] == owner;
    forall k | 0 <= k < |walk| ensures AcceptedAfter(name, walk[..k], walk[k]) {
      assert more[..k] == walk[..k] && more[k] == walk[k];
    }
  }

  /** A walk gains at least one label at every referral after the first. */
  lemma {:induction false} ReferralsBounded(name: Name, walk: seq<Name>)
    requires Referrals(name, walk)
    ensures |walk| <= |name| + 1
    ensures walk != [] ==> ZoneOf(walk[|walk| - 1], name) && |walk[|walk| - 1]| >= |walk| - 1
  {
    if walk != [] {
      var init, owner := walk[..|walk| - 1], walk[|walk| - 1];
      assert walk == init + [owner];
      ReferralsInit(name, init, owner);
      ReferralsBounded(name, init);
      if init != [] {
        ReferralDeeper(name, init[|init| - 1], owner);
      }
    }
  }

  lemma WalkOn(name: Name, walk: seq<Name>, owner: Name)
    requires Referrals(name, walk) && AcceptsReferral(name, LastOf(walk).GetOr([]), LastOf(walk), owner)
    ensures Referrals(name, walk + [owner]) && |walk + [owner]| <= |name| + 1 && LastOf(walk + [owner]) == Some(owner)
  {
    ReferralsNext(name, walk, owner);
    ReferralsBounded(name, walk + [owner]);
  }

  /** Servers may delegate one label at a time, so the bound is attained. */
  function OneLabelWalk(name: Name, n: nat): (walk: seq<Name>)
    requires n <= |name| + 1
    ensures |walk| == n && forall k :: 0 <= k < n ==> walk[k] == name[|name| - k..]
  {
    seq(n, k requires 0 <= k < n => name[|name| - k..])
  }

  lemma OneLabelAccepted(name: Name, k: nat)
    requires k < |name|
    ensures AcceptsReferral(name, name[|name| - k..], Some(name[|name| - k..]), name[|name| - k - 1..])
  {
    var zone, owner := name[|name| - k..], name[|name| - k - 1..];
    assert |zone| < |owner| && owner[1..] == zone;
  }

  lemma OneLabelReferrals(name: Name, n: nat)
    requires n <= |name| + 1
    ensures Referrals(name, OneLabelWalk(name, n))
  {
    var walk := OneLabelWalk(name, n);
    forall k | 0 <= k < n ensures AcceptedAfter(name, walk[..k], walk[k]) {
      if k > 0 { OneLabelAccepted(name, k - 1); }
    }
  }

  /** The steps can run out, a failed cached start included, if and only if the
      name has 14 labels or more. */
  lemma StepLimitReachable(name: Name)
    ensures (exists walk :: Referrals(name, walk) && |walk| + 1 == MAX_STEPS) <==> |name| >= 14
  {
    if |name| >= MAX_STEPS - 2 {
      OneLabelReferrals(name, MAX_STEPS - 1);
      assert |OneLabelWalk(name, MAX_STEPS - 1)| + 1 == MAX_STEPS;
    }
    forall walk | Referrals(name, walk) ensures |walk| <= |name| + 1 {
      ReferralsBounded(name, walk);
    }
  }

  // ----- Judging one response -----

  datatype AnswerAction =
    | Deliver(msg: Message)
    | FollowCname(target: Name)
    | FollowDname(target: Name, working: Message)
    | Abort(error: RecursorError)
    | FallThrough

  predicate HasRecord(records: seq<Record>, n: Name, t: RecordType) {
    exists r <- records :: r.name == n && r.Type() == t
  }

  function CnameTargets(records: seq<Record>): set<Name> {
    set r | r in records && r.data.CnameData? :: r.data.target
  }

  /** The alias hop inside one answer section. */
  function AliasOf(answers: seq<Record>): Name -> Option<Name> {
    (n: Name) => CnameTarget(answers, n)
  }

  /** n is k > 0 aliases from name, and no name before it holds the type. */
  ghost predicate AliasEnd(answers: seq<Record>, name: Name, rtype: RecordType, k: nat, n: Name) {
    && k > 0 && Iterate(AliasOf(answers), name, k) == Some(n)
    && forall j :: 0 <= j < k ==>
         Iterate(AliasOf(answers), name, j).Some? && !HasRecord(answers, Iterate(AliasOf(answers), name, j).value, rtype)
  }

  ghost predicate AllLack(answers: seq<Record>, path: seq<Name>, rtype: RecordType) {
    forall i :: 0 <= i < |path| ==> !HasRecord(answers, path[i], rtype)
  }

  lemma LackNext(answers: seq<Record>, path: seq<Name>, n: Name, rtype: RecordType)
    requires AllLack(answers, path, rtype) && !HasRecord(answers, n, rtype)
    ensures AllLack(answers, path + [n], rtype)
  {
  }

  predicate Lists(path: seq<Name>, seen: set<Name>) {
    seen == set n | n in path
  }

  lemma ListsNext(path: seq<Name>, seen: set<Name>, n: Name)
    requires Lists(path, seen)
    ensures Lists(path + [n], seen + {n})
  {
  }

  lemma PathEnds(answers: seq<Record>, name: Name, rtype: RecordType, path: seq<Name>, n: Name)
    requires path != [] && Follows(AliasOf(answers), name, path) && Iterate(AliasOf(answers), name, |path|) == Some(n)
    requires AllLack(answers, path, rtype)
    ensures AliasEnd(answers, name, rtype, |path|, n)
  {
  }

  /** The end of the CNAME chain inside one response, or where it first meets the
      type asked for; None when it loops. */
  method FollowWithin(name: Name, rtype: RecordType, answers: seq<Record>, first: Name)
    returns (end: Option<Name>, ghost hops: nat)
    requires CnameTarget(answers, name) == Some(first) && !HasRecord(answers, name, rtype)
    ensures end.Some? ==> AliasEnd(answers, name, rtype, hops, end.value)
    ensures end.Some? ==> HasRecord(answers, end.value, rtype) || CnameTarget(answers, end.value).None?
    ensures end.None? ==> forall k: nat :: Iterate(AliasOf(answers), name, k).Some?
  {
    var current := first;
    var seen := {name};
    ghost var path := [name];
    TargetListed(answers, name);
    FollowsOne(AliasOf(answers), name);
    while true
      invariant path != [] && Lists(path, seen)
      invariant AllLack(answers, path, rtype)
      invariant Follows(AliasOf(answers), name, path)
      invariant Iterate(AliasOf(answers), name, |path|) == Some(current)
      invariant current in CnameTargets(answers)
      decreases |CnameTargets(answers) - seen|
    {
      if current in seen {
        ghost var i := BackOnPath(AliasOf(answers), name, path, current);
        return None, 0;
      }
      Smaller(CnameTargets(answers), seen, current);
      FollowsMore(AliasOf(answers), name, path, current);
      PathEnds(answers, name, rtype, path, current);
      hops := |path|;
      if HasRecord(answers, current, rtype) {
        return Some(current), hops;
      }
      var next := CnameTarget(answers, current);
      if next.None? {
        return Some(current), hops;
      }
      ListsNext(path, seen, current);
      LackNext(answers, path, current, rtype);
      seen := seen + {current};
      path := path + [current];
      TargetListed(answers, current);
      current := next.value;
    }
  }

  lemma {:induction false} TargetListed(answers: seq<Record>, n: Name)
    ensures CnameTarget(answers, n).Some? ==> CnameTarget(answers, n).value in CnameTargets(answers)
  {
    if answers != [] {
      TargetListed(answers[1..], n);
      assert forall r :: r in answers[1..] ==> r in answers;
    }
  }

  lemma Smaller(all: set<Name>, seen: set<Name>, n: Name)
    requires n in all && n !in seen
    ensures |all - (seen + {n})| < |all - seen|
  {
    assert all - seen == (all - (seen + {n})) + {n};
  }

  function FirstDname(answers: seq<Record>, name: Name): (r: Option<Record>)
    ensures r.Some? ==> r.value in answers && r.value.data.DnameData? && ZoneOf(r.value.name, name) && r.value.name != name
  {
    if answers == [] then None
    else if ZoneOf(answers[0].name, name) && answers[0].name != name && answers[0].data.DnameData? then Some(answers[0])
    else FirstDname(answers[1..], name)
  }

  function DnameOver(name: Name): Record -> bool {
    (r: Record) => r.data.DnameData? && ZoneOf(r.name, name) && r.name != name
  }

  /** It is the first DNAME of a proper ancestor, and there is none only where none is such. */
  lemma {:induction false} FirstDnameExactly(answers: seq<Record>, name: Name, r: Record)
    ensures FirstDname(answers, name) == Some(r) <==> IsFirst(answers, DnameOver(name), r)
    ensures FirstDname(answers, name).None? <==> forall x <- answers :: !DnameOver(name)(x)
  {
    if answers != [] {
      FirstDnameExactly(answers[1..], name, r);
      IsFirstCons(answers, DnameOver(name), r);
      assert answers == [answers[0]] + answers[1..];
    }
  }

  const IN: U16 := 1

  /** What the resolver may do about a response in which name is an alias. */
  ghost predicate FollowsAliases(name: Name, rtype: RecordType, response: Message, a: AnswerAction) {
    var answers := response.answers;
    match a
    case Deliver(msg) => msg == response && exists k, n :: AliasEnd(answers, name, rtype, k, n) && HasRecord(answers, n, rtype)
    case FollowCname(target) =>
      && (exists k :: AliasEnd(answers, name, rtype, k, target))
      && !HasRecord(answers, target, rtype) && CnameTarget(answers, target).None?
    case Abort(error) => error.NoProgress? && forall k: nat :: Iterate(AliasOf(answers), name, k).Some?
    case _ => false
  }

  /** The response with the CNAME that a DNAME implies, unless it is there already. */
  function Synthesized(name: Name, response: Message, ttl: U32, target: Name): (m: Message)
    ensures response.answers <= m.answers && HasRecord(m.answers, name, CNAME)
    ensures m.(answers := response.answers) == response
    ensures HasRecord(response.answers, name, CNAME) ==> m == response
    ensures !HasRecord(response.answers, name, CNAME) ==>
      m.answers == response.answers + [Record(name, 1, ttl, CnameData(target))]
  {
    if HasRecord(response.answers, name, CNAME) then response
    else
      var synth := Record(name, IN, ttl, CnameData(target));
      assert (response.answers + [synth])[|response.answers|] == synth;
      response.(answers := response.answers + [synth])
  }

  /** What the resolver may do about a response with the DNAME d above name. */
  ghost predicate FollowsDname(name: Name, rtype: RecordType, response: Message, d: Record, a: AnswerAction)
    requires d.data.DnameData?
  {
    match Dname.Substitute(name, d.name, d.data.target)
    case Err(code) => if code == YXDomain then a == Deliver(response.(code := YXDomain)) else a == Abort(NoProgress)
    case Ok(target) =>
      var working := Synthesized(name, response, d.ttl, target);
      if HasRecord(working.answers, target, rtype) then a == Deliver(working) else a == FollowDname(target, working)
  }

  /** What an answer section asks the resolver to do: deliver the type asked for, follow
      a CNAME chain, apply a DNAME, or nothing. */
  ghost predicate Judged(name: Name, rtype: RecordType, response: Message, a: AnswerAction) {
    if HasRecord(response.answers, name, rtype) then a == Deliver(response)
    else if CnameTarget(response.answers, name).Some? then FollowsAliases(name, rtype, response, a)
    else if FirstDname(response.answers, name).Some?
    then FollowsDname(name, rtype, response, FirstDname(response.answers, name).value, a)
    else a == FallThrough
  }

  method JudgeAnswers(name: Name, rtype: RecordType, response: Message) returns (a: AnswerAction)
    ensures Judged(name, rtype, response, a)
  {
    var answers := response.answers;
    if HasRecord(answers, name, rtype) {
      return Deliver(response);
    }
    var cname := CnameTarget(answers, name);
    if cname.Some? {
      var end, hops := FollowWithin(name, rtype, answers, cname.value);
      if end.None? {
        return Abort(NoProgress);
      }
      if HasRecord(answers, end.value, rtype) {
        return Deliver(response);
      }
      return FollowCname(end.value);
    }
    var dname := FirstDname(answers, name);
    if dname.None? {
      return FallThrough;
    }
    var substitution := Dname.Substitute(name, dname.value.name, dname.value.data.target);
    match substitution
    case Err(code) =>
      a := if code == YXDomain then Deliver(response.(code := YXDomain)) else Abort(NoProgress);
    case Ok(substituted) =>
      var working := Synthesized(name, response, dname.value.ttl, substituted);
      a := if HasRecord(working.answers, substituted, rtype) then Deliver(working) else FollowDname(substituted, working);
  }

  /** extra's records that the list does not hold yet, appended in order; records
      count as equal when they differ in their TTLs alone. */
  function AppendNew(records: seq<Record>, extra: seq<Record>): (r: seq<Record>)
    ensures records <= r
    ensures forall x <- r :: x in records || x in extra
    ensures forall c :: Holds(r, c) <==> Holds(records, c) || Holds(extra, c)
    ensures forall i, j :: 0 <= i < j < |r| && |records| <= j ==> ContentOf(r[i]) != ContentOf(r[j])
    decreases |extra|
  {
    if extra == [] then records
    else
      HoldsSplit(extra);
      if Holds(records, ContentOf(extra[0])) then AppendNew(records, extra[1..])
      else
        HoldsSnoc(records, extra[0]);
        AppendNew(records + [extra[0]], extra[1..])
  }

  /** One more record is appended exactly if neither the list nor the records before it
      hold it already. */
  lemma {:induction false} AppendNewSnoc(records: seq<Record>, extra: seq<Record>, x: Record)
    ensures AppendNew(records, []) == records
    ensures AppendNew(records, extra + [x]) ==
      AppendNew(records, extra) + if Holds(records, ContentOf(x)) || Holds(extra, ContentOf(x)) then [] else [x]
    decreases |extra|
  {
    if extra == [] {
      assert [] + [x] == [x] && [x][1..] == [];
      assert !Holds([], ContentOf(x)) && records + [] == records;
    } else {
      assert (extra + [x])[0] == extra[0] && (extra + [x])[1..] == extra[1..] + [x];
      HoldsSplit(extra);
      if Holds(records, ContentOf(extra[0])) {
        AppendNewSnoc(records, extra[1..], x);
      } else {
        HoldsSnoc(records, extra[0]);
        AppendNewSnoc(records + [extra[0]], extra[1..], x);
      }
    }
  }

  lemma HoldsSplit(s: seq<Record>)
    requires s != []
    ensures forall c :: Holds(s, c) <==> c == ContentOf(s[0]) || Holds(s[1..], c)
  {
    assert s == [s[0]] + s[1..];
    assert s[0] in s;
  }

  lemma HoldsSnoc(s: seq<Record>, x: Record)
    ensures forall c :: Holds(s + [x], c) <==> Holds(s, c) || c == ContentOf(x)
  {
    assert x in s + [x];
  }

  function OfTypes(records: seq<Record>, types: set<RecordType>): (r: seq<Record>)
    ensures forall x :: x in r <==> x in records && x.Type() in types
  {
    if records == [] then []
    else if records[0].Type() in types then [records[0]] + OfTypes(records[1..], types)
    else OfTypes(records[1..], types)
  }

  function OfAny(types: set<RecordType>): Record -> bool {
    (r: Record) => r.Type() in types
  }

  lemma {:induction false} OfTypesSelects(records: seq<Record>, types: set<RecordType>)
    ensures Selects(records, OfAny(types), Same(), OfTypes(records, types))
  {
    if records != [] {
      OfTypesSelects(records[1..], types);
      if OfAny(types)(records[0]) {
        SelectsTaken(records, OfAny(types), Same(), records[0], OfTypes(records[1..], types));
      } else {
        SelectsPassed(records, OfAny(types), Same(), OfTypes(records[1..], types));
      }
    }
  }

  /** merge_redirection_response: the hop's answers first, then the target's; the
      target's authority with the hop's denial and signature records added. */
  function Merge(hop: Message, final: Message): (m: Message)
    ensures hop.answers <= m.answers
    ensures forall x <- m.answers :: x in hop.answers || x in final.answers
    ensures forall c :: Holds(m.answers, c) <==> Holds(hop.answers, c) || Holds(final.answers, c)
    ensures final.authority <= m.authority
    ensures m.code == final.code && m.authoritative == final.authoritative
  {
    Message(
      final.code, final.authoritative,
      AppendNew(hop.answers, final.answers),
      AppendNew(final.authority, OfTypes(hop.authority, {NSEC, NSEC3, RRSIG})),
      AppendNew(WithoutOpt(final.additionals), OfTypes(hop.additionals, {RRSIG, DNSKEY})))
  }

  /** The target's authority, then the hop's denial and signature records. */
  lemma MergeAuthority(hop: Message, final: Message)
    ensures forall x <- Merge(hop, final).authority ::
      x in final.authority || (x in hop.authority && x.Type() in {NSEC, NSEC3, RRSIG})
    ensures forall x <- hop.authority :: x.Type() in {NSEC, NSEC3, RRSIG} ==> Holds(Merge(hop, final).authority, ContentOf(x))
  {
  }

  /** The target's additional records but OPT, then the hop's signatures and keys. */
  lemma MergeAdditionals(hop: Message, final: Message)
    ensures WithoutOpt(final.additionals) <= Merge(hop, final).additionals
    ensures forall x <- Merge(hop, final).additionals ::
      (x in final.additionals && x.Type() != OPT) || (x in hop.additionals && x.Type() in {RRSIG, DNSKEY})
    ensures forall x <- hop.additionals :: x.Type() in {RRSIG, DNSKEY} ==> Holds(Merge(hop, final).additionals, ContentOf(x))
  {
  }

  datatype Verdict = Terminal(r: Resolution) | Delegation(owner: Name, hosts: seq<Name>)

  function FirstNs(records: seq<Record>): (r: Option<Record>)
    ensures r.Some? ==> r.value in records && r.value.Type() == NS
  {
    if records == [] then None
    else if records[0].Type() == NS then Some(records[0])
    else FirstNs(records[1..])
  }

  function NsHosts(records: seq<Record>): seq<Name> {
    if records == [] then []
    else if records[0].data.NsData? then [records[0].data.host] + NsHosts(records[1..])
    else NsHosts(records[1..])
  }

  function FirstSoaOwner(records: seq<Record>): Option<Name> {
    if records == [] then None
    else if records[0].data.SoaData? then Some(records[0].name)
    else FirstSoaOwner(records[1..])
  }

  /** Whether a response without a usable answer ends the walk or delegates it. */
  function JudgeReferral(name: Name, rtype: RecordType, response: Message, bailiwick: Name,
                         lastZone: Option<Name>): (v: Verdict)
    ensures v.Delegation? ==>
      && AcceptsReferral(name, bailiwick, lastZone, v.owner)
      && v.hosts != []
      && forall r <- response.authority :: r.Type() == NS ==> r.name == v.owner
    ensures v.Terminal? ==> v.r == Resolved(response) || v.r == Failed(NoProgress)
  {
    var soa := FirstSoaOwner(response.authority);
    if soa.Some? && (ZoneOf(soa.value, name) || (rtype == DS && (ZoneOf(name, soa.value) || ZoneOf(soa.value, name))))
    then Terminal(Resolved(response))
    else if response.code == NXDomain && response.authoritative then Terminal(Resolved(response))
    else if response.authority == [] then Terminal(Failed(NoProgress))
    else
      match FirstNs(response.authority)
      case None => Terminal(Resolved(response))
      case Some(first) =>
        if exists r <- response.authority :: r.Type() == NS && r.name != first.name then Terminal(Failed(NoProgress))
        else if NsHosts(response.authority) == [] then Terminal(Resolved(response))
        else if !AcceptsReferral(name, bailiwick, lastZone, first.name) then Terminal(Failed(NoProgress))
        else Delegation(first.name, NsHosts(response.authority))
  }

  // ----- When a response delegates, is returned, or fails -----

  function OwnedAs(owner: Name): Record -> bool {
    (r: Record) => r.name == owner
  }

  lemma {:induction false} SoaOwnerExactly(records: seq<Record>, owner: Name)
    ensures FirstSoaOwner(records) == Some(owner) <==> FirstIs(records, OfSoa(), OwnedAs(owner))
    ensures FirstSoaOwner(records).None? <==> forall r <- records :: !r.data.SoaData?
  {
    if records != [] {
      SoaOwnerExactly(records[1..], owner);
      FirstIsCons(records, OfSoa(), OwnedAs(owner));
      assert records == [records[0]] + records[1..];
    }
  }

  function IsHost(): Record -> bool {
    (r: Record) => r.data.NsData?
  }

  function HostIn(): (Record, Name) -> bool {
    (r: Record, n: Name) => r.data == NsData(n)
  }

  lemma {:induction false} NsHostsSelects(records: seq<Record>)
    ensures Selects(records, IsHost(), HostIn(), NsHosts(records))
  {
    if records != [] {
      NsHostsSelects(records[1..]);
      if IsHost()(records[0]) {
        SelectsTaken(records, IsHost(), HostIn(), records[0].data.host, NsHosts(records[1..]));
      } else {
        SelectsPassed(records, IsHost(), HostIn(), NsHosts(records[1..]));
      }
    }
  }

  lemma {:induction false} FirstNsExists(records: seq<Record>)
    ensures FirstNs(records).None? <==> forall r <- records :: r.Type() != NS
    ensures NsHosts(records) == [] <==> forall r <- records :: !r.data.NsData?
  {
    if records != [] {
      FirstNsExists(records[1..]);
      assert records == [records[0]] + records[1..];
    }
  }

  /** The first SOA of the authority section belongs to a zone at or above the name, or
      for a DS query below it. */
  ghost predicate SpeaksFor(name: Name, rtype: RecordType, authority: seq<Record>) {
    exists owner :: FirstIs(authority, OfSoa(), OwnedAs(owner)) && (ZoneOf(owner, name) || (rtype == DS && ZoneOf(name, owner)))
  }

  /** All NS records are owner's. */
  ghost predicate NsOwner(authority: seq<Record>, owner: Name) {
    && (exists r <- authority :: r.Type() == NS && r.name == owner)
    && forall r <- authority :: r.Type() == NS ==> r.name == owner
  }

  ghost predicate Concludes(name: Name, rtype: RecordType, response: Message) {
    SpeaksFor(name, rtype, response.authority) || (response.code == NXDomain && response.authoritative)
  }

  /** A response without a usable answer is returned as it is, delegates, or fails; when
      exactly, and to which zone with which hosts. */
  ghost predicate Refers(name: Name, rtype: RecordType, response: Message, zone: Option<Name>, v: Verdict) {
    var authority := response.authority;
    match v
    case Terminal(Resolved(msg)) =>
      && msg == response
      && (|| Concludes(name, rtype, response)
          || (authority != [] && forall r <- authority :: r.Type() != NS)
          || ((exists owner :: NsOwner(authority, owner)) && forall r <- authority :: !r.data.NsData?))
    case Terminal(Failed(error)) =>
      && error == NoProgress && !Concludes(name, rtype, response)
      && (|| authority == []
          || (exists a <- authority, b <- authority :: a.Type() == NS && b.Type() == NS && a.name != b.name)
          || (exists owner :: NsOwner(authority, owner) && !Below(name, zone, owner) && exists r <- authority :: r.data.NsData?))
    case Delegation(owner, hosts) =>
      && !Concludes(name, rtype, response) && NsOwner(authority, owner) && Below(name, zone, owner)
      && hosts != [] && Selects(authority, IsHost(), HostIn(), hosts)
  }

  /** The owner is at or above the name, within the zone reached, and not that zone again. */
  predicate Below(name: Name, zone: Option<Name>, owner: Name) {
    ZoneOf(owner, name) && (zone.Some? ==> owner != zone.value && ZoneOf(zone.value, owner))
  }

  lemma ReferralExactly(name: Name, rtype: RecordType, response: Message, zone: Option<Name>)
    ensures Refers(name, rtype, response, zone, JudgeReferral(name, rtype, response, zone.GetOr([]), zone))
  {
    var authority := response.authority;
    SpeaksExactly(name, rtype, authority);
    FirstNsExists(authority);
    var first := FirstNs(authority);
    if !Concludes(name, rtype, response) && first.Some? {
      NsHostsSelects(authority);
      BelowExactly(name, zone, first.value.name);
      assert first.value in authority;
      if forall r <- authority :: r.Type() == NS ==> r.name == first.value.name {
        assert NsOwner(authority, first.value.name);
      }
    }
  }

  lemma BelowExactly(name: Name, zone: Option<Name>, owner: Name)
    ensures AcceptsReferral(name, zone.GetOr([]), zone, owner) <==> Below(name, zone, owner)
  {
  }

  lemma SpeaksExactly(name: Name, rtype: RecordType, authority: seq<Record>)
    ensures
      var soa := FirstSoaOwner(authority);
      SpeaksFor(name, rtype, authority) <==>
        soa.Some? && (ZoneOf(soa.value, name) || (rtype == DS && (ZoneOf(name, soa.value) || ZoneOf(soa.value, name))))
  {
    forall owner { SoaOwnerExactly(authority, owner); }
  }

  /** Glue addresses for the listed hosts inside the current or the delegated zone. */
  function Glue(additionals: seq<Record>, hosts: seq<Name>, bailiwick: Name, owner: Name): seq<Ip> {
    if additionals == [] then []
    else
      var a, rest := additionals[0], Glue(additionals[1..], hosts, bailiwick, owner);
      if a.name in hosts && (ZoneOf(bailiwick, a.name) || ZoneOf(owner, a.name))
      then
        match a.data
        case AData(ip) => [ip] + rest
        case AaaaData(ip) => [ip] + rest
        case _ => rest
      else rest
  }

  predicate IsGlue(r: Record, hosts: seq<Name>, bailiwick: Name, owner: Name) {
    r.Type() in {A, AAAA} && (r.data.AData? || r.data.AaaaData?) && r.name in hosts
    && (ZoneOf(bailiwick, r.name) || ZoneOf(owner, r.name))
  }

  function GlueFor(hosts: seq<Name>, bailiwick: Name, owner: Name): Record -> bool {
    (r: Record) => IsGlue(r, hosts, bailiwick, owner)
  }

  function AddressIn(): (Record, Ip) -> bool {
    (r: Record, ip: Ip) => r.data == AData(ip) || r.data == AaaaData(ip)
  }

  /** Exactly the addresses that the additional section gives for listed hosts inside the
      bailiwick or the delegated zone. */
  lemma {:induction false} GlueSelects(additionals: seq<Record>, hosts: seq<Name>, bailiwick: Name, owner: Name)
    ensures Selects(additionals, GlueFor(hosts, bailiwick, owner), AddressIn(), Glue(additionals, hosts, bailiwick, owner))
  {
    if additionals != [] {
      var p, rest := GlueFor(hosts, bailiwick, owner), Glue(additionals[1..], hosts, bailiwick, owner);
      GlueSelects(additionals[1..], hosts, bailiwick, owner);
      if p(additionals[0]) {
        SelectsTaken(additionals, p, AddressIn(), additionals[0].data.ip, rest);
      } else {
        SelectsPassed(additionals, p, AddressIn(), rest);
      }
    }
  }

  function SafeOnly(ips: seq<Ip>, safe: Ip -> bool): (r: seq<Ip>)
    ensures forall ip <- r :: safe(ip)
  {
    if ips == [] then []
    else if safe(ips[0]) then [ips[0]] + SafeOnly(ips[1..], safe)
    else SafeOnly(ips[1..], safe)
  }

  function AddressesOf(answers: seq<Record>, t: RecordType): seq<Ip> {
    if answers == [] then []
    else if t == A && answers[0].data.AData? then [answers[0].data.ip] + AddressesOf(answers[1..], t)
    else if t == AAAA && answers[0].data.AaaaData? then [answers[0].data.ip] + AddressesOf(answers[1..], t)
    else AddressesOf(answers[1..], t)
  }

  lemma {:induction false} SafeOnlySelects(ips: seq<Ip>, safe: Ip -> bool)
    ensures Selects(ips, safe, Same(), SafeOnly(ips, safe))
  {
    if ips != [] {
      SafeOnlySelects(ips[1..], safe);
      if safe(ips[0]) {
        SelectsTaken(ips, safe, Same(), ips[0], SafeOnly(ips[1..], safe));
      } else {
        SelectsPassed(ips, safe, Same(), SafeOnly(ips[1..], safe));
      }
    }
  }

  predicate HasAddress(r: Record, t: RecordType) {
    (t == A && r.data.AData?) || (t == AAAA && r.data.AaaaData?)
  }

  function WithAddress(t: RecordType): Record -> bool {
    (r: Record) => HasAddress(r, t)
  }

  lemma {:induction false} AddressesSelect(answers: seq<Record>, t: RecordType)
    ensures Selects(answers, WithAddress(t), AddressIn(), AddressesOf(answers, t))
  {
    if answers != [] {
      AddressesSelect(answers[1..], t);
      if WithAddress(t)(answers[0]) {
        SelectsTaken(answers, WithAddress(t), AddressIn(), answers[0].data.ip, AddressesOf(answers[1..], t));
      } else {
        SelectsPassed(answers, WithAddress(t), AddressIn(), AddressesOf(answers[1..], t));
      }
    }
  }

  function Dedup(ips: seq<Ip>): (r: seq<Ip>)
    ensures forall ip :: ip in r <==> ip in ips
    ensures forall i, j :: 0 <= i < j < |r| ==> r[i] != r[j]
  {
    if ips == [] then []
    else
      var init := Dedup(ips[..|ips| - 1]);
      var last := ips[|ips| - 1];
      assert ips == ips[..|ips| - 1] + [last];
      if last in init then init else init + [last]
  }

  function DelegationTtl(msg: Message): nat {
    var m := Ttl.Lowest(msg.authority + msg.additionals);
    if m == Ttl.MAX_TTL then MIN_DELEGATION_TTL
    else if m < MAX_DELEGATION_TTL then m else MAX_DELEGATION_TTL
  }

  /** A delegation is kept for as long as the shortest-lived of its records, two days at
      most; five minutes when no record limits it. */
  lemma DelegationTtlExactly(msg: Message)
    ensures
      var records := msg.authority + msg.additionals;
      if forall r <- records :: r.ttl == 0xFFFF_FFFF then DelegationTtl(msg) == 300
      else if forall r <- records :: r.ttl >= 172800 then DelegationTtl(msg) == 172800
      else (exists r <- records :: DelegationTtl(msg) == r.ttl) && forall r <- records :: DelegationTtl(msg) <= r.ttl
  {
    Ttl.LowestBounds(msg.authority + msg.additionals);
  }

  /** A name deep enough for its referral walk to run out of steps. */
  ghost predicate LongName(n: Name) {
    |n| >= 14
  }

  /** Such a name was followed as an alias target. */
  ghost predicate LongAlias(visited: set<VisitKey>) {
    exists k <- visited :: !k.NsKey? && LongName(k.Target())
  }

  /** Where the search of the delegation cache begins. */
  function StartOf(name: Name, rtype: RecordType): Name {
    if rtype == DS then BaseName(name) else name
  }

  /** A cached delegation may be used for a query if it is at or above the name; for the
      name's own DS only above. */
  predicate MayStart(z: Name, name: Name, rtype: RecordType) {
    ZoneOf(z, name) && (rtype == DS && name != [] ==> z != name)
  }

  lemma StartExactly(name: Name, rtype: RecordType, z: Name)
    ensures ZoneOf(z, StartOf(name, rtype)) <==> MayStart(z, name, rtype)
  {
    ZoneOfBase(z, name);
  }

  /** The members of zones at or above start are all at or above current. */
  ghost predicate NoneBelow(zones: set<Name>, start: Name, current: Name) {
    forall z <- zones | ZoneOf(z, start) :: ZoneOf(z, current)
  }

  lemma NoneBelowParent(zones: set<Name>, start: Name, current: Name)
    requires NoneBelow(zones, start, current) && current !in zones
    ensures NoneBelow(zones, start, BaseName(current))
  {
    forall z <- zones | ZoneOf(z, start) ensures ZoneOf(z, BaseName(current)) {
      ZoneOfBase(z, current);
    }
  }

  /** The codes a resolution can end with; every other upstream code is a failure. */
  predicate Final(code: ResponseCode) {
    code in {NoError, NXDomain, YXDomain}
  }

  // ----- What a resolution hears and what it makes of it -----

  /** Rounds of queries with their response, and zones entered with their servers, the
      latest outermost. */
  datatype Trace =
    | Silence
    | Heard(before: Trace, servers: seq<Ip>, name: Name, rtype: RecordType, response: Option<Message>)
    | Entered(before: Trace, zone: Name, servers: seq<Ip>)

  predicate Grows(log: Trace, earlier: Trace) {
    log == earlier || (!log.Silence? && Grows(log.before, earlier))
  }

  lemma {:induction false} GrowsTransitive(log: Trace, middle: Trace, earlier: Trace)
    requires Grows(log, middle) && Grows(middle, earlier)
    ensures Grows(log, earlier)
  {
    if log != middle {
      GrowsTransitive(log.before, middle, earlier);
    }
  }

  /** The log ends with this response to the walk's query, from servers of the zone that
      the walk had just entered, if it had entered one. */
  predicate EndsWith(log: Trace, name: Name, rtype: RecordType, response: Message, zone: Option<Name>) {
    && log.Heard? && log.name == name && log.rtype == rtype && log.response == Some(response)
    && (zone.Some? ==> log.before.Entered? && log.before.zone == zone.value && log.before.servers == log.servers)
  }

  /** The answer section asks for nothing. */
  ghost predicate Irrelevant(name: Name, rtype: RecordType, response: Message) {
    response.answers == [] || Judged(name, rtype, response, FallThrough)
  }

  ghost predicate EndsBy(name: Name, rtype: RecordType, response: Message, a: AnswerAction, r: Resolution) {
    && response.answers != [] && Judged(name, rtype, response, a)
    && match a
       case Deliver(msg) => r == Resolved(msg)
       case Abort(error) => r == Failed(error)
       case _ => false
  }

  /** The response alone decides: by its answers, or as one that refers nowhere. */
  ghost predicate Decides(name: Name, rtype: RecordType, response: Message, zone: Option<Name>, r: Resolution) {
    || (exists a :: EndsBy(name, rtype, response, a, r))
    || (Irrelevant(name, rtype, response) && Refers(name, rtype, response, zone, Terminal(r)))
  }

  /** It delegates. */
  ghost predicate Delegates(name: Name, rtype: RecordType, response: Message, zone: Option<Name>, owner: Name,
                            hosts: seq<Name>) {
    Irrelevant(name, rtype, response) && Refers(name, rtype, response, zone, Delegation(owner, hosts))
  }

  /** It is a hop to the target, to be put in front of what the target resolves to. */
  ghost predicate Redirects(name: Name, rtype: RecordType, response: Message, target: Name, hop: Message) {
    && response.answers != []
    && (|| (hop == response && Judged(name, rtype, response, FollowCname(target)))
        || Judged(name, rtype, response, FollowDname(target, hop)))
  }

  /** How a resolution ended. */
  datatype Story =
    | TooDeep
    | Unanswered
    | StepsUsed
    | Decided(response: Message, zone: Option<Name>)
    | NoAddress(response: Message, zone: Option<Name>, at: Trace)
    | Revisited(response: Message, zone: Option<Name>, target: Name)
    | Redirected(response: Message, zone: Option<Name>, at: Trace, target: Name, hop: Message, inner: Resolution, rest: Story)

  /** The story accounts for the outcome r of resolving the name, from what was heard after since. */
  ghost predicate Tells(story: Story, name: Name, rtype: RecordType, r: Resolution, log: Trace, since: Trace)
    decreases story, 1
  {
    Grows(log, since) && Accounts(story, name, rtype, r, log, since)
  }

  ghost predicate Accounts(story: Story, name: Name, rtype: RecordType, r: Resolution, log: Trace, since: Trace)
    decreases story, 0
  {
    match story
    case TooDeep => r == Failed(DepthExceeded) && log == since
    case Unanswered =>
      && r == Failed(AllNameserversFailed)
      && log.Heard? && log.name == name && log.rtype == rtype && log.response.None? && Grows(log.before, since)
    case StepsUsed => r == Failed(StepLimitExceeded)
    case Decided(response, zone) =>
      EndsWith(log, name, rtype, response, zone) && Grows(log.before, since) && Decides(name, rtype, response, zone, r)
    case NoAddress(response, zone, at) =>
      && EndsWith(at, name, rtype, response, zone) && Grows(at.before, since) && Grows(log, at)
      && r == Failed(GlueResolutionFailed) && exists owner, hosts :: Delegates(name, rtype, response, zone, owner, hosts)
    case Revisited(response, zone, target) =>
      && EndsWith(log, name, rtype, response, zone) && Grows(log.before, since)
      && r == Failed(NoProgress) && exists hop :: Redirects(name, rtype, response, target, hop)
    case Redirected(response, zone, at, target, hop, inner, rest) =>
      && EndsWith(at, name, rtype, response, zone) && Grows(at.before, since)
      && Redirects(name, rtype, response, target, hop) && Tells(rest, target, rtype, inner, log, at)
      && r == Joined(hop, inner)
  }

  function Joined(hop: Message, inner: Resolution): Resolution {
    if inner.Resolved? then Resolved(Merge(hop, inner.msg)) else inner
  }

  lemma TellsSince(story: Story, name: Name, rtype: RecordType, r: Resolution, log: Trace, since: Trace, earlier: Trace)
    requires Tells(story, name, rtype, r, log, since) && Grows(since, earlier) && !story.TooDeep?
    ensures Tells(story, name, rtype, r, log, earlier)
  {
    assert Accounts(story, name, rtype, r, log, since);
    GrowsTransitive(log, since, earlier);
    match story
    case StepsUsed =>
    case Unanswered => GrowsTransitive(log.before, since, earlier);
    case Decided(_, _) => GrowsTransitive(log.before, since, earlier);
    case Revisited(_, _, _) => GrowsTransitive(log.before, since, earlier);
    case NoAddress(_, _, at) => GrowsTransitive(at.before, since, earlier);
    case Redirected(_, _, at, _, _, _, _) => GrowsTransitive(at.before, since, earlier);
    assert Accounts(story, name, rtype, r, log, earlier);
  }

  /** A response that holds the type at the name is returned whole. */
  lemma HeldReturned(story: Story, name: Name, rtype: RecordType, r: Resolution, log: Trace, since: Trace)
    requires Tells(story, name, rtype, r, log, since)
    requires story.Decided? || story.NoAddress? || story.Revisited? || story.Redirected?
    requires HasRecord(story.response.answers, name, rtype)
    ensures r == Resolved(story.response)
  {
    assert Accounts(story, name, rtype, r, log, since);
  }

  ghost predicate AddsCname(name: Name, response: Message, more: Message) {
    exists ttl: U32, target ::
      more == response.(answers := response.answers + [Record(name, 1, ttl, CnameData(target))])
  }

  lemma SynthesizedAdds(name: Name, response: Message, ttl: U32, target: Name)
    ensures
      var m := Synthesized(name, response, ttl, target);
      m == response || AddsCname(name, response, m)
  {
    var m := Synthesized(name, response, ttl, target);
    if !HasRecord(response.answers, name, CNAME) {
      assert m == response.(answers := response.answers + [Record(name, 1, ttl, CnameData(target))]);
    }
  }

  lemma DeliveredFrom(name: Name, rtype: RecordType, response: Message, msg: Message)
    requires Judged(name, rtype, response, Deliver(msg))
    ensures msg == response || msg == response.(code := YXDomain) || AddsCname(name, response, msg)
  {
    var d := FirstDname(response.answers, name);
    if d.Some? {
      var s := Dname.Substitute(name, d.value.name, d.value.data.target);
      if s.Ok? { SynthesizedAdds(name, response, d.value.ttl, s.name); }
    }
  }

  lemma HopFrom(name: Name, rtype: RecordType, response: Message, target: Name, hop: Message)
    requires Judged(name, rtype, response, FollowDname(target, hop))
    ensures hop == response || AddsCname(name, response, hop)
  {
    var d := FirstDname(response.answers, name);
    if d.Some? {
      SynthesizedAdds(name, response, d.value.ttl, target);
    }
  }

  /** A resolved message is the deciding response, or that with another code or with the
      CNAME that a DNAME implies; or it is a redirecting response, the same CNAME added
      where a DNAME did it, followed by what the target's records add. */
  lemma ResolvedFrom(story: Story, name: Name, rtype: RecordType, r: Resolution, log: Trace, since: Trace)
    requires Tells(story, name, rtype, r, log, since) && r.Resolved?
    ensures story.Decided? || story.Redirected?
    ensures story.Decided? ==> FromResponse(name, story.response, r.msg)
    ensures story.Redirected? ==>
      && story.inner.Resolved? && Tells(story.rest, story.target, rtype, story.inner, log, story.at)
      && FromHop(name, story.response, story.hop, story.inner.msg, r.msg)
  {
    assert Accounts(story, name, rtype, r, log, since);
    match story
    case Decided(response, zone) =>
      if a :| EndsBy(name, rtype, response, a, r) {
        DeliveredFrom(name, rtype, response, a.msg);
      }
    case Redirected(response, _, _, target, hop, _, _) =>
      if !(hop == response && Judged(name, rtype, response, FollowCname(target))) {
        HopFrom(name, rtype, response, target, hop);
      }
    case _ =>
  }

  ghost predicate FromResponse(name: Name, response: Message, msg: Message) {
    msg == response || msg == response.(code := YXDomain) || AddsCname(name, response, msg)
  }

  /** The hop's answers first, then those of the target that it does not hold, under the
      target's code. */
  ghost predicate FromHop(name: Name, response: Message, hop: Message, inner: Message, msg: Message) {
    && (hop == response || AddsCname(name, response, hop))
    && hop.answers <= msg.answers && msg.code == inner.code
    && forall c :: Holds(msg.answers, c) <==> Holds(hop.answers, c) || Holds(inner.answers, c)
  }

  // ----- Addresses of name servers -----

  /** The safe addresses of the type in what a resolution returned. */
  function GivenBy(r: Resolution, t: RecordType, safe: Ip -> bool): seq<Ip> {
    if r.Resolved? then SafeOnly(AddressesOf(r.msg.answers, t), safe) else []
  }

  /** The address is in the answers of a resolution of the host that lies between the two. */
  ghost predicate Learned(ip: Ip, host: Name, log: Trace, since: Trace) {
    exists t, msg, story, from, to :: LearnedIn(ip, host, t, msg, story, from, to) && Grows(from, since) && Grows(log, to)
  }

  ghost predicate LearnedIn(ip: Ip, host: Name, t: RecordType, msg: Message, story: Story, from: Trace, to: Trace) {
    && t in {A, AAAA} && Tells(story, host, t, Resolved(msg), to, from)
    && exists r <- msg.answers :: HasAddress(r, t) && r.data.ip == ip
  }

  ghost predicate AllLearned(ips: seq<Ip>, hosts: seq<Name>, log: Trace, since: Trace) {
    forall ip <- ips :: exists host <- hosts :: Learned(ip, host, log, since)
  }

  lemma LearnedFrom(story: Story, host: Name, t: RecordType, msg: Message, safe: Ip -> bool, log: Trace, since: Trace)
    requires t in {A, AAAA} && Tells(story, host, t, Resolved(msg), log, since)
    ensures forall ip <- SafeOnly(AddressesOf(msg.answers, t), safe) :: Learned(ip, host, log, since)
  {
    var all := AddressesOf(msg.answers, t);
    AddressesSelect(msg.answers, t);
    SafeOnlySelects(all, safe);
    forall ip <- SafeOnly(all, safe) ensures Learned(ip, host, log, since) {
      SelectsOnly(all, safe, Same(), SafeOnly(all, safe), ip);
      SelectsOnly(msg.answers, WithAddress(t), AddressIn(), all, ip);
      assert LearnedIn(ip, host, t, msg, story, since, log);
    }
  }

  lemma LearnedGrows(ip: Ip, host: Name, log: Trace, since: Trace, later: Trace, earlier: Trace)
    requires Learned(ip, host, log, since) && Grows(later, log) && Grows(since, earlier)
    ensures Learned(ip, host, later, earlier)
  {
    var t, msg, story, from, to :| LearnedIn(ip, host, t, msg, story, from, to) && Grows(from, since) && Grows(log, to);
    GrowsTransitive(from, since, earlier);
    GrowsTransitive(later, log, to);
  }

  lemma LearnedAll(ips: seq<Ip>, hosts: seq<Name>, log: Trace, since: Trace, later: Trace)
    requires AllLearned(ips, hosts, log, since) && Grows(later, log)
    ensures AllLearned(ips, hosts, later, since)
  {
    forall ip <- ips ensures exists host <- hosts :: Learned(ip, host, later, since) {
      var host :| host in hosts && Learned(ip, host, log, since);
      LearnedGrows(ip, host, log, since, later, since);
    }
  }

  lemma LearnedLater(ips: seq<Ip>, host: Name, log: Trace, since: Trace, later: Trace)
    requires (forall ip <- ips :: Learned(ip, host, log, since)) && Grows(later, log)
    ensures forall ip <- ips :: Learned(ip, host, later, since)
  {
    forall ip <- ips ensures Learned(ip, host, later, since) {
      LearnedGrows(ip, host, log, since, later, since);
    }
  }

  lemma LearnedEarlier(ips: seq<Ip>, host: Name, log: Trace, since: Trace, earlier: Trace)
    requires (forall ip <- ips :: Learned(ip, host, log, since)) && Grows(since, earlier)
    ensures forall ip <- ips :: Learned(ip, host, log, earlier)
  {
    forall ip <- ips ensures Learned(ip, host, log, earlier) {
      LearnedGrows(ip, host, log, since, log, earlier);
    }
  }

  lemma SafeOnlyEmpty(ips: seq<Ip>, safe: Ip -> bool)
    ensures SafeOnly(ips, safe) == [] <==> !exists ip <- ips :: safe(ip)
  {
    SafeOnlySelects(ips, safe);
    if ip :| ip in ips && safe(ip) {
      SelectsListed(ips, safe, Same(), SafeOnly(ips, safe), ip);
    }
    if SafeOnly(ips, safe) != [] {
      SelectsOnly(ips, safe, Same(), SafeOnly(ips, safe), SafeOnly(ips, safe)[0]);
    }
  }

  class RecursiveResolver {
    const safe: Ip -> bool
    const rootServers: seq<Ip>
    var clock: nat
    var delegationCache: map<Name, DelegationEntry>
    /** resolve_internal invocations made so far. */
    ghost var calls: nat
    ghost var heard: Trace

    constructor (safe: Ip -> bool, rootServers: seq<Ip>, now: nat)
      requires rootServers != [] && forall ip <- rootServers :: safe(ip)
      ensures Valid() && calls == 0 && delegationCache == map[] && heard == Silence
    {
      this.safe := safe;
      this.rootServers := rootServers;
      clock := now;
      delegationCache := map[];
      calls := 0;
      heard := Silence;
    }

    /** Only safe addresses are ever stored or queried. */
    ghost predicate Valid()
      reads this
    {
      && Usable(rootServers)
      && (forall z <- delegationCache :: Usable(delegationCache[z].servers))
    }

    ghost predicate Usable(servers: seq<Ip>) {
      servers != [] && forall ip <- servers :: safe(ip)
    }

    method NowSecs() returns (now: nat)
      modifies this`clock
      ensures now == clock >= old(clock)
    {
      now :| now >= clock;
      clock := now;
    }

    /** One round over the servers: any NoError or NXDomain response, or none.
        Other tasks may change the shared cache meanwhile. */
    method Query(servers: seq<Ip>, name: Name, rtype: RecordType) returns (r: Option<Message>)
      requires Valid() && Usable(servers)
      modifies this`clock, this`delegationCache, this`heard
      ensures Valid() && heard == Heard(old(heard), servers, name, rtype, r)
      ensures r.Some? ==> r.value.code in {NoError, NXDomain}
    {
      r := *;
      if r.Some? && r.value.code !in {NoError, NXDomain} {
        r := None;
      }
      heard := Heard(heard, servers, name, rtype, r);
      var _ := NowSecs();
    }

    ghost predicate Live(z: Name, now: nat)
      reads this
    {
      z in delegationCache && delegationCache[z].expiresAt > now
    }

    /** The servers of the deepest unexpired cached delegation at or above the name;
        None only when there is no such delegation. A DS query starts at the parent. */
    method FindCachedStart(name: Name, rtype: RecordType) returns (servers: Option<seq<Ip>>, ghost zone: Name)
      requires Valid()
      modifies this`clock
      ensures Valid()
      ensures servers.Some? ==>
        && Usable(servers.value) && Live(zone, clock) && delegationCache[zone].servers == servers.value
        && MayStart(zone, name, rtype)
        && forall z | Live(z, clock) && MayStart(z, name, rtype) :: ZoneOf(z, zone)
      ensures servers.None? ==> forall z | Live(z, clock) :: !MayStart(z, name, rtype)
    {
      forall z ensures ZoneOf(z, StartOf(name, rtype)) <==> MayStart(z, name, rtype) {
        StartExactly(name, rtype, z);
      }
      var now := NowSecs();
      ghost var start := StartOf(name, rtype);
      var current := StartOf(name, rtype);
      while true
        invariant ZoneOf(current, start) && clock == now
        invariant forall z | Live(z, now) && ZoneOf(z, start) :: ZoneOf(z, current)
        decreases |current|
      {
        zone := current;
        if current in delegationCache && delegationCache[current].expiresAt > now {
          return Some(delegationCache[current].servers), zone;
        }
        if current == [] {
          return None, zone;
        }
        forall z | Live(z, now) && ZoneOf(z, start) ensures ZoneOf(z, BaseName(current)) {
          ZoneOfBase(z, current);
        }
        ZoneOfBase(current, start);
        current := BaseName(current);
      }
    }

    /** Removes the deepest cached delegation at or above the name, expired or not,
        if there is one. */
    method PurgeDelegationFor(name: Name, rtype: RecordType) returns (ghost purged: Option<Name>)
      requires Valid()
      modifies this`delegationCache
      ensures Valid()
      ensures purged.None? ==>
        && delegationCache == old(delegationCache)
        && forall z <- delegationCache :: !ZoneOf(z, StartOf(name, rtype))
      ensures purged.Some? ==>
        && purged.value in old(delegationCache) && delegationCache == old(delegationCache) - {purged.value}
        && ZoneOf(purged.value, StartOf(name, rtype))
        && NoneBelow(old(delegationCache).Keys, StartOf(name, rtype), purged.value)
    {
      ghost var start := StartOf(name, rtype);
      var current := StartOf(name, rtype);
      while true
        invariant ZoneOf(current, start) && delegationCache == old(delegationCache)
        invariant NoneBelow(delegationCache.Keys, start, current)
        decreases |current|
      {
        if current in delegationCache {
          delegationCache := delegationCache - {current};
          return Some(current);
        }
        if current == [] {
          return None;
        }
        NoneBelowParent(delegationCache.Keys, start, current);
        ZoneOfBase(current, start);
        current := BaseName(current);
      }
    }

    /** The outermost call. All nested calls of one resolution are accounted for
        by the visited set it ends with. */
    method Resolve(name: Name, rtype: RecordType)
      returns (r: Resolution, ghost visited: set<VisitKey>, ghost story: Story)
      requires Valid()
      modifies this
      ensures Valid()
      ensures calls == old(calls) + 1 + Weight(visited)
      ensures r == Failed(StepLimitExceeded) ==> LongName(name) || LongAlias(visited)
      ensures r.Resolved? ==> Final(r.msg.code)
      ensures Tells(story, name, rtype, r, heard, old(heard)) && !story.TooDeep?
    {
      var v;
      ghost var walk, rounds;
      r, v, walk, rounds, story := ResolveInternal(name, rtype, 0, {});
      visited := v;
    }

    /** One name's own referral walk, with everything it resolves on the way.
        rounds counts its rounds of queries: one for each delegation it accepts,
        one for the response that ends it, and one if a cached start failed. */
    method ResolveInternal(name: Name, rtype: RecordType, depth: nat, visited: set<VisitKey>)
      returns (r: Resolution, visited': set<VisitKey>, ghost walk: seq<Name>, ghost rounds: nat, ghost story: Story)
      requires Valid() && depth <= MAX_DEPTH + 1
      modifies this
      ensures Valid()
      ensures visited <= visited'
      ensures calls + Weight(visited) == old(calls) + 1 + Weight(visited')
      ensures Referrals(name, walk) && rounds <= |walk| + 2 && rounds <= |name| + 3 && rounds <= 16
      ensures r == Failed(StepLimitExceeded) ==> LongName(name) || LongAlias(visited')
      ensures r.Resolved? ==> Final(r.msg.code)
      ensures Tells(story, name, rtype, r, heard, old(heard)) && (story.TooDeep? <==> depth > 16)
      decreases MAX_DEPTH + 1 - depth, 4
    {
      calls := calls + 1;
      if depth > MAX_DEPTH {
        assert Accounts(TooDeep, name, rtype, Failed(DepthExceeded), heard, heard);
        return Failed(DepthExceeded), visited, [], 0, TooDeep;
      }
      r, visited', walk, rounds, story := Walk(name, rtype, depth, visited);
    }

    /** From the deepest cached delegation, or the root servers, down to the end. */
    method Walk(name: Name, rtype: RecordType, depth: nat, visited: set<VisitKey>)
      returns (r: Resolution, visited': set<VisitKey>, ghost walk: seq<Name>, ghost rounds: nat, ghost story: Story)
      requires Valid() && depth <= MAX_DEPTH
      modifies this
      ensures Valid()
      ensures visited <= visited'
      ensures calls + Weight(visited) == old(calls) + Weight(visited')
      ensures Referrals(name, walk) && rounds <= |walk| + 2 && rounds <= |name| + 3 && rounds <= 16
      ensures r == Failed(StepLimitExceeded) ==> LongName(name) || LongAlias(visited')
      ensures r.Resolved? ==> Final(r.msg.code)
      ensures Tells(story, name, rtype, r, heard, old(heard)) && !story.TooDeep?
      decreases MAX_DEPTH + 1 - depth, 3, 3
    {
      visited', walk, rounds := visited, [], 0;
      ghost var since := heard;
      var start, _ := FindCachedStart(name, rtype);
      var usingCached := start.Some?;
      var servers := start.GetOr(rootServers);
      var lastZone: Option<Name> := None;
      var bailiwick: Name := [];
      for step := 0 to MAX_STEPS
        invariant Valid() && Usable(servers) && visited <= visited'
        invariant calls + Weight(visited) == old(calls) + Weight(visited')
        invariant usingCached ==> step == 0
        invariant Referrals(name, walk) && lastZone == LastOf(walk) && bailiwick == lastZone.GetOr([])
        invariant rounds == step <= |walk| + 1
        invariant |walk| <= |name| + 1
        invariant Grows(heard, since)
        invariant lastZone.Some? ==> heard.Entered? && heard.zone == lastZone.value && heard.servers == servers
        invariant lastZone.None? && !usingCached ==> servers == rootServers
      {
        var response := Query(servers, name, rtype);
        rounds := rounds + 1;
        if response.None? {
          if !usingCached {
            story := Unanswered;
            assert Accounts(Unanswered, name, rtype, Failed(AllNameserversFailed), heard, since);
            return Failed(AllNameserversFailed), visited', walk, rounds, story;
          }
          usingCached := false;
          var _ := PurgeDelegationFor(name, rtype);
          servers := rootServers;
          lastZone := None;
          bailiwick := [];
          walk := [];
          continue;
        }
        usingCached := false;
        assert EndsWith(heard, name, rtype, response.value, lastZone);
        var done, owner;
        done, owner, servers, visited', story :=
          UseResponse(name, rtype, response.value, bailiwick, lastZone, since, depth, visited');
        if done.Some? {
          return done.value, visited', walk, rounds, story;
        }
        WalkOn(name, walk, owner);
        walk := walk + [owner];
        bailiwick := owner;
        lastZone := Some(owner);
      }
      story := StepsUsed;
      r := Failed(StepLimitExceeded);
      assert Accounts(StepsUsed, name, rtype, r, heard, since);
    }

    /** One response: it ends the walk or moves it into the delegated zone. */
    method UseResponse(name: Name, rtype: RecordType, response: Message, bailiwick: Name, lastZone: Option<Name>,
                       ghost since: Trace, depth: nat, visited: set<VisitKey>)
      returns (done: Option<Resolution>, owner: Name, servers: seq<Ip>, visited': set<VisitKey>, ghost story: Story)
      requires Valid() && depth <= MAX_DEPTH && Final(response.code) && bailiwick == lastZone.GetOr([])
      requires EndsWith(heard, name, rtype, response, lastZone) && Grows(heard.before, since)
      modifies this
      ensures Valid()
      ensures visited <= visited'
      ensures calls + Weight(visited) == old(calls) + Weight(visited')
      ensures done.Some? && done.value.Resolved? ==> Final(done.value.msg.code)
      ensures done == Some(Failed(StepLimitExceeded)) ==> LongAlias(visited')
      ensures done.None? ==>
        && AcceptsReferral(name, bailiwick, lastZone, owner) && Usable(servers) && Grows(heard, since)
        && heard.Entered? && heard.zone == owner && heard.servers == servers
        && exists hosts :: Delegates(name, rtype, response, lastZone, owner, hosts)
      ensures done.Some? ==> Tells(story, name, rtype, done.value, heard, since) && !story.TooDeep?
      decreases MAX_DEPTH + 1 - depth, 3, 2
    {
      owner, servers := [], [];
      ghost var at := heard;
      done, visited', story := UseAnswers(name, rtype, response, lastZone, depth, visited);
      if done.None? {
        done, owner, servers, visited', story := Descend(name, rtype, response, bailiwick, lastZone, depth, visited');
      }
      if done.Some? {
        TellsSince(story, name, rtype, done.value, heard, at.before, since);
      } else {
        GrowsTransitive(heard, at, since);
      }
    }

    /** The outcome that the answer section of a response settles, if any. */
    method UseAnswers(name: Name, rtype: RecordType, response: Message, ghost zone: Option<Name>, depth: nat,
                      visited: set<VisitKey>)
      returns (done: Option<Resolution>, visited': set<VisitKey>, ghost story: Story)
      requires Valid() && depth <= MAX_DEPTH && Final(response.code)
      requires EndsWith(heard, name, rtype, response, zone)
      modifies this
      ensures Valid()
      ensures visited <= visited'
      ensures calls + Weight(visited) == old(calls) + Weight(visited')
      ensures done.Some? && done.value.Resolved? ==> Final(done.value.msg.code)
      ensures done == Some(Failed(StepLimitExceeded)) ==> LongAlias(visited')
      ensures done.None? ==> visited' == visited && heard == old(heard) && Irrelevant(name, rtype, response)
      ensures done.Some? ==> Tells(story, name, rtype, done.value, heard, old(heard).before) && !story.TooDeep?
      decreases MAX_DEPTH + 1 - depth, 1
    {
      visited', story := visited, Decided(response, zone);
      if response.answers == [] {
        return None, visited', story;
      }
      ghost var at := heard;
      var action := JudgeAnswers(name, rtype, response);
      match action
      case Deliver(msg) =>
        done := Some(Resolved(msg));
        assert EndsBy(name, rtype, response, action, done.value);
        assert Accounts(story, name, rtype, done.value, heard, heard.before);
      case Abort(error) =>
        done := Some(Failed(error));
        assert EndsBy(name, rtype, response, action, done.value);
        assert Accounts(story, name, rtype, done.value, heard, heard.before);
      case FallThrough => done := None;
      case FollowCname(target) =>
        var r;
        assert Redirects(name, rtype, response, target, response);
        r, visited', story := FollowAlias(CnameKey(target), target, name, rtype, response, response, zone, depth, visited');
        done := Some(r);
      case FollowDname(target, working) =>
        var r;
        assert Redirects(name, rtype, response, target, working);
        r, visited', story := FollowAlias(DnameKey(target), target, name, rtype, response, working, zone, depth, visited');
        done := Some(r);
    }

    /** Ends the walk or moves it into the delegated zone. */
    method Descend(name: Name, rtype: RecordType, response: Message, bailiwick: Name, lastZone: Option<Name>,
                   depth: nat, visited: set<VisitKey>)
      returns (done: Option<Resolution>, owner: Name, servers: seq<Ip>, visited': set<VisitKey>, ghost story: Story)
      requires Valid() && depth <= MAX_DEPTH && Final(response.code) && bailiwick == lastZone.GetOr([])
      requires EndsWith(heard, name, rtype, response, lastZone) && Irrelevant(name, rtype, response)
      modifies this
      ensures Valid()
      ensures visited <= visited'
      ensures calls + Weight(visited) == old(calls) + Weight(visited')
      ensures done.Some? && done.value.Resolved? ==> Final(done.value.msg.code)
      ensures done != Some(Failed(StepLimitExceeded))
      ensures done.None? ==>
        && AcceptsReferral(name, bailiwick, lastZone, owner) && Usable(servers) && Grows(heard, old(heard))
        && heard.Entered? && heard.zone == owner && heard.servers == servers
        && exists hosts :: Delegates(name, rtype, response, lastZone, owner, hosts)
      ensures done.Some? ==> Tells(story, name, rtype, done.value, heard, old(heard).before) && !story.TooDeep?
      decreases MAX_DEPTH + 1 - depth, 3, 1
    {
      owner, servers, visited', story := [], [], visited, Decided(response, lastZone);
      ghost var at := heard;
      var verdict := JudgeReferral(name, rtype, response, bailiwick, lastZone);
      ReferralExactly(name, rtype, response, lastZone);
      if verdict.Terminal? {
        assert Accounts(story, name, rtype, verdict.r, heard, heard.before);
        return Some(verdict.r), owner, servers, visited', story;
      }
      owner := verdict.owner;
      assert Delegates(name, rtype, response, lastZone, owner, verdict.hosts);
      servers, visited' := EnterZone(owner, verdict.hosts, response, bailiwick, depth, visited');
      story := NoAddress(response, lastZone, at);
      GrowsTransitive(heard, at, at.before);
      assert Accounts(story, name, rtype, Failed(GlueResolutionFailed), heard, at.before);
      done := if servers == [] then Some(Failed(GlueResolutionFailed)) else None;
    }

    /** Addresses for a delegation, from safe glue or, without any, by resolving its
        hosts; the delegation is cached unless there are none. */
    method EnterZone(owner: Name, hosts: seq<Name>, response: Message, bailiwick: Name, depth: nat, visited: set<VisitKey>)
      returns (servers: seq<Ip>, visited': set<VisitKey>)
      requires Valid() && depth <= MAX_DEPTH
      modifies this
      ensures Valid()
      ensures visited <= visited'
      ensures calls + Weight(visited) == old(calls) + Weight(visited')
      ensures Grows(heard, old(heard))
      ensures servers != [] ==>
        && Usable(servers) && heard.Entered? && heard.zone == owner && heard.servers == servers
        && owner in delegationCache && delegationCache[owner] == DelegationEntry(servers, clock + DelegationTtl(response))
      ensures
        var glue := Glue(response.additionals, hosts, bailiwick, owner);
        if exists ip <- glue :: safe(ip) then Selects(glue, safe, Same(), servers)
        else forall ip <- servers :: exists host <- hosts :: Learned(ip, host, heard, old(heard))
      decreases MAX_DEPTH + 1 - depth, 3, 0
    {
      visited' := visited;
      ghost var glue := Glue(response.additionals, hosts, bailiwick, owner);
      servers := SafeOnly(Glue(response.additionals, hosts, bailiwick, owner), safe);
      SafeOnlySelects(glue, safe);
      SafeOnlyEmpty(glue, safe);
      ghost var given := servers != [];
      if servers == [] {
        ghost var all, tried;
        servers, visited', all, tried := ResolveHosts(hosts, depth, visited');
      }
      if servers != [] {
        var now := NowSecs();
        delegationCache := delegationCache[owner := DelegationEntry(servers, now + DelegationTtl(response))];
        if !given { LearnedAll(servers, hosts, heard, old(heard), Entered(heard, owner, servers)); }
        heard := Entered(heard, owner, servers);
      }
    }

    /** One unvisited alias target, resolved once and merged behind its hop. */
    method FollowAlias(key: VisitKey, target: Name, ghost name: Name, rtype: RecordType, ghost response: Message, hop: Message,
                       ghost zone: Option<Name>, depth: nat, visited: set<VisitKey>)
      returns (r: Resolution, visited': set<VisitKey>, ghost story: Story)
      requires Valid() && depth <= MAX_DEPTH && key in {CnameKey(target), DnameKey(target)}
      requires EndsWith(heard, name, rtype, response, zone) && Redirects(name, rtype, response, target, hop)
      modifies this
      ensures Valid()
      ensures visited <= visited'
      ensures calls + Weight(visited) == old(calls) + Weight(visited')
      ensures r == Failed(StepLimitExceeded) ==> LongAlias(visited')
      ensures r.Resolved? ==> Final(r.msg.code)
      ensures key in visited ==> r == Failed(NoProgress)
      ensures r.Resolved? ==> hop.answers <= r.msg.answers
      ensures if key in visited then story == Revisited(response, zone, target) else story.Redirected? && story.hop == hop
      ensures Tells(story, name, rtype, r, heard, old(heard).before)
      decreases MAX_DEPTH + 1 - depth, 0
    {
      visited', story := visited, Revisited(response, zone, target);
      if key in visited {
        assert Accounts(story, name, rtype, Failed(NoProgress), heard, heard.before);
        return Failed(NoProgress), visited', story;
      }
      WeightInsert(visited, key);
      ghost var at := heard;
      ghost var walk, rounds, rest;
      r, visited', walk, rounds, rest := ResolveInternal(target, rtype, depth + 1, visited + {key});
      story := Redirected(response, zone, at, target, hop, r, rest);
      if r.Resolved? {
        r := Resolved(Merge(hop, r.msg));
      }
      GrowsTransitive(heard, at, at.before);
      assert Accounts(story, name, rtype, r, heard, at.before);
    }

    /** Both address types of one name server, if it was not looked up before. */
    method ResolveHost(host: Name, depth: nat, visited: set<VisitKey>)
      returns (ips: seq<Ip>, visited': set<VisitKey>, ghost first: Resolution, ghost second: Resolution)
      requires Valid() && depth <= MAX_DEPTH
      modifies this
      ensures Valid()
      ensures visited <= visited' && NsKey(host) in visited'
      ensures calls + Weight(visited) == old(calls) + Weight(visited')
      ensures Grows(heard, old(heard))
      ensures forall ip <- ips :: safe(ip) && Learned(ip, host, heard, old(heard))
      ensures ips == if NsKey(host) in visited then [] else GivenBy(first, A, safe) + GivenBy(second, AAAA, safe)
      decreases MAX_DEPTH + 1 - depth, 0
    {
      ips, visited' := [], visited;
      first, second := Failed(NoProgress), Failed(NoProgress);
      if NsKey(host) in visited {
        return;
      }
      WeightInsert(visited, NsKey(host));
      var r;
      ghost var walk, rounds, story;
      ghost var since := heard;
      r, visited', walk, rounds, story := ResolveInternal(host, A, depth + 1, visited + {NsKey(host)});
      ghost var middle := heard;
      first := r;
      if r.Resolved? {
        ips := SafeOnly(AddressesOf(r.msg.answers, A), safe);
        LearnedFrom(story, host, A, r.msg, safe, heard, since);
      }
      r, visited', walk, rounds, story := ResolveInternal(host, AAAA, depth + 1, visited');
      second := r;
      GrowsTransitive(heard, middle, since);
      LearnedLater(ips, host, middle, since, heard);
      if r.Resolved? {
        LearnedFrom(story, host, AAAA, r.msg, safe, heard, middle);
        ghost var more := SafeOnly(AddressesOf(r.msg.answers, AAAA), safe);
        LearnedEarlier(more, host, heard, middle, since);
        ips := ips + SafeOnly(AddressesOf(r.msg.answers, AAAA), safe);
      }
    }

    /** The addresses of up to four name servers, each once. */
    method ResolveHosts(hosts: seq<Name>, depth: nat, visited: set<VisitKey>)
      returns (ips: seq<Ip>, visited': set<VisitKey>, ghost all: seq<Ip>, ghost tried: nat)
      requires Valid() && depth <= MAX_DEPTH
      modifies this
      ensures Valid()
      ensures visited <= visited'
      ensures calls + Weight(visited) == old(calls) + Weight(visited')
      ensures Grows(heard, old(heard))
      ensures tried <= |hosts| && tried <= 4 && (forall i :: 0 <= i < tried ==> NsKey(hosts[i]) in visited')
      ensures tried < |hosts| && tried < 4 ==> |all| >= 4
      ensures forall ip :: ip in ips <==> ip in all
      ensures forall ip <- ips :: safe(ip) && exists host <- hosts :: Learned(ip, host, heard, old(heard))
      ensures forall i, j :: 0 <= i < j < |ips| ==> ips[i] != ips[j]
      decreases MAX_DEPTH + 1 - depth, 2
    {
      var found;
      found, visited', tried := GatherHosts(hosts, depth, visited);
      all := found;
      ips := Dedup(found);
    }

    /** Host by host, until four addresses are known. */
    method GatherHosts(hosts: seq<Name>, depth: nat, visited: set<VisitKey>)
      returns (ips: seq<Ip>, visited': set<VisitKey>, ghost tried: nat)
      requires Valid() && depth <= MAX_DEPTH
      modifies this
      ensures Valid()
      ensures visited <= visited'
      ensures calls + Weight(visited) == old(calls) + Weight(visited')
      ensures Grows(heard, old(heard))
      ensures tried <= |hosts| && tried <= 4 && (forall i :: 0 <= i < tried ==> NsKey(hosts[i]) in visited')
      ensures tried < |hosts| && tried < 4 ==> |ips| >= 4
      ensures (forall ip <- ips :: safe(ip)) && AllLearned(ips, hosts, heard, old(heard))
      decreases MAX_DEPTH + 1 - depth, 1
    {
      ips, visited', tried := [], visited, 0;
      ghost var since := heard;
      var i := 0;
      while i < |hosts| && i < MAX_NS_RESOLVED
        invariant Valid() && visited <= visited'
        invariant calls + Weight(visited) == old(calls) + Weight(visited')
        invariant Grows(heard, since) && tried == i <= |hosts| && i <= MAX_NS_RESOLVED
        invariant forall j :: 0 <= j < i ==> NsKey(hosts[j]) in visited'
        invariant forall ip <- ips :: safe(ip)
        invariant AllLearned(ips, hosts, heard, since)
      {
        ghost var before := heard;
        var more;
        ghost var first, second;
        more, visited', first, second := ResolveHost(hosts[i], depth, visited');
        tried := i + 1;
        LearnedAll(ips, hosts, before, since, heard);
        LearnedEarlier(more, hosts[i], heard, before, since);
        GrowsTransitive(heard, before, since);
        ips := ips + more;
        if |ips| >= 4 {
          break;
        }
        i := i + 1;
      }
    }
  }
}
