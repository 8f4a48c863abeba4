/** The CNAME/DNAME chain of one answer section. */
module Redirection {
  import opened Names
  import opened Records
  import opened Orbits
  import Dname

  const MAX_CNAME_CHAIN: nat := 16

  datatype Step =
    | CnameStep(owner: Name, target: Name)
    | DnameStep(dnameOwner: Name, target: Name, inputName: Name, redirected: Name)
  {
    function Destination(): Name {
      if CnameStep? then target else redirected
    }
  }

  datatype ChainResult = Complete(steps: seq<Step>) | Loop | TooLong

  function CnameTarget(records: seq<Record>, current: Name): Option<Name> {
    if records == [] then None
    else if records[0].name == current && records[0].data.CnameData? then Some(records[0].data.target)
    else CnameTarget(records[1..], current)
  }

  /** The hop a record gives from current if it is a DNAME above it that decodes and
      whose substitution succeeds. */
  function Rewrite(r: Record, current: Name): Option<Step> {
    if r.Type() == DNAME && ZoneOf(r.name, current) && r.name != current && r.data.DnameData? then
      match Dname.Substitute(current, r.name, r.data.target)
      case Ok(redirected) => Some(DnameStep(r.name, r.data.target, current, redirected))
      case Err(_) => None
    else None
  }

  function RewriteOf(current: Name): Record -> Option<Step> {
    (r: Record) => Rewrite(r, current)
  }

  /** The hop of the first record that gives one. */
  function DnameRedirect(records: seq<Record>, current: Name): Option<Step> {
    FirstSome(records, RewriteOf(current))
  }

  /** The one hop an answer section allows from a name. */
  function NextStep(records: seq<Record>, current: Name): Option<Step> {
    match CnameTarget(records, current)
    case Some(target) => Some(CnameStep(current, target))
    case None => DnameRedirect(records, current)
  }

  // ----- Which record gives the hop -----

  function CnameAt(n: Name): Record -> bool {
    (r: Record) => r.name == n && r.data.CnameData?
  }

  function LeadsTo(target: Name): Record -> bool {
    (r: Record) => r.data.CnameData? && r.data.target == target
  }

  lemma {:induction false} CnameExactly(records: seq<Record>, n: Name, target: Name)
    ensures CnameTarget(records, n) == Some(target) <==> FirstIs(records, CnameAt(n), LeadsTo(target))
    ensures CnameTarget(records, n).None? <==> forall r <- records :: !CnameAt(n)(r)
  {
    if records != [] {
      CnameExactly(records[1..], n, target);
      FirstIsCons(records, CnameAt(n), LeadsTo(target));
      assert records == [records[0]] + records[1..];
    }
  }

  /** A DNAME rewrites exactly the names below it. */
  lemma RewriteExactly(r: Record, n: Name, step: Step)
    ensures Rewrite(r, n) == Some(step) <==>
      && r.data.DnameData? && ZoneOf(r.name, n) && r.name != n
      && Dname.Substitute(n, r.name, r.data.target) == Dname.Ok(step.Destination())
      && step == DnameStep(r.name, r.data.target, n, step.Destination())
  {
  }

  /** The first CNAME at the name is always followed; without one, the first DNAME above
      that can rewrite it; and there is no hop only where there is neither. */
  lemma NextStepExactly(records: seq<Record>, n: Name, step: Step)
    ensures NextStep(records, n) == Some(step) <==>
      || (step.CnameStep? && step.owner == n && FirstIs(records, CnameAt(n), LeadsTo(step.target)))
      || ((forall r <- records :: !CnameAt(n)(r)) && FirstIs(records, Makes(RewriteOf(n)), MakesThis(RewriteOf(n), step)))
    ensures NextStep(records, n).None? <==> forall r <- records :: !CnameAt(n)(r) && RewriteOf(n)(r).None?
  {
    CnameExactly(records, n, if step.CnameStep? then step.target else n);
    FirstSomeExactly(records, RewriteOf(n), step);
    FirstSomeNone(records, RewriteOf(n));
  }

  /** The collecting loop as a function of its variables. */
  function Walk(records: seq<Record>, current: Name, seen: set<Name>, chain: seq<Step>): ChainResult
    decreases MAX_CNAME_CHAIN - |chain|
  {
    if current in seen then Loop
    else if |chain| >= MAX_CNAME_CHAIN then TooLong
    else
      match NextStep(records, current)
      case None => Complete(chain)
      case Some(step) => Walk(records, step.Destination(), seen + {current}, chain + [step])
  }

  function Collected(records: seq<Record>, name: Name): ChainResult {
    Walk(records, name, {}, [])
  }

  method Collect(name: Name, records: seq<Record>) returns (r: ChainResult)
    ensures r == Collected(records, name)
  {
    var chain: seq<Step> := [];
    var current := name;
    var seen: set<Name> := {};
    while true
      invariant Collected(records, name) == Walk(records, current, seen, chain)
      decreases MAX_CNAME_CHAIN - |chain|
    {
      if current in seen {
        return Loop;
      }
      if |chain| >= MAX_CNAME_CHAIN {
        return TooLong;
      }
      seen := seen + {current};
      var cname := CnameTarget(records, current);
      if cname.Some? {
        chain := chain + [CnameStep(current, cname.value)];
        current := cname.value;
        continue;
      }
      var dname := DnameRedirect(records, current);
      if dname.Some? {
        chain := chain + [dname.value];
        current := dname.value.Destination();
        continue;
      }
      break;
    }
    r := Complete(chain);
  }

  // ----- The walk against plain iteration of NextStep -----

  /** The destination of the one hop from each name. */
  function HopOf(records: seq<Record>): Name -> Option<Name> {
    (n: Name) =>
      match NextStep(records, n)
      case None => None
      case Some(step) => Some(step.Destination())
  }

  /** The name reached after k hops, if k hops are possible. */
  function Orbit(records: seq<Record>, name: Name, k: nat): Option<Name> {
    Iterate(HopOf(records), name, k)
  }

  /** The first k + 1 names of the orbit exist and are pairwise different. */
  ghost predicate Fresh(records: seq<Record>, name: Name, k: nat) {
    && (forall i :: 0 <= i <= k ==> Orbit(records, name, i).Some?)
    && (forall i, j :: 0 <= i < j <= k ==> Orbit(records, name, i) != Orbit(records, name, j))
  }

  /** steps are the hops taken from name, in order. */
  ghost predicate Hops(records: seq<Record>, name: Name, steps: seq<Step>) {
    forall i :: 0 <= i < |steps| ==>
      Orbit(records, name, i).Some? && NextStep(records, Orbit(records, name, i).value) == Some(steps[i])
  }

  /** What each outcome says about the orbit of name. */
  ghost predicate Describes(records: seq<Record>, name: Name, r: ChainResult) {
    match r
    case Complete(steps) =>
      && |steps| < 16
      && Fresh(records, name, |steps|)
      && Hops(records, name, steps)
      && NextStep(records, Orbit(records, name, |steps|).value).None?
    case Loop =>
      && (exists i: nat, j: nat :: j <= 16 && Revisits(HopOf(records), name, i, j))
      && (forall k: nat :: Orbit(records, name, k).Some?)
    case TooLong => Fresh(records, name, 16)
  }

  lemma {:induction false} WalkDescribes(records: seq<Record>, name: Name, current: Name, path: seq<Name>, chain: seq<Step>)
    requires |chain| == |path| <= MAX_CNAME_CHAIN
    requires Hops(records, name, chain) && Follows(HopOf(records), name, path)
    requires Orbit(records, name, |path|) == Some(current)
    ensures Describes(records, name, Walk(records, current, (set n | n in path), chain))
    decreases MAX_CNAME_CHAIN - |chain|
  {
    var k := |chain|;
    if current in path {
      var i := BackOnPath(HopOf(records), name, path, current);
    } else {
      var path' := path + [current];
      FollowsMore(HopOf(records), name, path, current);
      FollowsFresh(records, name, path');
      if k < MAX_CNAME_CHAIN {
        match NextStep(records, current)
        case None =>
        case Some(step) =>
          assert Hops(records, name, chain + [step]);
          assert (set n | n in path') == (set n | n in path) + {current};
          WalkDescribes(records, name, step.Destination(), path', chain + [step]);
      }
    }
  }

  lemma FollowsFresh(records: seq<Record>, name: Name, path: seq<Name>)
    requires Follows(HopOf(records), name, path) && path != []
    ensures Fresh(records, name, |path| - 1)
  {
  }

  /** The collector refines iteration of NextStep: Complete is a chain of fewer
      than 16 linked hops over distinct names that ends where no hop applies;
      Loop means that the orbit repeats a name and never ends; TooLong means 16
      hops over 17 distinct names. */
  lemma CollectedDescribes(records: seq<Record>, name: Name)
    ensures Describes(records, name, Collected(records, name))
  {
    assert (set n: Name | n in []) == {};
    WalkDescribes(records, name, name, [], []);
  }

  /** The three descriptions exclude one another, so each outcome is returned
      if and only if its description holds. */
  lemma OutcomeExact(records: seq<Record>, name: Name, r: ChainResult)
    requires Describes(records, name, r)
    ensures r == Collected(records, name)
  {
    CollectedDescribes(records, name);
    var c := Collected(records, name);
    if r.Complete? || c.Complete? {
      var e := if r.Complete? then |r.steps| + 1 else |c.steps| + 1;
      assert Orbit(records, name, e).None?;
      if Orbit(records, name, MAX_CNAME_CHAIN).Some? { Prefix(HopOf(records), name, MAX_CNAME_CHAIN, e); }
      if r.Complete? && c.Complete? {
        SameEnd(records, name, r.steps, c.steps);
      }
    } else {
      LoopNotFresh(records, name);
    }
  }

  lemma LoopNotFresh(records: seq<Record>, name: Name)
    ensures !(Describes(records, name, Loop) && Describes(records, name, TooLong))
  {
    if Describes(records, name, Loop) {
      var i: nat, j: nat :| j <= MAX_CNAME_CHAIN && Revisits(HopOf(records), name, i, j);
      assert Orbit(records, name, i) == Orbit(records, name, j);
    }
  }

  lemma SameEnd(records: seq<Record>, name: Name, a: seq<Step>, b: seq<Step>)
    requires Describes(records, name, Complete(a)) && Describes(records, name, Complete(b))
    ensures a == b
  {
    assert Orbit(records, name, |a| + 1).None? && Orbit(records, name, |b| + 1).None?;
    assert !(|a| < |b|) && !(|b| < |a|);
    forall i | 0 <= i < |a| && i < |b| ensures a[i] == b[i] {
      assert NextStep(records, Orbit(records, name, i).value) == Some(b[i]);
    }
  }
}