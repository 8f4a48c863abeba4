/** DNAME substitution on presentation strings (RFC 6672 section 2.2) against
    suffix replacement on labels. */
module Dname {
  import opened Names
  import opened Records

  datatype Substitution = Ok(name: Name) | Err(code: ResponseCode)

  function Join(n: Name): string {
    if n == [] then "" else n[0] + "." + Join(n[1..])
  }

  /** Presentation form of an absolute name. */
  function Format(n: Name): string {
    if n == [] then "." else Join(n)
  }

  function Split(s: string): (r: seq<string>)
    ensures r != []
  {
    if s == "" then [""]
    else if s[0] == '.' then [""] + Split(s[1..])
    else
      var rest := Split(s[1..]);
      [[s[0]] + rest[0]] + rest[1..]
  }

  function TrimEndDots(s: string): string {
    if s != "" && s[|s| - 1] == '.' then TrimEndDots(s[..|s| - 1]) else s
  }

  predicate EndsWith(s: string, suffix: string) {
    |suffix| <= |s| && s[|s| - |suffix|..] == suffix
  }

  /** Parsing of absolute names: no empty label, none over 63, at most 255 on the wire. */
  function Parse(s: string): Option<Name> {
    if s == "." then Some([])
    else if s == "" || s[|s| - 1] != '.' then None
    else
      var labels := Split(s[..|s| - 1]);
      if ValidName(labels) then Some(labels) else None
  }

  /** dname_substitute, step by step on strings. */
  function Substitute(name: Name, owner: Name, target: Name): Substitution {
    if !ZoneOf(owner, name) || owner == name then Err(FormErr)
    else if !EndsWith(Format(name), Format(owner)) then Err(FormErr)
    else
      var prefix := Format(name)[..|Format(name)| - |Format(owner)|];
      var text := prefix + Format(target);
      if |text| > MAX_WIRE then Err(YXDomain)
      else if exists l <- Split(TrimEndDots(text)) :: |l| > MAX_LABEL then Err(YXDomain)
      else
        match Parse(text)
        case Some(n) => Ok(n)
        case None => Err(YXDomain)
  }

  /** Suffix replacement on labels. */
  function Replace(name: Name, owner: Name, target: Name): Substitution
    requires ZoneOf(owner, name)
  {
    var replaced := name[..|name| - |owner|] + target;
    if WireLength(replaced) > MAX_WIRE then Err(YXDomain) else Ok(replaced)
  }

  /** A valid name none of whose labels holds a dot. */
  ghost predicate Plain(n: Name) {
    ValidName(n) && forall l <- n :: DotFree(l)
  }

  ghost predicate DotFree(l: Label) {
    '.' !in l
  }

  ghost predicate PlainLabels(n: Name) {
    forall l <- n :: 0 < |l| && DotFree(l)
  }

  lemma {:induction false} JoinAppend(a: Name, b: Name)
    ensures Join(a + b) == Join(a) + Join(b)
  {
    if a == [] {
      assert a + b == b;
    } else {
      assert (a + b)[1..] == a[1..] + b;
      JoinAppend(a[1..], b);
    }
  }

  lemma {:induction false} JoinLength(n: Name)
    ensures |Join(n)| == WireLength(n) - 1
  {
    if n != [] {
      JoinLength(n[1..]);
    }
  }

  lemma {:induction false} SplitFirst(l: Label, rest: string)
    requires DotFree(l)
    ensures Split(l + "." + rest) == [l] + Split(rest)
    ensures Split(l) == [l]
  {
    if l == "" {
      assert l + "." + rest == "." + rest;
    } else {
      assert (l + "." + rest)[1..] == l[1..] + "." + rest;
      SplitFirst(l[1..], rest);
      assert [l[0]] + l[1..] == l;
    }
  }

  /** The text of a non-root name without its final dot. */
  ghost function Text(n: Name): string
    requires n != []
  {
    Join(n)[..|Join(n)| - 1]
  }

  lemma {:induction false} TextSteps(n: Name)
    requires n != []
    ensures Join(n) != "" && Join(n) == Text(n) + "."
    ensures |n| == 1 ==> Text(n) == n[0]
    ensures |n| > 1 ==> Text(n) == n[0] + "." + Text(n[1..])
  {
    if |n| > 1 {
      TextSteps(n[1..]);
    }
  }

  lemma {:induction false} SplitText(n: Name)
    requires n != [] && PlainLabels(n)
    ensures Split(Text(n)) == n
  {
    TextSteps(n);
    assert n[0] in n;
    if |n| == 1 {
      SplitFirst(n[0], "");
    } else {
      SplitText(n[1..]);
      SplitFirst(n[0], Text(n[1..]));
    }
  }

  lemma {:induction false} TextEnd(n: Name)
    requires n != [] && PlainLabels(n)
    ensures Text(n) != "" && Text(n)[|Text(n)| - 1] != '.'
  {
    TextSteps(n);
    assert n[0] in n;
    if |n| == 1 {
      assert DotFree(n[0]);
    } else {
      TextEnd(n[1..]);
    }
  }

  /** Checking and parsing the text of plain labels gives those labels back
      exactly when they form a valid name. */
  lemma TextOutcome(n: Name)
    requires n != [] && PlainLabels(n)
    ensures Join(n) != "." && Parse(Join(n)) == if ValidName(n) then Some(n) else None
    ensures Split(TrimEndDots(Join(n))) == n
  {
    TextSteps(n);
    TextEnd(n);
    SplitText(n);
    assert Join(n)[..|Join(n)| - 1] == Text(n);
    assert TrimEndDots(Join(n)) == TrimEndDots(Text(n)) == Text(n);
  }

  /** What the code returns for text that is the join of plain labels. */
  lemma JoinedOutcome(name: Name, owner: Name, target: Name, result: Name)
    requires ZoneOf(owner, name) && owner != name && EndsWith(Format(name), Format(owner))
    requires Format(name)[..|Format(name)| - |Format(owner)|] + Format(target) == Join(result)
    requires result != [] && PlainLabels(result)
    ensures Substitute(name, owner, target) == if ValidName(result) then Ok(result) else Err(YXDomain)
  {
    TextOutcome(result);
    JoinLength(result);
  }

  lemma PrefixText(name: Name, owner: Name)
    requires Plain(name) && ZoneOf(owner, name) && owner != name && owner != []
    ensures EndsWith(Format(name), Format(owner))
    ensures Format(name)[..|Format(name)| - |Format(owner)|] == Join(name[..|name| - |owner|])
  {
    var prefix := name[..|name| - |owner|];
    assert name == prefix + owner;
    JoinAppend(prefix, owner);
  }

  /** For owner and target other than the root the second format check is dead
      and the string code is exactly suffix replacement: the concatenated
      labels, or YXDomain precisely when they do not fit on the wire. */
  lemma SubstituteIsReplace(name: Name, owner: Name, target: Name)
    requires Plain(name) && Plain(target) && ZoneOf(owner, name) && owner != name
    requires owner != [] && target != []
    ensures EndsWith(Format(name), Format(owner))
    ensures Substitute(name, owner, target) == Replace(name, owner, target)
  {
    var prefix := name[..|name| - |owner|];
    PrefixText(name, owner);
    JoinAppend(prefix, target);
    JoinedOutcome(name, owner, target, prefix + target);
  }

  /** What the code returns for text that does not parse. */
  lemma RefusedOutcome(name: Name, owner: Name, target: Name, text: string)
    requires ZoneOf(owner, name) && owner != name && EndsWith(Format(name), Format(owner))
    requires Format(name)[..|Format(name)| - |Format(owner)|] + Format(target) == text
    requires Parse(text).None?
    ensures Substitute(name, owner, target) == Err(YXDomain)
  {
  }

  lemma PrefixFits(name: Name, owner: Name)
    requires ValidName(name) && ZoneOf(owner, name)
    ensures Replace(name, owner, []) == Ok(name[..|name| - |owner|])
  {
    var prefix := name[..|name| - |owner|];
    assert name == prefix + owner && prefix + [] == prefix;
    WireLengthAppend(prefix, owner);
    WireAtLeastOne(owner);
  }

  /** A root target leaves an empty label behind: always refused. */
  lemma RootTargetRefused(name: Name, owner: Name)
    requires Plain(name) && ZoneOf(owner, name) && owner != name && owner != []
    ensures Substitute(name, owner, []) == Err(YXDomain)
    ensures Replace(name, owner, []) == Ok(name[..|name| - |owner|])
  {
    var prefix := name[..|name| - |owner|];
    PrefixText(name, owner);
    DottedRefused(prefix);
    RefusedOutcome(name, owner, [], Join(prefix) + ".");
    PrefixFits(name, owner);
  }

  lemma DottedRefused(n: Name)
    requires n != [] && PlainLabels(n)
    ensures Parse(Join(n) + ".").None?
  {
    var text := Join(n) + ".";
    TextSteps(n);
    assert text[..|text| - 1] == Text(n) + "." + "";
    SplitDotted(n, "");
    assert "" in Split(text[..|text| - 1]);
  }

  lemma WireAtLeastOne(n: Name)
    ensures WireLength(n) >= 1
  {
  }

  lemma {:induction false} SplitDotted(n: Name, rest: string)
    requires n != [] && PlainLabels(n)
    ensures Split(Text(n) + "." + rest) == n + Split(rest)
  {
    TextSteps(n);
    assert n[0] in n;
    if |n| == 1 {
      SplitFirst(n[0], rest);
    } else {
      SplitDotted(n[1..], rest);
      SplitFirst(n[0], Text(n[1..]) + "." + rest);
      DotsAssociate(n[0], Text(n[1..]), rest);
      ConsAssociates(n, Split(rest));
    }
  }

  lemma ConsAssociates(n: Name, s: seq<string>)
    requires n != []
    ensures [n[0]] + (n[1..] + s) == n + s
  {
  }

  lemma DotsAssociate(a: string, b: string, c: string)
    ensures a + "." + b + "." + c == a + "." + (b + "." + c)
  {
  }

  /** A root owner glues the last label to the target's first. */
  function Glued(name: Name, target: Name): Name
    requires name != [] && target != []
  {
    name[..|name| - 1] + [name[|name| - 1] + target[0]] + target[1..]
  }

  lemma GluedText(name: Name, target: Name)
    requires name != [] && target != []
    ensures Text(name) + Join(target) == Join(Glued(name, target))
  {
    var init, last := name[..|name| - 1], name[|name| - 1];
    var glued := [last + target[0]] + target[1..];
    assert name == init + [last];
    JoinAppend(init, [last]);
    assert Join([last]) == last + ".";
    TextSteps(name);
    assert Text(name) == Join(init) + last;
    assert glued[1..] == target[1..];
    assert Join(glued) == last + Join(target);
    JoinAppend(init, glued);
    assert Glued(name, target) == init + glued;
  }

  lemma GluedPlain(name: Name, target: Name)
    requires PlainLabels(name) && PlainLabels(target) && name != [] && target != []
    ensures PlainLabels(Glued(name, target))
  {
    assert name[|name| - 1] in name && target[0] in target;
    assert DotFree(name[|name| - 1]) && DotFree(target[0]);
  }

  lemma RootOwnerGlues(name: Name, target: Name)
    requires Plain(name) && Plain(target) && name != []
    ensures target == [] ==> Substitute(name, [], target) == Ok(name) == Replace(name, [], target)
    ensures target != [] ==>
      Substitute(name, [], target) == if ValidName(Glued(name, target)) then Ok(Glued(name, target)) else Err(YXDomain)
  {
    TextSteps(name);
    assert Format(name)[..|Format(name)| - 1] == Text(name);
    if target == [] {
      assert Text(name) + "." == Join(name);
      JoinedOutcome(name, [], target, name);
      assert name[..|name|] + target == name;
    } else {
      GluedText(name, target);
      GluedPlain(name, target);
      JoinedOutcome(name, [], target, Glued(name, target));
    }
  }

  lemma GluedWire(name: Name, target: Name)
    requires name != [] && target != []
    ensures WireLength(Glued(name, target)) == WireLength(name + target) - 1
    ensures |Glued(name, target)| == |name + target| - 1
  {
    TextSteps(name);
    GluedText(name, target);
    JoinAppend(name, target);
    JoinLength(Glued(name, target));
    JoinLength(name + target);
  }

  /** For every proper descendant the code agrees with label replacement if and
      only if neither owner nor target is the root, or both are, or a root
      owner meets a target so long that both refuse. */
  lemma AgreesExactly(name: Name, owner: Name, target: Name)
    requires Plain(name) && Plain(target) && ZoneOf(owner, name) && owner != name
    ensures Substitute(name, owner, target) == Replace(name, owner, target) <==>
      if owner != [] then target != []
      else target == [] || (WireLength(name + target) > MAX_WIRE &&
             (WireLength(name + target) > MAX_WIRE + 1 || |name[|name| - 1]| + |target[0]| > MAX_LABEL))
  {
    if owner != [] {
      if target != [] {
        SubstituteIsReplace(name, owner, target);
      } else {
        RootTargetRefused(name, owner);
      }
    } else {
      RootOwnerGlues(name, target);
      if target != [] {
        GluedWire(name, target);
        GluedLabels(name, target);
        assert name[..|name|] == name;
      }
    }
  }

  lemma GluedLabels(name: Name, target: Name)
    requires Plain(name) && Plain(target) && name != [] && target != []
    ensures (forall l <- Glued(name, target) :: 0 < |l| <= MAX_LABEL)
       <==> |name[|name| - 1]| + |target[0]| <= MAX_LABEL
  {
    var glued := name[|name| - 1] + target[0];
    assert Glued(name, target)[|name| - 1] == glued;
    assert name[|name| - 1] in name;
  }
}