/** Domain names as sequences of lower-case labels, leaf label first; [] is the
    root. Upper case never appears, so name equality here is the
    case-insensitive equality of the program. */
module Names {
  import opened Order

  type Label = string
  type Name = seq<Label>

  const MAX_LABEL: nat := 63
  const MAX_WIRE: nat := 255
  /** Names that one search for a closest encloser looks at. */
  const MAX_CLOSEST_ENCLOSER_STEPS: nat := 16

  /** The name without its leaf label; the root stays. */
  function BaseName(n: Name): (p: Name)
    ensures |p| == if n == [] then 0 else |n| - 1
  {
    if n == [] then [] else n[1..]
  }

  /** z is n itself or one of its ancestors. */
  predicate ZoneOf(z: Name, n: Name) {
    |z| <= |n| && n[|n| - |z|..] == z
  }

  /** Octets of the uncompressed wire form. */
  function WireLength(n: Name): nat {
    if n == [] then 1 else 1 + |n[0]| + WireLength(n[1..])
  }

  predicate ValidName(n: Name) {
    (forall l <- n :: 0 < |l| <= MAX_LABEL) && WireLength(n) <= MAX_WIRE
  }

  /** The wildcard child; the parser's refusal of an overlong name yields the root. */
  function WildcardName(closest: Name): Name {
    if WireLength(["*"] + closest) <= MAX_WIRE then ["*"] + closest else []
  }

  function Reverse<T>(s: seq<T>): (r: seq<T>)
    ensures |r| == |s|
    ensures forall i :: 0 <= i < |s| ==> r[i] == s[|s| - 1 - i]
  {
    if s == [] then [] else Reverse(s[1..]) + [s[0]]
  }

  predicate LabelLess(a: Label, b: Label) {
    Lex((x: char, y: char) => x < y, a, b)
  }

  /** Canonical name order (RFC 4034 section 6.1): labels compared from the root down. */
  predicate NameLess(a: Name, b: Name) {
    Lex(LabelLess, Reverse(a), Reverse(b))
  }

  /** Under a common parent the labels decide, character by character. */
  lemma SiblingsByLabel(parent: Name, a: Label, b: Label)
    ensures NameLess([a] + parent, [b] + parent) <==>
      exists k: nat :: k <= |a| && k < |b| && a[..k] == b[..k] && (k == |a| || a[k] < b[k])
  {
    var less := (x: char, y: char) => x < y;
    ReverseCons(a, parent);
    ReverseCons(b, parent);
    LexCommon(Reverse(parent), a, b);
    LexExactly(less, a, b);
    if k: nat :| DiffersAt(less, a, b, k) {
      assert k <= |a| && k < |b| && a[..k] == b[..k] && (k == |a| || a[k] < b[k]);
    }
    if k: nat :| k <= |a| && k < |b| && a[..k] == b[..k] && (k == |a| || a[k] < b[k]) {
      assert DiffersAt(less, a, b, k);
    }
    LabelIrreflexive(a);
  }

  lemma LabelIrreflexive(a: Label)
    ensures !LabelLess(a, a)
  {
    LexIrreflexive((x: char, y: char) => x < y, a);
  }

  lemma ReverseCons(a: Label, parent: Name)
    ensures Reverse([a] + parent) == Reverse(parent) + [a]
  {
    assert ([a] + parent)[1..] == parent;
  }

  lemma {:induction false} LexCommon(head: seq<Label>, a: Label, b: Label)
    ensures Lex(LabelLess, head + [a], head + [b]) <==> a != b && LabelLess(a, b)
  {
    if head == [] {
      assert [] + [a] == [a] && [] + [b] == [b];
    } else {
      assert (head + [a])[1..] == head[1..] + [a] && (head + [b])[1..] == head[1..] + [b];
      LexCommon(head[1..], a, b);
    }
  }

  lemma NameStrictTotal()
    ensures StrictTotal(NameLess)
  {
    LabelStrictTotal();
    LexStrictTotal(LabelLess);
    var onNames := (a: Name, b: Name) => Lex(LabelLess, a, b);
    assert StrictTotal(onNames);
    forall a: Name, b: Name | Reverse(a) == Reverse(b) ensures a == b {
      forall i | 0 <= i < |a| ensures a[i] == b[i] {
        assert Reverse(a)[|a| - 1 - i] == Reverse(b)[|a| - 1 - i];
      }
    }
    assert forall a, b :: NameLess(a, b) == onNames(Reverse(a), Reverse(b));
  }

  lemma ZoneOfReverse(z: Name, n: Name)
    ensures ZoneOf(z, n) <==> Reverse(z) <= Reverse(n)
  {
    var a, b := Reverse(z), Reverse(n);
    if |z| <= |n| {
      var tail := n[|n| - |z|..];
      if tail == z {
        assert forall i :: 0 <= i < |z| ==> a[i] == z[|z| - 1 - i] == n[|n| - 1 - i] == b[i];
      }
      if a <= b {
        forall i | 0 <= i < |z| ensures tail[i] == z[i] {
          assert a[|z| - 1 - i] == b[|z| - 1 - i];
        }
      }
    }
  }

  /** In canonical order a name is followed by those below it. */
  lemma AncestorLess(d: Name, n: Name)
    requires ZoneOf(d, n) && d != n
    ensures NameLess(d, n)
  {
    ZoneOfReverse(d, n);
    assert |Reverse(d)| == |d| && |Reverse(n)| == |n|;
    LexPrefix(LabelLess, Reverse(d), Reverse(n));
  }

  lemma LabelStrictTotal()
    ensures StrictTotal(LabelLess)
  {
    var onChars := (x: char, y: char) => x < y;
    LexStrictTotal(onChars);
    var onLabels := (a: Label, b: Label) => Lex(onChars, a, b);
    assert forall a, b :: LabelLess(a, b) == onLabels(a, b);
  }

  /** Between a name and one below it there are only names below it. */
  lemma BetweenIsBelow(d: Name, o: Name, n: Name)
    requires ZoneOf(d, n) && NameLess(d, o) && NameLess(o, n)
    ensures ZoneOf(d, o)
  {
    LabelStrictTotal();
    ZoneOfReverse(d, n);
    LexBetween(LabelLess, Reverse(d), Reverse(o), Reverse(n));
    ZoneOfReverse(d, o);
  }

  lemma ZoneOfTransitive(a: Name, b: Name, c: Name)
    requires ZoneOf(a, b) && ZoneOf(b, c)
    ensures ZoneOf(a, c)
  {
    assert b[|b| - |a|..] == c[|c| - |b|..][|b| - |a|..] == c[|c| - |a|..];
  }

  lemma ZoneOfBase(z: Name, n: Name)
    ensures z != [] && ZoneOf(z, n) ==> ZoneOf(BaseName(z), n)
    ensures ZoneOf(z, BaseName(n)) ==> ZoneOf(z, n)
    ensures ZoneOf(z, n) && z != n ==> ZoneOf(z, BaseName(n))
    ensures ZoneOf(BaseName(n), n) && ZoneOf([], n)
  {
    if z != [] && ZoneOf(z, n) {
      assert n[|n| - |z|..][1..] == n[|n| - |z| + 1..];
    }
    if n != [] && |z| < |n| {
      assert n[1..][|n| - 1 - |z|..] == n[|n| - |z|..];
    }
  }

  /** Two ancestors of one name are nested; equal depth makes them equal. */
  lemma AncestorsNested(a: Name, b: Name, n: Name)
    requires ZoneOf(a, n) && ZoneOf(b, n)
    ensures |a| <= |b| ==> ZoneOf(a, b)
    ensures |a| == |b| ==> a == b
  {
    if |a| <= |b| {
      assert n[|n| - |b|..][|b| - |a|..] == n[|n| - |a|..];
    }
  }

  lemma {:induction false} WireLengthAppend(a: Name, b: Name)
    ensures WireLength(a + b) == WireLength(a) + WireLength(b) - 1
  {
    if a == [] {
      assert a + b == b;
    } else {
      assert (a + b)[1..] == a[1..] + b;
      WireLengthAppend(a[1..], b);
    }
  }

  /** Under a proper ancestor of a valid name the wildcard always fits, so the
      parser's fallback to the root is never taken there. */
  lemma WildcardFits(closest: Name, n: Name)
    requires ValidName(n) && ZoneOf(closest, n) && closest != n
    ensures WildcardName(closest) == ["*"] + closest
  {
    var prefix := n[..|n| - |closest|];
    assert n == prefix + closest;
    WireLengthAppend(prefix, closest);
    assert prefix[0] in n;
    assert WireLength(prefix) >= 3;
    WireLengthAppend(["*"], closest);
  }
}
