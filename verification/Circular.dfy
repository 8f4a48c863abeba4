/** A finite set of owners closed into a ring by its cyclic successor, and the
    two interval tests of the validator: the open one used for NSEC names
    and the half-open one used for NSEC3 hashes. */
module Circular {
  import opened Order

  /** n is the next element of s after o, wrapping from the greatest to the least. */
  ghost predicate Successor<T(!new)>(less: (T, T) -> bool, s: set<T>, o: T, n: T) {
    && o in s && n in s
    && if exists x :: x in s && less(o, x)
       then less(o, n) && forall x :: x in s && less(o, x) ==> !less(x, n)
       else forall x :: x in s ==> !less(x, n)
  }

  /** nsec_covers: t lies strictly between o and n on the ring. */
  predicate Open<T>(less: (T, T) -> bool, o: T, n: T, t: T) {
    if less(o, n) then less(o, t) && less(t, n) else less(o, t) || less(t, n)
  }

  /** nsec3_covers: t lies between o (inclusive) and n (exclusive) on the ring. */
  predicate HalfOpen<T(==)>(less: (T, T) -> bool, o: T, n: T, t: T) {
    if o == n || less(o, n)
    then (o == t || less(o, t)) && less(t, n)
    else (o == t || less(o, t)) || less(t, n)
  }

  lemma {:induction false} Greatest<T(!new)>(less: (T, T) -> bool, s: set<T>) returns (m: T)
    requires StrictTotal(less) && s != {}
    ensures m in s && forall x :: x in s ==> !less(m, x)
    decreases |s|
  {
    m :| m in s;
    if y :| y in s && less(m, y) {
      var above := set x | x in s && less(m, x);
      assert above < s by { assert m in s && m !in above; }
      assert y in above;
      Shrinks(above, s);
      m := Greatest(less, above);
    }
  }

  lemma Shrinks<T>(a: set<T>, b: set<T>)
    requires a < b
    ensures |a| < |b|
  {
    var x :| x in b && x !in a;
    assert a <= b - {x};
    SubsetSize(a, b - {x});
  }

  lemma {:induction false} SubsetSize<T>(a: set<T>, b: set<T>)
    requires a <= b
    ensures |a| <= |b|
    decreases a
  {
    if a != {} {
      var x :| x in a;
      SubsetSize(a - {x}, b - {x});
    }
  }

  lemma SuccessorExists<T(!new)>(less: (T, T) -> bool, s: set<T>, o: T) returns (n: T)
    requires StrictTotal(less) && o in s
    ensures Successor(less, s, o, n)
  {
    var flipped := (x: T, y: T) => less(y, x);
    if y :| y in s && less(o, y) {
      var above := set x | x in s && less(o, x);
      assert y in above;
      n := Greatest(flipped, above);
      assert forall x :: x in s && less(o, x) ==> !flipped(n, x);
    } else {
      n := Greatest(flipped, s);
      assert forall x :: x in s ==> !flipped(n, x);
    }
  }

  /** The owner whose arc holds a non-member t: the greatest member below t,
      or the greatest member of all when t precedes every one. */
  ghost predicate Precedes<T(!new)>(less: (T, T) -> bool, s: set<T>, o: T, t: T) {
    && o in s
    && if exists x :: x in s && less(x, t)
       then less(o, t) && forall x :: x in s && less(x, t) ==> !less(o, x)
       else forall x :: x in s ==> !less(o, x)
  }

  lemma PredecessorExists<T(!new)>(less: (T, T) -> bool, s: set<T>, t: T) returns (o: T)
    requires StrictTotal(less) && s != {}
    ensures Precedes(less, s, o, t)
  {
    if y :| y in s && less(y, t) {
      var below := set x | x in s && less(x, t);
      assert y in below;
      o := Greatest(less, below);
    } else {
      o := Greatest(less, s);
    }
  }

  /** No link of the chain covers a member of the ring. */
  lemma MemberNotCovered<T(!new)>(less: (T, T) -> bool, s: set<T>, o: T, n: T, t: T)
    requires StrictTotal(less) && Successor(less, s, o, n) && t in s
    ensures !Open(less, o, n, t)
  {
  }

  /** A link covers a non-member exactly when its owner precedes it. */
  lemma CoveredIffPrecedes<T(!new)>(less: (T, T) -> bool, s: set<T>, o: T, n: T, t: T)
    requires StrictTotal(less) && Successor(less, s, o, n) && t !in s
    ensures Open(less, o, n, t) <==> Precedes(less, s, o, t)
  {
  }

  /** A link stays one when elements outside its open arc join the ring. */
  lemma SuccessorStays<T(!new)>(less: (T, T) -> bool, s: set<T>, o: T, n: T, more: set<T>)
    requires StrictTotal(less) && Successor(less, s, o, n)
    requires forall t <- more :: !Open(less, o, n, t)
    ensures Successor(less, s + more, o, n)
  {
  }

  /** A link of the ring whose open arc holds t. */
  ghost predicate OpenLink<T(!new)>(less: (T, T) -> bool, s: set<T>, o: T, n: T, t: T) {
    Successor(less, s, o, n) && Open(less, o, n, t)
  }

  /** A link of the ring whose half-open arc holds t. */
  ghost predicate HalfOpenLink<T(!new)>(less: (T, T) -> bool, s: set<T>, o: T, n: T, t: T) {
    Successor(less, s, o, n) && HalfOpen(less, o, n, t)
  }

  /** The open arcs of the chain partition the complement of the ring,
      one-element rings included: no member is covered, and every
      non-member is covered by exactly one link. */
  lemma OpenPartition<T(!new)>(less: (T, T) -> bool, s: set<T>, t: T)
    requires StrictTotal(less) && s != {}
    ensures t !in s <==> exists o, n :: OpenLink(less, s, o, n, t)
    ensures forall o, n, p, m | OpenLink(less, s, o, n, t) && OpenLink(less, s, p, m, t) :: o == p && n == m
  {
    if t !in s {
      var o := PredecessorExists(less, s, t);
      var n := SuccessorExists(less, s, o);
      CoveredIffPrecedes(less, s, o, n, t);
      assert OpenLink(less, s, o, n, t);
    }
    forall o, n | OpenLink(less, s, o, n, t) ensures t !in s && Precedes(less, s, o, t) {
      if t in s { MemberNotCovered(less, s, o, n, t); }
      CoveredIffPrecedes(less, s, o, n, t);
    }
  }

  /** With two distinct ends the half-open arc is the open one plus its owner;
      a link that points to itself covers nothing. */
  lemma HalfOpenIs<T(!new)>(less: (T, T) -> bool, o: T, n: T, t: T)
    requires StrictTotal(less)
    ensures HalfOpen(less, o, n, t) <==> o != n && (t == o || Open(less, o, n, t))
  {
  }

  /** The half-open arcs partition the whole space when the ring has two or
      more elements, and cover nothing when it has one. */
  lemma HalfOpenPartition<T(!new)>(less: (T, T) -> bool, s: set<T>, t: T)
    requires StrictTotal(less) && s != {}
    ensures |s| >= 2 <==> exists o, n :: HalfOpenLink(less, s, o, n, t)
    ensures forall o, n, p, m | HalfOpenLink(less, s, o, n, t) && HalfOpenLink(less, s, p, m, t) :: o == p && n == m
  {
    OpenPartition(less, s, t);
    forall o, n | Successor(less, s, o, n)
      ensures HalfOpen(less, o, n, t) <==> |s| >= 2 && (t == o || OpenLink(less, s, o, n, t))
    {
      HalfOpenIs(less, o, n, t);
      SelfLoop(less, s, o, n);
    }
    if |s| >= 2 {
      if t in s {
        var n := SuccessorExists(less, s, t);
        assert HalfOpenLink(less, s, t, n, t);
      } else {
        var o, n :| OpenLink(less, s, o, n, t);
        assert HalfOpenLink(less, s, o, n, t);
      }
    }
  }

  lemma SelfLoop<T(!new)>(less: (T, T) -> bool, s: set<T>, o: T, n: T)
    requires StrictTotal(less) && Successor(less, s, o, n)
    ensures o == n <==> |s| < 2
  {
    if o == n {
      SubsetSize(s, {o});
    } else {
      SubsetSize({o, n}, s);
    }
  }
}
