/** Strict total orders, the lexicographic order on sequences, and octet strings. */
module Order {

  ghost predicate StrictTotal<T(!new)>(less: (T, T) -> bool) {
    && (forall x :: !less(x, x))
    && (forall x, y :: less(x, y) || x == y || less(y, x))
    && (forall x, y, z :: less(x, y) && less(y, z) ==> less(x, z))
  }

  /** Lexicographic order: first difference decides, a proper prefix comes first. */
  predicate Lex<T(==)>(less: (T, T) -> bool, a: seq<T>, b: seq<T>)
    decreases |a|
  {
    if b == [] then false
    else if a == [] then true
    else if a[0] != b[0] then less(a[0], b[0])
    else Lex(less, a[1..], b[1..])
  }

  lemma {:induction false} LexIrreflexive<T(!new)>(less: (T, T) -> bool, a: seq<T>)
    ensures !Lex(less, a, a)
  {
    if a != [] {
      LexIrreflexive(less, a[1..]);
    }
  }

  lemma {:induction false} LexConnected<T(!new)>(less: (T, T) -> bool, a: seq<T>, b: seq<T>)
    requires StrictTotal(less)
    ensures Lex(less, a, b) || a == b || Lex(less, b, a)
  {
    if a != [] && b != [] && a[0] == b[0] {
      LexConnected(less, a[1..], b[1..]);
      assert a == [a[0]] + a[1..] && b == [b[0]] + b[1..];
    }
  }

  lemma {:induction false} LexTransitive<T(!new)>(less: (T, T) -> bool, a: seq<T>, b: seq<T>, c: seq<T>)
    requires StrictTotal(less) && Lex(less, a, b) && Lex(less, b, c)
    ensures Lex(less, a, c)
  {
    if a != [] && a[0] == b[0] && b[0] == c[0] {
      LexTransitive(less, a[1..], b[1..], c[1..]);
    }
  }

  /** A sequence comes before every longer one that begins with it. */
  lemma {:induction false} LexPrefix<T(!new)>(less: (T, T) -> bool, a: seq<T>, c: seq<T>)
    requires a <= c && a != c
    ensures Lex(less, a, c)
  {
    if a != [] {
      LexPrefix(less, a[1..], c[1..]);
    }
  }

  /** Between a sequence and one that begins with it there are only such. */
  lemma {:induction false} LexBetween<T(!new)>(less: (T, T) -> bool, a: seq<T>, b: seq<T>, c: seq<T>)
    requires StrictTotal(less) && a <= c && Lex(less, a, b) && Lex(less, b, c)
    ensures a <= b
  {
    if a != [] {
      LexBetween(less, a[1..], b[1..], c[1..]);
      assert a == [a[0]] + a[1..] && b == [b[0]] + b[1..];
    }
  }

  /** a and b agree up to k, where a ends or has the smaller element. */
  predicate DiffersAt<T(==)>(less: (T, T) -> bool, a: seq<T>, b: seq<T>, k: nat) {
    && k <= |a| && k < |b| && a[..k] == b[..k]
    && (k == |a| || (a[k] != b[k] && less(a[k], b[k])))
  }

  lemma SameHead<T>(a: seq<T>, b: seq<T>, k: nat)
    requires 0 < k <= |a| && k <= |b| && a[..k] == b[..k]
    ensures a[0] == b[0]
  {
    assert a[..k][0] == b[..k][0];
  }

  lemma {:induction false} LexExactly<T(!new)>(less: (T, T) -> bool, a: seq<T>, b: seq<T>)
    ensures Lex(less, a, b) <==> exists k: nat :: DiffersAt(less, a, b, k)
  {
    forall k: nat | DiffersAt(less, a, b, k) && k > 0 ensures a[0] == b[0] {
      SameHead(a, b, k);
    }
    if a == [] || b == [] {
      if b != [] { assert DiffersAt(less, a, b, 0); }
    } else if a[0] != b[0] {
      if less(a[0], b[0]) { assert DiffersAt(less, a, b, 0); }
    } else {
      LexExactly(less, a[1..], b[1..]);
      if k: nat :| DiffersAt(less, a[1..], b[1..], k) {
        assert a[..k + 1] == [a[0]] + a[1..][..k] && b[..k + 1] == [b[0]] + b[1..][..k];
        assert DiffersAt(less, a, b, k + 1);
      }
      if k: nat :| DiffersAt(less, a, b, k) {
        assert k > 0 && a[1..][..k - 1] == a[..k][1..] && b[1..][..k - 1] == b[..k][1..];
        assert DiffersAt(less, a[1..], b[1..], k - 1);
      }
    }
  }

  /** The lexicographic order of a strict total order is one itself. */
  lemma LexStrictTotal<T(!new)>(less: (T, T) -> bool)
    requires StrictTotal(less)
    ensures StrictTotal((a: seq<T>, b: seq<T>) => Lex(less, a, b))
  {
    forall a: seq<T> { LexIrreflexive(less, a); }
    forall a: seq<T>, b: seq<T> { LexConnected(less, a, b); }
    forall a: seq<T>, b: seq<T>, c: seq<T> | Lex(less, a, b) && Lex(less, b, c) {
      LexTransitive(less, a, b, c);
    }
  }

  // ----- Octet strings -----

  type Octet = n: int | 0 <= n < 256
  type Octets = seq<Octet>

  predicate OctetsLess(a: Octets, b: Octets) {
    Lex((x: Octet, y: Octet) => x < y, a, b)
  }

  /** Octet strings in order: the first smaller octet decides, a proper prefix comes first. */
  lemma OctetsLessExactly(a: Octets, b: Octets)
    ensures OctetsLess(a, b) <==>
      exists k: nat :: k <= |a| && k < |b| && a[..k] == b[..k] && (k == |a| || a[k] < b[k])
  {
    var less := (x: Octet, y: Octet) => x < y;
    LexExactly(less, a, b);
    if k: nat :| DiffersAt(less, a, b, k) {
      assert k <= |a| && k < |b| && a[..k] == b[..k] && (k == |a| || a[k] < b[k]);
    }
    if k: nat :| k <= |a| && k < |b| && a[..k] == b[..k] && (k == |a| || a[k] < b[k]) {
      assert DiffersAt(less, a, b, k);
    }
  }

  lemma OctetsStrictTotal()
    ensures StrictTotal(OctetsLess)
  {
    LexStrictTotal((x: Octet, y: Octet) => x < y);
    assert forall a, b :: OctetsLess(a, b) == ((a: Octets, b: Octets) => Lex((x: Octet, y: Octet) => x < y, a, b))(a, b);
  }

  /** The len low octets of v, most significant first. */
  function BigEndian(v: nat, len: nat): (r: Octets)
    ensures |r| == len
  {
    if len == 0 then [] else BigEndian(v / 256, len - 1) + [v % 256]
  }
}
