/** Iteration of a deterministic partial step. */
module Orbits {
  import opened Records

  /** Where k steps from x lead, if k steps are possible. */
  function Iterate<T>(next: T -> Option<T>, x: T, k: nat): Option<T> {
    if k == 0 then Some(x)
    else
      match Iterate(next, x, k - 1)
      case None => None
      case Some(y) => next(y)
  }

  ghost predicate Revisits<T(!new)>(next: T -> Option<T>, x: T, i: nat, j: nat) {
    i < j && Iterate(next, x, i).Some? && Iterate(next, x, i) == Iterate(next, x, j)
  }

  lemma {:induction false} Prefix<T>(next: T -> Option<T>, x: T, k: nat, i: nat)
    requires i <= k && Iterate(next, x, k).Some?
    ensures Iterate(next, x, i).Some?
    decreases k
  {
    if i < k {
      Prefix(next, x, k - 1, i);
    }
  }

  lemma {:induction false} Shift<T>(next: T -> Option<T>, x: T, i: nat, j: nat, m: nat)
    requires Iterate(next, x, i) == Iterate(next, x, j)
    ensures Iterate(next, x, i + m) == Iterate(next, x, j + m)
  {
    if m != 0 {
      Shift(next, x, i, j, m - 1);
    }
  }

  /** Once a point repeats, the iteration never ends. */
  lemma {:induction false} NeverEnds<T(!new)>(next: T -> Option<T>, x: T, i: nat, j: nat, k: nat)
    requires Revisits(next, x, i, j)
    ensures Iterate(next, x, k).Some?
    decreases k
  {
    if k <= j {
      Prefix(next, x, j, k);
    } else {
      Shift(next, x, i, j, k - j);
      NeverEnds(next, x, i, j, k - (j - i));
    }
  }

  /** path lists the first points of the iteration, all different. */
  ghost predicate Follows<T(!new)>(next: T -> Option<T>, x: T, path: seq<T>) {
    && (forall i :: 0 <= i < |path| ==> Iterate(next, x, i) == Some(path[i]))
    && (forall i, j :: 0 <= i < j < |path| ==> path[i] != path[j])
  }

  /** Reaching a point of the path again makes the iteration endless. */
  lemma BackOnPath<T(!new)>(next: T -> Option<T>, x: T, path: seq<T>, y: T) returns (i: nat)
    requires Follows(next, x, path) && Iterate(next, x, |path|) == Some(y) && y in path
    ensures Revisits(next, x, i, |path|)
    ensures forall k: nat :: Iterate(next, x, k).Some?
  {
    i :| 0 <= i < |path| && path[i] == y;
    forall k: nat ensures Iterate(next, x, k).Some? {
      NeverEnds(next, x, i, |path|, k);
    }
  }

  lemma FollowsOne<T(!new)>(next: T -> Option<T>, x: T)
    ensures Follows(next, x, [x]) && Iterate(next, x, 1) == next(x)
  {
    assert Iterate(next, x, 0) == Some(x);
  }

  lemma FollowsMore<T(!new)>(next: T -> Option<T>, x: T, path: seq<T>, y: T)
    requires Follows(next, x, path) && Iterate(next, x, |path|) == Some(y) && y !in path
    ensures Follows(next, x, path + [y]) && Iterate(next, x, |path| + 1) == next(y)
  {
  }
}
