/** Lists picked out of longer ones: which elements, in which order, how often. */
module Selections {

  /** How many elements of s p admits. */
  function Number<T>(s: seq<T>, p: T -> bool): nat {
    if s == [] then 0 else Number(s[..|s| - 1], p) + if p(s[|s| - 1]) then 1 else 0
  }

  /** out lists what is to be had of exactly the elements of s that p admits: of each,
      at the place that the number of such elements before it gives. */
  ghost predicate Selects<T, U>(s: seq<T>, p: T -> bool, of: (T, U) -> bool, out: seq<U>) {
    && |out| == Number(s, p)
    && forall i {:trigger HasPlace(out, Number(s[..i], p), s[i], of)} ::
         0 <= i < |s| && p(s[i]) ==> HasPlace(out, Number(s[..i], p), s[i], of)
  }

  predicate HasPlace<T, U>(out: seq<U>, k: nat, x: T, of: (T, U) -> bool) {
    k < |out| && of(x, out[k])
  }

  lemma SelectsSnoc<T, U>(s: seq<T>, x: T, p: T -> bool, of: (T, U) -> bool, out: seq<U>, y: U)
    requires Selects(s, p, of, out) && p(x) && of(x, y)
    ensures Selects(s + [x], p, of, out + [y])
  {
    var more := s + [x];
    assert more[..|s|] == s;
    forall i | 0 <= i < |s| && p(more[i]) ensures HasPlace(out, Number(more[..i], p), more[i], of) {
      assert more[..i] == s[..i];
    }
  }

  /** A selection without its list's last element. */
  lemma SelectsInit<T, U>(s: seq<T>, x: T, p: T -> bool, of: (T, U) -> bool, out: seq<U>) returns (before: seq<U>)
    requires Selects(s + [x], p, of, out)
    ensures Selects(s, p, of, before)
    ensures if p(x) then out != [] && out == before + [out[|out| - 1]] && of(x, out[|out| - 1]) else out == before
  {
    var more := s + [x];
    assert more[..|s|] == s;
    before := if p(x) then out[..|out| - 1] else out;
    if p(x) { assert HasPlace(out, Number(more[..|s|], p), more[|s|], of); }
    forall i | 0 <= i < |s| && p(s[i]) ensures HasPlace(before, Number(s[..i], p), s[i], of) {
      assert more[..i] == s[..i] && more[i] == s[i];
      assert HasPlace(out, Number(more[..i], p), more[i], of);
      NumberBefore(s, p, i);
    }
  }

  lemma {:induction false} NumberBefore<T>(s: seq<T>, p: T -> bool, i: nat)
    requires i < |s| && p(s[i])
    ensures Number(s[..i], p) < Number(s, p)
  {
    var init := s[..|s| - 1];
    if i < |init| {
      assert init[..i] == s[..i];
      NumberBefore(init, p, i);
    }
  }

  /** There is one such list. */
  lemma {:induction false} SelectsUnique<T(!new), U(!new)>(s: seq<T>, p: T -> bool, of: (T, U) -> bool, a: seq<U>, b: seq<U>)
    requires forall x, y, z :: p(x) && of(x, y) && of(x, z) ==> y == z
    requires Selects(s, p, of, a) && Selects(s, p, of, b)
    ensures a == b
  {
    if s != [] {
      var init, x := s[..|s| - 1], s[|s| - 1];
      assert s == init + [x];
      var c := SelectsInit(init, x, p, of, a);
      var d := SelectsInit(init, x, p, of, b);
      SelectsUnique(init, p, of, c, d);
    }
  }

  lemma {:induction false} SelectsConcat<T, U>(s: seq<T>, t: seq<T>, p: T -> bool, of: (T, U) -> bool, out: seq<U>,
                                               more: seq<U>)
    requires Selects(s, p, of, out) && Selects(t, p, of, more)
    ensures Selects(s + t, p, of, out + more)
  {
    if t == [] {
      assert s + t == s && out + more == out;
    } else {
      var init, x := t[..|t| - 1], t[|t| - 1];
      assert t == init + [x] && s + t == (s + init) + [x];
      var before := SelectsInit(init, x, p, of, more);
      SelectsConcat(s, init, p, of, out, before);
      if p(x) {
        var y := more[|more| - 1];
        SelectsSnoc(s + init, x, p, of, out + before, y);
        assert out + before + [y] == out + more;
      } else {
        SelectsSkip(s + init, x, p, of, out + before);
      }
    }
  }

  lemma SelectsSkip<T, U>(s: seq<T>, x: T, p: T -> bool, of: (T, U) -> bool, out: seq<U>)
    requires Selects(s, p, of, out) && !p(x)
    ensures Selects(s + [x], p, of, out)
  {
    var more := s + [x];
    assert more[..|s|] == s;
    forall i | 0 <= i < |s| && p(more[i]) ensures HasPlace(out, Number(more[..i], p), more[i], of) {
      assert more[..i] == s[..i];
    }
  }

  lemma SelectsTaken<T, U>(s: seq<T>, p: T -> bool, of: (T, U) -> bool, y: U, rest: seq<U>)
    requires s != [] && p(s[0]) && of(s[0], y) && Selects(s[1..], p, of, rest)
    ensures Selects(s, p, of, [y] + rest)
  {
    assert [s[0]][..0] == [];
    SelectsConcat([s[0]], s[1..], p, of, [y], rest);
    assert [s[0]] + s[1..] == s;
  }

  lemma SelectsPassed<T, U>(s: seq<T>, p: T -> bool, of: (T, U) -> bool, rest: seq<U>)
    requires s != [] && !p(s[0]) && Selects(s[1..], p, of, rest)
    ensures Selects(s, p, of, rest)
  {
    assert [s[0]][..0] == [];
    SelectsConcat([s[0]], s[1..], p, of, [], rest);
    assert [s[0]] + s[1..] == s && [] + rest == rest;
  }

  /** Everything admitted is listed. */
  lemma SelectsListed<T(!new), U(!new)>(s: seq<T>, p: T -> bool, of: (T, U) -> bool, out: seq<U>, x: T)
    requires Selects(s, p, of, out) && x in s && p(x)
    ensures exists y <- out :: of(x, y)
  {
    var i :| 0 <= i < |s| && s[i] == x;
    assert HasPlace(out, Number(s[..i], p), s[i], of);
  }

  /** Nothing else is. */
  lemma {:induction false} SelectsOnly<T(!new), U(!new)>(s: seq<T>, p: T -> bool, of: (T, U) -> bool, out: seq<U>, y: U)
    requires Selects(s, p, of, out) && y in out
    ensures exists x <- s :: p(x) && of(x, y)
  {
    if s != [] {
      var init, x := s[..|s| - 1], s[|s| - 1];
      assert s == init + [x];
      var before := SelectsInit(init, x, p, of, out);
      if y in before {
        SelectsOnly(init, p, of, before, y);
        var z :| z in init && p(z) && of(z, y);
        assert z in s;
      }
    }
  }

  function Both<T>(p: T -> bool, q: T -> bool): T -> bool {
    (x: T) => p(x) && q(x)
  }

  /** Picking from what was picked before. */
  lemma {:induction false} SelectsThen<T, U>(s: seq<T>, p: T -> bool, middle: seq<T>, q: T -> bool, of: (T, U) -> bool,
                                             out: seq<U>)
    requires Selects(s, p, Same(), middle) && Selects(middle, q, of, out)
    ensures Selects(s, Both(p, q), of, out)
  {
    if s != [] {
      var init, x := s[..|s| - 1], s[|s| - 1];
      assert s == init + [x];
      var before := SelectsInit(init, x, p, Same(), middle);
      if p(x) {
        assert middle == before + [x];
        var less := SelectsInit(before, x, q, of, out);
        SelectsThen(init, p, before, q, of, less);
        if q(x) {
          SelectsSnoc(init, x, Both(p, q), of, less, out[|out| - 1]);
        } else {
          SelectsSkip(init, x, Both(p, q), of, less);
        }
      } else {
        SelectsThen(init, p, before, q, of, out);
        SelectsSkip(init, x, Both(p, q), of, out);
      }
    }
  }

  /** The elements themselves. */
  function Same<T(==)>(): (T, T) -> bool {
    (x: T, y: T) => x == y
  }
}
