/** The few facts about integer division that the other modules need. */
module Arithmetic {

  function Min(a: int, b: int): int {
    if a < b then a else b
  }

  function Max(a: int, b: int): int {
    if a < b then b else a
  }

  lemma MulAtLeast(h: int, a: int)
    requires h >= 0 && a >= 1
    ensures h * a >= h
  {
    assert h * a == h * (a - 1) + h;
  }

  lemma MulMonotone(h: int, a: int, b: int)
    requires h >= 0 && a <= b
    ensures h * a <= h * b
  {
    assert h * b == h * a + h * (b - a);
  }

  lemma Division(x: int, h: int)
    requires h > 0
    ensures x == h * (x / h) + x % h && 0 <= x % h < h
  {
  }

  lemma QuotientUnique(h: int, p: int, s: int, q: int, r: int)
    requires h > 0 && h * p + s == h * q + r && 0 <= r < h && 0 <= s < h
    ensures p == q && s == r
  {
    assert h * (p - q) == h * p - h * q;
    assert h * (q - p) == h * q - h * p;
    if p > q {
      MulAtLeast(h, p - q);
    } else if p < q {
      MulAtLeast(h, q - p);
    }
  }

  /** Quotient and remainder are the only pair of their kind. */
  lemma DivMod(x: int, h: int, q: int, r: int)
    requires h > 0 && x == h * q + r && 0 <= r < h
    ensures x / h == q && x % h == r
  {
    Division(x, h);
    QuotientUnique(h, x / h, x % h, q, r);
  }
}
