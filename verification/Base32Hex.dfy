/** Decoding of base32hex owner labels (RFC 4648 section 7) through a 64-bit
    accumulator, against the arithmetic of the concatenated 5-bit digits. */
module Base32Hex {
  import opened Arithmetic
  import opened Order
  import opened Records

  type Digit = d: nat | d < 32

  const WORD: nat := 0x1_0000_0000_0000_0000

  /** v >> k */
  function Shr(v: nat, k: nat): nat {
    if k == 0 then v else Shr(v / 2, k - 1)
  }

  /** v << k on unbounded numbers */
  function Shl(v: nat, k: nat): nat {
    if k == 0 then v else 2 * Shl(v, k - 1)
  }

  function Append32(v: nat, d: nat): nat {
    32 * v + d
  }

  /** The number written by 5-bit digits, most significant first. */
  function Value32(digits: seq<Digit>): nat {
    if digits == [] then 0 else Append32(Value32(digits[..|digits| - 1]), digits[|digits| - 1])
  }

  /** The number written by octets, most significant first. */
  function Value256(octets: Octets): nat {
    if octets == [] then 0 else 256 * Value256(octets[..|octets| - 1]) + octets[|octets| - 1]
  }

  /** The len low 5-bit digits of v. */
  function AsDigits(v: nat, len: nat): (r: seq<Digit>)
    ensures |r| == len
  {
    if len == 0 then [] else AsDigits(v / 32, len - 1) + [v % 32]
  }

  function DigitOf(c: char): Option<Digit> {
    if '0' <= c <= '9' then Some((c - '0') as nat)
    else if 'A' <= c <= 'V' then Some((c - 'A') as nat + 10)
    else if 'a' <= c <= 'v' then Some((c - 'a') as nat + 10)
    else None
  }

  function DigitsOf(s: string): (r: Option<seq<Digit>>)
    ensures r.Some? ==> |r.value| == |s| && forall i :: 0 <= i < |s| ==> DigitOf(s[i]) == Some(r.value[i])
    ensures r.None? <==> exists c <- s :: DigitOf(c).None?
  {
    if s == [] then Some([])
    else
      var init, last := s[..|s| - 1], s[|s| - 1];
      assert s == init + [last];
      if DigitsOf(init).None? || DigitOf(last).None? then None
      else Some(DigitsOf(init).value + [DigitOf(last).value])
  }

  /** What decoding means: the whole octets at the head of the digit string. */
  function Decoded(s: string): Option<Octets> {
    match DigitsOf(s)
    case None => None
    case Some(d) => Some(Emitted(Value32(d), 5 * |d| % 8, 5 * |d| / 8))
  }

  lemma {:induction false} ShrSum(v: nat, a: nat, b: nat)
    ensures Shr(Shr(v, a), b) == Shr(v, a + b)
  {
    if a != 0 {
      ShrSum(v / 2, a - 1, b);
    }
  }

  lemma ShrSmall(v: nat)
    ensures Shr(v, 1) == v / 2 && Shr(v, 2) == v / 4 && Shr(v, 3) == v / 8 && Shr(v, 4) == v / 16
    ensures Shr(v, 5) == v / 32 && Shr(v, 8) == v / 256
  {
    ShrSum(v, 1, 1); ShrSum(v, 2, 1); ShrSum(v, 3, 1); ShrSum(v, 4, 1); ShrSum(v, 4, 4);
    assert Shr(v, 1) == Shr(v / 2, 0);
    var q := v / 16;
    ShrSum(q, 1, 1); ShrSum(q, 2, 1); ShrSum(q, 3, 1);
    assert forall x: nat :: Shr(x, 1) == Shr(x / 2, 0);
  }

  /** m is a multiple of 2 to the j + 8. */
  predicate HoldsOctet(m: nat, j: nat) {
    m > 0 && if j == 0 then m % 256 == 0 else m % 2 == 0 && HoldsOctet(m / 2, j - 1)
  }

  lemma HalfMod(w: nat, h: nat)
    requires h > 0
    ensures (w % (2 * h)) / 2 == (w / 2) % h
  {
    var q, r := w / (2 * h), w % (2 * h);
    Division(w, 2 * h);
    assert w == 2 * (h * q) + r;
    DivMod(w / 2, h, q, r / 2);
  }

  lemma LowOctetBase(q: int, a: int, r: int)
    ensures ((256 * a) * q + r) % 256 == r % 256
  {
    var n := a * q;
    assert (256 * a) * q == 256 * n;
    assert (256 * n + r) % 256 == r % 256;
  }

  /** Reducing by m loses nothing of the octet above bit j. */
  lemma {:induction false} LowOctet(w: nat, m: nat, j: nat)
    requires HoldsOctet(m, j)
    ensures Shr(w % m, j) % 256 == Shr(w, j) % 256
  {
    if j == 0 {
      Division(w, m);
      LowOctetBase(w / m, m / 256, w % m);
    } else {
      var h := m / 2;
      assert m == 2 * h;
      HalfMod(w, h);
      LowOctet(w / 2, h, j - 1);
    }
  }

  lemma WordHoldsOctet(j: nat)
    requires j < 5
    ensures HoldsOctet(WORD, j)
  {
    assert HoldsOctet(WORD / 16, 0) && HoldsOctet(WORD / 8, 1) && HoldsOctet(WORD / 4, 2) && HoldsOctet(WORD / 2, 3);
    assert HoldsOctet(WORD / 8, 0) && HoldsOctet(WORD / 4, 1) && HoldsOctet(WORD / 2, 2);
  }

  /** One more digit: the finished octets stay, and the accumulator still holds
      every bit that has not been output although it is cut to 64 bits. */
  lemma DigitStep(v: nat, d: nat, bc: nat)
    requires d < 32 && bc < 8
    ensures bc < 3 ==> Shr(32 * v + d, bc + 5) == Shr(v, bc)
    ensures bc >= 3 ==>
      && Shr(32 * v + d, bc - 3) / 256 == Shr(v, bc)
      && Shr((32 * v + d) % WORD, bc - 3) % 256 == Shr(32 * v + d, bc - 3) % 256
  {
    var w := 32 * v + d;
    ShrSum(w, 5, bc);
    ShrSmall(w);
    assert w / 32 == v;
    if bc >= 3 {
      ShrSum(w, bc - 3, 8);
      ShrSmall(Shr(w, bc - 3));
      WordHoldsOctet(bc - 3);
      LowOctet(w, WORD, bc - 3);
    }
  }

  /** What a 64-bit word keeps of v. */
  function Truncate(v: nat): nat {
    v % WORD
  }

  /** (bits << 5) | digit on a 64-bit word: the shift clears the five low bits. */
  function ShiftIn(bits: nat, digit: nat): nat {
    (bits * 32) % WORD + digit
  }

  lemma ShiftInTruncates(v: nat, d: nat)
    requires d < 32
    ensures ShiftIn(Truncate(v), d) == Truncate(32 * v + d)
  {
    var q, r := v / WORD, v % WORD;
    assert 32 * v == 32 * r + 32 * q * WORD;
  }

  /** The octets of a digit string worth v with spare trailing bits cut off. */
  function Emitted(v: nat, spare: nat, len: nat): Octets {
    BigEndian(Shr(v, spare), len)
  }

  /** The effect of one digit on the output. */
  lemma OutputStep(v: nat, d: nat, spare: nat, len: nat)
    requires d < 32 && spare < 8
    ensures spare < 3 ==> Emitted(32 * v + d, spare + 5, len) == Emitted(v, spare, len)
    ensures spare >= 3 ==>
      Emitted(32 * v + d, spare - 3, len + 1)
        == Emitted(v, spare, len) + [Shr(Truncate(32 * v + d), spare - 3) % 256]
  {
    DigitStep(v, d, spare);
  }

  lemma ValueSnoc(digits: seq<Digit>, d: Digit)
    ensures Value32(digits + [d]) == Append32(Value32(digits), d)
  {
    assert (digits + [d])[..|digits|] == digits;
  }

  lemma DigitsSnoc(s: string, c: char)
    ensures DigitsOf(s + [c]) ==
      if DigitsOf(s).Some? && DigitOf(c).Some? then Some(DigitsOf(s).value + [DigitOf(c).value]) else None
  {
    assert (s + [c])[..|s|] == s;
  }

  lemma Stops(s: string, k: nat)
    requires k < |s| && DigitOf(s[k]).None?
    ensures DigitsOf(s).None?
  {
    assert s[k] in s;
  }

  /** Reading one more character. */
  lemma Extend(s: string, k: nat)
    requires k < |s| && DigitsOf(s[..k]).Some? && DigitOf(s[k]).Some?
    ensures DigitsOf(s[..k + 1]).Some?
    ensures Value32(DigitsOf(s[..k + 1]).value) == Append32(Value32(DigitsOf(s[..k]).value), DigitOf(s[k]).value)
  {
    var init, c := s[..k], s[k];
    assert s[..k + 1] == init + [c];
    DigitsSnoc(init, c);
    ValueSnoc(DigitsOf(init).value, DigitOf(c).value);
  }

  /** The decoder's variables after digits that write v. */
  ghost predicate Holds(v: nat, bits: nat, bitCount: nat, out: Octets) {
    bitCount < 8 && bits == Truncate(v) && out == Emitted(v, bitCount, |out|)
  }

  /** The body of the decoding loop for one digit, v being what the digits
      before it write. */
  method Absorb(bits: nat, bitCount: nat, out: Octets, digit: nat, ghost v: nat)
    returns (bits': nat, bitCount': nat, out': Octets)
    requires digit < 32 && Holds(v, bits, bitCount, out)
    ensures 8 * |out'| + bitCount' == 8 * |out| + bitCount + 5
    ensures Holds(Append32(v, digit), bits', bitCount', out')
  {
    ShiftInTruncates(v, digit);
    OutputStep(v, digit, bitCount, |out|);
    bits' := ShiftIn(bits, digit);
    bitCount' := bitCount + 5;
    out' := out;
    if bitCount' >= 8 {
      bitCount' := bitCount' - 8;
      out' := out' + [Shr(bits', bitCount') % 256];
    }
  }

  lemma Finished(s: string, bits: nat, bitCount: nat, out: Octets)
    requires DigitsOf(s).Some? && Holds(Value32(DigitsOf(s).value), bits, bitCount, out)
    requires 5 * |s| == 8 * |out| + bitCount
    ensures Decoded(s) == Some(out)
  {
    DivMod(5 * |s|, 8, |out|, bitCount);
  }

  method Decode(s: string) returns (r: Option<Octets>)
    ensures r == Decoded(s)
  {
    var bits: nat := 0;
    var bitCount: nat := 0;
    var out: Octets := [];
    ghost var v: nat := 0;
    for k := 0 to |s|
      invariant DigitsOf(s[..k]).Some? && v == Value32(DigitsOf(s[..k]).value)
      invariant Holds(v, bits, bitCount, out) && 5 * k == 8 * |out| + bitCount
    {
      var d := DigitOf(s[k]);
      if d.None? {
        Stops(s, k);
        return None;
      }
      Extend(s, k);
      bits, bitCount, out := Absorb(bits, bitCount, out, d.value, v);
      v := Append32(v, d.value);
    }
    assert s[..|s|] == s;
    Finished(s, bits, bitCount, out);
    r := Some(out);
  }

  // ----- Decoding inverts encoding -----

  function CharOf(d: Digit): char {
    if d < 10 then '0' + d as char else 'A' + (d - 10) as char
  }

  function CharsOf(digits: seq<Digit>): (s: string)
    ensures |s| == |digits|
    ensures forall i :: 0 <= i < |s| ==> s[i] == CharOf(digits[i])
  {
    if digits == [] then [] else CharsOf(digits[..|digits| - 1]) + [CharOf(digits[|digits| - 1])]
  }

  function EncodedLength(octets: nat): nat {
    (8 * octets + 4) / 5
  }

  /** Base32hex without padding characters: the bits of b, filled up with zero
      bits to whole 5-bit digits. */
  function Encode(b: Octets): string {
    var k := EncodedLength(|b|);
    CharsOf(AsDigits(Shl(Value256(b), 5 * k - 8 * |b|), k))
  }

  lemma {:induction false} DigitsOfChars(digits: seq<Digit>)
    ensures DigitsOf(CharsOf(digits)) == Some(digits)
  {
    var s := CharsOf(digits);
    forall c <- s ensures DigitOf(c).Some? {
      var i :| 0 <= i < |s| && s[i] == c;
      assert c == CharOf(digits[i]);
    }
    var r := DigitsOf(s).value;
    forall i | 0 <= i < |digits| ensures r[i] == digits[i] {
      assert DigitOf(CharOf(digits[i])) == Some(digits[i]);
    }
    assert r == digits;
  }

  lemma {:induction false} ShlSum(v: nat, a: nat, b: nat)
    ensures Shl(Shl(v, a), b) == Shl(v, a + b)
  {
    if b != 0 {
      ShlSum(v, a, b - 1);
    }
  }

  lemma {:induction false} ShlLess(v: nat, w: nat, k: nat)
    ensures v < w <==> Shl(v, k) < Shl(w, k)
  {
    if k != 0 {
      ShlLess(v, w, k - 1);
    }
  }

  lemma {:induction false} ShrShl(v: nat, k: nat)
    ensures Shr(Shl(v, k), k) == v
  {
    if k != 0 {
      ShrShl(v, k - 1);
    }
  }

  lemma ShlSmall(v: nat, k: nat)
    ensures Shl(v, k + 5) == 32 * Shl(v, k) && Shl(v, k + 8) == 256 * Shl(v, k)
  {
    assert Shl(v, k + 2) == 4 * Shl(v, k);
    assert Shl(v, k + 4) == 4 * Shl(v, k + 2);
    assert Shl(v, k + 6) == 4 * Shl(v, k + 4);
  }

  lemma {:induction false} Value32Bound(digits: seq<Digit>)
    ensures Value32(digits) < Shl(1, 5 * |digits|)
  {
    if digits != [] {
      Value32Bound(digits[..|digits| - 1]);
      ShlSmall(1, 5 * (|digits| - 1));
    }
  }

  lemma {:induction false} Value256Bound(b: Octets)
    ensures Value256(b) < Shl(1, 8 * |b|)
  {
    if b != [] {
      Value256Bound(b[..|b| - 1]);
      ShlSmall(1, 8 * (|b| - 1));
    }
  }

  lemma Quotient(v: nat, base: nat, bound: nat)
    requires base > 0 && v < base * bound
    ensures v / base < bound && base * (v / base) + v % base == v
  {
    Division(v, base);
    if v / base >= bound {
      MulMonotone(base, bound, v / base);
    }
  }

  lemma {:induction false} ValueOfDigits(v: nat, k: nat)
    requires v < Shl(1, 5 * k)
    ensures Value32(AsDigits(v, k)) == v
  {
    if k != 0 {
      ShlSmall(1, 5 * (k - 1));
      Quotient(v, 32, Shl(1, 5 * (k - 1)));
      var q, r := v / 32, v % 32;
      ValueOfDigits(q, k - 1);
      ValueSnoc(AsDigits(q, k - 1), r);
    }
  }

  lemma ValueSnoc256(octets: Octets, o: Octet)
    ensures Value256(octets + [o]) == 256 * Value256(octets) + o
  {
    assert (octets + [o])[..|octets|] == octets;
  }

  lemma {:induction false} ValueOfOctets(v: nat, n: nat)
    requires v < Shl(1, 8 * n)
    ensures Value256(BigEndian(v, n)) == v
  {
    if n != 0 {
      ShlSmall(1, 8 * (n - 1));
      Quotient(v, 256, Shl(1, 8 * (n - 1)));
      var q, r := v / 256, v % 256;
      ValueOfOctets(q, n - 1);
      ValueSnoc256(BigEndian(q, n - 1), r);
    }
  }

  lemma {:induction false} OctetsOfValue(b: Octets)
    ensures BigEndian(Value256(b), |b|) == b
  {
    if b != [] {
      var init := b[..|b| - 1];
      OctetsOfValue(init);
      DivMod(Value256(b), 256, Value256(init), b[|b| - 1]);
      assert b == init + [b[|b| - 1]];
    }
  }

  lemma PaddedBound(b: Octets, pad: nat)
    ensures Shl(Value256(b), pad) < Shl(1, 8 * |b| + pad)
  {
    Value256Bound(b);
    ShlLess(Value256(b), Shl(1, 8 * |b|), pad);
    ShlSum(1, 8 * |b|, pad);
  }

  lemma EmittedOfPadded(b: Octets, pad: nat)
    ensures Emitted(Shl(Value256(b), pad), pad, |b|) == b
  {
    ShrShl(Value256(b), pad);
    OctetsOfValue(b);
  }

  lemma DecodedChars(digits: seq<Digit>, spare: nat, len: nat)
    requires 5 * |digits| == 8 * len + spare && spare < 8
    ensures Decoded(CharsOf(digits)) == Some(Emitted(Value32(digits), spare, len))
  {
    DigitsOfChars(digits);
    DivMod(5 * |digits|, 8, len, spare);
  }

  lemma PaddedDecodes(b: Octets, k: nat, pad: nat)
    requires 5 * k == 8 * |b| + pad && pad < 5
    ensures Decoded(CharsOf(AsDigits(Shl(Value256(b), pad), k))) == Some(b)
  {
    var v := Shl(Value256(b), pad);
    DecodedChars(AsDigits(v, k), pad, |b|);
    PaddedBound(b, pad);
    ValueOfDigits(v, k);
    EmittedOfPadded(b, pad);
  }

  /** Decoding inverts encoding for octet strings of every length. */
  lemma RoundTrip(b: Octets)
    ensures Decoded(Encode(b)) == Some(b)
  {
    var k := EncodedLength(|b|);
    PaddedDecodes(b, k, 5 * k - 8 * |b|);
  }

  // ----- Decoding keeps the order of hashes -----

  lemma {:induction false} LexSnoc<T(!new)>(less: (T, T) -> bool, a: seq<T>, x: T, b: seq<T>, y: T)
    requires |a| == |b| && forall z :: !less(z, z)
    ensures Lex(less, a + [x], b + [y]) <==> Lex(less, a, b) || (a == b && less(x, y))
  {
    if a == [] {
      assert (a + [x])[1..] == [] && (b + [y])[1..] == [];
    } else {
      assert (a + [x])[1..] == a[1..] + [x] && (b + [y])[1..] == b[1..] + [y];
      assert a == [a[0]] + a[1..] && b == [b[0]] + b[1..];
      LexSnoc(less, a[1..], x, b[1..], y);
    }
  }

  predicate DigitsLess(a: seq<Digit>, b: seq<Digit>) {
    Lex((x: Digit, y: Digit) => x < y, a, b)
  }

  lemma {:induction false} DigitOrder(a: seq<Digit>, b: seq<Digit>)
    requires |a| == |b|
    ensures DigitsLess(a, b) <==> Value32(a) < Value32(b)
    ensures a == b <==> Value32(a) == Value32(b)
  {
    if a != [] {
      var m := |a| - 1;
      assert a == a[..m] + [a[m]] && b == b[..m] + [b[m]];
      LexSnoc((x: Digit, y: Digit) => x < y, a[..m], a[m], b[..m], b[m]);
      DigitOrder(a[..m], b[..m]);
    }
  }

  lemma {:induction false} OctetOrder(a: Octets, b: Octets)
    requires |a| == |b|
    ensures OctetsLess(a, b) <==> Value256(a) < Value256(b)
    ensures a == b <==> Value256(a) == Value256(b)
  {
    if a != [] {
      var m := |a| - 1;
      assert a == a[..m] + [a[m]] && b == b[..m] + [b[m]];
      LexSnoc((x: Octet, y: Octet) => x < y, a[..m], a[m], b[..m], b[m]);
      OctetOrder(a[..m], b[..m]);
    }
  }

  predicate Canonical(s: string) {
    forall i :: 0 <= i < |s| ==> '0' <= s[i] <= '9' || 'A' <= s[i] <= 'V'
  }

  predicate CharsLess(s: string, t: string) {
    Lex((x: char, y: char) => x < y, s, t)
  }

  lemma {:induction false} CharOrder(s: string, t: string, a: seq<Digit>, b: seq<Digit>)
    requires Canonical(s) && Canonical(t) && |a| == |s| && |b| == |t|
    requires forall i :: 0 <= i < |s| ==> DigitOf(s[i]) == Some(a[i])
    requires forall i :: 0 <= i < |t| ==> DigitOf(t[i]) == Some(b[i])
    ensures CharsLess(s, t) <==> DigitsLess(a, b)
  {
    if s != [] && t != [] {
      CharOrder(s[1..], t[1..], a[1..], b[1..]);
    }
  }

  /** Equally long upper-case labels that hold a whole number of octets compare
      as their decoded octets do. */
  lemma OrderPreserved(s: string, t: string)
    requires Canonical(s) && Canonical(t) && |s| == |t| && 5 * |s| % 8 == 0
    ensures Decoded(s).Some? && Decoded(t).Some?
    ensures CharsLess(s, t) <==> OctetsLess(Decoded(s).value, Decoded(t).value)
  {
    var a, b := DigitsOf(s).value, DigitsOf(t).value;
    var n := 5 * |s| / 8;
    assert 5 * |s| == 8 * n;
    CharOrder(s, t, a, b);
    DigitOrder(a, b);
    Value32Bound(a);
    Value32Bound(b);
    ValueOfOctets(Value32(a), n);
    ValueOfOctets(Value32(b), n);
    OctetOrder(BigEndian(Value32(a), n), BigEndian(Value32(b), n));
  }

  /** Octet i of the result is bits 8i to 8i+7 of the digit string. */
  lemma {:induction false} OctetAt(v: nat, len: nat, i: nat)
    requires i < len
    ensures BigEndian(v, len)[i] == Shr(v, 8 * (len - 1 - i)) % 256
  {
    if i < len - 1 {
      OctetAt(v / 256, len - 1, i);
      ShrSum(v, 8, 8 * (len - 2 - i));
      ShrSmall(v);
    }
  }

  lemma DecodedAt(s: string, i: nat)
    requires DigitsOf(s).Some? && i < 5 * |s| / 8
    ensures Decoded(s).Some? && |Decoded(s).value| == 5 * |s| / 8
    ensures Decoded(s).value[i] == Shr(Value32(DigitsOf(s).value), 5 * |s| - 8 * (i + 1)) % 256
  {
    var v, spare, len := Value32(DigitsOf(s).value), 5 * |s| % 8, 5 * |s| / 8;
    OctetAt(Shr(v, spare), len, i);
    ShrSum(v, spare, 8 * (len - 1 - i));
  }
}
