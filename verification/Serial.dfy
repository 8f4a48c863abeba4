/** Serial number arithmetic on 32-bit clocks (RFC 1982 section 3.2). */
module Serial {
  import opened Records

  const HALF: nat := 0x8000_0000
  const MODULUS: nat := 0x1_0000_0000

  /** a.wrapping_sub(b) */
  function Distance(a: U32, b: U32): nat {
    (a - b) % MODULUS
  }

  /** a.wrapping_sub(b) as i32 */
  function Diff(a: U32, b: U32): int {
    var d := Distance(a, b);
    if d < HALF then d else d - MODULUS
  }

  /** The low 32 bits of a clock reading. */
  function Low(now: nat): U32 {
    now % MODULUS
  }

  lemma DistanceAges(exp: U32, start: nat, age: nat)
    requires age <= Distance(exp, Low(start))
    ensures Distance(exp, Low(start + age)) == Distance(exp, Low(start)) - age
  {
  }

  /** Time passing by less than the distance to a deadline shortens that
      distance by exactly as much, across the 32-bit rollover. */
  lemma DiffAges(exp: U32, start: nat, now: nat)
    requires start <= now && 0 <= Diff(exp, Low(start)) && now - start <= Diff(exp, Low(start))
    ensures Diff(exp, Low(now)) == Diff(exp, Low(start)) - (now - start)
  {
    DistanceAges(exp, start, now - start);
  }

  // ----- Windows on a clock that does not wrap -----

  /** The window opens at the moment i, read as inception, and closes less than half
      the 32-bit range later, read as expiration. */
  predicate OpensAt(expiration: U32, inception: U32, i: int) {
    i % MODULUS == inception && 0 < Distance(expiration, inception) < HALF
  }

  /** now lies between such a moment and the end of that window. */
  ghost predicate InRun(expiration: U32, inception: U32, now: nat) {
    exists i: int :: OpensAt(expiration, inception, i) && i <= now <= i + Distance(expiration, inception)
  }

  /** The three comparisons of a validity window. */
  predicate InWindow(expiration: U32, inception: U32, now: nat) {
    && Diff(Low(now), inception) >= 0
    && Diff(expiration, Low(now)) >= 0
    && Diff(expiration, inception) > 0
  }

  /** They hold exactly within a run of the window. */
  lemma RunExactly(expiration: U32, inception: U32, now: nat)
    ensures InWindow(expiration, inception, now) <==> InRun(expiration, inception, now)
  {
    var age, length := Distance(Low(now), inception), Distance(expiration, inception);
    Opening(now, inception);
    Split(expiration, Low(now), inception);
    if InWindow(expiration, inception, now) {
      assert OpensAt(expiration, inception, now - age);
    }
    if InRun(expiration, inception, now) {
      var i: int :| OpensAt(expiration, inception, i) && i <= now <= i + length;
      Elapsed(i, now);
    }
  }

  lemma Opening(now: nat, inception: U32)
    ensures (now - Distance(Low(now), inception)) % MODULUS == inception
  {
  }

  /** The clock distance from a moment to a reading less than a whole range away. */
  lemma Elapsed(i: int, now: nat)
    requires now < i + MODULUS && i < now + MODULUS
    ensures Distance(Low(now), i % MODULUS) == if i <= now then now - i else now - i + MODULUS
  {
  }

  lemma Split(a: U32, b: U32, c: U32)
    ensures Distance(a, b) + Distance(b, c) in {Distance(a, c), Distance(a, c) + MODULUS}
  {
  }

  /** For readings within half the range of the moment it opens, the window admits
      exactly those from that moment to the end of its length. */
  lemma WindowExactly(expiration: U32, inception: U32, i: int, now: nat)
    requires OpensAt(expiration, inception, i) && now < i + HALF && i < now + HALF
    ensures InWindow(expiration, inception, now) <==> i <= now <= i + Distance(expiration, inception)
  {
    Elapsed(i, now);
    Split(expiration, Low(now), inception);
  }
}
