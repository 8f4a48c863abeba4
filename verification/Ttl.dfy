/** The smallest TTL of a message, capped at one day. */
module Ttl {
  import opened Arithmetic
  import opened Records

  const MAX_TTL: U32 := 0xFFFF_FFFF
  const DEFAULT_TTL: U32 := 300
  const ONE_DAY: U32 := 86400

  function AllRecords(msg: Message): seq<Record> {
    msg.answers + msg.authority + msg.additionals
  }

  function Lowest(records: seq<Record>): U32 {
    if records == [] then MAX_TTL
    else Min(Lowest(records[..|records| - 1]), records[|records| - 1].ttl)
  }

  lemma {:induction false} LowestBounds(records: seq<Record>)
    ensures forall r <- records :: Lowest(records) <= r.ttl
    ensures Lowest(records) == MAX_TTL || exists r <- records :: Lowest(records) == r.ttl
  {
    if records != [] {
      var init, last := records[..|records| - 1], records[|records| - 1];
      LowestBounds(init);
      assert forall r <- records :: r == last || r in init;
    }
  }

  function MinTtl(msg: Message): U32 {
    var m := Lowest(AllRecords(msg));
    if m == MAX_TTL then DEFAULT_TTL else Min(m, ONE_DAY)
  }

  /** A message is kept for a day, unless it has a record with a shorter time to live,
      which decides; without any that is not the largest possible, for five minutes. */
  lemma MinTtlBounds(msg: Message)
    ensures MinTtl(msg) <= 86400
    ensures forall r <- AllRecords(msg) :: MinTtl(msg) <= r.ttl
    ensures
      if forall r <- AllRecords(msg) :: r.ttl == MAX_TTL then MinTtl(msg) == 300
      else if forall r <- AllRecords(msg) :: r.ttl >= 86400 then MinTtl(msg) == 86400
      else exists r <- AllRecords(msg) :: MinTtl(msg) == r.ttl
    ensures forall r :: r in AllRecords(msg) <==> r in msg.answers || r in msg.authority || r in msg.additionals
  {
    LowestBounds(AllRecords(msg));
  }

  lemma {:induction false} LowestAppend(a: seq<Record>, b: seq<Record>)
    ensures Lowest(a + b) == Min(Lowest(a), Lowest(b))
  {
    if b == [] {
      assert a + b == a;
    } else {
      assert (a + b)[..|a + b| - 1] == a + b[..|b| - 1];
      LowestAppend(a, b[..|b| - 1]);
    }
  }

  method LowerBy(start: U32, records: seq<Record>) returns (m: U32)
    ensures m == Min(start, Lowest(records))
  {
    m := start;
    for i := 0 to |records|
      invariant m == Min(start, Lowest(records[..i]))
    {
      assert records[..i + 1][..i] == records[..i];
      m := Min(m, records[i].ttl);
    }
    assert records[..|records|] == records;
  }

  method CalculateMinTtl(msg: Message) returns (ttl: U32)
    ensures ttl == MinTtl(msg)
  {
    var minTtl := LowerBy(MAX_TTL, msg.answers);
    minTtl := LowerBy(minTtl, msg.authority);
    minTtl := LowerBy(minTtl, msg.additionals);
    LowestAppend(msg.answers, msg.authority);
    LowestAppend(msg.answers + msg.authority, msg.additionals);
    ttl := if minTtl == MAX_TTL then DEFAULT_TTL else Min(minTtl, ONE_DAY);
  }
}
