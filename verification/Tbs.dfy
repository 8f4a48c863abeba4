/** The octets an RRSIG signs (RFC 4034 section 6). */
module Tbs {
  import opened Order
  import opened Names
  import opened Records

  /** Integers to be written big-endian, each in so many octets. */
  datatype Fields = NoField | Field(value: nat, width: nat, rest: Fields)

  function Serialize(fields: Fields): Octets {
    match fields
    case NoField => []
    case Field(value, width, rest) => BigEndian(value, width) + Serialize(rest)
  }

  /** Labels of a name without a leading wildcard. */
  function CountedLabels(n: Name): nat {
    if n != [] && n[0] == "*" then |n| - 1 else |n|
  }

  /** The owner that was signed: the wildcard the RRset was expanded from when
      the signature counts fewer labels than the owner has. */
  function SignedOwner(owner: Name, sigLabels: nat): Name {
    if CountedLabels(owner) > sigLabels && sigLabels > 0
       && WireLength(["*"] + owner[|owner| - sigLabels..]) <= MAX_WIRE
    then ["*"] + owner[|owner| - sigLabels..]
    else owner
  }

  function HeaderFields(sig: Rrsig): Fields {
    Field(TypeCode(sig.covered), 2,
    Field(sig.algorithm, 1,
    Field(sig.labels, 1,
    Field(sig.originalTtl, 4,
    Field(sig.expiration, 4,
    Field(sig.inception, 4,
    Field(sig.keyTag, 2, NoField)))))))
  }

  function Header(sig: Rrsig, signer: Octets): Octets {
    Serialize(HeaderFields(sig)) + signer
  }

  function WireFields(sig: Rrsig, class_: U16, rdata: Octets): Fields {
    Field(TypeCode(sig.covered), 2,
    Field(class_, 2,
    Field(sig.originalTtl, 4,
    Field(|rdata| % 0x1_0000, 2, NoField))))
  }

  /** One record in canonical form; the record's own TTL plays no part. */
  function Wire(sig: Rrsig, owner: Octets, class_: U16, rdata: Octets): Octets {
    owner + Serialize(WireFields(sig, class_, rdata)) + rdata
  }

  predicate Uniform(sig: Rrsig, owner: Name, class_: U16, records: seq<Record>) {
    forall r <- records :: r.Type() == sig.covered && r.class_ == class_ && r.name == owner
  }

  function Rdatas(prim: Primitives, records: seq<Record>): Option<seq<Octets>> {
    if records == [] then Some([])
    else
      match (prim.encodeRdata(records[0].data), Rdatas(prim, records[1..]))
      case (Some(x), Some(rest)) => Some([x] + rest)
      case _ => None
  }

  function Insert(x: Octets, s: seq<Octets>): seq<Octets> {
    if s == [] || !OctetsLess(s[0], x) then [x] + s else [s[0]] + Insert(x, s[1..])
  }

  function Sort(s: seq<Octets>): seq<Octets> {
    if s == [] then [] else Insert(s[0], Sort(s[1..]))
  }

  function Wires(sig: Rrsig, owner: Octets, class_: U16, rdatas: seq<Octets>): Octets {
    if rdatas == [] then []
    else Wire(sig, owner, class_, rdatas[0]) + Wires(sig, owner, class_, rdatas[1..])
  }

  function BuildTbs(prim: Primitives, sig: Rrsig, owner: Name, records: seq<Record>): Option<Octets> {
    if records == [] || !Uniform(sig, owner, records[0].class_, records) then None
    else
      match (prim.encodeName(sig.signer), prim.encodeName(SignedOwner(owner, sig.labels)), Rdatas(prim, records))
      case (Some(signer), Some(signedOwner), Some(rdatas)) =>
        Some(Header(sig, signer) + Wires(sig, signedOwner, records[0].class_, Sort(rdatas)))
      case _ => None
  }

  method Build(prim: Primitives, sig: Rrsig, owner: Name, records: seq<Record>) returns (out: Option<Octets>)
    ensures out == BuildTbs(prim, sig, owner, records)
  {
    if records == [] {
      return None;
    }
    var class_ := records[0].class_;
    for i := 0 to |records|
      invariant forall k :: 0 <= k < i ==>
        records[k].Type() == sig.covered && records[k].class_ == class_ && records[k].name == owner
    {
      if records[i].Type() != sig.covered || records[i].class_ != class_ || records[i].name != owner {
        assert records[i] in records;
        return None;
      }
    }
    assert Uniform(sig, owner, class_, records);
    var signer := prim.encodeName(sig.signer);
    if signer.None? {
      return None;
    }
    var signedOwner := prim.encodeName(SignedOwner(owner, sig.labels));
    var rdatas: seq<Octets> := [];
    for i := 0 to |records|
      invariant Rdatas(prim, records[..i]) == Some(rdatas)
      invariant i > 0 ==> signedOwner.Some?
    {
      RdatasSnoc(prim, records[..i], records[i]);
      assert records[..i + 1] == records[..i] + [records[i]];
      var rdata := prim.encodeRdata(records[i].data);
      if rdata.None? || signedOwner.None? {
        if rdata.None? { RdatasMissing(prim, records, i); }
        return None;
      }
      rdatas := rdatas + [rdata.value];
    }
    assert records[..|records|] == records;
    var sorted := Sort(rdatas);
    var body := Header(sig, signer.value);
    for i := 0 to |sorted|
      invariant body + Wires(sig, signedOwner.value, class_, sorted[i..])
             == Header(sig, signer.value) + Wires(sig, signedOwner.value, class_, sorted)
    {
      assert sorted[i..][1..] == sorted[i + 1..];
      body := body + Wire(sig, signedOwner.value, class_, sorted[i]);
    }
    assert sorted[|sorted|..] == [];
    assert Rdatas(prim, records) == Some(rdatas);
    assert body == Header(sig, signer.value) + Wires(sig, signedOwner.value, class_, sorted);
    out := Some(body);
  }

  lemma {:induction false} RdatasSnoc(prim: Primitives, a: seq<Record>, r: Record)
    ensures Rdatas(prim, a + [r]) ==
      if Rdatas(prim, a).Some? && prim.encodeRdata(r.data).Some?
      then Some(Rdatas(prim, a).value + [prim.encodeRdata(r.data).value]) else None
  {
    if a == [] {
      assert a + [r] == [r] && [r][1..] == [];
      assert forall y: Octets :: [y] + [] == [] + [y];
    } else {
      assert (a + [r])[1..] == a[1..] + [r];
      RdatasSnoc(prim, a[1..], r);
      if Rdatas(prim, a).Some? && prim.encodeRdata(r.data).Some? {
        var x, rest, y := prim.encodeRdata(a[0].data).value, Rdatas(prim, a[1..]).value, prim.encodeRdata(r.data).value;
        assert [x] + (rest + [y]) == ([x] + rest) + [y];
      }
    }
  }

  lemma {:induction false} RdatasMissing(prim: Primitives, a: seq<Record>, i: nat)
    requires i < |a| && prim.encodeRdata(a[i].data).None?
    ensures Rdatas(prim, a).None?
  {
    if i > 0 {
      RdatasMissing(prim, a[1..], i - 1);
    }
  }

  // ----- Sorting -----

  ghost predicate Sorted(s: seq<Octets>) {
    forall i, j :: 0 <= i < j < |s| ==> !OctetsLess(s[j], s[i])
  }

  lemma {:induction false} InsertMultiset(x: Octets, s: seq<Octets>)
    ensures multiset(Insert(x, s)) == multiset{x} + multiset(s)
  {
    if s == [] || !OctetsLess(s[0], x) {
      assert multiset([x] + s) == multiset{x} + multiset(s);
    } else {
      InsertMultiset(x, s[1..]);
      assert s == [s[0]] + s[1..];
    }
  }

  ghost predicate AtLeast(x: Octets, s: seq<Octets>) {
    forall y <- s :: !OctetsLess(y, x)
  }

  lemma SortedCons(x: Octets, s: seq<Octets>)
    requires Sorted(s)
    ensures Sorted([x] + s) <==> AtLeast(x, s)
  {
    if Sorted([x] + s) {
      forall y <- s ensures !OctetsLess(y, x) {
        var i :| 0 <= i < |s| && s[i] == y;
        assert ([x] + s)[0] == x && ([x] + s)[i + 1] == y;
      }
    }
  }

  lemma {:induction false} InsertSorted(x: Octets, s: seq<Octets>)
    requires Sorted(s)
    ensures Sorted(Insert(x, s))
    ensures forall l :: AtLeast(l, s) && !OctetsLess(x, l) ==> AtLeast(l, Insert(x, s))
  {
    OctetsStrictTotal();
    if s == [] {
    } else {
      assert s == [s[0]] + s[1..];
      SortedCons(s[0], s[1..]);
      if !OctetsLess(s[0], x) {
        SortedCons(x, s);
      } else {
        InsertSorted(x, s[1..]);
        SortedCons(s[0], Insert(x, s[1..]));
      }
    }
  }

  lemma {:induction false} SortSorts(s: seq<Octets>)
    ensures Sorted(Sort(s)) && multiset(Sort(s)) == multiset(s)
  {
    if s != [] {
      SortSorts(s[1..]);
      InsertSorted(s[0], Sort(s[1..]));
      InsertMultiset(s[0], Sort(s[1..]));
      assert s == [s[0]] + s[1..];
    }
  }

  lemma SameHead(a: seq<Octets>, b: seq<Octets>)
    requires Sorted(a) && Sorted(b) && multiset(a) == multiset(b) && a != [] && b != []
    ensures a[0] == b[0]
  {
    OctetsStrictTotal();
    assert a[0] in multiset(b) && b[0] in multiset(a);
  }

  lemma DropHead(a: seq<Octets>)
    requires a != []
    ensures multiset(a[1..]) == multiset(a) - multiset{a[0]}
  {
    assert a == [a[0]] + a[1..];
  }

  lemma {:induction false} SortedUnique(a: seq<Octets>, b: seq<Octets>)
    requires Sorted(a) && Sorted(b) && multiset(a) == multiset(b)
    ensures a == b
  {
    assert |a| == |multiset(a)| == |multiset(b)| == |b|;
    if a != [] {
      SameHead(a, b);
      DropHead(a);
      DropHead(b);
      SortedUnique(a[1..], b[1..]);
      assert a == [a[0]] + a[1..] && b == [b[0]] + b[1..];
    }
  }

  // ----- Order and TTLs of the records play no part -----

  function Contents(records: seq<Record>): (c: seq<Content>)
    ensures |c| == |records|
  {
    if records == [] then [] else [ContentOf(records[0])] + Contents(records[1..])
  }

  function Without<T>(s: seq<T>, i: nat): (r: seq<T>)
    requires i < |s|
    ensures |r| == |s| - 1
  {
    s[..i] + s[i + 1..]
  }

  lemma WithoutMultiset<T>(s: seq<T>, i: nat)
    requires i < |s|
    ensures multiset(Without(s, i)) == multiset(s) - multiset{s[i]}
  {
    assert s == s[..i] + [s[i]] + s[i + 1..];
  }

  lemma WithoutStep<T>(s: seq<T>, i: nat)
    requires 0 < i < |s|
    ensures Without(s, i)[0] == s[0] && Without(s, i)[1..] == Without(s[1..], i - 1)
  {
  }

  lemma {:induction false} ContentAt(a: seq<Record>, i: nat)
    requires i < |a|
    ensures Contents(a)[i] == ContentOf(a[i])
    ensures Contents(Without(a, i)) == Without(Contents(a), i)
  {
    if i == 0 {
      assert Without(a, 0) == a[1..] && Without(Contents(a), 0) == Contents(a[1..]);
    } else {
      WithoutStep(a, i);
      WithoutStep(Contents(a), i);
      ContentAt(a[1..], i - 1);
      assert Contents(Without(a, i)) == [Contents(a)[0]] + Without(Contents(a)[1..], i - 1);
    }
  }

  lemma {:induction false} RdatasWithout(prim: Primitives, a: seq<Record>, i: nat)
    requires i < |a|
    ensures Rdatas(prim, a).Some? <==> Rdatas(prim, Without(a, i)).Some? && prim.encodeRdata(a[i].data).Some?
    ensures Rdatas(prim, a).Some? ==>
      multiset(Rdatas(prim, a).value)
        == multiset{prim.encodeRdata(a[i].data).value} + multiset(Rdatas(prim, Without(a, i)).value)
  {
    if i == 0 {
      assert Without(a, 0) == a[1..];
    } else {
      WithoutStep(a, i);
      RdatasWithout(prim, a[1..], i - 1);
    }
  }

  lemma SameSize(a: seq<Record>, b: seq<Record>)
    requires multiset(Contents(a)) == multiset(Contents(b))
    ensures |a| == |b|
  {
    assert |a| == |multiset(Contents(a))| == |multiset(Contents(b))| == |b|;
  }

  /** Every record of a has a counterpart in b. */
  lemma Counterpart(a: seq<Record>, b: seq<Record>, i: nat) returns (k: nat)
    requires multiset(Contents(a)) == multiset(Contents(b)) && i < |a|
    ensures k < |b| && ContentOf(b[k]) == ContentOf(a[i])
    ensures multiset(Contents(Without(a, i))) == multiset(Contents(Without(b, k)))
  {
    assert Contents(a)[i] in multiset(Contents(b));
    k :| 0 <= k < |Contents(b)| && Contents(b)[k] == Contents(a)[i];
    ContentAt(a, i);
    ContentAt(b, k);
    WithoutMultiset(Contents(a), i);
    WithoutMultiset(Contents(b), k);
  }

  lemma {:induction false} RdatasOfContents(prim: Primitives, a: seq<Record>, b: seq<Record>)
    requires multiset(Contents(a)) == multiset(Contents(b))
    ensures Rdatas(prim, a).Some? <==> Rdatas(prim, b).Some?
    ensures Rdatas(prim, a).Some? ==> multiset(Rdatas(prim, a).value) == multiset(Rdatas(prim, b).value)
    decreases |a|
  {
    SameSize(a, b);
    if a != [] {
      var k := Counterpart(a, b, 0);
      RdatasWithout(prim, a, 0);
      RdatasWithout(prim, b, k);
      RdatasOfContents(prim, Without(a, 0), Without(b, k));
    }
  }

  lemma UniformOfContents(sig: Rrsig, owner: Name, class_: U16, a: seq<Record>, b: seq<Record>)
    requires multiset(Contents(a)) == multiset(Contents(b)) && Uniform(sig, owner, class_, a)
    ensures Uniform(sig, owner, class_, b)
  {
    forall r <- b ensures r.Type() == sig.covered && r.class_ == class_ && r.name == owner {
      var i :| 0 <= i < |b| && b[i] == r;
      var k := Counterpart(b, a, i);
      assert a[k] in a && a[k].Type() == r.Type();
    }
  }

  /** Permuting the RRset and changing the TTLs of its records leaves the signed
      octets, or their absence, unchanged. */
  lemma OrderAndTtlIrrelevant(prim: Primitives, sig: Rrsig, owner: Name, a: seq<Record>, b: seq<Record>)
    requires multiset(Contents(a)) == multiset(Contents(b))
    ensures BuildTbs(prim, sig, owner, a) == BuildTbs(prim, sig, owner, b)
  {
    SameSize(a, b);
    if a != [] {
      SameClass(sig, owner, a, b);
      RdatasOfContents(prim, a, b);
      if Rdatas(prim, a).Some? {
        var x, y := Rdatas(prim, a).value, Rdatas(prim, b).value;
        SortSorts(x);
        SortSorts(y);
        SortedUnique(Sort(x), Sort(y));
      }
    }
  }

  lemma SameClass(sig: Rrsig, owner: Name, a: seq<Record>, b: seq<Record>)
    requires multiset(Contents(a)) == multiset(Contents(b)) && a != [] && b != []
    ensures Uniform(sig, owner, a[0].class_, a) <==> Uniform(sig, owner, b[0].class_, b)
    ensures Uniform(sig, owner, a[0].class_, a) ==> a[0].class_ == b[0].class_
  {
    assert a[0] in a && b[0] in b;
    if Uniform(sig, owner, a[0].class_, a) {
      UniformOfContents(sig, owner, a[0].class_, a, b);
    }
    if Uniform(sig, owner, b[0].class_, b) {
      UniformOfContents(sig, owner, b[0].class_, b, a);
    }
  }

  // ----- The signed octets determine what was signed -----

  /** A name followed by anything shows where it ends. */
  ghost predicate NamesApart(prim: Primitives) {
    forall a, b, x: Octets, y: Octets
      | prim.encodeName(a).Some? && prim.encodeName(b).Some?
        && prim.encodeName(a).value + x == prim.encodeName(b).value + y :: a == b
  }

  /** Different data of one type have different encodings. */
  ghost predicate DataApart(prim: Primitives) {
    forall d: RData, e: RData
      | d.Type() == e.Type() && prim.encodeRdata(d).Some? && prim.encodeRdata(d) == prim.encodeRdata(e) :: d == e
  }

  /** Lengths fit 16 bits. */
  ghost predicate DataShort(prim: Primitives) {
    forall d | prim.encodeRdata(d).Some? :: |prim.encodeRdata(d).value| < 0x1_0000
  }

  /** Encodings that can be told apart. */
  ghost predicate Unambiguous(prim: Primitives) {
    NamesApart(prim) && DataApart(prim) && DataShort(prim)
  }

  predicate Fits(value: nat, width: nat) {
    if width == 0 then value == 0 else Fits(value / 256, width - 1)
  }

  lemma {:induction false} BigEndianUnique(v: nat, w: nat, width: nat)
    requires Fits(v, width) && Fits(w, width) && BigEndian(v, width) == BigEndian(w, width)
    ensures v == w
  {
    if width > 0 {
      var a, b := BigEndian(v / 256, width - 1), BigEndian(w / 256, width - 1);
      SplitEqual(a, [v % 256], b, [w % 256]);
      BigEndianUnique(v / 256, w / 256, width - 1);
      assert v == 256 * (v / 256) + v % 256;
    }
  }

  lemma SplitEqual(a: Octets, x: Octets, b: Octets, y: Octets)
    requires |a| == |b| && a + x == b + y
    ensures a == b && x == y
  {
    assert a == (a + x)[..|a|] && x == (a + x)[|a|..];
    assert b == (b + y)[..|b|] && y == (b + y)[|b|..];
  }

  predicate SameShape(a: Fields, b: Fields) {
    match (a, b)
    case (NoField, NoField) => true
    case (Field(_, w, r), Field(_, w', r')) => w == w' && SameShape(r, r')
    case _ => false
  }

  predicate AllFit(fields: Fields) {
    fields.Field? ==> Fits(fields.value, fields.width) && AllFit(fields.rest)
  }

  lemma {:induction false} SerializeUnique(a: Fields, x: Octets, b: Fields, y: Octets)
    requires SameShape(a, b) && AllFit(a) && AllFit(b) && Serialize(a) + x == Serialize(b) + y
    ensures a == b && x == y
  {
    if a.Field? {
      var p, q := BigEndian(a.value, a.width), BigEndian(b.value, b.width);
      var s, t := Serialize(a.rest), Serialize(b.rest);
      assert (p + s) + x == p + (s + x) && (q + t) + y == q + (t + y);
      SplitEqual(p, s + x, q, t + y);
      BigEndianUnique(a.value, b.value, a.width);
      SerializeUnique(a.rest, x, b.rest, y);
    } else {
      assert [] + x == x && [] + y == y;
    }
  }

  lemma FitsWord(v: U16)
    ensures Fits(v, 2)
  {
    assert v / 256 / 256 == 0;
    assert Fits(v / 256 / 256, 0) && Fits(v / 256, 1);
  }

  lemma FitsLong(v: U32)
    ensures Fits(v, 4)
  {
    var q := v / 256 / 256;
    assert q < 0x1_0000;
    FitsWord(q);
    assert Fits(v / 256, 3);
  }

  lemma FitsByte(v: Octet)
    ensures Fits(v, 1)
  {
    assert v / 256 == 0 && Fits(0, 0);
  }

  lemma HeaderFits(sig: Rrsig)
    ensures AllFit(HeaderFields(sig))
  {
    FitsWord(TypeCode(sig.covered));
    FitsByte(sig.algorithm);
    FitsByte(sig.labels);
    FitsLong(sig.originalTtl);
    FitsLong(sig.expiration);
    FitsLong(sig.inception);
    FitsWord(sig.keyTag);
    var tail := HeaderFields(sig).rest.rest.rest.rest;
    assert AllFit(tail.rest.rest);
    assert AllFit(tail);
    assert AllFit(HeaderFields(sig).rest.rest);
  }

  lemma HeadersAlike(sig: Rrsig, sig': Rrsig)
    ensures SameShape(HeaderFields(sig), HeaderFields(sig'))
  {
    var f, g := HeaderFields(sig), HeaderFields(sig');
    assert SameShape(f.rest.rest.rest.rest.rest.rest, g.rest.rest.rest.rest.rest.rest);
    assert SameShape(f.rest.rest.rest.rest, g.rest.rest.rest.rest);
    assert SameShape(f.rest.rest, g.rest.rest);
  }

  lemma WireFits(sig: Rrsig, class_: U16, rdata: Octets)
    ensures AllFit(WireFields(sig, class_, rdata))
  {
    FitsWord(TypeCode(sig.covered));
    FitsWord(class_);
    FitsLong(sig.originalTtl);
    FitsWord(|rdata| % 0x1_0000);
    assert AllFit(WireFields(sig, class_, rdata).rest.rest);
  }

  lemma WiresAlike(sig: Rrsig, c: U16, r: Octets, sig': Rrsig, c': U16, r': Octets)
    ensures SameShape(WireFields(sig, c, r), WireFields(sig', c', r'))
  {
    assert SameShape(WireFields(sig, c, r).rest.rest, WireFields(sig', c', r').rest.rest);
  }

  /** An encoded name at the head of a string is determined by the string. */
  lemma NameUnique(prim: Primitives, a: Name, x: Octets, b: Name, y: Octets)
    requires Unambiguous(prim) && prim.encodeName(a).Some? && prim.encodeName(b).Some?
    requires prim.encodeName(a).value + x == prim.encodeName(b).value + y
    ensures a == b && x == y
  {
    assert a == b;
    SplitEqual(prim.encodeName(a).value, x, prim.encodeName(b).value, y);
  }

  predicate ShortAll(rdatas: seq<Octets>) {
    forall r <- rdatas :: |r| < 0x1_0000
  }

  /** So is the first of several record wires. */
  lemma WireUnique(prim: Primitives, sig: Rrsig, a: Name, c: U16, r: Octets, x: Octets, sig': Rrsig, b: Name,
                   c': U16, r': Octets, y: Octets)
    requires Unambiguous(prim) && prim.encodeName(a).Some? && prim.encodeName(b).Some? && |r| < 0x1_0000 && |r'| < 0x1_0000
    requires Wire(sig, prim.encodeName(a).value, c, r) + x == Wire(sig', prim.encodeName(b).value, c', r') + y
    ensures a == b && c == c' && r == r' && x == y
  {
    var m, n := prim.encodeName(a).value, prim.encodeName(b).value;
    var f, g := WireFields(sig, c, r), WireFields(sig', c', r');
    var s, t := Serialize(f), Serialize(g);
    assert m + s + r + x == m + (s + (r + x)) && n + t + r' + y == n + (t + (r' + y));
    NameUnique(prim, a, s + (r + x), b, t + (r' + y));
    WireFits(sig, c, r);
    WireFits(sig', c', r');
    WiresAlike(sig, c, r, sig', c', r');
    SerializeUnique(f, r + x, g, r' + y);
    assert f.rest.rest.rest.value == |r| && g.rest.rest.rest.value == |r'|;
    SplitEqual(r, x, r', y);
  }

  lemma WireNotEmpty(sig: Rrsig, owner: Octets, class_: U16, rdatas: seq<Octets>)
    requires rdatas != []
    ensures Wires(sig, owner, class_, rdatas) != []
  {
    assert |BigEndian(TypeCode(sig.covered), 2)| == 2;
  }

  lemma {:induction false} WiresUnique(prim: Primitives, sig: Rrsig, a: Name, c: U16, r: seq<Octets>, sig': Rrsig,
                                       b: Name, c': U16, r': seq<Octets>)
    requires Unambiguous(prim) && prim.encodeName(a).Some? && prim.encodeName(b).Some? && ShortAll(r) && ShortAll(r')
    requires Wires(sig, prim.encodeName(a).value, c, r) == Wires(sig', prim.encodeName(b).value, c', r')
    ensures r == r' && (r != [] ==> a == b && c == c')
  {
    var m, n := prim.encodeName(a).value, prim.encodeName(b).value;
    if r != [] && r' != [] {
      WireUnique(prim, sig, a, c, r[0], Wires(sig, m, c, r[1..]), sig', b, c', r'[0], Wires(sig', n, c', r'[1..]));
      WiresUnique(prim, sig, a, c, r[1..], sig', b, c', r'[1..]);
      assert r == [r[0]] + r[1..] && r' == [r'[0]] + r'[1..];
    } else if r != [] {
      WireNotEmpty(sig, m, c, r);
    } else if r' != [] {
      WireNotEmpty(sig', n, c', r');
    }
  }

  function Datas(records: seq<Record>): (d: seq<RData>)
    ensures |d| == |records| && forall i :: 0 <= i < |d| ==> d[i] == records[i].data
  {
    if records == [] then [] else [records[0].data] + Datas(records[1..])
  }

  lemma {:induction false} DatasWithout(a: seq<Record>, i: nat)
    requires i < |a|
    ensures Datas(Without(a, i)) == Without(Datas(a), i)
  {
    if i == 0 {
      assert Without(a, 0) == a[1..] && Without(Datas(a), 0) == Datas(a[1..]);
    } else {
      WithoutStep(a, i);
      WithoutStep(Datas(a), i);
      DatasWithout(a[1..], i - 1);
      assert Datas(Without(a, i)) == [Datas(a)[0]] + Without(Datas(a)[1..], i - 1);
    }
  }

  lemma {:induction false} RdatasAt(prim: Primitives, a: seq<Record>, i: nat)
    requires i < |a| && Rdatas(prim, a).Some?
    ensures |Rdatas(prim, a).value| == |a| && prim.encodeRdata(a[i].data) == Some(Rdatas(prim, a).value[i])
    ensures |a| > 0
  {
    if |a| > 1 {
      RdatasAt(prim, a[1..], if i > 0 then i - 1 else 0);
    }
  }

  predicate OneType(records: seq<Record>, t: RecordType) {
    forall r <- records :: r.Type() == t
  }

  /** Removing one record removes its encoding and its data. */
  lemma RemoveOne(prim: Primitives, t: RecordType, a: seq<Record>, i: nat)
    requires i < |a| && OneType(a, t) && Rdatas(prim, a).Some?
    ensures OneType(Without(a, i), t) && Rdatas(prim, Without(a, i)).Some? && prim.encodeRdata(a[i].data).Some?
    ensures
      multiset(Rdatas(prim, Without(a, i)).value)
        == multiset(Rdatas(prim, a).value) - multiset{prim.encodeRdata(a[i].data).value}
    ensures multiset(Datas(Without(a, i))) == multiset(Datas(a)) - multiset{a[i].data}
    ensures a[i].data in multiset(Datas(a))
  {
    RdatasWithout(prim, a, i);
    DatasWithout(a, i);
    WithoutMultiset(Datas(a), i);
    assert Datas(a)[i] == a[i].data;
    forall r <- Without(a, i) ensures r in a {
      assert r in a[..i] || r in a[i + 1..];
    }
  }

  lemma RestoreOne<T>(a: multiset<T>, b: multiset<T>, x: T)
    requires x in a && x in b && a - multiset{x} == b - multiset{x}
    ensures a == b
  {
    assert a == (a - multiset{x}) + multiset{x} && b == (b - multiset{x}) + multiset{x};
  }

  /** Equal collections of encodings come from equal collections of data. */
  lemma {:induction false} DatasOfRdatas(prim: Primitives, t: RecordType, a: seq<Record>, b: seq<Record>)
    requires Unambiguous(prim) && OneType(a, t) && OneType(b, t)
    requires Rdatas(prim, a).Some? && Rdatas(prim, b).Some?
    requires multiset(Rdatas(prim, a).value) == multiset(Rdatas(prim, b).value)
    ensures multiset(Datas(a)) == multiset(Datas(b))
    decreases |a|
  {
    if a == [] {
      assert |multiset(Rdatas(prim, b).value)| == 0;
      if b != [] { RdatasAt(prim, b, 0); }
    } else {
      RdatasAt(prim, a, 0);
      var k := EncodedIn(prim, a[0], b);
      SameData(prim, t, a, 0, b, k);
      RemoveOne(prim, t, a, 0);
      RemoveOne(prim, t, b, k);
      DatasOfRdatas(prim, t, Without(a, 0), Without(b, k));
      RestoreOne(multiset(Datas(a)), multiset(Datas(b)), a[0].data);
    }
  }

  lemma SameData(prim: Primitives, t: RecordType, a: seq<Record>, i: nat, b: seq<Record>, k: nat)
    requires Unambiguous(prim) && OneType(a, t) && OneType(b, t) && i < |a| && k < |b|
    requires prim.encodeRdata(a[i].data).Some? && prim.encodeRdata(a[i].data) == prim.encodeRdata(b[k].data)
    ensures a[i].data == b[k].data
  {
    assert a[i] in a && b[k] in b;
  }

  lemma EncodedIn(prim: Primitives, r: Record, b: seq<Record>) returns (k: nat)
    requires prim.encodeRdata(r.data).Some? && Rdatas(prim, b).Some?
    requires prim.encodeRdata(r.data).value in multiset(Rdatas(prim, b).value)
    ensures k < |b| && prim.encodeRdata(b[k].data) == prim.encodeRdata(r.data)
  {
    if b != [] { RdatasAt(prim, b, 0); }
    k :| 0 <= k < |Rdatas(prim, b).value| && Rdatas(prim, b).value[k] == prim.encodeRdata(r.data).value;
    RdatasAt(prim, b, k);
  }

  lemma {:induction false} RdatasShort(prim: Primitives, a: seq<Record>)
    requires Unambiguous(prim) && Rdatas(prim, a).Some?
    ensures ShortAll(Rdatas(prim, a).value) && (a != [] ==> Rdatas(prim, a).value != [])
  {
    if a != [] {
      RdatasShort(prim, a[1..]);
    }
  }

  /** Header and wires can be told apart. */
  lemma BodiesUnique(prim: Primitives, sig: Rrsig, a: Name, c: U16, r: seq<Octets>, sig': Rrsig, b: Name, c': U16,
                     r': seq<Octets>)
    requires Unambiguous(prim) && prim.encodeName(sig.signer).Some? && prim.encodeName(sig'.signer).Some?
    requires prim.encodeName(a).Some? && prim.encodeName(b).Some? && ShortAll(r) && ShortAll(r') && r != []
    requires Header(sig, prim.encodeName(sig.signer).value) + Wires(sig, prim.encodeName(a).value, c, r)
          == Header(sig', prim.encodeName(sig'.signer).value) + Wires(sig', prim.encodeName(b).value, c', r')
    ensures HeaderFields(sig) == HeaderFields(sig') && sig.signer == sig'.signer && a == b && c == c' && r == r'
  {
    var f, g := HeaderFields(sig), HeaderFields(sig');
    var m, n := prim.encodeName(sig.signer).value, prim.encodeName(sig'.signer).value;
    var w, v := Wires(sig, prim.encodeName(a).value, c, r), Wires(sig', prim.encodeName(b).value, c', r');
    assert Serialize(f) + m + w == Serialize(f) + (m + w) && Serialize(g) + n + v == Serialize(g) + (n + v);
    HeaderFits(sig);
    HeaderFits(sig');
    HeadersAlike(sig, sig');
    SerializeUnique(f, m + w, g, n + v);
    NameUnique(prim, sig.signer, w, sig'.signer, v);
    WiresUnique(prim, sig, a, c, r, sig', b, c', r');
  }

  /** What two signatures over the same octets agree on. */
  ghost predicate SameSigned(sig: Rrsig, owner: Name, a: seq<Record>, sig': Rrsig, owner': Name, b: seq<Record>) {
    && sig.covered == sig'.covered && sig.labels == sig'.labels && sig.signer == sig'.signer
    && sig.originalTtl == sig'.originalTtl && sig.inception == sig'.inception && sig.expiration == sig'.expiration
    && SignedOwner(owner, sig.labels) == SignedOwner(owner', sig'.labels)
    && a != [] && b != [] && a[0].class_ == b[0].class_
    && multiset(Datas(a)) == multiset(Datas(b))
  }

  /** The signed octets determine type, labels, signer, times, the owner that was
      signed, class and the collection of record data. */
  lemma OctetsDetermine(prim: Primitives, sig: Rrsig, owner: Name, a: seq<Record>, sig': Rrsig, owner': Name, b: seq<Record>)
    requires Unambiguous(prim)
    requires BuildTbs(prim, sig, owner, a).Some? && BuildTbs(prim, sig, owner, a) == BuildTbs(prim, sig', owner', b)
    ensures SameSigned(sig, owner, a, sig', owner', b)
  {
    var r, r' := Rdatas(prim, a).value, Rdatas(prim, b).value;
    RdatasShort(prim, a);
    RdatasShort(prim, b);
    SortSorts(r);
    SortSorts(r');
    SortedShort(r);
    SortedShort(r');
    BodiesUnique(prim, sig, SignedOwner(owner, sig.labels), a[0].class_, Sort(r),
                 sig', SignedOwner(owner', sig'.labels), b[0].class_, Sort(r'));
    TypeCodeUnique(sig.covered, sig'.covered);
    DatasOfRdatas(prim, sig.covered, a, b);
  }

  lemma SortedShort(r: seq<Octets>)
    requires ShortAll(r)
    ensures ShortAll(Sort(r)) && (r != [] ==> Sort(r) != [])
  {
    SortSorts(r);
    forall x <- Sort(r) ensures |x| < 0x1_0000 {
      assert x in multiset(r);
    }
    assert |Sort(r)| == |multiset(Sort(r))| == |multiset(r)| == |r|;
  }

  // ----- Where each field stands -----

  /** The number in two octets. */
  function Word(o: Octets, i: nat): nat
    requires i + 2 <= |o|
  {
    var high: nat := o[i];
    high * 0x100 + o[i + 1]
  }

  /** The number in four octets. */
  function Long(o: Octets, i: nat): nat
    requires i + 4 <= |o|
  {
    Word(o, i) * 0x1_0000 + Word(o, i + 2)
  }

  /** The 18 octets of fixed fields, then the signer's name. */
  predicate HeaderAt(sig: Rrsig, signer: Octets, o: Octets) {
    && |o| == 18 + |signer|
    && Word(o, 0) == TypeCode(sig.covered) && o[2] == sig.algorithm && o[3] == sig.labels
    && Long(o, 4) == sig.originalTtl && Long(o, 8) == sig.expiration && Long(o, 12) == sig.inception
    && Word(o, 16) == sig.keyTag && o[18..] == signer
  }

  /** Owner, type, class, original TTL, length of the data, and the data. */
  predicate RecordAt(sig: Rrsig, owner: Octets, class_: U16, rdata: Octets, o: Octets) {
    var n := |owner|;
    && |o| == n + 10 + |rdata|
    && o[..n] == owner && Word(o, n) == TypeCode(sig.covered) && Word(o, n + 2) == class_
    && Long(o, n + 4) == sig.originalTtl && Word(o, n + 8) == |rdata| % 0x1_0000 && o[n + 10..] == rdata
  }

  /** The records one after another. */
  predicate RecordsAt(sig: Rrsig, owner: Octets, class_: U16, rdatas: seq<Octets>, o: Octets) {
    if rdatas == [] then o == []
    else
      var n := |owner| + 10 + |rdatas[0]|;
      && n <= |o| && RecordAt(sig, owner, class_, rdatas[0], o[..n])
      && RecordsAt(sig, owner, class_, rdatas[1..], o[n..])
  }

  /** The encodings of an RRset's data in ascending order. */
  ghost predicate SortedData(prim: Primitives, records: seq<Record>, sorted: seq<Octets>) {
    && Sorted(sorted)
    && exists rdatas :: multiset(rdatas) == multiset(sorted) && Encode(prim, records, rdatas)
  }

  predicate Encode(prim: Primitives, records: seq<Record>, rdatas: seq<Octets>) {
    |rdatas| == |records| && forall i :: 0 <= i < |records| ==> prim.encodeRdata(records[i].data) == Some(rdatas[i])
  }

  lemma WordOf(v: U16)
    ensures BigEndian(v, 2) == [v / 0x100, v % 0x100]
  {
    assert BigEndian(v / 256, 1) == BigEndian(v / 256 / 256, 0) + [v / 256 % 256];
  }

  lemma LongOf(v: U32)
    ensures BigEndian(v, 4) == [v / 0x100_0000, v / 0x1_0000 % 0x100, v / 0x100 % 0x100, v % 0x100]
  {
    var a, b := v / 256, v / 256 / 256;
    assert BigEndian(v, 4) == BigEndian(a, 3) + [v % 256] && BigEndian(a, 3) == BigEndian(b, 2) + [a % 256];
    WordOf(b);
  }

  /** A string that begins with the first of the fields. */
  lemma FieldFirst(f: Fields, tail: Octets)
    requires f.Field?
    ensures
      var o := Serialize(f) + tail;
      f.width <= |o| && o[..f.width] == BigEndian(f.value, f.width) && o[f.width..] == Serialize(f.rest) + tail
  {
    var head := BigEndian(f.value, f.width);
    assert Serialize(f) + tail == head + (Serialize(f.rest) + tail);
  }

  lemma WordFirst(o: Octets, v: U16)
    requires 2 <= |o| && o[..2] == BigEndian(v, 2)
    ensures Word(o, 0) == v
  {
    WordOf(v);
    assert o[0] == o[..2][0] && o[1] == o[..2][1];
  }

  lemma LongFirst(o: Octets, v: U32)
    requires 4 <= |o| && o[..4] == BigEndian(v, 4)
    ensures Long(o, 0) == v
  {
    LongOf(v);
    assert o[0] == o[..4][0] && o[1] == o[..4][1] && o[2] == o[..4][2] && o[3] == o[..4][3];
    Recompose(v);
  }

  lemma Recompose(v: U32)
    ensures v == (v / 0x100_0000 * 0x100 + v / 0x1_0000 % 0x100) * 0x1_0000 + (v / 0x100 % 0x100 * 0x100 + v % 0x100)
  {
  }

  lemma ByteFirst(o: Octets, v: Octet)
    requires 1 <= |o| && o[..1] == BigEndian(v, 1)
    ensures o[0] == v
  {
    assert BigEndian(v, 1) == BigEndian(v / 256, 0) + [v % 256];
    assert o[0] == o[..1][0];
  }

  lemma HeaderLayout(sig: Rrsig, signer: Octets)
    ensures HeaderAt(sig, signer, Header(sig, signer))
  {
    var f, o := HeaderFields(sig), Header(sig, signer);
    FieldFirst(f, signer);
    WordFirst(o, TypeCode(sig.covered));
    FieldFirst(f.rest, signer);
    ByteFirst(o[2..], sig.algorithm);
    HeaderTail(sig, signer, o[3..]);
  }

  lemma HeaderTail(sig: Rrsig, signer: Octets, o: Octets)
    requires o == Serialize(HeaderFields(sig).rest.rest) + signer
    ensures |o| == 15 + |signer| && o[0] == sig.labels && Long(o, 1) == sig.originalTtl && Long(o, 5) == sig.expiration
    ensures Long(o, 9) == sig.inception && Word(o, 13) == sig.keyTag && o[15..] == signer
  {
    var f := HeaderFields(sig).rest.rest;
    FieldFirst(f, signer);
    ByteFirst(o, sig.labels);
    FieldFirst(f.rest, signer);
    LongFirst(o[1..], sig.originalTtl);
    var g, p := f.rest.rest, o[1..][4..];
    FieldFirst(g, signer);
    LongFirst(p, sig.expiration);
    FieldFirst(g.rest, signer);
    LongFirst(p[4..], sig.inception);
    FieldFirst(g.rest.rest, signer);
    WordFirst(p[4..][4..], sig.keyTag);
    assert Serialize(NoField) + signer == signer;
    assert p == o[5..] && p[4..][4..] == o[13..] && o[13..][2..] == o[15..];
  }

  lemma RecordLayout(sig: Rrsig, owner: Octets, class_: U16, rdata: Octets)
    ensures RecordAt(sig, owner, class_, rdata, Wire(sig, owner, class_, rdata))
  {
    var f, o := WireFields(sig, class_, rdata), Wire(sig, owner, class_, rdata);
    var p := Serialize(f) + rdata;
    assert o == owner + p;
    FieldFirst(f, rdata);
    WordFirst(p, TypeCode(sig.covered));
    FieldFirst(f.rest, rdata);
    WordFirst(p[2..], class_);
    FieldFirst(f.rest.rest, rdata);
    LongFirst(p[2..][2..], sig.originalTtl);
    FieldFirst(f.rest.rest.rest, rdata);
    WordFirst(p[4..][4..], |rdata| % 0x1_0000);
    assert Serialize(NoField) + rdata == rdata;
    assert p[2..][2..] == p[4..] && p[4..][4..] == p[8..] && p[8..][2..] == p[10..] == o[|owner| + 10..];
  }

  lemma {:induction false} RecordsLayout(sig: Rrsig, owner: Octets, class_: U16, rdatas: seq<Octets>)
    ensures RecordsAt(sig, owner, class_, rdatas, Wires(sig, owner, class_, rdatas))
  {
    if rdatas != [] {
      var first, rest := Wire(sig, owner, class_, rdatas[0]), Wires(sig, owner, class_, rdatas[1..]);
      RecordLayout(sig, owner, class_, rdatas[0]);
      RecordsLayout(sig, owner, class_, rdatas[1..]);
      assert (first + rest)[..|first|] == first && (first + rest)[|first|..] == rest;
    }
  }

  lemma {:induction false} EncodeExactly(prim: Primitives, records: seq<Record>)
    ensures Rdatas(prim, records).Some? ==> Encode(prim, records, Rdatas(prim, records).value)
    ensures Rdatas(prim, records).None? <==> exists r <- records :: prim.encodeRdata(r.data).None?
  {
    if records != [] {
      EncodeExactly(prim, records[1..]);
      assert records == [records[0]] + records[1..];
      assert records[0] in records;
    }
  }

  /** What the signed octets of an RRset are: one owner, class and type throughout; the
      fixed fields and the signer at their offsets; then every record in canonical form
      under the signed owner, in ascending order of their data. */
  ghost predicate LaidOut(prim: Primitives, sig: Rrsig, owner: Name, records: seq<Record>, o: Octets) {
    && records != []
    && (forall r <- records :: r.name == owner && r.Type() == sig.covered && r.class_ == records[0].class_)
    && exists signer, name, sorted ::
         && prim.encodeName(sig.signer) == Some(signer) && prim.encodeName(SignedOwner(owner, sig.labels)) == Some(name)
         && Parts(prim, sig, records, signer, name, sorted, o)
  }

  ghost predicate Parts(prim: Primitives, sig: Rrsig, records: seq<Record>, signer: Octets, name: Octets,
                        sorted: seq<Octets>, o: Octets)
    requires records != []
  {
    && SortedData(prim, records, sorted)
    && 18 + |signer| <= |o| && HeaderAt(sig, signer, o[..18 + |signer|])
    && RecordsAt(sig, name, records[0].class_, sorted, o[18 + |signer|..])
  }

  lemma LayoutExactly(prim: Primitives, sig: Rrsig, owner: Name, records: seq<Record>)
    ensures var o := BuildTbs(prim, sig, owner, records); o.Some? ==> LaidOut(prim, sig, owner, records, o.value)
    ensures BuildTbs(prim, sig, owner, records).None? <==>
      || records == []
      || (exists r <- records :: r.name != owner || r.Type() != sig.covered || r.class_ != records[0].class_)
      || prim.encodeName(sig.signer).None? || prim.encodeName(SignedOwner(owner, sig.labels)).None?
      || exists r <- records :: prim.encodeRdata(r.data).None?
  {
    EncodeExactly(prim, records);
    if BuildTbs(prim, sig, owner, records).Some? {
      var signer, name := prim.encodeName(sig.signer).value, prim.encodeName(SignedOwner(owner, sig.labels)).value;
      var rdatas := Rdatas(prim, records).value;
      PartsLayout(prim, sig, records, signer, name, rdatas, BuildTbs(prim, sig, owner, records).value);
    }
  }

  lemma PartsLayout(prim: Primitives, sig: Rrsig, records: seq<Record>, signer: Octets, name: Octets, rdatas: seq<Octets>,
                    o: Octets)
    requires records != [] && Encode(prim, records, rdatas)
    requires o == Header(sig, signer) + Wires(sig, name, records[0].class_, Sort(rdatas))
    ensures Parts(prim, sig, records, signer, name, Sort(rdatas), o)
  {
    SortSorts(rdatas);
    HeaderLayout(sig, signer);
    RecordsLayout(sig, name, records[0].class_, Sort(rdatas));
    var header := Header(sig, signer);
    assert o[..|header|] == header && o[|header|..] == Wires(sig, name, records[0].class_, Sort(rdatas));
  }

  /** The signed owner has just the labels that the signature counts, an asterisk aside,
      and they are the last ones of the owner; it is the owner itself unless fewer labels
      are counted than the owner has, though one at least, and the wildcard name fits. */
  lemma SignedOwnerExactly(owner: Name, labels: nat)
    ensures
      var s := SignedOwner(owner, labels);
      if 0 < labels < CountedLabels(owner) && WireLength(["*"] + owner[|owner| - labels..]) <= MAX_WIRE
      then s != [] && s[0] == "*" && |s[1..]| == CountedLabels(s) == labels && ZoneOf(s[1..], owner)
      else s == owner
  {
  }
}
