/** Messages, records and the uninterpreted cryptographic primitives. */
module Records {
  import opened Order
  import opened Names
  import opened Selections

  datatype Option<+T> = None | Some(value: T) {
    function GetOr(default: T): T {
      if Some? then value else default
    }
  }

  type U16 = n: int | 0 <= n < 0x1_0000
  type U32 = n: int | 0 <= n < 0x1_0000_0000

  /** Codes of the record types that have no name here. */
  type OtherTypeCode = n: U16 | n !in {1, 2, 5, 6, 28, 39, 41, 43, 46, 47, 48, 50}

  datatype RecordType =
    | A | AAAA | NS | CNAME | SOA | DS | DNSKEY | RRSIG | NSEC | NSEC3 | DNAME | OPT
    | OtherType(code: OtherTypeCode)

  /** The number of a record type. */
  function TypeCode(t: RecordType): U16 {
    match t
    case A => 1
    case NS => 2
    case CNAME => 5
    case SOA => 6
    case AAAA => 28
    case DNAME => 39
    case OPT => 41
    case DS => 43
    case RRSIG => 46
    case NSEC => 47
    case DNSKEY => 48
    case NSEC3 => 50
    case OtherType(c) => c
  }

  lemma TypeCodeUnique(t: RecordType, u: RecordType)
    requires TypeCode(t) == TypeCode(u)
    ensures t == u
  {
  }

  /** The types at a delegation, as opposed to an apex or an ordinary name. */
  predicate IsCut(types: set<RecordType>) {
    NS in types && SOA !in types
  }

  datatype Ip = V4(octets: Octets) | V6(segments: seq<U16>)

  datatype Dnskey = Dnskey(flags: U16, algorithm: Octet, publicKey: Octets)

  datatype Ds = Ds(keyTag: U16, algorithm: Octet, digestType: Octet, digest: Octets)

  /** A trust anchor or usable DS record: key tag, algorithm, digest type, digest. */
  datatype Anchor = Anchor(keyTag: U16, algorithm: Octet, digestType: Octet, digest: Octets)

  datatype Rrsig = Rrsig(
    covered: RecordType, algorithm: Octet, labels: Octet, originalTtl: U32,
    expiration: U32, inception: U32, keyTag: U16, signer: Name, signature: Octets)

  /** Record data; Raw is data whose type is known but which does not decode. */
  datatype RData =
    | AData(ip: Ip)
    | AaaaData(ip: Ip)
    | NsData(host: Name)
    | CnameData(target: Name)
    | DnameData(target: Name)
    | SoaData(soa: Octets)
    | DsData(ds: Ds)
    | DnskeyData(key: Dnskey)
    | RrsigData(sig: Rrsig)
    | NsecData(next: Name, types: set<RecordType>)
    | Nsec3Data(algorithm: Octet, flags: Octet, iterations: U16, salt: Octets,
                nextHash: Octets, types: set<RecordType>)
    | Raw(rtype: RecordType, bytes: Octets)
  {
    function Type(): RecordType {
      match this
      case AData(_) => A
      case AaaaData(_) => AAAA
      case NsData(_) => NS
      case CnameData(_) => CNAME
      case DnameData(_) => DNAME
      case SoaData(_) => SOA
      case DsData(_) => DS
      case DnskeyData(_) => DNSKEY
      case RrsigData(_) => RRSIG
      case NsecData(_, _) => NSEC
      case Nsec3Data(_, _, _, _, _, _) => NSEC3
      case Raw(t, _) => t
    }
  }

  datatype Record = Record(name: Name, class_: U16, ttl: U32, data: RData) {
    function Type(): RecordType {
      data.Type()
    }
  }

  /** A record without its TTL, which record equality in the program leaves out. */
  datatype Content = Content(name: Name, class_: U16, data: RData)

  function ContentOf(r: Record): Content {
    Content(r.name, r.class_, r.data)
  }

  /** Some record of the list equals this one but perhaps for its TTL. */
  predicate Holds(records: seq<Record>, c: Content) {
    exists r <- records :: ContentOf(r) == c
  }

  datatype ResponseCode = NoError | FormErr | ServFail | NXDomain | Refused | YXDomain | OtherCode(code: U16)

  datatype Message = Message(
    code: ResponseCode, authoritative: bool,
    answers: seq<Record>, authority: seq<Record>, additionals: seq<Record>)

  /** Everything the validator depends on but this project does not interpret,
      and the trust anchors compiled into it. */
  datatype Primitives = Primitives(
    keyTag: Dnskey -> U16,
    // algorithm, public key, signed data, signature
    signatureHolds: (Octet, Octets, Octets, Octets) -> bool,
    // owner, key, digest type
    dsDigest: (Name, Dnskey, Octet) -> Option<Octets>,
    encodeName: Name -> Option<Octets>,
    encodeRdata: RData -> Option<Octets>,
    // name, salt, iterations
    nsec3Hash: (Name, Octets, U16) -> Octets,
    // the instants, in seconds, at which the program reads its clock
    isReading: nat -> bool,
    rootAnchors: seq<Anchor>)

  /** x is the first element of s that p admits. */
  ghost predicate IsFirst<T(!new)>(s: seq<T>, p: T -> bool, x: T) {
    exists i: nat :: i < |s| && s[i] == x && FirstIndex(s, p, i)
  }

  ghost predicate FirstIndex<T(!new)>(s: seq<T>, p: T -> bool, i: nat)
    requires i < |s|
  {
    p(s[i]) && forall j: nat | j < i :: !p(s[j])
  }

  /** The first element that p admits satisfies q. */
  ghost predicate FirstIs<T(!new)>(s: seq<T>, p: T -> bool, q: T -> bool) {
    exists i: nat :: i < |s| && FirstIndex(s, p, i) && q(s[i])
  }

  lemma FirstIndexCons<T(!new)>(s: seq<T>, p: T -> bool, i: nat)
    requires i + 1 < |s| && !p(s[0])
    ensures FirstIndex(s, p, i + 1) <==> FirstIndex(s[1..], p, i)
  {
    if FirstIndex(s, p, i + 1) {
      forall j: nat | j < i ensures !p(s[1..][j]) { assert !p(s[j + 1]); }
    }
    if FirstIndex(s[1..], p, i) {
      forall j: nat | j < i + 1 ensures !p(s[j]) { if j > 0 { assert !p(s[1..][j - 1]); } }
    }
  }

  lemma FirstIsCons<T(!new)>(s: seq<T>, p: T -> bool, q: T -> bool)
    requires s != []
    ensures FirstIs(s, p, q) <==> if p(s[0]) then q(s[0]) else FirstIs(s[1..], p, q)
  {
    if p(s[0]) {
      assert FirstIndex(s, p, 0);
    } else {
      if FirstIs(s, p, q) {
        var i: nat :| i < |s| && FirstIndex(s, p, i) && q(s[i]);
        FirstIndexCons(s, p, i - 1);
        assert q(s[1..][i - 1]);
      }
      if FirstIs(s[1..], p, q) {
        var i: nat :| i < |s[1..]| && FirstIndex(s[1..], p, i) && q(s[1..][i]);
        FirstIndexCons(s, p, i);
        assert q(s[i + 1]);
      }
    }
  }

  lemma IsFirstCons<T(!new)>(s: seq<T>, p: T -> bool, x: T)
    requires s != []
    ensures IsFirst(s, p, x) <==> if p(s[0]) then x == s[0] else IsFirst(s[1..], p, x)
  {
    FirstIsCons(s, p, y => y == x);
    IsFirstIs(s, p, x);
    IsFirstIs(s[1..], p, x);
  }

  lemma IsFirstIs<T(!new)>(s: seq<T>, p: T -> bool, x: T)
    ensures IsFirst(s, p, x) <==> FirstIs(s, p, y => y == x)
  {
    var q := (y: T) => y == x;
    if IsFirst(s, p, x) {
      var i: nat :| i < |s| && s[i] == x && FirstIndex(s, p, i);
      assert q(s[i]);
    }
  }

  /** What f makes of the first element that it makes anything of. */
  function FirstSome<T, U>(s: seq<T>, f: T -> Option<U>): Option<U> {
    if s == [] then None
    else if f(s[0]).Some? then f(s[0])
    else FirstSome(s[1..], f)
  }

  function Makes<T, U>(f: T -> Option<U>): T -> bool {
    (x: T) => f(x).Some?
  }

  function MakesThis<T, U(==)>(f: T -> Option<U>, u: U): T -> bool {
    (x: T) => f(x) == Some(u)
  }

  lemma {:induction false} FirstSomeExactly<T(!new), U(!new)>(s: seq<T>, f: T -> Option<U>, u: U)
    ensures FirstSome(s, f) == Some(u) <==> FirstIs(s, Makes(f), MakesThis(f, u))
  {
    if s != [] {
      FirstSomeExactly(s[1..], f, u);
      FirstIsCons(s, Makes(f), MakesThis(f, u));
    }
  }

  lemma {:induction false} FirstSomeNone<T, U>(s: seq<T>, f: T -> Option<U>)
    ensures FirstSome(s, f).None? <==> forall x <- s :: f(x).None?
  {
    if s != [] {
      FirstSomeNone(s[1..], f);
      assert s == [s[0]] + s[1..];
    }
  }

  /** No element is first exactly when p admits none. */
  lemma {:induction false} FirstExists<T(!new)>(s: seq<T>, p: T -> bool)
    ensures (exists x :: IsFirst(s, p, x)) <==> exists y <- s :: p(y)
  {
    if s != [] {
      FirstExists(s[1..], p);
      forall x ensures IsFirst(s, p, x) <==> if p(s[0]) then x == s[0] else IsFirst(s[1..], p, x) {
        IsFirstCons(s, p, x);
      }
      assert IsFirst(s, p, s[0]) <==> p(s[0]) || IsFirst(s[1..], p, s[0]);
      assert s == [s[0]] + s[1..];
    }
  }

  /** The records of one RRset, in message order. */
  function RrsetOf(records: seq<Record>, owner: Name, rtype: RecordType): seq<Record> {
    if records == [] then []
    else
      var rest := RrsetOf(records[1..], owner, rtype);
      if records[0].name == owner && records[0].Type() == rtype then [records[0]] + rest else rest
  }

  function InRrset(owner: Name, rtype: RecordType): Record -> bool {
    (r: Record) => r.name == owner && r.Type() == rtype
  }

  lemma {:induction false} RrsetSelects(records: seq<Record>, owner: Name, rtype: RecordType)
    ensures Selects(records, InRrset(owner, rtype), Same(), RrsetOf(records, owner, rtype))
  {
    if records != [] {
      var rest := RrsetOf(records[1..], owner, rtype);
      RrsetSelects(records[1..], owner, rtype);
      if InRrset(owner, rtype)(records[0]) {
        SelectsTaken(records, InRrset(owner, rtype), Same(), records[0], rest);
      } else {
        SelectsPassed(records, InRrset(owner, rtype), Same(), rest);
      }
    }
  }

  lemma {:induction false} RrsetListed(records: seq<Record>, owner: Name, rtype: RecordType)
    ensures forall x :: x in RrsetOf(records, owner, rtype) <==> x in records && x.name == owner && x.Type() == rtype
  {
    if records != [] {
      RrsetListed(records[1..], owner, rtype);
    }
  }

  /** The records other than OPT, in order. */
  function WithoutOpt(records: seq<Record>): (r: seq<Record>)
    ensures forall x :: x in r <==> x in records && x.Type() != OPT
  {
    if records == [] then []
    else if records[0].Type() != OPT then [records[0]] + WithoutOpt(records[1..])
    else WithoutOpt(records[1..])
  }

  /** The first n records of a type: filter, then take. */
  function FirstOfType(records: seq<Record>, rtype: RecordType, n: nat): (r: seq<Record>)
    ensures |r| <= n
    ensures forall x <- r :: x in records && x.Type() == rtype
    ensures n > 0 && (exists x <- records :: x.Type() == rtype) ==> r != []
  {
    if records == [] || n == 0 then []
    else if records[0].Type() == rtype then [records[0]] + FirstOfType(records[1..], rtype, n - 1)
    else FirstOfType(records[1..], rtype, n)
  }

  function NoOpt(): Record -> bool {
    (r: Record) => r.Type() != OPT
  }

  lemma {:induction false} WithoutOptSelects(records: seq<Record>)
    ensures Selects(records, NoOpt(), Same(), WithoutOpt(records))
  {
    if records != [] {
      WithoutOptSelects(records[1..]);
      if NoOpt()(records[0]) {
        SelectsTaken(records, NoOpt(), Same(), records[0], WithoutOpt(records[1..]));
      } else {
        SelectsPassed(records, NoOpt(), Same(), WithoutOpt(records[1..]));
      }
    }
  }

  function OfType(rtype: RecordType): Record -> bool {
    (r: Record) => r.Type() == rtype
  }

  function OfSoa(): Record -> bool {
    (r: Record) => r.data.SoaData?
  }

  /** Exactly the records of the type up to some point, which is the end of the list
      unless n were found by then. */
  lemma {:induction false} FirstOfTypeSelects(records: seq<Record>, rtype: RecordType, n: nat) returns (k: nat)
    ensures k <= |records| && Selects(records[..k], OfType(rtype), Same(), FirstOfType(records, rtype, n))
    ensures k < |records| ==> |FirstOfType(records, rtype, n)| == n
  {
    k := 0;
    if records != [] && n > 0 {
      var taken := OfType(rtype)(records[0]);
      var more := FirstOfTypeSelects(records[1..], rtype, if taken then n - 1 else n);
      k := more + 1;
      assert records[..k][1..] == records[1..][..more] && records[..k][0] == records[0];
      if taken {
        SelectsTaken(records[..k], OfType(rtype), Same(), records[0], FirstOfType(records[1..], rtype, n - 1));
      } else {
        SelectsPassed(records[..k], OfType(rtype), Same(), FirstOfType(records[1..], rtype, n));
      }
    }
  }
}
