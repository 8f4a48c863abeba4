/** What one validation does and sees, in order. */
module History {
  import opened Names
  import opened Records

  /** Keys accepted for a zone until the moment from which they must not be used. */
  datatype Grant = Grant(zone: Name, keys: seq<Dnskey>, expiresAt: nat)

  /** The DNSKEY response behind a grant and the reading when it was made. */
  datatype Basis = Basis(msg: Message, at: nat)

  /** Where the trust walk has a zone's keys from: a grant still kept when the cache was
      looked up, or the response just received, good for ttl seconds. */
  datatype KeySource = Kept(expiresAt: nat, at: nat) | Fetched(ttl: U32)

  /** An upstream query with its answer, or none; or the trust walk arriving at a
      zone with keys for it. */
  datatype Event =
    | Asked(name: Name, rtype: RecordType, answer: Option<Message>)
    | Held(zone: Name, keys: seq<Dnskey>, source: KeySource)

  /** Events so far, the latest outermost. */
  datatype Log = NoEvent | Then(before: Log, last: Event)

  function Extended(log: Log, events: seq<Event>): Log {
    if events == [] then log else Then(Extended(log, events[..|events| - 1]), events[|events| - 1])
  }

  lemma ExtendedSnoc(log: Log, events: seq<Event>, e: Event)
    ensures Extended(log, events + [e]) == Then(Extended(log, events), e)
  {
    assert (events + [e])[..|events|] == events;
  }

  /** The log begins with all that the earlier one holds. */
  predicate Continues(log: Log, earlier: Log) {
    log == earlier || (log.Then? && Continues(log.before, earlier))
  }

  lemma {:induction false} ContinuesTransitive(log: Log, middle: Log, earlier: Log)
    requires Continues(log, middle) && Continues(middle, earlier)
    ensures Continues(log, earlier)
  {
    if log != middle {
      ContinuesTransitive(log.before, middle, earlier);
    }
  }

  lemma {:induction false} ContinuesExtended(log: Log, events: seq<Event>)
    ensures Continues(Extended(log, events), log)
  {
    if events != [] {
      ContinuesExtended(log, events[..|events| - 1]);
    }
  }

  function Size(log: Log): nat {
    if log.NoEvent? then 0 else Size(log.before) + 1
  }

  lemma {:induction false} ContinuesSize(log: Log, earlier: Log)
    requires Continues(log, earlier)
    ensures Size(earlier) <= Size(log)
  {
    if log != earlier {
      ContinuesSize(log.before, earlier);
    }
  }

  /** The log ends with the walk holding these keys for zone. */
  predicate EndsHeld(log: Log, zone: Name, keys: seq<Dnskey>) {
    log.Then? && log.last.Held? && log.last.zone == zone && log.last.keys == keys
  }

  /** The walk arrived at zone with these keys at some point of the log. */
  predicate Arrived(log: Log, zone: Name, keys: seq<Dnskey>) {
    EndsHeld(log, zone, keys) || (log.Then? && Arrived(log.before, zone, keys))
  }

  lemma {:induction false} ArrivedLater(log: Log, earlier: Log, zone: Name, keys: seq<Dnskey>)
    requires Continues(log, earlier) && Arrived(earlier, zone, keys)
    ensures Arrived(log, zone, keys)
  {
    if log != earlier {
      ArrivedLater(log.before, earlier, zone, keys);
    }
  }

  predicate Logged(log: Log, e: Event) {
    log.Then? && (log.last == e || Logged(log.before, e))
  }

  /** A signature over owner's RRset was tried with these keys. */
  datatype Trial = Trial(owner: Name, sig: Rrsig, keys: seq<Dnskey>)

  /** All that one validation has seen, from the reading it began with to the latest one. */
  datatype Evidence = Evidence(log: Log, trials: set<Trial>, start: nat, end: nat)

  /** later has seen at least what earlier has. */
  predicate Extends(later: Evidence, earlier: Evidence) {
    && Continues(later.log, earlier.log) && earlier.trials <= later.trials
    && earlier.start == later.start && earlier.end <= later.end
  }

  lemma ExtendsTransitive(later: Evidence, middle: Evidence, earlier: Evidence)
    requires Extends(later, middle) && Extends(middle, earlier)
    ensures Extends(later, earlier)
  {
    ContinuesTransitive(later.log, middle.log, earlier.log);
  }
}
