/** Validation verdicts. */
module Status {
  datatype DnssecStatus = Secure | InsecureUnsigned | InsecureUnknown | Bogus

  /** The verdicts that may enter the response cache. */
  predicate Cacheable(s: DnssecStatus) {
    s.Secure? || s.InsecureUnsigned?
  }
}
