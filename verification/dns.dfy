/** Abstract DNS lookups: what `Resolver.LookupHost` returns and how names
    are formed. The network itself is replaced by an oracle function. */
module Dns {
  import opened Wrappers

  type Address = string

  /** The error kinds a lookup can fail with. */
  datatype LookupError = Timeout | NotFound | Network

  /** The pair `(ips, err)` returned by `LookupHost`; `err == None` stands
      for Go's nil error. */
  datatype Reply = Reply(addrs: seq<Address>, err: Option<LookupError>)

  /** Stands in for `LookupHost` against the configured nameserver: a
      deterministic answer per name. */
  type Oracle = string -> Reply

  /** The test `err == nil && len(ips) > 0` both callers apply. */
  predicate Answered(r: Reply) {
    r.err.None? && |r.addrs| > 0
  }

  /** `fmt.Sprintf("%s.%s", sub, apex)`. */
  function Join(sub: string, apex: string): (name: string)
    ensures |name| == |sub| + 1 + |apex|
    ensures name[..|sub|] == sub
    ensures name[|sub|] == '.'
    ensures name[|sub| + 1..] == apex
  {
    sub + "." + apex
  }

  /** Cuts a name at its first dot; `None` when there is no dot. */
  function SplitAtFirstDot(name: string): (parts: Option<(string, string)>)
    ensures parts.Some? ==> Join(parts.value.0, parts.value.1) == name
    ensures parts.Some? ==> '.' !in parts.value.0
    ensures parts.None? <==> '.' !in name
  {
    if name == [] then None
    else if name[0] == '.' then Some(([], name[1..]))
    else match SplitAtFirstDot(name[1..])
      case None => None
      case Some((sub, apex)) =>
        assert name == [name[0]] + Join(sub, apex);
        Some(([name[0]] + sub, apex))
  }

  /** A dot-free sub is recovered from the name it was joined into. */
  lemma SplitJoin(sub: string, apex: string)
    requires '.' !in sub
    ensures SplitAtFirstDot(Join(sub, apex)) == Some((sub, apex))
  {
  }
}
