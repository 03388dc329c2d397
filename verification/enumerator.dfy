/** `SubdomainEnumerator.Start`, made sequential. Each word becomes one
    task that holds a limiter slot, looks up `word.domain` and reports an
    outcome. A run is recorded as a trace of dispatches (slot taken,
    lookup issued) and completions (outcome reported, slot released).
    Completion order is first-in first-out, and a schedule says how many
    in-flight tasks finish on their own before each new send. */
module Enumerator {
  import opened Wrappers
  import opened Dns
  import opened Slots

  /** What a task reports: `Found` prints the first address, `Error` prints
      the error, `Silent` prints nothing. */
  datatype Outcome =
    | Found(name: string, addr: Address)
    | Error(name: string, err: LookupError)
    | Silent(name: string)

  /** The two independent `if`s in the task body. */
  function Classify(name: string, reply: Reply): (o: Outcome)
    ensures o.name == name
    ensures o.Found? <==> Answered(reply)
    ensures o.Found? ==> o.addr == reply.addrs[0]
    ensures o.Error? <==> reply.err.Some?
    ensures o.Error? ==> o.err == reply.err.value
    ensures o.Silent? <==> reply.err.None? && reply.addrs == []
  {
    if reply.err.None? && |reply.addrs| > 0 then Found(name, reply.addrs[0])
    else if reply.err.Some? then Error(name, reply.err.value)
    else Silent(name)
  }

  /** The names looked up, one per word, in word order. */
  function Targets(domain: string, words: seq<string>): seq<string> {
    seq(|words|, i requires 0 <= i < |words| => Join(words[i], domain))
  }

  /** The outcome each word leads to. */
  function Outcomes(domain: string, words: seq<string>, lookup: Oracle): seq<Outcome> {
    seq(|words|, i requires 0 <= i < |words| =>
      Classify(Join(words[i], domain), lookup(Join(words[i], domain))))
  }

  datatype Event = Dispatch(name: string) | Complete(outcome: Outcome)

  /** Names of the dispatched lookups, in trace order. */
  function Dispatched(trace: seq<Event>): seq<string> {
    if trace == [] then []
    else Dispatched(trace[..|trace| - 1])
         + (if trace[|trace| - 1].Dispatch? then [trace[|trace| - 1].name] else [])
  }

  /** Reported outcomes, in trace order. */
  function Completed(trace: seq<Event>): seq<Outcome> {
    if trace == [] then []
    else Completed(trace[..|trace| - 1])
         + (if trace[|trace| - 1].Complete? then [trace[|trace| - 1].outcome] else [])
  }

  /** Tasks dispatched and not yet completed. */
  function InFlight(trace: seq<Event>): int {
    if trace == [] then 0
    else InFlight(trace[..|trace| - 1]) + (if trace[|trace| - 1].Dispatch? then 1 else -1)
  }

  /** At no point of the trace are more than `limit` lookups in flight. */
  ghost predicate Bounded(trace: seq<Event>, limit: nat) {
    forall p :: 0 <= p <= |trace| ==> 0 <= InFlight(trace[..p]) <= limit
  }

  /** The state of a run after `started` sends and `finished` completions. */
  ghost predicate Consistent(domain: string, words: seq<string>, lookup: Oracle, limit: nat,
                             trace: seq<Event>, slots: Limiter, started: nat, finished: nat)
  {
    && finished <= started <= |words|
    && slots == Limiter(limit, started - finished)
    && |trace| == started + finished
    && Dispatched(trace) == Targets(domain, words)[..started]
    && Completed(trace) == Outcomes(domain, words, lookup)[..finished]
    && InFlight(trace) == started - finished
    && Bounded(trace, limit)
  }

  lemma BoundedAppend(trace: seq<Event>, e: Event, limit: nat)
    requires Bounded(trace, limit) && 0 <= InFlight(trace + [e]) <= limit
    ensures Bounded(trace + [e], limit)
  {
    var t := trace + [e];
    forall p | 0 <= p <= |t| ensures 0 <= InFlight(t[..p]) <= limit {
      if p <= |trace| {
        assert t[..p] == trace[..p];
      } else {
        assert t[..p] == t;
      }
    }
  }

  /** The send `e.limiter <- struct{}{}` followed by the start of the task
      for the next word, which issues its lookup. */
  method DispatchNext(domain: string, words: seq<string>, lookup: Oracle, limit: nat,
                      trace: seq<Event>, slots: Limiter, started: nat, finished: nat)
    returns (trace': seq<Event>, slots': Limiter, started': nat)
    requires Consistent(domain, words, lookup, limit, trace, slots, started, finished)
    requires started < |words| && CanAcquire(slots)
    ensures Consistent(domain, words, lookup, limit, trace', slots', started', finished)
    ensures started' == started + 1
    ensures trace' == trace + [Dispatch(Join(words[started], domain))]
  {
    var name := Join(words[started], domain);
    slots' := Acquire(slots);
    trace' := trace + [Dispatch(name)];
    started' := started + 1;
    assert trace'[..|trace'| - 1] == trace;
    assert Targets(domain, words)[..started'] == Targets(domain, words)[..started] + [name];
    BoundedAppend(trace, Dispatch(name), limit);
  }

  /** The oldest in-flight task reports its outcome and, through its
      deferred receive, frees its slot. */
  method CompleteOldest(domain: string, words: seq<string>, lookup: Oracle, limit: nat,
                        trace: seq<Event>, slots: Limiter, started: nat, finished: nat)
    returns (trace': seq<Event>, slots': Limiter, finished': nat)
    requires Consistent(domain, words, lookup, limit, trace, slots, started, finished)
    requires finished < started
    ensures Consistent(domain, words, lookup, limit, trace', slots', started, finished')
    ensures finished' == finished + 1
    ensures trace' == trace + [Complete(Outcomes(domain, words, lookup)[finished])]
  {
    var name := Join(words[finished], domain);
    var outcome := Classify(name, lookup(name));
    assert trace[..|trace|] == trace;
    slots' := Release(slots);
    trace' := trace + [Complete(outcome)];
    finished' := finished + 1;
    assert trace'[..|trace'| - 1] == trace;
    assert Outcomes(domain, words, lookup)[..finished'] == Outcomes(domain, words, lookup)[..finished] + [outcome];
    BoundedAppend(trace, Complete(outcome), limit);
  }

  /** `Start`: one task per word in word order, each holding a slot from
      its send to its completion, and a final wait for all of them.
      `schedule[i]` is how many in-flight tasks complete before the send
      for word `i`; a send on a full limiter waits for the oldest task. */
  method Start(domain: string, words: seq<string>, limit: nat, lookup: Oracle, schedule: seq<nat>)
    returns (trace: seq<Event>)
    requires limit >= 1
    requires |schedule| == |words|
    ensures |trace| == 2 * |words|
    ensures Dispatched(trace) == Targets(domain, words)
    ensures Completed(trace) == Outcomes(domain, words, lookup)
    ensures Bounded(trace, limit)
    ensures InFlight(trace) == 0
  {
    trace := [];
    var slots := NewLimiter(limit);
    var started, finished := 0, 0;
    while started < |words|
      invariant Consistent(domain, words, lookup, limit, trace, slots, started, finished)
      decreases |words| - started
    {
      var n := schedule[started];
      while n > 0 && finished < started
        invariant Consistent(domain, words, lookup, limit, trace, slots, started, finished)
        decreases n
      {
        trace, slots, finished := CompleteOldest(domain, words, lookup, limit, trace, slots, started, finished);
        n := n - 1;
      }
      if !CanAcquire(slots) {
        trace, slots, finished := CompleteOldest(domain, words, lookup, limit, trace, slots, started, finished);
      }
      trace, slots, started := DispatchNext(domain, words, lookup, limit, trace, slots, started, finished);
    }
    while finished < started
      invariant Consistent(domain, words, lookup, limit, trace, slots, started, finished)
      decreases started - finished
    {
      trace, slots, finished := CompleteOldest(domain, words, lookup, limit, trace, slots, started, finished);
    }
    assert Targets(domain, words)[..started] == Targets(domain, words);
    assert Outcomes(domain, words, lookup)[..finished] == Outcomes(domain, words, lookup);
  }

  lemma {:induction false} InFlightAlternates(trace: seq<Event>, i: nat)
    requires forall p :: 0 <= p <= |trace| ==> 0 <= InFlight(trace[..p]) <= 1
    requires i <= |trace|
    ensures InFlight(trace[..i]) == i % 2
    decreases i
  {
    if i > 0 {
      InFlightAlternates(trace, i - 1);
      assert trace[..i][..i - 1] == trace[..i - 1];
    }
  }

  /** With a single slot no two lookups overlap: dispatches and
      completions strictly alternate, starting with a dispatch. */
  lemma OneSlotMeansSequential(trace: seq<Event>)
    requires Bounded(trace, 1)
    ensures forall i :: 0 <= i < |trace| ==> (trace[i].Dispatch? <==> i % 2 == 0)
  {
    forall i | 0 <= i < |trace| ensures trace[i].Dispatch? <==> i % 2 == 0 {
      InFlightAlternates(trace, i);
      InFlightAlternates(trace, i + 1);
      assert trace[..i + 1][..i] == trace[..i];
    }
  }

  /** Two names that resolve and one that does not: two `Found` outcomes
      and one `Error`, in word order. */
  lemma ThreeWordScenario(lookup: Oracle)
    requires lookup(Join("www", "example.com")) == Reply(["1.2.3.4"], None)
    requires lookup(Join("mail", "example.com")) == Reply(["1.2.3.5"], None)
    requires lookup(Join("bogus123xyz", "example.com")) == Reply([], Some(NotFound))
    ensures Outcomes("example.com", ["www", "mail", "bogus123xyz"], lookup)
            == [Found(Join("www", "example.com"), "1.2.3.4"),
                Found(Join("mail", "example.com"), "1.2.3.5"),
                Error(Join("bogus123xyz", "example.com"), NotFound)]
  {
  }
}
