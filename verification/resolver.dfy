/** The wildcard heuristic of `Resolver.DetectWildcard` and the random
    probe names it queries. Randomness is supplied as the sequence of
    indices the generator would draw, and DNS as an oracle. */
module Resolver {
  import opened Wrappers
  import opened Dns

  /** Number of random probes; an address must be counted exactly this
      many times to be confirmed. */
  const WildcardTestCount: nat := 3

  /** Length of each random probe label. */
  const RandomLabelLength: nat := 10

  /** The alphabet random labels are drawn from. */
  const Charset: string := "abcdefghijklmnopqrstuvwxyz0123456789"

  /** `len(charset)`, the bound passed to `rng.Intn`. */
  const CharsetSize: nat := 36

  predicate IsLabelChar(c: char) {
    'a' <= c <= 'z' || '0' <= c <= '9'
  }

  /** Indices as returned by `rng.Intn(len(charset))`. */
  predicate ValidDraws(draws: seq<nat>) {
    forall k :: 0 <= k < |draws| ==> draws[k] < CharsetSize
  }

  /** The character at position `i` of `Charset`, by arithmetic. */
  function CharAt(i: nat): char
    requires i < CharsetSize
  {
    if i < 26 then ('a' as int + i) as char else ('0' as int + i - 26) as char
  }

  lemma CharsetAt(i: nat)
    requires i < CharsetSize
    ensures |Charset| == CharsetSize && Charset[i] == CharAt(i)
  {
  }

  /** The index `rng.Intn` must have returned to produce `c`. */
  function DrawOf(c: char): (i: nat)
    requires IsLabelChar(c)
    ensures i < CharsetSize && Charset[i] == c
  {
    var i := if 'a' <= c <= 'z' then c as int - 'a' as int else (c as int - '0' as int) + 26;
    CharsetAt(i);
    i
  }

  lemma CharsetIsLabelChars(i: nat)
    requires i < CharsetSize
    ensures IsLabelChar(Charset[i]) && DrawOf(Charset[i]) == i
  {
    CharsetAt(i);
  }

  /** The label part of `generateRandomFQDN`: one charset character per draw. */
  function RandomLabel(draws: seq<nat>): (s: string)
    requires ValidDraws(draws)
    ensures |s| == |draws|
    ensures forall k :: 0 <= k < |s| ==> IsLabelChar(s[k])
  {
    if draws == [] then []
    else
      CharsetIsLabelChars(draws[0]);
      [Charset[draws[0]]] + RandomLabel(draws[1..])
  }

  /** Reads back the draws that produced a label. */
  function DrawsOf(s: string): (draws: seq<nat>)
    requires forall k :: 0 <= k < |s| ==> IsLabelChar(s[k])
    ensures |draws| == |s| && ValidDraws(draws)
  {
    seq(|s|, k requires 0 <= k < |s| => DrawOf(s[k]))
  }

  /** Distinct draws give distinct labels: the draws are recovered from
      the label. */
  lemma {:induction false} RandomLabelInjective(draws: seq<nat>)
    requires ValidDraws(draws)
    ensures DrawsOf(RandomLabel(draws)) == draws
  {
    var s := RandomLabel(draws);
    forall k | 0 <= k < |draws| ensures DrawsOf(s)[k] == draws[k] {
      RandomLabelAt(draws, k);
      CharsetIsLabelChars(draws[k]);
    }
  }

  /** Every lower-case alphanumeric label can be generated. */
  lemma {:induction false} RandomLabelOnto(s: string)
    requires forall k :: 0 <= k < |s| ==> IsLabelChar(s[k])
    ensures RandomLabel(DrawsOf(s)) == s
  {
    var draws := DrawsOf(s);
    forall k | 0 <= k < |s| ensures RandomLabel(draws)[k] == s[k] {
      RandomLabelAt(draws, k);
    }
  }

  lemma {:induction false} RandomLabelAt(draws: seq<nat>, k: nat)
    requires ValidDraws(draws) && k < |draws|
    ensures RandomLabel(draws)[k] == Charset[draws[k]]
    decreases k
  {
    if k > 0 {
      RandomLabelAt(draws[1..], k - 1);
    }
  }

  /** `generateRandomFQDN`: the random label, a dot, then the apex. */
  function RandomFqdn(apex: string, draws: seq<nat>): (name: string)
    requires ValidDraws(draws)
    ensures |name| == |draws| + 1 + |apex|
    ensures forall k :: 0 <= k < |draws| ==> IsLabelChar(name[k])
    ensures name[|draws|] == '.'
    ensures name[|draws| + 1..] == apex
  {
    var sub := RandomLabel(draws);
    assert forall k :: 0 <= k < |draws| ==> Join(sub, apex)[k] == sub[k];
    Join(sub, apex)
  }

  /** A probe name lies directly under the apex: its first dot ends the
      random label. */
  lemma RandomFqdnSplits(apex: string, draws: seq<nat>)
    requires ValidDraws(draws)
    ensures SplitAtFirstDot(RandomFqdn(apex, draws)) == Some((RandomLabel(draws), apex))
  {
  }

  // ---------------------------------------------------------------------
  // The tally

  /** The value `wildcardIPs[ip]` reads, zero for a missing key. */
  function Count(tally: map<Address, nat>, ip: Address): nat {
    if ip in tally then tally[ip] else 0
  }

  /** `for _, ip := range ips { wildcardIPs[ip]++ }`. */
  function Bump(tally: map<Address, nat>, ips: seq<Address>): map<Address, nat>
    decreases |ips|
  {
    if ips == [] then tally
    else Bump(tally[ips[0] := Count(tally, ips[0]) + 1], ips[1..])
  }

  /** The probe loop: only answered probes are counted. */
  function TallyProbes(tally: map<Address, nat>, probes: seq<Reply>): map<Address, nat>
    decreases |probes|
  {
    if probes == [] then tally
    else TallyProbes(if Answered(probes[0]) then Bump(tally, probes[0].addrs) else tally, probes[1..])
  }

  /** The addresses one probe contributes: none unless it answered. */
  function Contribution(r: Reply): seq<Address> {
    if Answered(r) then r.addrs else []
  }

  /** Reference: every address of every answered probe, in order. */
  function Pool(probes: seq<Reply>): seq<Address> {
    if probes == [] then [] else Contribution(probes[0]) + Pool(probes[1..])
  }

  /** How many times `ip` occurs across the answered probes. */
  function Occurrences(probes: seq<Reply>, ip: Address): nat {
    multiset(Pool(probes))[ip]
  }

  /** Bumping counts each occurrence once. */
  lemma {:induction false} BumpCounts(tally: map<Address, nat>, ips: seq<Address>, ip: Address)
    ensures Count(Bump(tally, ips), ip) == Count(tally, ip) + multiset(ips)[ip]
    decreases |ips|
  {
    if ips != [] {
      BumpCounts(tally[ips[0] := Count(tally, ips[0]) + 1], ips[1..], ip);
      assert ips == [ips[0]] + ips[1..];
    }
  }

  /** The tally map counts occurrences across answered probes. */
  lemma {:induction false} TallyCounts(tally: map<Address, nat>, probes: seq<Reply>, ip: Address)
    ensures Count(TallyProbes(tally, probes), ip) == Count(tally, ip) + Occurrences(probes, ip)
    decreases |probes|
  {
    if probes != [] {
      var next := if Answered(probes[0]) then Bump(tally, probes[0].addrs) else tally;
      TallyCounts(next, probes[1..], ip);
      BumpCounts(tally, Contribution(probes[0]), ip);
      assert Pool(probes) == Contribution(probes[0]) + Pool(probes[1..]);
    }
  }

  // ---------------------------------------------------------------------
  // The verdict

  /** `(bool, []string)` returned by `DetectWildcard`; the confirmed
      addresses come from map keys and are kept as a set. */
  datatype Verdict = Verdict(isWildcard: bool, confirmed: set<Address>)

  /** The decision of `DetectWildcard` from the apex reply and the replies
      to the probes. */
  function Decide(apex: Reply, probes: seq<Reply>): (v: Verdict)
    requires |probes| == WildcardTestCount
    ensures !Answered(apex) ==> v == Verdict(false, {})
    ensures v.isWildcard <==> v.confirmed != {}
  {
    if !Answered(apex) then Verdict(false, {})
    else
      var tally := TallyProbes(map[], probes);
      var confirmed := set ip | ip in tally && tally[ip] == WildcardTestCount;
      Verdict(|confirmed| > 0, confirmed)
  }

  /** An address is confirmed exactly when the apex resolves and the
      address is counted exactly `WildcardTestCount` times: occurrences,
      not probes, are counted, and more occurrences disqualify. */
  lemma ConfirmedIffCountedThrice(apex: Reply, probes: seq<Reply>, ip: Address)
    requires |probes| == WildcardTestCount
    ensures ip in Decide(apex, probes).confirmed
            <==> Answered(apex) && Occurrences(probes, ip) == WildcardTestCount
  {
    TallyCounts(map[], probes, ip);
  }

  lemma PoolCons(r: Reply, rest: seq<Reply>)
    ensures Pool([r] + rest) == Contribution(r) + Pool(rest)
  {
    assert ([r] + rest)[1..] == rest;
  }

  lemma PoolOfThree(probes: seq<Reply>)
    requires |probes| == 3
    ensures Pool(probes) == Contribution(probes[0]) + Contribution(probes[1]) + Contribution(probes[2])
  {
    var p0, p1, p2 := probes[0], probes[1], probes[2];
    assert probes == [p0] + ([p1] + ([p2] + []));
    PoolCons(p2, []);
    PoolCons(p1, [p2] + []);
    PoolCons(p0, [p1] + ([p2] + []));
  }

  lemma OccurrencesOfThree(probes: seq<Reply>, ip: Address)
    requires |probes| == 3
    ensures Occurrences(probes, ip)
            == multiset(Contribution(probes[0]))[ip] + multiset(Contribution(probes[1]))[ip]
               + multiset(Contribution(probes[2]))[ip]
  {
    PoolOfThree(probes);
  }

  /** When every probe fails or answers nothing, nothing is tallied and the
      domain is not a wildcard. */
  lemma AllProbesFailNotWildcard(apex: Reply, probes: seq<Reply>)
    requires |probes| == WildcardTestCount
    requires forall k :: 0 <= k < |probes| ==> !Answered(probes[k])
    ensures Decide(apex, probes) == Verdict(false, {})
  {
    var v := Decide(apex, probes);
    forall ip ensures ip !in v.confirmed {
      OccurrencesOfThree(probes, ip);
      ConfirmedIffCountedThrice(apex, probes, ip);
    }
  }

  /** An address that every probe answers with exactly once is confirmed. */
  lemma OncePerProbeConfirms(apex: Reply, probes: seq<Reply>, ip: Address)
    requires |probes| == WildcardTestCount && Answered(apex)
    requires forall k :: 0 <= k < |probes| ==> probes[k].err.None? && multiset(probes[k].addrs)[ip] == 1
    ensures ip in Decide(apex, probes).confirmed
    ensures Decide(apex, probes).isWildcard
  {
    OccurrencesOfThree(probes, ip);
    ConfirmedIffCountedThrice(apex, probes, ip);
  }

  /** What one probe adds to the count of an address it lists at most once. */
  lemma ContributionAtMostOnce(r: Reply, ip: Address)
    requires multiset(r.addrs)[ip] <= 1
    ensures multiset(Contribution(r))[ip] == if Answered(r) && ip in r.addrs then 1 else 0
  {
  }

  /** When no probe lists an address twice, the occurrence count reads as
      "the address appeared in every probe". */
  lemma DistinctAnswersMeanEveryProbe(apex: Reply, probes: seq<Reply>, ip: Address)
    requires |probes| == WildcardTestCount
    requires forall k :: 0 <= k < |probes| ==> multiset(probes[k].addrs)[ip] <= 1
    ensures ip in Decide(apex, probes).confirmed
            <==> Answered(apex) && forall k :: 0 <= k < |probes| ==> Answered(probes[k]) && ip in probes[k].addrs
  {
    OccurrencesOfThree(probes, ip);
    ConfirmedIffCountedThrice(apex, probes, ip);
    ContributionAtMostOnce(probes[0], ip);
    ContributionAtMostOnce(probes[1], ip);
    ContributionAtMostOnce(probes[2], ip);
    var listed0 := Answered(probes[0]) && ip in probes[0].addrs;
    var listed1 := Answered(probes[1]) && ip in probes[1].addrs;
    var listed2 := Answered(probes[2]) && ip in probes[2].addrs;
    assert (forall k :: 0 <= k < |probes| ==> Answered(probes[k]) && ip in probes[k].addrs)
           <==> listed0 && listed1 && listed2 by {
      if listed0 && listed1 && listed2 {
        forall k | 0 <= k < |probes| ensures Answered(probes[k]) && ip in probes[k].addrs {
          assert k == 0 || k == 1 || k == 2;
        }
      }
    }
  }

  /** Probes that each answer one address, all different, never make a
      wildcard. */
  lemma DistinctProbeAnswersNotWildcard(apex: Reply, probes: seq<Reply>)
    requires |probes| == WildcardTestCount
    requires forall k :: 0 <= k < |probes| && Answered(probes[k]) ==> |probes[k].addrs| == 1
    requires forall j, k :: 0 <= j < k < |probes| && Answered(probes[j]) && Answered(probes[k])
               ==> probes[j].addrs[0] != probes[k].addrs[0]
    ensures Decide(apex, probes) == Verdict(false, {})
  {
    var v := Decide(apex, probes);
    forall ip ensures ip !in v.confirmed {
      OccurrencesOfThree(probes, ip);
      ConfirmedIffCountedThrice(apex, probes, ip);
      if Answered(probes[0]) && Answered(probes[1]) {
        assert probes[0].addrs == [probes[0].addrs[0]];
        assert probes[1].addrs == [probes[1].addrs[0]];
      }
    }
  }

  /** One probe answering `[x, x, x]` while the other two fail confirms
      `x`, though `x` appeared in a single probe. */
  lemma RepeatedInOneProbeConfirms(apex: Reply, x: Address, e: LookupError)
    requires Answered(apex)
    ensures Decide(apex, [Reply([x, x, x], None), Reply([], Some(e)), Reply([], Some(e))])
            == Verdict(true, {x})
  {
    var probes := [Reply([x, x, x], None), Reply([], Some(e)), Reply([], Some(e))];
    var v := Decide(apex, probes);
    forall ip ensures ip in v.confirmed <==> ip == x {
      OccurrencesOfThree(probes, ip);
      ConfirmedIffCountedThrice(apex, probes, ip);
    }
    assert v.confirmed == {x};
  }

  /** `x` in all three probes but twice in one is counted four times and
      is not confirmed. */
  lemma FourOccurrencesNotConfirmed(apex: Reply, x: Address)
    ensures x !in Decide(apex, [Reply([x, x], None), Reply([x], None), Reply([x], None)]).confirmed
  {
    var probes := [Reply([x, x], None), Reply([x], None), Reply([x], None)];
    OccurrencesOfThree(probes, x);
    ConfirmedIffCountedThrice(apex, probes, x);
  }

  // ---------------------------------------------------------------------
  // Detection against an oracle

  /** The draws `DetectWildcard` consumes: one label of the fixed length
      per probe. */
  predicate ValidRandomness(draws: seq<seq<nat>>) {
    && |draws| == WildcardTestCount
    && forall k :: 0 <= k < |draws| ==> |draws[k]| == RandomLabelLength && ValidDraws(draws[k])
  }

  /** The verdict together with the names looked up, in order. */
  datatype Detection = Detection(verdict: Verdict, queried: seq<string>)

  function Replies(lookup: Oracle, names: seq<string>): (rs: seq<Reply>)
    ensures |rs| == |names|
  {
    seq(|names|, k requires 0 <= k < |names| => lookup(names[k]))
  }

  /** `DetectWildcard`: look up the apex; when it answers, look up one
      random name per probe and decide from the replies. */
  function DetectWildcard(lookup: Oracle, apexDomain: string, draws: seq<seq<nat>>): (d: Detection)
    requires ValidRandomness(draws)
    ensures d.queried != [] && d.queried[0] == apexDomain
    ensures !Answered(lookup(apexDomain)) ==> d == Detection(Verdict(false, {}), [apexDomain])
    ensures Answered(lookup(apexDomain)) ==> |d.queried| == 1 + WildcardTestCount
    ensures forall k :: 1 <= k < |d.queried| ==>
              |d.queried[k]| == RandomLabelLength + 1 + |apexDomain|
              && SplitAtFirstDot(d.queried[k]) == Some((RandomLabel(draws[k - 1]), apexDomain))
    ensures Answered(lookup(apexDomain)) ==>
              d.verdict == Decide(lookup(apexDomain), Replies(lookup, d.queried[1..]))
  {
    var apexReply := lookup(apexDomain);
    if !Answered(apexReply) then Detection(Verdict(false, {}), [apexDomain])
    else
      var names := seq(WildcardTestCount, k requires 0 <= k < WildcardTestCount => RandomFqdn(apexDomain, draws[k]));
      assert forall k :: 0 <= k < WildcardTestCount ==>
               SplitAtFirstDot(names[k]) == Some((RandomLabel(draws[k]), apexDomain)) by {
        forall k | 0 <= k < WildcardTestCount {
          RandomFqdnSplits(apexDomain, draws[k]);
        }
      }
      var queried := [apexDomain] + names;
      assert queried[1..] == names;
      Detection(Decide(apexReply, Replies(lookup, names)), queried)
  }

  /** A resolver that answers every name with the same single address is
      detected as a wildcard, with exactly that address confirmed. */
  lemma ConstantAnswerIsWildcard(lookup: Oracle, apexDomain: string, draws: seq<seq<nat>>, x: Address)
    requires ValidRandomness(draws)
    requires forall name :: lookup(name) == Reply([x], None)
    ensures DetectWildcard(lookup, apexDomain, draws).verdict == Verdict(true, {x})
  {
    var d := DetectWildcard(lookup, apexDomain, draws);
    var apex := lookup(apexDomain);
    var probes := Replies(lookup, d.queried[1..]);
    assert d.verdict == Decide(apex, probes);
    assert Contribution(probes[0]) == [x];
    assert Contribution(probes[1]) == [x];
    assert Contribution(probes[2]) == [x];
    forall ip ensures ip in d.verdict.confirmed <==> ip == x {
      OccurrencesOfThree(probes, ip);
      ConfirmedIffCountedThrice(apex, probes, ip);
    }
    assert d.verdict.confirmed == {x};
  }
}
