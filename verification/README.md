# drift subdomain brute-forcer: a Dafny model of its core

drift guesses subdomains. It takes an apex domain and a wordlist, looks up
`word.domain` for every word against a fixed nameserver, and reports the
names that resolve. Before enumerating, it can check whether the apex answers
arbitrary names (wildcard DNS). It does this by resolving three random
10-character labels and confirming the addresses that were counted exactly
three times.

This project models three pure pieces of that program and proves properties
about them:

- **Wildcard detection** (`resolver.dfy`, module `Resolver`). This covers the
  random probe names of `generateRandomFQDN`, the per-address tally of
  `DetectWildcard`, its exact-count filter, and the resulting verdict. DNS is
  an oracle function from names to replies. Randomness is the sequence of
  indices `rng.Intn(36)` would return.
- **Enumeration** (`enumerator.dfy`, `slots.dfy`, modules `Enumerator` and
  `Slots`). `Start` is modelled as a sequential run that records a trace of
  events:
  - a dispatch: a slot is taken and the lookup for `word.domain` is issued;
  - a completion: an outcome is reported and the slot is released.

  The buffered channel `limiter` is a counter of held slots. Each outcome is
  `Found` (first address), `Error` or `Silent` (nothing printed).
- **Wordlist filtering** (`wordlist.dfy`, `text.dfy`, modules `Wordlist` and
  `Text`). Each line is trimmed of ASCII spaces. It is dropped when it is empty
  or starts with `#`.

`dns.dfy` holds the shared vocabulary:
- the `(addrs, err)` reply of `LookupHost`;
- the oracle type;
- `Join`, which is `fmt.Sprintf("%s.%s", …)`.

`wrappers.dfy` holds `Option`.

The model follows what the code does, in four places where a reader might
expect otherwise:

- The comment at resolver.go:107 reads "If any IP appeared in all tests". The
  code instead counts occurrences across all probe answers, and confirms a
  count of exactly 3 (resolver.go:101-103, 110). So `[x, x, x]` from one probe,
  with the other two failing, confirms `x`. An `x` that is in all three probes
  but twice in one of them is not confirmed (`RepeatedInOneProbeConfirms`,
  `FourOccurrencesNotConfirmed`). `DistinctAnswersMeanEveryProbe` shows that
  counting and "listed by every probe" agree when no answer lists an address
  twice.
- When the lookup error is nil and the address list is empty, nothing is
  printed (enumerator.go:37-41). The model's `Silent` outcome records that
  nothing was printed.
- `Start` takes no wildcard set and filters no results.
- The probe count and the label length are fixed: 3 by the constant at
  resolver.go:14, and 10 by the literal argument at resolver.go:96.

## Model

| member | source | states |
|---|---|---|
| Text.Trim | utils.go:24 | the trimmed line has no leading or trailing ASCII space and is no longer than the line |
| Text.TrimIsInnerSlice | utils.go:24 | trimming removes only space characters, and only at the two ends: the result is a contiguous slice of the line |
| Text.TrimFixesTrimmed | utils.go:24 | a line without surrounding spaces is left unchanged |
| Text.TrimIdempotent | utils.go:24 | trimming twice is the same as trimming once |
| Text.TrimEmptyIffAllSpace | utils.go:24-25 | a trimmed line is empty exactly when the line consists of spaces only |
| Wordlist.Filter | utils.go:23-28 | every loaded entry is non-empty, does not start with `#` and has no surrounding space, and there are no more entries than lines |
| Wordlist.FilterMembership | utils.go:24-26 | a string is loaded if and only if some line trims to it and it is neither empty nor a comment; so a line whose trimmed form passes is always kept |
| Wordlist.FilterIsSubsequence | utils.go:23-27 | the entries are the trimmed lines in input order with some left out |
| Wordlist.FilterAppend | utils.go:23-28 | lines are filtered one at a time: filtering a concatenation concatenates the results |
| Wordlist.FilterIdempotent | utils.go:24-25 | filtering an already loaded wordlist returns it unchanged |
| Dns.Join | enumerator.go:35 | the looked-up name is the word, a dot, then the domain, at fixed positions |
| Dns.SplitJoin | resolver.go:83 | a dot-free label and the apex are recovered by cutting the name at its first dot |
| Resolver.RandomLabel | resolver.go:74-81 | a label has one character per draw, each a lower-case letter or digit |
| Resolver.RandomLabelInjective | resolver.go:78-80 | the draws are recovered from the label, so different draws give different labels |
| Resolver.RandomLabelOnto | resolver.go:74-80 | every lower-case alphanumeric string is the label of some draws |
| Resolver.RandomFqdn | resolver.go:73-84 | a probe name has length draws + 1 + apex: alphanumeric label characters, a dot, then the apex |
| Resolver.RandomFqdnSplits | resolver.go:83 | the first dot of a probe name ends the random label, and the rest is the apex |
| Resolver.BumpCounts | resolver.go:101-103 | counting one answer adds the number of times each address occurs in it |
| Resolver.TallyCounts | resolver.go:95-105 | the tally of an address is its number of occurrences over answered probes; failed or empty probes add nothing |
| Resolver.Decide | resolver.go:87-116 | an apex that errs or has no addresses gives (false, empty) without tallying; the flag is true if and only if the confirmed set is non-empty |
| Resolver.ConfirmedIffCountedThrice | resolver.go:108-113 | an address is confirmed if and only if the apex answered and the address was counted exactly 3 times; any other count excludes it |
| Resolver.AllProbesFailNotWildcard | resolver.go:97-115 | when every probe fails or is empty, nothing is tallied and the verdict is (false, empty) |
| Resolver.OncePerProbeConfirms | resolver.go:95-115 | an address listed exactly once by each of the 3 probes is confirmed, and the verdict is true |
| Resolver.DistinctAnswersMeanEveryProbe | resolver.go:107-113 | when no answer lists the address twice, it is confirmed if and only if every probe answered and listed it |
| Resolver.DistinctProbeAnswersNotWildcard | resolver.go:95-115 | probes that each fail or answer one address, all different, give (false, empty) |
| Resolver.RepeatedInOneProbeConfirms | resolver.go:99-113 | one probe answering `[x, x, x]` with the other two failing gives (true, {x}) |
| Resolver.FourOccurrencesNotConfirmed | resolver.go:101-112 | `x` in all three probes but twice in one is not confirmed |
| Resolver.DetectWildcard | resolver.go:87-116 | the apex is looked up first; on failure nothing else is queried; otherwise exactly 3 probe names follow, each a 10-character random label directly under the apex, and the verdict is decided from their replies |
| Resolver.ConstantAnswerIsWildcard | resolver.go:87-116 | a resolver answering every name with the same single address yields (true, {that address}) |
| Slots.NewLimiter | enumerator.go:20 | a new limiter holds no slot, and a slot can be taken if and only if the capacity is at least 1 |
| Slots.Acquire | enumerator.go:28 | a send takes one free slot and never exceeds the capacity |
| Slots.Release | enumerator.go:33 | the deferred receive frees one slot, after which a send can proceed |
| Slots.ReleaseUndoesAcquire | enumerator.go:28-33 | a task that takes and returns a slot leaves the limiter as it was |
| Enumerator.Classify | enumerator.go:37-42 | Found (first address only) if and only if err is nil and the list is non-empty; Error if and only if err is non-nil; nothing if and only if err is nil and the list is empty; the three are exclusive |
| Enumerator.DispatchNext | enumerator.go:27-36 | a send needs a free slot, after which the next word's lookup for `word.domain` is issued |
| Enumerator.CompleteOldest | enumerator.go:32-42 | a finishing task reports its classified outcome and frees its slot |
| Enumerator.Start | enumerator.go:24-47 | one lookup per word, for `word.domain`, in word order; one outcome per word; in-flight lookups stay within 0 and the limit at every point; none are in flight on return; an empty wordlist does nothing |
| Enumerator.OneSlotMeansSequential | enumerator.go:28-33 | with a limit of 1, dispatches and completions strictly alternate, so no two lookups overlap |
| Enumerator.ThreeWordScenario | enumerator.go:35-42 | for `www`, `mail` and `bogus123xyz` under `example.com`, two resolving names and one not-found give two Found outcomes and one Error |

## Left out

- Resolver construction is not modelled: `NewResolver`, `WithTimeout`, the `net.Dialer`, the `:53` dial override and the per-lookup context timeout (resolver.go:31-70). This is network plumbing. `LookupHost` is the oracle parameter, and it is deterministic per name.
- The `time.Now()` seed and `math/rand` are not modelled (resolver.go:43, 46, 79). The indices the generator would return are an input.
- The `rngMu` mutex, the goroutines and the `sync.WaitGroup` are not modelled (resolver.go:77-81, enumerator.go:25-46). Their purpose is concurrency. Only the limiter's counter and the final wait survive, in the trace model.
- Enumerator.Start: tasks complete first-in first-out in the model. The schedule chooses only how many of them finish before each send. Out-of-order completions of concurrent goroutines are not modelled.
- Enumerator.Start: requires a limit of at least 1. With 0 the channel is unbuffered, and the first send at enumerator.go:28 blocks forever. `Slots.NewLimiter` states that no slot can then be taken.
- Slots.NewLimiter: the capacity is a `nat`. A negative `concurrencyLimit` makes `make` panic at enumerator.go:20, and that path is outside the type.
- The order of the confirmed addresses is not modelled, because Go's map iteration order is unspecified (resolver.go:109). They are a set, so they have no duplicates.
- `fmt.Printf` output is not modelled (enumerator.go:38, 41). It becomes the `Outcome` value.
- File reading is not modelled: `os.Open`, `bufio.Scanner` line splitting and the `scanner.Err()` return (utils.go:11-22, 30). The wordlist is given as its sequence of lines.
- Text.Trim: only the six ASCII space characters are removed. `strings.TrimSpace` also removes Unicode spaces such as U+0085 and U+00A0.
- main.go is not part of this model. It only loads and prints the wordlist.
- There is no wildcard filtering in the enumerator, because the code does not implement any.
