# dgrpc: a verified model

A Dafny 4.11 model of the stateful pieces of `dgrpc`, the gRPC helper library, and proofs about them.
`dafny verify dfyconfig.toml` checks the whole project.

| File | What it models |
|---|---|
| `ResolverMachine.dfy` | The "betterdns" resolver as a transition system: one channel of capacity one, any number of polling loops, `ResolveNow`, `Close`, DNS answers and timers interleaving freely |
| `Resolver.dfy` | Imperative code, in two simulations: the shared objects (channel, contexts) against every step of the machine that touches them, and the polling loop against the machine's loop steps on a script |
| `Addresses.dfy` | The comparison of two DNS answers |
| `Target.dfy` | Target parsing, with Go's `net.SplitHostPort` and `net.ParseIP` written out, and the rendering of addresses |
| `RoundRobin.dfy` | The connection pool with its wrapping 32-bit counter, sequential and concurrent |
| `Compression.dfy` | Compression negotiation and the header rewrite |
| `Interceptors.dfy` | The interceptor chain and its panic isolation |
| `Health.dfy` | The two health `Watch` streams, and `Watch` while the server terminates |
| `Errors.dfy` | Error obfuscation of the Connect server |
| `SizeLogger.dfy` | The windowed payload statistics |
| `GoStrings.dfy`, `Common.dfy` | Go's string scanning, result types, division facts |

## How the model is built

- **Resolver.** A run is a sequence of states and events that starts from a fresh `Resolver` and takes enabled
  steps only. Each loop has its own context, its three variables `firstTime`, `last`, `force`, and two histories:
  `lookups`, the hosts it looked up, and `pushed`, the payloads it gave its `ClientConn`. DNS answers, the choice among ready select cases and the
  interleaving are arbitrary. The work between a lookup's return and the loop head touches only variables of
  that loop, so it is one step. A panic ends the process, so nothing happens after one. The imperative
  `ManageConnections` takes the environment's choices, received tokens and cancellation among them, as a script
  and ends in the state the machine's own loop steps lead to; it does not hold the channel. The channel and the
  contexts are simulated separately: `Build`, `ResolveNow`, `Close` and `Receive` follow the machine's steps,
  `Poll` finds ready what the machine enables, and the other steps leave these objects alone.
- **Pool.** One call is two atomic steps, the increment and the indexing, so that callers can interleave.
- **Interceptors.** A user interceptor is any terminating strategy that finishes or calls the next handler and
  goes on with what that returned, any number of times. It owns its part of the world; the panic counter is
  private to the package, so a strategy cannot reach it. The log of observed panics exists in the model only and
  is proved to change nothing else. The unary and the stream case are one generic model with two recoveries.
- **Watch.** The loop runs on a script of turns (context done, or a check result and whether a send works).
  For termination, reading the shutter and finishing the check are separate steps.
- **Errors.** Go iterates over a map in any order, so the obfuscation is a relation: all results the copy loop
  can give. An error is a tree of plain errors, status errors, Connect errors and wrappers of any number of
  errors, each with a text of its own; it is searched depth first, as `errors.As` does.
- **Durations** are 64-bit: subtracting times saturates and adding durations wraps around.
- **Clocks, DNS answers, check results, send results, registered compressors** are parameters. Text is a
  sequence of characters.

## Where the code differs from what it promises

- The comment on `ResolveNow` calls it a no-op; the code asks one polling loop for a forced update
  (`NoLostWakeUp`). With several `Build`s that may be another `ClientConn`'s loop; `OnlyReceiverIff` says exactly
  when it cannot be.
- `Close` reaches only the loop of the latest `Build` (`CancelledIff`); an earlier loop on the same scheme is
  never stopped once another `Build` has happened.
- Termination is absorbing for a health stream exactly when no check that began earlier is in flight
  (`AbsorbingIff`); such a check can still send one message of its own, SERVING for one
  (`StaleCheckSpeaksOnce`), and never more than one (`TerminationIsAbsorbing`).
- A single blank `grpc-encoding` value is not replaced but gets a second value behind it
  (`BlankValueGrows`); `SecondPassIff` says, from the request as it came in, when a second pass changes nothing.
- The pool is perfectly even across the counter's wrap exactly when its size divides 2^32 (`SeamlessIff`).
- A rendered address splits back to host and port exactly when the host has no colon
  (`RenderedSplitsBackIff`), so IPv6 answers do not (`RenderedSplitsBack`).
- A failing first check is silent on the gRPC stream and reported on the Connect stream (`StreamsAgree`).
- The first window reports a wait measured from the zero time: the longest duration, or a negative one
  (`FirstWindowWait`).
- Metadata lists survive obfuscation exactly when no two names collide (`MetadataKeptIff`), that is, are
  equal up to case (`CollideIff`).

## Model

| member | source | states |
|---|---|---|
| ResolverMachine.NoLostWakeUp | server/standard/resolver.go:105-165 | after any ResolveNow, sent or dropped, and any further events, the token is pending or some loop received one after the call, and that loop's next successful answer is pushed, changed or not, however many lookups fail before it |
| ResolverMachine.OnlyReceiverIff | server/standard/resolver.go:105-145 | in every reachable state, and until another Build, loop i is the only one that can ever receive a token exactly when every other loop has returned or is about to panic on its target |
| ResolverMachine.OwnLoopWakesUp | server/standard/resolver.go:105-165 | when no other loop can receive at a ResolveNow and no Build follows, the token is pending, or loop i itself received one after the call and its next successful answer is pushed |
| ResolverMachine.SingleBuildWakesUp | server/standard/resolver.go:147-165 | with a single Build the token is pending, or loop 0 received one after the call and its next successful answer is pushed |
| ResolverMachine.ReceiveForcesNextPush | server/standard/resolver.go:111-143 | the first successful answer after a received token is appended to what the ClientConn was told |
| ResolverMachine.TokenLedger | server/standard/resolver.go:38-44 | over any number of loops on the shared channel: tokens sent = received + pending, at most one pending, and redundant updates never outnumber received tokens, hence ResolveNow calls |
| ResolverMachine.RedundantIsPaid | server/standard/resolver.go:136-142 | an update with the same Addrs as the loop's previous one is paid for by a token that loop received since its previous answer |
| ResolverMachine.PaymentsAreDistinct | server/standard/resolver.go:136-142 | two redundant updates of one loop are paid by two different tokens, the second received after the first update |
| ResolverMachine.CacheAgreement | server/standard/resolver.go:101-143 | in every reachable state lastAddresses is the last payload pushed (empty if none) and equals the latest successful lookup as a multiset of Addr, failed lookups changing neither |
| ResolverMachine.BoundedShutdown | server/standard/resolver.go:105-170 | a cancelled loop with no later ResolveNow and no late timer completes at most two lookups, takes at most nine steps, and can only stop by returning, whatever other loops do |
| ResolverMachine.ShutdownStep | server/standard/resolver.go:105-128 | the lookup budget and the termination measure of a cancelled loop never grow, and shrink with its lookups and steps |
| ResolverMachine.StuckMeansReturned | server/standard/resolver.go:105-115 | a cancelled loop of a live process has a step to take exactly when it has not returned |
| ResolverMachine.CancelledIff | server/standard/resolver.go:147-170 | a loop is cancelled exactly when Close was called while that loop's Build was the latest |
| ResolverMachine.PanicOnlyOnBadTarget | server/standard/resolver.go:118-122 | a loop panics only if its target does not parse |
| ResolverMachine.RenderedSplitsBack | server/standard/resolver.go:130-134 | for a target that denotes (host, port), address k of an answer is IP k, a colon and that port; it splits back to the IP and that port exactly when the IP has no colon, so for every IPv4 answer |
| ResolverMachine.PushedIff | server/standard/resolver.go:129-143 | event by event, a ClientConn is told nothing but answers, each as one payload with the answer's IPs in order on the target's port, and an answer exactly when its IPs differ as a multiset from the loop's latest answer's or the loop received a token since that answer |
| ResolverMachine.LookupsArePaced | server/standard/resolver.go:105-128 | between any two lookups of a loop its timer fired or it received a token, and after a failed lookup it woke from its sleep before that |
| Resolver.ManageConnections | server/standard/resolver.go:100-145 | on every script of the environment's choices, the loop looks up, pushes, remembers and exits as the transition system's loop does |
| Resolver.TurnMeaning | server/standard/resolver.go:100-145 | every turn of the loop, on the script alone: until a select takes the context it looks up the target's host, and pushes the answer on the target's port exactly when its IPs differ as a multiset from the previous answer's or a token came since; then it returns and does nothing more |
| Resolver.BadTargetPanics | server/standard/resolver.go:117-122 | a target that denotes nothing panics in the first turn, before any lookup |
| Resolver.WithoutTokensOnlyChanges | server/standard/resolver.go:105-143 | a loop that never receives a token pushes only answers that differ in Addrs from the previous push, the first differing from empty |
| Resolver.BetterDNS.constructor | server/standard/resolver.go:38-44 | a new resolver is in the initial state of the machine |
| Resolver.BetterDNS.Build | server/standard/resolver.go:147-153 | simulates the machine's Build; the previous cancel function is overwritten |
| Resolver.BetterDNS.ResolveNow | server/standard/resolver.go:160-165 | simulates the machine's ResolveNow: the channel ends up holding exactly one token |
| Resolver.BetterDNS.Close | server/standard/resolver.go:168-170 | simulates the machine's Close on the context of the latest Build |
| Resolver.BetterDNS.Poll | server/standard/resolver.go:107-115 | the select of a loop finds its context or the channel ready exactly when the machine enables that step |
| Resolver.BetterDNS.Receive | server/standard/resolver.go:111-112 | simulates the machine's Receive: the token leaves the channel, which every other loop shares |
| Resolver.BetterDNS.OtherStepsKeepMirrors | server/standard/resolver.go:101-145 | every other step of any loop leaves the channel and the contexts as the machine has them |
| Addresses.SameAddresses | server/standard/resolver.go:75-98 | true exactly when the two lists have equal multisets of Addr, hence an equivalence relation |
| Addresses.AscendingIsCanonical | server/standard/resolver.go:84-92 | two ascending lists with the same elements are equal, which makes sort-and-compare decide multiset equality |
| Addresses.PermutationKeepsBag | server/standard/resolver.go:75-98 | permuting a list, or changing anything but Addr, leaves the compared multiset as it is |
| Target.ParseTargetIff | server/standard/resolver.go:53-73 | a target parses to (host, port) exactly when it is an IP literal with the default port, a host-port form with empty parts defaulted, or a host alone, bracketed or not; every condition on the text alone |
| Target.IsIPIff | server/standard/resolver.go:57-59 | an IP is recognised exactly when the text is a dotted IPv4 or an IPv6 literal by its surface |
| Target.IPv6Iff | server/standard/resolver.go:57-59 | IPv6 literals are eight groups of one to four hex digits, or at most seven around one double colon, either with a dotted IPv4 in place of the last two groups, and nothing else |
| Target.ParseIPv4Iff | server/standard/resolver.go:57-59 | a text parses to four bytes exactly when it is their rendering, so without leading zeros |
| Target.ParseTargetRefusesIff | server/standard/resolver.go:53-73 | exactly which targets are refused, and with which error |
| Target.ParseTargetNormalForm | server/standard/resolver.go:53-73 | joining a parsed nonempty colon-free host and its port and parsing again gives the same pair |
| Target.ParsedShape | server/standard/resolver.go:53-73 | a parsed port is nonempty without colon or bracket; the host is empty only for the target [] |
| Target.SplitHostPortIff | server/standard/resolver.go:60-71 | the split accepts exactly host:port and [host]:port and returns their parts |
| Target.IPColons | server/standard/resolver.go:57-59 | an IP literal with a colon has at least two, one without is a dotted IPv4 |
| Target.IPv4RoundTrip | server/standard/resolver.go:130-134 | a rendered IPv4 address parses back to its four bytes |
| Target.RenderedSplitsBackIff | server/standard/resolver.go:130-134 | host + ":" + port splits back exactly when the host holds no colon |
| RoundRobin.RoundRobinConnPool.Conn | conn.go:28-31 | advances the counter modulo 2^32 and returns the connection it selects modulo the 32-bit pool size, or panics exactly when that size is zero |
| RoundRobin.RoundRobinConnPool.Close | conn.go:33-45 | closes every connection, succeeds exactly when every one did, and otherwise returns the errors of the failing ones, each once, in their order |
| RoundRobin.FailuresIff | conn.go:33-45 | the collected errors are the failures at exactly the failing positions, ascending |
| RoundRobin.CountClosed | conn.go:28-31 | closed form of how often a connection is picked in k calls: full laps, last lap, minus the part before the start |
| RoundRobin.Fairness | conn.go:28-31 | over k calls from any counter, the pick counts of any two connections differ by at most the number of wraps plus one |
| RoundRobin.ExactShare | conn.go:28-31 | with no wrap every count is k/n rounded down or up |
| RoundRobin.SeamlessIff | conn.go:28-31 | no two counts ever differ by more than one exactly when the pool size divides 2^32 |
| RoundRobin.TwoLapsDiffer | conn.go:28-31 | for every other size, after two laps the first connection is two picks ahead of the last |
| RoundRobin.InterleavingKeepsPicks | conn.go:28-53 | however concurrent callers interleave, the multiset of picks depends only on the starting counter and the number of calls |
| Compression.FirstSupportedCompressor | server/standard/compression.go:61-71 | the nested loops return the first supported token of all values laid end to end, already trimmed |
| Compression.FirstInMeaning | server/standard/compression.go:61-71 | that token is the earliest supported one, and empty exactly when no token is supported |
| Compression.Handle | server/standard/compression.go:12-59 | rejects with the message, or forwards with the header, that the decision gives, and changes nothing else |
| Compression.DecideIff | server/standard/compression.go:12-59 | exactly what becomes of every request, messages included: an unencoded one is forwarded with one more value, its earliest supported offer over the three accept fields in order, or else identity, or an empty value behind a blank one; nothing else in the header changes |
| Compression.TokenIff | server/standard/compression.go:63-65 | a token is what stands before the first semicolon of an item, without the space around it |
| Compression.LinesAreOneLine | server/standard/compression.go:61-71 | several header lines offer what one line with their values joined by commas offers |
| Compression.TiersAreOneScan | server/standard/compression.go:41-53 | the three accept fields tried in turn are one scan over the three laid end to end |
| Compression.ForwardedIff | server/standard/compression.go:12-59 | exactly which requests are forwarded |
| Compression.AcceptanceIsMonotone | server/standard/compression.go:12-59 | a request accepted with some compressors is accepted with more |
| Compression.EnforcementOnlyRejects | server/standard/compression.go:47-52 | a request accepted with enforcement is accepted without it with the same header; enforcement turns away exactly those that name and offer nothing supported |
| Compression.SecondPassIff | server/standard/compression.go:12-59 | a forwarded request passes the handler again unchanged exactly when it is a health request, came with one nonblank encoding, or came with none and offers a supported compressor or identity is registered |
| Compression.BlankValueGrows | server/standard/compression.go:27-55 | a blank value gets a second blank value, which the next pass refuses |
| Compression.EnforcedMeansEncoded | server/standard/compression.go:12-59 | under enforcement the next handler sees exactly one supported value, exactly when the request did not come with one blank value |
| GoStrings.TrimSpaceDrops | server/standard/compression.go:64-64 | trimming drops space at the ends and nothing else |
| GoStrings.TrimSpaceIff | server/standard/compression.go:64-64 | the trimmed text is the only one with no space at its ends that differs from the text by space around it |
| GoStrings.SplitJoin | server/standard/compression.go:63-63 | splitting inverts joining pieces free of the separator |
| GoStrings.JoinSplit | server/standard/compression.go:63-63 | splitting loses nothing |
| Interceptors.BuildChain | server/standard/server.go:368-412 | the list is the pre interceptors, the isolation, the standard ones, the log one, the post ones |
| Interceptors.ChainMeaning | server/standard/server.go:368-432 | the composed chain is the pre interceptors around the isolation around all the rest |
| Interceptors.ApplyIff | server/interceptors.go:39-62 | an interceptor around any handler ends in a result exactly when a step-by-step trace does: each call to next in the world left so far, each resumption with what next returned in the world next left |
| Interceptors.ChainNeverPanics | server/interceptors.go:39-62 | if no pre interceptor panics when what it calls does not, no request panics out of the chain |
| Interceptors.PrePanicEscapes | server/standard/server.go:373-383 | when any pre interceptor panics, before, between or after its calls to next, and those outside it pass panics on, at most one panic leaves it and the request ends with that very panic |
| Interceptors.OutermostPanicEscapes | server/standard/server.go:373-383 | a panic of the outermost pre interceptor before it calls next is the result of the chain, and nothing is counted |
| Interceptors.PanicBecomesInternal | server/interceptors.go:41-89 | an inner panic becomes the Internal error with the panic value in its message, no response, counted once, unary and stream |
| Interceptors.OneRecoveryPerPanic | server/interceptors.go:50-51 | exactly one recovery is counted per panic that reaches the isolation, on the request's method, for any interceptors and handler |
| Interceptors.ObservedIsTheChain | server/standard/server.go:368-432 | the observation the count is stated with changes nothing but its own log |
| Interceptors.IsolationIsTransparent | server/interceptors.go:59-60 | on a request whose inner part does not panic, the chain does what it would without isolation |
| Health.Watch | server/health.go:65-86 | messages, exit and waits of the loop, for either initial status |
| Health.StreamIsDedup | server/health.go:65-86 | the sent sequence is the checked statuses with adjacent repeats removed, and a strict prefix of it after a send error |
| Health.StreamEnds | server/health.go:65-86 | for every script, which turn ends the stream and how: the first change that cannot be sent, or the context before that, or none; and what had been sent by then |
| Health.DedupIff | server/health.go:69-82 | de-duplication is the only sequence without adjacent repeats that the statuses stutter |
| Health.ClientAgrees | server/health.go:65-99 | after every check, a client keeping the last message knows the last status |
| Health.StreamsAgree | server/connectrpc/health.go:45-68 | the two streams agree except for one leading SERVICE_UNKNOWN on the Connect stream exactly when the first check fails |
| Termination.AbsorbingIff | server/standard/server.go:194-209 | from a terminating state, at most one NOT_SERVING and nothing else is sent in every continuation exactly when no older check is in flight |
| Termination.StaleCheckSpeaks | server/standard/server.go:194-209 | from every state with an older check in flight, a message other than NOT_SERVING followed by NOT_SERVING can be sent |
| Termination.TerminationIsAbsorbing | server/standard/server.go:194-209 | in every run, after termination began, an older check adds at most one message before the one NOT_SERVING |
| Termination.StaleCheckSpeaksOnce | server/standard/server.go:194-204 | a terminating state with an older check in flight is reachable: a run from the start that sends SERVING, then NOT_SERVING |
| Termination.RunIsDedup | server/health.go:65-86 | without send errors every run sends the de-duplication of the statuses of its finished checks |
| Termination.RunIsStream | server/health.go:65-86 | in every run, what has been sent and whether Watch has ended are what the loop gives on the turns so far |
| Termination.CheckedStatusIff | server/standard/server.go:194-209 | in every run, a finished check makes the status NOT_SERVING if termination began before the check did, else what the user's check says, SERVICE_UNKNOWN when it fails or is missing |
| Errors.ObfuscateConnectWebError | server/connectrpc/error.go:112-130 | the two loops produce a result of the obfuscation relation, for every order of the metadata |
| Errors.ObfuscateError | server/connectrpc/error.go:90-110 | after the mapper, if there is one, the result is what ObfuscatesIff says of the tree of errors; a mapper's nil gives code OK with an empty message |
| Errors.ObfuscatesIff | server/connectrpc/error.go:90-130 | exactly the results for every tree of errors, by position: the first Connect error, outermost and leftmost, keeps everything but a sensitive message; without one, the first status gives the code, Unknown if there is none, and its own message shows at the root, the whole text when wrapped, neither when sensitive |
| Errors.AsMeaning | server/connectrpc/error.go:95-97 | the search for a kind of error finds its first position in the tree, and fails exactly when there is none |
| Errors.ObfuscationIsIdempotent | server/connectrpc/error.go:90-130 | obfuscating a result again gives the same result |
| Errors.MetadataKeptIff | server/connectrpc/error.go:123-127 | every metadata list is kept exactly when no two names collide in canonical form |
| Errors.CanonIff | server/connectrpc/error.go:123-127 | the canonical form letter by letter: capitals start words and the rest is small in a valid name, an invalid one is kept |
| Errors.CollideIff | server/connectrpc/error.go:123-127 | two names share a canonical form exactly when they are equal, or both valid and equal up to case |
| Errors.CanonicalResultIsUnique | server/connectrpc/error.go:112-130 | for canonical names the result does not depend on the order of iteration, and drops only empty lists |
| Errors.SeverityMeansHidden | server/connectrpc/error.go:69-110 | for any tree of errors, the result is logged as Error exactly when it would be the same for every text and message in the tree |
| Errors.WrappingIsHiddenIff | server/connectrpc/error.go:90-110 | wrapping an error in more context, whatever the text, leaves the result as it is exactly when a Connect error is inside or the message is hidden |
| SizeLogger.SizeLoggingHandler.HandleRPC | size_logger.go:39-77 | a payload updates and, when the limit is reached, reports and resets the accumulators; anything else changes nothing |
| SizeLogger.WindowsAreExact | size_logger.go:39-77 | with a positive limit, report j holds the sums, 64-bit wait and duration of window j's own payloads, the first window included, and the accumulators those after the last full window |
| SizeLogger.WindowCounts | size_logger.go:46-51 | after k payloads there are floor(k/limit) reports and k mod limit payloads pending |
| SizeLogger.Conservation | size_logger.go:46-75 | for every limit, reports plus accumulators are the totals received |
| SizeLogger.SumIsAdditive | size_logger.go:47-49 | the sums the windows are stated with are additive and give a single payload its own size |
| SizeLogger.ReportsIff | size_logger.go:51-51 | something is reported exactly when the limit is positive and reached |
| SizeLogger.WaitIsExact | size_logger.go:44-45 | from the second window on, the reported wait is the sum over the window of the time from the receipt before to the wait check, when the span fits 64 bits; beyond that a long gap counts as the longest duration and the sum wraps around |
| SizeLogger.WaitBound | size_logger.go:44-45 | from the second window on, the wait is at most the time between the last receipts of the two windows, and not negative unless that time exceeds 64 bits |
| SizeLogger.FirstWindowWait | size_logger.go:44-45 | the first window's wait is the longest duration when nothing is waited after its first payload, and negative otherwise |

## Left out

- Server launch, listeners, TLS, routing, CORS, reflection, xDS, tracing and the shutdown paths: I/O and foreign contracts.
- Option setters, code-to-level tables, `logging.go`, `AsGRPCError`: settled by reading a branch.
- `Check`, `List`, and the HTTP health body: they return one branch of the modelled check.
- SizeLogger.WindowsAreExact: does not model 64-bit wrap-around of the byte totals and of the message count, nor of the reported duration.
- Resolver.ManageConnections: models a lookup, the comparison and the update as one turn; time, received tokens and cancellation are choices of the script.
- ResolverMachine.BoundedShutdown: assumes a fresh five-second timer is not ready in a select entered after cancellation, and says nothing about lookups that never end.
- Interceptors.BuildChain: the standard interceptors (tags, prometheus, zap, log) are arbitrary strategies, and a panic value is its printed form.
- Errors.ObfuscateError: leaves out error types with their own `As` or `Is` method and the wire flag of a Connect error.
- Byte order of strings: Go sorts addresses by bytes and the model by characters; both are total orders, and the result does not depend on which.
- `Close` before any `Build`, which calls a nil function.
- Header names of the compression handler are four fixed fields; canonicalisation of header names is modelled for error metadata only.
- Data races on `SizeLoggingHandler` and on `cancelContext`: these objects are modelled sequentially.
