# Another Rust Load Balancer: a model and what is proved of it

The load balancer decides, for every request, which backend pool it belongs to, which of the
pool's servers gets it, and what happens to request and response on the way. This project models
those decisions and proves their behaviour for all inputs, all histories and all interleavings.

| file | what it models |
|---|---|
| `MatcherParser.dfy`, `MatcherGrammar.dfy`, `MatcherTheorems.dfy` | the rule language of backend pools: its PEG parser, an independent grammar of concrete syntax trees, and the equivalence of the two |
| `RateLimiter.dfy` | the rate limiter: one insertion-ordered map shared by all clients, evicted lazily |
| `LeastConnection.dfy` | least-connection selection and the stream wrapper that reports opened and dropped connections |
| `RoundRobin.dfy` | round-robin selection with its `u32` counter |
| `Balancing.dfy` | request forwarders, nested strategies, sticky cookies over many requests |
| `Negotiation.dfy` | Accept-Encoding negotiation with weights in thousandths (sections 5.3.1 and 5.3.4 of RFC 7231) |
| `MiddlewareChain.dfy` | the recursive middleware chain, compression and error pages, the loop that builds the chain |
| `LimitedChain.dfy` | what a rate limiter in a chain means for the backend behind it |
| `Routing.dfy` | pool choice, working addresses read while health changes, the whole path to a response |
| `AcmeStore.dfy` | the challenge store under concurrent receive loops (section 8.3 of RFC 8555) |
| `Text.dfy`, `Wrappers.dfy` | shared helpers |

Classes stand for objects the program updates in place (limiter, strategies, connector, challenge
handler, health cells as an array); everything else is functions on values. A panic of the program
is a `None` (or `Panic`) result, never a precondition. Regular expressions, HTTP methods, cookie
text, codecs, LDAP, files, clocks and random draws are parameters, so every theorem holds for
every behaviour they may have.

What the proofs found, each with a concrete case and the exact condition:

- The documentation says a client is rejected if it sends more than `limit` messages within
  `window_sec` seconds. That only such a client is rejected holds exactly for the limits 0 and 1
  and at `u64::MAX` (`OnlyBurstsRejectedExactly`): for every limit in between, steady requests are
  rejected although no window holds more than two of them (`RejectionWithoutBurst`).
- The bound of `limit` admissions per window holds for every limit below `u64::MAX` and for no
  other (`BoundHoldsExactlyBelowCeiling`). A configured limit is an `i64`, so it is always below.
- Least-connection selection fails on some reachable states once health shrinks the working set
  (`UnhealthyMinimumFails`); `SelectionDomain` says exactly when it succeeds. On the full pool it
  fails only if an address is configured twice (`SelectsLeastLoaded`, `RepeatedAddressFails`).
- Where it succeeds it may still prefer a busy server to one never used (`BusyServerPreferred`);
  `LeastLoadedExactly` says exactly when the pick is least loaded.
- The documentation says that of all least-loaded servers a random one is drawn. An idle server
  that was used before can be left out (`IdleServerLeftOut`); `TiesDrawnExactly` says exactly when
  the draw is from all of them.
- A request can be answered 502 although its only server was healthy or slow at every moment
  (`RecoveryMissed`). Without unresponsive moments this happens exactly if every server was read
  as slow first and as healthy later (`MissedExactly`, `MissedMeansRecovery`); one steady server
  rules it out (`SteadyServerFound`).
- A weight may carry a plus sign, which integer parsing admits, and then counts a tenth: `q=0.+5`
  is worth 50 thousandths (`WeightExact` gives all accepted weights).
- A token stored twice with different proofs is answered with the earlier one
  (`RepeatedTokenMismatch`); `ServedExactlyIfAgreeing` says exactly when every stored challenge is
  answered with its own proof.

## Model

| member | source | states |
|---|---|---|
| `MatcherTheorems.ParserExact` | src/backend_pool_matcher.rs:109-177 | the parser accepts a text with a given matcher if and only if the text is a rendering of that matcher in the grammar, which spells keywords, operators and blanks itself: blanks where allowed, redundant brackets, mandatory brackets around nested operators, nothing after the end |
| `MatcherTheorems.OperatorsMean` | src/backend_pool_matcher.rs:148-154 | for all values `l` and `r`, the text of `l`, then ` && `, then the text of `r` parses to `And` of their meanings, and with two vertical bars to `Or` |
| `MatcherTheorems.KeywordsMean` | src/backend_pool_matcher.rs:121-146 | `Host(`, `Path(` and `Query(` with quoted arguments parse to the matcher of that name and argument, exactly for arguments not ending in a backslash |
| `MatcherTheorems.CheckedKeywordsMean` | src/backend_pool_matcher.rs:125-142 | `Method(`, `HostRegexp(` and `PathRegexp(` do so exactly if moreover the crate accepts the argument |
| `MatcherTheorems.ValueComplete` | src/backend_pool_matcher.rs:160-168 | every value of the grammar is read whole with its meaning, whatever text follows |
| `MatcherTheorems.ValueSound` | src/backend_pool_matcher.rs:160-168 | whatever `value()` reads is the text of a syntax tree with the meaning it returns |
| `MatcherTheorems.ExprComplete` | src/backend_pool_matcher.rs:148-154 | a chain is read whole despite ordered choice; a single value is, if no operator follows |
| `MatcherTheorems.PrefixLocality` | src/backend_pool_matcher.rs:160-168 | appending any text to the input of `value()` changes only what is left unread |
| `MatcherTheorems.RulesUnambiguous` | src/backend_pool_matcher.rs:109-177 | no text is a rendering of two matchers |
| `MatcherTheorems.PrintParse` | src/backend_pool_matcher.rs:109-177 | printing then parsing is the identity exactly on matchers whose literals a rule can carry, and no other matcher is ever produced |
| `MatcherTheorems.ParsePrintParse` | src/backend_pool_matcher.rs:109-177 | printing an accepted rule does not change what it parses to |
| `MatcherTheorems.LongChainsRejected` | src/backend_pool_matcher.rs:148-177 | an unbracketed chain of operands is accepted if and only if it has at most two |
| `MatcherTheorems.TrailingBlanksRejected` | src/backend_pool_matcher.rs:109-111 | an accepted rule with blanks appended is rejected |
| `MatcherTheorems.LiteralBijection` | src/backend_pool_matcher.rs:113-119 | quoted literals and strings not ending in a backslash correspond one to one |
| `MatcherGrammar.LiteralExact` | src/backend_pool_matcher.rs:113-119 | a literal is read with a given value and rest exactly if the text is the value's quoted form followed by the rest |
| `MatcherGrammar.EscapeInjective` | src/backend_pool_matcher.rs:113-119 | different strings have different escaped forms, also with runs of backslashes before quotes |
| `MatcherTheorems.MatchesByAlternatives` | src/backend_pool_matcher.rs:67-93 | a nested rule matches exactly if one of its alternatives (its disjunctive form) has all its exact conditions among the facts listed from the request and all its regular expressions accepted |
| `MatcherTheorems.SingleConditions` | src/backend_pool_matcher.rs:67-91 | every request is matched by exactly one `Method` and `Path`, and by one `Host` and one `Query` per key if it has that part, else by none; a regular expression is asked about the path, or about a visible host |
| `MatcherTheorems.ExactRuleMatches` | src/backend_pool_matcher.rs:67-93 | the conjunction of a request's conditions matches exactly the requests that agree with it on verb, path, host and those query values |
| `MatcherTheorems.ExactRuleText` | src/backend_pool_matcher.rs:44-93 | the same from text to verdict: the exact rule, printed and parsed |
| `MatcherTheorems.MatchesReadsMentioned` | src/backend_pool_matcher.rs:67-93 | requests that agree on the parts a rule mentions are treated alike by it |
| `RateLimiting.RateLimiter.RegisterRequest` | src/middleware/rate_limiter.rs:25-51 | the request is admitted exactly if the saturated length of the client's own latest run is within the limit; the map is that of the extended history |
| `RateLimiting.RateLimiter.EvictStale` | src/middleware/rate_limiter.rs:29-37 | collecting and removing the leading stale entries leaves what a scan of the whole map would leave |
| `RateLimiting.RateLimiter.CountAndInsert` | src/middleware/rate_limiter.rs:39-48 | the client's entry moves to the end with its count raised by one, up to the ceiling, and the current time; the other entries keep their order |
| `RateLimiting.EarlyStopIsFullScan` | src/middleware/rate_limiter.rs:29-37 | in a time-sorted map the early stop loses no stale entry |
| `RateLimiting.MapShape` | src/middleware/rate_limiter.rs:39-48 | after every history the map has one entry per client, in nondecreasing time order |
| `RateLimiting.MapTracks` | src/middleware/rate_limiter.rs:25-48 | after every history the shared map knows of each client its latest run, or has forgotten a client that has been silent for too long |
| `RateLimiting.AdmittedByRun` | src/middleware/rate_limiter.rs:25-51 | the decision on any request equals the comparison of the limit with the saturated length of the client's latest run |
| `RateLimiting.ClientsIndependent` | src/middleware/rate_limiter.rs:25-51 | two histories that agree on a client's own times give that client the same decision |
| `RateLimiting.RunLengthIsLatestRun` | src/middleware/rate_limiter.rs:29-47 | the run length is that of the one maximal run, ending now, without a gap of more than the window |
| `RateLimiting.UnitsExact` | src/middleware/rate_limiter.rs:31-47 | an age is within the window exactly if it is below one more than that many times 10^9 nanoseconds; counters stop at 2^64 - 1 |
| `RateLimiting.SlidingWindowBound` | src/middleware/rate_limiter.rs:29-50 | a client is admitted at most `limit` times in any stretch of `window_sec` whole seconds |
| `RateLimiting.BoundHoldsExactlyBelowCeiling` | src/middleware/rate_limiter.rs:44-50 | the bound holds for all histories if and only if the limit is below the counter's ceiling |
| `RateLimiting.RejectedUntilPause` | src/middleware/rate_limiter.rs:29-50 | between a rejected and a later admitted request of a client there is a pause of more than the window |
| `RateLimiting.RejectionWithoutBurst` | docs/middlewares.md:65-65 | for every limit from 2 to below the ceiling and every window, a history that is rejected although no window holds more than two requests |
| `RateLimiting.OnlyBurstsRejectedExactly` | docs/middlewares.md:65-65 | that every rejection has a window with more than `limit` requests of the client holds for all histories if and only if the limit is 0, 1 or the ceiling |
| `LeastConnections.LeastConnection.OnTcpOpen` | src/load_balancing/least_connection.rs:22-27 | the authority's counter, zero if absent, goes up by one; nothing else changes |
| `LeastConnections.LeastConnection.OnTcpClose` | src/load_balancing/least_connection.rs:29-34 | the authority's counter, one if absent, goes down by one; nothing else changes |
| `LeastConnections.NotifyConnector.Call` | src/http_client.rs:100-113 | an established connection is counted and conservation is kept; a failed one changes nothing |
| `LeastConnections.NotifyConnector.DropStream` | src/http_client.rs:40-45 | dropping a stream uncounts it and conservation is kept |
| `LeastConnections.OpenConserves` | src/load_balancing/least_connection.rs:22-27 | opening a stream keeps every counter equal to the live streams to its authority, and their sum equal to all of them |
| `LeastConnections.CloseConserves` | src/load_balancing/least_connection.rs:29-34 | dropping a live stream keeps conservation; its counter exists and is positive, so neither fallback nor underflow occurs |
| `LeastConnections.RunsConserve` | src/http_client.rs:100-113 | in every state reachable with any working sets the counters are exact and belong to selected pool addresses |
| `LeastConnections.LeastConnection.AddressIndices` | src/load_balancing/least_connection.rs:40-67 | the indices drawn from are exactly those of the unseen addresses or of the minimum-count keys; it fails exactly if such a key is not a working address |
| `LeastConnections.LeastConnection.SelectBackend` | src/load_balancing/least_connection.rs:36-76 | selection succeeds exactly on its domain and returns the candidate at the drawn index of a list that has an index for every candidate and for nothing else |
| `LeastConnections.EveryCandidateDrawn` | src/load_balancing/least_connection.rs:69-75 | every candidate comes up for some draw from such a list |
| `LeastConnections.SelectionDomain` | src/load_balancing/least_connection.rs:40-75 | on every list, repeated addresses included, selection succeeds if and only if, while unseen addresses are preferred, one is there, and otherwise every minimum-count key is a working address; on a nonempty list without repetition the preferred unseen address exists by pigeonhole |
| `LeastConnections.SelectsLeastLoaded` | src/load_balancing/least_connection.rs:36-76 | after every run, whatever worked before, every candidate of a selection on the full pool has the fewest live streams; it fails exactly if the pool repeats an address and every address has a counter, so never on distinct addresses |
| `LeastConnections.RepeatedAddressFails` | src/load_balancing/least_connection.rs:69-75 | a reachable state in which a pool listing an address twice cannot select |
| `LeastConnections.LeastLoadedExactly` | src/load_balancing/least_connection.rs:40-67 | after every run and for every working set selection succeeds on, the candidates are least loaded if and only if there are more addresses than counters, or all addresses have a counter, or some counter is zero |
| `LeastConnections.BusyServerPreferred` | src/load_balancing/least_connection.rs:40-66 | a reachable state in which selection succeeds with a busy server although an unused one works |
| `LeastConnections.TiesDrawnExactly` | docs/lb_strategies.md:13-17 | after every run and for every working set selection succeeds on, exactly when the candidates are all the least-loaded addresses |
| `LeastConnections.IdleServerLeftOut` | docs/lb_strategies.md:13-17 | a reachable state in which a least-loaded address is no candidate |
| `LeastConnections.UnhealthyMinimumFails` | src/load_balancing/least_connection.rs:65-65 | a reachable state in which a smaller working set makes selection fail |
| `RoundRobins.RoundRobin.SelectBackend` | src/load_balancing/round_robin.rs:19-24 | the counter moves to the next index and that address is returned; it fails exactly on a length that is a multiple of 2^32 and on every call after such a failure |
| `RoundRobins.CounterSafe` | src/load_balancing/round_robin.rs:21-22 | over every sequence of list lengths the increment stays within `u32` and the index within its list, as long as no length is a multiple of 2^32 |
| `RoundRobins.SeriesFollowsPicks` | src/load_balancing/round_robin.rs:19-24 | after any earlier calls, a series of calls on equally long lists walks through consecutive indices |
| `RoundRobins.ExactShare` | src/load_balancing/round_robin.rs:19-24 | how often an index is picked in any number of calls, exactly |
| `RoundRobins.Fair` | src/load_balancing/round_robin.rs:19-24 | `n` calls on `n` addresses pick every index once; after any number of calls two indices differ by at most one |
| `RoundRobins.RoundServesByMultiplicity` | src/load_balancing/round_robin.rs:19-24 | one round serves every address as often as it is listed |
| `Balancing.SelectsWorking` | src/load_balancing/mod.rs:27-27 | every nest of strategies picks a working address, and succeeds exactly if a layer hits or the addresses are in the core strategy's domain |
| `Balancing.NestedAddress` | src/load_balancing/sticky_cookie.rs:71-83 | with a hit, selection succeeds with the address of the outermost one; without, it does what the core strategy does |
| `Balancing.CoreChoice` | src/load_balancing/round_robin.rs:19-24 | what each bare strategy picks and becomes: the drawn index, the index of the client's hash, a least-connection candidate, the next position of round robin with the counter moved there |
| `Balancing.SelectionExact` | src/load_balancing/sticky_cookie.rs:71-83 | for every nest: a hit picks the outermost hit's cookie value and leaves the whole nest as it was; without a hit the layers stay and the core picks and moves on as it would alone |
| `Balancing.NestedCounter` | src/load_balancing/round_robin.rs:19-24 | over every run of selections through any nest over round robin, its counter and its poisoning are those of the bare strategy called once per selection that missed every layer |
| `Balancing.NestedTurns` | src/load_balancing/round_robin.rs:19-24 | the selections that miss every layer walk through the working addresses in turn, however many hits come in between |
| `Balancing.NestedRound` | src/load_balancing/round_robin.rs:19-24 | as many misses as there are working addresses serve every address as often as it is listed |
| `Balancing.NestedCookies` | src/load_balancing/mod.rs:76-84 | the response keeps everything it had and gains one cookie per layer outside the first hit, inner layers first |
| `Balancing.FirstNamedExact` | src/load_balancing/sticky_cookie.rs:35-46 | the cookie found is the first piece that parses to the sticky name, and none is found only if there is none |
| `Balancing.StickyValueExact` | src/load_balancing/sticky_cookie.rs:35-46 | for every header, given by the pieces between its semicolons, the sticky value is that of the first piece that parses to the name, and none exactly if no piece does; none without a header |
| `Balancing.FirstNamedFinds` | src/load_balancing/sticky_cookie.rs:35-46 | among any other cookies, parsable or not, the sticky cookie's value is found |
| `Balancing.StickyRound` | src/load_balancing/sticky_cookie.rs:71-83 | while its backend works, an echoing client's request succeeds and stays; otherwise it gets a new cookie naming the new backend |
| `Balancing.StickyRun` | src/load_balancing/sticky_cookie.rs:48-83 | over whole runs, whatever the inner strategy and whatever other clients do to it between the rounds, no round fails and the backend and cookie stay the same while the backend stays a working address |
| `Negotiation.FirstBestWins` | src/middleware/compression.rs:113-124 | for every header or none: the chosen encoding is that of the first listed offer of greatest weight; none is chosen exactly if there is no header, it is not visible text, or no item offers a supported coding |
| `Negotiation.OfferExact` | src/middleware/compression.rs:118-131 | an item, trimmed and all, yields a coding and a weight exactly if it is that coding's name, alone or with a semicolon and a text of that weight, among blanks and tabs |
| `Negotiation.WeightExact` | src/middleware/compression.rs:137-145 | the accepted weights and their worth, and no others: `q=1`, `q=0.` with up to three digits as thousandths, and the signed form that integer parsing admits |
| `Negotiation.ReversedMaximumIsFirst` | src/middleware/compression.rs:120-123 | reversing before taking the last maximum finds the first maximum |
| `Negotiation.ItemExact` | src/middleware/compression.rs:126-131 | an item parses to a coding and a weight exactly if it is the name alone, with full weight, or the name, a semicolon and a text of that weight |
| `Negotiation.TrimExact` | src/middleware/compression.rs:119-119 | blanks around an item are dropped, and nothing else |
| `Text.SplitThenJoin` | src/middleware/compression.rs:118-118 | splitting loses nothing and leaves no separator in a part |
| `Text.JoinThenSplit` | src/load_balancing/sticky_cookie.rs:38-38 | splitting finds exactly the separator-free parts that were joined |
| `Negotiation.FractionalWeight` | src/middleware/compression.rs:137-145 | a weight of `0.` and up to three digits is accepted exactly if not zero, and is then the exact number of thousandths |
| `Negotiation.WeightOrderIsDecimalOrder` | src/middleware/compression.rs:133-137 | comparing weights as integers is comparing the written decimals |
| `Negotiation.WeightRange` | src/middleware/compression.rs:137-145 | every accepted weight lies in 1 to 1000, and only `q=1` weighs 1000 |
| `MiddlewareChains.ChainIsTwoPass` | src/middleware/mod.rs:33-46 | the recursion equals a walk down to the first early answer and a walk up from there, contacting the backend once if nobody answered early and never otherwise |
| `MiddlewareChains.FirstRefusalDecides` | src/middleware/mod.rs:39-45 | the first shipped middleware to refuse decides status and headers and keeps the request from the backend; if none refuses, the backend gets the request unchanged, once, and the client its status, headers and cookies, or 502 if it does not answer |
| `MiddlewareChains.PayloadOf` | src/error_response.rs:17-62 | unless an error page replaces it, the payload is that of the backend, of the refusing middleware, or empty on 502 |
| `MiddlewareChains.OwnMiddleware` | src/middleware/mod.rs:33-46 | a middleware that implements only the two hooks: its early answer is final, else the rest gets its request and the client its response |
| `MiddlewareChains.ContentConsistent` | src/middleware/compression.rs:44-66 | through every chain of shipped middlewares, truthful content headers stay truthful |
| `MiddlewareChains.RiseCoding` | src/middleware/compression.rs:27-41 | the exact content coding of the final response, for every chain and every coding it starts with |
| `MiddlewareChains.RisePage` | src/middleware/custom_error_pages.rs:50-70 | of several replacing error pages the outermost one is shown |
| `MiddlewareChains.ClientReceives` | src/middleware/mod.rs:116-130 | status, headers, coding and payload of the final response, exactly: the preferred coding once, iff a compression is not undone by an error page above it |
| `MiddlewareChains.NoneAdded` | src/middleware/compression.rs:27-41 | a client that asks for no coding gets through every shipped chain the origin's coding, or none if a page replaced it, and never an added one |
| `MiddlewareChains.BuildChain` | src/configuration.rs:454-467 | the reversed loop yields the convertible table entries in table order |
| `MiddlewareChains.EntriesInOrder` | src/configuration.rs:454-467 | those entries are the conversions of the convertible positions, in increasing order, each once |
| `LimitedChains.ForwardedExactly` | src/middleware/mod.rs:33-46 | the backend is contacted if and only if every shipped middleware lets the request through |
| `LimitedChains.BackendProtected` | src/middleware/rate_limiter.rs:54-67 | over every history of requests through shipped chains with a limiter anywhere in them, the backend is contacted for one client at most `limit` times in any stretch of `window_sec` whole seconds |
| `Routing.FirstEligiblePool` | src/server.rs:139-146 | the pool found is the first that supports the scheme and matches; none is found exactly if none does |
| `Routing.CheckRound` | src/health.rs:78-97 | after a round every cell holds the class of its probe |
| `Routing.ClassifyExact` | src/health.rs:99-125 | each class, with the time or status it carries, is stored exactly for the probes that measured it |
| `Routing.WorkingWasObserved` | src/server.rs:99-116 | under every interleaving with health stores, a working address was healthy or slow at some moment of the request |
| `Routing.HavingInOrder` | src/server.rs:101-116 | the working addresses are those at the positions loaded with the class, in configuration order, an address configured twice counting twice |
| `Routing.MissedExactly` | src/server.rs:101-120 | if no server is unresponsive during the request, nothing works exactly if every server was loaded as slow in the first pass and healthy in the second |
| `Routing.MissedMeansRecovery` | src/server.rs:101-120 | then every server was slow at one moment of the request and healthy at a later one |
| `Routing.SteadyServerFound` | src/server.rs:101-120 | a server healthy throughout or slow throughout keeps the request from failing |
| `Routing.QuietRequest` | src/server.rs:101-120 | without stores, the working addresses are the healthy ones, else the slow ones; none works exactly if all are unresponsive |
| `Routing.ProbesDecide` | src/health.rs:99-125 | after a round of checks, servers with timely success are used, slower ones only if there are none, and nothing works exactly if no server succeeded |
| `Routing.RecoveryMissed` | src/server.rs:101-120 | an interleaving that finds no working address although the only server was never unresponsive |
| `Routing.RoutedToObserved` | src/server.rs:94-134 | a forwarded request goes to an address of the first eligible pool seen healthy or slow during the request; 502 exactly if nothing works, and a panic exactly if no layer hits and the core strategy is outside its domain |
| `Routing.RoutedByStrategy` | src/server.rs:94-134 | a forwarded request goes to the outermost sticky hit's cookie value and leaves the pool's strategy as it was, or, without a hit, where the core strategy chooses, for round robin the next position, with the core moved on |
| `Routing.NotFoundExactly` | src/server.rs:94-134 | 404 exactly if no configured pool supports the scheme and matches |
| `Routing.ClientResponse` | src/server.rs:126-129 | end to end from the routing decision: the response of the routed address through the pool's chain, with consistent content, the origin's status and headers, and exactly the cookies of the sticky layers that missed after those already there; the request is sent unchanged and at most once |
| `AcmeStore.AcmeHandler.AddChallenge` | src/acme.rs:32-39 | the challenge is appended |
| `AcmeStore.AcmeHandler.GetProofForChallenge` | src/acme.rs:41-44 | the proof of the first challenge with the token |
| `AcmeStore.AcmeHandler.RemoveChallenge` | src/acme.rs:46-52 | the first challenge with the token is removed, the others keep their order |
| `AcmeStore.AcmeHandler.ReceiveLoop` | src/acme.rs:114-124 | the loop returns the first certificate and leaves every token stored as often as before, and the very same store if its tokens are new; it fails exactly if there is none, leaving the last challenge with its proof at the end |
| `AcmeStore.RunsConserve` | src/acme.rs:114-124 | under every interleaving of loops, also with channels that close early, each token is stored as often as loops have a challenge with it |
| `AcmeStore.LoopsFollow` | src/acme.rs:114-124 | under every interleaving each loop is where its own messages bring it: waiting on its last challenge, returned only on a certificate |
| `AcmeStore.MessageHandled` | src/acme.rs:114-124 | a message is dealt with by removing the stored challenge and then returning or storing the new one; a closed channel leaves the stored one behind |
| `AcmeStore.NothingLeftBehind` | src/acme.rs:114-124 | once no loop has a stored challenge, the store is empty |
| `AcmeStore.RunsServe` | src/acme.rs:114-124 | while no token is stored with two proofs, lookup yields the own proof of every loop with a stored challenge |
| `AcmeStore.ServedExactlyIfAgreeing` | src/acme.rs:32-52 | every loop with a stored challenge is answered with its own proof at every moment if and only if no loop stores a token already stored with another proof |
| `AcmeStore.RepeatedTokenMismatch` | src/acme.rs:41-44 | a run in which a waiting loop's token is answered with an earlier proof |
| `AcmeStore.AnsweredExactlyWhileHeld` | src/acme.rs:131-147 | under every interleaving, a token is answered 200 exactly while some loop holds it, and 404 otherwise |
| `AcmeStore.RespondExact` | src/acme.rs:127-147 | exactly the paths below `/.well-known/acme-challenge/` are answered, with the proof stored for what follows the last slash, and else with 404 |
| `AcmeStore.ProofServedDuringWait` | src/acme.rs:127-147 | a request for the well-known path of a loop with a stored challenge is answered 200 with its proof |

## Left out

- Listeners, TLS, start-up, logging and configuration decoding: no property of their own; the conversion of a table entry to a middleware is a parameter of `BuildChain`.
- The forwarding headers added by `backend_request`: the backend is modelled as a function of the request that reaches the end of the chain.
- LDAP authentication, HTTPS redirection and body-size checks: accept, or answer early without content headers, with the decision as a parameter.
- HEAD requests, whose Content-Length does not describe the body sent.
- The quality of random draws and of the client hash: both are parameters of selection.
- Least-connection inside a sticky cookie: the sticky strategy does not pass on the connection callbacks, so nothing is claimed about minimality there.
- The address check in `HeaderValue::from_str(...).unwrap()` of the sticky cookie: addresses are assumed to be formattable; `StickyRun` further assumes they survive formatting and parsing.
- The time between sending an ACME challenge and storing it, which depends on external scheduling.
- LimitedChains.BackendProtected: requests are taken in the order in which they take the limiter's lock, because that is where the clock is read.
- LeastConnections.RunsConserve: fewer than 2^64 streams are live at once, because every live stream occupies memory.
- LeastConnections.SelectsLeastLoaded: the selection itself sees the full pool, because `BusyServerPreferred` and `UnhealthyMinimumFails` show it false otherwise; `LeastLoadedExactly` and `SelectionDomain` give the exact conditions for every list of addresses.
- AcmeStore.RunsServe: stated for tokens not stored with another proof, because `ServedExactlyIfAgreeing` shows it false for all other runs.
- RateLimiting.RateLimiter.RegisterRequest: assumes a monotonic clock, as the source's `Instant` does.
