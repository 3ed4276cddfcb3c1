# Models and proofs for goplusplus

goplusplus is a Go web framework. This project models the parts of it whose
correctness is not visible in any one function body, and proves what they are
for: the radix router, the two idempotency stores and the protocol the
middleware runs over them, the transactional outbox, the search engine with its
SQL compiler, the token-bucket rate limiter, and eight smaller components.

Where the source changes state step by step the model does too: classes with the
source's fields, its loops with invariants, and a postcondition that ties the
new state to a function of the old one. The lemmas then say what those functions
mean. Clocks, random numbers, publishers and library code are parameters.

## How it is organised

| area | files |
|---|---|
| router | RoutePatterns (patterns, matching, the linear scan of a route list), RouteMeaning (what a match says about the texts of route and path), TreeShape (what links, paths and handlers of a tree must satisfy, on snapshots), TreeLookup (one step of a lookup), RadixTree (the tree and its methods) |
| idempotency | IdempotencyRecords (the atomic record), RedisIdempotencyStore (SETNX, WATCH and EXEC under interference), MemoryIdempotency and MemoryIdempotencyStore (the map with its order list), IdempotencyDeadlines (how long it remembers, and whom it evicts), IdempotencyProtocol (all interleavings of requests), ResponseBuffer (recording and replaying responses) |
| outbox | OutboxTable (the SQL statements), OutboxProtocol (workers, crashes and the clock as a state machine), Outbox (the worker's code over the shared table) |
| search | SearchModel (values, filters, the in-memory evaluator), SqlConditions (three-valued evaluation over a JSON row), SearchCompiler (filters to SQL), FilterValues (what a filter asks of values), RequestDefaults (defaults and limits of a request), SearchOrder, SearchFacets, SearchPaging, SearchBackend, SearchResource, Cursor, Decimal |
| rate limiter | TokenBucket (the arithmetic of one bucket map), LateRequests (runs in which late requests exceed the bound), RateLimiterRuns (whole runs with evictions, and when the promise holds), GreedyLimiter (when a request is refused), RateLimiter (the closure's state) |
| cache | CacheSequence (the insertion-ordered sequence), BoundedCache (map and key list), OrderedKeys (shared facts about key lists) |
| others | HandlerChain, GraphQLComplexity, Ids and Lexicographic, Migrations, CircuitBreaker, Identity and Tokens, WebSocketFrames, Sorting, Numbers, Options |

## What the proofs found

* A request reads the clock before it waits for the limiter's lock, so stamps can
  reach the buckets out of order. On all runs of at most n clients whose stamps are at
  most `late` behind the newest, the limiter keeps its bound (capacity plus rate times
  the window) exactly when the capacity is at least one, n is at most MaxClients, and a
  whole bucket refills in the cleanup interval less `late` for one client, less twice
  `late` for more (`RateLimiterRuns.BoundExactly`). For every other configuration a run
  that exceeds it is built: cleanup hands an idle client a full bucket early
  (`TokenBucket.TwoBursts`, `TokenBucket.TwoToppedBursts`), a late request makes a
  client look idle or lets it come back after a cleanup (`LateRequests.LateAlone`,
  `LateRequests.LateAmongOthers`, in numbers `RateLimiterRuns.LateRun`), or one client
  too many costs another its spent bucket (`RateLimiterRuns.CrowdExceeds`).
* In time order, while all clients fit and an interval refills a bucket, the limiter is
  greedy: it refuses a request only if admitting it would break the bound for some
  window that ends with it. It is greedy on all runs of at most n clients exactly when
  it keeps its bound on all of them (`GreedyLimiter.GreedyExactly`).
* A parameter of a route may be empty in the middle of a path, but not at its end:
  `RouteMeaning.MatchMeans` says which paths a route matches, and with which values.
* At most one request holds an idempotency key, on all runs in which requests let go
  of it within a time limit, exactly when that limit is at most PendingTTL
  (`IdempotencyProtocol.OneHandlerExactly`), whatever completed records expire or
  are evicted meanwhile. A request that holds the key for PendingTTL or longer can be
  joined by a second at once, and none other can
  (`IdempotencyProtocol.AdmittedExactly`).
* On the compared kinds of filters the two search evaluators disagree exactly when
  the in-memory one accepts and a numeric range meets a null value, which it reads as
  zero (`SearchCompiler.DifferExactly`); `SearchCompiler.NullDiffers` is such a filter
  and document.
* A token manager whose longest lifetime is not whole seconds issues tokens that its
  own validation never accepts: the longest one, in the last nanosecond of any second
  (`Tokens.LateInTheSecond`). An issued token is ever valid exactly when its lifetime
  is a whole second below the longest or its fraction does not carry into another
  second (`Tokens.EverValidExactly`).
* WebSocket messages above 65535 bytes do not survive: their length is written
  modulo 65536 (`WebSocketFrames.RoundTrip` is an equivalence).
* A Snowflake node repeats an identifier exactly when its clock takes it back to a
  millisecond it had left (`Ids.FlakesDistinctExactly`); going back alone repeats
  nothing (`Ids.BackIsNotRepeat`). Its identifiers strictly increase exactly when the
  clock never goes back (`Ids.FlakesAscendExactly`). Both hold while the time fits 41
  bits. ULIDs increase on such a clock while their counter does not wrap; UUID version 7
  identifiers increase under any clock.
* Adding routes in any order gives the same router. The precondition is that no
  wildcard shares its place with text or with another wildcard: the tree keeps one
  child below a wildcard, so it is not meant for such lists.
* The counter of `Next` is an 8-bit integer. Until an abort, running a chain panics
  exactly when the calls to `Next` and the handlers done pass 128 together
  (`HandlerChain.Context.Next`); any chain without aborts whose first handler calls
  `Next` 128 times does (`HandlerChain.Overflows`).

## Model

| member | source | states |
|---|---|---|
| RoutePatterns.UniqueMatch | tree.go:197-258 | two patterns that do not conflict never match one path, so a route list has at most one answer |
| RoutePatterns.ScanIsTable | tree.go:46-49 | scanning a conflict-free list finds the handlers last added for the matching pattern, with its parameters, and nothing when no pattern matches |
| RoutePatterns.OrderIrrelevant | tree.go:46-49 | lists that leave the same handlers per pattern answer every path alike, whatever the order of registration |
| RoutePatterns.SpelledOut | tree.go:107-117 | a wildcard token is spelled by its mark and its name up to the next slash or the end |
| RouteMeaning.TokensSpell | tree.go:100-136 | the pattern of a route with its wildcards spelled out is the route's text; each wildcard takes the rest of its segment |
| RouteMeaning.MatchMeans | tree.go:197-258 | a pattern matches exactly the paths that are its text with values for its wildcards: no slash in a parameter, a catch-all last, nothing empty at the end |
| RouteMeaning.OneReading | tree.go:197-258 | those values are unique |
| RouteMeaning.ValuesWriteThePath | tree.go:217-250 | with all wildcards named and no escapes, keys are the names in order, and the parameter values written into the route's text give the path back |
| RouteMeaning.ScanMeans | tree.go:46-49 | the same for a list of routes: the handlers last added for the one pattern that reads the path |
| RadixTree.LongestCommonPrefix | tree.go:260-270 | the result is a common prefix of both strings and cannot be extended |
| RadixTree.Tree.AddRoute | tree.go:46-49 | for every route that does not conflict, the tree stays valid and holds exactly the routes added so far, the new one last |
| RadixTree.Tree.InsertChild | tree.go:51-195 | inserting below any node sets the handlers of exactly that node's prefix plus the path, and keeps every other route |
| RadixTree.Tree.Split | tree.go:57-77 | the node keeps the text up to the split, its one new child has the rest with the old children and handlers, and the same routes stay reachable |
| RadixTree.Tree.AddWildcard | tree.go:100-136 | a parameter or catch-all is added or found below a node without disturbing other routes |
| RadixTree.Tree.GetValue | tree.go:197-258 | one walk without backtracking finds the route whose text, with values in place of its wildcards, is the path, and nothing when there is none; the parameters are those values under the names of the wildcards, in path order, unescaped where the library can; this is what the linear scan of all added routes returns |
| TreeShape.SplitKeeps | tree.go:57-77 | a split keeps every invariant of the tree's links |
| TreeShape.AttachKeeps | tree.go:119-189 | hanging a new node below another keeps every invariant of the tree's links |
| TreeShape.SetFilled | tree.go:191-193 | setting handlers at a node changes the answer for its own prefix only |
| TreeLookup.ByteStep | tree.go:205-212 | following or missing the child with the next byte loses no route that could still match |
| TreeLookup.WildStep | tree.go:214-250 | entering a wildcard binds the one value every still possible route binds there |
| TreeLookup.SlashStep | tree.go:231-239 | after a parameter the walk continues with its only child, or stops when no route goes on |
| RateLimiter.Limiter.Allow | middleware/ratelimit.go:45-88 | one request's decision and the new buckets are those of the bucket arithmetic, which a refusal leaves refilled, after cleanup and, at capacity, after evicting a least recently used client; the history of calls stays a possible run |
| RateLimiter.Limiter.RemoveInactiveBuckets | middleware/ratelimit.go:102-108 | exactly the buckets idle for longer than the interval go |
| RateLimiter.Limiter.RemoveOldestBucket | middleware/ratelimit.go:110-120 | one bucket goes, never one used later than another that stays, but for the empty key the source treats as unset |
| TokenBucket.CleanupUnseen | middleware/ratelimit.go:45-108 | for any clients, with stamps at most `late` behind the newest: when an interval less twice `late` refills a bucket, every decision of every run is the one without cleanup |
| TokenBucket.CleanupUnseenAlone | middleware/ratelimit.go:45-108 | for one client an interval less `late` is enough |
| TokenBucket.WindowBound | middleware/ratelimit.go:45-87 | in every run with stamps at most `late` behind and every window, a client is admitted at most capacity plus rate times the window, when a bucket refills in the interval less that lateness |
| TokenBucket.RoomForFew | middleware/ratelimit.go:55-58 | with at most MaxClients clients no bucket is ever evicted |
| TokenBucket.TwoBursts | middleware/ratelimit.go:102-108 | a slow refill: a run of one client that exceeds the bound because cleanup refilled it |
| TokenBucket.TwoToppedBursts | middleware/ratelimit.go:102-108 | a nearly sufficient refill: a longer run of one client that exceeds the bound |
| TokenBucket.TinyCapacity | middleware/ratelimit.go:55-66 | a capacity below one breaks the bound at the first request |
| RateLimiterRuns.RoomDecides | middleware/ratelimit.go:55-58 | while all clients fit, the only possible decisions are those of the bucket policy |
| RateLimiterRuns.CrowdExceeds | middleware/ratelimit.go:110-120 | with more clients than MaxClients a run exceeds the bound by eviction, for every capacity of at least one and every lateness |
| LateRequests.LateAlone | middleware/ratelimit.go:45-108 | one client exceeds the bound whenever the interval less `late` does not refill a bucket: a late request turns its bucket back, and cleanup forgets it |
| LateRequests.LateAmongOthers | middleware/ratelimit.go:45-108 | with another client it does so whenever the interval less twice `late` does not: the other's request cleans up, and the first comes back late |
| RateLimiterRuns.LateRun | middleware/ratelimit.go:45-108 | such a run in numbers: an interval that refills a bucket, five requests with one of them late, four admitted where three are promised |
| RateLimiterRuns.BoundExactly | middleware/ratelimit.go:45-120 | on all possible runs of at most n clients, with stamps at most `late` behind the newest as requests that wait for the lock make them, the bound holds if and only if the capacity is at least one, n is at most MaxClients, and a bucket refills in the interval less `late` (n = 1) or less twice `late` (n > 1) |
| RateLimiter.Limiter.PromiseKept | middleware/ratelimit.go:45-88 | over everything a limiter has been asked so far, with stamps as late as requests waiting for the lock were, no window has admitted a client more than was promised |
| RateLimiter.Limiter.RefusedOnlyForThePromise | middleware/ratelimit.go:45-88 | in time order, by clients that fit, no request so far was refused unless admitting it would have broken the promise for a window that ended with it |
| GreedyLimiter.RunIsGreedy | middleware/ratelimit.go:68-77 | while all clients fit, a run in time order is possible if and only if every request is admitted exactly when no window ending with it is overdrawn |
| GreedyLimiter.GreedyExactly | middleware/ratelimit.go:45-120 | on all possible runs of at most n clients in time order decisions are greedy if and only if the capacity is at least one, n is at most MaxClients and an interval refills a bucket |
| GreedyLimiter.GreedyIsHeld | middleware/ratelimit.go:45-88 | greedy decisions keep the promise in every window |
| IdempotencyRecords.WhoMayChange | middleware/idempotency_store.go:46-50 | a pending record leaves only by its owner's completion or release or by expiry, a complete one only by expiry |
| IdempotencyRecords.CompletionIsFinal | middleware/idempotency_store.go:46-50 | without expiry nothing changes a record after its completion |
| IdempotencyRecords.CompletionFollowsClaim | middleware/idempotency_store.go:46-50 | a completion directly follows the claim of the same owner and fingerprint |
| IdempotencyRecords.OwnersOnly | middleware/idempotency_store.go:46-50 | an acquired claim is completed once, by its owner and for its request, or released by its owner any number of times; nobody else can do either, and what is complete stays |
| RedisIdempotencyStore.Store.Claim | middleware/idempotency_redis.go:57-88 | whatever other clients and expiry do between its commands, the answer is the atomic store's at one point inside the call, and the call changes the record at most once, at that point |
| RedisIdempotencyStore.Store.Complete | middleware/idempotency_redis.go:90-107 | the same for completion: done only by a write of its own over its own pending record |
| RedisIdempotencyStore.Store.Release | middleware/idempotency_redis.go:109-144 | the same for release, including the retries after a lost race |
| MemoryIdempotency.ApplyValid | middleware/idempotency_store.go:80-202 | every operation keeps map and order list in bijection and within capacity |
| MemoryIdempotency.RefinesRecord | middleware/idempotency_store.go:80-143 | on its key every answered operation is the atomic store's, over the unexpired records for a claim |
| MemoryIdempotency.OtherKeysStay | middleware/idempotency_store.go:80-143 | an operation leaves every other key alone, but for the expired ones and the one completed entry it evicts |
| MemoryIdempotency.RefusedOnlyWhenFull | middleware/idempotency_store.go:93-95 | a claim is refused for capacity exactly when the key is new and every live entry of a full store is pending |
| MemoryIdempotency.PendingSurvives | middleware/idempotency_store.go:184-193 | over any run a pending entry stays as it is, unless its owner acts or its time is up |
| MemoryIdempotency.CompletedChange | middleware/idempotency_store.go:173-193 | a completed entry changes only in a claim, by expiry or as the oldest completed entry of a full store |
| MemoryIdempotencyStore.MemoryStore.Claim | middleware/idempotency_store.go:80-103 | the method is the operation on values: sweep, lookup, capacity, insertion; an acquired claim is stored for its owner until ttl after now; empty names and a ttl that is not positive are refused, and nothing else |
| MemoryIdempotencyStore.MemoryStore.Complete | middleware/idempotency_store.go:105-123 | the method is the operation on values; a stored response stays until ttl after now |
| MemoryIdempotencyStore.MemoryStore.Release | middleware/idempotency_store.go:125-143 | the method is the operation on values |
| MemoryIdempotencyStore.MemoryStore.RemoveExpired | middleware/idempotency_store.go:173-182 | exactly the expired entries leave map and list |
| MemoryIdempotencyStore.MemoryStore.EvictCompleted | middleware/idempotency_store.go:184-193 | the oldest completed entry leaves, if there is one |
| IdempotencyDeadlines.ClaimLasts | middleware/idempotency_store.go:80-103 | whatever happens without its owner, a claim acquired at now is found by a claim at t, pending and with its fingerprint, if and only if t and all claims before it are less than ttl after now |
| IdempotencyDeadlines.ResponseLasts | middleware/idempotency_store.go:105-123 | a response stored at now answers a claim at t if and only if t and all claims before it are less than ttl after now and none has evicted it |
| IdempotencyDeadlines.FreeAfterwards | middleware/idempotency_store.go:80-103 | from the deadline on a claim acquires the key, or finds no room |
| IdempotencyDeadlines.EvictedInClaimOrder | middleware/idempotency_store.go:184-193 | over any run an entry is evicted only when every entry claimed before it is pending still or out of time |
| IdempotencyProtocol.StepKeeps | middleware/idempotency.go:77-165 | every step of every request, refused store operations included, of time, and of records leaving the store keeps the protocol's invariant |
| IdempotencyProtocol.ClaimAnswers | middleware/idempotency.go:94-118 | a claim leads to a conflict, another wait, the replay or the handler, as the record's fingerprint and state say |
| IdempotencyProtocol.OwnAnswer | middleware/idempotency.go:120-165 | the caller whose handler ran gets its response, stored or not to be stored, and an error when storing is refused |
| IdempotencyProtocol.OneHandlerExactly | middleware/idempotency.go:77-165 | at most one request holds the key, on all runs in which requests let go of it within a time limit, if and only if the limit is at most PendingTTL; completed records may expire or be evicted at any time |
| IdempotencyProtocol.AdmittedExactly | middleware/idempotency.go:99-165 | at any moment before a first lapse a second request can be admitted without time passing if and only if the holder has held the key for PendingTTL |
| IdempotencyProtocol.OneHandlerInFlight | middleware/idempotency.go:77-165 | over every run in which no pending record vanishes from under its holder, at most one request holds the key |
| IdempotencyProtocol.HandlerStartsOnEmptyKey | middleware/idempotency.go:99-137 | a handler starts only by a claim on an absent record, so never for a different fingerprint while one exists |
| IdempotencyProtocol.ReplayIsAuthentic | middleware/idempotency.go:99-118 | every replayed response is one a handler gave for the same fingerprint, even across expiry |
| IdempotencyProtocol.StoredForever | middleware/idempotency.go:94-165 | as long as a response stays stored, no handler is in flight or starts and every later request replays it, conflicts or gives up |
| IdempotencyProtocol.TakesOver | middleware/idempotency.go:94-165 | from any state in which a holder's claim is past its deadline, three steps start a second handler beside the first |
| ResponseBuffer.Buffer.Write | middleware/idempotency.go:296-312 | writes are kept until the limit would be passed, then everything so far and to come goes to the client, each byte once |
| ResponseBuffer.Buffer.FlushResponse | middleware/idempotency.go:314-329 | flushing sends the header once and the body kept so far |
| ResponseBuffer.Buffer.Recorded | middleware/idempotency.go:263-312 | what is stored is the first status and all bytes the handler wrote |
| ResponseBuffer.CallsMean | middleware/idempotency.go:282-312 | the status is that of a first WriteHeader and 200 otherwise, the body everything written in order |
| ResponseBuffer.Replay | middleware/idempotency.go:252-261 | a replay writes the stored status, headers and body, marked as a hit |
| ResponseBuffer.StoreAndReplay | middleware/idempotency.go:252-329 | the first caller and every replay receive the same status and body |
| OutboxTable.DelayPositive | queue/outbox.go:270-282 | the retry delay is at least the configured backoff and never shrinks |
| OutboxTable.DelayDoubles | queue/outbox.go:278 | the first delay is the backoff, each of the next eight is twice the one before, and all later ones are 256 times the backoff |
| OutboxTable.RetriedExactly | queue/outbox.go:269-282 | a refused message is eligible again exactly from its mark plus the delay on, and never at the maximum of attempts |
| OutboxTable.LeasedExactly | queue/outbox.go:205-244 | a leased row is eligible again exactly when the lease has run out |
| OutboxProtocol.StepKeeps | queue/outbox.go:167-303 | every step of workers, crashes, application and clock keeps the protocol's invariant |
| OutboxProtocol.LeasesNeverOverlap | queue/outbox.go:205-244 | in every run each lease on a message ends strictly before the next begins |
| OutboxProtocol.CountsAndVerdicts | queue/outbox.go:265-303 | attempts are the committed failures; failed is set exactly at the maximum; published and failed exclude each other; a published message was accepted by the publisher |
| OutboxProtocol.OnlyLatestClaimerMarks | queue/outbox.go:265-303 | a mark that takes effect is the latest claimer's, on the message it was about, with the verdict it got |
| OutboxProtocol.TerminalForever | queue/outbox.go:321-344 | a published or failed row never changes again |
| OutboxProtocol.Reclaimable | queue/outbox.go:321-344 | a row can be claimed exactly when it is due and its last lease, if any, has run out |
| Outbox.Database.SelectRows | queue/outbox.go:321-344 | the oldest eligible rows no other transaction holds, at most a batch, and fewer only when there are no more |
| Outbox.Database.ClaimRows | queue/outbox.go:205-244 | the selected rows, and only those, are leased under the worker's token, and eligible for nobody until the lease runs out |
| Outbox.Database.Mark | queue/outbox.go:265-303 | a mark changes the row exactly when the token still owns it; a published message is never eligible again, a refused one exactly from the mark plus its delay on, while attempts remain |
| Outbox.Database.Deliver | queue/outbox.go:173-185 | one message is published with the publisher's verdict and then marked with it on the rows as they are by then; the mark succeeds exactly when its transaction does and the token still owns the row |
| Outbox.Database.DeliverAll | queue/outbox.go:172-186 | the worker's own steps are one publication and one mark per claimed message, in order, each with its verdict; every mark is found in the log, and took effect exactly when its transaction did not break and the table at that point had the row under the token; the messages reported are those refused or not marked |
| Outbox.Database.PublishPending | queue/outbox.go:167-187 | besides what others do, the worker begins, claims the oldest eligible rows, and delivers every claimed message in order; the messages reported are those refused, and those whose marks did not take effect on the table as it then was; the whole is a run of the protocol |
| SearchModel.ValueOrder | search/memory.go:215-240 | comparison by number, text or instant is a total preorder whose ties are equal keys |
| FilterValues.AcceptsExactly | search/memory.go:141-215 | the evaluator accepts exactly the values that the operator asks for: equal to some value, between numbers, instants or texts, containing a text, present or absent |
| FilterValues.AskableExactly | search/query.go:337-388 | a filter is valid exactly when its attribute is filterable and its operator and values suit the attribute's kind |
| FilterValues.WhereMeets | search/database.go:251-261 | the compiled clause is true of exactly the rows of the resource whose values meet all filters, no range on a null |
| SearchCompiler.Builder.Filter | search/database.go:263-300 | condition and bound arguments are those of the compilation function, placeholders counted from the arguments already bound |
| SearchCompiler.Builder.Where | search/database.go:251-261 | the same for the whole clause: resource, full text, then the filters in order |
| SearchCompiler.EqualityMeaning | search/database.go:302-309 | JSON containment of the bound payload holds exactly when some value of the attribute equals the operand in memory |
| SearchCompiler.MembershipMeaning | search/database.go:281-291 | the disjunction of containments holds exactly when some value equals some candidate |
| SearchCompiler.RangeMeaning | search/database.go:311-327 | a numeric range condition is true exactly when the evaluator accepts and the value is not null |
| SearchCompiler.FilterMeaning | search/memory.go:141-174 | one compiled filter is true in three-valued logic exactly when matchFilter accepts, but for ranges over null |
| SearchCompiler.WhereMeaning | search/database.go:251-261 | the whole clause with its arguments is true of a row exactly when resource, full text and matchFilters agree and no range meets a null |
| SearchCompiler.DifferExactly | search/memory.go:215-230 | the two evaluators disagree exactly when the in-memory one accepts and a range filter meets a null value |
| SearchCompiler.NullDiffers | search/memory.go:215-230 | a valid filter and document on which they disagree |
| SearchOrder.TotalOrder | search/memory.go:250-276 | the comparator is antisymmetric and transitive, with missing values last in both directions, and ties only equal identifiers |
| SearchOrder.CompareDocuments | search/memory.go:251-275 | the comparator's loop with its early exits computes the lexicographic order |
| SearchOrder.RankingIsUnique | search/memory.go:250-276 | one set of documents has one ranked arrangement, whatever order the map is walked in |
| SearchOrder.SortDocuments | search/memory.go:250-276 | sorting documents with distinct identifiers ranks them, by their attributes, scores and identifiers |
| SearchOrder.RankedExactly | search/memory.go:250-276 | a list is ranked exactly when each document comes before all later ones by the first key that tells them apart, ascending or descending, then by score or identifier |
| SearchOrder.FirstKeyOrders | search/memory.go:251-268 | by the first key numbers, instants, texts and flags never decrease if it is ascending and never increase otherwise, and documents without a value come last |
| SearchOrder.LastKeysOrder | search/memory.go:270-275 | without keys the score never increases, and ties go by increasing identifier |
| Decimal.FormatParses | search/query.go:554-573 | every 64-bit integer is parsed back from its decimal form |
| Decimal.ParsesExactly | search/query.go:554-573 | exactly the digits of a 64-bit number, with any zeros and a sign before them, are parsed as that number |
| Cursor.Base64RoundTrip | search/query.go:554-573 | every byte string is decoded from its unpadded base64 |
| Cursor.DecodedWrites | search/query.go:554-573 | whatever is decoded is the encoding of the result, but for unused low bits of the last digit |
| Cursor.CharIsStandard | search/query.go:554-573 | the digits are those of table 2 of RFC 4648 |
| Cursor.CursorRoundTrip | search/query.go:554-574 | a cursor leads back to its offset, and is empty exactly for offset zero |
| Cursor.CursorsExactly | search/query.go:554-574 | exactly the encodings of the version mark and an offset are accepted, besides no cursor for the beginning |
| SearchPaging.PageDocuments | search/memory.go:278-296 | the page is the slice at the cursor's offset, with a cursor to the next exactly when there is one; malformed cursors are refused |
| SearchPaging.WholeCrawl | search/memory.go:278-296 | pages reached by following cursors from the empty one concatenate to the whole list |
| SearchPaging.CrawlIsShort | search/memory.go:278-296 | a crawl ends: all its pages but the last are full and do not hold everything |
| SearchFacets.AggregateFacet | search/memory.go:327-351 | exact counts per distinct value, ordered, cut at the limit |
| SearchFacets.CountValues | search/memory.go:327-343 | the counting loops tally every value with the number of documents holding it, the null bucket for documents without values included when asked for |
| SearchFacets.BucketsAreExact | search/memory.go:327-351 | every bucket counts exactly the matching documents that hold its value, and at least one |
| SearchFacets.HoldersExactly | search/memory.go:327-343 | a document counts for its value, for each of its values, or for the null bucket if it has none and that is asked for |
| SearchFacets.BucketsInOrder | search/memory.go:346-376 | counts never increase, and buckets of one count, or all when sorted by value, go by increasing value |
| SearchFacets.LargestAreKept | search/memory.go:346-376 | by count, a bucket the limit cuts is no larger than any bucket kept |
| SearchFacets.CountsSumToMatches | search/memory.go:327-351 | single-valued with missing included, the uncut counts sum to the matches |
| SearchBackend.MatchQuery | search/memory.go:111-128 | the score is the number of searchable values that contain the query, in whatever order attributes are visited |
| SearchBackend.QueryFinds | search/memory.go:111-128 | a query finds a document by some value of some searchable attribute that contains it |
| SearchBackend.FilterDocuments | search/memory.go:97-109 | exactly the matching documents, each once, for every listing of the map |
| SearchBackend.FiltersWithoutField | search/memory.go:317-325 | client filters on the field go, mandatory ones stay |
| SearchBackend.MemoryBackend.Search | search/memory.go:54-76 | page, total and facets are determined by the documents alone, although they are walked in map order |
| SearchBackend.FoundInOrder | search/memory.go:54-76 | every match comes before all later ones by its attributes, score and identifier |
| SearchResource.NormalizeRequest | search/query.go:305-335 | defaults are filled in, and requests beyond any limit or unknown to the schema are refused |
| RequestDefaults.NormalizeExactly | search/query.go:305-335 | a request is served with its defaults written out exactly when it then is within the limits and asks for declared attributes, each for what it may be used; every other request is refused |
| RequestDefaults.DefaultsAreWritten | search/query.go:305-335 | a field left empty is the same request as the default written out |
| SearchResource.NormalizeFacets | search/query.go:409-441 | the in-place loop fills each facet's defaults and refuses duplicates and unknown modes |
| SearchResource.NormalizeIsIdempotent | search/query.go:305-335 | normalising twice, as a scoped search does, is normalising once |
| SearchResource.Resource.Search | search/resource.go:122-146 | the backend gets the normalised request with the scope filters added as mandatory, and its answer is returned; each failure is told apart |
| SearchResource.HitsInScope | search/resource.go:122-146 | every hit of every request satisfies all scope filters |
| SearchResource.CountedInScope | search/memory.go:298-325 | every document counted in any facet satisfies all scope filters |
| SearchResource.DisjunctiveCounts | search/memory.go:298-325 | a disjunctive facet counts exactly the documents accepted by all filters but the client's own on its field |
| SearchResource.EffectiveKeepsCursor | search/resource.go:122-146 | the cursor changes nothing in the request the backend gets but the cursor |
| SearchResource.BackendCrawlFindsAll | search/memory.go:250-296 | following the backend's NextCursor over unchanging documents lists exactly the ranked matches, whatever order each request walks the map in |
| SearchResource.CrawlFindsAll | search/resource.go:122-146 | a client following NextCursor through Resource.Search gets exactly the documents that match its request within the scope, ranked, each once |
| SearchResource.CrawlEnds | search/resource.go:122-146 | no such crawl takes more requests than there are documents |
| SearchResource.NextIsAccepted | search/query.go:305-335 | no crawl gets stuck: the request with the NextCursor of any result is accepted, differs for the backend in its cursor only, and has a page |
| SearchResource.EachOnce | search/memory.go:250-296 | a ranked list holds no document twice |
| HandlerChain.Context.Next | context.go:131-143 | handlers start at most once, in chain order without gaps, none after an abort; a successful call without abort leaves none unstarted; it panics exactly when, before any abort, calls to Next and handlers done pass 128 together |
| HandlerChain.Overflows | context.go:131-143 | a chain that never aborts and whose first handler makes at least 128 calls to Next panics |
| HandlerChain.Context.Abort | context.go:146-149 | after an abort the handlers started are the ones that had started |
| GraphQLComplexity.Validate | autographql.go:165-190 | a parsed document is accepted exactly when every operation has a finite expansion, as a tree with every fragment in its place, at most twelve levels high, and they have at most a hundred fields together |
| GraphQLComplexity.FitsExactly | autographql.go:203-253 | fitting a number of levels is having an expansion of that height, whose fields are the ones counted |
| GraphQLComplexity.Counter.CountSelections | autographql.go:203-222 | a count up to the limit is the exact number of fields of a fitting expansion, a larger one is too large, a failure means it does not fit; the active set is left as it was |
| GraphQLComplexity.CycleNeverFits | autographql.go:238-253 | a fragment inside its own expansion fits no depth |
| GraphQLComplexity.RejectedFragment | autographql.go:238-253 | refusing a fragment that is being expanded is right wherever the cycle was entered |
| CacheSequence.SetIsRead | cache/bounded.go:44-65 | a written value is read back and the size stays within the limit |
| CacheSequence.SetKeepsOthers | cache/bounded.go:44-65 | a write loses no other key, but the victim when a new key comes into a full cache |
| CacheSequence.OutlivesOlder | cache/bounded.go:137-152 | a live entry survives as many writes to other keys as there are entries older than it |
| CacheSequence.FindWithout | cache/bounded.go:91-96 | dropping keys drops their entries and no others |
| BoundedCache.HasKey | cache/bounded.go:68-88 | map and key list hold the same keys, and lookup in the map is lookup in the sequence |
| BoundedCache.Cache.Set | cache/bounded.go:44-65 | the method is the operation on the insertion-ordered sequence: replace in place, or evict and append |
| BoundedCache.Cache.EvictOneLocked | cache/bounded.go:137-152 | the oldest expired entry goes, or else the oldest |
| BoundedCache.Cache.Get | cache/bounded.go:68-88 | a value is found exactly when the sequence holds it unexpired |
| BoundedCache.Cache.Delete | cache/bounded.go:91-96 | exactly that key leaves map and list |
| BoundedCache.Cache.InvalidatePrefix | cache/bounded.go:126-135 | exactly the keys with the prefix leave, the rest keep their order |
| Ids.UuidGenerator.Next | id/id.go:172-210 | under any clock that fits 48 bits, each UUID string comes after every one issued before |
| Ids.UuidStampAdvances | id/id.go:179-192 | millisecond and counter together advance in every call: within a millisecond by one, otherwise to a reading of the clock and a random count |
| Ids.UuidWaits | id/id.go:179-192 | a call waits exactly while the counts of the millisecond are used up and no reading is later |
| Ids.UuidReads | id/id.go:194-209 | read back from its digits, a UUID holds the time, version 7, the count and the variant (section 5.7 of RFC 9562) |
| Ids.UuidOrder | id/id.go:194-209 | UUID strings are ordered as their leading bytes |
| Ids.FlakeAdvances | id/id.go:95-120 | while the time fits 41 bits, a Snowflake identifier exceeds the one before if and only if the clock did not go back |
| Ids.FlakeStampSays | id/id.go:95-120 | within a millisecond the number counts up by one, otherwise it starts at zero, at the clock's reading or a later one |
| Ids.FlakesAscendExactly | id/id.go:95-120 | over a node's whole history, while the time fits 41 bits, its identifiers strictly increase if and only if no call found the clock before the last stamp |
| Ids.FlakeRepeats | id/id.go:95-120 | a clock going back can repeat a stamp, and with it the identifier |
| Ids.FlakesDistinctExactly | id/id.go:95-120 | over a node's whole history, while the time fits 41 bits, its identifiers are pairwise distinct if and only if the node never comes back to a millisecond it left |
| Ids.BackIsNotRepeat | id/id.go:95-120 | clock readings 10, 12, 11 go back and repeat nothing |
| Ids.NodesNeverCollide | id/id.go:115-119 | identifiers are equal exactly when node, millisecond and sequence are, and fit 63 bits, while the time fits 41 |
| Ids.SnowflakeNode.NextID | id/id.go:95-120 | the method follows the stamp function, waiting when a millisecond's 4096 numbers are used up, and extends the node's history |
| Ids.UlidAdvances | id/id.go:31-63 | a ULID comes after the one before if and only if the clock did not go back and the 64-bit counter did not wrap |
| Ids.UlidsAscendExactly | id/id.go:31-63 | over the whole history ULIDs strictly ascend if and only if that holds of every call |
| Ids.UlidGenerator.Next | id/id.go:31-63 | the encoding loops write ten base-32 digits of time and sixteen of entropy; the counter wraps as the source's does |
| Ids.UlidReads | id/id.go:31-63 | read back from its digits, a ULID holds its time and its entropy |
| Lexicographic.DigitsOrder | id/id.go:49-60 | numerals of one width are ordered as their numbers |
| Migrations.Prepare | dbcore/migrate.go:123-164 | exactly the well-formed lists without duplicate identifiers or versions are accepted, and come back in increasing version order |
| Migrations.PreparedExactly | dbcore/migrate.go:123-164 | what a migration leaves empty is its place as version, the default identifier and the older SQL; then exactly a positive version and some SQL are needed |
| Migrations.Database.AutoMigrate | dbcore/migrate.go:44-111 | a run succeeds if and only if the list is well formed, the transaction begins and commits, every recorded migration has its checksum, and the SQL of every other succeeds and no record has its version; a failing run changes nothing; a successful one executes the missing ones in version order, each recorded once with the digest of its SQL; repeating a recorded list executes none |
| Migrations.PendingReady | dbcore/migrate.go:87-101 | what a run executes keeps increasing versions |
| CircuitBreaker.AdmittedExactly | resilience/resilience.go:55-88 | in every interleaving: closed exactly below the threshold, and a call admitted exactly when more than the reset timeout has passed since every opening so far |
| CircuitBreaker.ClosedExactly | resilience/resilience.go:70-87 | in every interleaving the breaker is closed exactly while the calls failed since it was new or last recovered are fewer than the threshold; other successes forgive nothing |
| CircuitBreaker.OpeningsExactly | resilience/resilience.go:73-79 | it opens, or opens again, exactly when a call fails and the failures since reach the threshold |
| CircuitBreaker.StepKeeps | resilience/resilience.go:55-88 | either half of any call keeps the invariant |
| CircuitBreaker.CircuitBreaker.BeginCall | resilience/resilience.go:56-66 | the first locked section is the admission step |
| CircuitBreaker.CircuitBreaker.EndCall | resilience/resilience.go:70-87 | the second locked section is the recording step |
| Identity.CanonicalIsFixed | auth/identity.go:62-79 | canonicalising an identifier twice is canonicalising it once |
| Identity.CanonicalSays | auth/identity.go:62-79 | exactly empty, long and spaced identifiers and numbers below one are refused; numbers become their digits, others stay |
| Identity.NumbersAreIdentities | auth/identity.go:73-78 | every spelling of a number is one identity, different numbers are different ones |
| Identity.DefaultSubjectAgrees | auth/identity.go:43-60 | without a subject, every canonical identifier is accepted as its own subject |
| Tokens.IssuedIsValid | auth/token.go:278-298 | an issued token validates exactly within its window, with skew on both sides, if its floored lifetime fits |
| Tokens.IssuedExactly | auth/token.go:278-298 | tokens are issued exactly for canonical identities and lifetimes from a second to the longest, and carry the identity, the manager's names and the whole seconds of issue and expiry |
| Tokens.AcceptedElsewhere | auth/token.go:432-453 | a manager accepts another's token if and only if issuer and audience are the same and its own skew and longest lifetime allow it |
| Tokens.AcceptedIdentity | auth/token.go:434-440 | accepted claims name one identity in all their fields, and the manager's issuer and audience |
| Tokens.AcceptedBetween | auth/token.go:441-451 | claims that are ever accepted are accepted exactly from their first second to their last, with skew on both sides |
| Tokens.ValidUntilExpiry | auth/token.go:432-453 | under a whole-second maximum an issued token is valid from issue until expiry plus skew and never after (sections 4.1.4 to 4.1.6 of RFC 7519) |
| Tokens.FitsExactly | auth/token.go:448-451 | all lifetimes fit at all instants if and only if the maximum is whole seconds |
| Tokens.EverValidExactly | auth/token.go:432-453 | an issued token is valid at some instant, and then at issue, if and only if its lifetime is a whole second below the longest or its fraction does not carry over |
| Tokens.LateInTheSecond | auth/token.go:448-451 | under any other maximum the longest token issued in the last nanosecond of any second is valid at no instant |
| WebSocketFrames.Conn.ReadMessage | realtime/websocket.go:62-98 | reading consumes one frame: head, extended length, key, payload unmasked in place |
| WebSocketFrames.Conn.WriteMessage | realtime/websocket.go:101-117 | writing appends the message's frame |
| WebSocketFrames.FrameLayout | realtime/websocket.go:101-117 | a final text frame without a mask, its length in seven bits, or 126 and sixteen (section 5.2 of RFC 6455) |
| WebSocketFrames.MaskedBits | realtime/websocket.go:90-96 | byte i is masked bit by bit with byte i modulo 4 of the key (section 5.3 of RFC 6455) |
| WebSocketFrames.RoundTrip | realtime/websocket.go:62-117 | a written message is read back if and only if it has at most 65535 bytes (section 5.2 of RFC 6455) |
| WebSocketFrames.StreamRoundTrip | realtime/websocket.go:62-117 | a stream of written frames is read as the list of messages |
| WebSocketFrames.MaskedRoundTrip | realtime/websocket.go:80-96 | a masked frame is read as its original payload (section 5.3 of RFC 6455) |

## Left out

- Conflicting routes: lists in which a wildcard shares its place with text or another wildcard are outside the precondition of AddRoute, and what the tree does with them is not modelled.
- url.PathUnescape, the nil parameter pointer and the pooling of contexts: decoding is an arbitrary function given to both the tree and the scan.
- RateLimiter.Limiter.Allow: time and tokens are real numbers, without floating-point rounding, and which of several equally old clients is evicted is left open, as map order leaves it. How late requests come is a parameter of the theorems, and no stamp is before the limiter's own start.
- Redis network and JSON failures, and stores that apply an operation but report an error: an operation either takes effect and answers, or is refused and changes nothing.
- RedisIdempotencyStore.Store.Claim: owners are assumed unique, and EXEC to succeed only if the watched key is unchanged; the retry bound is modelled, the pauses between retries are not. Its keys may expire at any moment; the lifetimes it hands to Redis are not followed.
- Hashing of request bodies, key scoping and the HTTP errors of the idempotency middleware: fingerprints and keys are plain values.
- Streaming, hijacking and HTTP/2 push through response recorders.
- Outbox enqueueing checks and payload size limits, message ordering of the publisher, and 64-bit overflow of the doubled backoff.
- Outbox.Database.PublishPending: the publisher and broken mark transactions are functions from positions to verdicts; their errors are reported by message and not told apart.
- SearchCompiler.WhereMeaning: full text, contains, ranges over text or dates and date equality are not compared, because LIKE patterns, collations and date parsing differ between the evaluators; numbers are reals.
- The SQL of ORDER BY, LIMIT, counts and facet aggregation, and reading rows back.
- SearchFacets.AggregateFacet: the order of buckets that compare equal is left open, as the source's unstable sort leaves it; a counting key is the value itself rather than its printed form.
- SearchResource.Resource.Search: cancelled contexts and JSON cloning of documents are not modelled; rejecting unknown operator names has no counterpart, since operators are a datatype.
- The search registry, schema construction and document validation errors beyond acceptance.
- HandlerChain.Context.Next: chains longer than 127 handlers, whose length itself wraps, and handlers that recover from a panic are not modelled; the timeout variant of the context is not part of this model.
- GraphQL parsing, schema building and execution: the parsed document is the input.
- Ids.UuidGenerator.Next: clock readings are given as a finite list, so a call that would spin forever is a call without a result; times before 1970 are outside.
- Ids.SnowflakeNode.NextID: shifts and ors of disjoint fields are written as arithmetic that wraps at 64 bits; beyond 41 bits of time nothing is proved about the wrapped identifiers. Clocks that begin in the first millisecond of 1970 are outside the theorem on repetition.
- Migrations.Database.AutoMigrate: the SQL itself, dialects and the lock are not modelled; concurrent starts are serialised by that lock. Failing to lock or to load the history counts as failing to begin, failing to record for another reason than a version in use as a failure of the SQL.
- Cache statistics, GetOrSet and the two-level and Redis caches, whose load lock checks and writes in separate commands.
- Signing, hashing and parsing of tokens, sessions, and token compatibility entries.
- WebSocket handshake, control frames and fragmentation: the reader ignores the opcode, and so does the model.
- Kafka, RabbitMQ, S3, Elasticsearch, mail and SMS clients, tracing, dependency injection, feature flags, the ORM, code generation and templates: wrappers or plain plumbing that would only add easy members.
