# FlowProxy: a verified model of its state machines

FlowProxy is a reverse proxy whose control logic is a set of small state machines. This project models
them in Dafny and proves what they promise, over every input, every run and, where goroutines meet, every
interleaving.

| component | modules |
|---|---|
| admission control | `RateLimiter` (per-address token bucket with automatic block), `SlidingWindow` (the Redis script), `LocalBackend`, `RateLimitManager`, `Slots` |
| response cache | `RecencyList`, `ResponseCache` (map plus linked list), `LruModel` (the sequence both refine) |
| upstreams | `UpstreamHealth`, `OverlappingMarks` (one mechanism, its marks interleaved), `OverlappingTarget` (both), `UpstreamPool`, `RetryLoop` |
| cluster sync | `Failover`, `CertificateMirror` (digest, build through the cache), `CertificateApply` (items, files, skipping), `ClusterSync` |
| IP access rules | `IPRules`, `IPAccess` (resolving), `IPDecision` (compiling, deciding), `IPMeaning` (the direct reading), `IPAgreement`, `IPCollision` |
| sites and routing | `SiteStore`, `SiteUniqueness`, `Router`, `Routing` |
| access log | `AccessLog` |
| CSV layer | `Csv` |
| shared | `Common`, `Text` |

Objects the program updates in place are classes; each method is tied to a function on values by its
contract, and the laws are lemmas about those functions. Goroutines that meet are state machines whose
steps are the critical sections or atomic operations. Time is a parameter of every operation that reads
the clock; a run's times do not decrease where a law needs that, and the law says so. `float64` is `real`.

`dafny verify dfyconfig.toml` checks everything.

## Where the code and its promises differ

- Sampling of expired cache entries: the comment at internal/proxy/proxy.go:1896 speaks of up to ten random
  entries, the loop walks on until ten expired ones were removed. The model follows the loop.
- An oversized `Set` returns before it looks at the cache, so an older entry for the key stays. The model
  does the same.
- The Redis script gives `PEXPIRE` microseconds where it expects milliseconds; the key then lives a thousand
  windows, which is harmless and part of the proof. A call whose member is already in the set moves that
  entry instead of adding one. The limit bounds members, not calls: admissions exceed it by the overwrites
  and nothing else (`SlidingWindow.WindowBound`, `AdmissionsAreMembersAndOverwrites`), and without fresh
  members not at all (`RepeatedMemberBreaksBound`). Members coincide when
  the random parts are equal and the timestamps print alike; printed with 14 digits, a time in microseconds
  loses its last two, so calls up to about 100 microseconds apart can. How often random parts are equal is up
  to Redis.
- `Cleanup` can be observed when it is too eager; `LocalBackend.CleanupUnobservableExactly` gives the exact
  condition.
- Failure marks that overlap between add and reset lose failures, in both counters, exactly when a mark comes
  between an add that reaches the threshold and its reset (`OverlappingMarks.NothingIsLostExactly`,
  `OverlappingMarksLoseAFailure`).
- Even when that does not happen, a target can lose a hold it has earned: a success clears the counter and
  the hold in two steps, and a trip between them is undone by the second
  (`OverlappingMarks.SettledInOrderExactly`, `LateLiftDropsHold`, `OverlappingTarget.SettledSkippedExactly`).
- `ReplaceMirrored` removes the old files before it does anything else. An apply that fails at any point can
  therefore spoil the set that is still in place, and if the controller then goes back to that set, the
  unchanged digest skips the apply that would repair it; a failed save also replaces the items
  (`CertificateApply.AppliedIsRemoteExactly`, `UnreadableBundleSpoils`, `SpoiledSetGoesUnnoticed`).
- The digest joins keys with line ends, and a key contains the certificate's last error, which is any text: one
  certificate can have the digest of two (`CertificateMirror.ErrorTextMayMimicTwo`).
- A follower that never succeeded loses an active fail-close when it starts its next attempt
  (`ClusterSync.FailCloseStaysExactly`, `FailCloseOverRunsExactly`).
- Rule sets whose IDs differ only in case overwrite one another when compiled
  (`IPCollision.MeaningKeptExactly`).
- The store's checks pass over sites that share the ID they except, also the empty one
  (`SiteUniqueness.CreateKeepsExactly`, `UpdateKeepsExactly`, `EnableKeepsExactly`); the check on loading
  ignores the node (`ReloadsExactly`); `Update` does not change the protocol.
- A failed log write is forgotten when it is reported after `Close` began, even if the write itself failed
  earlier (`AccessLog.LostExactly`, `FailureReportedAfterCloseIsLost`).

## Model

| member | source | states |
|---|---|---|
| `RateLimiter.Limiter.Allow` | internal/proxy/proxy.go:2630-2641 | A call changes only its client's bucket, to what one limiter step makes of it; a new client starts with a full one |
| `RateLimiter.Limiter.Decide` | internal/proxy/proxy.go:2643-2681 | The decision and the new bucket, block check, refill, rejection and window reset included, are the step function's |
| `RateLimiter.Limiter.RegisterViolation` | internal/proxy/proxy.go:2683-2695 | A rejection opens or extends the violation window, and at the threshold sets the block and clears the window |
| `RateLimiter.TokensInRange` | internal/proxy/proxy.go:2656-2675 | In every run at nondecreasing times the tokens stay between 0 and burst |
| `RateLimiter.StepConserves` | internal/proxy/proxy.go:2656-2681 | A call takes exactly one token if it admits and none if not; unless held it admits exactly when a whole token is there |
| `RateLimiter.SpentPlusLeft` | internal/proxy/proxy.go:2630-2681 | Admissions since any call plus the tokens left never exceed burst plus the refill since |
| `RateLimiter.AdmissionBound` | internal/proxy/proxy.go:2630-2681 | Any stretch of calls between s and t admits at most burst + rate*(t-s), across blocks and unblocks |
| `RateLimiter.LeftIsAttained` | internal/proxy/proxy.go:2656-2675 | The bound is attained: some earlier call accounts for every missing token |
| `RateLimiter.RefusedExactlyWhenOverrun` | internal/proxy/proxy.go:2661-2674 | A client that is not blocked is refused if and only if admitting it would break the bound for some stretch |
| `RateLimiter.CountIsWindowRejections` | internal/proxy/proxy.go:2676-2695 | Between calls the stored count stays below the threshold and equals the rejections since the call that opened the window |
| `RateLimiter.BlockNeedsViolations` | internal/proxy/proxy.go:2683-2695 | A block is set only by the threshold-th rejection inside one violation window |
| `RateLimiter.BlockedUntilItEnds` | internal/proxy/proxy.go:2643-2655 | From a block until its duration has passed nothing is admitted, and the reported wait is exactly what is left |
| `RateLimiter.BlocksExactly` | internal/proxy/proxy.go:2643-2695 | From the decisions and times alone: the window opens at the first refusal since the last block ended, or since the open one was over, and admissions change nothing; a call sets a block if and only if it is the threshold-th refusal since that opening, answers blocked if and only if it does or comes during a block, and is told exactly what is left |
| `RateLimiter.ClockWentBack` | internal/proxy/proxy.go:2656-2661 | A clock that went back brings no tokens and takes none |
| `RateLimiter.ClientsAreIndependent` | internal/proxy/proxy.go:2634-2641 | However clients' calls are interleaved, each sees the limiter it would see alone |
| `SlidingWindow.RedisKey.Eval` | internal/ratelimit/redis.go:22-53 | One evaluation of the script removes, counts, and refuses or adds and sets the expiry, as the script function says |
| `SlidingWindow.LiveIsWindow` | internal/ratelimit/redis.go:29-33 | Key expiry never drops a live entry: after the removal command the set is the window, expired key or not |
| `SlidingWindow.ScriptIsExact` | internal/ratelimit/redis.go:29-50 | In every run the set holds exactly the window's admitted calls, the latest of each member |
| `SlidingWindow.RefusedExactlyWhenFull` | internal/ratelimit/redis.go:32-44 | A call is refused if and only if its window already holds maxRequests members |
| `SlidingWindow.RepliesAre` | internal/ratelimit/redis.go:32-50 | An admission is told how many more the window takes, a refusal the seconds until its oldest entry leaves; after an admission the key lives for a thousand windows from then |
| `SlidingWindow.WindowBound` | internal/ratelimit/redis.go:22-53 | In any run, calls may share members: every half-open interval of the window's length holds at most maxRequests admitted members, and so at most maxRequests admissions plus those that overwrote a member |
| `SlidingWindow.AdmissionsAreMembersAndOverwrites` | internal/ratelimit/redis.go:46-47 | The admissions of an interval are exactly its distinct members plus its overwrites, so the bound is exceeded by overwrites alone |
| `SlidingWindow.FreshMembersBound` | internal/ratelimit/redis.go:46-50 | If no two calls share a member, every interval holds at most maxRequests admissions |
| `SlidingWindow.NeverOverfull` | internal/ratelimit/redis.go:35-47 | The set never holds more than maxRequests entries |
| `SlidingWindow.SlotFreesWithOldest` | internal/ratelimit/redis.go:35-44 | After a refusal the next call is admitted if and only if the oldest counted entry has left its window |
| `SlidingWindow.RetryAfterIsExact` | internal/ratelimit/redis.go:36-43 | The retry-after of a refusal is the first moment a slot frees |
| `SlidingWindow.RepeatedMemberBreaksBound` | internal/ratelimit/redis.go:46-47 | Calls that all have one member, as those have whose timestamps print alike (the script prints 14 digits, which drops the last two of a microsecond time) and whose random parts are equal, are never refused by a limit above one |
| `LocalBackend.Backend.Allow` | internal/ratelimit/backend.go:49-90 | A call changes only its key's bucket, to what one step makes of it, and reports that step's reply |
| `LocalBackend.Backend.Cleanup` | internal/ratelimit/backend.go:93-103 | Exactly the buckets last used before the cutoff are deleted |
| `LocalBackend.StepOnWorth` | internal/ratelimit/backend.go:73-89 | A call's reply depends only on what its bucket is worth, it takes what it admits, and a refusal counts as one violation more |
| `LocalBackend.AlikeRepliesSame` | internal/ratelimit/backend.go:49-103 | If rate*maxAge >= burst, any run with cleanups gives the replies of the run without them |
| `LocalBackend.Drain` | internal/ratelimit/backend.go:73-81 | n simultaneous calls get as many admissions as the bucket is worth, rounded down |
| `LocalBackend.TooEagerCleanupShows` | internal/ratelimit/backend.go:92-103 | If rate*maxAge < burst, there is a run whose replies a cleanup changes |
| `LocalBackend.CleanupUnobservableExactly` | internal/ratelimit/backend.go:49-103 | Cleanup is unobservable in all runs if and only if rate*maxAge >= burst or nothing is ever admitted (burst <= 0) |
| `RateLimitManager.Manager.Allow` | internal/ratelimit/backend.go:140-165 | A healthy primary that answers decides; otherwise the fallback does, and only then its bucket moves |
| `RateLimitManager.FallbackSeesItsOwn` | internal/ratelimit/backend.go:140-165 | The fallback answers as if the calls the primary answered had never been made; those get the primary's answer |
| `RateLimitManager.ShareOfEach` | internal/ratelimit/backend.go:140-156 | The fallback's share plus what its bucket is still worth stays within burst plus refill |
| `RateLimitManager.ManagerBound` | internal/ratelimit/backend.go:140-171 | Under any pattern of primary errors and health answers, admissions are at most the primary's plus the fallback's bound |
| `RateLimitManager.PrimaryShare` | internal/ratelimit/backend.go:140-146 | What the primary admits through the manager is at most what its script admits in the interval |
| `RateLimitManager.RedisWithFallbackBound` | internal/ratelimit/backend.go:140-156 | With Redis as primary one window admits at most two bursts, the window's overwrites and the fallback's refill, whatever fails |
| `Slots.CompiledSite.TryAcquireRequestSlot` | internal/proxy/proxy.go:1544-1557 | The swap loop, with the counter moved by others between load and swap, takes a slot if and only if the value it found last is below the limit |
| `Slots.CompiledSite.ReleaseRequestSlot` | internal/proxy/proxy.go:1559-1564 | Gives back one slot when there is a limit |
| `Slots.CompiledSite.TryAcquirePerIPSlot` | internal/proxy/proxy.go:1566-1583 | Takes one of the address's slots if and only if it is below its limit; other addresses keep theirs |
| `Slots.CompiledSite.ReleasePerIPSlot` | internal/proxy/proxy.go:1585-1599 | Gives back one of the address's slots and forgets the address at zero |
| `Slots.CountersAlwaysExact` | internal/proxy/proxy.go:1544-1599 | For every interleaving of load, swap and release steps, both counters equal their holders and stay within the limits |
| `Slots.RefusedExactlyAtLimit` | internal/proxy/proxy.go:1544-1599 | For every interleaving: a request is refused a per-address slot if and only if its address holds as many as the limit, turned away if and only if as many requests are being served as the other limit allows, and swaps if and only if the counter is what it saw |
| `Slots.NothingLeaks` | internal/proxy/proxy.go:776-787 | Once all requests are done, also those refused by the second acquire, the counter is 0 and the per-address map empty |
| `Slots.FailedSwapMeansProgress` | internal/proxy/proxy.go:1548-1556 | A swap fails only because another request moved the counter since the load |
| `RecencyList.List.PushFront` | internal/proxy/proxy.go:1923-1924 | A new element is linked in front of all others |
| `RecencyList.List.Remove` | internal/proxy/proxy.go:1859-1861 | The element is unlinked, the others keep their order |
| `RecencyList.List.MoveToFront` | internal/proxy/proxy.go:1865-1866 | The element moves to the front, the others keep their order |
| `ResponseCache.SameKeys` | internal/proxy/proxy.go:1836-1845 | Map and list hold the same keys, each once |
| `ResponseCache.Cache.Get` | internal/proxy/proxy.go:1847-1875 | On the abstract sequence: a hit moves to the front, an expired entry goes, a miss changes nothing; the result is the sequence's |
| `ResponseCache.Cache.Set` | internal/proxy/proxy.go:1877-1932 | On the abstract sequence: replaces the key, drops some sample of expired entries, evicts from the back, inserts in front; an oversized body changes nothing |
| `ResponseCache.Cache.EvictExpired` | internal/proxy/proxy.go:1896-1907 | Whatever order the map is walked in, the entries removed are expired ones, ten at most |
| `ResponseCache.Cache.EvictLeastRecent` | internal/proxy/proxy.go:1909-1921 | Leaves the most recently used entries, fewer than the limit |
| `ResponseCache.Cache.PurgeAll` | internal/proxy/proxy.go:1934-1947 | Empties the cache and returns how many entries there were |
| `LruModel.BoundedAndDistinct` | internal/proxy/proxy.go:1909-1931 | In every run no key is held twice and the size never exceeds maxEntries |
| `LruModel.KeptUntilCrowdedOut` | internal/proxy/proxy.go:1847-1947 | An unexpired entry is lost only by a purge or after at least maxEntries other keys were stored or hit since its last use |
| `LruModel.UsePutsInFront` | internal/proxy/proxy.go:1865-1866 | Storing a key, or getting it unexpired, puts it in front |
| `LruModel.HoldsLastStore` | internal/proxy/proxy.go:1923-1931 | What is held for a key is what the last store put there, under that store's expiry |
| `LruModel.GetAnswersLastStore` | internal/proxy/proxy.go:1847-1875 | In every run a Get answers something if and only if the key is held and the time is not past its expiry; then it is the response of the last store of the key with no purge since, unchanged, and that store's time plus ttl |
| `LruModel.StoredIsFound` | internal/proxy/proxy.go:1847-1931 | A stored response is found again as long as it has not expired and fewer than maxEntries other keys were stored or hit |
| `LruModel.ExpiredLeave` | internal/proxy/proxy.go:1896-1907 | A store drops every expired entry or ten of them |
| `UpstreamHealth.Target.MarkFailure` | internal/proxy/proxy.go:1782-1795 | On its own: both counters go up, and one that reaches its threshold trips and starts again |
| `UpstreamHealth.Target.MarkSuccess` | internal/proxy/proxy.go:1797-1802 | Clears both counters and both holds |
| `UpstreamHealth.CountersAreStreak` | internal/proxy/proxy.go:1782-1802 | Marks taken one at a time: both counters equal the failures since the last success modulo their thresholds |
| `UpstreamHealth.PassiveIsLastTrip` | internal/proxy/proxy.go:1782-1787 | Marks taken one at a time: the passive hold is on if and only if a trip after the last success is within its period |
| `UpstreamHealth.CircuitIsLastTrip` | internal/proxy/proxy.go:1788-1794 | Marks taken one at a time: the breaker is open if and only if a trip after the last success is within its period |
| `UpstreamHealth.SkippedExactlyWhileTripped` | internal/proxy/proxy.go:1767-1778 | Marks taken one at a time: a target is skipped at a time if and only if a trip after its last success is still within its period |
| `OverlappingMarks.CountIsConserved` | internal/proxy/proxy.go:1782-1802 | For every interleaving of the atomic operations the counter is the failures since the last success less what the resets discarded |
| `OverlappingMarks.ModuloLawExactly` | internal/proxy/proxy.go:1782-1795 | For every interleaving the counter is the failures modulo the threshold if and only if it is below the threshold and the discarded total is a multiple of it |
| `OverlappingMarks.NothingIsLostExactly` | internal/proxy/proxy.go:1782-1795 | Of a schedule with no reset outstanding, no reset discards another mark's failure if and only if no mark adds or clears between an add that reaches the threshold and its reset |
| `OverlappingMarks.UndisturbedModuloLaw` | internal/proxy/proxy.go:1782-1795 | An undisturbed schedule with no reset outstanding satisfies the modulo law |
| `OverlappingMarks.SettledInOrderExactly` | internal/proxy/proxy.go:1782-1802 | Undisturbed marks that have all ended leave the counter of one-step marks in counter order; they leave the hold of those if and only if the hold stored last is what the mark that cleared the counter last stores, which fails exactly when a success from before the last trip stored its zero after that trip's hold; then there is no hold |
| `OverlappingMarks.LateLiftDropsHold` | internal/proxy/proxy.go:1784-1799 | For every threshold there is an undisturbed, settled schedule with no hold although its trip came after every success |
| `OverlappingMarks.OverlappingMarksLoseAFailure` | internal/proxy/proxy.go:1782-1795 | For every threshold above one there is a schedule with all marks ended that has lost a failure |
| `OverlappingTarget.ProjectionsRun` | internal/proxy/proxy.go:1782-1802 | For every interleaving of whole marks, passive part before breaker part, each mechanism is where its own steps of the schedule take it |
| `OverlappingTarget.NeitherCounterLosesExactly` | internal/proxy/proxy.go:1782-1802 | For one schedule of whole marks, all ended: neither counter has lost a failure if and only if in neither mechanism a mark came between an add that reached the threshold and its reset |
| `OverlappingTarget.PassiveIsInOrder` | internal/proxy/proxy.go:1782-1787 | The passive steps, one step a mark, are the marks taken one at a time in the order they reach the passive counter |
| `OverlappingTarget.BreakerIsInOrder` | internal/proxy/proxy.go:1788-1794 | The breaker steps likewise, in the order they reach the breaker's counter, which may be another |
| `OverlappingTarget.SettledTargetExactly` | internal/proxy/proxy.go:1782-1802 | Once undisturbed marks have ended, the target's counters are those of one-step marks in each mechanism's order, and its holds too if and only if in neither mechanism a success from before the last trip stored its zero after that trip's hold; a dropped hold is zero |
| `OverlappingTarget.SettledSkippedExactly` | internal/proxy/proxy.go:1767-1802 | The target is then skipped at a time if and only if, in the order of one of the mechanisms, a trip after the last success is within its period and no such zero dropped its hold |
| `UpstreamPool.BuildWeightedPlan` | internal/proxy/proxy.go:1409-1426 | The plan gives each target its weight, at most 20, in turns, or one each if that leaves none |
| `UpstreamPool.PlanSharesTurns` | internal/proxy/proxy.go:1409-1419 | Target i occurs min(weight_i, 20) times in the plan |
| `UpstreamPool.WeightedFairness` | internal/proxy/proxy.go:1726-1731 | Any len(plan) consecutive weighted picks choose target i exactly min(weight_i, 20) times |
| `UpstreamPool.RoundRobinFairness` | internal/proxy/proxy.go:1720-1722 | k*n consecutive round-robin picks choose each of n targets exactly k times |
| `UpstreamPool.Pool.PickEach` | internal/proxy/proxy.go:1693-1731 | Picks one after the other while the same targets stay healthy choose each as often as the counter passes it: equally often in whole rounds under round robin, min(weight, 20) times per plan under weighted |
| `UpstreamPool.AnyRound` | internal/proxy/proxy.go:1728-1730 | A round of picks counts each index as the plan does, wherever the counter stands |
| `UpstreamPool.ManyRounds` | internal/proxy/proxy.go:1728-1730 | So do several rounds |
| `UpstreamPool.DrawsAreProportional` | internal/proxy/proxy.go:1732-1746 | Of the total weight's draws exactly weight_i select target i |
| `UpstreamPool.Pool.HealthyTargets` | internal/proxy/proxy.go:1749-1780 | The targets not skipped now, in order, by the fast path or the slow one |
| `UpstreamPool.HealthyInOrder` | internal/proxy/proxy.go:1749-1780 | These are all targets not skipped, in the order of the pool |
| `UpstreamPool.Pool.Pick` | internal/proxy/proxy.go:1693-1724 | Picks a healthy target by the strategy; a skipped one only if it is the pool's only target |
| `UpstreamPool.Pool.LeastActive` | internal/proxy/proxy.go:1708-1717 | The first of the healthy targets with the fewest active calls |
| `UpstreamPool.Pool.WeightedPick` | internal/proxy/proxy.go:1726-1747 | By the plan if all are healthy, otherwise by the draw |
| `RetryLoop.SentAgainExactly` | internal/proxy/proxy.go:831-918 | A request reaches an upstream more than j times if and only if it may be repeated (GET, HEAD or OPTIONS, body absent or replayable, no upgrade), more than j attempts are configured, each of the first j answers was retryable and the wait after it passed, and target and body were there once more |
| `RetryLoop.RetryableIs` | internal/proxy/proxy.go:2845-2863 | Retryable are the listed statuses, or without a list 504, 502 and 500 upwards, each as configured |
| `RetryLoop.DelayDoubles` | internal/proxy/proxy.go:2865-2876 | Without jitter the delay is none if disabled, the backoff if fixed, and twice the one before it if exponential, up to the maximum |
| `RetryLoop.JitterMoves` | internal/proxy/proxy.go:2877-2890 | Jitter moves the delay by at most its percentage, by any whole number of milliseconds either way, and not below zero |
| `RetryLoop.DelayBounded` | internal/proxy/proxy.go:2865-2890 | A delay is never negative nor more than twice the configured maximum |
| `RetryLoop.RetriesStopInTime` | internal/proxy/proxy.go:831-918 | The loop makes at most the effective attempts, goes on exactly after retryable answers with an undisturbed wait, and ends with the last answer or the timeout |
| `RetryLoop.BufferPool.Get` | internal/proxy/retry_buffer.go:25-34 | A pooled or new buffer that nobody else holds, reset |
| `RetryLoop.BufferPool.Put` | internal/proxy/retry_buffer.go:36-41 | The buffer goes back; it must not be there already |
| `RetryLoop.Exchange` | internal/proxy/proxy.go:838-878 | One attempt: the buffer before last goes back, the answer lands in a fresh one |
| `RetryLoop.Attempts` | internal/proxy/proxy.go:836-900 | No buffer is put back twice or while it is the final response; the calls and the outcome are the loop function's |
| `RetryLoop.ServeWithRetries` | internal/proxy/proxy.go:831-918 | The final response is read before its buffer goes back, and the pool ends with every buffer but those the code leaves to the collector |
| `Failover.NormalizeBaseURLs` | internal/clustersync/client.go:78-94 | Trimmed, without trailing slashes, blanks and repetitions, in order |
| `Failover.BaseURLsDistinct` | internal/clustersync/client.go:78-94 | The endpoints are distinct and none is blank |
| `Failover.BaseURLsMean` | internal/clustersync/client.go:78-94 | An endpoint is one of them if and only if some item is it with slashes after and space around; they come in the order they are first denoted |
| `Failover.FailoverCooldown` | internal/clustersync/client.go:429-446 | After n failures min(60s, 2s*2^(n-1)) |
| `Failover.CooldownDoubles` | internal/clustersync/client.go:429-446 | No cooldown without failures, two seconds after one, twice as long after each further one, a minute at most |
| `Failover.PrioritizedIsPermutation` | internal/clustersync/client.go:405-427 | The prioritised order is a permutation of the endpoints with eligible ones before held ones |
| `Failover.OrderGoesRound` | internal/clustersync/client.go:405-427 | Eligible endpoints, and held ones after them, come in the order of the ring that begins with the active one; if all are held the order is the configured one |
| `Failover.RequestStops` | internal/clustersync/client.go:302-330 | Each endpoint is called at most once; the request succeeds exactly when some endpoint answers and all tried before it allow failover, and that one becomes active with its failures cleared |
| `Failover.FailoverIsComplete` | internal/clustersync/client.go:302-341 | If all errors met allow failover and some endpoint would answer, the request succeeds at the first such one |
| `Failover.TransientIs` | internal/clustersync/client.go:332-341 | Failover goes on after anything but a rejected login and responses other than 5xx |
| `Failover.TryEnds` | internal/clustersync/client.go:307-325 | The endpoints called are those up to the first that answers or ends the request |
| `Failover.ReachableIsCoherent` | internal/clustersync/client.go:379-403 | In every reachable state a cooldown exists exactly for endpoints with failures, and both follow from the history of marks |
| `Failover.Client.PrioritizeEligibleEndpoints` | internal/clustersync/client.go:405-427 | Computes the prioritised order |
| `Failover.Client.MarkFailureAndSwitch` | internal/clustersync/client.go:379-393 | One failure more, and a cooldown from now on |
| `Failover.Client.MarkSuccess` | internal/clustersync/client.go:395-403 | Failures and cooldown of the endpoint are cleared, others keep theirs |
| `Failover.Client.WithFailover` | internal/clustersync/client.go:302-330 | Leaves the state, returns the error and calls the endpoints of the request function |
| `CertificateMirror.KeyTellsLooks` | cmd/flowproxy/main.go:1486-1516 | If no field but the error text holds a bar and no domain a comma, two certificates have the same cache key if and only if trimmed ID, kind and status ignoring case, update time, expiry, trimmed serial and error, and the cleaned domains as a multiset are equal |
| `CertificateMirror.DigestDeterminesKeys` | cmd/flowproxy/main.go:1518-1528 | If the keys of one list have no line ends, another list has the same keys with the same multiplicity if and only if it has the same digest and length |
| `CertificateMirror.OneLineDigest` | cmd/flowproxy/main.go:1518-1528 | Of two lists without line ends in their keys, equal digests alone mean the same keys |
| `CertificateMirror.ErrorTextMayMimicTwo` | cmd/flowproxy/main.go:1510-1528 | For any two certificates there is a single one, its error text spanning two lines, that has the digest of both |
| `CertificateMirror.DigestIsInitialized` | cmd/flowproxy/main.go:1447-1452 | No list has the digest a follower starts with, whatever texts its keys hold |
| `CertificateMirror.BuildMirroredCertificates` | cmd/flowproxy/main.go:1540-1592 | The list and the next cache, or the first error, of the build function |
| `CertificateMirror.CacheIsTransparent` | cmd/flowproxy/main.go:1551-1591 | Built through the cache, the list is what fetching every bundle afresh gives, and the next cache's domain is exactly the remote IDs |
| `CertificateMirror.BuildFailsExactly` | cmd/flowproxy/main.go:1551-1579 | The build fails if and only if a certificate has no ID, or one not cached under its key cannot be fetched |
| `CertificateMirror.FetchedAgainExactly` | cmd/flowproxy/main.go:1551-1591 | Of two builds one after the other the second takes a certificate's bundle from the first if it still looks the same, and has the bundle fetched then if it differs in any of these fields |
| `CertificateMirror.NewIsFetched` | cmd/flowproxy/main.go:1551-1591 | A certificate whose ID was not there before is fetched |
| `CertificateMirror.ChangeIsNoticed` | cmd/flowproxy/main.go:1518-1528 | Without line ends in the keys, a list in which some certificate looks like none of another list has another digest |
| `CertificateMirror.AlikeIsSkipped` | cmd/flowproxy/main.go:1518-1528 | Lists whose certificates look alike one by one have the same digest |
| `CertificateApply.Manager.ReplaceMirrored` | internal/certmgr/mirror.go:22-96 | Old files are removed before anything else; items change only after every bundle was written; an early end leaves the old items over what files there are, a failed save the new items |
| `CertificateApply.ReplacesExactly` | internal/certmgr/mirror.go:22-96 | An apply succeeds if and only if the old files can go, every bundle can be read and written and the certificates saved; items change if and only if it gets as far as saving |
| `CertificateApply.StopLeaves` | internal/certmgr/mirror.go:26-73 | An apply that stops at a bundle leaves the files of those before it, what was written of that one, and nothing else |
| `CertificateApply.CleanApplyServes` | internal/certmgr/mirror.go:36-95 | What an apply writes is served: each item with the certificate and key of its bundle |
| `CertificateApply.AttemptSpares` | internal/certmgr/mirror.go:26-73 | After any early end a certificate and key are in the files of an ID if and only if the removal left them or the attempt rewrote them |
| `CertificateApply.SkippedServesExactly` | cmd/flowproxy/main.go:1750-1761 | While the digest skips the apply, the remote set is served if and only if the last applied set has its keys and no attempt since spoiled it |
| `CertificateApply.AppliedIsRemoteExactly` | cmd/flowproxy/main.go:1703-1767 | After any successful mirroring run the remote set, as far as cache keys tell, is served with its own key material, if and only if not: the digest skipped the apply, and the last applied set has other keys or a failed apply since then spoiled it |
| `CertificateApply.CleanAppliesKeepRemote` | cmd/flowproxy/main.go:1750-1764 | If no apply fails, at whatever point, and keys have no line ends, every successful run leaves the remote set served |
| `CertificateApply.RenewalIsServed` | cmd/flowproxy/main.go:1703-1767 | A certificate that no longer looks as it did in the last applied and the last cached set is, after a successful run, served with the certificate and key of the bundle fetched in that run |
| `CertificateApply.SpoiledSetGoesUnnoticed` | cmd/flowproxy/main.go:1750-1761 | When the controller goes back after a failed apply of another set, the run succeeds as soon as it builds, without applying anything, and the set is served if and only if the failed apply did not spoil it |
| `CertificateApply.UnreadableBundleSpoils` | internal/certmgr/mirror.go:26-65 | A first bundle that cannot be read is enough to spoil every set with any readable bundle |
| `CertificateApply.LateStopSparesAll` | internal/certmgr/mirror.go:26-73 | An attempt that rewrote every certificate of the set in place before it stopped at another ID spoils nothing |
| `ClusterSync.RuntimeState.MarkFailure` | internal/clustersync/state.go:148-166 | Counts the failure and records stage, error text and time |
| `ClusterSync.RuntimeState.MarkSuccess` | internal/clustersync/state.go:136-146 | Clears the failure count and the recorded error |
| `ClusterSync.FailCloseStaysExactly` | internal/clustersync/state.go:235-275 | Active fail-close survives the passing of time and every event but a success or an actual change of configuration or mode, with exactly one exception: a new attempt before any success |
| `ClusterSync.FailCloseStays` | internal/clustersync/state.go:109-166 | Over whole runs it stays active once the follower had succeeded before or failed often enough |
| `ClusterSync.FailCloseOverRunsExactly` | internal/clustersync/state.go:109-275 | Over whole runs without success or actual change of configuration or mode it is active at the end if and only if the follower had succeeded before, or its failures add up to the threshold, or its last attempt is older than the stale period |
| `ClusterSync.FailCloseAfterRunsExactly` | cmd/flowproxy/main.go:388-394 | After any runs of the loop, which may change the configuration on the way, fail-close is active if and only if the follower's last configuration asks for it and the failures since the last success reach its threshold (10 if not positive), or some run failed and the last success (or the start of the last run if there is none) is longer ago than its stale period (five minutes if not positive) |
| `ClusterSync.LoopServesRemoteExactly` | cmd/flowproxy/main.go:1606-1768 | The certificate law over the loop itself, with runs that fail before or after the mirroring and runs with mirroring switched off in between |
| `ClusterSync.NeverSucceededFailCloseFlaps` | internal/clustersync/state.go:262-270 | A follower that never succeeded loses an active fail-close by trying again |
| `ClusterSync.NextClusterSyncDelay` | cmd/flowproxy/main.go:1454-1484 | The delay is base or backoff, capped, with its jitter, and not below the minimum |
| `ClusterSync.BackoffMultiplier` | cmd/flowproxy/main.go:1459-1466 | The doubling loop computes the capped power of two |
| `ClusterSync.BackoffDoubles` | cmd/flowproxy/main.go:1454-1471 | The wait before jitter is the interval, three seconds if not positive; after a failure at most a minute, and doubled with each of the next four |
| `ClusterSync.JitterBounded` | cmd/flowproxy/main.go:1472-1479 | The shift is at most a fifth of the delay either way |
| `ClusterSync.JitterIs` | cmd/flowproxy/main.go:1472-1479 | The shift is (2u-1) fifths of the delay without the fraction, nothing if the unit is out of range |
| `ClusterSync.FailingDelayBounded` | cmd/flowproxy/main.go:1454-1484 | After a failed run the delay lies between 500 ms and 72 s |
| `ClusterSync.SyncLoop.RunOnce` | cmd/flowproxy/main.go:1642-1793 | A run fails at the first failing stage; cache, digest, items and files are those of the mirror step, and the status that of the attempt, the fetch, the new configuration and one mark of failure or success |
| `ClusterSync.FailsInFirst` | cmd/flowproxy/main.go:1642-1793 | Of the thirteen stages in order a run fails in the first that does not go through; the fetch is marked after eight, the configuration is in force after twelve if it is accepted |
| `ClusterSync.MirrorAfterIs` | cmd/flowproxy/main.go:1703-1768 | A run keeps the cache of a list it built, the digest of one it applied, and what replacing left if it came to that |
| `ClusterSync.RunDoneIs` | cmd/flowproxy/main.go:1642-1793 | After a run the status has its start as last attempt, the times of fetch, apply, success or failure, exactly one failure more or none at all, the failing stage and error text, and the new configuration if the settings were stored and accepted, also when the run fails after that |
| `ClusterSync.SyncLoop.ApplyStage` | cmd/flowproxy/main.go:1750-1768 | Applies unless the digest is unchanged, and records the digest only after an apply that succeeded; items and files are those the apply leaves |
| `ClusterSync.SyncLoop.Loop` | cmd/flowproxy/main.go:1606-1621 | After every iteration the loop's failure count is the runtime status's; mirror and status are those of all runs in order |
| `ClusterSync.SyncLoop.Iterate` | cmd/flowproxy/main.go:1614-1621 | One iteration updates the count and waits the computed delay |
| `IPRules.MergeStringList` | internal/iprules/resolve.go:150-167 | Trimmed, without blanks, each value once, in order of first appearance |
| `IPRules.MergeInOrder` | internal/iprules/resolve.go:150-167 | Each nonblank value is kept once, in the order of first occurrences |
| `IPRules.MergeKeepsValues` | internal/iprules/resolve.go:150-167 | Merging keeps the set of values a list means |
| `IPRules.NormalizeIPRuleSourceOrder` | internal/settings/store.go:387-412 | The recognised kinds once each, then the missing ones; refused exactly when an item is not recognised |
| `IPRules.OrderIsComplete` | internal/settings/store.go:387-420 | Whatever is configured, every kind of source has exactly one place in the effective order |
| `IPRules.OrderMeans` | internal/settings/store.go:387-440 | The order is that of first mention in any of the spellings, then the default one; an item that spells no kind makes it the default order |
| `IPAccess.BuildEffectiveRuleSetMap` | internal/iprules/resolve.go:192-232 | The map holds each configured ID's last rule set with the country lists merged in task order |
| `IPAccess.SelectRuleSets` | internal/iprules/resolve.go:13-26 | The selected rule sets with their positions, or failure |
| `IPAccess.SelectionMeans` | internal/iprules/resolve.go:169-190 | Selected is every listed ID and then the single one, trimmed, blanks dropped, each once, in the order of first mention |
| `IPAccess.SortFactsSelected` | internal/iprules/resolve.go:27-32 | The sort keeps every item and puts, of any two, the one with the higher priority first, and of equal priorities the one selected first |
| `IPAccess.OrderUnique` | internal/iprules/resolve.go:27-32 | There is only one such order |
| `IPAccess.PolicyBuilder.AppendPolicySource` | internal/iprules/resolve.go:43-68 | Cleans the lists, leaves out a source without rules, extends the flat lists |
| `IPAccess.FlatMeans` | internal/iprules/resolve.go:64-68 | Each flat list means the values of that list of every contributing source |
| `IPAccess.ResolveSiteIPAccess` | internal/iprules/resolve.go:12-117 | Resolving gives the contributing sources in order, their names, the flat lists and the selected IDs |
| `IPDecision.ParseIPRules` | internal/proxy/proxy.go:2405-2427 | The valid rules in order, or failure at the first that is not |
| `IPDecision.ParseASNRules` | internal/proxy/proxy.go:2560-2573 | The AS numbers, or failure at the first text that is not one |
| `IPDecision.CompileIPAccessPolicy` | internal/proxy/proxy.go:2429-2521 | Compiles sources by lower-cased name in order, the flat lists if there are none |
| `IPMeaning.CompiledListsMean` | internal/proxy/proxy.go:2453-2482 | Compiling one source keeps what it says, whether it is valid and whether it allows anything |
| `IPMeaning.CountryListsMean` | internal/iprules/resolve.go:211-230 | The merged country lists mean exactly the addresses the enabled tasks feed into that list |
| `IPMeaning.LastRuleSetCounts` | internal/iprules/resolve.go:192-210 | Of several rule sets with an ID the last one configured counts |
| `IPMeaning.ConflictMeans` | internal/iprules/resolve.go:234-243 | Deny rules win only if the policy asks for it in one of three spellings |
| `IPAgreement.ResolutionFailsExactly` | internal/iprules/resolve.go:18-22 | Resolving fails if and only if a selected rule set does not exist; else it names the selected rule sets and the contributing sources in order |
| `IPAgreement.EachAgrees` | internal/iprules/resolve.go:43-68 | Leaving out empty sources and removing duplicates changes no verdict, no validity and not whether an allow rule exists |
| `IPAgreement.CompilingKeepsMeaning` | internal/proxy/proxy.go:2429-2550 | Resolve, compile, decide equals the direct first-match reading of the settings, rule sets ranked by descending configured priority and then by selection, default deny exactly when some allow rule exists, for IDs distinct ignoring the case of ASCII letters |
| `IPAgreement.RanksExist` | internal/iprules/resolve.go:27-32 | If every selected rule set exists there is such a ranking |
| `IPAgreement.FlatPolicyMeans` | internal/proxy/proxy.go:2486-2550 | A policy without sources is read as one source of the flat lists, deny first |
| `IPCollision.MeaningKeptExactly` | internal/proxy/proxy.go:2435-2446 | With any parser that knows a rule and an address it matches: a site's rules keep their meaning under all settings and for all clients if and only if no two selected IDs differ only in the case of ASCII letters or the site's own rules are invalid, so that nothing compiles |
| `IPCollision.ClashShows` | internal/proxy/proxy.go:2433-2451 | For any two selected IDs that differ only in case, and own rules that are valid, there are settings with that parser's rule that are decided wrongly |
| `IPCollision.InvalidOwnRules` | internal/proxy/proxy.go:2447-2482 | If the site's own rules are invalid, compiling fails under all settings, as the direct reading says |
| `SiteStore.NormalizeDomains` | internal/site/site.go:298-318 | The normalised primary domain and the sorted distinct extras |
| `SiteStore.DomainsOfOneSite` | internal/site/site.go:298-328 | No domain appears twice on one site, and none is empty |
| `SiteStore.AllDomainsMean` | internal/site/site.go:298-328 | The domains are the normalised primary one and the normalised others, blanks left out, the primary one first and the others sorted |
| `SiteStore.HostIsRead` | internal/site/site.go:284-292 | Space around it, an http or https scheme and a port leave a host what it is, in lower case |
| `SiteStore.NodesAreSame` | internal/node/store.go:71-77 | Two texts name the same node if and only if they differ in case and space around them only, blank ones counting as the default node |
| `SiteStore.StoredIs` | internal/store/store.go:234-260 | What is stored of a site: node and domains normalised, extra domains once each and sorted; ID, port, flag and protocol as given |
| `SiteStore.Store.EnsureDomainUniqueness` | internal/store/store.go:358-374 | Passes if and only if no site of the node with another ID shares a domain |
| `SiteStore.Store.EnsureListenPortUniqueness` | internal/store/store.go:376-389 | Passes if and only if no enabled site of the node with another ID has the port |
| `SiteStore.Store.EnsureExistingPortUniqueness` | internal/store/store.go:391-403 | Passes if and only if enabled ports are unique whatever the node |
| `SiteStore.Store.CreateSite` | internal/store/store.go:77-96 | Refused as invalid or taken, otherwise appended normalised, also when saving fails |
| `SiteStore.Store.UpdateSite` | internal/store/store.go:98-153 | Refused or applied to the first site with the ID, which keeps its ID and protocol |
| `SiteStore.Store.SetSiteEnabled` | internal/store/store.go:155-175 | Only the first site with the ID changes; enabling checks the port |
| `SiteStore.Store.DeleteSite` | internal/store/store.go:177-188 | Removes every site with the ID and no other |
| `SiteStore.RefusalMeans` | internal/store/store.go:77-188 | Each operation's errors in the order of its checks: invalid, a domain or a port of another site of the node, not found; none otherwise |
| `SiteStore.ChangesAre` | internal/store/store.go:77-188 | An accepted operation adds the item, changes the first site with the ID (an update takes all but ID and protocol from the patch, enabling the one flag), or removes the sites with the ID, and changes nothing else |
| `SiteStore.WithoutIsFilter` | internal/store/store.go:177-188 | Deleting keeps every other site |
| `SiteUniqueness.ChecksMean` | internal/store/store.go:358-389 | The two checks together are compatibility with every site of another ID |
| `SiteUniqueness.CreateKeepsExactly` | internal/store/store.go:77-96 | Create keeps uniqueness for every item if and only if no stored site without an ID claims a domain or port |
| `SiteUniqueness.UpdateKeepsExactly` | internal/store/store.go:98-153 | Update keeps uniqueness for every patch if and only if no later site with the same ID claims anything |
| `SiteUniqueness.EnableKeepsExactly` | internal/store/store.go:155-175 | Enabling keeps uniqueness if and only if no other site with the same ID holds the port |
| `SiteUniqueness.DeleteKeeps` | internal/store/store.go:177-188 | Delete keeps uniqueness |
| `SiteUniqueness.EveryRunKeepsUniqueness` | internal/store/store.go:77-188 | In every run from an empty store, with IDs of their own, domains and enabled ports stay unique on each node |
| `SiteUniqueness.ReloadsExactly` | internal/store/store.go:391-403 | Such a store passes the check on loading if and only if no two nodes share an enabled port |
| `SiteUniqueness.AcceptedButNotReloadable` | internal/store/store.go:391-403 | Two sites on different nodes with one port are accepted and then fail to load |
| `Router.Router.Load` | internal/proxy/proxy.go:421-497 | All or nothing: a failed load leaves the old tables, a successful one installs the built ones with wildcards longest first |
| `Router.SortByLength` | internal/proxy/proxy.go:471-473 | Longest first, the same entries, ties in any order |
| `Router.Router.LookupSite` | internal/proxy/proxy.go:987-999 | The exact host, else the first matching wildcard |
| `Router.DomainsAdded` | internal/proxy/proxy.go:454-468 | Adding a site's domains fails exactly at an exact host already taken, and otherwise adds them all |
| `Routing.LoadSucceedsExactly` | internal/proxy/proxy.go:421-466 | Loading succeeds if and only if every routed site compiles and no two share a host or port; then the tables say who serves what |
| `Routing.LoadErrorIsReal` | internal/proxy/proxy.go:421-466 | A failed load names the first site that cannot be added: it does not compile, or has a port or host of an earlier one |
| `Routing.LookupIsLongest` | internal/proxy/proxy.go:987-999 | However the sort orders ties, a lookup finds the exact host, or else the site of the longest wildcard suffix with which the host ends, and nothing exactly when there is none |
| `Routing.FilterSitesForNode` | cmd/flowproxy/main.go:1363-1373 | The node's sites, in order |
| `Routing.SitesOfNodeAre` | cmd/flowproxy/main.go:1363-1373 | These are the sites whose node is the same, blank ones counting as the default node |
| `Routing.StoredSitesRoute` | cmd/flowproxy/main.go:1363-1373 | After any run of the store, loading a node's sites never fails with a duplicate, and lookups go to the exact host or longest wildcard |
| `AccessLog.AccessLogStore.PruneLocked` | internal/proxy/log_store.go:255-269 | Drops the leading old rows, then all but the last maxRows |
| `AccessLog.AccessLogStore.Append` | internal/proxy/log_store.go:100-110 | Appends and prunes unless closed |
| `AccessLog.AccessLogStore.Query` | internal/proxy/log_store.go:112-146 | Returns exactly the first limit rows of the reversed, filtered log |
| `AccessLog.AccessLogStore.TakeSnapshot` | internal/proxy/log_store.go:205-213 | Takes the rows to write and marks the log clean |
| `AccessLog.AccessLogStore.MarkDirty` | internal/proxy/log_store.go:247-253 | Marks the log dirty unless closed |
| `AccessLog.AccessLogStore.Flush` | internal/proxy/log_store.go:205-245 | On its own, a flush writes the log or leaves it dirty |
| `AccessLog.PruneKeepsTheRecent` | internal/proxy/log_store.go:255-269 | For rows in time order, pruning keeps exactly the newest maxRows of those not older than the cutoff |
| `AccessLog.PruneKeepsTheNewest` | internal/proxy/log_store.go:266-269 | Without a retention exactly the last maxRows rows stay |
| `AccessLog.AnswerIsNewest` | internal/proxy/log_store.go:112-146 | The answer is fitting rows of the log from its end, at most the limit (50 if not positive), and leaves a fitting row out only if it is full of later ones |
| `AccessLog.LogIsBoundedSuffix` | internal/proxy/log_store.go:100-110 | In every interleaving the log is a suffix of the append history with at most maxRows rows |
| `AccessLog.AppendLeavesNoOldRow` | internal/proxy/log_store.go:100-110 | While rows arrive in time order no append leaves a row older than the retention |
| `AccessLog.CleanMeansOnDisk` | internal/proxy/log_store.go:148-253 | In every interleaving, clean with no write under way means the file is the log, also once closing is over, unless a failed write was reported to a closed and clean store |
| `AccessLog.LostExactly` | internal/proxy/log_store.go:205-253 | In every interleaving the file is the newest version of the log ever written; of a clean log with no write under way, the last version was never written if and only if such a report lost it |
| `AccessLog.LostRowIsMissing` | internal/proxy/log_store.go:205-253 | If the newest row is unlike any before it, it is then absent from the file if and only if it was lost |
| `AccessLog.LostForGood` | internal/proxy/log_store.go:247-253 | After such a report neither the log nor the file changes any more |
| `AccessLog.FailureReportedAfterCloseIsLost` | internal/proxy/log_store.go:86-98 | A concrete run in which the row being written at closing is lost |
| `Csv.ParseCSVRows` | internal/ui/web/index.core.js:648-699 | The character loop computes the scanner's rows, blank ones dropped |
| `Csv.ScanCell` | internal/ui/web/index.core.js:642-646 | A printed cell is read back whole, whatever commas, quotes and line ends it holds |
| `Csv.ScanQuotedPiece` | internal/ui/web/index.core.js:648-680 | A quoted piece adds to a cell what it quotes, wherever in the cell it stands |
| `Csv.EscapeIs` | internal/ui/web/index.core.js:642-646 | A cell without commas, quotes and line ends is printed as it is, any other between quotes |
| `Csv.LineEndsAlike` | internal/ui/web/index.core.js:648-699 | A file means the same rows whether its lines end in a line feed, a carriage return or both |
| `Csv.ParseAfterPrint` | internal/ui/web/index.core.js:1056-1057 | Parsing what was exported gives the rows back, except those without text |
| `Csv.RoundTripExactly` | internal/ui/web/index.core.js:642-699 | The round trip is the identity if and only if every row has some text |
| `Csv.ParseFailsExactly` | internal/ui/web/index.core.js:693-695 | A text is refused if and only if it has an odd number of quotes |

## Left out

- I/O: HTTP handlers, proxy transport, TLS, gRPC, WebSocket, L4 forwarding, timers, JSON, files and etcd; loads, saves and remote answers are parameters or abstract steps that may fail.
- Cryptography and foreign libraries: bundles are opaque bytes, and the laws about sets served take a bundle to be determined by its certificate's cache key; `CertificateMirror.KeyTellsLooks` says what a key tells, if only the error text holds bars.
- Regular expressions, route matching, rewrites and canary rules: library semantics.
- Parsing of CIDRs, addresses and AS numbers: `IPDecision.Net` takes which texts are valid and what they match as given.
- Machine widths: the 64-bit counters of round robin, `1 << attempt` and durations are unbounded integers; rounding of `float64` is not modelled.
- Letters outside ASCII: `Text.Lower` and `Text.Upper` map A to Z only, so wherever case is ignored only that of ASCII letters is.
- Site configuration reloads: `Router.Load` discards limiter, cache and counters, so the bounds above hold for one compiled site at a time.
- Bookkeeping around the modelled state: log lines, login state per endpoint, event history, certificate status, site totals and the sorted domain list of the router, and the legacy single rule-set ID that resolving rewrites.
- `ReplaceAll` of the site store: it replaces all sites without any uniqueness check, so nothing is claimed after it.
- Leader election, backup pruning, `L4Proxy.Sync`, settings merging, field validation, metrics and the rest of the UI.
- RateLimiter.AdmissionBound: takes the calls of one client in the order of their lock, at nondecreasing times; the code reads the clock before it takes the lock.
- UpstreamHealth.Target.MarkFailure: takes a mark as one step; `OverlappingTarget` takes its atomic operations one by one.
- UpstreamHealth.CountersAreStreak: for marks taken one at a time; under overlap see `OverlappingMarks.ModuloLawExactly`.
- UpstreamHealth.PassiveIsLastTrip: for marks taken one at a time; under overlap `OverlappingTarget.SettledSkippedExactly` says when it holds, once undisturbed marks have ended, and nothing is claimed of a hold while marks are under way or disturb each other.
- UpstreamHealth.CircuitIsLastTrip: likewise.
- UpstreamHealth.SkippedExactlyWhileTripped: likewise; and a pick is taken to read both holds at once.
- CertificateApply.Manager.ReplaceMirrored: leaves out the dates, serial, issuer and status taken from the certificate, and keys files by the ID, not by its cleaned-up directory name.
- ClusterSync.FailCloseAfterRunsExactly: configurations put in force from elsewhere, between or during runs, are not among the runs.
- IPCollision.MeaningKeptExactly: case is that of ASCII letters; IDs that differ in the case of other letters are also overwritten, and the model takes them for distinct.
- CertificateApply.AppliedIsRemoteExactly: takes the IDs within one remote list to be distinct and compares cache keys and key material; name, ACME settings and the dates read from the certificate are not compared. What the disk and the bundle parser do is a parameter.
- CertificateMirror.DigestDeterminesKeys: one of the two lists has keys without line ends; `ErrorTextMayMimicTwo` shows that this matters.
- SlidingWindow.ScriptIsExact: entries of equal score keep the order they were added in, where Redis orders them by member; no law depends on it.
- SlidingWindow.RetryAfterIsExact: about the number the script computes; Redis hands a fraction on as an integer, and the client reports none.
- SiteUniqueness.CreateKeepsExactly: whether validation accepts an item is a parameter; stored sites are taken to be fixed points of normalisation.
- CertificateMirror.KeyTellsLooks: for certificates with bars in the error text only and no commas in domains; the join does not quote its parts, so others can collide.
- RateLimiter.BlocksExactly: for calls at nondecreasing times.
- RetryLoop.DelayBounded: for a configured maximum backoff and jitter of at most 100 percent.
