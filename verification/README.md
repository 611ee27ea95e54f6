# Verified models of the go-stealth operational layer

These Dafny modules model the state machines and algorithms under the HTTP client of go-stealth and
prove what every run of them keeps. No networking is modelled. Clock readings, random draws, name
lookups, page fetches, backend replies and context cancellations are explicit inputs, so each
theorem quantifies over all of them.

`dafny verify dfyconfig.toml` checks the whole project.

| module | what it models |
|---|---|
| `Prelude`, `Sequences`, `Clock`, `GoInt`, `Float64`, `Rotation`, `Text` | Option and Result; lists without duplicates; Go's saturating time arithmetic in nanoseconds; sums that wrap around and conversions to int64; float64 rounding; positions on a ring; `strings.Split`, `Join`, `TrimSpace`, `Trim` |
| `SingleFlight` | one leader per key, joiners share its result; used by the two protocols below |
| `WebshareRefresh`, `WebshareClose`, `WebshareFetch` | the Webshare credential refresher as interleaved steps; why its Close can always return; configuration, paging and URL building as the imperative code they are |
| `SiteIntel` | the per-domain technology cache as interleaved steps |
| `ProxyAllow`, `ProxyAllowRun` | the class behind the dial guard, then its whole histories and interleaved `apply` calls |
| `ExtensionOrder` | the in-place shuffle of movable TLS extensions |
| `RateStore`, `RateSliding`, `RateLimit`, `DomainLimit` | the window counters, how far they are from sliding ones, the adaptive limiter, the per-host limiter |
| `Health`, `Backoff`, `Pool` | trip counting, cooldown lengths, the identity pool |
| `HealthyPool`, `HealthyRun` | the health filter over a rotation, one call at a time, then interleaved |
| `Retry`, `ClientRetry` | the two retry loops, refined to a closed-form trace |
| `SecChUa`, `SetCookie` | two string round trips |

Code that updates fields is a class, code that loops is a loop, and each such method is tied to a
specification function; the lemmas are about those functions. Protocols whose methods interleave are
step systems, with one event per section the source runs under a lock or as one atomic operation.

## Where the code is narrower than its words

The model follows the code; the members named here prove what it does.

- The "sliding window" (`ratelimit/domain.go:22`) is a tumbling one (`ratelimit/store.go:64`): an
  interval of one window length never holds more than twice the cap (`RateStore.IntervalBound`), and
  that much for every cap and every window that can expire (`RateSliding.TwiceTheCap`). It does slide
  exactly when no more than the cap's number of admissions straddle a reset within a window length
  (`RateSliding.SlidesExactly`).
- `AvailableAt` promises the time at which the key becomes available and gives the earlier of the block
  and the window end. Nothing is let through before it (`RateLimit.AvailableAtSound`); it is that time
  exactly when it is the end of a block outside of which the window would not refuse
  (`RateLimit.AvailableAtExactly`), and it can be far too early (`RateLimit.AvailableAtTooEarly`). Window
  expiry is strict, so "zero time if available right now" is false at the closing instant of a full
  window (`RateLimit.AvailableNowExactly`).
- `Pool.AvailableIn` promises 0 when an item is available now. It looks only at active flags, so the
  promise fails exactly when the ready items are all inactive ones past their cooldown and another is
  still cooling down (`Pool.ZeroWhenReadyExactly`). A cooldown is over strictly after its end, so a
  `NextWithWait` that wakes at that very instant can come back empty (`Pool.WaitingServes`).
- A proxy switch that the backend rejects still costs the oldest remembered URL when 64 were
  remembered (`ProxyAllowRun.RejectedFirstSwitch`, `ProxyAllowRun.RejectedAtTheBound`).
- A second `Close` returns while a fetch may be running (`WebshareRefresh.SecondCloseReturnsEarly`); its
  return means what the first one's means exactly when no goroutine is left at that moment
  (`WebshareClose.LaterCloseExactly`).
- `HealthyProxyPool.Next` "falls back ... if all proxies are unhealthy" (`proxypool/healthy.go:95`). Calls
  that interleave can make one fall back, and return a cooling proxy, although a listed one is healthy
  throughout (`HealthyRun.FallsBackOverHealthy`). A call that falls back has found all of them cooling
  exactly when its draws hit different slots (`HealthyRun.FallBackExactly`), as they do when nobody else
  draws meanwhile (`HealthyRun.UndisturbedFallBack`).
- A proxy is deactivated "at" its failure threshold, says `proxypool/healthy.go:40`. The code asks for
  more (`HealthyPool.AtHalfNotDeactivated`): a failure rate above the stored threshold, and a success rate
  and complement that do not round to the same float64 (`HealthyPool.UnhealthyExactly`). So for decimal
  thresholds rounding decides (`HealthyPool.SevenOfTen`, `HealthyPool.ThreeOfTen`), for the default one half
  it does not (`HealthyPool.UnhealthyAtExactThresholds`).
- "Pool exhausted ... without sending any request" (`client.go:374`) is not what the code ensures: earlier
  attempts may have reached the backend (`ClientRetry.ExhaustedAfterSending`). The block statuses are 403,
  429, 502 and 503; the comment at `client.go:370` names two of them.
- With `MaxRetries < 0` the retry loop returns the zero value with a nil error (`Retry.RetryDo`).
- The retry loop converts its wait to a Duration before it caps it (`retry.go:69`), converts the jitter by
  itself and adds the two (`retry.go:74-75`). Where an overflowing conversion yields the smallest int64, waits
  without jitter collapse from the first attempt that leaves the range (`Retry.WaitsGrowExactly`), which for
  500 ms and factor 2 is attempt 35 (`Retry.DefaultLeavesRange`). With jitter the sum wraps around: the loop
  can sleep for about 248 years under a cap of 10 s (`Retry.DefaultSleepsForYears`). No draw carries a wait
  past the cap stretched by the jitter exactly under the condition of `Retry.WithinExactly`.
- `WithRetryOnBlock(n)` promises 1 + n attempts (`client_options.go:231`). For the largest int that sum wraps
  around, no attempt is made, and the trailing return "unreachable, but satisfies compiler"
  (`client.go:454`) hands out no reply and a nil error (`ClientRetry.LargestRetriesSendNothing`); for no other
  client (`ClientRetry.AttemptsExactly`).
- `secChUa` renders a value for a Chromium major (`profile.go:412`). For 9223372036854775807 the index
  `seed+1` wraps around to a negative one and it panics; for every other text it writes a value
  (`SecChUa.Write`, `SecChUa.LargestVersionPanics`).
- `MinDelay` is "the minimum delay between consecutive requests" (`ratelimit/domain.go:25`). When it and a
  random draw wrap around the request is let through at once. It is kept exactly when it is none, the sum
  fits, or the budget alone never admits twice (`DomainLimit.SpacedExactly`).
- "A trip <= 0 is treated as trip 1" (`pool/options.go:36`) holds for every int but the smallest, from which
  `trip - 1` wraps around (`Backoff.FirstTripExactly`).
- A single `Set-Cookie` value that is empty survives the round trip, an empty one among several does not
  (`SetCookie.CookiesRoundTrip`).

## Model

| member | source | states |
|---|---|---|
| `SingleFlight.OneLeader` | proxypool/webshare_refresh.go:65-70 | A key has at most one leader at a time. |
| `SingleFlight.EnterEffect` | proxypool/webshare_refresh.go:65-70 | Whoever calls while a flight is up joins it, otherwise leads; nobody else's role changes. |
| `SingleFlight.LandEffect` | proxypool/webshare_refresh.go:65-70 | Landing a flight frees its leader and all its joiners and no one else. |
| `WebshareRefresh.AtMostOneFetch` | proxypool/webshare_refresh.go:65-85 | In every run of periodic refreshes, 407 reports and Close, at most one credential fetch is in flight. |
| `WebshareRefresh.Balanced` | proxypool/webshare_refresh.go:45-107 | In every state of every run the WaitGroup equals the live refresher goroutines; completed fetches equal successes plus failures but for the one being counted, and exactly so, and equal to the fetches started, when no flight is up. |
| `WebshareRefresh.TriggersApart` | proxypool/webshare_refresh.go:87-107 | Any two instants stored as the last trigger are at least the minimum gap apart. |
| `WebshareRefresh.TriggeredExactly` | proxypool/webshare_refresh.go:91-107 | In every run a 407 report starts a refresh exactly when the pool is open and every stored trigger instant is at least the minimum gap before the reading; exactly then its own instant is stored. |
| `WebshareRefresh.ListChangesOnSuccess` | proxypool/webshare_refresh.go:65-85 | The live list is never empty, and changes only when the flight's leader stores a list that its fetch returned. |
| `WebshareRefresh.ToldInRuns` | proxypool/webshare_refresh.go:69-121 | In every interleaving the live list is the one last stored of those fetched; successes are the stores, failures the failed fetches, each but for one not counted yet; auth failures are the reports; the last refresh time is the last stamp. |
| `WebshareRefresh.LoopLives` | proxypool/webshare_refresh.go:45-63 | The periodic loop lives until the context is cancelled, and there is one. |
| `WebshareRefresh.JoinsFlight` | proxypool/webshare_refresh.go:65-70 | A trigger during a refresh joins it instead of starting a fetch, and returns when that flight lands. |
| `WebshareRefresh.QuiescentAfterClose` | proxypool/webshare_refresh.go:123-140 | From the return of the first Close on, no refresher goroutine exists, so no fetch runs or starts, and list, counters and last refresh time stay as they are. |
| `WebshareRefresh.NoSpawnOnceClosed` | proxypool/webshare_refresh.go:96-107 | Once the pool is closed no step adds a goroutine or raises the WaitGroup, and it stays closed. |
| `WebshareRefresh.SecondCloseReturnsEarly` | proxypool/webshare_refresh.go:126-130 | A concrete run in which a second Close has returned and a fetch is running. |
| `WebshareRefresh.WaitGroupStep` | proxypool/webshare_refresh.go:45-107 | Every step keeps the WaitGroup equal to the number of live goroutines. |
| `WebshareRefresh.CountersStep` | proxypool/webshare_refresh.go:69-85 | Every step keeps started, completed, success and failure counts in step with the phase of the flight's leader. |
| `WebshareRefresh.TriggersStep` | proxypool/webshare_refresh.go:96-107 | Every step keeps the stored trigger instants one gap apart and not in the future. |
| `WebshareRefresh.InvStep` | proxypool/webshare_refresh.go:36-140 | One step of any goroutine keeps the whole invariant. |
| `WebshareClose.NeverStuck` | proxypool/webshare_refresh.go:123-140 | In any reachable state after cancellation with goroutines left, one of them has a step to take that lowers the total left to take: no deadlock on the flight. |
| `WebshareClose.StepsBounded` | proxypool/webshare_refresh.go:53-107 | In every run of a closed pool and under every schedule, the goroutines take at most a fixed number of steps between two wake-ups. |
| `WebshareClose.CloseCanReturn` | proxypool/webshare_refresh.go:135-139 | From every reachable state after cancellation the goroutines can run to their end by their own steps, within that number, after which the first Close can return. |
| `WebshareClose.FairCloseReturns` | proxypool/webshare_refresh.go:123-140 | In every endless fair run in which the context is cancelled, the first Close returns, with no goroutine left. |
| `WebshareClose.LaterCloseExactly` | proxypool/webshare_refresh.go:123-130 | When a later Close returns, no goroutine moves again and list and counters stay, however the run goes on, exactly when no goroutine is left at that moment. |
| `WebshareClose.WindingShrinks` | proxypool/webshare_refresh.go:53-107 | Every step of any goroutine other than a wake-up lowers that number. |
| `WebshareFetch.ValidateAndDedup` | proxypool/webshare_country.go:48-62 | Succeeds exactly when all codes are two capital letters, with the first occurrences in order; otherwise reports the first bad code. |
| `WebshareFetch.DedupedInOrder` | proxypool/webshare_country.go:48-62 | Removing duplicates keeps the order of first appearance. |
| `WebshareFetch.ApplyConfigDefaults` | proxypool/webshare_country.go:15-46 | Fails exactly on a bad code; otherwise every field is the given one or its default, and the result has distinct valid countries, a positive page size and gap. |
| `WebshareFetch.FetchAllProxies` | proxypool/webshare_fetch.go:18-40 | Yields everything on the pages up to the first without a successor, at most 50; or the error of the first page that fails, or the empty-result error. |
| `WebshareFetch.PagedUnique` | proxypool/webshare_fetch.go:18-40 | The pages alone decide that outcome: no two different answers fit it. |
| `WebshareFetch.InjectCountryModifiers` | proxypool/webshare_country.go:89-113 | The loops build the list of all rows, one per proxy. |
| `WebshareFetch.InjectedBlocks` | proxypool/webshare_country.go:89-113 | The list has one URL per proxy and country, and proxy i's URL for country j stands at i times the number of countries plus j. |
| `WebshareFetch.UrlReadBack` | proxypool/webshare_country.go:92-109 | Split at "@" and ":", each such URL yields the user name with its country, the password, the host or else the gateway, and the port, when no part holds a separator. |
| `WebshareFetch.Fetch` | proxypool/webshare.go:106-112 | What the stored fetch closure returns in each mode, errors included. |
| `WebshareFetch.BuildRotatingUrls` | proxypool/webshare.go:210-218 | The loop builds one gateway URL per country, in order. |
| `WebshareFetch.RotatingIsInjected` | proxypool/webshare_country.go:89-113 | Those are the URLs the country modifiers make of a single proxy without an address on port 80: the two ways of building URLs agree. |
| `WebshareFetch.FetchableNonEmpty` | proxypool/webshare_fetch.go:36-38 | With validated configuration a successful fetch never returns an empty list. |
| `SiteIntel.OneAnalysisPerDomain` | site_intel.go:66-77 | In every interleaving of Gets at most one analysis of a domain runs at a time. |
| `SiteIntel.AnalyzedOnlyWhenStale` | site_intel.go:68-77 | As long as an analysis runs its domain has no fresh entry. |
| `SiteIntel.FreshNeverOverwritten` | site_intel.go:99-101 | Storing a result never overwrites a fresh entry. |
| `SiteIntel.SuccessesApart` | site_intel.go:58-104 | Any two successful analyses of a domain are at least the time-to-live apart. |
| `SiteIntel.JoinersShare` | site_intel.go:66-111 | Exactly the calls waiting for a domain's flight return with its leader's answer when it lands; all others are untouched. |
| `SiteIntel.AnswersOwnDomain` | site_intel.go:58-112 | Any information a call returns was stored for the domain it asked about. |
| `SiteIntel.LooksExactly` | site_intel.go:61-75 | In every run a first look ends its call exactly with what was stored last for its domain when that is younger than the time-to-live at the reading, and the second look spares the analysis exactly then. |
| `SiteIntel.AnswerSettled` | site_intel.go:66-104 | A leader hands on what its own second look found young, the technologies and time of its own analysis, or, when that failed, nothing. |
| `SiteIntel.InvStep` | site_intel.go:58-112 | One step of any call keeps the whole invariant. |
| `SiteIntel.DetectWaf` | site_intel.go:87-97 | Returns the known name matched by the first matching technology, or nothing when none matches. |
| `ProxyAllow.ProxyAllowance.Remember` | proxy_allow.go:124-141 | The URL becomes the newest, only the oldest beyond 64 goes, all others keep their endpoints, and the snapshot is republished. |
| `ProxyAllow.ProxyAllowance.Forget` | proxy_allow.go:143-152 | Exactly this URL leaves and the snapshot is republished. |
| `ProxyAllow.ProxyAllowance.Publish` | proxy_allow.go:154-160 | The snapshot is the order mapped to endpoints. |
| `ProxyAllow.ProxyAllowance.Guard` | proxy_allow.go:162-197 | A dial passes exactly when the inner guard accepts it, or its network is not one of the three unix ones and a remembered URL has its port and, among its addresses, its address. |
| `ProxyAllow.ProxyAllowance.Allows` | proxy_allow.go:162-182 | True exactly when the address parsed and an endpoint of the snapshot has its port and address. |
| `ProxyAllow.ProxyAllowance.BeginSwitch` | proxy_allow.go:212-217 | The endpoint is remembered before the backend switches; a failed lookup changes nothing. |
| `ProxyAllow.ProxyAllowance.EndSwitch` | proxy_allow.go:218-225 | A rejected switch to a URL that was not remembered before is forgotten; any other outcome changes nothing. |
| `ProxyAllow.ProxyAllowance.Apply` | proxy_allow.go:199-225 | The whole switch with nobody else at it: a lookup is used only for an unknown URL, a resolved URL becomes the newest, a rejected unknown one leaves the list as it was or one short. |
| `ProxyAllow.WithoutDistinct` | proxy_allow.go:127-152 | Dropping the first occurrence from a duplicate-free list removes exactly that URL. |
| `ProxyAllowRun.OrderIsSuffix` | proxy_allow.go:127-152 | After any history the remembered order is a duplicate-free suffix, at most 64 long, of the list of URLs by last use. |
| `ProxyAllowRun.OrderExact` | proxy_allow.go:127-141 | When no switch was rejected it is exactly the last 64 of that list. |
| `ProxyAllowRun.ForgottenOnlyAfter64` | proxy_allow.go:136-139 | A URL in use that is no longer remembered has had at least 64 distinct other URLs used since. |
| `ProxyAllowRun.RejectedFirstSwitch` | proxy_allow.go:204-225 | A rejected first switch restores the list exactly when the bound was not reached; at the bound it costs the oldest. |
| `ProxyAllowRun.RejectedAtTheBound` | proxy_allow.go:136-139 | A history that reaches the bound, and there a rejected first switch that loses the oldest URL. |
| `ProxyAllowRun.RememberedInRuns` | proxy_allow.go:204-225 | In every interleaving of two-phase apply calls the order's URLs are the map's keys, the snapshot is the order mapped to endpoints, rejected switches undo only their own use, and the order is the suffix above. |
| `ProxyAllowRun.LeavesOnly` | proxy_allow.go:136-150 | In every run a URL leaves only by its own rejected first switch or with 64 distinct others used since its last use. |
| `ProxyAllowRun.AllowedDuringSwitch` | proxy_allow.go:199-202 | While the backend switches to a resolved proxy the snapshot lets its endpoint through. |
| `ProxyAllowRun.DialExactly` | proxy_allow.go:184-197 | In every interleaving, whoever holds the lock, a dial passes exactly when the inner guard accepts it, or its network is not one of the three unix ones and a remembered URL has its port and address. |
| `ProxyAllowRun.EndpointsLookedUp` | proxy_allow.go:199-225 | In every interleaving the endpoint of a remembered URL is one that a lookup for this URL gave. |
| `ProxyAllowRun.InvStep` | proxy_allow.go:204-225 | One step of any apply call keeps the whole invariant. |
| `ExtensionOrder.ShuffleMovableExtensions` | extension_order.go:36-51 | The in-place loop leaves fixed slots alone and the movable ones as the shuffle of that draw vector. |
| `ExtensionOrder.CollectMovable` | extension_order.go:39-46 | The first loop finds exactly the movable positions, ascending. |
| `ExtensionOrder.OthersMove` | extension_order.go:40-46 | GREASE, padding and pre-shared key stay in their slots; every other extension is movable. |
| `ExtensionOrder.UniformOverRearrangements` | extension_order.go:16-51 | The results are exactly the rearrangements of the movable slots, and when the movable extensions differ each comes from exactly one draw vector. |
| `ExtensionOrder.OneVectorExactly` | extension_order.go:38-51 | Different draw vectors always give different results exactly when no two movable extensions are equal. |
| `ExtensionOrder.MovesSlots` | extension_order.go:47-50 | Which slot each slot's content comes from is decided by the draws alone, whatever the slots hold. |
| `ExtensionOrder.UniformOverSlots` | extension_order.go:16-51 | Draw vectors and permutations of the slots are in bijection, for every ClientHello, with equal extensions or without. |
| `ExtensionOrder.ResultDetermined` | extension_order.go:38-51 | A draw vector gives one result. |
| `ExtensionOrder.ShuffledKeepsElements` | extension_order.go:47-50 | The shuffle permutes, also with repeated elements. |
| `ExtensionOrder.DrawsDetermined` | extension_order.go:47-50 | Equal results on distinct elements come from equal draws. |
| `ExtensionOrder.DrawsExist` | extension_order.go:47-50 | Every permutation has a draw vector. |
| `RateStore.MemoryStore.Increment` | ratelimit/store.go:57-71 | Restarts an expired window at this instant, counts one request, keeps the block and every other key. |
| `RateStore.MemoryStore.Count` | ratelimit/store.go:73-86 | Zero for an unknown key or an expired window. |
| `RateStore.MemoryStore.SetBlocked` | ratelimit/store.go:88-93 | Sets the block, keeping count and window. |
| `RateStore.MemoryStore.GetOrCreate` | ratelimit/store.go:105-112 | An unknown key gets a window starting now. |
| `RateStore.EpochBound` | ratelimit/store.go:57-71 | In any history of increments and blocks, a window epoch admits at most the largest cap in force. |
| `RateStore.CountExactly` | ratelimit/store.go:57-71 | The count is exactly the number of requests made since the window opened, whatever was blocked in between. |
| `RateStore.AdmittedExactly` | ratelimit/store.go:57-71 | A request is let through exactly when no more than its cap have been made in its window. |
| `RateStore.WindowsApart` | ratelimit/store.go:64-67 | Two epochs later the window began more than one window length after the request. |
| `RateStore.AdjacentEpochs` | ratelimit/store.go:64-67 | Requests within one window length of each other lie in the same or adjacent epochs. |
| `RateStore.IntervalBound` | ratelimit/store.go:57-71 | Any closed interval of one window length holds at most twice the largest cap of admissions. |
| `RateSliding.TwiceTheCap` | ratelimit/store.go:64-67 | That bound is attained for every cap and every window that can expire, so the window does not slide. |
| `RateSliding.SlidesExactly` | ratelimit/store.go:57-71 | No interval of one window length holds more than c admissions exactly when no more than c of them straddle any one reset within a window length. |
| `RateSliding.SlidesWhenRestsLong` | ratelimit/store.go:64-67 | It is so when every reset comes more than a window length after each admission of the window it replaces. |
| `RateSliding.BreaksWhenFull` | ratelimit/store.go:64-67 | It is not when a window is full and the next one admits within a window length of its first admission. |
| `RateSliding.FullWindowsMaySlide` | ratelimit/store.go:64-67 | Two full windows one nanosecond apart that still never put more than the cap into one window length. |
| `RateLimit.Limiter.Allow` | ratelimit/ratelimit.go:114-124 | A blocked poll changes nothing; any other is recorded as one increment and allowed exactly when the history admits it; other keys are untouched. |
| `RateLimit.Limiter.UpdateLimit` | ratelimit/ratelimit.go:77-94 | A positive limit replaces this key's cap, others are ignored, no other key's cap moves. |
| `RateLimit.Limiter.MarkRateLimited` | ratelimit/ratelimit.go:126-131 | Sets the block for this key only. |
| `RateLimit.Limiter.IsRateLimited` | ratelimit/ratelimit.go:133-147 | Answers by the block, the count and the cap, changing nothing. |
| `RateLimit.Limiter.AvailableAt` | ratelimit/ratelimit.go:149-171 | Changes nothing and answers the earlier of the limits in force, which is the instant `RateLimit.AvailableAtLastRefusal` is about. |
| `RateLimit.AvailableAtLastRefusal` | ratelimit/ratelimit.go:149-171 | Without a block a nonzero answer is the last refusing instant: a poll then is refused, one a nanosecond later is let in. With a block it is the earlier of the end of the block and the answer without it. |
| `RateLimit.Limiter.KeyBound` | ratelimit/ratelimit.go:87-124 | The interval bound for every key of a live limiter, caps changing and polls refused or not. |
| `RateLimit.AvailableAtSound` | ratelimit/ratelimit.go:149-171 | With caps and blocks unchanged every poll before the returned time is refused, whatever was polled in between. |
| `RateLimit.AvailableAtExactly` | ratelimit/ratelimit.go:149-171 | For every cap and window, the key is available at the time returned exactly when that is the end of a block and the window would let a request in by then. |
| `RateLimit.AvailableAtTooEarly` | ratelimit/ratelimit.go:164-166 | A used-up window inside a block: the answer is the window's end, and polls then and forty instants later are refused. |
| `RateLimit.AvailableNowExactly` | ratelimit/ratelimit.go:149-171 | When "zero time if available right now" holds, for every cap and window. |
| `RateLimit.LimitedIffRefused` | ratelimit/ratelimit.go:114-147 | At one instant IsRateLimited says the opposite of Allow exactly under this condition, which holds whenever the cap is positive. |
| `RateLimit.OpensAgain` | ratelimit/ratelimit.go:114-124 | Past the block and the window a poll is allowed. |
| `DomainLimit.MatchRule` | ratelimit/domain.go:117-134 | Finds the first matching rule, or none. |
| `DomainLimit.WildcardCovers` | ratelimit/domain.go:126-131 | A `*.base` rule covers exactly base and its subdomains. |
| `DomainLimit.MatchesExactly` | ratelimit/domain.go:118-133 | A pattern covers every host when empty, the host it spells, and as a wildcard its base and all below; no other. |
| `DomainLimit.DomainLimiter.Allow` | ratelimit/domain.go:55-86 | What a poll does to its host's window, last request and history of uses, and that every other host is untouched. |
| `DomainLimit.DomainLimiter.GetLimiter` | ratelimit/domain.go:136-146 | Finds or makes the host's limiter without changing any host's state. |
| `DomainLimit.DomainLimiter.MarkRateLimited` | ratelimit/domain.go:103-115 | Blocks this host if a rule covers it, no other. |
| `DomainLimit.MarkedRefuses` | ratelimit/domain.go:102-115 | In any history a marked host is refused until then, unless marked again. |
| `DomainLimit.DomainLimiter.MarkedStaysRefused` | ratelimit/domain.go:102-115 | So it is in the history of a live limiter. |
| `DomainLimit.DomainLimiter.Wait` | ratelimit/domain.go:89-101 | A host no rule covers passes at once; otherwise it gives up only when cancelled, every poll refused on the way came before the host was due at that moment, whatever others did to it, or with no others before it was due at the start, and without a request budget it ends only by cancellation. |
| `DomainLimit.RefusedEarly` | ratelimit/domain.go:65-82 | The same over any sequence of polls and uses by others. |
| `DomainLimit.DueAdmits` | ratelimit/domain.go:55-86 | A poll past the block, the window end and the longest delay is admitted, whether delays wrap around or not, so Wait finishes. |
| `DomainLimit.RefusedKeepsDue` | ratelimit/domain.go:65-82 | A refused poll does not put that instant off, and one refused for spacing leaves the window budget untouched. |
| `DomainLimit.Spaced` | ratelimit/domain.go:65-84 | In any history, two admissions to one host are at least the minimum delay plus the later one's random draw apart, if no delay wraps around. |
| `DomainLimit.SpacedExactly` | ratelimit/domain.go:65-84 | That holds in all histories exactly when the minimum delay is not positive, no delay can wrap around, or the budget alone never lets two requests through. |
| `DomainLimit.DomainLimiter.AdmissionsApart` | ratelimit/domain.go:55-86 | So are any two a live limiter has made under such a rule. |
| `DomainLimit.HostBudget` | ratelimit/domain.go:78-85 | However its requests are spaced and marked, any closed interval of one window length holds at most twice the rule's budget of admissions to a host. |
| `DomainLimit.PassedAreAdmitted` | ratelimit/domain.go:65-85 | Exactly as many requests of a host are let through as the operations it makes on its own store admit. |
| `DomainLimit.DomainLimiter.BudgetKept` | ratelimit/domain.go:55-86 | The budget holds over the life of a live limiter. |
| `Health.HealthTracker.RecordFailure` | pool/identity.go:55-77 | Returns whether this failure trips, in float64, given the whole history since the last Reset, and counts a trip only when the latch was down. |
| `Health.TripsExactly` | pool/identity.go:64-68 | A failure trips exactly when the last maxConsecFailures outcomes are all failures, or at least minRequests are recorded and the part of failures among them, as a float64, reaches the threshold. |
| `Health.HealthTracker.RecordSuccess` | pool/identity.go:46-53 | Keeps the trip count, ends the segment. |
| `Health.HealthTracker.TripCount` | pool/identity.go:86-96 | The number of success-delimited segments since the last Reset that hold a tripping failure. |
| `Health.HealthTracker.Reset` | pool/identity.go:98-107 | Forgets the history. |
| `Health.TripsStay` | pool/identity.go:55-77 | Once a failure trips, every later failure of its segment trips. |
| `Health.FailureStep` | pool/identity.go:60-75 | One more failure raises the number of tripped segments by one exactly when it trips and the latch is down. |
| `Health.TrippedAfterFailure` | pool/identity.go:64-76 | After a failure the latch is up exactly when that failure trips. |
| `Backoff.DurationInRange` | pool/options.go:33-50 | Every cooldown lies between 0 and the cap stretched by the jitter, on every platform. |
| `Backoff.FirstTripExactly` | pool/options.go:36-43 | A trip of 0 or less counts as trip 1 exactly when it is not the smallest int. |
| `Backoff.FirstTrip` | pool/options.go:33-47 | Before jitter trip 1 waits InitialWait, up to MaxWait. |
| `Backoff.NextTrip` | pool/options.go:33-47 | Every further trip waits Multiplier times as long as the one before it, up to MaxWait. |
| `Backoff.JitterInRange` | pool/options.go:48-49 | Jitter moves a wait by at most its percentage. |
| `Backoff.BaseGrows` | pool/options.go:44-47 | Before jitter a later trip never cools down for less. |
| `Backoff.CapReached` | pool/options.go:44-47 | With a factor above 1 every cooldown from some trip on is the cap. |
| `Pool.Pool.Next` | pool/pool.go:24-63 | Picks the first ready and accepted position from the start index on, moves the index behind it, and lifts the expired cooldowns of exactly the items looked at; fails exactly when no item is active or past its cooldown and accepted. |
| `Pool.DistanceShrinks` | pool/pool.go:39-60 | A call that could serve an item serves it or brings the index strictly closer to it. |
| `Pool.Served` | pool/pool.go:27-63 | An item that stays usable is returned within n calls. |
| `Pool.EachExactlyOnce` | pool/pool.go:27-63 | When all n items stay usable, n calls return each exactly once. |
| `Pool.Pool.AvailableIn` | pool/pool.go:166-196 | 0 when an item is active, else the time to the earliest end of a running cooldown. |
| `Pool.WaitIsExact` | pool/pool.go:166-196 | Asked when nothing is ready, something is ready strictly after that long and not before, unless a cooldown ends at this very instant; an answer of the longest Duration says only the latter half. |
| `Pool.ZeroWhenReadyExactly` | pool/pool.go:166-167 | When "0 if an item is available now" holds. |
| `Pool.Pool.NextWithWait` | pool/pool.go:65-86 | One try; if it fails and the named wait is positive and within the limit, one more try after it, unless cancelled; during the wait others may use the pool and add to it, and an item none of them deactivates keeps its state but for a lifted cooldown. |
| `Pool.WaitingServes` | pool/pool.go:65-86 | With any filter, a call that sleeps to the end undisturbed is served exactly when an accepted item's cooldown ends strictly before it wakes. |
| `Pool.WaitingServesUnfiltered` | pool/pool.go:65-86 | Without a filter that fails only when it wakes at the instant the earliest cooldown ends and nothing came free before. |
| `Pool.ServedAmidOthers` | pool/pool.go:65-86 | Whatever others do meanwhile, it is served when an accepted item that none of them deactivates is ready by then. |
| `Pool.Pool.SoftDeactivate` | pool/pool.go:102-106 | Inactive until the cooldown has passed. |
| `Pool.Pool.SoftDeactivateBackoff` | pool/pool.go:117-128 | Inactive for the cooldown of its trip, at most the cap stretched by the jitter. |
| `Pool.Pool.DeactivateItem` | pool/pool.go:88-93 | Inactive with no reactivation time. |
| `Pool.CooldownLasts` | pool/pool.go:43-50 | In any run of Next a deactivated item is ready again exactly when it has a reactivation time and the clock is past it, and no call returns it before. |
| `Pool.BackAfterCooldown` | pool/pool.go:43-60 | Past its cooldown it is returned within n calls that accept it. |
| `Pool.Pool.Add` | pool/pool.go:130-135 | Appends the item. |
| `HealthyPool.Static.Next` | proxypool/static.go:22-30 | Counts on and returns that slot of the list. |
| `HealthyPool.HealthyProxyPool.Next` | proxypool/healthy.go:94-132 | One call at a time: passes over cooling-down proxies only, at most one round, and clears the counts of exactly the proxy it reactivates. |
| `HealthyPool.HealthyProxyPool.CoolingOnlyWhenAllAre` | proxypool/healthy.go:94-132 | For such a call a cooling-down proxy is returned exactly when every listed one is cooling down. |
| `HealthyPool.HealthyProxyPool.Look` | proxypool/healthy.go:103-125 | The locked section refuses or reactivates by this proxy's record alone and is noted in its history. |
| `HealthyPool.LookedExactly` | proxypool/healthy.go:103-125 | A look refuses exactly a proxy that was deactivated no longer ago than its cooldown, and changes at most its own record. |
| `HealthyRun.FallBackExactly` | proxypool/healthy.go:94-132 | In every interleaving of calls and recorded outcomes, a call that falls back has found every listed proxy cooling down exactly when the draws it looked at hit different slots. |
| `HealthyRun.UndisturbedFallBack` | proxypool/healthy.go:100-131 | They do when no other call draws between its first and last look. |
| `HealthyRun.FallsBackOverHealthy` | proxypool/healthy.go:95-95 | A run of three calls in which one returns a cooling proxy while another listed one is healthy throughout. |
| `HealthyRun.AnswerUsable` | proxypool/healthy.go:103-127 | In every interleaving, a call that does not fall back returns a proxy its last look found not cooling down. |
| `HealthyRun.SeenExactly` | proxypool/healthy.go:100-128 | The slots a call has passed over are exactly those it has found cooling down. |
| `HealthyRun.RecordsInOrder` | proxypool/healthy.go:103-125 | In every interleaving each record is what its outcomes and the looks at it, in their order, make of it. |
| `HealthyPool.HealthyProxyPool.RecordFailure` | proxypool/healthstore.go:78-90 | Counts the failure for this proxy and deactivates it exactly when it is unhealthy in float64. |
| `HealthyPool.HealthyProxyPool.RecordSuccess` | proxypool/healthstore.go:69-76 | Counts the success for this proxy alone. |
| `HealthyPool.CountedSince` | proxypool/healthstore.go:69-90 | In any history successes and failures are the numbers of such outcomes since the last reactivation, or the start, and the proxy is marked by the last failure among them that left these counts unhealthy. |
| `HealthyPool.Totals` | proxypool/healthstore.go:69-90 | The latency sum and the time of last use are those of all outcomes. |
| `HealthyPool.HealthyProxyPool.RecordsOutcomes` | proxypool/healthstore.go:69-90 | Both hold of every record of a live pool. |
| `HealthyPool.MemoryHealthStore.Get` | proxypool/healthstore.go:28-36 | The stored health, or a zero one and false. |
| `HealthyPool.MemoryHealthStore.Set` | proxypool/healthstore.go:38-47 | Replaces this proxy's entry alone. |
| `HealthyPool.UnhealthyExactly` | proxypool/healthstore.go:85-88 | Deactivation needs the minimum of requests, a failure rate strictly above the stored threshold, and a success rate and complement that round differently. |
| `HealthyPool.UnhealthyAtExactThresholds` | proxypool/healthstore.go:85-88 | When the complement is a fraction m / d that float64 holds exactly, and fewer than 2^54 / d requests are counted, strictly above decides. |
| `HealthyPool.AtHalfNotDeactivated` | proxypool/healthy.go:40-42 | Two failures of four at a threshold of one half do not deactivate. |
| `HealthyPool.SevenOfTen` | proxypool/healthstore.go:85-88 | Seven failures of ten do at the float64 nearest to 0.7. |
| `HealthyPool.ThreeOfTen` | proxypool/healthstore.go:85-88 | Three of ten do not at the float64 nearest to 0.3, although that is less than their rate. |
| `Float64.NearestMonotone` | proxypool/healthy.go:21-27 | Rounding keeps the order. |
| `Float64.NearestNear` | proxypool/healthy.go:21-27 | Up to one it is off by at most 2^-54. |
| `HealthyPool.FreshStartLasts` | proxypool/healthstore.go:78-90 | From zero counts at least the minimum of outcomes must be recorded before a deactivation. |
| `HealthyPool.ReactivationLasts` | proxypool/healthy.go:110-118 | So it is between any reactivation and the next deactivation of a proxy, in any history. |
| `HealthyPool.HealthyProxyPool.DeactivatedSince` | proxypool/healthy.go:110-118 | So it is in the history of a live pool. |
| `Retry.RetryDo` | retry.go:39-89 | The loop ends at the one attempt the script determines, with that attempt's outcome and the closed-form trace. |
| `Retry.TraceCounts` | retry.go:39-89 | At most MaxRetries plus one calls, exactly one reset between two calls, hooks ahead of resets by 0 or 1. |
| `Retry.TraceShaped` | retry.go:45-86 | A reset directly precedes every call but the first, a hook directly follows its call and names the next attempt and the limit, and then comes the wait of that attempt. |
| `Retry.WaitingBounded` | retry.go:64-86 | All waits together stay within MaxRetries times the cap stretched by the jitter, if every attempt before the last is settled. |
| `Retry.WithinExactly` | retry.go:69-79 | No draw carries an attempt's wait past that ceiling exactly when it is settled: the growth is in range, or an overflow does not yield a negative wait, or the jitter of one is less than a nanosecond, or no int lies beyond the ceiling. |
| `Retry.WrapsAround` | retry.go:74-78 | Otherwise some draw makes the loop sleep for the longest Duration there is. |
| `Retry.DefaultSleepsForYears` | retry.go:69-79 | 500 ms, factor 2, a cap of 10 s, 30 percent jitter, attempt 35, draw 0.75: about 248 years. |
| `Retry.WaitsGrow` | retry.go:69-72 | Without jitter waits never get shorter while the growth stays in the int64 range. |
| `Retry.WaitsLikeCooldown` | retry.go:69-72 | Without jitter the wait after attempt i is the cooldown of trip i + 1 under the same settings, within a nanosecond of the capped growth, while that is in range. |
| `Retry.WaitsGrowExactly` | retry.go:69-72 | Where an overflowing conversion yields a negative value, a later wait is shorter exactly when it leaves the range and the earlier one does not. |
| `Retry.DefaultLeavesRange` | retry.go:26-31 | 500 ms and factor 2 leave the range at attempt 35. |
| `Retry.ValueReturned` | retry.go:54-62 | A value is returned exactly when it is the first success, all before having failed retryably. |
| `Retry.ErrorReturned` | retry.go:58-88 | An error is returned exactly when it is the first non-retryable one or the last attempt's. |
| `Retry.CancelledReturned` | retry.go:46-86 | A cancellation is returned exactly when it precedes an attempt, or interrupts the wait after a retryable failure, before anything else ends the loop. |
| `Retry.RetryableExactly` | retry.go:117-139 | Retryable are 429 and 500 to 504 but 501, dial and lookup failures, and timeouts. |
| `Retry.EndUnique` | retry.go:45-88 | The attempt the loop ends at is unique. |
| `ClientRetry.DoWithRetry` | client.go:369-456 | Refines the trace of attempts over any pool and backend script and returns the last attempt's outcome; the trailing return is reached exactly by a client with a pool and the largest int of retries. |
| `ClientRetry.LargestRetriesSendNothing` | client.go:376-381 | For that client the number of attempts wraps around to the smallest int. |
| `ClientRetry.AttemptsExactly` | client.go:376-379 | Any other makes at least one attempt, and 1 + n with a pool and n retries. |
| `ClientRetry.OneNextPerAttempt` | client.go:381-383 | One pool.Next per attempt. |
| `ClientRetry.HandlerNeedsSetProxy` | client.go:382-396 | With a pool the handler runs only directly after a successful SetProxy of the URL just drawn. |
| `ClientRetry.HandledAttempts` | client.go:382-396 | Exactly the attempts that got past SetProxy ran the handler. |
| `ClientRetry.AfterHandling` | client.go:410-449 | Directly after handling an attempt a listening pool is told exactly of a 407, once, and the loop pauses exactly when it got a block status with attempts left. |
| `ClientRetry.GuardStops` | client.go:398-405 | A guard rejection ends the run at once and is the answer. |
| `ClientRetry.ExhaustedExactly` | client.go:384-394 | The pool is reported exhausted, with that many attempts and the last error, exactly when the last allowed attempt's SetProxy fails. |
| `ClientRetry.ExhaustedAfterSending` | client.go:372-374 | A run that reports exhaustion although a request was sent. |
| `ClientRetry.ReplyReturned` | client.go:429-451 | A reply is returned exactly when it is the first one without a block status, or the last allowed attempt's. |
| `ClientRetry.FailedReturned` | client.go:396-427 | An error is returned exactly when it is the guard's or the last allowed attempt's, with its status unless it is the guard's. |
| `SecChUa.Write` | profile.go:412-433 | The value joins three brands placed by the order of the seed; it is written exactly when the seed is not the largest int. |
| `SecChUa.IndexExactly` | profile.go:424-424 | The GREASE index is within bounds exactly then. |
| `SecChUa.SeedOfDecimal` | profile.go:415-418 | The seed of a numeric version is the version, or 0 beyond the range. |
| `SecChUa.LargestVersionPanics` | profile.go:415-424 | The decimal of the largest int is a version that nothing is written for. |
| `SecChUa.BrandsOnce` | profile.go:423-432 | Placing them loses and repeats none. |
| `SecChUa.PeriodIs66` | profile.go:419-430 | GREASE brand and order of two versions agree exactly when the versions agree modulo 66. |
| `SecChUa.OrderExactly` | profile.go:419-430 | The orders are the six permutations in lexicographic order, by the seed modulo 6. |
| `SecChUa.RecordedGrease` | profile_coherence_test.go:153-158 | The GREASE entries of five versions are the recorded ones. |
| `SecChUa.GreaseIsGrease` | internal/fingerprint/reference.go:518-524 | Every generated GREASE entry is recognised, also those with a semicolon in the brand. |
| `SecChUa.EntryBrand` | internal/fingerprint/reference.go:520-521 | A brand is read back from its entry. |
| `SecChUa.KeptExactly` | internal/fingerprint/reference.go:518-524 | Of such entries exactly those of Chromium, Google Chrome and Microsoft Edge are kept. |
| `SecChUa.Normalize` | internal/fingerprint/reference.go:514-527 | The loop replaces exactly the parts that carry no real brand. |
| `SecChUa.NormalizedWritten` | internal/fingerprint/reference.go:504-527 | On a generated value it yields the same list with exactly the GREASE slot replaced. |
| `SecChUa.NormalizedIdempotent` | internal/fingerprint/reference.go:514-527 | On every string normalising twice is normalising once. |
| `SetCookie.FlattenHeaders` | backend_std.go:90-98 | Set-Cookie values joined by newlines, the first value of every other nonempty field. |
| `SetCookie.RestoreHeaders` | roundtripper.go:38-50 | Every field as received, Set-Cookie split at newlines when it holds one. |
| `SetCookie.CookiesRoundTrip` | roundtripper.go:42-50 | Joining and splitting gives back a list exactly when its values hold no newline and it has one value, or several of which none is empty. |
| `SetCookie.HeadersRoundTrip` | backend_std.go:90-98 | Any response keeps its Set-Cookie fields apart and in order, as section 3 of RFC 6265 asks, exactly when it has none or they survive; every other field keeps its first value. |
| `Text.SplitJoin` | roundtripper.go:45-45 | Split undoes Join on separator-free parts, for any separator that does not overlap itself. |
| `Text.JoinSplit` | internal/fingerprint/reference.go:518-526 | Join undoes Split on every string. |
| `Text.SplitFree` | internal/fingerprint/reference.go:518-518 | The pieces of a split hold no separator. |
| `Text.TrimmedExactly` | internal/fingerprint/reference.go:520-521 | Trimming cuts off exactly the longest ends of dropped characters. |

## Left out

- Both backends' requests, the ox-browser and Byparr clients, page parsing and sessions on disk: I/O. A loop that needs one gets a script of outcomes.
- TLS profile mapping, `cloneProfile`, decompression, the cookie jar: thin wrappers over libraries that are not part of this model.
- Profile, User-Agent and header-order tables: finite data.
- URL parsing, DNS lookup, address parsing and unmapping, lower-casing of header names: hosts, addresses and names are already parsed.
- Cloudflare solving, `RetryTracker`, `KeyedPacer`, Retry-After parsing, logging, alert hooks, statistics snapshots: no protocol of interest, or code that is not part of this model.
- Clocks: readings within a run never go back; every reading is more than 292 years after the zero time, as real ones are.
- WebshareRefresh.Balanced: the refresher is a step system on values, not a class, because its methods interleave.
- WebshareClose.FairCloseReturns: that the scheduler is fair, and that sleeps under a cancelled context end, are its premises; the loop may wake once more when its timer and the cancellation race.
- WebshareRefresh.TriggersApart: is about the instants stored as last trigger, as in the source; the goroutine started then may reach its fetch later.
- SiteIntel.OneAnalysisPerDomain: the cache is a step system on values, for the same reason; several goroutines sharing one record is not modelled, and an analysis that fails carries no information.
- SiteIntel.DetectWaf: case folding is a parameter.
- WebshareFetch.Fetch: API URLs, HTTP status errors and the initial construction around the closure are left out.
- `Webshare.Next`, `Len` and `TransportProxy`: the same counter rotation as `Static.Next`, over the live list.
- ProxyAllow.ProxyAllowance.Guard: one dial reads one snapshot; dials between the steps of a switch read the one last published.
- ExtensionOrder.UniformOverSlots: that the generator draws each index uniformly is taken from its documentation.
- RateLimit.Limiter.Allow: runs as one step, so a concurrent UpdateLimit lands before or after it; the history bounds hold for any cap read by each poll.
- RateLimit.AvailableAtExactly: one reading for all clocks of the call.
- RateLimit.AvailableNowExactly: likewise.
- DomainLimit.DomainLimiter.Wait: polls are at least 50 ms apart, what others do falls between two of them, and a host that others use or that never becomes due is cancelled at some poll; the ticker itself is not modelled.
- DomainLimit.DueAdmits: rules with a positive request budget and a window shorter than the longest Duration, which never expires.
- Float64.Nearest: exponents are unbounded, NaN is not modelled, and counts stay below 2^53, where they convert exactly.
- Backoff.DurationInRange: products and powers are exact reals, so float64 rounding and powers beyond its range (infinite, or NaN when multiplied by a zero wait) are not modelled; draws are reals.
- Retry.RetryDo: the same of its waits; what a conversion beyond the int64 range yields is a parameter, as Go leaves it to the platform; MaxRetries is below the largest int, with which the loop's counter would wrap around after 2^63 attempts.
- Pool.Pool.Next: the filter is a function of the item and the accepted items do not change during a call.
- Pool.Pool.NextWithWait: the item states after the second try are left open (Next's contract has them).
- HealthyPool.Static.Next: the counter is unbounded, so its wrap at 2^64 is not modelled; nor are those of event counters and latency sums elsewhere.
- HealthyPool.HealthyProxyPool.Next: one call at a time (HealthyRun has the interleaved ones) over a Static rotation that is not empty; average latency and active counts are left out.
- ClientRetry.DoWithRetry: whether an error text is a proxy's 407 rejection is a field of the error; request bodies and the pause length are left out.
- SecChUa.NormalizedWritten: asks for no comma in the versions, which numeric ones have not, and for a value to have been written.
