# Verified models of the ingest, limiting, proxy, graph and evaluation logic

This Dafny project models the stateful and algorithmic parts of the repository and proves what they promise over every
input, every run and every interleaving. Code that updates state in place is a class or a method over arrays and fields,
proved equal to a function of the old state; the laws are then lemmas about those functions and about whole runs.

| module | models |
|---|---|
| `Bits`, `Options`, `Sets` | powers of two, 64-bit words, bitwise or and exclusive or; optional values; sizes of sets |
| `SimHash` | fingerprints and Hamming distance (`crawler/dedup.py`) |
| `Ingest`, `IngestRun`, `IngestMeaning`, `IngestLaws`, `IngestStable` | the table with two unique keys, the greedy duplicate filter and the command that runs both: as functions, as the code runs, said of rows and records alone, their laws, and when a crawl can be repeated |
| `RateLimit`, `RateLimitRun` | the Redis window and the log in memory behind one gate (`backend/app/main.py`) |
| `Breaker`, `ProxyPool` | the circuit breaker of one proxy; the pool with its cursor (`crawler/middleware/proxy_middleware.py`) |
| `Fetcher` | limiter, retry and dead proxies (`crawler/compliance.py`) |
| `Reconcile` | pruning and back-filling the graph (`scripts/reconcile_graph.py`) |
| `Triples`, `TriplesMeaning` | extraction and execution of the exported statements (`crawler/scripts/export_triples.py`) |
| `Evaluation` | F1, weighted score, bootstrap interval, on exact reals (`evaluation/judge_eval.py`) |
| `Sse` | event-stream accounting (`backend/app/dependencies.py`) |

`dafny verify dfyconfig.toml` checks all of it.

## Assumptions

MD5 of a token, the tokeniser and SHA-256 are arbitrary functions (SHA-256 is taken as injective only in
`SecondCrawlIsEmpty` and in `IngestStable`). Random choices, replies of servers, durations, failures of the database and
of Redis, and the rows that a limited query happens to return are arbitrary inputs. Time is real and does not run
backwards. The rate limiter's window and maximum are fixed over a run, the maximum at least 1 where a bound is stated.

## Where the code and its documentation disagree

The model follows the code.

- **Repeating a crawl** is idempotent when fingerprints are not compared (a first crawl, or no skipping) or when the
  accepted records have distinct URLs, for every table (`CrawlIsIdempotent`). Otherwise a record that is accepted and then
  lost to the URL key can have suppressed a neighbour, which the second crawl stores. On a table and a batch of one site
  `RepeatedCrawlIff` says exactly when a crawl can be repeated: when each record has a known URL, or the URL of an accepted
  record, or is near a stored fingerprint or near an accepted record that is the first with its URL - which the filter's
  output shows before anything is stored. `SharedUrlBreaksIdempotence` gives failing batches for every table,
  `SharedUrlTrapExists` that there are some. Without any condition, repeated crawls settle (`RepeatedCrawlsSettle`).
- **Three failures in five minutes** (crawler/middleware/proxy_middleware.py:6) do not always open the breaker, since its
  window tumbles. `ThreeFailuresOpenIff` and `FourFailuresOpenIff` say exactly when they do; five always do.
- **Fresh failures before the breaker reopens**: the count is not reset on opening, so one failure can reopen it, exactly
  when its counting window began at the instant of the first opening (`ReopensEarlyIff`); otherwise three are needed
  (`ReopeningNeedsFreshFailures`).
- **One request per interval** (crawler/compliance.py:66-70): the limiter counts from its last wait, not from the last
  request, so the next request may come early; and a call whose two attempts both fail returns before it waits at all
  (crawler/compliance.py:259-263), so the next request may follow it at once (`FailedCallMayEndAtOnce`). For every call
  `NextRequestTooEarlyIff` says when the next request may come early, and `RetryTooEarlyIff` when the retry within the call
  does. The direct retry after a dead proxy does not wait, although crawler/compliance.py:236-237 says that retries do.
- **The gateway's handler can be called twice for one request**: it is called inside the block whose exceptions mean that
  Redis is down, so an exception it raises leads to the check in memory. `RateLimiter.Dispatch` says
  for which inputs it is; after any run there are such requests, unless the maximum is 0 (`SomeRequestCallsTwice`).
- **Back-filling REQUIRES edges** (scripts/reconcile_graph.py:224-261) calls `apply_relations`, which the projector
  (backend/app/services/graph_projector.py) does not have; the error is caught and no edge is ever added
  (`RelationNotFilledIn`). A run can also take away an edge that the tables ask for, when one of its ends carries the other
  label with an id that is an orphan there (`RelationMayBeLost`). So for a wanted position and a wanted skill a relation is
  an edge afterwards if and only if it was one before whose ends are both free of that (`RequiresAfterRunIff`); while no
  node carries both labels, if and only if it was one before (`RequiresUnchanged`). The projector's batch can merge
  relations; had the script used that, every relation would be an edge (`RelationsWouldBeFilledIn`).
- **The number of back-filled nodes** that the script reports (scripts/reconcile_graph.py:216-220) counts positions only; it
  is that of all new nodes exactly when no skill was missing (`BackfillReportIff`).
- **Ids equal to the tables' after reconciling** holds if and only if no wanted node is deleted for also carrying the
  other label with an id that is an orphan there (`RunMatchesTables`; `ShadowedIdIsLost` is a case where it fails). A
  second run always brings them in line (`RepeatedRunsMatch`).
- **Legacy nodes without a name** are never deleted, and they fill the query's limit: a run may clear no legacy node at all
  exactly when, of each kind, nameless nodes can fill it or no named ones are left (`RunMayClearNoneIff`).
- **"failed" for a record that could not be stored** (crawler/persistence/dao.py:64): an error of the statement, an
  unreachable database included, is caught and reported as a duplicate; only an error of the commit (or before the
  statement) is reported as a failure (`JdTable.UpsertJd`).
- `is_near_duplicate` documents the threshold 3; its default is 10. The laws hold for every threshold.
- **A perfect sample score** does not look at a list that the golden sample leaves empty, and an empty golden sample
  scores 0 even against an empty answer (`SampleScoresRange`).

## Model

| member | source | states |
|---|---|---|
| SimHash.Simhash | crawler/dedup.py:33-56 | The vote loop over tokens and bit positions computes the fingerprint of the tokens' hashes, 0 without tokens |
| SimHash.FingerprintIsMajority | crawler/dedup.py:37-56 | A 64-bit word is the fingerprint if and only if each of its bits is set exactly when more than half of the hashes have it; ties give 0 |
| SimHash.OnesCounts | crawler/dedup.py:44-50 | The votes for a bit are the hashes that have it set |
| Bits.ShrDivides | crawler/dedup.py:46-50 | Bit i of a hash is the parity of its quotient by 2^i |
| SimHash.FingerprintOfMultiset | crawler/dedup.py:44-56 | The order of the tokens does not matter |
| SimHash.FingerprintOfRepeat | crawler/dedup.py:44-56 | Repeating the whole list k >= 1 times leaves the fingerprint unchanged |
| SimHash.FingerprintOfOne | crawler/dedup.py:44-56 | A single token's fingerprint is its hash |
| SimHash.HammingMetric | crawler/dedup.py:59-64 | The distance is symmetric, 0 just for equal values, and obeys the triangle inequality |
| SimHash.HammingCounts | crawler/dedup.py:59-64 | On words it is the number of differing bit positions |
| SimHash.Stability | crawler/dedup.py:44-64 | Appending k tokens moves the fingerprint by at most the number of bits whose vote v has -k < v <= k |
| SimHash.Hex64RoundTrip | crawler/dedup.py:76-81 | 64 characters long, and the first 16 hexadecimal digits give the value back |
| SimHash.Hex64Form | crawler/dedup.py:76-81 | 16 lower-case hexadecimal digits and then zeros; only the low 64 bits count |
| IngestLaws.PassIsSubsequence | crawler/pipelines/incremental.py:88-133 | The output is the batch at strictly increasing positions, exactly those with the verdict accepted |
| IngestLaws.PassIsSeparated | crawler/pipelines/incremental.py:100-133 | Accepted fingerprints are pairwise more than the threshold apart and that far from every stored one, whenever fingerprints are compared |
| IngestLaws.PassIsMaximal | crawler/pipelines/incremental.py:88-133 | A record is a URL duplicate just when its URL is stored, and a content duplicate has a stored fingerprint or an earlier accepted record within the threshold |
| IngestLaws.OneWitness | crawler/dedup.py:59-73 | Two records rejected because of one witness are within twice the threshold |
| IngestMeaning.StoredSets | crawler/pipelines/incremental.py:34-59 | What is compared with are the URLs and fingerprints of the rows of the site, or of all rows without a site |
| IngestMeaning.OwnRowsDecide | crawler/pipelines/incremental.py:34-59 | Tables that agree on the rows of the site are the same to the filter |
| IngestMeaning.ForeignRowsDoNotMatter | crawler/pipelines/incremental.py:34-59 | Adding rows of other sites changes nothing of what the filter accepts |
| IngestMeaning.WithoutSkippingAllPass | crawler/pipelines/incremental.py:78-80 | Without skipping every record is accepted |
| IngestMeaning.VerdictMeans | crawler/pipelines/incremental.py:88-133 | The exact verdict on each record, in terms of rows, texts and the verdicts before it |
| IngestMeaning.UpsertMeans | crawler/persistence/dao.py:72-96 | A write that works adds a row with the data of the record exactly when it has a hash and no row shares its hash or URL |
| IngestLaws.UpsertAllGrows | crawler/persistence/dao.py:72-96 | Storing only appends rows, each of a record of the batch, and keeps URLs and content hashes unique, whichever writes fail |
| IngestLaws.UpsertAllCovers | crawler/persistence/dao.py:72-96 | After a fault-free batch each of its records is refused |
| IngestLaws.SecondCrawlReturns | crawler/pipelines/incremental.py:78-133 | Whichever writes failed, a second crawl returns exactly the records accepted before whose URL is still not stored for the site |
| IngestLaws.SecondCrawlAcceptsNoMore | crawler/pipelines/incremental.py:78-133 | A second crawl accepts nothing new, whichever writes failed, on first crawls and (with distinct URLs) on later ones |
| IngestLaws.CrawlIsIdempotent | crawler/scripts/run_incremental.py:82-95 | Filter then upsert, twice, leaves the table as doing it once, for every table and batch of unstamped records, if fingerprints are not compared or accepted URLs are distinct |
| IngestLaws.SecondCrawlIsEmpty | crawler/pipelines/incremental.py:78-133 | On a table of one site with hashes of its texts the second filtering returns nothing, for first and later crawls |
| IngestStable.RepeatedCrawlIff | crawler/scripts/run_incremental.py:82-95 | On a table and a batch of one site, repeating a crawl changes nothing if and only if fingerprints were not compared or the first filter's output covers every record, by a URL or by a near fingerprint that will be stored |
| IngestStable.SecondFilterEmptyIff | crawler/pipelines/incremental.py:78-133 | The second filtering returns nothing under the same condition, so always after a first crawl |
| IngestStable.StoringKeepsFirsts | crawler/persistence/dao.py:72-96 | Storing accepted records keeps all their URLs and, of those with one URL, the first's fingerprint alone |
| IngestLaws.RepeatedCrawlsSettle | crawler/scripts/run_incremental.py:82-95 | Without any condition, crawling a batch as often as it has records reaches a table that further crawls leave alone |
| IngestLaws.SharedUrlBreaksIdempotence | crawler/persistence/dao.py:72-87 | For every table, a family of failing batches: a neighbour suppressed by the record that is lost to the URL key is stored by the second crawl |
| IngestLaws.SharedUrlTrapExists | crawler/pipelines/incremental.py:100-133 | Such a table and batch exist |
| IngestRun.JdTable.ExistingUrls | crawler/pipelines/incremental.py:34-43 | The URLs of the site's rows, or of all rows without a site, one for each row; a record with such a URL would be refused, and with the URLs of all sites only its content hash makes the table refuse another |
| IngestRun.JdTable.ExistingHashes | crawler/pipelines/incremental.py:46-59 | Exactly the site's rows that have a fingerprint, each with its own under its URL |
| IngestRun.JdTable.UpsertJd | crawler/persistence/dao.py:63-101 | Appends the record just when the write works and no unique key or missing hash refuses it; any error of the statement is reported as a duplicate, an error of the commit as a failure |
| IngestRun.StatsAddUp | crawler/pipelines/incremental.py:21-31 | total = inserted + url duplicates + content duplicates, and the URL lists have matching lengths |
| IngestRun.StatsCount | crawler/pipelines/incremental.py:88-133 | Each number counts the records with its verdict |
| IngestRun.StatsList | crawler/pipelines/incremental.py:88-133 | Either URL list names exactly the records of its kind, in the order of the batch |
| IngestRun.Consider | crawler/pipelines/incremental.py:88-131 | The loop body gives the verdict that the specification gives, writes SHA-256 and fingerprint of the text into what it accepts, leaves the rest as it was and extends the batch's fingerprints |
| IngestRun.FilterRecords | crawler/pipelines/incremental.py:88-133 | The loop's output, statistics and in-place stamps are those of the specification |
| IngestRun.CheckIncremental | crawler/pipelines/incremental.py:62-142 | The same with what the table holds, read before the loop and only when skipping |
| IngestRun.CmdIncremental | crawler/scripts/run_incremental.py:66-101 | For one site: the table becomes that of filter then upsert, and the count is that of the new rows |
| RateLimit.MemoryRefinesFullLog | backend/app/main.py:323-360 | For every interleaving of clients, the lazily trimmed and swept buckets decide as a log that keeps every admission for ever |
| RateLimit.FullLogMeans | backend/app/main.py:323-360 | That log admits a request exactly when fewer than max of the client's admissions are younger than the window, and records it then |
| RateLimit.BucketIsRecent | backend/app/main.py:325-326 | After a check the client's bucket holds only times younger than the window |
| RateLimit.SweepLeavesRecent | backend/app/main.py:328-331 | With too many buckets, each one left has an entry no older than the window |
| RateLimit.SweepKeepsRecent | backend/app/main.py:328-331 | Buckets with such an entry stay, and all stay while there are not too many |
| RateLimit.FullLogIsSpaced | backend/app/main.py:323-360 | Any max + 1 admissions in memory span at least the window |
| RateLimit.AdmissionBound | backend/app/main.py:264-360 | Any half-open interval of the window's length holds at most 2 max - 1 admissions of a client through Redis, max in memory and 3 max - 1 together, whenever Redis fails or loses replies |
| RateLimit.AdmissionBoundIsAttained | backend/app/main.py:230-236 | 2 max - 1 through Redis is reached |
| RateLimit.BoundOfBothIsAttained | backend/app/main.py:264-360 | 3 max - 1 through both together is reached |
| RateLimit.ClientInvariantAlways | backend/app/main.py:230-236 | In every run, a client's live counter bounds the admissions of the key's present life, and full lives are a window apart |
| RateLimit.KeysExpire | backend/app/main.py:230-236 | Every key has an expiry, at most a window away |
| RateLimitRun.RateLimiter.IncrScript | backend/app/main.py:230-236 | The script's reply and the new key; the run's admissions grow by one just when it is admitted |
| RateLimitRun.RedisKeyMeans | backend/app/main.py:230-236 | An expired or new key starts at 1 for a window's time; a live one counts on and keeps its expiry |
| RateLimitRun.RateLimiter.TrimBucket | backend/app/main.py:325-326 | The client's bucket keeps its recent times |
| RateLimitRun.RateLimiter.Sweep | backend/app/main.py:328-331 | Exactly the stale buckets go |
| RateLimitRun.RateLimiter.CheckInMemory | backend/app/main.py:323-360 | The decision and the new buckets are those of the specification's step |
| RateLimitRun.RateLimiter.Dispatch | backend/app/main.py:264-360 | Which steps a request takes in each mood of Redis, that the handler is called once for each admission, and that it is called twice exactly when Redis and then memory admit a request whose handler raises |
| RateLimitRun.SomeRequestCallsTwice | backend/app/main.py:264-360 | After any run some request would be admitted by both, if and only if the maximum is at least 1 |
| Breaker.ThreeFailuresOpenIff | crawler/middleware/proxy_middleware.py:109-128 | Three failures within 300 s open the breaker unless its counting window splits them in one of two ways |
| Breaker.FourFailuresOpenIff | crawler/middleware/proxy_middleware.py:109-128 | Four fail to open it only from a closed breaker without a count whose window ends between the second and third |
| Breaker.FiveFailuresOpen | crawler/middleware/proxy_middleware.py:109-128 | Five within a closed 300 s interval always open it, whatever the history |
| Breaker.FourFailuresMayNotOpen | crawler/middleware/proxy_middleware.py:109-135 | A run in which four do not |
| Breaker.SuccessRestartsWindow | crawler/middleware/proxy_middleware.py:130-135 | After any history ending in a success, three failures within 300 s of it open the breaker |
| Breaker.FirstFailuresOpen | crawler/middleware/proxy_middleware.py:109-135 | Successes before any failure leave no trace, and the first three failures within a window open the breaker |
| Breaker.TwoFailuresDoNotOpen | crawler/middleware/proxy_middleware.py:109-135 | Two failures after a success, or at the start, do not |
| Breaker.CooldownLastsExactly | crawler/middleware/proxy_middleware.py:39-46 | A cooldown lasts 300 s from its opening to the instant; failures meanwhile do not prolong it and successes do not end it |
| Breaker.CountIsOfLatestFailures | crawler/middleware/proxy_middleware.py:109-135 | The count is that of failures in a row, none before the window's start |
| Breaker.OpeningHasCause | crawler/middleware/proxy_middleware.py:121-128 | A cooldown set at t rests on three failures in a row in [t - 300, t] and ends at t + 300 |
| Breaker.ReopeningNeedsFreshFailures | crawler/middleware/proxy_middleware.py:39-54 | Two openings are at least 300 s apart and the second rests on three failures after the first, with one exception |
| Breaker.ReopeningOnStrictClock | crawler/middleware/proxy_middleware.py:109-135 | On a clock that moved before the opening there is no exception |
| Breaker.ReopeningAfterOneFailure | crawler/middleware/proxy_middleware.py:109-135 | The exception occurs |
| Breaker.ReopensEarlyIff | crawler/middleware/proxy_middleware.py:109-128 | An opening can be followed by another without three fresh failures exactly when the counting window began at its own instant |
| ProxyPool.WaitingHoldsAllUsable | crawler/middleware/proxy_middleware.py:87-107 | From the cursor on, each proxy not in cooldown waits in the queue exactly once |
| ProxyPool.PickRotates | crawler/middleware/proxy_middleware.py:87-107 | Stopping at the first usable proxy takes the head of the queue and puts it at the end |
| ProxyPool.RoundRobinIsFair | crawler/middleware/proxy_middleware.py:87-107 | While the m usable proxies stay the same, m picks return each of them once and no other |
| ProxyPool.BreakersAreIndependent | crawler/middleware/proxy_middleware.py:109-135 | Each breaker is where its own proxy's events alone bring it |
| ProxyPool.Pool.PickProxy | crawler/middleware/proxy_middleware.py:87-107 | Going on cyclically from the cursor, the first entry that is not cooling; none, with the cursor back where it was, just when every entry is cooling or there is none; it is the head of the queue |
| ProxyPool.Pool.RecordFailure | crawler/middleware/proxy_middleware.py:109-128 | That proxy's breaker takes the failure and no other changes; the state stays that of all events so far |
| ProxyPool.Pool.RecordSuccess | crawler/middleware/proxy_middleware.py:130-135 | That proxy's count is 0 and its window starts now, its cooldown and all other breakers stay; an unknown proxy gets none |
| Fetcher.RunPays | crawler/compliance.py:233-268 | Over any calls, sends are at most two for each wait and two for each proxy found dead, which was alive and in the pool |
| Fetcher.RunKeepsPace | crawler/compliance.py:71-85 | Over any calls, successive waits are at least the interval apart |
| Fetcher.WaitsBounded | crawler/compliance.py:71-85 | At most T / interval + 1 waits in time T |
| Fetcher.SendsBounded | crawler/compliance.py:115-268 | At most 2 (T / interval + 1) + 2 d sends, d <= number of distinct proxies being those found dead meanwhile |
| Fetcher.CallEffect | crawler/compliance.py:233-268 | How many requests and waits a call makes, and that exactly the proxy that refused it is dead afterwards |
| Fetcher.CallRoutes | crawler/compliance.py:233-257 | The requests go through the chosen proxy, the second direct if that proxy refused |
| Fetcher.LiveProxyIsUsed | crawler/compliance.py:115-126 | No proxy is chosen exactly when all are dead, and each live one is chosen by some draw |
| Fetcher.DirectIff | crawler/compliance.py:233 | A call goes direct exactly when it asks for no proxy or all are dead |
| Fetcher.DeadIsNeverUsed | crawler/compliance.py:115-132 | From any state on, over any calls, no request goes through a proxy that was dead then |
| Fetcher.NextRequestTooEarlyIff | crawler/compliance.py:66-85 | For every call, the next request may come less than an interval after the call's last one exactly if that one took less and no wait follows it that sleeps long enough: none does when both attempts fail |
| Fetcher.RetryTooEarlyIff | crawler/compliance.py:239-258 | The same for the retry within a call, which is not waited for when a proxy refused |
| Fetcher.FailedCallMayEndAtOnce | crawler/compliance.py:259-263 | Two failures may end with no time passed since the last request, even right after a wait |
| Fetcher.ThreeRequestsSpan | crawler/compliance.py:66-85 | Three requests in a row that succeed at once span an interval |
| Fetcher.DirectRetryDoesNotWait | crawler/compliance.py:250-258 | After a refused proxy the direct retry is sent at once |
| Fetcher.Client.WaitTurn | crawler/compliance.py:79-85 | Sleeps until the interval since the last wait is over and remembers the time |
| Fetcher.Client.PickProxy | crawler/compliance.py:115-126 | One of the proxies not dead, none exactly if all are; the list is loaded while it is empty |
| Fetcher.Client.FetchUrl | crawler/compliance.py:190-274 | The retry loop does what the specification of one call does, and succeeds just when an attempt gets a response |
| Reconcile.RunMatchesTables | scripts/reconcile_graph.py:75-222 | After a run positions and skills are exactly the tables', if and only if no wanted node was shadowed by its other label |
| Reconcile.RunKeepsSurvivors | scripts/reconcile_graph.py:135-222 | Nodes not pruned are untouched, new ones have canonical ids, no edge dangles and exactly the edges between survivors are kept |
| Reconcile.DoomedMeans | scripts/reconcile_graph.py:75-161 | Deleted are exactly the nodes with an id that no row of their label has, and the nodes without id that share the name of a sampled one |
| Reconcile.SampleMeans | scripts/reconcile_graph.py:105-122 | A query returns nodes of the label without id, at most 5000 and all if they are fewer |
| Reconcile.LegacyAfterRun | scripts/reconcile_graph.py:151-161 | Of the nodes without canonical id those with a sampled name go, and no others |
| Reconcile.LegacyShrinks | scripts/reconcile_graph.py:151-161 | With named legacy nodes a run removes 5000 of a kind, or all |
| Reconcile.RepeatedRunsClear | scripts/reconcile_graph.py:151-161 | n runs remove 5000 n of them, down to none |
| Reconcile.SampleMayBeNamelessIff | scripts/reconcile_graph.py:95-122 | The query for one kind may return no name just when nameless nodes can fill its limit, or there are only such |
| Reconcile.RunMayClearNoneIff | scripts/reconcile_graph.py:95-167 | A whole run may clear no legacy node just when that holds of both kinds |
| Reconcile.NamedShrink | scripts/reconcile_graph.py:95-167 | A run removes at least as many named legacy nodes as the nameless ones leave of the query's limit, or all |
| Reconcile.RepeatedRunsMatch | scripts/reconcile_graph.py:75-222 | From the second run on the ids are the tables' in any case, from the first if nothing was shadowed |
| Reconcile.FixedPointIff | scripts/reconcile_graph.py:75-222 | A run changes nothing if and only if ids agree with the tables and no sampled legacy node has a name |
| Reconcile.SecondRunChangesNothing | scripts/reconcile_graph.py:75-222 | With at most 5000 named legacy nodes of each kind and nothing shadowed, one run clears them and a second changes nothing |
| Reconcile.RepeatedRunsReachFixedPoint | scripts/reconcile_graph.py:75-222 | With any number of legacy nodes, after enough runs for what the nameless leave of the limit to cover the named, and two at least (one if nothing is shadowed), no run changes anything, ids match and just the nameless legacy nodes are left |
| Reconcile.ShadowedIdIsLost | scripts/reconcile_graph.py:124-222 | A graph and tables whose ids agree before a run and not after it |
| Reconcile.MissingRowsAreCarried | scripts/reconcile_graph.py:176-222 | Each row without a node gets a new one with its label, id, name and properties, and there are no other new nodes |
| Reconcile.MergeMeans | backend/app/services/graph_projector.py:167-195 | On a node with the row's id the row's name and properties win and the others stay; without one a node with just its data appears |
| Reconcile.BackfillReportIff | scripts/reconcile_graph.py:216-220 | The reported number is that of the new nodes exactly when no skill was missing |
| Reconcile.RequiresUnchanged | scripts/reconcile_graph.py:224-261 | While no node is of both kinds, a REQUIRES edge between wanted nodes is there after a run if and only if it was before |
| Reconcile.RequiresAfterRunIff | scripts/reconcile_graph.py:135-261 | For every graph, it is there if and only if it was before and neither end also carries the other label with an id unwanted there |
| Reconcile.RelationMayBeLost | scripts/reconcile_graph.py:135-150 | A graph whose edge the tables ask for and a run deletes |
| Reconcile.RelationNotFilledIn | scripts/reconcile_graph.py:224-261 | An empty graph gets the nodes of a relation and not its edge |
| Reconcile.MergeRelationsEffect | backend/app/services/graph_projector.py:197-227 | Merging relations adds exactly the edges asked for, in any order, and nothing else |
| Reconcile.RelationFilledInIff | backend/app/services/graph_projector.py:197-227 | A relation is an edge afterwards just when it was one or is asked for and both ends exist |
| Reconcile.RelationsWouldBeFilledIn | backend/app/services/graph_projector.py:197-227 | Of the projector's operation, which the script does not call: a run that went on to merge the tables' relations would make each an edge and no other between wanted nodes, and a second would change nothing if its samples hold no name, as after a run on few enough named legacy nodes |
| Reconcile.Neo4j.PruneOrphans | scripts/reconcile_graph.py:140-150 | The loop of single deletions removes exactly the nodes with orphan ids and their edges |
| Reconcile.Neo4j.PruneLegacy | scripts/reconcile_graph.py:151-161 | The loop removes exactly the nodes without id that have one of the names |
| Reconcile.Neo4j.MergeRows | backend/app/services/graph_projector.py:150-195 | Row by row, nodes are merged by canonical id with their properties; rows with an id are counted, the others give an error each |
| Reconcile.Neo4j.MergeEdges | backend/app/services/graph_projector.py:197-227 | The edges become those of the specification; relations with both ends are counted, the others are errors |
| Reconcile.Neo4j.Reconcile | scripts/reconcile_graph.py:42-263 | The script as it runs is the specification's run, or its pruning half without back-filling; what it reports are the orphan ids, the sampled legacy nodes and the new positions |
| Triples.ExtractTriples | crawler/scripts/export_triples.py:77-152 | The loops with the set of seen keys keep the first of each key among all mentions |
| TriplesMeaning.ExportKeepsFirstMentions | crawler/scripts/export_triples.py:83-152 | A triple is kept exactly if it says what a first mention says, in the order record by record, required before preferred before tools, each list from its start |
| TriplesMeaning.PropsMean | crawler/scripts/export_triples.py:90-149 | The properties and defaults of required skills, preferred skills and tools |
| TriplesMeaning.NameMeans | crawler/scripts/export_triples.py:33-36 | Which text is an entry's name |
| TriplesMeaning.StripMeans | crawler/scripts/export_triples.py:33-36 | Stripping takes all white space off either end and nothing else |
| Triples.KeysOfFirsts | crawler/scripts/export_triples.py:83-152 | Exactly the mentioned keys are kept, each once |
| Triples.FirstsAreFirsts | crawler/scripts/export_triples.py:83-152 | What is kept are mentions at increasing positions, each the first of its key |
| Triples.FirstIsKept | crawler/scripts/export_triples.py:83-152 | The first mention of every key is kept |
| Triples.SameStatementsSameGraph | crawler/scripts/export_triples.py:155-185 | Scripts of the same statements, one for each key, bring every graph to the same state |
| Triples.ExportIsConfluent | crawler/scripts/export_triples.py:155-185 | The exported statements may run in any order, any positive number of times |
| Triples.ExportEffect | crawler/scripts/export_triples.py:77-185 | Each mentioned relationship gets the properties of its first mention over those it had; others are untouched |
| TriplesMeaning.ExportedNodes | crawler/scripts/export_triples.py:98-182 | The graph's new nodes are the positions and the skills or tools mentioned |
| Evaluation.BootstrapCi95 | evaluation/judge_eval.py:77-106 | The sorted resample means at the two indices and the mean; unavailable below two values; an index error without resamples |
| Evaluation.IntervalIsPercentile | evaluation/judge_eval.py:90-106 | Whatever is drawn, indices are in range, min <= lower <= upper <= max, and the stated numbers of resample means lie at or below lower and at or above upper |
| Evaluation.PercentileIndices | evaluation/judge_eval.py:99-102 | The indices are n / 40 and 39 n / 40, rounded down, and in range |
| Evaluation.CleanMeans | evaluation/judge_eval.py:90 | The values that are there, in order |
| Evaluation.Distribute | evaluation/judge_eval.py:254-267 | The buckets count the samples from 0.9, from 0.7 to below 0.9, from 0.5 to below 0.7, and below 0.5 |
| Evaluation.BandsPartition | evaluation/judge_eval.py:254-267 | The four buckets add up to the batch, and weighted to the sum of the samples' weights |
| Evaluation.WeightedScoreMeans | evaluation/judge_eval.py:362-370 | Score times total is excellent + 0.75 good + 0.5 fair; 0 without samples |
| Evaluation.ScoreTracksMean | evaluation/judge_eval.py:362-370 | -0.5 < weighted score - mean F1 <= 0.1 |
| Evaluation.ScoreRangeIsSharp | evaluation/judge_eval.py:362-370 | Neither bound can be improved |
| Evaluation.ScoreIsMonotone | evaluation/judge_eval.py:362-370 | Raising samples' F1 never lowers the score |
| Evaluation.F1IsOverlap | evaluation/judge_eval.py:109-127 | f1 (g + s) = 2 hits, and f1 lies between precision and recall |
| Evaluation.PrecisionAndRecall | evaluation/judge_eval.py:118-126 | Precision is the share of the system's skills that are expected, recall that of the expected found; 1 if both sides are empty, 0 if one is |
| Evaluation.SkillsMeans | evaluation/judge_eval.py:111-116 | The skills of a list are the normal forms of its names that are not blank, other than the empty one |
| Evaluation.F1Extremes | evaluation/judge_eval.py:109-127 | f1 is in [0, 1], 1 just for equal sets, 0 just for disjoint ones not both empty |
| Evaluation.ScoresSwap | evaluation/judge_eval.py:109-127 | Swapping the sides swaps precision and recall and keeps f1 |
| Evaluation.SampleScoresRange | evaluation/judge_eval.py:186-194 | The combined precision, recall and f1 are in [0, 1], and f1 is 1 just when something is expected and every list with an expectation is met |
| Evaluation.SampleScoresMean | evaluation/judge_eval.py:186-194 | Precision, recall and f1 are those of the two lists, weighted by the lengths of the expected ones |
| Sse.PerIpIsOpen | backend/app/dependencies.py:244-294 | Stored counts are those of the open connections, in 1..25, never 0 |
| Sse.AdmittedIff | backend/app/dependencies.py:244-277 | A connection is admitted exactly while fewer than 25 of the client's are open and the global count is below 500 |
| Sse.TotalIsOpen | backend/app/dependencies.py:244-294 | The global count is at most 500 and at most the open connections, and falls short by at most one for each disconnect without an open connection; without such they agree |
| Sse.TotalMisses | backend/app/dependencies.py:244-294 | The open connections exceed the global count by the unmatched disconnects at a positive count less the matching ones at count 0, so the two agree exactly when these are equally many |
| Sse.OpenConnectionsBounded | backend/app/dependencies.py:244-294 | At most 500 connections are open, and one more for each such disconnect |
| Sse.StrayIsMissed | backend/app/dependencies.py:280-294 | Every such disconnect leaves the open connections and the per-client counts alone and lowers a positive global count |
| Sse.MissedConnectionExists | backend/app/dependencies.py:280-294 | So the global count can be 0 with a connection open |
| Sse.Connections.Connect | backend/app/dependencies.py:244-277 | Both counters go up by one if the connection is admitted, and stay otherwise; they stay those of all events |
| Sse.Connections.Disconnect | backend/app/dependencies.py:280-294 | The client's count goes down, disappears at zero, and the global count goes down unless it is 0; they stay those of all events |

## Left out

- Drivers and servers: HTTP, PostgreSQL, Redis and Neo4j appear as atomic steps on abstract stores; the clock does not run backwards.
- Ingest: the token expression, MD5 and SHA-256 (parameters); `_sanitize` and the errors it may raise, NOT NULL and length limits of other columns; a commit whose reply is lost although it took effect; the signed range of the simhash column; the text kept in `_last_error`; logging. Records are values in an array, so two list entries that are one dictionary are not covered.
- Rate limiter: exempt paths, audit records, response bodies, changes of window or limit at run time, a wall clock that is set back. The log in memory is one process's: with several processes its bound holds for each.
- Proxies: parsing of proxy URLs and the choice of the environment variable's contents (a parameter).
- Fetcher: robots rules (an arbitrary verdict), the compliance log, exceptions other than the HTTP client's, and the fresh limiter that a call makes when it is given none; bounds are for a shared limiter.
- Reconcile.Neo4j.MergeRows: does not model the time stamp `updated_at` nor database errors in the middle of a batch, because both come from outside.
- Reconciliation: dry runs; properties of edges; the order in which the tables return rows; the full reconciliation inside the projector.
- Export: the text of the Cypher statements and their quoting, white space beyond ASCII, levels that are null, entries that are neither text nor records.
- Evaluation: rounding to four digits and floating-point error, the normalisation of names (a parameter), the language-model judge, the report.
- Sse: the audit record and the HTTP error of a refusal; cancellation while waiting for the lock.
- Migrations, seeds, demo scripts, consistency scripts, frontend and authentication: finite or one-branch facts.
