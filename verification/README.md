# Verification of the distributed inference server's coordination logic

This project models, in Dafny, the indexes, caches, counters, state machines and
wire formats that the gateway, the cache services and the workers keep consistent,
and proves what they promise over all inputs and over whole runs. Check it with
`dafny verify dfyconfig.toml`.

## How the model is built

| files | what they model |
|---|---|
| `AffinityState`, `AffinityInvariants`, `AffinityScoring`, `AffinityTracker`, `StableSorting` | the KV-cache affinity tracker: a prefix map with insertion order, bounded per-node deques, window purge and batch LRU eviction, and the affinity score |
| `Routing`, `RoutingEngine`, `RealArithmetic` | node scoring, ranked selection, the decision's validators, the route call with its emergency path |
| `TextKeys`, `CacheKeys` | storage keys as text, their parser, Redis key families and glob lookup |
| `RegistryState`, `RegistryContents`, `RegistryProperties`, `RegistryAnswers`, `RegistryService` | the cache registry: any number of instances with a 30 second local cache over one Redis store with expiry |
| `CacheInventory` | the in-memory registry model and its size accounting |
| `PrefixHashing` | plain, token-aware and hierarchical prefix hashing, and the distribution analysis |
| `TransferQueue`, `TransferService` | several workers draining one transfer queue, and one blob transfer |
| `WorkerLifecycle`, `WorkerManagement` | ports, GPUs, stops, restarts and health checks of worker processes |
| `ClientPool`, `WorkerClients` | the gateway's retry loop, circuit breaker and moving average |
| `ByteStrings`, `CacheFraming`, `TransferFrames` | big-endian fields, UTF-8, the serialized KV cache and the node-to-node frame |
| `Common` | optional values, a fact about set sizes |

Each stateful object is a class whose methods update its fields and are proved
equal to a step function on values; the properties are lemmas about those steps and
about runs of them. Times are reals read from a clock that does not run backwards
and are parameters; where one call reads the clock twice, it takes two of them.
Floating point numbers are reals. SHA-256, LZ4, pickle, the built-in `hash`, the
power function with base one half and the `\w` character class are function-valued
parameters; injectivity or inverses are assumed only where a lemma says so. What
Redis, HTTP peers, subprocesses and codecs answer is a parameter of the step.

## What the proofs found

- Eviction runs past the end of its list exactly when `max_entries` is below 1000,
  after emptying the map (`EvictionOverrun`); a first record can do it
  (`FirstRecordOverruns`).
- The affinity of an exact match rises with age only across the 30 minute mark, and
  then exactly if 14 times the younger age exceeds 3 times the older one (capped at
  3600) plus 14400 (`OlderScoresHigherExactly`).
- A single candidate whose weighted total leaves [0, 1] is the only decision that
  fails its validators (`SelectRejectsExactly`); the caller then gets the emergency
  decision.
- The text form of a cache key is injective on all valid keys, but the parser
  inverts it only without colons (`ToStringInjective`, `FromStringInverts`).
- Unregistering a node deletes its index before reading it, so it cleans up none of
  its entries. They are still found by key and by prefix, on every instance
  (`UnregisterNodeChangesNoAnswer`), but no longer listed for the node until one is
  registered there again (`UnregisterNodeHidesEntries`, `HiddenUntilRegistered`,
  `FoundButNotListed`).
- What an instance holds of a key goes out of date exactly when another instance
  removes the key or moves it to another node (`RunStaysCurrentExactly`).
- With the token-aware hasher, texts that agree on L characters hash alike at length L
  exactly if L is a boundary in both or neither, or the one before it is too far back
  (`AgreeingTextsHashAlikeExactly`).
- A single registry instance can answer for an entry its store has already expired,
  by less than 30 seconds, exactly when its copy outlives the entry
  (`SingleInstanceAnswers`, `SingleInstanceOutlivesStore`).
- Prefix levels need not be sorted: equal hierarchical hashes refine exactly if the
  last level is the greatest (`HierarchicalRefines`).
- The running cache size counts overwritten entries for ever
  (`TotalIsLivePlusOverwritten`); it is right throughout a run exactly if no add hit a
  live entry with a size (`TotalIsLiveExactly`).
- With compression on, a plain blob with a correct checksum is rejected unless
  compressing leaves its bytes as they were (`IntactBlobSucceedsExactly`).
- The transfer queue is served in order of arrival; the documented prioritization is
  not there (`RunConserves`, `ApplyConserves`).
- Starting the transfer service while an earlier stop still waits adds workers to those
  still there: there are never more than the configured number exactly if no start
  overlaps like that (`RunKeepsLimitExactly`, `LimitExceeded`). When that stop is over
  it forgets the new workers too, and the next stop neither cancels them nor waits for
  them (`StopMissesWorker`, `WorkerIsLost`).
- Listings are told apart by source, target and hash only between workers without a
  colon in their names (`KeyTellsApart`, `ColonsConfuseKeys`).
- Two transfers of one key share a listing, so a removal can raise. Whenever none of a
  key is in flight, as many of its removals have raised as transfers were begun while
  the key was listed (`ListingBalance`, `RaisesExactly`); it need not be the second to
  finish that raises (`OverlapRaises`, `ThirdRaisesInstead`).
- A start rejected for its GPU after taking a port of the pool loses that port, and
  nothing else does (`ApplyKeepsPortsExactly`, `RunKeepsPortsExactly`,
  `SharedGpuLosesPort`).
- A restart of a worker that holds its resources keeps them exclusive exactly if the
  stop did not go through (`RestartKeepsExclusiveExactly`); after a clean one the
  worker runs on a port that the pool gives out again (`RestartGivesUpResources`).
- A response with an invalid body counts as a success and a failure. With at least one
  retry, a request that fails on every attempt leaves its worker listed exactly if the
  last reply was of that kind and no 503 struck the worker out before
  (`FailedRequestEjectsExactly`); it can happen (`AllFailedButStillListed`).
- A response with an invalid body counts twice in the request total (`SentCounts`).
- Adding a healthy worker again, or three failing streams, leaves a worker in the
  healthy set that is not HEALTHY or has three failures (`RunKeepsPoolExactly`,
  `AddAgainBreaksPool`, `StreamsBreakPool`).
- With a negative limit on concurrent sequences, which nothing rules out, more of them
  raise the load score (`LoadNeverHelps`).
- The checksum field of a serialized cache takes 8 bytes, not the 4 its
  documentation gives, and since the hash is seeded per process two processes agree
  on a cache exactly if their hashes do (`RoundTripExactly`).
- The receiver of node-to-node frames rejects every frame (`CodedReceiverRejectsAll`);
  a frame parses back exactly if the receiver cuts off 28 bytes and the id is ASCII
  (`FrameParsesBackExactly`).

## Model

| member | source | states |
|---|---|---|
| `StableSorting.RankingOrdered` | src/gateway/routing_engine.py:259-262 | the order in which places come out is by key, equal keys in original order, no place twice |
| `StableSorting.GreatestLast` | src/gateway/routing_engine.py:259-262 | a greatest key in the last place sorts last |
| `AffinityInvariants.RunKeepsInv` | src/gateway/routing_engine.py:125-150 | in every run and at any later time each mapped prefix is shown by its node's deque, or that deque holds 1000 entries at least as recent; deques are time-sorted; use counts are positive; the insertion order lists each mapped prefix once |
| `AffinityInvariants.AppendKeeps` | src/gateway/routing_engine.py:137-138 | appending to a full deque drops the oldest entry without losing what the deque shows |
| `AffinityInvariants.PoppingIsFiltering` | src/gateway/routing_engine.py:242-245 | on a time-sorted deque popping old entries off the front is filtering by the cutoff |
| `AffinityInvariants.PurgedKeepsInv` | src/gateway/routing_engine.py:228-254 | purging map and deques by one cutoff keeps the two indexes in agreement |
| `AffinityInvariants.EvictionIsExact` | src/gateway/routing_engine.py:256-267 | eviction leaves exactly max_entries - 1000 entries, unchanged; each is used later than every victim, or at the same time but mapped after it |
| `AffinityInvariants.EvictionOverrun` | src/gateway/routing_engine.py:264-267 | eviction indexes past the end exactly for an overflow with max_entries < 1000, and has then emptied the map |
| `AffinityInvariants.FirstRecordOverruns` | src/gateway/routing_engine.py:256-267 | with max_entries = 0 the first record of a run overruns and leaves the map empty |
| `AffinityInvariants.RunKeepsLimit` | src/gateway/routing_engine.py:256-267 | with max_entries >= 1000 no call of any run raises or leaves more than max_entries prefixes |
| `AffinityInvariants.RecordedSurvives` | src/gateway/routing_engine.py:125-150 | for max_entries > 1000 the prefix just recorded is mapped on return, as recorded, exactly if the call took no longer than the window |
| `AffinityInvariants.MappedAsRecorded` | src/gateway/routing_engine.py:130-135 | until recorded again, a prefix still mapped keeps the node and time of its last record |
| `AffinityInvariants.RecordedShows` | src/gateway/routing_engine.py:137-138 | a recorded use is the last entry of its node's deque on return exactly if the call took no longer than the window |
| `AffinityInvariants.DequesLeftInWindow` | src/gateway/routing_engine.py:242-245 | a call leaves in every node's deque every use inside the window and none outside |
| `AffinityInvariants.MapLeftInWindow` | src/gateway/routing_engine.py:233-240 | before an eviction a prefix is mapped exactly if its last use is inside the window |
| `AffinityInvariants.UsesAreCounted` | src/gateway/routing_engine.py:130-135 | over every run a mapped prefix's use count is the number of its records since it was last not mapped |
| `AffinityInvariants.RunActiveExactly` | src/gateway/routing_engine.py:140-158 | over every run a request is active, as recorded, exactly if it was recorded and has neither completed nor outlived its estimate at a cleanup since |
| `AffinityScoring.CommonPrefixIsLongest` | src/gateway/routing_engine.py:217-223 | the common prefix agrees throughout and ends at a difference or an end |
| `AffinityScoring.ScanFindsBest` | src/gateway/routing_engine.py:190-204 | the scan returns the best value of the entries inside the window, 0 without any; it divides by zero exactly for a zero window and an entry stamped now |
| `AffinityScoring.ScoreInUnit` | src/gateway/routing_engine.py:160-206 | every affinity score lies in [0, 1]; only a zero window can raise |
| `AffinityScoring.FreshMatchScores` | src/gateway/routing_engine.py:172-188 | under 300 seconds the mapped node scores at least 0.92 and any other exactly 0.1 |
| `AffinityScoring.RecordedNodeScores` | src/gateway/routing_engine.py:172-188 | the same over every run, from a record until the prefix is recorded again, while it stays mapped |
| `AffinityScoring.OlderScoresHigherExactly` | src/gateway/routing_engine.py:176-185 | the exact condition under which an older match scores higher than a younger one |
| `AffinityScoring.ExactMatchFades` | src/gateway/routing_engine.py:172-188 | what an exact match is worth at every age and use count |
| `AffinityScoring.SimilarityCounts` | src/gateway/routing_engine.py:208-226 | similarity is a sixteenth per common character, and full exactly for equal texts or 16 common characters |
| `AffinityScoring.WeightFades` | src/gateway/routing_engine.py:195-204 | an earlier prefix is worth 0.6 of its similarity when new, evenly less with age, nothing at the end of the window |
| `AffinityScoring.UnknownScores` | src/gateway/routing_engine.py:190-206 | in every run a node never used scores 0.2 for a prefix never recorded |
| `AffinityTracker.KVCacheAffinityTracker.RecordRequest` | src/gateway/routing_engine.py:125-150 | the new state is the recording step; raises exactly when the eviction overruns |
| `AffinityTracker.KVCacheAffinityTracker.CompleteRequest` | src/gateway/routing_engine.py:152-158 | the request is no longer active, nothing else changes |
| `AffinityTracker.KVCacheAffinityTracker.CleanupOldEntries` | src/gateway/routing_engine.py:228-267 | purge, then eviction, of map, deques and active requests |
| `AffinityTracker.KVCacheAffinityTracker.PurgeDeques` | src/gateway/routing_engine.py:242-245 | every deque loses exactly its old front |
| `AffinityTracker.KVCacheAffinityTracker.EvictLeastRecent` | src/gateway/routing_engine.py:256-267 | the loop over the sorted list removes the victims, or all before it raises |
| `AffinityTracker.KVCacheAffinityTracker.GetCacheAffinityScore` | src/gateway/routing_engine.py:160-206 | the loop computes the score that the scoring lemmas are about |
| `AffinityTracker.KVCacheAffinityTracker.CalculatePrefixSimilarity` | src/gateway/routing_engine.py:208-226 | the loop computes the similarity from the longest common prefix |
| `Routing.LoadNeverHelps` | src/gateway/routing_engine.py:289-334 | the load score lies in [0, 1]; more load never makes it raise, and never raises it either unless the limit on concurrent sequences is negative, where more of them never lower it |
| `Routing.TotalInUnit` | src/gateway/routing_engine.py:513-519 | for non-negative weights summing to at most 1 the weighted total of scores in [0, 1] lies in [0, 1] |
| `Routing.PartsAreInUnit` | src/gateway/routing_engine.py:500-526 | all four scores of a node lie in [0, 1] |
| `Routing.RankedIsDescending` | src/gateway/routing_engine.py:530-533 | the ranking has the scored nodes with falling totals, ties in node order |
| `Routing.SelectRejectsExactly` | src/gateway/routing_engine.py:581-598 | the decision's validators reject exactly a single candidate with a total outside [0, 1] |
| `Routing.DecisionInBounds` | src/gateway/routing_engine.py:490-598 | for such weights a decision is reached unless a score raises, and every field, the ranked total and the decision's own total are in range |
| `Routing.ChosenIsBest` | src/gateway/routing_engine.py:558-568 | the target has the greatest total of all healthy nodes, the first on a tie; the fallbacks are the next at most three in order |
| `Routing.RecentNodeWins` | src/gateway/routing_engine.py:513-568 | with default weights a node that saw the prefix under 300 seconds ago is chosen unless another leads by at least 0.328 on the other components |
| `Routing.TotalGaps` | src/gateway/routing_engine.py:513-519 | a difference in one part changes the total by that times the part's own weight |
| `Routing.CapacityDecides` | src/gateway/routing_engine.py:546-556 | of two nodes alike in all else, the one in the lower load band leads by 0.2, 0.3 and 0.4 per band times the capacity weight |
| `Routing.FullerNodeLoses` | src/gateway/routing_engine.py:546-556 | and the one in the higher band is never the target |
| `Routing.LatencyHalves` | src/gateway/routing_engine.py:535-544 | latency costs nothing up to 100 ms and halves the score every 100 ms from there, down to 0.1 |
| `Routing.SlowerNodeLoses` | src/gateway/routing_engine.py:535-544 | of two nodes alike in all else the slower, beyond 100 ms, is never the target |
| `Routing.SilentNodeLoses` | src/gateway/routing_engine.py:296-306 | of two nodes alike in all else one that has not reported for 30 seconds is never the target |
| `Routing.LoadGaps` | src/gateway/routing_engine.py:87-94 | inside the scale memory counts 0.16, cache 0.12 and throughput up to 100 tokens a second 0.3 of the load score |
| `Routing.SequenceGap` | src/gateway/routing_engine.py:87-94 | and the share of sequences taken 0.12 |
| `Routing.QueueGap` | src/gateway/routing_engine.py:318-322 | queued sequences cost nothing up to ten and 0.002 each from there to 45 |
| `Routing.SuitabilityGap` | src/gateway/routing_engine.py:336-357 | what a request too short, too long or not fitting for a node costs |
| `Routing.LoadEnds` | src/gateway/routing_engine.py:308-334 | an idle node with full throughput and a suitable request scores 1, one with over a tenth of errors 0.1 |
| `Routing.EmergencyStandsOut` | src/gateway/routing_engine.py:440-466 | the emergency decision is told from every selected one by its latency and, among several nodes, its confidence and lack of fallbacks |
| `Routing.LastReportDecides` | src/gateway/routing_engine.py:284-306 | after any sequence of reports a node is scored by its last one alone, for 30 seconds as if just made and then 0; a node without a report scores 0.1 |
| `RoutingEngine.RoutingDecisionEngine.ScoreNodes` | src/gateway/routing_engine.py:490-533 | the loop scores every node in order, or raises with the first scorer that does |
| `RoutingEngine.RoutingDecisionEngine.ChooseNode` | src/gateway/routing_engine.py:421-425 | the decision for the scored nodes, for one of the given nodes and within bounds |
| `RoutingEngine.RoutingDecisionEngine.RouteRequest` | src/gateway/routing_engine.py:398-466 | a decision within bounds for one of the nodes exactly if there is a node; unless it is the emergency one, the prefix is mapped to the target from then on and the next request for it within 300 seconds scores the target 0.92 or more and any other node 0.1; the tracker's invariant and limit and the route counters are kept |
| `RoutingEngine.RoutingDecisionEngine.RecordRoutingDecision` | src/gateway/routing_engine.py:600-620 | the prefix is mapped to the decision's target, whose deque ends in it, exactly if the call took no longer than half an hour; the request is active until its expected end; counts exactly one kind of route, by cache hit and greatest part |
| `TextKeys.SegmentGlob` | src/cache/registry.py:335-341 | the pattern `*:word:*` matches exactly the texts with the word as an inner colon-separated segment |
| `TextKeys.ParseDecimal` | src/common/models.py:140-144 | parsing the decimal form of a number gives the number back |
| `TextKeys.ParseSpellings` | src/common/models.py:140-144 | a number is read with a sign or without and with blanks around it |
| `TextKeys.DigitsOnly` | src/common/models.py:140-144 | nothing but digits, with underscores between, is read as a number |
| `TextKeys.EscapeIsLiteral` | src/cache/registry.py:335-341 | in a pattern a backslash makes the next character stand for itself |
| `CacheKeys.FromStringInverts` | src/common/models.py:129-144 | the parser inverts the text form exactly when neither model name nor hash contains a colon, and otherwise rejects it |
| `CacheKeys.AcceptedText` | src/common/models.py:133-144 | an accepted text is the key's own text up to the spelling of the number |
| `CacheKeys.ToStringInjective` | src/common/models.py:125-131 | valid keys with the same text are equal, colons or not |
| `CacheKeys.FamiliesAreDisjoint` | src/cache/registry.py:650-652 | entry, node and node_index keys never collide, and determine their identifier |
| `CacheKeys.FamilyGlob` | src/cache/registry.py:599-604 | a family pattern sees exactly the matching keys of its own family |
| `CacheKeys.PrefixPatternSelects` | src/cache/registry.py:336-341 | the lookup pattern selects a key exactly if the hash is a segment of the key's hash or a later segment of its model name |
| `CacheKeys.PrefixPatternIsFilter` | src/common/models.py:293-298 | for colon-free model names the pattern is the plain filter on the hash |
| `RegistryProperties.StalenessIsBounded` | src/cache/registry.py:207-399 | with any number of instances, an entry answered at t to a look-up by key, by node or by prefix names the node Redis held for its key at some instant of the run in (t - 30, t] |
| `RegistryProperties.CopyWasHeld` | src/cache/registry.py:137-139 | every local copy was made 30 seconds before it expires, while Redis held the same node |
| `RegistryProperties.SecondInstanceAnswersOldNode` | src/cache/registry.py:219-225 | with two instances an answer can differ from what Redis holds |
| `RegistryProperties.StepKeepsCurrentExactly` | src/cache/registry.py:102-320 | a call on any instance leaves a copy that names the store's node naming it, exactly unless another instance removes the key or registers it on another node |
| `RegistryProperties.RunStaysCurrentExactly` | src/cache/registry.py:102-320 | with any number of instances, an instance's copy of a key names the store's node up to any point of a run exactly if no such call of another instance came before |
| `RegistryProperties.CurrentAnswersNameStoredNode` | src/cache/registry.py:207-258 | as long as none came, every answer for the key names the node stored for it |
| `RegistryProperties.FetchedAnswers` | src/cache/registry.py:387-399 | a look-up by node answers as separate look-ups of its keys would, or with nothing if a key does not parse |
| `RegistryProperties.SingleInstanceIsCoherent` | src/cache/registry.py:102-320 | with one instance, in every run, what is held locally is in the store, perhaps expired, with the same metadata |
| `RegistryProperties.SingleInstanceAnswers` | src/cache/registry.py:207-258 | with one instance every answer carries the metadata last stored, for an entry that expired less than 30 seconds ago if at all, and that exactly when the copy outlives the entry |
| `RegistryProperties.SingleInstanceOutlivesStore` | src/cache/registry.py:219-225 | a single instance answering for an entry its store no longer has |
| `RegistryContents.IndexIsExact` | src/cache/registry.py:145-145 | over every run with any number of instances a key is listed for a node exactly if a registration put it there and since then neither the node was removed nor the key while alive there |
| `RegistryContents.ListingIsExact` | src/cache/registry.py:377-399 | so listing a node answers every such entry that is alive or fresh, and no other |
| `RegistryContents.FindingIsExact` | src/cache/registry.py:343-375 | a look-up by prefix answers exactly the entries alive for the keys handed out, and nothing while the store is down |
| `RegistryContents.ParsesBackExactly` | src/common/models.py:133-144 | the listed keys that do not stop a look-up by node are those the parser gives back |
| `RegistryContents.UnregisterAllRemoves` | src/cache/registry.py:514-517 | unregistering entries one by one takes exactly them out of store and local cache |
| `RegistryContents.StoreIsExact` | src/cache/registry.py:102-320 | over every run an entry is stored exactly if it was registered and not removed since; it is the one last registered, with every access since counted and a full lifetime from the last write |
| `RegistryContents.AccessCounts` | src/cache/registry.py:283-300 | an access is counted, and the hit rate of c accesses is c / (c + 1) |
| `RegistryContents.SweepIsExact` | src/cache/registry.py:677-686 | a sweep leaves exactly the unexpired local copies, as they are |
| `RegistryContents.AnswersAreRemembered` | src/cache/registry.py:219-258 | an entry read from the store or registered is answered from memory for 30 seconds, whatever the store does |
| `RegistryContents.StepStats` | src/cache/registry.py:102-399 | what each call adds to its instance's statistics |
| `RegistryContents.RunStatsAddUp` | src/cache/registry.py:207-267 | over every run on every instance queries are hits and misses |
| `RegistryAnswers.SweepChangesNoAnswer` | src/cache/registry.py:671-686 | a sweep at any point of any run changes the answer of no later look-up, by key, node or prefix, nor of a registration or update, on any instance |
| `RegistryAnswers.UnregisterNodeCleansNothing` | src/cache/registry.py:510-526 | deleting the index, reading it and unregistering what it lists changes no entry and no local cache |
| `RegistryAnswers.UnregisterNodeChangesNoAnswer` | src/cache/registry.py:500-537 | removing a node changes no later look-up of an entry by key, by prefix or by another node, nor a registration or update, on any instance, in any run without a look-up by that node |
| `RegistryAnswers.UnregisterNodeHidesEntries` | src/cache/registry.py:377-399 | a look-up by the node right after its removal answers nothing on any instance; before, it answered nothing exactly if no listed key was fresh or alive, or one does not parse |
| `RegistryAnswers.HiddenUntilRegistered` | src/cache/registry.py:377-399 | and it answers nothing, on any instance, until an entry is registered on the node again |
| `RegistryAnswers.FoundButNotListed` | src/cache/registry.py:500-537 | a run in which a removed node's entry is still found by key and no longer by node |
| `RegistryService.CacheRegistryService.RegisterCacheEntry` | src/cache/registry.py:102-162 | new store, local cache, statistics and result; nothing happens if the store refuses |
| `RegistryService.CacheRegistryService.UnregisterCacheEntry` | src/cache/registry.py:164-205 | the key is gone from store, index and local cache |
| `RegistryService.CacheRegistryService.GetCacheEntry` | src/cache/registry.py:207-267 | answers from the unexpired local copy, else from the live store entry without data, else nothing; refreshes copy and statistics |
| `RegistryService.CacheRegistryService.UpdateCacheAccess` | src/cache/registry.py:269-320 | updates access figures and lifetime in the store and the figures of a local copy |
| `RegistryService.CacheRegistryService.CleanupExpiredEntries` | src/cache/registry.py:677-686 | drops exactly the expired local copies |
| `RegistryService.CacheRegistryService.GetEntriesByNode` | src/cache/registry.py:377-407 | looks up the listed keys in order, with the effect of each look-up on the local cache, and answers with those found; stops and answers with nothing at a key that does not parse |
| `RegistryService.CacheRegistryService.UnregisterNode` | src/cache/registry.py:500-537 | deletes the index and unregisters what is listed after that, which leaves entries and local cache as they were |
| `RegistryService.CacheRegistryService.FindEntriesByPrefix` | src/cache/registry.py:324-367 | however SCAN pages its keys, the answer is the set of live entries the pattern selects, which for colon-free model names are those with the hash |
| `CacheInventory.TotalIsLivePlusOverwritten` | src/common/models.py:277-291 | in every run the running total is the live size plus all sizes ever overwritten |
| `CacheInventory.TotalIsLiveExactly` | src/common/models.py:277-282 | the total is the live size throughout a run exactly if no add hit a live entry of non-zero size; unless sizes are negative, so it is at the end |
| `CacheInventory.NodesAddUp` | src/common/models.py:300-305 | sizes per node add up to the live size |
| `CacheInventory.LevelsAddUp` | src/common/models.py:307-314 | utilization per level adds up to the live size |
| `CacheInventory.CacheRegistry.AddEntry` | src/common/models.py:277-282 | new entries and total after an add |
| `CacheInventory.CacheRegistry.RemoveEntry` | src/common/models.py:284-291 | returns and removes the entry if present; otherwise changes nothing |
| `PrefixHashing.HashPrefix` | src/common/prefix_hasher.py:167-194 | the greedy token loop hashes the text up to the last token boundary within the length, or the plain prefix if that is more than a fifth short |
| `PrefixHashing.CutBounds` | src/common/prefix_hasher.py:190-194 | what is hashed is at most the length and at least four fifths of it |
| `PrefixHashing.HashIsLocal` | src/common/prefix_hasher.py:163-194 | texts longer than L that agree on L + 1 characters hash alike at length L |
| `PrefixHashing.AgreeingTextsHashAlikeExactly` | src/common/prefix_hasher.py:163-194 | texts that agree on L characters hash alike at length L exactly if L is a token boundary in both or neither, or the boundary before it is more than a fifth back |
| `PrefixHashing.NextCharacterDecides` | src/common/prefix_hasher.py:163-194 | for longer texts the same by the characters around L: only in the middle of a word can the next character matter |
| `PrefixHashing.SameLengthIsNotEnough` | src/common/prefix_hasher.py:163-194 | two texts that agree on L characters and hash differently at length L |
| `PrefixHashing.Sha256Refines` | src/common/prefix_hasher.py:56-59 | equal plain hashes at a length are equal at every shorter length |
| `PrefixHashing.Sha256Exactly` | src/common/prefix_hasher.py:56-59 | plain hashes are equal exactly for texts that are the same up to the length |
| `PrefixHashing.TokenAwareRefines` | src/common/prefix_hasher.py:167-194 | the same for the token-aware hash, whose cut looks beyond the hashed prefix |
| `PrefixHashing.LevelIsMonotone` | src/common/prefix_hasher.py:111-123 | a longer request never gets a shorter level, exactly if the last level is the greatest, which ascending levels guarantee |
| `PrefixHashing.HierarchicalRefines` | src/common/prefix_hasher.py:111-135 | equal hierarchical hashes at a length are equal at every shorter length, for all texts, exactly if the last level is the greatest |
| `PrefixHashing.SortedLevelsRefine` | src/common/prefix_hasher.py:100-135 | so they are for sorted levels |
| `PrefixHashing.LevelIsSmallest` | src/common/prefix_hasher.py:108-123 | the level is the smallest long enough, or the last; by default of 64, 256 and 1024 |
| `PrefixHashing.HierarchicalExactly` | src/common/prefix_hasher.py:111-123 | hierarchical hashes are equal exactly for texts that are the same up to the level |
| `PrefixHashing.DistributionIsOrdered` | src/common/prefix_hasher.py:306-344 | for every hasher that refines, unique cluster <= cache <= routing hashes <= texts, each counted at its own length, the collision rates lie in [0, 1) in the opposite order, and the mean cluster size is the inverse of the share of cluster hashes; only the empty list divides by zero |
| `TransferQueue.RunConserves` | src/cache/transfer.py:300-357 | in every interleaving of workers, starts and stops what was accepted is queued, in flight or finished, as multisets; at most N are in flight unless a start overlapped earlier workers; totals add up; active keys are keys in flight |
| `TransferQueue.RunKeepsLimitExactly` | src/cache/transfer.py:204-239 | up to any point of a run there are at most N workers exactly if no start took effect before all earlier workers were gone |
| `TransferQueue.StopsCanEnd` | src/cache/transfer.py:221-237 | from every stopped service its workers' own steps lead to where every waiting stop can return |
| `TransferQueue.DoomedWorkerGoes` | src/cache/transfer.py:350-357 | a cancelled worker that waits for requests takes none and leaves, even if the service runs again |
| `TransferQueue.LimitExceeded` | src/cache/transfer.py:204-239 | a run with two transfers in flight where one at a time is configured |
| `TransferQueue.StopMissesWorker` | src/cache/transfer.py:221-239 | a run in which a stop returns while a transfer is in flight |
| `TransferQueue.WorkerIsLost` | src/cache/transfer.py:204-239 | and one in which that worker works on after the next start, with no stop to cancel it or wait for it |
| `TransferQueue.ApplyConserves` | src/cache/transfer.py:276-344 | each step keeps arrival order and the conservation of requests and counters |
| `TransferQueue.KeyTellsApart` | src/cache/transfer.py:312-314 | requests between workers without colons share a listing exactly if prefix, source and target are the same |
| `TransferQueue.ColonsConfuseKeys` | src/cache/transfer.py:312-314 | requests between different workers that share one |
| `TransferQueue.CountersAreExact` | src/cache/transfer.py:316-341 | over every interleaving the counters are the numbers of transfers that succeeded and failed, and the bytes of the former |
| `TransferQueue.UrlsAreExact` | src/cache/transfer.py:238-247 | a worker is known exactly if it was registered and not deregistered since |
| `TransferQueue.AcceptedInOrder` | src/cache/transfer.py:249-276 | exactly the requests between known workers are accepted, and they are begun in the order they came |
| `TransferQueue.RunListsExactly` | src/cache/transfer.py:313-344 | up to any point of a run, transfers in flight never share a key exactly if none was begun while its key was listed; then each is listed and no removal has raised |
| `TransferQueue.ListingBalance` | src/cache/transfer.py:313-344 | at every point of every run, for each key: transfers in flight less listings = transfers begun while it was listed less removals that raised |
| `TransferQueue.FinishDecides` | src/cache/transfer.py:340-357 | after a transfer a worker whose removal raises goes on, a cancelled one is gone, any other goes on while the service runs |
| `TransferQueue.RaisesExactly` | src/cache/transfer.py:313-344 | with none of a key in flight, removals that raised and transfers begun while it was listed are equally many, so one raised exactly if one was so begun |
| `TransferQueue.OverlapRaises` | src/cache/transfer.py:313-344 | a run from the start in which two transfers of one key overlap and the second removal raises |
| `TransferQueue.ThirdRaisesInstead` | src/cache/transfer.py:313-344 | a run in which a third begins in between, so that the second removal succeeds and the third raises |
| `TransferService.CompressRoundTrip` | src/cache/transfer.py:76-116 | decompressing undoes compressing for every field; both leave blobs already in their form alone |
| `TransferService.TransferredExactly` | src/cache/transfer.py:366-410 | a blob is transferred exactly if the target accepts it and its checksum was taken of the bytes that would be sent, and reports their number |
| `TransferService.IntactBlobSucceedsExactly` | src/cache/transfer.py:377-410 | the exact condition under which a blob with a correct checksum is transferred |
| `TransferService.DefaultSettingsReject` | src/cache/transfer.py:377-387 | with compression on and frames longer than their content no such plain blob gets through |
| `TransferService.CacheTransferService.StartWorkers` | src/cache/transfer.py:204-219 | adds the configured number of workers to the list unless already running |
| `TransferService.CacheTransferService.StopWorkers` | src/cache/transfer.py:221-232 | cancels the listed workers and waits for them, unless not running |
| `TransferService.CacheTransferService.EndStop` | src/cache/transfer.py:234-236 | a stop whose workers are gone clears the list |
| `TransferService.CacheTransferService.RequestTransfer` | src/cache/transfer.py:249-276 | queues the request, or raises exactly for an unregistered end |
| `TransferService.CacheTransferService.BeginTransfer` | src/cache/transfer.py:307-314 | takes the head of the queue and lists it as active |
| `TransferService.CacheTransferService.FinishTransfer` | src/cache/transfer.py:316-344 | counts the result and the transfer, removes the listing, raises exactly if it is gone |
| `WorkerLifecycle.RunIsExclusive` | src/workers/manager.py:195-323 | over every interleaved run of careful starts and stops, workers not stopped have distinct ports outside the pool and distinct GPUs |
| `WorkerLifecycle.RunStaysInPool` | src/workers/manager.py:195-209 | over every run in which no start asks for a port all ports are from 8001 to 8099 |
| `WorkerLifecycle.StartKeepsExclusiveExactly` | src/workers/manager.py:199-228 | a start keeps ports and GPUs exclusive exactly if the port is not held already; one from the pool never is |
| `WorkerLifecycle.ApplyKeepsPortsExactly` | src/workers/manager.py:199-209 | if every pool port is available or held, a step keeps that exactly unless it is a start rejected for its GPU that took a port of the pool |
| `WorkerLifecycle.RunKeepsPortsExactly` | src/workers/manager.py:195-323 | up to any point of such a run every pool port is available or held exactly if no start was so rejected |
| `WorkerLifecycle.SharedGpuLosesPort` | src/workers/manager.py:199-209 | a run of two starts with one GPU after which port 8002 is neither available nor held |
| `WorkerLifecycle.ReleasedAtMostOnce` | src/workers/manager.py:283-317 | in a run a worker's resources are released once if it is stopped and never otherwise |
| `WorkerLifecycle.StopDecides` | src/workers/manager.py:269-323 | what a stop does to the worker, the ports and the GPUs, for every state and outcome |
| `WorkerLifecycle.StopUndoesStart` | src/workers/manager.py:194-323 | stopping a worker that started cleanly restores ports and GPUs |
| `WorkerLifecycle.StartIsItsSteps` | src/workers/manager.py:230-268 | a whole start is the launch and then either health or the two halves of a stop |
| `WorkerLifecycle.FailedStartReturnsResources` | src/workers/manager.py:262-268 | a failed start whose cleanup completes leaves GPUs as they were and returns its port |
| `WorkerLifecycle.StartReturnsExactly` | src/workers/manager.py:194-268 | a start returns exactly if its worker is new, running and healthy after it; the new worker has the port asked for or chosen and no failures or restarts; if the start raises it is stopped, or failed if the cleanup fails; other workers are left alone |
| `WorkerLifecycle.RestartKeepsExclusiveExactly` | src/workers/manager.py:325-350 | for every worker and every outcome of the stop and the new process, the exact condition under which a restart keeps ports and GPUs exclusive |
| `WorkerLifecycle.RestartGivesUpResources` | src/workers/manager.py:325-350 | after a clean restart the running worker's port is in the pool and its GPU unlisted, so a later start can get the same port |
| `WorkerLifecycle.RestartCounts` | src/workers/manager.py:325-350 | a restart is counted whatever becomes of it; a new process starts without failures, a failed one adds to them |
| `WorkerLifecycle.RestartsAreBounded` | src/workers/manager.py:466-483 | no sequence of health checks takes restart_count past the limit |
| `WorkerLifecycle.CheckCountsDown` | src/workers/manager.py:443-483 | a failed check uses up exactly one of the remaining ones, which reach zero exactly at FAILED, and restarts at the third failure in a row; a healthy one gives back exactly the failures so far |
| `WorkerLifecycle.FailsExactly` | src/workers/manager.py:443-483 | a running worker whose every check fails is FAILED after exactly the remaining number of checks |
| `WorkerLifecycle.NewWorkerFailsAfter` | src/workers/manager.py:443-483 | for a new worker that number is 3 * max_restart_attempts + 1 |
| `WorkerLifecycle.WithoutAutoRestart` | src/workers/manager.py:465-483 | without auto-restart a check fails a worker exactly if its restarts are used up |
| `WorkerManagement.RoundKeepsBound` | src/workers/manager.py:443-483 | a round over all workers keeps every restart count within the limit and leaves workers outside it alone |
| `WorkerManagement.WorkerManager.StartWorker` | src/workers/manager.py:170-268 | new state after a start with its cleanup, and what it returns or raises, also for a process that never becomes healthy |
| `WorkerManagement.WorkerManager.StopWorker` | src/workers/manager.py:269-323 | new state after a stop, which is none for a stopped or stopping worker |
| `WorkerManagement.WorkerManager.RestartWorker` | src/workers/manager.py:325-350 | stop, count, start again, without taking resources back |
| `WorkerManagement.WorkerManager.CheckWorkerHealth` | src/workers/manager.py:446-483 | one worker's turn in the health monitor |
| `WorkerManagement.WorkerManager.CheckAllWorkersHealth` | src/workers/manager.py:443-490 | the round over all workers in dictionary order |
| `ClientPool.FailedRequestCounts` | src/gateway/worker_client.py:206-268 | a request whose attempts all end in error responses adds one failure per attempt, one per 503 and one at the end, and ejects exactly at three |
| `ClientPool.FailedRequestEjects` | src/gateway/worker_client.py:262-266 | with at least one retry such a request always ejects the worker |
| `ClientPool.ListedAfterFailureExactly` | src/gateway/worker_client.py:206-268 | for any number of attempts that all fail, the worker stays listed exactly if no 503 came at two failures or more and the final count is below three |
| `ClientPool.FailedRequestEjectsExactly` | src/gateway/worker_client.py:206-268 | with at least one retry, a request that fails on every attempt leaves a listed worker listed exactly if its last reply was a 200 with an invalid body and no 503 came at two failures or more |
| `ClientPool.OnlyInvalidBodySaves` | src/gateway/worker_client.py:219-266 | with any other last reply the worker is ejected |
| `ClientPool.MalformedRestartsCount` | src/gateway/worker_client.py:219-252 | a response with an invalid body restarts the count; the worker stays listed exactly if nothing follows it and no 503 struck the worker out before |
| `ClientPool.AllFailedButStillListed` | src/gateway/worker_client.py:219-266 | so a request can fail on every attempt and leave its worker healthy |
| `ClientPool.SentListedExactly` | src/gateway/worker_client.py:206-268 | after any request a worker is listed exactly if it was and neither a 503 at two failures nor a third failure at the end took it off; then it is UNHEALTHY |
| `ClientPool.SentCounts` | src/gateway/worker_client.py:206-252 | a request counts its attempts, those with an invalid body twice, and every response as a success |
| `ClientPool.DeliveredResets` | src/gateway/worker_client.py:347-364 | a delivered request leaves no failures |
| `ClientPool.CheckDecides` | src/gateway/worker_client.py:389-424 | what a health check does to a worker and the healthy set |
| `ClientPool.StreamAndAddCount` | src/gateway/worker_client.py:135-147 | what an added worker starts with and what a stream counts |
| `ClientPool.RunListsExactly` | src/gateway/worker_client.py:135-424 | over every run a worker is listed exactly if a check found it well while registered and since then no check, ejection or removal took it off |
| `ClientPool.AverageInRange` | src/gateway/worker_client.py:355-362 | the moving average lies between any bounds on the successful times |
| `ClientPool.AverageMoves` | src/gateway/worker_client.py:355-362 | a new time moves the average a tenth of the way |
| `ClientPool.AverageApproaches` | src/gateway/worker_client.py:355-362 | responses of the same time bring the average closer by a tenth each |
| `ClientPool.StepKeepsPoolExactly` | src/gateway/worker_client.py:135-159 | the pool's invariant survives a step exactly if it is no add over a healthy worker and no failing stream on a healthy worker with two failures |
| `ClientPool.RunKeepsPool` | src/gateway/worker_client.py:193-424 | over every run of such steps healthy workers are registered, HEALTHY and below three failures |
| `ClientPool.RunKeepsPoolExactly` | src/gateway/worker_client.py:135-424 | the invariant holds throughout a run exactly if all its steps are of that kind |
| `ClientPool.AddAgainBreaksPool` | src/gateway/worker_client.py:135-147 | a run that adds a healthy worker again and breaks it |
| `ClientPool.StreamsBreakPool` | src/gateway/worker_client.py:270-345 | a run of three failing streams that breaks it |
| `ClientPool.RunAverageInRange` | src/gateway/worker_client.py:347-364 | in every run each average lies between the least and greatest successful time |
| `WorkerClients.WorkerClientPool.AddWorker` | src/gateway/worker_client.py:135-147 | a new connection replaces any old one; the healthy set is not touched |
| `WorkerClients.WorkerClientPool.RemoveWorker` | src/gateway/worker_client.py:149-159 | the worker leaves both the pool and the healthy set |
| `WorkerClients.WorkerClientPool.SendInferenceRequest` | src/gateway/worker_client.py:193-268 | the retry loop's result and counters for every sequence of replies |
| `WorkerClients.WorkerClientPool.UpdateMetrics` | src/gateway/worker_client.py:347-364 | counters and average after a success or a failure |
| `WorkerClients.WorkerClientPool.CheckWorkerHealth` | src/gateway/worker_client.py:389-424 | status, failures and healthy set after a health check |
| `ByteStrings.FieldRoundTrip` | src/workers/prefill_worker.py:82-103 | 32-bit and 64-bit big-endian fields read back as written |
| `ByteStrings.BigEndianByte` | src/workers/prefill_worker.py:82-103 | the most significant byte of a field comes first |
| `ByteStrings.DecodeEncode` | src/cache/infiniband_transfer.py:224-224 | UTF-8 decoding undoes encoding |
| `ByteStrings.EncodeDecode` | src/cache/infiniband_transfer.py:446-446 | the decoder accepts only encodings |
| `ByteStrings.EncodedLength` | src/cache/infiniband_transfer.py:217-224 | the byte length equals the character count exactly for ASCII texts |
| `CacheFraming.RoundTripExactly` | src/workers/prefill_worker.py:59-125 | a serialized cache is read back exactly if both sides' hashes of the data agree modulo 2^32 |
| `CacheFraming.SerializedIsFramed` | src/workers/prefill_worker.py:59-88 | what is sent is version 1, both sizes, the low 32 bits of the hash, and the data |
| `CacheFraming.RoundTrip` | src/workers/prefill_worker.py:59-125 | with one codec on both sides every object with sizes below 2^64 round-trips |
| `CacheFraming.AcceptedExactly` | src/workers/prefill_worker.py:90-125 | a byte string is accepted, with a value, exactly if it is such a frame of a compressed pickle of that value, with the receiver's own hash of it |
| `CacheFraming.PrefixesAndExtensionsRejected` | src/workers/prefill_worker.py:95-109 | every strict prefix and strict extension of a serialized cache is rejected |
| `TransferFrames.UnpackPacked` | src/cache/infiniband_transfer.py:217-221 | packing succeeds exactly on numbers that fit their fields, and unpacking undoes it, for any field widths |
| `TransferFrames.UnpackLength` | src/cache/infiniband_transfer.py:443-443 | unpacking succeeds exactly on as many bytes as the field widths add up to |
| `TransferFrames.OtherSizesRejectAll` | src/cache/infiniband_transfer.py:438-443 | a receiver that cuts off any number of bytes but 28 rejects whatever it gets |
| `TransferFrames.CodedReceiverRejectsAll` | src/cache/infiniband_transfer.py:438-443 | with the coded header size of 32 every frame is rejected |
| `TransferFrames.SentExactly` | src/cache/infiniband_transfer.py:217-224 | a message is built exactly if both sizes are below 2^64 and the id has fewer than 2^32 characters |
| `TransferFrames.MessageLayout` | src/cache/infiniband_transfer.py:216-224 | the bytes of a message: both sizes, the flag, the id length, the id and the data |
| `TransferFrames.FrameParsesBackExactly` | src/cache/infiniband_transfer.py:216-224 | for every header size, a frame parses back to id and data exactly if the size is 28 and the id is ASCII |
| `TransferFrames.PlainNonAsciiRejected` | src/cache/infiniband_transfer.py:445-458 | without compression a frame with a non-ASCII id is rejected |

## Left out

- HTTP servers, clients, sessions and streaming bodies, subprocesses, sockets and engines: only what they answer enters the model.
- Interleaving inside one registry, client pool or health check call: each is one atomic step; transfers, starts and stops are split at their waits. A Redis failure hits a whole registry call, not part of it.
- The records of worker processes and connections are values inside the manager's and pool's dictionaries: handing out a record and changing it elsewhere is not captured, nor is a caller changing an entry it shares with the registry's local cache.
- Redis and the local caches are indexed by key instead of by the key's text, which `CacheKeys.ToStringInjective` shows to be the same; the expiry of a node index, bracketed glob classes, `get_cache_statistics` and the records of registered nodes are not modelled.
- Float rounding: scores, averages and the 0.8 threshold are exact.
- Negative prefix lengths and levels, non-ASCII digits in parsed numbers, and texts that cannot be encoded.
- Scoring reads the clock once for all nodes; the 10 second cache of healthy nodes in `_get_healthy_nodes` and latency statistics are not modelled.
- `FastHashPrefixHasher`, `find_similar_prefixes`, `create_cache_key`: process-dependent, or direct calls of what is modelled.
- `disaggregated_coordinator.py`, `decode_worker.py`, `metadata_sync.py`, `metrics.py`, the demo and the deployment files: orchestration and plumbing that would add only easy members.
- A queue item lost to a timeout race in the runtime of the transfer workers.
