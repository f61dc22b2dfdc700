# Routing and accounting of the LLM gateway, verified

This project models the request-routing and accounting machinery of a Go LLM gateway in Dafny and proves what it is
for: mutual exclusion per order, exact rate limits, fair and weighted channel choice, key lists whose records follow
their keys, model lists that reach a fixpoint with their upstream, counters that are conserved.

Database tables and Go maps are maps, the clock and every random draw are arguments, and each object the source updates
in place is a class whose methods are proved against functions on values; the theorems are about those functions and
about whole runs of them. `dafny verify dfyconfig.toml` checks everything.

| module | what it models |
|---|---|
| `OrderLock` | the per-order reference-counted mutex, any number of threads and orders, one event per atomic section |
| `RateLimit`, `LimiterStates` | the full-history sliding window, the in-memory limiter with eviction, the Redis-list limiter, and what the two hold after a run |
| `Abilities`, `ChannelCache`, `RetrySchedule`, `WeightedPick` | the abilities table, the routing index built beside it, and the choice of a channel |
| `KeyPolling`, `MultiKey`, `MultiKeyChannel`, `KeyPages` | multi-key channels: choosing a key, key management, status updates, the paged listing |
| `Upstream`, `UpstreamUpdate` | reconciling a channel's model list with its upstream |
| `RedisHash`, `HashCodec` | the Redis hash scripts, and objects written as hashes and read back |
| `UsageData` | the write-behind usage cache |
| `BodyStorage`, `BodyPreview`, `BodyCache`, `CacheCounters` | request bodies in memory or on disk, previews, and the counters of open stores |
| `OggScan` | the resynchronising Ogg page scan |
| `Text`, `Decimal`, `Bytes`, `ChannelStatus`, `Wrappers` | the parts of Go's `strings` and `strconv` used, 64-bit ranges, shared constants and types |

## Where the code does not do what it promises

The code is kept as it is; each of these has a lemma with a concrete input and, where the promise has a boundary, a
lemma giving the exact condition.

- Limits: the in-memory limiter forgets accepted requests when a window is longer than the eviction time plus one
  second, and a maximum of 0 admits a key's first request (`RateLimit.EvictionTooEarly`,
  `RateLimit.ZeroMaximumAdmitsOne`, exactly: `RateLimit.MemoryLimiterExact`); the Redis limiter needs a maximum of at
  least 1 and a window no longer than the key's time to live (`RateLimit.ExpiryTooEarly`, `RateLimit.ZeroMaximumErrs`,
  exactly: `RateLimit.RedisLimiterExact`).
- `GetChannel` stops its loop at `<= 0`, one draw early: the first row is chosen by one draw more, and the last by one
  draw less, than weight + 10 (`WeightedPick.RowOdds`).
- Two ability rows can share the text "group|model"; the later one is then missing (`Abilities.CollisionLosesRow`,
  exactly: `Abilities.RowsAreCrossProduct`).
- The index is built from untrimmed, undeduplicated lists and the table from trimmed, deduplicated ones: an enabled
  channel with a padded group writes to a nil map and panics (`ChannelCache.PaddedGroupPanics`, exactly:
  `ChannelCache.PanicExact`), and one that repeats a group or model is listed repeatedly
  (`ChannelCache.RepeatedModelListedTwice`, exactly: `ChannelCache.IndexMatchesAbilities`).
- The cache is installed from tables read earlier, so a disable in between is undone
  (`ChannelCache.LateInstallUndoesDisable`, exactly: `ChannelCache.LateInstallExact`).
- A report about a key no longer in the list is charged to the first key, whatever it reports: a disabling one disables
  it, an enabling one enables it (`MultiKey.UnlistedReportHitsFirst`, exactly: `MultiKey.ReportExact`). A key listed
  twice is still handed out after a report disables it, as only its first copy is marked
  (`MultiKey.SecondCopyStaysEnabled`, exactly: `MultiKey.DisablingReportExact`). A blank key at
  either end of the survivors shifts every record (`MultiKey.BlankKeyLosesStatus`, exactly:
  `MultiKey.DeleteKeyKeepsSurvivors`); deleting all auto-disabled keys when none survives deletes nothing and enables
  everything (`MultiKey.DeletingEveryKeyRevivesAll`). Enabling a key does not bring an auto-disabled channel back
  (`MultiKey.AutoDisableExact`).
- A model name with a comma, or an upstream model named like an ignore pattern, keeps reconciliation from settling
  (`UpstreamUpdate.CommaNameStaysPending`, `UpstreamUpdate.PatternNameRevealsIgnored`, exactly:
  `UpstreamUpdate.ReconciliationFixpoint`).
- A pointer to the empty string reads back as nil (`HashCodec.FreshRoundTrip`).
- The usage cache key joins its parts with dashes and can collide (`UsageData.KeysCollide`); runs over a set of tuples
  are attributed right exactly when the key tells them apart (`UsageData.UsageAttributedExact`).
- The disk limit is overshot in two ways. It is checked and used up in separate steps, so bodies that arrive together
  can pass together; and the check sees the announced length (`common/body_storage.go:266-269`) where what is written is
  counted (line 160), which is more for a body that `middleware/gzip.go:44-61` decompresses under its compressed length.
  The usage reaches the limit plus what was in flight at a check plus what was written beyond the announcement, and no
  run exceeds that (`CacheCounters.LimitOvershootReached`, `BodyCache.ShortAnnouncementOvershoots`, exactly:
  `CacheCounters.DiskUsageExact`, `CacheCounters.DiskLimitExact`).
- A bound of 2^63-1 wraps to a negative limit: bounded reads, previews and stored bodies are then empty
  (`BodyPreview.PreviewExact`, `BodyCache.SizeTestExact`).
- A huge page size wraps the number of pages to -1, and the slice then starts past its end
  (`KeyPages.HugePageMiscounts`, exactly: `KeyPages.PageCountExact`).

## Model

| member | source | states |
|---|---|---|
| `OrderLock.RunSafe` | `controller/topup.go:125-165` | over every interleaving from a safe state: one owner per order, a map entry exactly while somebody refers to the order, its counter the number of those threads, every active thread's mutex the one in the map |
| `OrderLock.StepSafe` | `controller/topup.go:136-165` | every atomic section and mutex operation keeps that invariant |
| `OrderLock.QuiescentMapEmpty` | `controller/topup.go:159-164` | when no thread is inside either call, the map is empty |
| `OrderLock.UnlockOrderNeverMisses` | `controller/topup.go:151-157` | UnlockOrder's lookup finds the very mutex that was locked, and unlocking it cannot panic |
| `OrderLock.SomebodyCanMove` | `controller/topup.go:136-165` | deadlock freedom: while a thread is inside, some thread inside can take a step |
| `OrderLock.BlockedExact` | `controller/topup.go:136-165` | a thread inside can take its next step if and only if it does not wait for an order somebody owns |
| `OrderLock.StepMoves` | `controller/topup.go:136-165` | every step takes its own thread one stage further, from waiting to outside, and leaves every other thread where it is |
| `OrderLock.FourStepsPerEntry` | `controller/topup.go:136-165` | over every run, the steps a thread has taken and has left add up to four for each entry: nobody stays inside after four steps of its own |
| `OrderLock.EverybodyCanLeave` | `controller/topup.go:136-165` | from every reachable state the threads inside can all leave, without a new entry, in exactly the steps they have left, and the map is then empty |
| `OrderLock.EnterUsers` | `controller/topup.go:137-147` | counting in adds exactly one user to one order and changes no owner |
| `OrderLock.ExitUsers` | `controller/topup.go:159-164` | counting out removes exactly one user and leaves the counter equal to the users left |
| `OrderLock.OrderLocks.EnterSection` | `controller/topup.go:137-147` | the first section of LockOrder: the order's mutex, or a new unlocked one, counts one user more, the thread waits on it, and no other mutex is touched; the Enter step |
| `OrderLock.OrderLocks.LockMutex` | `controller/topup.go:148` | the mutex is locked and the thread owns the order; the Acquire step |
| `OrderLock.OrderLocks.Lookup` | `controller/topup.go:152-156` | returns the caller's own mutex, which is locked; the Load step |
| `OrderLock.OrderLocks.UnlockMutex` | `controller/topup.go:157` | the mutex was locked and no longer is, the thread is on its way out, and every thread waiting for the order can acquire it; the Unlock step |
| `OrderLock.OrderLocks.ExitSection` | `controller/topup.go:159-164` | one user fewer, the entry gone with the last one, and the thread outside; the Exit step |
| `RateLimit.MemoryLimiterExact` | `common/rate-limit.go:28-70` | started empty, with eviction passes anywhere, the limiter accepts on every ordered run exactly when fewer than the maximum of the accepted requests lie in the window, if and only if no window is longer than the eviction time plus one second and every maximum is at least 1 |
| `RateLimit.MemoryLimiterCapacity` | `common/rate-limit.go:28-70` | the same against a maximum of 0 counted as 1, if and only if no window is longer than the eviction time plus one second |
| `RateLimit.ZeroMaximumAdmitsOne` | `common/rate-limit.go:64-69` | with a maximum of 0 the first request of a key is accepted where the promise rejects it |
| `RateLimit.MemoryLimiterExactWithoutEviction` | `common/rate-limit.go:20-22` | without a cleaner the queue decides as the history does, for every window |
| `RateLimit.NoWindowOverfull` | `common/rate-limit.go:45-70` | accepted requests more than a capacity apart in the history are at least a window apart in time |
| `RateLimit.MemRunRefines` | `common/rate-limit.go:28-70` | the same refinement from any related store and history |
| `RateLimit.MemClearRefines` | `common/rate-limit.go:28-42` | an eviction pass changes no later answer |
| `RateLimit.EvictionTooEarly` | `common/rate-limit.go:36-38` | for a longer window, a run whose last request is accepted by the limiter and rejected by the history: one too many |
| `RateLimit.RedisLimiterExact` | `middleware/rate-limit.go:54-98` | started empty, the Redis list keeps the same promise on every ordered run, if and only if every maximum is at least 1 and no window is longer than the time to live |
| `RateLimit.ZeroMaximumErrs` | `middleware/rate-limit.go:65-76` | with a maximum of 0 the first request is a server error |
| `RateLimit.ExpiryTooEarly` | `middleware/rate-limit.go:66-67` | for a longer window, a run whose last request is accepted by the limiter and rejected by the history: one too many |
| `RateLimit.LimitersAgree` | `middleware/rate-limit.go:109-120` | the two limiters give the same decisions on every ordered run |
| `LimiterStates.ListAndQueueAgree` | `middleware/rate-limit.go:54-98` | after every ordered run, with evictions and expiries anywhere, neither the list nor the queue of a key is longer than the maximum, and in the same direction one is the end of the other, equal when as long |
| `LimiterStates.ListIsQueueReversed` | `middleware/rate-limit.go:187-230` | as long as a key's own entry is alive at its own requests and its own queue is not evicted, its list is its queue reversed, for runs of any length and whatever other keys do |
| `RateLimit.InMemoryRateLimiter.Request` | `common/rate-limit.go:45-70` | answers and leaves the queues as the value-level request does, for every branch |
| `RateLimit.InMemoryRateLimiter.ClearExpiredItems` | `common/rate-limit.go:33-39` | one pass over the keys, in any order, keeps exactly the queues that are not stale |
| `RateLimit.RedisLists.RateLimit` | `middleware/rate-limit.go:54-98` | the command sequence gives the value-level decision and list |
| `RateLimit.RedisLists.LTrim` | `middleware/rate-limit.go:94` | keeps the newest entries up to the stop index, the expiry unchanged |
| `Abilities.CollectAbilities` | `model/ability.go:185-212` | the nested loops yield the pairs of groups and models, first occurrence of each key only |
| `Abilities.RowsAreCrossProduct` | `model/ability.go:190-208` | the rows are the whole cross product if and only if no two pairs share their "group\|model" key |
| `Abilities.BarFreeGroupsDistinguish` | `model/ability.go:192-193` | without a bar in a group name no two pairs share a key |
| `Abilities.CollisionLosesRow` | `model/ability.go:193-196` | two groups and two models of which one pair gets no row |
| `Abilities.RebuildRows` | `model/ability.go:328-374` | rebuilding gives every channel exactly its own rows, enabled when the channel is |
| `Abilities.InsertKeeps` | `model/ability.go:219` | an insertion adds the channel's rows and touches no row already there |
| `Abilities.UpdateReplacesOwnRows` | `model/ability.go:233-300` | updating one channel replaces its rows and touches no other channel's |
| `ChannelCache.IndexMatchesAbilities` | `model/channel_cache.go:21-84` | after a build the list of a group and model holds exactly the channels with an enabled ability row, each once, if and only if every enabled channel's lists are unpadded, without repeats and without colliding keys |
| `ChannelCache.FreshCacheHealthy` | `model/channel_cache.go:57-64` | over such rows every list is duplicate-free, by non-increasing priority, and of enabled channels |
| `ChannelCache.CleanRowsDoNotPanic` | `model/channel_cache.go:37-53` | such rows name no group the abilities lack, so the build writes to no nil map |
| `ChannelCache.PanicExact` | `model/channel_cache.go:45-51` | over the table the rows give, the build does not panic if and only if every group an enabled channel names, as it stands between the commas, has a row of some channel |
| `ChannelCache.PaddedGroupPanics` | `model/channel_cache.go:45-51` | an enabled channel with groups "a, b" panics the build |
| `ChannelCache.RepeatedModelListedTwice` | `model/channel_cache.go:45-53` | a channel with models "m,m" is appended twice |
| `ChannelCache.RunRemovesExactlyDisabled` | `model/channel_cache.go:248-271` | over every run of status updates each list loses exactly the disabled channels, keeps its order and stays healthy |
| `ChannelCache.RunLeavesLastStatus` | `model/channel_cache.go:248-256` | over every run of status updates each entry takes the status last given to it and keeps everything else |
| `ChannelCache.EntryAfterBuild` | `model/channel_cache.go:66-77` | a build stores every row read, except that a channel polling before and after keeps its saved position |
| `ChannelCache.RawCount` | `model/channel_cache.go:45-53` | how often a channel is appended: occurrences of the group times occurrences of the model |
| `ChannelCache.SortDescSorts` | `model/channel_cache.go:59-61` | the sort keeps the elements and orders them by non-increasing priority |
| `ChannelCache.AddChannel` | `model/channel_cache.go:45-54` | the inner loops append one channel under each pair, or panic exactly on a group without abilities |
| `ChannelCache.BuildIndex` | `model/channel_cache.go:37-55` | the outer loop: each list holds each id as often as the rows append it, and every row is in the id map |
| `ChannelCache.SortListsOfModels` | `model/channel_cache.go:58-63` | ranging over a group's models in any order sorts every list and changes nothing else |
| `ChannelCache.SortLists` | `model/channel_cache.go:57-64` | ranging over the groups in any order does that to the whole index |
| `ChannelCache.CarryPositions` | `model/channel_cache.go:66-77` | ranging over the rows in any order carries over exactly the positions of channels polling before and after |
| `ChannelCache.ChannelCache.Install` | `model/channel_cache.go:57-82` | whatever happened to the cache since the tables were read, it becomes a sorted index over those rows, with the polling positions it holds now |
| `ChannelCache.LateInstallExact` | `model/channel_cache.go:25-82` | with any updates between reading and installing, no channel they left disabled is listed afterwards if and only if none of them was read enabled |
| `ChannelCache.LateInstallUndoesDisable` | `model/channel_cache.go:79-82` | a channel read enabled and disabled before the install is listed again, its status enabled |
| `ChannelCache.ChannelCache.InitChannelCache` | `model/channel_cache.go:21-84` | a build that does not panic replaces the whole cache by a sorted index over the rows read, polling positions carried over; one that panics leaves it alone |
| `ChannelCache.SpliceOut` | `model/channel_cache.go:261-267` | the innermost loop takes the first occurrence out of the slice, or nothing |
| `ChannelCache.SpliceOutOfModels` | `model/channel_cache.go:260-268` | ranging over a group's models in any order does that to every list |
| `ChannelCache.ChannelCache.DeleteFromIndex` | `model/channel_cache.go:259-269` | ranging over the groups in any order does it to the whole index |
| `ChannelCache.ChannelCache.CacheUpdateChannelStatus` | `model/channel_cache.go:248-271` | the id map takes the new status of that channel alone; every list stays, or loses the first occurrence of the channel unless it is enabled |
| `ChannelCache.ChannelCache.GetRandomSatisfiedChannel` | `model/channel_cache.go:96-214` | no channel if and only if the lists of the model and of its normalised name are both empty; otherwise the answer is chosen from the model's own list, or from the other when that is empty |
| `ChannelCache.ChannelCache.ChooseFrom` | `model/channel_cache.go:117-214` | over a list: an error if and only if some of it is missing from the id map, and otherwise a channel at the priority the retry maps to whose stretch of the effective weights the draw falls in |
| `ChannelCache.ServedByAbility` | `model/channel_cache.go:96-214` | after a build over clean rows a request is served from a group and model's own list if and only if the abilities have an enabled row for them, and then by an enabled channel with such a row |
| `ChannelCache.ChannelOdds` | `model/channel_cache.go:161-213` | the number of draws that choose each channel of the level the retry maps to: 100 when all weights are 0, 100 for each unit of weight when they average below 10, else one for each unit |
| `ChannelCache.SingleChosen` | `model/channel_cache.go:123-131` | the shortcut for one candidate returns what the draw would have |
| `ChannelCache.ChosenIsEnabled` | `model/channel_cache.go:133-211` | over a healthy cache the chosen channel is an enabled one of the list, of the highest priority on the first attempt |
| `ChannelCache.LevelsSound` | `model/channel_cache.go:161-165` | the levels are the distinct priorities, strictly descending |
| `RetrySchedule.MapFollowsSchedule` | `model/ability.go:71-107` | the arithmetic follows the schedule the comment promises, on every attempt |
| `RetrySchedule.EveryLevelUsed` | `model/ability.go:74-76` | with enough attempts the highest level takes every extra one and each other level exactly one |
| `RetrySchedule.LevelsDescendOneByOne` | `model/ability.go:82-107` | over growing retries the level starts at 0, never decreases and never skips one |
| `WeightedPick.TotalIsSumOfEffective` | `model/channel_cache.go:185-203` | in all three smoothing cases, written out, the bound of the draw is positive and the sum of the effective weights |
| `WeightedPick.PickIsExact` | `model/channel_cache.go:185-213` | channel i is selected by 100 draws when all weights are 0, 100 for each unit of its weight when they average below 10, else one for each unit; every draw selects exactly one channel |
| `WeightedPick.Pick` | `model/channel_cache.go:205-213` | the subtracting loop finds the one channel whose stretch contains the draw, and "channel not found" only past the sum |
| `WeightedPick.PickRow` | `model/ability.go:162-177` | GetChannel's loop always finds a row, the one whose shifted stretch contains the draw |
| `WeightedPick.RowOdds` | `model/ability.go:164-177` | the exact odds of that loop: one draw more for the first row, one less for the last |
| `KeyPolling.PollingIsFair` | `model/channel.go:161-190` | with k enabled keys any k consecutive polls take each exactly once, poll j+k repeats poll j, and only enabled keys are taken whatever position was saved |
| `KeyPolling.WindowDistinct` | `model/channel.go:176-188` | two polls no more than a turn apart take the same key if and only if they are exactly a turn apart |
| `KeyPolling.PollsRotate` | `model/channel.go:176-188` | poll j takes the enabled key j ranks further on, cyclically |
| `KeyPolling.PollTakesFirst` | `model/channel.go:176-188` | the polled key is the first enabled one from the saved position on, going round, or from 0 when that position is out of range |
| `KeyPolling.EnabledUpToSound` | `model/channel.go:147-153` | the collected positions are enabled, in range and in order |
| `KeyPolling.EnabledUpToComplete` | `model/channel.go:147-153` | no enabled position is left out |
| `MultiKey.RunConsistent` | `model/channel.go:457-487` | over every run of key-management actions and status updates the size is the number of keys and the status map records only non-enabled statuses below it |
| `MultiKey.StepConsistent` | `controller/channel.go:1314-2030` | every action and status update keeps that |
| `MultiKey.SuccessExact` | `controller/channel.go:1369-2021` | which actions succeed, for single-key and multi-key channels; the others change nothing |
| `MultiKey.SingleKeyExact` | `controller/channel.go:1639-1664` | on a single-key channel enabling and disabling set the channel's status, deleting does nothing, and the key is replaced as a whole |
| `MultiKey.OneKeyChanged` | `controller/channel.go:1684-1686` | disabling or enabling a key changes that key's status and no other; enabling also forgets its time and reason |
| `MultiKey.AllKeysChanged` | `controller/channel.go:1788-1863` | enabling all leaves no record; disabling all disables the enabled keys and keeps the status of the others |
| `MultiKey.StatusUpdateMeaning` | `model/channel.go:556-578` | a status update changes the status, time and reason of one key, the first of that text or the first of all, nobody else's, and no other column but the status |
| `MultiKey.AddKeysExact` | `controller/channel.go:1410-1445` | added keys follow the old ones of any channel; all are stored if and only if the first is not blank, the channel is then a multi-key one when there are several, and the old keys keep their positions and records; the mode is the given one, else the old one, else random, and status, polling position, times and reasons stay |
| `MultiKey.UpdateKeyExact` | `controller/channel.go:1388-1402` | replacing a key replaces exactly that key and moves no record, if and only if the new text is one line and neither end of the list is blank |
| `MultiKey.CardinalityTestExact` | `model/channel.go:579-586` | the test len(map) >= MultiKeySize holds if and only if every key is disabled, which is when choosing a key fails |
| `MultiKey.AutoDisableExact` | `model/channel.go:551-587` | a status update auto-disables the channel if and only if it leaves no key enabled, and otherwise keeps the channel's status |
| `MultiKey.UnlistedReportHitsFirst` | `model/channel.go:556-562` | a report about an unlisted key sets the first key's status, whatever it reports |
| `MultiKey.ReportExact` | `model/channel.go:556-578` | a report changes no key but those it names if and only if the key is listed or the first key already has that status |
| `MultiKey.DisablingReportExact` | `model/channel.go:556-578` | a disabling report leaves a listed key enabled nowhere if and only if no copy of it after the first was enabled |
| `MultiKey.SecondCopyStaysEnabled` | `model/channel.go:556-562` | a key listed twice and reported once: its second copy is still enabled |
| `MultiKey.DeleteKeyKeepsSurvivors` | `controller/channel.go:1895-1944` | deleting a key stores the others in order if and only if the first and the last of them are not blank; then status, time and reason have moved with them and nothing lies past the end |
| `MultiKey.DeleteDisabledKeepsSurvivors` | `controller/channel.go:1963-2017` | the same for deleting the auto-disabled keys, a list without survivors included, times and reasons following the keys that stay disabled |
| `MultiKey.ReindexMeaning` | `controller/channel.go:1912-1929` | what re-indexed records are, entry by entry |
| `MultiKey.SurvivorsReadBack` | `controller/channel.go:1938` | the joined survivors read back as themselves if and only if the first and the last are not blank |
| `MultiKey.BlankKeyLosesStatus` | `controller/channel.go:1895-1942` | three keys with a blank one, of which a deletion loses a disabled status |
| `MultiKey.DeletingEveryKeyRevivesAll` | `controller/channel.go:2002-2017` | with no survivor the stored keys stay, all enabled, their records gone |
| `MultiKeyChannel.Channel.GetNextEnabledKey` | `model/channel.go:118-202` | each outcome exactly when the source gives it; a chosen key is an enabled one, the drawn, polled or first one by mode; only polling moves the saved position |
| `MultiKeyChannel.Channel.ScanFrom` | `model/channel.go:180-190` | the polling loop finds the polled key, so its fallback is not reached |
| `MultiKeyChannel.Channel.Update` | `model/channel.go:457-495` | recounts the keys, drops statuses past the end, keeps the stored key for an empty one |
| `MultiKeyChannel.Channel.DropStatusesPastEnd` | `model/channel.go:489-495` | deleting while ranging in any order keeps exactly the statuses below the size |
| `MultiKeyChannel.Channel.HandlerMultiKeyUpdate` | `model/channel.go:551-587` | the fields change as the value-level status update says |
| `MultiKeyChannel.Channel.IndexOfKey` | `model/channel.go:556-562` | the search loop finds the first position of the key, or 0 |
| `MultiKeyChannel.Channel.DisableKeyAt` | `controller/channel.go:1639-1690` | succeeds and changes the fields as the value-level action does, single-key branch included |
| `MultiKeyChannel.Channel.EnableKeyAt` | `controller/channel.go:1706-1752` | the same for enabling one key |
| `MultiKeyChannel.Channel.EnableEveryKey` | `controller/channel.go:1763-1796` | the same for enabling all |
| `MultiKeyChannel.Channel.DisableEveryKey` | `controller/channel.go:1807-1867` | the same for disabling all, an error exactly when none was enabled |
| `MultiKeyChannel.Channel.DeleteKeyAt` | `controller/channel.go:1883-1948` | the same for deleting one key, through its re-indexing loop |
| `MultiKeyChannel.Channel.DeleteAutoDisabledKeys` | `controller/channel.go:1959-2021` | the same for deleting the auto-disabled keys |
| `MultiKeyChannel.Channel.UpdateKeyAt` | `controller/channel.go:1369-1408` | the same for replacing a key |
| `MultiKeyChannel.Channel.KeyLines` | `controller/channel.go:1411-1418` | the loop of add_keys keeps the lines, trimmed, that are not blank |
| `MultiKeyChannel.Channel.AddMoreKeys` | `controller/channel.go:1410-1446` | the same for adding keys |
| `KeyPages.PagesCoverList` | `controller/channel.go:1594-1615` | with the size asked for, or 50, the pages concatenate to the filtered list and all but the last are full; a page past the last is the last, one below 1 the first, none empty unless all are |
| `KeyPages.PageCountExact` | `controller/channel.go:1594-1600` | in 64-bit integers the number of pages is right, for any list of at most 2^62 keys, if and only if the sum does not wrap or wraps to less than a page below zero; otherwise it is -1 |
| `KeyPages.PagesFitMachine` | `controller/channel.go:1601-1609` | where it is right no start or end of a page wraps |
| `KeyPages.HugePageMiscounts` | `controller/channel.go:1594-1615` | three keys and a page size of 2^63-1: the count is -1, the start 2 and the end negative |
| `KeyPages.FilterExact` | `controller/channel.go:1582-1592` | the filter keeps exactly the keys of the asked status, in order |
| `Text.FieldsJoin` | `model/channel.go:113-115` | a list written joined and read back trimmed and split is itself if and only if its first and last elements are not blank |
| `Text.SplitJoin` | `model/channel.go:209-214` | splitting undoes joining for elements without the separator |
| `Text.TrimExact` | `model/channel.go:115` | trimming takes the separator off both ends and nothing else |
| `Text.TrimSpaceExact` | `controller/channel_upstream_update.go:76-81` | trimming takes space off both ends and nothing else |
| `Text.NonBlankExact` | `controller/channel_upstream_update.go:76-81` | each element stands for itself, trimmed, or for nothing when it is blank |
| `Upstream.NormalizeNormal` | `controller/channel_upstream_update.go:76-81` | normalizing gives a duplicate-free list of trimmed names and leaves such a list alone |
| `Upstream.NormalizeExact` | `controller/channel_upstream_update.go:76-81` | normalizing keeps exactly the trimmed names that are not blank, each where it first occurs |
| `Upstream.MergeNormal` | `controller/channel_upstream_update.go:83-97` | a merge is duplicate-free and the union |
| `Upstream.SubtractNormal` | `controller/channel_upstream_update.go:99-108` | a subtraction is duplicate-free and the difference |
| `Upstream.IntersectNormal` | `controller/channel_upstream_update.go:110-119` | an intersection is duplicate-free and the common names |
| `Upstream.ApplySelectedList` | `controller/channel_upstream_update.go:121-126` | the new list, in order: the origin less what is removed and not added, then the additions it lacked |
| `Upstream.ApplySelectedNormal` | `controller/channel_upstream_update.go:121-126` | as a set, (origin with additions) less (removals not added), without duplicates |
| `UpstreamUpdate.PendingMeaning` | `controller/channel_upstream_update.go:155-214` | a pending addition is an upstream name that is not local, no redirect target and not ignored; a pending removal a local one that is no redirect source and not upstream |
| `UpstreamUpdate.IgnoresExact` | `controller/channel_upstream_update.go:192-199` | a plain entry hides the name equal to it alone, and "regex:" with a pattern what the trimmed pattern matches |
| `UpstreamUpdate.CheckExact` | `controller/channel_upstream_update.go:342-389` | a check is skipped, changing nothing, if and only if it is not forced and the last is less than the interval ago; a failed fetch changes the time alone; any other records exactly the pending additions and removals, in order, or appends all additions to the models when it applies them |
| `UpstreamUpdate.EveryChangeEndsOnce` | `controller/channel_upstream_update.go:775-798` | every pending addition ends in exactly one of added, ignored or still pending, add beating ignore and remove; every pending removal ends removed or still pending |
| `UpstreamUpdate.AppliedInOrder` | `controller/channel_upstream_update.go:762-810` | added models come in the order they were selected; what stays pending keeps its order |
| `UpstreamUpdate.NextModelsExact` | `controller/channel_upstream_update.go:783-788` | the list applied: order, no duplicates, and its set; changed exactly when it differs |
| `UpstreamUpdate.StoredListReadsBack` | `controller/channel_upstream_update.go:787` | the comma-joined list reads back if and only if no name holds a comma |
| `UpstreamUpdate.AppliedModelsReadBack` | `controller/channel_upstream_update.go:783-788` | the stored models are the new list if and only if no added name holds a comma |
| `UpstreamUpdate.ReconciliationFixpoint` | `controller/channel_upstream_update.go:762-810` | detect, apply everything, detect again: nothing is pending if and only if no added name holds a comma and every ignored upstream name keeps an ignoring entry |
| `UpstreamUpdate.CheckApplyCheck` | `controller/channel_upstream_update.go:342-389` | a check, applying all it found and a second check: the second records nothing, if and only if no addition holds a comma and every ignored upstream name keeps an ignoring entry |
| `UpstreamUpdate.PlainNamesReachFixpoint` | `controller/channel_upstream_update.go:155-214` | with comma-free upstream names none of which starts "regex:" the fixpoint is always reached |
| `UpstreamUpdate.CommaStaysPending` | `controller/channel_upstream_update.go:783-788` | from any row, a detected name with a comma is pending again after everything was applied |
| `UpstreamUpdate.UnkeptEntryReveals` | `controller/channel_upstream_update.go:790-793` | from any row, a name whose ignoring entries are all about to be added is pending after everything was applied |
| `UpstreamUpdate.CommaNameStaysPending` | `controller/channel_upstream_update.go:783-788` | the upstream name "a,b" is detected, and pending again after it was applied |
| `UpstreamUpdate.PatternNameRevealsIgnored` | `controller/channel_upstream_update.go:790-793` | adding a model named like the pattern "regex:^x" makes "xy", which it hid, pending |
| `UpstreamUpdate.AutoSyncSettles` | `controller/channel_upstream_update.go:342-389` | after an automatic synchronisation nothing is left to add if and only if no added name held a comma, and the recorded removals are those a second check finds |
| `UpstreamUpdate.AutoAddedModels` | `controller/channel_upstream_update.go:366-374` | it adds exactly the pending names, and counts them |
| `UpstreamUpdate.MergeModelNames` | `controller/channel_upstream_update.go:83-97` | the loop with its seen set computes the merge |
| `UpstreamUpdate.ChannelModels.ApplyUpdates` | `controller/channel_upstream_update.go:762-810` | the fields and the answers are those of the value-level application |
| `UpstreamUpdate.ChannelModels.CheckUpdates` | `controller/channel_upstream_update.go:342-389` | the fields and answers after a skipped check, a failed fetch, a recorded check and an applied one |
| `RedisHash.PreservedFieldConserved` | `common/redis.go:267-292` | while a hash stays complete a preserved field is its starting value plus every increment that answered true, whatever rewrites and other writes come between |
| `RedisHash.RequestedFieldConserved` | `common/redis.go:267-292` | while a hash stays complete every increment of a preserved field is credited in full, over the whole run, if and only if no running sum of the amounts asked for leaves 64 bits; the field is then its starting value plus all of them |
| `RedisHash.FieldAfter` | `common/redis.go:83-399` | what each operation leaves in each field, rewrites of a complete hash included |
| `RedisHash.LastEntryCounts` | `common/redis.go:336-399` | a rewrite sets exactly the fields its arguments name, to their last text |
| `RedisHash.IncompleteNeverIncremented` | `common/redis.go:275-286` | while a hash stays incomplete, every conditional increment anywhere in the run answers false and changes nothing |
| `RedisHash.RebuiltFieldConserved` | `common/redis.go:376-399` | after any operations at all and a rewrite that finds the hash incomplete, the field is the object's value plus every increment that answered true since; in full as long as the running sums fit 64 bits |
| `RedisHash.RebuildWrites` | `common/redis.go:376-392` | that rewrite leaves the object's own text in every field of the object, preserved or not |
| `RedisHash.RebuildCompletes` | `common/redis.go:376-392` | and completes the hash if and only if the object has a real Id |
| `RedisHash.RewriteCompletes` | `common/redis.go:376-399` | a rewrite leaves the hash complete if and only if the Id it ends with is a real one |
| `RedisHash.StepCredits` | `common/redis.go:267-313` | what each operation adds to a respected field |
| `RedisHash.RedisKey.IncrByIfComplete` | `common/redis.go:275-286` | answers false if and only if there is no real Id, and true if and only if there is one, the field is missing or the text of a 64-bit integer, and the sum fits 64 bits; then the field is the sum; nothing else ever changes |
| `RedisHash.RedisKey.SetPreserving` | `common/redis.go:371-399` | the three loops of the rewriting script leave old fields, object fields and kept fields, in that order of precedence, whatever order the saved ones are put back in |
| `HashCodec.RoundTrip` | `common/redis.go:91-223` | an object written over any older hash and read into any object of its shape comes back, except that nil pointers, pointers to "" and DeletedAt leave the target as it was |
| `HashCodec.FreshRoundTrip` | `common/redis.go:145-223` | into any object whose pointers and DeletedAt are unset, whatever its plain values, the round trip is exact if and only if no pointer points to "" and DeletedAt is unset |
| `HashCodec.UnsupportedKindFails` | `common/redis.go:216-218` | a field of another kind can be written and never read |
| `HashCodec.ReadObjectExact` | `common/redis.go:145-222` | an empty hash is not found; all fields are read if and only if each can be; otherwise reading stops at the first that cannot, the fields before it read, a nil pointer there a new zero value, the rest untouched |
| `HashCodec.EncodeHolds` | `common/redis.go:97-128` | each field is stored under its name as its own text, a boolean as "true" or "false", a nil pointer as the empty text, DeletedAt not at all |
| `HashCodec.BuildData` | `common/redis.go:102-128` | the field loop builds that hash |
| `HashCodec.ReadObject` | `common/redis.go:145-223` | reading fills the object in place; on an error the fields before the failing one are written, a failing nil pointer is set to a new zero value, and the rest is untouched |
| `Decimal.PrintParse` | `common/redis.go:191-196` | every signed 64-bit integer survives printing and parsing |
| `Decimal.PrintsDecimal` | `common/redis.go:91-140` | the printed text is the usual decimal one |
| `UsageData.UsageConserved` | `model/usedata.go:37-102` | whatever is logged and flushed, in any order, table and cache together hold what was there before plus, for each event, one call, its quota and its tokens; one row per tuple |
| `UsageData.UsageAttributedExact` | `model/usedata.go:37-102` | from an empty cache and table, every run of events over a set of tuples gives each tuple what was logged for it, if and only if the cache key tells the loggable ones apart |
| `UsageData.StepAttributedExact` | `model/usedata.go:37-56` | logging one event is attributed right for every measure and tuple if and only if the entry under its key, if any, is its own tuple's |
| `UsageData.UsageAttributed` | `model/usedata.go:37-102` | with one user name per user id, and no hour before 1970, every user, model and hour gets what was logged for it |
| `UsageData.HourRounds` | `model/usedata.go:59-60` | times are rounded to a whole hour, towards 1970 |
| `UsageData.StepAccounts` | `model/usedata.go:58-90` | one event adds its own share and nothing else |
| `UsageData.FlushedOneSum` | `model/usedata.go:77-88` | flushing an entry adds its totals to its row, created if missing |
| `UsageData.FlushMovesAll` | `model/usedata.go:67-102` | a flush leaves nothing in the cache and all of it in the table, for every measure and tuple |
| `UsageData.KeyParts` | `model/usedata.go:37-39` | the cache key is the user id, the name, the model and the hour, joined by dashes |
| `UsageData.KeysSeparate` | `model/usedata.go:38` | with one name per id and no negative hour the cache key determines the tuple |
| `UsageData.KeysCollide` | `model/usedata.go:37-56` | two tuples with one key: the second event is charged to the first |
| `UsageData.QuotaData.Record` | `model/usedata.go:37-65` | the entry under the event's key, or a new one of its own user, name, model and hour, grows by one call, its quota and its tokens; nothing else changes |
| `UsageData.QuotaData.Save` | `model/usedata.go:67-90` | the cache ends empty and the table has gained, tuple by tuple, all that was in it, whatever order the map yields |
| `BodyStorage.StoresAgree` | `common/body_storage.go:47-230` | any sequence of non-empty reads, seeks, full reads and closes gets the same answers from disk as from memory |
| `BodyStorage.StepsAlike` | `common/body_storage.go:47-230` | one operation: same answer if and only if it is not an empty read at the end of the data |
| `BodyStorage.DiskBytesRestores` | `common/body_storage.go:198-230` | a full read of the file returns its contents and restores the position |
| `BodyStorage.ReadsCompose` | `common/body_storage.go:47-54` | two reads deliver what one longer read would |
| `BodyStorage.SeekThenRead` | `common/body_storage.go:47-63` | a seek from the start, the position or the end and then a read deliver the bytes from there, as many as there are up to the number asked for |
| `BodyStorage.SeekExact` | `common/body_storage.go:56-63` | where a seek goes, and that it is refused, moving nothing, for an unknown whence, before the start and past 64 bits |
| `BodyStorage.ClosedForGood` | `common/body_storage.go:65-72` | after a close every operation of every later run answers that the store is closed, on disk and in memory |
| `BodyPreview.MemoryStorage.Read` | `common/body_storage.go:47-54` | the memory store's read step |
| `BodyPreview.MemoryStorage.Seek` | `common/body_storage.go:56-63` | the memory store's seek step |
| `BodyPreview.DiskStorage.Read` | `common/body_storage.go:169-176` | the disk store's read step |
| `BodyPreview.DiskStorage.Seek` | `common/body_storage.go:178-185` | the disk store's seek step |
| `BodyPreview.DiskStorage.ToBytes` | `common/body_storage.go:198-230` | seeking, reading and seeking back leaves the whole store as it was |
| `BodyPreview.ReadAllLimited` | `common/body_storage.go:321` | delivers the bytes from the position on, up to the limit, whatever room each read finds |
| `BodyPreview.ReadLimitedBytes` | `common/body_storage.go:317-329` | data and truncation flag of a bounded read from the position on |
| `BodyPreview.ReadBodyStoragePreview` | `common/body_storage.go:331-350` | previews either store from its start and leaves it exactly as it was |
| `BodyPreview.PreviewExact` | `common/body_storage.go:317-329` | the preview is the first min(max(maxBytes,1), size) bytes, flagged exactly when more remain, if and only if the bound is not 2^63-1 or the body is empty |
| `BodyCache.SizeTestExact` | `common/body_storage.go:284-290` | the size test refuses exactly the bodies over the limit and keeps the others whole, if and only if the limit is not 2^63-1 or the body is empty |
| `Decimal.WrapExact` | `common/body_storage.go:321` | a machine addition gives the number in range that is equal modulo 2^64 |
| `BodyCache.DiskCache.CreateBodyStorage` | `common/body_storage.go:241-259` | the store holds the data, is on disk exactly when the test says so and the disk works, is counted once, and keeps the disk limit |
| `BodyCache.DiskCache.CreateFromReader` | `common/body_storage.go:262-303` | each outcome exactly when the source gives it, a reader that fails included; a store is counted and a hit recorded once with its size on the counter of its kind, an error counts nothing; with nothing else in flight the disk limit is kept if and only if the store is in memory or what was written fits, and while the sums fit 64 bits only a body written straight to disk can break it |
| `BodyCache.ShortAnnouncementOvershoots` | `common/body_storage.go:262-281` | twenty bytes announced as ten go to disk against a limit of ten |
| `BodyCache.DiskCache.CloseStorage` | `common/body_storage.go:65-72` | only the first close of a store takes anything off the counters |
| `BodyCache.DiskCache.DecrementDiskFiles` | `common/disk_cache_config.go:115-122` | takes one file and its size off, never below zero |
| `CacheCounters.CountersAccurate` | `common/disk_cache_config.go:109-134` | under every interleaving of the atomic additions each counter reads what the stores have added and not yet taken off; no counter is found negative, so the clamps never act |
| `CacheCounters.CountersMatchOpenStores` | `common/disk_cache_config.go:72-91` | when no creation or close is under way the counters are the number and total size of the open stores |
| `CacheCounters.MadeExact` | `common/disk_cache_config.go:153-160` | a check lets a store through exactly when the usage and the announced size together are within the limit |
| `CacheCounters.StepAdvances` | `common/disk_cache_config.go:109-134` | the step due for a store takes it one stage further and touches no other; any other step of it changes nothing |
| `CacheCounters.EveryStoreCanClose` | `common/disk_cache_config.go:109-134` | from every reachable state all stores can be made, closed and taken off in exactly the steps they have left, and every counter then reads 0 |
| `CacheCounters.LimitOvershootBounded` | `common/disk_cache_config.go:153-160` | with check and addition as separate steps and any announced sizes, under every interleaving the disk usage stays within the limit plus what was in flight at a check plus what was written beyond the announcement |
| `CacheCounters.LimitOvershootReached` | `common/body_storage.go:241-281` | for every limit, amount in flight and excess a run reaches exactly that bound |
| `CacheCounters.DiskUsageExact` | `common/disk_cache_config.go:153-160` | no run exceeds a bound if and only if the bound covers the limit, the amount in flight and the excess together |
| `CacheCounters.DiskLimitExact` | `common/body_storage.go:262-281` | the limit is kept on every run if and only if no check passes beside a store in flight and none writes more than it announced |
| `CacheCounters.CloseCountedOnce` | `common/body_storage.go:187-196` | however the run goes on, closing a closed store changes nothing |
| `OggScan.StreamScanned` | `common/audio.go:203-249` | on well-formed pages (section 6 of RFC 3533), after any junk without the capture pattern, each page header is visited exactly once and the result is the larger of 0 and the maximum granule position |
| `OggScan.ScanFindsHeaders` | `common/audio.go:203-249` | on every byte sequence the visited positions increase, carry the capture pattern, and the result is the largest granule position among them |
| `OggScan.PageRead` | `common/audio.go:228-248` | a page written per the standard is recognised, its granule position read and its body skipped |
| `OggScan.GranuleRoundTrip` | `common/audio.go:229` | a signed 64-bit granule position survives little-endian writing and reading |
| `OggScan.GranuleExact` | `common/audio.go:229` | the eight bytes count from the lowest, and the value is the signed 64-bit one equal to them modulo 2^64 |
| `OggScan.PageSize` | `common/audio.go:242-245` | the loop over the segment table sums the sizes |
| `OggScan.SumExact` | `common/audio.go:242-245` | the sum of segment sizes is the sum over any two parts |
| `OggScan.Turn` | `common/audio.go:207-249` | one turn of the loop: a byte further after a mismatch, past the page after a match, out at the end of the data or a cut-off segment table |
| `OggScan.OpusDuration` | `common/audio.go:196-254` | the loop terminates on every byte sequence and returns the scanned granule position over 48000 |

## Left out

- HTTP handlers, sessions, JSON binding, pricing, relaying and everything in `service/`, `relay/` and `setting/`: plumbing, or code the properties here do not need.
- SQL and GORM failure paths: every statement is taken to succeed in one step; only the disk store's failure to be made is modelled.
- Keys stored as a JSON array (`model/channel.go:102-112`): key lists are newline-joined text. `OtherInfo` texts, tags and remarks are not carried.
- `UpdateChannelStatus` as a whole: it takes the same polling lock twice (`model/channel.go:591-593` and `629-630`); `handlerMultiKeyUpdate` is one step and no progress is claimed for that caller.
- `handlerMultiKeyUpdate` on a cached channel can auto-disable it without taking it out of the routing index; index safety is stated over builds and `CacheUpdateChannelStatus` only.
- ChannelCache.ChannelCache.InitChannelCache: each slice is sorted by one stable insertion sort in place of `sort.Slice`; the source's sort may order equal priorities differently, and the theorems about lists do not depend on it.
- `FormatMatchingModelName` and regular-expression matching are arbitrary functions; what a pattern matches is not modelled.
- Integer widths of weights, priorities, quotas and counts: unbounded here. Widths are modelled where they matter: Redis integers, granule positions, seek targets, byte limits, the disk limit.
- RateLimit.RedisLists.RateLimit: one request is one step and the clock is whole seconds that never go back; the gaps between the Redis commands are not modelled, nor is the stored form of the times, local wall-clock text without a zone (`middleware/rate-limit.go:46`, `66`), whose milliseconds are dropped here and which goes back an hour when daylight saving ends.
- KeyPages.PagesCoverList: stated over unbounded integers; `PageCountExact` and `PagesFitMachine` say when the 64-bit computation is the same.
- RateLimit.LimitersAgree: the Redis time to live and the eviction time are the same constant in the source, and the window fits in it.
- The hash's time to live: expiry is the same event as deletion.
- HashCodec.ReadObject: structs other than `gorm.DeletedAt` and types with their own text form are not modelled.
- Body stores: seeks with a whence of 3 or 4, single reads over 1 GiB, the file system's own size limit, background deletion of cache files, and the aliasing of the slice the memory store returns.
- OggScan.OpusDuration: the reader never fails and delivers all the bytes it has, and the data is shorter than 2^63 minus 64 KiB; the duration is a real number, not a float.
- The background loops (cache synchronisation, usage export, upstream checks) and their scheduling.
