# Verified model of the system ability framework (safwk)

A Dafny model of the stateful parts of the in-process system ability framework, with proofs of what they guarantee over whole runs. `dafny verify dfyconfig.toml` checks everything.

| file | models |
|---|---|
| `Selection.dfy` | the positions a filtering loop keeps, in order |
| `RecencyList.dfy` | an expiring LRU cache as one recency-ordered list of (key, value, add time) |
| `LruTheorems.dfy` | theorems about every run of such a cache, and about two runs side by side |
| `ExpiryInclusion.dfy` | two caches with expiry on the same operations and one clock |
| `ExpireLruCache.dfy`, `Clock.dfy` | the cache class with its two maps and its key list, proved to refine the list |
| `ApiCacheManager.dfy` | the reply cache: one cache object per (descriptor, code) |
| `BootPhases.dfy` | what the default load submits, and the barrier between boot phases |
| `DependencyWait.dfy` | the wait of an ability for the abilities it depends on |
| `Listeners.dfy` | listeners of other abilities: registration, subscription and fan-out |
| `Lifecycle.dfy` | one ability's NOT_LOADED / ACTIVE / IDLE life |
| `FfrtSession.dfy`, `FfrtParser.dfy` | the ffrt statistics session and its record scan |
| `StartArgs.dfy` | the command line of a system ability process |

Concurrency is modelled by cutting each operation at its lock boundaries. A run is a sequence of such steps in any order the locks allow, so a theorem about `Run(steps)` holds for every interleaving. The system ability manager (samgr), ffrt, the thread pool, the clock and parcel writes answer arbitrarily; the clock never goes back.

## Results that fail, and exactly when

Where a promise does not hold on every run, a lemma gives a run that breaks it and another gives the condition in both directions.

- Two add notifications without a remove in between: `RepeatedAddNotifiesTwice`. Exactly when a repeated Add tells a pair that is NOTIFIED or was told by an earlier repeated Add, or a status change tells a pair in INIT that a repeated Add told since its last push or status change (`TraceAlternatesExactly`). A repeated Add of an untold pair breaks only the tie between NOTIFIED and the last decision (`RepeatedAddOfUntoldPair`, `AlternationOverRuns`).
- Listeners without a subscription: `OverlapLosesSubscription`. Map and subscription agree exactly when the last samgr call decided for the ability and the last one that succeeded are of the same kind (`AgreementExactly`).
- A phase that starts too early: `LateTaskBreaksTheNextBarrier`, after a wait that timed out. At the first submission of a phase everything earlier has finished exactly when as many tasks have left with the counter at zero as timed-out waits have taken out of the count (`BarrierExactly`). That the given-up tasks themselves have left is not enough: one that leaves while a later phase is counted lowers that count.
- An ability that is registered but NOT_LOADED: `FailedRemovalLeavesRegistration`; exactly a failed removal (`RegistrationOverRuns`).
- An ability that is IDLE although it was stopped: `LateIdleBlocksStart`; exactly a write after Stop (`LoadedOverRuns`).
- Two OnActive for one OnIdle, two OnStop for one Publish: `OverlappingActives`, `OverlappingStops`; exactly when a callback begun since then is still running (`OnActiveExactly`, `NoStopSincePublishExactly`).
- A CancelIdle that reaches samgr when the ability is no longer IDLE: `CancelIdleOutrun`; exactly when a successful Publish, an Active or a Stop has written since CancelIdle looked, with no later OnIdle of 0 (`StillIdleExactly`).
- A clear task that ends somebody else's session: `StaleTimerEndsNextSession`; every task that is due frees only its own session's buffer, at every point of a run, exactly when no cancellation fails in it (`OwnOverRuns`).
- Inclusion with expiry, when the sweeps of the two caches read different times: `OwnReadingsBreakInclusion`; exactly an unmatched eviction (`InclusionExactly`), which common readings rule out (`CommonReadingsMatch`).
- An average below the minimum: `WrappedSum`; exactly when the minimum times the count exceeds the wrapped sum (`AverageBounds`), and the numbers are the true ones exactly when the sum fits 64 bits (`ExactlyWhenSumFits`).
- A valid event that is silently replaced by a default load: `OptionValueHidesEvent`; exactly when another argument is itself "-m" (`EventReplacedExactly`).

## Reading the code where names or comments differ

- The cache takes `expireTimeSec` but compares it with milliseconds; the model follows the comparison.
- `StartSA` tests `eventIndex >= argc` after `argc > ondemandLoad`. Both indices start at 2 and move together, so that branch is never taken; the model proves the position is in range instead.
- `ClearCache` with a code takes a signed code while the map key is unsigned; `ToCode` is that conversion.

## Model

| member | source | states |
|---|---|---|
| `LruTheorems.LruInclusion` | interfaces/innerkits/safwk/expire_lru_cache.h:102-174 | with expiry off, after any operations on caches of capacity n and m with n at most m, the small cache's keys are keys of the large one and each answer of the small cache is the answer of the large one |
| `ExpiryInclusion.LruInclusionWithExpiry` | interfaces/innerkits/safwk/expire_lru_cache.h:80-190 | with expiry on, one interval, the same operations and the same readings of a nondecreasing clock, every valid entry of the small cache is in the large one and each of its answers, at any later time, is the answer of the large one |
| `ExpiryInclusion.InclusionExactly` | interfaces/innerkits/safwk/expire_lru_cache.h:102-190 | with each sweep reading the clock on its own and any two capacities, every valid entry of one cache is in the other at every point of the runs if and only if the other never evicts a valid entry that the first holds and does not evict |
| `ExpiryInclusion.ContainedExactly` | interfaces/innerkits/safwk/expire_lru_cache.h:102-190 | the same condition for one operation, from any bounded lists |
| `ExpiryInclusion.CommonReadingsMatch` | interfaces/innerkits/safwk/expire_lru_cache.h:102-190 | with common readings and the large capacity at least the small one, every such eviction is matched |
| `ExpiryInclusion.OwnReadingsBreakInclusion` | interfaces/innerkits/safwk/expire_lru_cache.h:176-190 | equal caches on the same operations whose sweeps read the clock a tick apart: one answers a key that the other has evicted |
| `LruTheorems.LruRetention` | interfaces/innerkits/safwk/expire_lru_cache.h:102-160 | after an Add or hit of a key, while fewer than size_ other keys are added or hit and the key is not added, removed or cleared, a Get with interval 0 or at most the interval after its last Add hits with the value of that Add; the window's clock reads only have to be no later than the Get's |
| `LruTheorems.SurvivesExactlyWithinCapacity` | interfaces/innerkits/safwk/expire_lru_cache.h:102-160 | with expiry off, a just-touched key survives a window of Adds and Gets of other keys if and only if the window touches fewer than capacity distinct keys |
| `LruTheorems.HitIsFresh` | interfaces/innerkits/safwk/expire_lru_cache.h:140-160 | a hit returns the value of the latest Add of the key in the whole history, with no Remove, Clear or other Add of it since, at most the interval old counted from that Add |
| `RecencyList.SweepExact` | interfaces/innerkits/safwk/expire_lru_cache.h:176-190 | a sweep keeps exactly the entries at most the interval old when visited; so it keeps none that was older when it began and drops none that is not older when it ends |
| `RecencyList.AddExactly` | interfaces/innerkits/safwk/expire_lru_cache.h:102-138 | what an Add leaves, in numbers: the new entry in front; a replaced key; in a full cache exactly the entries its readings do not find older than the interval, and only if none is older all but the last |
| `RecencyList.RunBounded` | interfaces/innerkits/safwk/expire_lru_cache.h:102-190 | every run keeps keys distinct and the size within the capacity |
| `ExpireLruCache.ExpireLruCache.ContainersAgree` | interfaces/innerkits/safwk/expire_lru_cache.h:95-100 | in every valid state both maps have the keys of the list, the key list is a duplicate-free ordering of them and the size is within the capacity |
| `ExpireLruCache.ExpireLruCache.constructor` | interfaces/innerkits/safwk/expire_lru_cache.h:33-38 | a size of zero becomes one, a negative expiry the default; the cache is empty and valid |
| `ExpireLruCache.ExpireLruCache.Add` | interfaces/innerkits/safwk/expire_lru_cache.h:102-138 | refines the list's Add: replace and move to front, or make room by sweeping first and evicting the last key only if nothing was swept |
| `ExpireLruCache.ExpireLruCache.EvictLast` | interfaces/innerkits/safwk/expire_lru_cache.h:125-130 | drops exactly the last entry; the key list is never empty there |
| `ExpireLruCache.ExpireLruCache.ClearExpired` | interfaces/innerkits/safwk/expire_lru_cache.h:176-190 | the erase-while-iterating loop keeps exactly the entries at most expireTime old when visited, and reports whether it removed any |
| `ExpireLruCache.ExpireLruCache.Get` | interfaces/innerkits/safwk/expire_lru_cache.h:140-160 | answers exactly a stored key at most expireTime old, with its value; refines the list's Get: miss, erase an expired entry, or move to front without changing its time |
| `ExpireLruCache.ExpireLruCache.Remove` | interfaces/innerkits/safwk/expire_lru_cache.h:162-167 | refines the list's Remove on all three containers |
| `ExpireLruCache.ExpireLruCache.Clear` | interfaces/innerkits/safwk/expire_lru_cache.h:169-174 | empties all three containers |
| `ApiCacheManager.TransparentCaching` | services/safwk/src/api_cache_manager.cpp:33-168 | when the server is a function of API and request, every hit over every run of locked calls is the server's reply |
| `ApiCacheManager.HitReply` | services/safwk/src/api_cache_manager.cpp:105-168 | a hit's bytes are those the latest PostSend of the same request to the same API stored, not deleted, cleared or replaced since, at most the interval ago |
| `ApiCacheManager.StoredReplyIsFound` | services/safwk/src/api_cache_manager.cpp:105-168 | a reply stored for a registered API is found by a PreSend at most the interval later (or at any time with interval 0), as long as nothing deletes, clears or replaces it and fewer than eight other requests of the API are stored or found since it was last stored or found |
| `ApiCacheManager.RegisteredBy` | services/safwk/src/api_cache_manager.cpp:33-48 | an API is registered only by an AddCacheApi not followed by a DelCacheApi, and its cache holds eight entries for that call's interval, 1000 when negative |
| `ApiCacheManager.StaysRegistered` | services/safwk/src/api_cache_manager.cpp:33-64 | an added API stays registered until it is deleted |
| `ApiCacheManager.ApiCacheManager.CachedCall` | services/safwk/src/api_cache_manager.cpp:105-168 | a call through the cache returns the server's reply on the hit and on the miss path, sends exactly when the cache has no answer or the parcel refuses it, leaves a sent reply in front of its cache, and keeps every cached reply of every API faithful |
| `ApiCacheManager.ApiCacheManager.AddCacheApi` | services/safwk/src/api_cache_manager.cpp:33-48 | an unregistered API gets a fresh empty cache of its own; all others keep theirs |
| `ApiCacheManager.ApiCacheManager.DelCacheApi` | services/safwk/src/api_cache_manager.cpp:50-64 | only this API's cache is dropped and no other API refers to the deleted object |
| `ApiCacheManager.ApiCacheManager.ClearCache` | services/safwk/src/api_cache_manager.cpp:66-77 | every cache is empty, every API stays registered |
| `ApiCacheManager.ApiCacheManager.ClearCacheOf` | services/safwk/src/api_cache_manager.cpp:79-90 | exactly the caches of the descriptor are emptied |
| `ApiCacheManager.ApiCacheManager.ClearCacheApi` | services/safwk/src/api_cache_manager.cpp:92-103 | exactly the cache of the descriptor and the converted code is emptied |
| `ApiCacheManager.ApiCacheManager.PreSendRequest` | services/safwk/src/api_cache_manager.cpp:105-138 | only the API's own cache is consulted; a hit exactly when it answers and the parcel accepts, and then the cached bytes are appended to the reply and nothing else is |
| `ApiCacheManager.ApiCacheManager.PostSendRequest` | services/safwk/src/api_cache_manager.cpp:140-168 | stores exactly for a registered API and parcels without objects; other APIs are untouched |
| `BootPhases.PhaseBarrier` | services/safwk/src/local_ability_manager.cpp:770-824 | on every interleaving without a timed-out wait, when a task is submitted every start attempt of every earlier phase has finished |
| `BootPhases.CounterAndOutstanding` | services/safwk/src/local_ability_manager.cpp:735-800 | on every run, timeouts included, the counter is between zero and the outstanding tasks, and the gap is the sum of the counter values that timed-out waits reset less the tasks that left with the counter at zero; without a timeout they are equal |
| `BootPhases.BarrierExactly` | services/safwk/src/local_ability_manager.cpp:770-824 | on every run, timeouts included, at the start of a phase every task is of an earlier phase, and all of them have finished if and only if as many tasks have left at zero as timed-out waits have taken out of the count |
| `BootPhases.WaitIsSoundExactly` | services/safwk/src/local_ability_manager.cpp:787-800 | the same condition for a wait that ends with the counter at zero |
| `BootPhases.LateTaskBreaksTheNextBarrier` | services/safwk/src/local_ability_manager.cpp:735-800 | a run in which, after one timeout, phase 3 starts before the task of phase 2 has begun |
| `BootPhases.SubmittedInPlanOrder` | services/safwk/src/local_ability_manager.cpp:770-824 | on every interleaving the submitted tasks are a prefix of the plan in order, and all of it once the last phase is over |
| `BootPhases.DefaultLoad` | services/safwk/src/local_ability_manager.cpp:116-151 | from nothing, the submitted tasks are those of the profiles at positions idx: exactly the registered non-null profiles of phases 1 to 3, phase by phase and within a phase in profile order; nothing is submitted exactly when the path, the parse, the profile list, samgr or the registration of the process fails |
| `BootPhases.PhaseListInOrder` | services/safwk/src/local_ability_manager.cpp:836-850 | the list of a phase holds, in increasing order, the abilities of exactly the positions with that phase and a registered non-null ability |
| `BootPhases.PlanAt` | services/safwk/src/local_ability_manager.cpp:802-824 | where the task of each planned ability stands in the submitted sequence |
| `BootPhases.OnDemandLoad` | services/safwk/src/local_ability_manager.cpp:116-151 | from nothing, exactly the one ability is submitted, when its library loads and its profile is found, registered and of phase 1 to 3; a profile of phase 0 is accepted but never started |
| `BootPhases.PhaseLoader.FindAndStartLoaded` | services/safwk/src/local_ability_manager.cpp:815-823 | the on-demand loop submits the lists of the initialised phases in turn |
| `BootPhases.PhaseLoader.FindAndStartPhaseTasks` | services/safwk/src/local_ability_manager.cpp:802-814 | the default-load loop appends exactly that sequence although each phase is initialised while the one before runs and a phase may have no list |
| `BootPhases.PhaseLoader.InitializeRunOnCreateSaProfiles` | services/safwk/src/local_ability_manager.cpp:826-851 | adds the list of exactly one phase, in profile order as PhaseListInOrder says, and leaves the others alone |
| `BootPhases.PhaseLoader.InitializeProfile` | services/safwk/src/local_ability_manager.cpp:639-659 | appends a registered non-null ability to its phase; refuses others and phases beyond the last |
| `BootPhases.PhaseLoader.StartPhaseTasks` | services/safwk/src/local_ability_manager.cpp:770-785 | submits one task per ability of the list, in order |
| `DependencyWait.SystemAbility.StartDependSaTask` | services/safwk/src/local_ability_manager.cpp:683-719 | starts exactly when the check after the loop finds every valid dependency; at most ceil(timeout/50), never more than 1200, sleeps; does not give up before the timeout |
| `DependencyWait.SystemAbility.StartSystemAbilityTask` | services/safwk/src/local_ability_manager.cpp:721-733 | without dependencies starts at once, with no sleep; otherwise exactly when the wait's last check finds them all, within ceil(timeout/50) sleeps and not giving up before the timeout |
| `DependencyWait.SystemAbility.SetDependTimeout` | services/safwk/src/system_ability.cpp:368-374 | the timeout always stays within 200 and 60000 ms |
| `DependencyWait.CheckDependencyStatus` | services/safwk/src/local_ability_manager.cpp:661-681 | reports the missing valid dependencies in order; empty exactly when all valid ones are present, and everything without a proxy |
| `DependencyWait.NoneMissing` | services/safwk/src/local_ability_manager.cpp:669-680 | nothing is reported missing if and only if every valid dependency was found |
| `DependencyWait.MissingInOrder` | services/safwk/src/local_ability_manager.cpp:669-680 | the reported dependencies are those of exactly the positions that are valid and not found, in order |
| `Listeners.AddsAlternateWithRemoves` | services/safwk/src/local_ability_manager.cpp:313-455 | over every interleaving, within one registration without a notifying repeated Add, two add decisions have a remove decision between them |
| `Listeners.RunAlternates` | services/safwk/src/local_ability_manager.cpp:313-455 | on such runs a listener is NOTIFIED exactly when the last decision for it was an add |
| `Listeners.AlternationExactly` | services/safwk/src/local_ability_manager.cpp:313-455 | a lock section keeps this, from any well-formed state, if and only if it is not a repeated Add that notifies a registered pair |
| `Listeners.AlternationOverRuns` | services/safwk/src/local_ability_manager.cpp:313-455 | every lock section of a run keeps both the NOTIFIED tie and no add after add for a pair if and only if none is a repeated Add of it that notifies again |
| `Listeners.TraceAlternatesExactly` | services/safwk/src/local_ability_manager.cpp:313-455 | over every interleaving the decisions for a pair alternate within a registration if and only if no repeated Add tells a pair that is NOTIFIED or already told by one, and no status change tells a pair that a repeated Add told since its last push or status change |
| `Listeners.RepeatedAddOfUntoldPair` | services/safwk/src/local_ability_manager.cpp:323-343 | a repeated notifying Add after which the decisions still alternate |
| `Listeners.RepeatedAddNotifiesTwice` | services/safwk/src/local_ability_manager.cpp:323-343 | a run with two add decisions in a row |
| `Listeners.AlwaysWellFormed` | services/safwk/src/local_ability_manager.cpp:302-394 | under every interleaving each ability in the map has a non-empty list of distinct listener ids |
| `Listeners.FirstListenerWaits` | services/safwk/src/local_ability_manager.cpp:313-343 | the first listener of an ability is left in INIT and told nothing by its own Add, present or not, and the next add of the ability tells it |
| `Listeners.AddTellsExactly` | services/safwk/src/local_ability_manager.cpp:323-343 | over every interleaving an Add tells its listener exactly when the ability is present and another listener of it is registered |
| `Listeners.SamgrCallsExactly` | services/safwk/src/local_ability_manager.cpp:337-393 | an Add subscribes exactly when no other listener of the ability is registered, also when it repeats, and a Remove unsubscribes exactly when none but this one was |
| `Listeners.AgreementExactly` | services/safwk/src/local_ability_manager.cpp:302-394 | on every run, with overlapping calls and samgr failures: an ability has listeners exactly when the last samgr call decided for it is a subscription, is subscribed exactly when the last one that succeeded is, and so the two agree if and only if these are of the same kind |
| `Listeners.ListenersMatchSubscription` | services/safwk/src/local_ability_manager.cpp:302-394 | hence, when calls on an ability do not overlap and samgr succeeds, between calls it has listeners if and only if it is subscribed |
| `Listeners.OverlapLosesSubscription` | services/safwk/src/local_ability_manager.cpp:337-393 | a run of overlapping calls that ends with a listener and no subscription |
| `Listeners.LocalAbilityManager.AddLocked` | services/safwk/src/local_ability_manager.cpp:313-336 | the locked part of Add: the new list, whether to notify (never the first listener, otherwise when present), and the size that decides on subscribing |
| `Listeners.LocalAbilityManager.RemoveLocked` | services/safwk/src/local_ability_manager.cpp:360-380 | the locked part of Remove: the pair is erased, an empty list leaves the map, and samgr is to be told exactly then |
| `Listeners.LocalAbilityManager.CollectToNotify` | services/safwk/src/local_ability_manager.cpp:427-452 | the fan-out loop sets every state to NOTIFIED on add and INIT on remove, keeping the order of the list, and collects whom to tell |
| `Listeners.ToldExactly` | services/safwk/src/local_ability_manager.cpp:435-451 | on add exactly the listeners in INIT are collected, on remove all of them, each at most once |
| `Listeners.ToldInOrder` | services/safwk/src/local_ability_manager.cpp:435-451 | they are collected in the order of the list |
| `Lifecycle.OnStartNeverOverlaps` | services/safwk/src/system_ability.cpp:178-207 | over every interleaving, between two executions of OnStart the earlier one has returned |
| `Lifecycle.StartWaitsForStop` | services/safwk/src/system_ability.cpp:74-100 | over every interleaving, after a successful Publish no Start passes its guard before some Stop has written NOT_LOADED |
| `Lifecycle.GuardsExactly` | services/safwk/src/system_ability.cpp:178-266 | over every interleaving, when each guard passes, by the index of the last write: Start's before any write or after a Stop's, Idle's after a Publish or an Active's, Active's after an Idle's of 0, Stop's after any but a Stop's |
| `Lifecycle.StateExactly` | services/safwk/src/system_ability.cpp:74-295 | over every interleaving the state is that of the last write, and NOT_LOADED before the first |
| `Lifecycle.RunningExactly` | services/safwk/src/system_ability.cpp:205-285 | isRunning_ holds exactly when a Start has returned and no Stop has since |
| `Lifecycle.RegisteredExactly` | services/safwk/src/system_ability.cpp:74-148 | registered exactly when published and not removed since by a Stop or by StopAbility |
| `Lifecycle.RegisteredImpliesLoaded` | services/safwk/src/system_ability.cpp:90-99 | over every interleaving in which Stop's removals succeed, registered at samgr implies not NOT_LOADED |
| `Lifecycle.RegistrationExactly` | services/safwk/src/system_ability.cpp:283-294 | a step breaks that implication if and only if it is a Stop whose removal fails while registered |
| `Lifecycle.RegistrationOverRuns` | services/safwk/src/system_ability.cpp:90-294 | over every interleaving the implication holds at every point of a run if and only if no removal in it fails while registered |
| `Lifecycle.OnActiveFollowsIdle` | services/safwk/src/system_ability.cpp:229-243 | over every interleaving OnActive begins only after an OnIdle that returned 0 with no write of the state since |
| `Lifecycle.IdleAllowsOnActive` | services/safwk/src/system_ability.cpp:229-243 | conversely, after such an OnIdle an Active call does run OnActive |
| `Lifecycle.OnActiveExactly` | services/safwk/src/system_ability.cpp:229-255 | over every interleaving, for an OnActive and the OnIdle that allowed it, no OnActive or OnStop began in between if and only if none begun in between is still running |
| `Lifecycle.NoStopSincePublishExactly` | services/safwk/src/system_ability.cpp:257-295 | over every interleaving, since a successful Publish no Stop has answered, no OnStop has begun if and only if none begun since is still running |
| `Lifecycle.OnActiveGrammar` | services/safwk/src/system_ability.cpp:209-255 | hence, without overlapping calls: only after an OnIdle that returned 0 with no later successful Publish and no OnActive or OnStop begun or finished since |
| `Lifecycle.OnIdleOnStopGrammar` | services/safwk/src/system_ability.cpp:209-295 | without overlapping calls: OnIdle and OnStop only after a successful Publish with no OnStop begun or finished since |
| `Lifecycle.OnStartGrammar` | services/safwk/src/system_ability.cpp:178-207 | without overlapping calls: a Start at its guard runs OnStart if and only if no successful Publish is unanswered by a Stop |
| `Lifecycle.SequentialLoaded` | services/safwk/src/system_ability.cpp:74-295 | without overlapping calls the state is NOT_LOADED exactly when the history of publishes and stops says so |
| `Lifecycle.LoadedExactly` | services/safwk/src/system_ability.cpp:229-295 | a step breaks this agreement if and only if it is an Idle or Active write after the ability was unloaded |
| `Lifecycle.LoadedOverRuns` | services/safwk/src/system_ability.cpp:74-295 | over every interleaving, loaded and an unanswered successful Publish agree at every point of a run if and only if no Idle or Active write in it comes after the ability was unloaded |
| `Lifecycle.OnIdleOnStopFollowPublish` | services/safwk/src/system_ability.cpp:209-295 | on every interleaving without such a late write, OnIdle and OnStop begin only after a successful Publish with no Stop's write since |
| `Lifecycle.OverlappingActives` | services/safwk/src/system_ability.cpp:235-255 | a run with two OnActive callbacks open after one OnIdle |
| `Lifecycle.OverlappingStops` | services/safwk/src/system_ability.cpp:257-295 | a run with two OnStop callbacks open after one Publish |
| `Lifecycle.LateIdleBlocksStart` | services/safwk/src/system_ability.cpp:209-295 | a run that leaves an unregistered ability IDLE so that Start is refused |
| `Lifecycle.FailedRemovalLeavesRegistration` | services/safwk/src/system_ability.cpp:283-294 | a run that leaves a NOT_LOADED ability registered |
| `Lifecycle.SystemAbility.Publish` | services/safwk/src/system_ability.cpp:74-100 | succeeds exactly with an object, a proxy and an accepting samgr; keeps the object even on failure; is the Publish step |
| `Lifecycle.CancelIdleFollowsIdle` | services/safwk/src/system_ability.cpp:116-133 | over every interleaving CancelIdle asks samgr only if, when it looked, the last write of the state was an OnIdle that returned 0 |
| `Lifecycle.StillIdleExactly` | services/safwk/src/system_ability.cpp:116-133 | when it asks, the ability is still IDLE if and only if since it looked no successful Publish, Active write or Stop write is left without a later OnIdle that returned 0 |
| `Lifecycle.CancelIdleOutrun` | services/safwk/src/system_ability.cpp:116-133 | a run in which samgr is asked about an ability that is ACTIVE again |
| `Lifecycle.SystemAbility.CancelIdle` | services/safwk/src/system_ability.cpp:116-133 | the whole call is a run of the machine and changes nothing of the ability; samgr's answer matters only when IDLE |
| `Lifecycle.SystemAbility.Start` | services/safwk/src/system_ability.cpp:178-207 | the whole call is a run of the machine: guard, callback with its publishes, return, from any state and with any other calls open |
| `Lifecycle.SystemAbility.Idle` | services/safwk/src/system_ability.cpp:209-233 | the whole call is a run of the machine; the delay is -1 unless ACTIVE and otherwise OnIdle's answer |
| `Lifecycle.SystemAbility.Active` | services/safwk/src/system_ability.cpp:235-255 | the whole call is a run of the machine |
| `Lifecycle.SystemAbility.Stop` | services/safwk/src/system_ability.cpp:257-295 | the whole call is a run of the machine, with the removal's outcome |
| `FfrtSession.BufferOwnership` | services/safwk/src/local_ability_manager_dumper.cpp:104-249 | over every run with arbitrary outcomes: collecting implies a live buffer, the live buffer is not freed, no buffer is freed twice, and allocated buffers are exactly the freed ones and the live one |
| `FfrtSession.SessionByHistory` | services/safwk/src/local_ability_manager_dumper.cpp:104-249 | collecting exactly after an accepted start with no stop and no clear task since; a report is ready exactly after an accepted stop of a collection followed by nothing but refused stops and unknown commands |
| `FfrtSession.LiveBufferWillBeFreed` | services/safwk/src/local_ability_manager_dumper.cpp:104-225 | when every start posts its task, a live buffer always has a due task that was posted for it |
| `FfrtSession.RecordedOverRuns` | services/safwk/src/local_ability_manager_dumper.cpp:104-225 | the clear task is recorded exactly while a buffer is live, at every point of a run, if and only if every successful start submits its task |
| `FfrtSession.RecordedExactly` | services/safwk/src/local_ability_manager_dumper.cpp:104-126 | a step breaks that agreement if and only if it is a successful start whose task could not be submitted |
| `FfrtSession.TimerEndsSession` | services/safwk/src/local_ability_manager_dumper.cpp:213-225 | a clear task leaves nothing collecting, live or recorded, with every allocated buffer freed |
| `FfrtSession.OwnOverRuns` | services/safwk/src/local_ability_manager_dumper.cpp:104-225 | at every point of a run each due clear task was posted for the live buffer, and so frees only its own session's, if and only if no cancellation of a recorded task fails in the run |
| `FfrtSession.OwnExactly` | services/safwk/src/local_ability_manager_dumper.cpp:104-225 | the same condition for one step: a task left behind was posted for a buffer the step frees |
| `FfrtSession.TimerFreesOwnBuffer` | services/safwk/src/local_ability_manager_dumper.cpp:201-225 | hence, when no cancellation fails, a due clear task was posted for the live buffer |
| `FfrtSession.OnlyRecordedExactly` | services/safwk/src/ffrt_handler.cpp:50-65 | a step leaves an unrecorded task due if and only if a recorded task other than the running one could not be cancelled and, for Get, outlived its queue |
| `FfrtSession.CancelledOverRuns` | services/safwk/src/local_ability_manager_dumper.cpp:104-225 | no task but the recorded one is due at any point of a run if and only if no recorded task is left behind in this way |
| `FfrtSession.StaleTimerEndsNextSession` | services/safwk/src/local_ability_manager_dumper.cpp:104-225 | a run, with one handler throughout, in which the first session's task frees the second session's buffer while it is collecting |
| `FfrtSession.FFRTHandler.PostTask` | services/safwk/src/ffrt_handler.cpp:34-48 | records the task exactly when the delay in microseconds fits 64 bits and submitting gave a handle |
| `FfrtSession.FFRTHandler.RemoveTask` | services/safwk/src/ffrt_handler.cpp:50-65 | cancels the named task if it is recorded and forgets it whether or not that succeeds |
| `FfrtSession.LocalAbilityManagerDumper.StartFfrtStatistics` | services/safwk/src/local_ability_manager_dumper.cpp:104-126 | the whole new session state; true exactly when not collecting and ffrt accepts |
| `FfrtSession.LocalAbilityManagerDumper.StopFfrtStatistics` | services/safwk/src/local_ability_manager_dumper.cpp:128-143 | the whole new session state; true exactly when collecting and ffrt stops |
| `FfrtSession.LocalAbilityManagerDumper.GetFfrtStatistics` | services/safwk/src/local_ability_manager_dumper.cpp:145-159 | a report exactly for a stopped collection with a live buffer, saying what the scan means; the buffer, task and handler are then released |
| `FfrtSession.LocalAbilityManagerDumper.ClearFfrtStatistics` | services/safwk/src/local_ability_manager_dumper.cpp:213-225 | the delayed task's whole new session state |
| `FfrtSession.LocalAbilityManagerDumper.ClearFfrtStatisticsBufferLocked` | services/safwk/src/local_ability_manager_dumper.cpp:201-211 | frees the buffer if there is one and forgets the recorded task if there is a handler |
| `FfrtParser.FfrtStatisticsParser` | services/safwk/src/local_ability_manager_dumper.cpp:161-193 | reads only on record boundaries inside the buffer of 5000 records; reports exactly the records of the longest named prefix whose end is not before their start, their count, least and greatest duration, the 64-bit sum and the average |
| `FfrtParser.ReportOfTimes` | services/safwk/src/local_ability_manager_dumper.cpp:172-190 | in recorded times: every reported task ends no earlier than it starts, its end less its start lies between the minimum and the maximum and both are attained, and the sum is that of the ends less that of the starts, cut to 64 bits |
| `FfrtParser.ReportedTasks` | services/safwk/src/local_ability_manager_dumper.cpp:171-184 | the reported tasks are, in order, those at exactly the positions before the first unnamed record that do not end before they start |
| `FfrtParser.NamedIsLongestPrefix` | services/safwk/src/local_ability_manager_dumper.cpp:171-171 | what is scanned is the longest prefix of records with non-empty names |
| `FfrtParser.ExactlyWhenSumFits` | services/safwk/src/local_ability_manager_dumper.cpp:176-190 | reported sum and average are the true ones if and only if the true sum fits 64 bits |
| `FfrtParser.AverageBounds` | services/safwk/src/local_ability_manager_dumper.cpp:176-190 | avg*count <= sum < (avg+1)*count and avg <= max on every buffer; min <= avg if and only if min*count is at most the wrapped sum, in particular when the true sum fits |
| `FfrtParser.WrappedSum` | services/safwk/src/local_ability_manager_dumper.cpp:176-190 | two durations of half the range give sum and average zero, below the minimum |
| `StartArgs.SplitEvent` | services/safwk/src/system_ability_start.cpp:65-72 | the loop terminates and returns the '#'-free fields, each followed by '#', and the '#'-free tail that make up the string |
| `StartArgs.SplitUnique` | services/safwk/src/system_ability_start.cpp:65-72 | a string splits in only one way, so splitting and joining are inverse |
| `StartArgs.FieldsByPosition` | services/safwk/src/system_ability_start.cpp:65-72 | with every '#' of the string at the given positions, each field is the part between two of them and the tail follows the last |
| `StartArgs.ParseArgv` | services/safwk/src/system_ability_start.cpp:57-88 | accepted if and only if the argument has at most 2000 characters, is five '#'-terminated fields and a '#'-free tail, and the first field is a number; then that number and the four map entries, otherwise -1 and an unchanged map |
| `StartArgs.RecordedFields` | services/safwk/src/system_ability_start.cpp:81-85 | the second field is the event id, then name, value and the id of the extra data; no other entry changes |
| `StartArgs.InitMallopt` | services/safwk/src/system_ability_start.cpp:112-125 | both indices move by two for every "-m" that is not the last argument |
| `StartArgs.CountByPosition` | services/safwk/src/system_ability_start.cpp:117-125 | what is counted are exactly the positions that hold "-m" |
| `StartArgs.EventFoundExactly` | services/safwk/src/system_ability_start.cpp:112-125 | with program, profile, any number of "-m" options and an event, the position is the event's when no other argument is "-m" and otherwise two further per such argument, past the end |
| `StartArgs.EventReplacedExactly` | services/safwk/src/system_ability_start.cpp:145-180 | a valid event on such a command line is replaced by a default load if and only if another argument is "-m", and otherwise starts its ability |
| `StartArgs.OptionValueHidesEvent` | services/safwk/src/system_ability_start.cpp:145-180 | a command line whose event is not read because an option's value is "-m" |
| `StartArgs.StartSA` | services/safwk/src/system_ability_start.cpp:145-180 | starts on demand exactly for a valid event with an id in range, by default exactly when nothing stands at the event position, and a malformed event or profile never starts; the position read is always below argc |
| `StartArgs.DoStartSAProcess` | services/safwk/src/system_ability_start.cpp:95-110 | starts with the profile argument exactly when it contains ".json" |
| `StartArgs.ContainsExactly` | services/safwk/src/system_ability_start.cpp:102-102 | a profile path is accepted exactly when ".json" occurs at some position |

## Left out

- IPC plumbing: the stub, permission and interface-token checks and parcel reading have single-branch outcomes.
- The `svc` tool, the Rust wrapper and cxx bridge, and the marshalling of on-demand reasons and their extra data.
- Internals of ParseUtil, the thread pool, timers, samgr and ffrt: only their answers appear. The pool's queue limit is not modelled and nothing is claimed about tasks eventually running.
- LimitUnusedTimeout and IdentifyUnusedOndemand: a clamp and a guarded subtraction.
- `services/safwk/src/main.cpp`: the same argument handling as `system_ability_start.cpp` plus process naming and memory hooks.
- Logging, tracing, watchdogs, thread priorities, path resolution and the text layout of reports. A report is its five numbers and the list of tasks.
- Rejected listener calls: ids that are out of range and an Add without a samgr proxy return before touching any state. A status code other than add or remove changes nothing.
- Delivery of notifications: the model covers the decisions made under the lock; two threads may deliver their decisions in another order.
- RegisterOnDemandSystemAbility: which abilities are announced to samgr as on-demand. Path resolution, parsing, the retries for samgr and the trust check appear as their outcomes.
- `ExpireLruCache.ExpireLruCache.Add`: ticks are unbounded integers; a difference of two 64-bit ticks that overflows is not modelled.
- `ApiCacheManager.MessageParcel.WriteBuffer`: whether the parcel accepts the bytes is an input; a failed write leaves the parcel unchanged, which is assumed of the parcel and not part of this repository.
- `ApiCacheManager.ApiCacheManager.DelCacheApi`: deletion of memory is modelled as the object no longer being reachable from the map.
- `DependencyWait.SystemAbility.StartDependSaTask`: each sleep is taken to advance the clock by at least the 50 ms asked for; the sum in the branch for a clock that went back is not cut to 64 bits, since that branch cannot be reached then.
- `FfrtSession.OwnOverRuns`: what ffrt does with the tasks of a queue that is destroyed is not known from this repository; any of them may survive, and the results hold whichever do.
- `FfrtSession.LocalAbilityManagerDumper.GetFfrtStatistics`: the buffer's contents are what ffrt wrote, given as a sequence of records; names are strings without their terminating zero.
- `StartArgs.ParseArgv`: the conversions StrToInt and atoi are parameters, and the event map is a map of names to numbers and strings rather than a JSON value.
- `StartArgs.StartSA`: the bounds of system ability ids come from another repository and are parameters, with the lower bound above -1. Applying the collected mallopt strings is not modelled.
