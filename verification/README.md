# Protocols and transformations of Dify, modelled and proved in Dafny

Dify is a platform for building applications on language models. Most of its repository is web,
database and command-line plumbing; this project models the parts that are protocols, schedulers
or program transformations, one file each, and proves what they promise.

`dafny verify dfyconfig.toml` checks everything.

| file | part of the system |
|---|---|
| `ProviderCache.dfy` | the versioned Redis cache of provider rows, read and invalidated by many processes |
| `LoadBalancer.dfy` | the round-robin balancer: shared counter, cooldowns, retry loop, shared configuration list |
| `RetrySchedule.dfy` | when that loop comes back to a configuration, and when it need not end |
| `IndexingPipeline.dfy` | document indexing by hash-partitioned workers under pause and resume |
| `MigrationLock.dfy` | the database migration lock with its heartbeat thread |
| `LintAnalysis.dfy` | the static analysis of controller methods: its syntax, its walk, its inference of variables |
| `LintRuntime.dfy` | how such methods run, and why the inference is sound |
| `LintEndings.dfy` | which methods can end without a return |
| `LintVerdict.dfy` | the comparison of returns with documented responses, and what its verdict promises |
| `EnvSync.dfy` | the script that rewrites `.env` after `.env.example` |
| `OpenApiCanon.dfy` | normalisation of generated OpenAPI documents |
| `RecyclableContextVar.dfy` | context variables that survive thread recycling |
| `ApprovalGrant.dfy` | single-use approval grants of the device flow |
| `Options.dfy`, `Selection.dfy` | the optional value and the kept positions of a list that the other files share |

## How it is modelled

Redis and the database are explicit state with a clock. A concurrent protocol is a step function
over that state; a run is any sequence of steps, and a step that is not enabled changes nothing, so
a statement about all runs covers every interleaving. Timing hypotheses are numbers (a bound on a
delay, a skew), and the main theorem of each timed protocol says for exactly which numbers the
promise holds: one direction is an inductive invariant, the other a run that breaks the promise as
soon as the bound is exceeded. Beside them stand lemmas named `...Exactly`: they say what an operation does in
terms of the input alone, with the program's own literals written out. Objects and loops of the source are classes and loops here, and their
contracts tie them to the functions the theorems are about.

Hypotheses, by file:

* `ProviderCache`: `_get_version` and the invalidation of one source are atomic; `gap` bounds the time
  from version check to SETEX and `life` the time from version read to the last call of one reader. Redis
  calls may fail wherever the code swallows the failure; only the first version read of a reader must
  succeed. A failed invalidation is no invalidation. One tenant and source are modelled; keys of
  different pairs are disjoint.
* `MigrationLock`: redis-py's acquire is SET NX with a fresh token, reacquire and release compare
  the token; no two consecutive renewals fail; the hand-off to the heartbeat and every renewal call
  take less than `delay`.
* `ApprovalGrant`: all clocks lie within `skew` of each other, `delay` bounds the time from
  verification to consumption, nonces are not reused; verification applies the `exp` rule of section
  4.1.4 of RFC 7519.
* `IndexingPipeline`: high-quality mode, distinct node ids, segments INDEXING or COMPLETED as
  `_load_segments` leaves them, no failure other than a pause, an executor that waits for all workers.
* `LoadBalancer`: for the retry loop, no cooldown set during the call expires during the call.
* `OpenApiCanon`: for canonicity, and only there, `json.dumps` with sorted keys is injective; objects are
  maps because the output is written with sorted keys.
* The linter: a name whose dump a success return gives back is not bound on entry (a parameter or a
  global), and every node that binds it does so last as a plain name. A model name denotes one class: it
  is not rebound, and no other class in use shares its last component. Any node may raise, a test may turn
  out either way, and whether a context manager may swallow exceptions is part of the tree; a loop that
  runs forever is no run.

## Where the code and its promise differ

* Recovering a paused document enqueues a run without waiting for the workers of the previous one.
  A run started while one of them is still at work can load a segment twice; a run started when all
  are settled cannot (`IndexingPipeline.DoubleLoadExactlyOnOverlap`).
* `fetch_next` can report that nothing is usable although one configuration is, when the counter is
  reset in the middle of a call and the list length does not divide 9,999,999
  (`LoadBalancer.NoneMeansNothingUsable`).
* Two `__inherit__` configurations and no other leave a manager with an empty list
  (`SharedConfigs.NeverStrandedExactlyWithOwn`).
* The environment sync parses keys that its rewriting pattern does not recognise (indented keys, keys
  that are no identifiers). Such a key loses its `.env` value, and if an earlier definition of it is
  recognised, a second sync changes the file again (`EnvSync.FaithfulExactlyWhenWellFormed`,
  `EnvSync.IdempotentExactlyWhenSettled`).
* A context variable set before the first `increment_thread_recycles` survives it
  (`RecyclableContextVar.AgreesExactlyWhenNothingSetEarly`).
* The linter records every name of an unpacked model call as holding that model. It does not record a
  starred target, an import, a match capture, an assignment through `nonlocal`, or anything in the skipped
  header of a nested function, lambda or class. So `a, page = Page()`, or `page = Page()` followed by
  `head, *page = rows` or by `f = lambda a=(page := rows): a`, passes before `return page.model_dump()` and
  responds with something else; the pass is a guarantee exactly when the name is last bound plainly
  (`LintVerdict.PassIsSoundExactlyWhenPlain`).
* The linter does not look at runs that end without a return. There are none exactly when the tree does
  not let the body complete normally (`LintVerdict.AnswersExactlyWhenStuck`).
* The retry loop has no bound of its own. With attempts that fail slowly against short cooldowns it never
  ends (`RetrySchedule.SlowFailuresNeverEnd`); no configuration is used twice exactly when every penalty
  outlasts the iterations that can follow (`RetrySchedule.NeverReusesExactlyWhenOutlasting`).
* A reader of the provider cache whose first version read fails stores its rows unchecked, so a later read
  can be stale however quick everyone is (`ProviderCache.BlindWriteIsStale`).
* A late enough write to the provider cache, or a slow enough reader, serves stale rows; the two TTLs
  tolerate exactly a 60 s gap and a 360 s reader (`ProviderCache.FreshExactlyWhenTolerated`).

## Model

| member | source | states |
|---|---|---|
| `ProviderCache.StepKeepsInv` | api/core/provider_manager.py:331-440 | Every step of readers, writers and the clock, failed reads and stores included, keeps the invariant that ties versions, entries and readers in flight to invalidated database versions |
| `ProviderCache.WriteKeepsInv` | api/core/provider_manager.py:367-383 | A SETEX that lands after the version moved on still stores an entry that its version key outlives; rests on 360 - 300 bounding the gap |
| `ProviderCache.TimelyRunsKeepInv` | api/core/provider_manager.py:331-440 | The invariant holds at the end of every timely run |
| `ProviderCache.EntriesAreOutlivedByTheirVersion` | api/core/provider_manager.py:70-73 | In every timely run a live entry expires no later than the version key and has a version at most the current one, so a restart at "0" exposes nothing old |
| `ProviderCache.ReadAfterInvalidationIsFresh` | api/core/provider_manager.py:341-440 | A read that starts after an invalidation finished returns rows at least as new as the database was at that invalidation, in every interleaving |
| `ProviderCache.InvalidationIsRemembered` | api/core/provider_manager.py:386-399 | The database version at an invalidation is a lower bound for everything a later reader is owed |
| `ProviderCache.LateReaderIsOwedEarlierInvalidations` | api/core/provider_manager.py:420-440 | A reader that was not there at some point of a run is owed at least what had been invalidated by then |
| `ProviderCache.SlowWriteIsStale` | api/core/provider_manager.py:376-381 | A gap above 60 s between check and write admits a timely run with a stale read |
| `ProviderCache.LongReaderIsStale` | api/core/provider_manager.py:376-381 | A reader allowed more than 360 s admits a timely run with a stale read |
| `ProviderCache.FreshExactlyWhenTolerated` | api/core/provider_manager.py:70-71 | All timely runs without a failed version read are fresh if and only if readers live at most 360 s and either gap or life is at most 60 s |
| `ProviderCache.StoredRowsAreHit` | api/core/provider_manager.py:379-381 | Rows stored under a version are returned to a reader of that version for 300 s after the write, and missed from then on |
| `ProviderCache.MissedRowsAreLoaded` | api/core/provider_manager.py:430-433 | A reader that missed loads what the database holds at that moment |
| `ProviderCache.BlindWriteIsStale` | api/core/provider_manager.py:376-378 | A failed version read, whose write skips the check, admits a stale read for every gap of 0 or more and every positive life |
| `ProviderCache.SourceCache.GetVersion` | api/core/provider_manager.py:402-410 | A missing or expired key restarts at 0, a live one keeps its value; either lives for another 360 s; this is the protocol's version step |
| `ProviderCache.SourceCache.Invalidate` | api/core/provider_manager.py:394-397 | INCR then EXPIRE on one source: the next version, or 1, for 360 s; this is the protocol's invalidation step |
| `ProviderCache.SourceCache.GetRecords` | api/core/provider_manager.py:341-364 | A hit exactly when an entry of the current version is live and readable, with its rows; any other miss yields the version, a failed version read yields none |
| `ProviderCache.SourceCache.SetRecords` | api/core/provider_manager.py:367-383 | Nothing is stored when the version moved on or a call fails; otherwise, and unchecked without an expected version, the current entry is replaced with the data TTL |
| `ProviderCache.SourceCache.GetCachedOrLoad` | api/core/provider_manager.py:420-440 | Undisturbed, whichever calls fail, it leaves the keys and returns the rows that the protocol's reader steps do |
| `RoundRobinSlots.SlotIsCyclic` | api/core/model_manager.py:607-621 | The chosen slot is (c - 1) mod n for every counter c below ten million and 0 from there on, index -1 included |
| `RoundRobinSlots.HitsAreEven` | api/core/model_manager.py:607-621 | Any m consecutive integers meet each residue floor(m/n) or ceil(m/n) times |
| `RoundRobinSlots.FairWithoutReset` | api/core/model_manager.py:607-621 | Any m consecutive probes without a reset pick each configuration floor(m/n) or ceil(m/n) times |
| `RoundRobinSlots.ImbalanceOfRun` | api/core/model_manager.py:607-621 | The imbalance of any two slots splits into a debt of at most one per reset and the imbalance of one reset-free stretch |
| `RoundRobinSlots.FairAcrossResets` | api/core/model_manager.py:609-611 | Over any window two configurations differ by at most the number of resets plus one |
| `RoundRobinSlots.ResetImbalanceIsTight` | api/core/model_manager.py:609-611 | A window over one reset whose counts differ by 2 |
| `LoadBalancer.FetchNext` | api/core/model_manager.py:603-666 | At most n probes under any interference; the result is the first unblocked probe, or None after n blocked ones; the counter is left at the last probe |
| `LoadBalancer.CounterMovesOn` | api/core/model_manager.py:607-611 | One undisturbed probe moves the counter on by one, or back to 1 when it would reach ten million |
| `LoadBalancer.FetchedIsUsable` | api/core/model_manager.py:623-647 | A fetched configuration is in nobody's cooldown and, if it names a credential, passes the policy check |
| `LoadBalancer.FetchIsCyclicSearch` | api/core/model_manager.py:603-666 | Without interference or reset: the first usable configuration in cyclic order, None exactly when none is usable |
| `LoadBalancer.HarmlessVisits` | api/core/model_manager.py:606-621 | With a harmless reset or none, n probes visit every slot |
| `LoadBalancer.HarmfulSkips` | api/core/model_manager.py:606-621 | Any other reset makes n probes miss some slot |
| `LoadBalancer.NoneMeansNothingUsable` | api/core/model_manager.py:603-647 | "None exactly when nothing is usable" holds for all blocked sets if and only if the reset does not fall inside the call, falls on its first probe, or on a full round |
| `LoadBalancer.RoundRobin.constructor` | api/core/model_manager.py:579-583 | A manager over the given list, no counter and no cooldown yet |
| `LoadBalancer.RoundRobin.Cooldown` | api/core/model_manager.py:668-679 | Only the given configuration is put into cooldown, until now + expire |
| `LoadBalancer.RoundRobin.Fetch` | api/core/model_manager.py:593-666 | From the stored counter: the first probed configuration that is neither cooling nor refused, or None after n skipped ones, and the counter left by the last probe |
| `LoadBalancer.RoundRobin.Try` | api/core/model_manager.py:393-411 | A configuration that fails the second policy check is rejected, any other is invoked |
| `LoadBalancer.RoundRobin.Settle` | api/core/model_manager.py:402-423 | A rejected or failed configuration cools for exactly its penalty from the moment it failed; a reply or any other error is the result |
| `LoadBalancer.RoundRobin.Turn` | api/core/model_manager.py:384-423 | One turn either ends the call correctly or leaves it underway with one more id used up |
| `LoadBalancer.RoundRobin.Invoke` | api/core/model_manager.py:383-423 | The loop terminates when no cooldown it sets expires meanwhile; each iteration fetches from the counter and cooldowns the earlier ones left; no configuration id is used twice; it ends with the first reply or final error, or on exhaustion with the last attempt's error, or "not initialized" if nothing was attempted |
| `LoadBalancer.CallProceeds` | api/core/model_manager.py:392-421 | Every event is a rejection exactly when the second policy check fails and otherwise carries the outcome of invoking that configuration; all events but the last are failures |
| `LoadBalancer.CallEndsExactly` | api/core/model_manager.py:386-390 | The result is the reply or final error of the last attempt; or, when all failed, the error of the last attempt; or "not initialized", exactly when every configuration was rejected before an attempt |
| `LoadBalancer.CallCools` | api/core/model_manager.py:402-421 | A failed configuration cools for 10 s after an authorization or connection error and for 60 s otherwise, from its failure; no other cooldown changes |
| `LoadBalancer.FreshWhenFetched` | api/core/model_manager.py:681-692 | A fetched configuration was not used before in the same call if the cooldowns set so far, each from the moment its attempt failed, are still running |
| `LoadBalancer.LongPenaltiesAreBrief` | api/core/model_manager.py:402-421 | If every penalty an iteration could set, counted from its failure, outlasts all later fetches, no cooldown expires during the call, whatever its length |
| `LoadBalancer.ExhaustedMeansNothingUsable` | api/core/model_manager.py:385-390 | When the last fetch was undisturbed and its reset harmless, exhaustion means that every configuration is cooling or refused |
| `RetrySchedule.DistinctIsShort` | api/core/model_manager.py:606-621 | A call that uses no id twice has at most as many iterations as there are slots the counter can reach |
| `RetrySchedule.WantedIsTraced` | api/core/model_manager.py:384-421 | Any order of slots in which each has cooled off when it comes up again is the course of some call |
| `RetrySchedule.NeverReusesExactlyWhenOutlasting` | api/core/model_manager.py:384-421 | For every schedule of fetches, failures and penalties, no call over n configurations uses an id twice, whatever the policy, interference and replies, if and only if each penalty outlasts the iterations that can follow |
| `RetrySchedule.SlowFailuresNeverEnd` | api/core/model_manager.py:384-421 | Three configurations whose attempts fail after 15 s with a 10 s penalty: the undisturbed loop gets through any number of iterations without a result |
| `SharedConfigs.BuildConfigs` | api/core/provider_manager.py:1747-1826 | The enabled, readable rows of the model in order; a list of one is dropped, so the length is never 1 |
| `SharedConfigs.ListedExactly` | api/core/provider_manager.py:1750-1816 | An entry comes from exactly each enabled row of the model that has readable credentials or inherits them, once, in the order of the rows, with its credentials |
| `SharedConfigs.ModelSetting.Handle` | api/core/model_manager.py:585-591 | The loop over a copy leaves the shared list pruned of, or completed at, its `__inherit__` entries, in order |
| `SharedConfigs.ModelSetting.NewManager` | api/core/model_manager.py:94-116 | A manager is made exactly for a non-empty list, and then the shared list is handled that way |
| `SharedConfigs.VisitedEntry` | api/core/model_manager.py:585-591 | Iterating over a copy while removing first equal elements keeps the unvisited tail and handles exactly the visited entries |
| `SharedConfigs.PruningKeepsTheRest` | api/core/model_manager.py:585-589 | Without managed credentials exactly the entries that are not `__inherit__` remain, each once and in order |
| `SharedConfigs.FillingKeepsPlaces` | api/core/model_manager.py:590-591 | With managed credentials every entry keeps its place and exactly the `__inherit__` ones take them over |
| `SharedConfigs.NeverStrandedExactlyWithOwn` | api/core/model_manager.py:585-591 | No sequence of constructions over the shared list reaches an empty one if and only if it starts empty or has an entry of its own |
| `SharedConfigs.OneInheritIsSafe` | api/core/provider_manager.py:1758-1767 | A list as built, with at most one `__inherit__` entry, never strands a manager |
| `DocumentGroups.GroupDocuments` | api/core/indexing_runner.py:616-620 | Group g holds, in order, exactly the documents whose hash falls in bucket g |
| `DocumentGroups.GroupExactly` | api/core/indexing_runner.py:617-620 | A group holds exactly the documents whose hash leaves its number modulo ten, each once and in order |
| `DocumentGroups.GroupsPartition` | api/core/indexing_runner.py:616-620 | The groups together are the documents, as multisets |
| `DocumentGroups.EqualContentTogether` | api/core/indexing_runner.py:613-620 | A document is in a group exactly when its content's bucket is that group, so equal content never reaches two workers |
| `DocumentGroups.TokensAreConserved` | api/core/indexing_runner.py:698-701 | The tokens of all groups add up to the tokens of all documents |
| `DocumentGroups.CountTokens` | api/core/indexing_runner.py:621-637 | Summing the workers' results over non-empty groups gives the total over all documents |
| `IndexingPipeline.StepKeepsInv` | api/core/indexing_runner.py:608-656 | Every step of workers, runs and pauses keeps the invariant that ties each segment's status and load count to its worker's phase, when runs start only in quiet states |
| `IndexingPipeline.DisciplinedKeepsInv` | api/core/indexing_runner.py:199-262 | The invariant holds after any number of pauses, resumes and runs that do not overlap, the run that saved the segments included |
| `IndexingPipeline.PausesAreSafe` | api/core/indexing_runner.py:694-768 | In all such runs every segment is loaded at most once, and a COMPLETED document has every segment loaded exactly once and COMPLETED |
| `IndexingPipeline.PauseAndRecover` | api/services/dataset_service.py:1983-2017 | Pausing marks the document and sets its flag, recovering clears both |
| `IndexingPipeline.FlagStopsWaiting` | api/core/indexing_runner.py:733-738 | A set flag stops a worker that has not started, before it changes anything |
| `IndexingPipeline.StoppedForGood` | api/core/indexing_runner.py:694-696 | A stopped worker stays stopped, whatever happens later |
| `IndexingPipeline.FinishExactly` | api/core/indexing_runner.py:749-768 | A run completes the document exactly when all its workers are done and the database does not mark it as paused |
| `IndexingPipeline.WorkerCompletes` | api/core/indexing_runner.py:694-731 | Left alone with the flag clear, a worker loads its group once and completes its segments |
| `IndexingPipeline.UndisturbedRunCompletes` | api/core/indexing_runner.py:608-656 | A run started in a quiet state with no pause, and left alone, completes the document with every segment loaded exactly once |
| `IndexingPipeline.OverlapDoubleLoads` | api/services/dataset_service.py:2005-2019 | A run started while a worker is at work has a continuation that loads a segment twice |
| `IndexingPipeline.DoubleLoadExactlyOnOverlap` | api/tasks/recover_document_indexing_task.py:36-43 | After any disciplined run, starting another can lead to a double load if and only if some worker is still at work |
| `IndexingPipeline.CommitAllByGroup` | api/core/indexing_runner.py:713-729 | Committing groups in any order completes exactly the INDEXING segments of those groups |
| `IndexingPipeline.CommitOrderIsIrrelevant` | api/core/indexing_runner.py:713-729 | Final segment statuses are the same for every order of the workers |
| `IndexingPipeline.IndexedDocument.ProcessChunk` | api/core/indexing_runner.py:694-731 | All of a group is loaded and completed, or nothing when the pause flag is set |
| `IndexingPipeline.IndexedDocument.Load` | api/core/indexing_runner.py:608-656 | Group by group, exactly the given documents are loaded once; the document completes unless paused |
| `IndexingPipeline.IndexedDocument.RunInIndexingStatus` | api/core/indexing_runner.py:199-262 | Left alone, a resumed run loads exactly the segments that were not COMPLETED, once each, completes all segments and then the document; a set flag stops it before any change |
| `MigrationLockProtocol.RunsKeepTokenInv` | api/libs/db_migration_lock.py:89-113 | In every run, timely or not, tokens identify sessions and no session in progress shares one with a left-over heartbeat |
| `MigrationLockProtocol.StrayNeverRenewsLaterSession` | api/libs/db_migration_lock.py:124-161 | A heartbeat left over after a timed-out join never changes the key of a session in progress |
| `MigrationLockProtocol.FreeLockIsGranted` | api/libs/db_migration_lock.py:101-113 | A free or expired lock is granted at once, for the whole TTL and under a new token |
| `MigrationLockProtocol.HeldLockIsRefused` | api/libs/db_migration_lock.py:109-113 | A live lock is refused and nothing changes |
| `MigrationLockProtocol.ReleaseFreesTheLock` | api/libs/db_migration_lock.py:174-178 | After a release by the owner any other process gets the lock at once |
| `MigrationLockProtocol.ForeignReleaseIsHarmless` | api/libs/db_migration_lock.py:177-199 | A release without ownership, or one that fails, leaves the key alone |
| `MigrationLockProtocol.RenewalExtends` | api/libs/db_migration_lock.py:139-161 | A renewal that reaches Redis gives the owner the whole TTL again; for anyone else it changes nothing and ends the heartbeat |
| `MigrationLockProtocol.NoKeyIsOrphaned` | api/libs/db_migration_lock.py:163-202 | In every run in which no release call fails, a live key belongs to a process that is inside or leaving |
| `MigrationLockProtocol.LockIsFreeOnceAllAreGone` | api/libs/db_migration_lock.py:163-202 | So once all processes are gone, whoever comes next gets the lock at once |
| `MigrationLockProtocol.StepKeepsInv` | api/libs/db_migration_lock.py:139-161 | Every step keeps the renewal invariant, which bounds the age of the last renewal by phase and failure count |
| `MigrationLockProtocol.LapseAdmitsSecond` | api/libs/db_migration_lock.py:139-161 | When two waits and three delays exceed the TTL, one lost renewal lets a second process in |
| `MigrationLockProtocol.ExclusiveExactlyWhenRenewable` | api/libs/db_migration_lock.py:89-161 | The key never lapses under a process inside, and no two processes are inside together, in all timely runs, if and only if 2 * interval + 3 * delay <= ttl |
| `MigrationLockProtocol.DefaultIntervalIsSafe` | api/libs/db_migration_lock.py:72-76 | With the default interval and delays under ttl/9, exclusion, and likewise that the key never lapses, holds exactly for ttl of at least 0.3 s |
| `MigrationLock.DbMigrationAutoRenewLock.constructor` | api/libs/db_migration_lock.py:59-83 | The initial state: no lock, event, thread or acquisition |
| `MigrationLock.DbMigrationAutoRenewLock.Acquire` | api/libs/db_migration_lock.py:89-113 | A second acquire is refused unchanged; otherwise acquired exactly when granted, and then with a fresh event and heartbeat on this lock; no token of an earlier heartbeat changes |
| `MigrationLock.DbMigrationAutoRenewLock.StartHeartbeat` | api/libs/db_migration_lock.py:124-137 | Nothing without a lock or beside an existing event; otherwise an unstopped heartbeat on the current lock with its own fresh event |
| `MigrationLock.DbMigrationAutoRenewLock.StopHeartbeat` | api/libs/db_migration_lock.py:204-222 | From any state: nothing without an event; otherwise it is set and forgotten with the thread, whether or not the join times out |
| `MigrationLock.RedisLock.Release` | api/libs/db_migration_lock.py:178-178 | The key is deleted exactly if it still holds this lock's token |
| `MigrationLock.DbMigrationAutoRenewLock.ReleaseSafely` | api/libs/db_migration_lock.py:163-202 | Whatever the release call does, the object is back in its initial state and its heartbeat is told to stop and retired; if the call reaches Redis, this session's key is deleted and no other |
| `MigrationLock.DbMigrationAutoRenewLock.RunCalls` | api/libs/db_migration_lock.py:96-222 | Over any sequence of acquire and release calls with any outcomes, every heartbeat of an earlier session keeps a set stop event, its own token and another lock than the current one |
| `LintSyntax.IterMethodNodes` | api/dev/lint_response_contracts.py:370-381 | The explicit-stack walk visits exactly the preorder pruned below nested scopes |
| `LintSyntax.WalkExactly` | api/dev/lint_response_contracts.py:370-381 | A node is visited exactly when no nested scope lies between it and the body |
| `LintAnalysis.RecordAssignment` | api/dev/lint_response_contracts.py:393-405 | The summaries after recording are those of the longer list of assignments |
| `LintAnalysis.VariableModels` | api/dev/lint_response_contracts.py:408-439 | A name is mapped to a model and source exactly when its summary has that single known model |
| `LintAnalysis.SingleModels` | api/dev/lint_response_contracts.py:122-128 | The final selection keeps exactly the names with one known model and no unknown assignment |
| `LintAnalysis.InferredMeans` | api/dev/lint_response_contracts.py:109-129 | A name is mapped to a model if and only if it is assigned somewhere and every assignment makes that model; "constructor" exactly when all are constructor calls |
| `LintAnalysis.RecordedExactly` | api/dev/lint_response_contracts.py:384-432 | A node is recorded for a name exactly when one of its targets is the name or has it inside a tuple or list, and with a model exactly when `=`, an annotated `=` or `:=` assigns a model call |
| `LintAnalysis.InferredExactly` | api/dev/lint_response_contracts.py:408-439 | A name is inferred to hold a model exactly when some visited node assigns it and every one that does assigns a call of that model; the source is "constructor" exactly when all are constructor calls |
| `LintRuntime.ExecIsSound` | api/dev/lint_response_contracts.py:408-439 | Running any node of the fragment, under every choice of branches, iterations, exceptions, handlers and jumps, keeps every bound name as inferred |
| `LintRuntime.BoundValue` | api/dev/lint_response_contracts.py:384-390 | After an assignment a name holds the value, an unknown part of it, or its old value, according to the last target binding it |
| `LintEndings.EndsExactlyWhenAllowed` | api/dev/lint_response_contracts.py:442-464 | Some run of a node completes normally if and only if its tree allows it: returns and raises do not, a branch, a try or a loop does through its alternatives, handlers, else clause and breaks |
| `LintVerdict.InferenceIsSound` | api/dev/lint_response_contracts.py:408-439 | In every run, whenever the method returns, raises or ends, a bound name mapped to M holds an instance of M, made by a constructor if the source says so, for every name that nodes bind only plainly |
| `LintVerdict.ActualResponses` | api/dev/lint_response_contracts.py:442-464 | Exactly the returns of the walk with a success status or an undecided one |
| `LintVerdict.ClassifyMethod` | api/dev/lint_response_contracts.py:494-572 | The verdict is a function of the set of returns: mismatch, then unknown, then refactorable, then valid; a mismatch reports the first wrong return |
| `LintVerdict.JudgedExactly` | api/dev/lint_response_contracts.py:311-367 | Which returns are compared, and which of them are judged wrong, right or indirect, read off the tree and the documentation alone |
| `LintVerdict.VerdictExactly` | api/dev/lint_response_contracts.py:510-572 | A mismatch exactly when some success return gives another model than the documented one, or a model or body where the status allows none; a pass exactly when there is a return to compare and all of them keep to the documentation; refactorable exactly when one of those dumps a validated variable |
| `LintVerdict.ReturnIsJudged` | api/dev/lint_response_contracts.py:311-367 | A return judged right conforms, and one judged wrong does not, for every value the analysis allows it |
| `LintVerdict.PassedIsGuaranteed` | api/dev/lint_response_contracts.py:494-572 | If the verdict is valid or refactorable, in every run every response has a literal status, and every success response is the documented model's dump or an empty no-body response |
| `LintVerdict.AnswersExactlyWhenStuck` | api/dev/lint_response_contracts.py:449-463 | Every run that ends raises or responds, so that guarantee covers all of them, if and only if the tree does not let the body complete normally |
| `LintVerdict.GuardedReturnAnswers` | api/controllers/web/message.py:77-99 | A method that ends in a `try` whose body ends in a return and whose handlers all end in `raise` responds or raises in every run |
| `LintVerdict.MismatchIsReal` | api/dev/lint_response_contracts.py:510-558 | If the verdict is mismatch, some return never conforms, in any run that reaches it |
| `LintVerdict.LintMethod` | api/dev/lint_response_contracts.py:442-572 | End to end: walk, inference and classification give a verdict with those two guarantees |
| `LintVerdict.AssignmentIsSoundExactlyWhenPlain` | api/dev/lint_response_contracts.py:414-419 | An assignment of a model call keeps the inference true if and only if each inferred name it binds is last bound as a plain name |
| `LintVerdict.PassIsSoundExactlyWhenPlain` | api/dev/lint_response_contracts.py:370-439 | For every binding statement, nested scopes included, every model and name, the method that makes the model, binds and returns the dump passes, and the pass holds in all runs if and only if the statement binds the name, if at all, last as a plain name |
| `EnvSync.ParseEnvFile` | docker/dify-env-sync.py:78-92 | The loop builds the map in which the last definition of a key wins |
| `EnvSync.ParseIsLastDefinition` | docker/dify-env-sync.py:80-91 | A key is parsed exactly when some line defines it, with the value of the last such line |
| `EnvSync.DefinesExactly` | docker/dify-env-sync.py:81-91 | A line defines a key exactly when it is no comment and has the form `key=value` with white space around both parts |
| `EnvSync.ParseExactly` | docker/dify-env-sync.py:78-92 | A file defines each key as the last line that defines it, and nothing else |
| `EnvText.OrdinarySpaces` | docker/dify-env-sync.py:83-83 | Blanks, tabs and carriage returns count as white space, printable ASCII characters do not |
| `EnvText.StripExactly` | docker/dify-env-sync.py:83-91 | Stripping leaves exactly the text without the white space around it |
| `EnvSync.DetectDifferences` | docker/dify-env-sync.py:217-220 | Exactly the keys of both files with different values, with both values |
| `EnvSync.SyncEnvFile` | docker/dify-env-sync.py:312-340 | The output is the example line by line, recognised definitions of differing keys rewritten; those are counted as preserved and the other recognised ones as updated |
| `EnvSync.MatchExactly` | docker/dify-env-sync.py:318-328 | A line is recognised with a key exactly when it is an identifier of ASCII letters, digits and underscores at column 0, white space, an equals sign and anything |
| `EnvSync.SyncedLineExactly` | docker/dify-env-sync.py:324-340 | Each line of the synced file is `key=value` for a recognised key that `.env` defines otherwise, and the example's line for all others |
| `EnvSync.CountedExactly` | docker/dify-env-sync.py:329-337 | Which lines the two counters count |
| `EnvSync.Synchronize` | docker/dify-env-sync.py:293-340 | Parsing both texts, comparing and rewriting gives the synced text |
| `EnvText.LinesOfText` | docker/dify-env-sync.py:324-340 | Reading back lines that were written gives the same lines |
| `EnvText.TextOfLines` | docker/dify-env-sync.py:324-340 | Writing back the lines of a text gives the text, ended by a newline |
| `EnvSync.MatchIsParsed` | docker/dify-env-sync.py:318-328 | A line the pattern recognises is parsed with the same key |
| `EnvSync.ParseOfAssignment` | docker/dify-env-sync.py:331-331 | A written `key=value` line parses back to that key and value |
| `EnvSync.SyncedValue` | docker/dify-env-sync.py:312-340 | What every key holds after the sync, for every example, malformed ones included |
| `EnvSync.SyncedIsMerged` | docker/dify-env-sync.py:294-300 | For a well-formed example the synced file parses to the example's keys with the `.env` values where present |
| `EnvSync.FaithfulExactlyWhenWellFormed` | docker/dify-env-sync.py:294-340 | That holds for every `.env` if and only if the last definition of every key starts at column 0 with an identifier |
| `EnvSync.UnmatchedKeyIsLost` | docker/dify-env-sync.py:318-340 | Any key whose last definition is not recognised loses some `.env` value |
| `EnvSync.IdempotentExactlyWhenSettled` | docker/dify-env-sync.py:312-340 | A second sync reproduces the same text for every `.env` if and only if a key with any recognised definition has a recognised last one |
| `EnvSync.WellFormedIsSettled` | docker/dify-env-sync.py:318-328 | Well-formed examples meet that condition |
| `Sorting.SortDependsOnMultiset` | api/dev/generate_swagger_specs.py:305-316 | By a total order, two lists sort to the same list if and only if they are permutations of each other |
| `Sorting.LexExactly` | api/dev/generate_swagger_specs.py:312-316 | Strings are ordered by code points: a prefix, or the smaller character at the first difference |
| `OpenApiCanon.ArrangeIsCanonical` | api/dev/generate_swagger_specs.py:302-316 | Two arrays are arranged alike exactly when they are permutations (order-free keys) or equal (all others) |
| `OpenApiCanon.NormalizeIsCanonical` | api/dev/generate_swagger_specs.py:284-316 | Two documents have equal normal forms if and only if they differ only in null members and in the order of parameters and all-string enum, required, schemes and tags arrays, at any depth |
| `OpenApiCanon.NormalizeExactly` | api/dev/generate_swagger_specs.py:284-316 | At every depth exactly the null members are gone, parameters are ordered by (in, name, dump), all-string enum, required, schemes and tags arrays by code points, and all else is unchanged |
| `OpenApiCanon.NormalizeIsIdempotent` | api/dev/generate_swagger_specs.py:284-316 | Normalising twice changes nothing more, whatever the dump key |
| `OpenApiCanon.NormalizeLeavesNoNullMember` | api/dev/generate_swagger_specs.py:284-291 | No object at any depth keeps a null member, whatever the dump key |
| `OpenApiCanon.ReplaceLegacyRefs` | api/dev/generate_swagger_specs.py:319-330 | The filling loop computes the rewrite, which is related to its input as below |
| `OpenApiCanon.ReplaceExactly` | api/dev/generate_swagger_specs.py:319-330 | The rewrite is the only document with the same keys, lengths and other scalars at every depth in which `#/definitions/` + name under `$ref` has become `#/components/schemas/` + name |
| `OpenApiCanon.ReplaceLeavesNoLegacyRef` | api/dev/generate_swagger_specs.py:319-330 | No `#/definitions/` reference is left at any depth |
| `OpenApiCanon.ReplaceFixesClean` | api/dev/generate_swagger_specs.py:319-330 | A document without legacy references is unchanged |
| `OpenApiCanon.ReplaceIsIdempotent` | api/dev/generate_swagger_specs.py:319-330 | Rewriting twice is rewriting once |
| `RecyclableContextVar.ThreadRecycles.Increment` | api/contexts/wrapper.py:21-27 | The shared counter starts at 0 and goes up by one |
| `RecyclableContextVar.Wrapper.constructor` | api/contexts/wrapper.py:29-31 | A new variable holds nothing |
| `RecyclableContextVar.Wrapper.Get` | api/contexts/wrapper.py:33-47 | Returns what the slot holds, if anything, and does not change it |
| `RecyclableContextVar.Wrapper.Set` | api/contexts/wrapper.py:49-62 | Afterwards the slot holds the value, whatever the counters were |
| `RecyclableContextVar.WrapperRefinesSlot` | api/contexts/wrapper.py:11-62 | In every run that begins with an increment, each of any number of variables behaves like an optional slot that increment clears |
| `RecyclableContextVar.SetThenIncrementIsVisible` | api/contexts/wrapper.py:25-27 | A value set before the first increment is still visible after it |
| `RecyclableContextVar.AgreesExactlyWhenNothingSetEarly` | api/contexts/wrapper.py:16-27 | All continuations behave like slots if and only if nothing was set before the first increment |
| `ApprovalGrant.StepKeepsInv` | api/libs/device_flow_security.py:73-140 | Every step keeps the invariant that a consumed nonce's key outlives every admissible late consumption |
| `ApprovalGrant.AdmissibleRunsKeepInv` | api/libs/device_flow_security.py:73-140 | The invariant holds at the end of every admissible run |
| `ApprovalGrant.FirstConsumerWins` | api/libs/device_flow_security.py:130-140 | In every run, whatever the clocks and delays, the first verifier to consume a grant is never refused |
| `ApprovalGrant.VerifiesExactlyBeforeExpiry` | api/libs/device_flow_security.py:84-127 | A grant is accepted exactly by a verifier whose clock shows less than its expiry, 300 s after the minter's clock in whole seconds |
| `ApprovalGrant.ConsumesExactly` | api/libs/device_flow_security.py:130-140 | A consumption counts exactly when the nonce has no live key, and then writes one that lives for 600 s |
| `ApprovalGrant.LateReplaySucceeds` | api/libs/device_flow_security.py:57-58 | Beyond the margin some admissible run consumes one grant twice |
| `ApprovalGrant.SingleUseExactlyWithinMargin` | api/libs/device_flow_security.py:57-58 | Every grant is consumed at most once in all admissible runs if and only if skew + delay <= 300 s |
| `ApprovalGrant.NonceStore.ConsumeNonce` | api/libs/device_flow_security.py:130-140 | Accepted exactly for a non-empty nonce without a live key; only that key changes, to live for 600 s |

## Left out

- `ProviderManager.get_configurations` and everything assembled from the cached rows, credential decryption and hosting quotas.
- Interleavings inside `_get_version` or inside one source's INCR and EXPIRE, and the loop over several sources, each of which is one invalidation step here.
- JSON conversion of cached rows.
- SharedConfigs.ModelSetting.NewManager: credentials are opaque strings; an empty credentials dictionary counts as missing, as in the code; matching the model setting by name and type is not modelled.
- LoadBalancer.RoundRobin.Invoke: the clock is read once per fetch and once per failed attempt; cooldowns of other processes and policy answers may change between iterations but not within one fetch (FetchNext alone allows that). The direct call without a manager is not modelled.
- The expiry of the round-robin counter after an hour is one of the interferences FetchNext allows.
- IndexingPipeline: economy mode and its keyword thread, extraction, cleaning, splitting, child chunks, multimodal attachments and errors other than pauses; the pause test and the status update at the end of a run are one step.
- MigrationLock: `owned`, join timeouts as durations, logging; threads are objects whose survival is left open.
- ApprovalGrant: signatures, audience and key ids; the SSO assertion nonce, which is consumed the same way; cookies and headers.
- The linter: parsing and file discovery, reading decorators, ignore comments, routes and reason texts; `del` of a name, which only makes a later dump raise; generators.
- EnvSync: line-end translation, encodings, backups, colours, statistics and the report of removed variables; white space is Python's set for `str.strip` and `\s`.
- OpenApiCanon.NormalizeIsCanonical: an `in` or `name` that is not a string sorts like an absent one, where the code would fail on mixed types.
- OpenApiCanon: operation id deduplication, whose uniqueness would rest on a truncated hash, and inline model definitions, which depend on the identity of another library's objects.
- Command-line commands, response field declarations, extension start-up, mail templates and the web client, which hold only easy properties.
