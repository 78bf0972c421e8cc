# forklift core, modelled in Dafny

forklift is an Android library for chained loaders. An `AsyncChainLoader`
loads its own data and then runs a chained loader. On the asynchronous
path the chain is started after any own result other than a FAILURE: a
value is delivered to the consumer first, and `NO_RESULT` delivers nothing
of its own. The synchronous path (`getSync`) consults the chain only when
the own load throws `NO_RESULT`. The chain's results come back through `onLoadComplete`,
are reprocessed off the main thread by `onFallbackDelivered`, and are
delivered to the consumer. The reprocessing tasks run on the
`FallbackDeliveryExecutor`, whose work queue (`FallbackQueue`) is
partitioned by owning loader. The queue hands out at most one item per
loader at a time, and each loader's items leave in the order they came in.
Results travel in small immutable containers (`Result`, `LoaderResult`).

This project models that core and proves its properties:

- `lang.dfy` (`Lang`): Java vocabulary. `Nullable` stands for a reference
  that may be null, and `Outcome` for a call that may throw an unchecked
  exception.
- `tristate_result.dfy` (`TriState`): `com.docusign.loaders.Result`. The
  forklift-package `Result` that the library loader delivers has the same
  shape, so it reuses this model.
- `dataaccess_result.dfy` (`DataAccessResult`): `com.docusign.dataaccess.Result`.
- `loader_result.dfy` (`LoaderResults`): `com.docusign.dataaccess.LoaderResult`.
- `fallback_queue_spec.dfy` (`FallbackQueueSpec`): the queue on values.
  It covers the owner-to-FIFO map and its invariant (no owner maps to an
  empty queue, and every item sits under its own loader). It also has a
  step model (push, take, finish). Over any run of that model it proves
  per-owner FIFO order and that no second item of a running owner is
  handed out.
- `fallback_queue.dfy` (`FallbackDelivery`): the class `FallbackQueue`.
  Its fields `queues` and `running` are updated in place. Every method is
  specified by the value-level functions.
- `phases.dfy` (`Phases`): the phase constants and `performLoad`'s
  decision, which both loader versions share. It proves that one cycle
  starts the loader's own load once, then the chain at most once, and
  then nothing.
- `chain_loader_spec.dfy` (`ChainLoaderSpec`): the library loader on
  values. It covers the reprocessing step, the `loadInBackground` mapping,
  the synchronous `ACLForklift.getSync` recursion down a chain, and how a
  delivery changes the phase, the cached result and what the consumer sees.
- `chain_loader.dfy` (`ChainLoader`): the class `AsyncChainLoader`. The
  Android base loader is abstracted as the flags `started`, `reset` and
  `abandoned`. An event log records `forceLoad`, chain start and reset,
  consumer deliveries, releases and executor submissions.
- `legacy_chain_loader.dfy` (`LegacyChainLoader`): the older
  `com.docusign.dataaccess.AsyncChainLoader`.

Object identity is modelled explicitly. A `RunnableWrapper` carries an
`id`. Loaders are named by `LoaderId`. `HashMap` iteration order is left
open: `peek` may pick any owner that is not running and has pending items.

Three behaviours of the code are easy to misread:

- A COMPLETE (or null) delivery calls `performLoad` once. In
  `LOADING_SELF` with a chain, that starts the chain, even after the
  loader's own value was shown (`ChainLoaderSpec.OwnLoadThenChain`). A
  delivery never returns the phase to `INITIALIZED`. From `LOADING_CHAIN`
  on, `performLoad` starts nothing until `onReset` does, so one cycle
  starts the own load once and the chain at most once
  (`ChainLoaderSpec.CycleStartsEachLoadOnce`).
- A FAILURE delivery, like a PARTIAL one, does not move the cycle on
  (`ChainLoaderSpec.DeliverEffect`).
- The javadoc of `onFallbackDelivered` calls its return value "the result
  to deliver" (`AsyncChainLoader.java:250-260`). The synchronous path
  discards that value and returns the chain's own value instead
  (`ChainLoaderSpec.SyncDiscardsHookValue`).

Both loader versions release the previous cached result after a delivery.
So re-delivering the cached result (as `onStartLoading` does) hands it to
the consumer and then releases that same object while it stays cached
(`ChainLoaderSpec.RedeliveryReleasesCachedData`). The model states this
as the code does it.

## Model

| member | source | states |
|---|---|---|
| TriState.New | src/com/docusign/loaders/Result.java:27-34 | a null type throws IllegalArgumentException; otherwise getType() is the given type and get() throws the given exception or returns the given value |
| TriState.Success | src/com/docusign/loaders/Result.java:11-13 | success(v).get() returns v and the type is COMPLETE |
| TriState.Partial | src/com/docusign/loaders/Result.java:15-17 | partial(v).get() returns v and the type is PARTIAL |
| TriState.Failure | src/com/docusign/loaders/Result.java:19-21 | failure(e) has type FAILURE and get() throws e; with a null e, get() returns null |
| TriState.GetThrowsIffError | src/com/docusign/loaders/Result.java:36-41 | get() throws exactly when an exception is stored, and otherwise returns the stored value |
| TriState.GetIgnoresType | src/com/docusign/loaders/Result.java:36-41 | what get() does is the same whatever the result's type |
| TriState.Reconstruct | src/com/docusign/loaders/Result.java:23-25 | rebuilding a result from its final fields gives the same result, so getType() keeps the construction-time type |
| DataAccessResult.New | src/com/docusign/dataaccess/Result.java:27-34 | a null type throws IllegalArgumentException; otherwise getType() is the given type |
| DataAccessResult.Success | src/com/docusign/dataaccess/Result.java:11-13 | success(v).get() returns v with type COMPLETE |
| DataAccessResult.Partial | src/com/docusign/dataaccess/Result.java:15-17 | partial(v).get() returns v with type PARTIAL |
| DataAccessResult.Failure | src/com/docusign/dataaccess/Result.java:19-21 | failure(e) has type FAILURE and get() throws e, or returns null for a null e |
| DataAccessResult.GetThrowsIffError | src/com/docusign/dataaccess/Result.java:36-41 | get() throws iff a DataProviderException is stored, and does not depend on the type |
| LoaderResults.Success | src/com/docusign/dataaccess/LoaderResult.java:5-7 | success(v).get() returns v |
| LoaderResults.Failure | src/com/docusign/dataaccess/LoaderResult.java:9-11 | failure(e).get() throws e; failure(null) is success(null), so get() returns null |
| LoaderResults.GetThrowsIffError | src/com/docusign/dataaccess/LoaderResult.java:21-26 | get() throws iff a non-null exception is stored, and otherwise returns the stored value |
| FallbackQueueSpec.NewWrapper | library/src/main/java/com/docusign/forklift/FallbackDeliveryExecutor.java:30-38 | a null loader or runnable throws NullPointerException; otherwise the wrapper records both |
| FallbackQueueSpec.CheckWrapped | library/src/main/java/com/docusign/forklift/FallbackDeliveryExecutor.java:67-72 | only a RunnableWrapper is accepted; anything else throws UnsupportedOperationException |
| FallbackQueueSpec.RemoveFirst | library/src/main/java/com/docusign/forklift/FallbackDeliveryExecutor.java:161 | removing o from a queue drops exactly one occurrence when o is there (the multiset loses o) and changes nothing otherwise |
| FallbackQueueSpec.Kept | library/src/main/java/com/docusign/forklift/FallbackDeliveryExecutor.java:190 | a queue's retainAll keeps exactly the items the collection contains, and never grows |
| FallbackQueueSpec.TotalRemoveKey | library/src/main/java/com/docusign/forklift/FallbackDeliveryExecutor.java:280-289 | the total size is one owner's queue length plus the total of the others, whichever owner is taken first |
| FallbackQueueSpec.TotalEnqueued | library/src/main/java/com/docusign/forklift/FallbackDeliveryExecutor.java:87-100 | enqueueing grows the size by exactly one |
| FallbackQueueSpec.TotalTakeHead | library/src/main/java/com/docusign/forklift/FallbackDeliveryExecutor.java:213-227 | taking an owner's head shrinks the size by exactly one |
| FallbackQueueSpec.TotalRemoved | library/src/main/java/com/docusign/forklift/FallbackDeliveryExecutor.java:153-173 | remove(o) shrinks the size by one exactly when o was queued |
| FallbackQueueSpec.EmptyIffSizeZero | library/src/main/java/com/docusign/forklift/FallbackDeliveryExecutor.java:325-328 | when no owner maps to an empty queue, having no owners is the same as a size of 0 |
| FallbackQueueSpec.EnqueuedAppends | library/src/main/java/com/docusign/forklift/FallbackDeliveryExecutor.java:56-65 | enqueueing appends the item to the tail of its owner's queue, creating the queue when absent, and leaves every other owner's queue unchanged |
| FallbackQueueSpec.RemovedOnlyThat | library/src/main/java/com/docusign/forklift/FallbackDeliveryExecutor.java:153-173 | remove(o) changes only o's owner's queue, which loses the first occurrence of o |
| FallbackQueueSpec.EnqueuedWf | library/src/main/java/com/docusign/forklift/FallbackDeliveryExecutor.java:87-100 | enqueueing keeps every queue non-empty and every item under its own loader |
| FallbackQueueSpec.TakeHeadWf | library/src/main/java/com/docusign/forklift/FallbackDeliveryExecutor.java:218-221 | taking a head keeps the invariant, because an emptied queue is dropped |
| FallbackQueueSpec.RemovedWf | library/src/main/java/com/docusign/forklift/FallbackDeliveryExecutor.java:160-164 | remove(o) keeps the invariant, because an emptied queue is dropped |
| FallbackQueueSpec.RetainedWf | library/src/main/java/com/docusign/forklift/FallbackDeliveryExecutor.java:188-193 | retainAll keeps the invariant, because emptied queues are dropped |
| FallbackQueueSpec.ApplyWf | library/src/main/java/com/docusign/forklift/FallbackDeliveryExecutor.java:213-227 | every push, take or finish step keeps the invariant |
| FallbackQueueSpec.ApplyConservesOwner | library/src/main/java/com/docusign/forklift/FallbackDeliveryExecutor.java:213-227 | one step neither loses nor reorders an owner's items: what it hands out of the owner, then what stays queued, is the old queue plus what it enqueued |
| FallbackQueueSpec.FifoPerOwner | library/src/androidTest/java/com/docusign/forklift/FallbackDeliveryExecutorTest.java:29-77 | over any run, an owner's items are handed out in exactly the order they were enqueued |
| FallbackQueueSpec.NoSecondItemWhileRunning | library/src/main/java/com/docusign/forklift/FallbackDeliveryExecutor.java:213-227 | while an owner is running and has not finished, no step hands out another of its items |
| FallbackQueueSpec.ContainsAllDiffers | library/src/main/java/com/docusign/forklift/FallbackDeliveryExecutor.java:317-323 | containsAll as written answers true when only some elements are queued and false on an empty collection |
| FallbackDelivery.FallbackQueue.constructor | library/src/main/java/com/docusign/forklift/FallbackDeliveryExecutor.java:52-53 | a new queue has no owners and no running owners |
| FallbackDelivery.FallbackQueue.GetQueue | library/src/main/java/com/docusign/forklift/FallbackDeliveryExecutor.java:56-65 | returns the owner's queue, creating an empty one when absent, and changes nothing else |
| FallbackDelivery.FallbackQueue.Append | library/src/main/java/com/docusign/forklift/FallbackDeliveryExecutor.java:89-92 | appending is a push step of the step model, keeps the invariant and grows the size by one |
| FallbackDelivery.FallbackQueue.Add | library/src/main/java/com/docusign/forklift/FallbackDeliveryExecutor.java:87-100 | a wrapper is appended to its owner's queue and true is returned; anything else throws and changes nothing; the running set is unchanged |
| FallbackDelivery.FallbackQueue.Offer | library/src/main/java/com/docusign/forklift/FallbackDeliveryExecutor.java:110-123 | as add; the queue is unbounded, so it never answers false |
| FallbackDelivery.FallbackQueue.Put | library/src/main/java/com/docusign/forklift/FallbackDeliveryExecutor.java:125-134 | as add, returning nothing |
| FallbackDelivery.FallbackQueue.AddAll | library/src/main/java/com/docusign/forklift/FallbackDeliveryExecutor.java:102-108 | the leading wrappers are added in order; the first non-wrapper throws after them; otherwise the answer is whether anything was added |
| FallbackDelivery.FallbackQueue.StartedRunning | library/src/main/java/com/docusign/forklift/FallbackDeliveryExecutor.java:74-76 | the wrapper's owner joins the running set |
| FallbackDelivery.FallbackQueue.FinishedRunning | library/src/main/java/com/docusign/forklift/FallbackDeliveryExecutor.java:78-83 | the owner leaves the running set, so its next queued item becomes eligible for poll |
| FallbackDelivery.FallbackQueue.Peek | library/src/main/java/com/docusign/forklift/FallbackDeliveryExecutor.java:259-271 | null iff every owner with pending items is running; otherwise the head of some non-running owner |
| FallbackDelivery.FallbackQueue.Element | library/src/main/java/com/docusign/forklift/FallbackDeliveryExecutor.java:251-257 | as peek, with NoSuchElementException instead of null |
| FallbackDelivery.FallbackQueue.Poll | library/src/main/java/com/docusign/forklift/FallbackDeliveryExecutor.java:213-227 | null iff no owner is eligible; otherwise removes the oldest item of a non-running owner and marks that owner running (a take step) |
| FallbackDelivery.FallbackQueue.RemoveHead | library/src/main/java/com/docusign/forklift/FallbackDeliveryExecutor.java:205-211 | as poll, with NoSuchElementException instead of null |
| FallbackDelivery.FallbackQueue.Remove | library/src/main/java/com/docusign/forklift/FallbackDeliveryExecutor.java:153-173 | deletes only the first occurrence of o from its owner's queue; true iff o was queued; false for a non-wrapper or an owner without a queue |
| FallbackDelivery.FallbackQueue.RemoveAll | library/src/main/java/com/docusign/forklift/FallbackDeliveryExecutor.java:175-181 | removes each element in turn; true iff the size went down |
| FallbackDelivery.FallbackQueue.RetainAll | library/src/main/java/com/docusign/forklift/FallbackDeliveryExecutor.java:183-196 | every queue keeps only the contained items, emptied queues go; true iff some queue lost an item |
| FallbackDelivery.FallbackQueue.Clear | library/src/main/java/com/docusign/forklift/FallbackDeliveryExecutor.java:198-203 | every queue goes and the size is 0; the running set is untouched |
| FallbackDelivery.FallbackQueue.Size | library/src/main/java/com/docusign/forklift/FallbackDeliveryExecutor.java:280-289 | the sum of all queue lengths |
| FallbackDelivery.FallbackQueue.IsEmpty | library/src/main/java/com/docusign/forklift/FallbackDeliveryExecutor.java:325-328 | true iff the size is 0 |
| FallbackDelivery.FallbackQueue.RemainingCapacity | library/src/main/java/com/docusign/forklift/FallbackDeliveryExecutor.java:275-278 | always Integer.MAX_VALUE |
| FallbackDelivery.FallbackQueue.Contains | library/src/main/java/com/docusign/forklift/FallbackDeliveryExecutor.java:301-315 | true iff o is a wrapper queued under some owner |
| FallbackDelivery.FallbackQueue.ContainsAllAsWritten | library/src/main/java/com/docusign/forklift/FallbackDeliveryExecutor.java:317-323 | true iff some element of the collection is queued |
| FallbackDelivery.FallbackQueue.ContainsAll | library/src/main/java/com/docusign/forklift/FallbackDeliveryExecutor.java:317-323 | true iff every element of the collection is queued |
| Phases.ActionsAt | library/src/main/java/com/docusign/forklift/AsyncChainLoader.java:173-181 | the i-th of n consecutive performLoads decides from phase p + i, since each one increments the phase by one (tied to the loader's performLoad by PerformLoadsFollowActions) |
| Phases.CycleFromInitialized | library/src/main/java/com/docusign/forklift/AsyncChainLoader.java:173-181 | from INITIALIZED: the first performLoad decides to start the own load, the second to start the chain if there is one, and every later one decides to start nothing |
| ChainLoaderSpec.Caught | library/src/main/java/com/docusign/forklift/AsyncChainLoader.java:74-78 | NO_RESULT caught in reprocessing becomes null; any other ChainLoaderException becomes failure(e) |
| ChainLoaderSpec.Reprocess | library/src/main/java/com/docusign/forklift/AsyncChainLoader.java:66-80 | a cancelled task yields null; a null input throws; a failure skips the hook and keeps its error (NO_RESULT becomes null); a value goes through the hook and keeps its type; a hook exception becomes failure, or null for NO_RESULT |
| ChainLoaderSpec.PassThroughKeepsResult | library/src/main/java/com/docusign/forklift/AsyncChainLoader.java:72-78 | with the default hook the chain's result is passed on as it came, except that failure(NO_RESULT) becomes null |
| ChainLoaderSpec.LoadInBackground | library/src/main/java/com/docusign/forklift/AsyncChainLoader.java:279-287 | a value becomes success; NO_RESULT is null with a chain and UnsupportedOperationException without one; any other ChainLoaderException becomes failure |
| ChainLoaderSpec.SyncHandledMeaning | library/src/main/java/com/docusign/forklift/AsyncChainLoader.java:54-57 | LoadCancelledException is rethrown; any other ChainLoaderException becomes failure(e) |
| ChainLoaderSpec.GetSync | library/src/main/java/com/docusign/forklift/AsyncChainLoader.java:28-61 | never answers PARTIAL and never turns cancellation into a failure; a local value is returned without consulting the chain; NO_RESULT without a chain throws UnsupportedOperationException |
| ChainLoaderSpec.Responder | library/src/main/java/com/docusign/forklift/AsyncChainLoader.java:37-46 | the first loader down the chain whose doLoad() does not defer |
| ChainLoaderSpec.UndisturbedChainAnswersFromResponder | library/src/main/java/com/docusign/forklift/AsyncChainLoader.java:29-61 | without resets or throwing hooks, getSync answers with the first loader that does not defer (success of its value, its failure, or its cancellation), and a chain that only defers throws UnsupportedOperationException |
| ChainLoaderSpec.ResetDuringLoadCancels | library/src/main/java/com/docusign/forklift/AsyncChainLoader.java:41-42 | a reset during the own doLoad() cancels the load once it defers |
| ChainLoaderSpec.ResetDuringChainCancels | library/src/main/java/com/docusign/forklift/AsyncChainLoader.java:49-50 | a reset while the chain resolves cancels the load, even when the chain produced a value |
| ChainLoaderSpec.SyncDiscardsHookValue | library/src/main/java/com/docusign/forklift/AsyncChainLoader.java:51-52 | swapping onFallbackDelivered for any other hook that does not throw leaves getSync's answer unchanged |
| ChainLoaderSpec.LeftDetachedNeverYields | library/src/main/java/com/docusign/forklift/AsyncChainLoader.java:44-47 | a loader whose re-registration with its chain is skipped (the chain's getSync or get() threw) never answers with a value |
| ChainLoaderSpec.UndisturbedDetachment | library/src/main/java/com/docusign/forklift/AsyncChainLoader.java:44-47 | without resets or throwing hooks, a getSync that answers a value leaves every loader registered with its chain again, and one that does not leaves every loader it unregistered detached |
| ChainLoaderSpec.SyncAgreesWithAsyncOnOwnAnswer | library/src/main/java/com/docusign/forklift/AsyncChainLoader.java:32-36 | for a loader that answers by itself, getSync and loadInBackground give the same result, except that getSync rethrows a cancellation that loadInBackground turns into failure |
| ChainLoaderSpec.PerformLoadSpec | library/src/main/java/com/docusign/forklift/AsyncChainLoader.java:173-181 | performLoad keeps the data, raises the phase by one and starts what the phase decides |
| ChainLoaderSpec.PerformLoadsFollowActions | library/src/main/java/com/docusign/forklift/AsyncChainLoader.java:173-181 | n performLoads in a row raise the phase by n, keep the data and start exactly what Phases.Actions decides, in order |
| ChainLoaderSpec.IdlePastChain | library/src/main/java/com/docusign/forklift/AsyncChainLoader.java:175-180 | from LOADING_CHAIN on, any number of performLoads start nothing and only move the phase |
| ChainLoaderSpec.CycleStartsEachLoadOnce | library/src/main/java/com/docusign/forklift/AsyncChainLoader.java:173-181 | from INITIALIZED, n performLoads start the own load exactly once (for n at least 1) and then the chain exactly once if there is one and n is at least 2; nothing else is started and the data stays |
| ChainLoaderSpec.DeliverWhileResetIgnored | library/src/main/java/com/docusign/forklift/AsyncChainLoader.java:199-202 | deliverResult on a reset loader changes nothing: no caching, no forwarding, no phase change |
| ChainLoaderSpec.DeliverEffect | library/src/main/java/com/docusign/forklift/AsyncChainLoader.java:198-216 | the result is cached; it reaches the consumer, and the previous result is released, iff started, not abandoned and not null; the phase moves on iff the result is null or COMPLETE |
| ChainLoaderSpec.OwnLoadThenChain | library/src/main/java/com/docusign/forklift/AsyncChainLoader.java:213-214 | delivering the own load's result in LOADING_SELF starts the chain and moves to LOADING_CHAIN exactly when that load did not fail: for a value and for NO_RESULT alike |
| ChainLoaderSpec.ShownOnlyDelivered | library/src/main/java/com/docusign/forklift/AsyncChainLoader.java:209-210 | only consumer deliveries show the consumer a result |
| ChainLoaderSpec.DeliverShowsOne | library/src/main/java/com/docusign/forklift/AsyncChainLoader.java:204-212 | one delivery to a started, non-abandoned loader adds exactly that result to what the consumer has seen, or nothing for null |
| ChainLoaderSpec.DeliverAllShowsInOrder | library/src/main/java/com/docusign/forklift/AsyncChainLoader.java:198-216 | a started consumer receives every non-null delivery, PARTIAL ones included, in order; the phase rises once per null or COMPLETE delivery; the last delivery stays cached |
| ChainLoaderSpec.RedeliveryReleasesCachedData | library/src/main/java/com/docusign/forklift/AsyncChainLoader.java:204-212 | re-delivering the cached result hands it to the consumer, then releases it while it stays cached |
| ChainLoader.AsyncChainLoader.constructor | library/src/main/java/com/docusign/forklift/AsyncChainLoader.java:122-134 | starts in INITIALIZED with no data and no tasks, registered with its chain if there is one |
| ChainLoader.AsyncChainLoader.PerformLoad | library/src/main/java/com/docusign/forklift/AsyncChainLoader.java:173-181 | the new state is PerformLoadSpec of the old one |
| ChainLoader.AsyncChainLoader.DeliverResult | library/src/main/java/com/docusign/forklift/AsyncChainLoader.java:198-216 | the new state is DeliverSpec of the old state and flags |
| ChainLoader.AsyncChainLoader.OnStartLoading | library/src/main/java/com/docusign/forklift/AsyncChainLoader.java:165-171 | re-delivers any cached result, then performs the next load |
| ChainLoader.AsyncChainLoader.OnReset | library/src/main/java/com/docusign/forklift/AsyncChainLoader.java:149-162 | cancels the load, releases and clears the data, returns to INITIALIZED, resets the chain if present and cancels every pending task |
| ChainLoader.AsyncChainLoader.OnAbandon | library/src/main/java/com/docusign/forklift/AsyncChainLoader.java:184-187 | cancels the load |
| ChainLoader.AsyncChainLoader.OnCanceled | library/src/main/java/com/docusign/forklift/AsyncChainLoader.java:190-195 | releases the cancelled load's result |
| ChainLoader.AsyncChainLoader.OnLoadComplete | library/src/main/java/com/docusign/forklift/AsyncChainLoader.java:237-248 | a callback from any loader but the chain throws UnsupportedOperationException; a loader that is not started drops the result; otherwise a reprocessing task is listed and submitted to the executor under this loader's identity |
| ChainLoader.AsyncChainLoader.RemoveTask | library/src/main/java/com/docusign/forklift/AsyncChainLoader.java:136-141 | exactly that task leaves the list and the others keep their order |
| ChainLoader.AsyncChainLoader.RunFallbackTask | library/src/main/java/com/docusign/forklift/AsyncChainLoader.java:64-92 | runs Reprocess on the task; a cancelled task is only removed; otherwise the result is delivered as DeliverSpec says and the task is removed; a failing doInBackground changes nothing |
| ChainLoader.AsyncChainLoader.StartLoading | library/src/main/java/com/docusign/forklift/AsyncChainLoader.java:165-171 | the base loader's startLoading(): started, not reset, not abandoned, then onStartLoading |
| ChainLoader.AsyncChainLoader.Reset | library/src/main/java/com/docusign/forklift/AsyncChainLoader.java:149-162 | the base loader's reset(): onReset, then reset and not started; every pending task is cancelled and otherwise unchanged, and task ids are not reused |
| ChainLoader.DelegationExample | library/src/main/java/com/docusign/forklift/AsyncChainLoader.java:237-248 | a loader that defers, with a chain answering success(42) and a doubling hook, shows its consumer exactly success(84) and ends its cycle idle |
| LegacyChainLoader.PerformLoadSpec | src/com/docusign/dataaccess/AsyncChainLoader.java:48-57 | the phase rises by one; starting the chain registers this loader as its listener first |
| LegacyChainLoader.PerformLoadsFollowActions | src/com/docusign/dataaccess/AsyncChainLoader.java:48-57 | n performLoads in a row raise the phase by n, keep the data and start exactly what Phases.Actions decides, in order |
| LegacyChainLoader.IdlePastChain | src/com/docusign/dataaccess/AsyncChainLoader.java:50-56 | from LOADING_CHAIN on, any number of performLoads start nothing and only move the phase |
| LegacyChainLoader.CycleStartsEachLoadOnce | src/com/docusign/dataaccess/AsyncChainLoader.java:48-57 | from INITIALIZED, n performLoads start the own load exactly once and then, with a chain and n at least 2, register with the chain and start it exactly once; the data stays |
| LegacyChainLoader.DeliverAlwaysAdvances | src/com/docusign/dataaccess/AsyncChainLoader.java:71-86 | every delivery, null included, is cached and moves the phase on; the previous result is always released; a started, non-abandoned consumer receives it |
| LegacyChainLoader.ResetDeliveryCachesReleasedData | src/com/docusign/dataaccess/AsyncChainLoader.java:73-78 | on a reset loader the delivered result is released and still cached |
| LegacyChainLoader.AsyncChainLoader.constructor | src/com/docusign/dataaccess/AsyncChainLoader.java:20-25 | starts in INITIALIZED with no data and without registering with the chain |
| LegacyChainLoader.AsyncChainLoader.PerformLoad | src/com/docusign/dataaccess/AsyncChainLoader.java:48-57 | the new state is the legacy PerformLoadSpec of the old one |
| LegacyChainLoader.AsyncChainLoader.DeliverResult | src/com/docusign/dataaccess/AsyncChainLoader.java:71-86 | the new state is the legacy DeliverSpec of the old state and flags |
| LegacyChainLoader.AsyncChainLoader.OnStartLoading | src/com/docusign/dataaccess/AsyncChainLoader.java:40-46 | re-delivers any cached result, then performs the next load |
| LegacyChainLoader.AsyncChainLoader.OnReset | src/com/docusign/dataaccess/AsyncChainLoader.java:32-38 | cancels the load, releases and clears the data and returns to INITIALIZED, leaving the chain alone |
| LegacyChainLoader.AsyncChainLoader.OnAbandon | src/com/docusign/dataaccess/AsyncChainLoader.java:59-62 | cancels the load |
| LegacyChainLoader.AsyncChainLoader.OnCanceled | src/com/docusign/dataaccess/AsyncChainLoader.java:64-69 | releases the cancelled load's result |
| LegacyChainLoader.AsyncChainLoader.OnLoadComplete | src/com/docusign/dataaccess/AsyncChainLoader.java:97-103 | a callback from any loader but the chain throws UnsupportedOperationException; otherwise onFallbackDelivered(data) is delivered at once |

## Left out

- Thread-pool configuration of the executor (pool sizes, keep-alive, thread factory, prestart, discard policy): this is JVM runtime behaviour.
- `notify`/`wait` wake-ups, the timed `poll(timeout)`, `take`, and the timed `offer`: these are concurrency. The queue is unbounded, so the timed `offer` behaves like `offer`.
- The destructive iterator, `drainTo` and the unsupported `toArray`: incidental `BlockingQueue` plumbing with no role in the executor.
- `RunnableWrapper.run` and the executor's workers: these are threads. The step model's take and finish steps stand for a worker polling an item and finishing it.
- FallbackDelivery.FallbackQueue.Size: returns the unbounded total. The Java `int` sum would wrap past 2^31-1 pending items.
- The `LinkedBlockingQueue` capacity limit of Integer.MAX_VALUE items per owner: the model's queues are unbounded.
- `Forklift` and both `LoaderHelper` classes: blocking on a lock and handing `reset` to the main looper are threading.
- ChainLoaderSpec.GetSync: the `resetSynchronouslyOnUiThread()` calls before and after the load are not part of the value model; their effect on the loader is that of `ChainLoader.AsyncChainLoader.Reset`. The unregister/register pair around the chain's load is modelled beside `GetSync` (`LeftDetached`), but the listener is not kept as state. So the consequence of a skipped re-registration is not modelled: a later `getSync` on the same loader reaches `unregisterListener` with no listener and throws IllegalStateException.
- ChainLoaderSpec.GetSync: the writes to `m_State` are not kept as state. Whether another reset changes the phase during the own load or during the chain's load is a pair of inputs (`resetDuringLoad`, `resetDuringChain`). A chain that is not an `AsyncChainLoader` (the generic `Forklift` path) is not modelled.
- ChainLoaderSpec.LoadInBackground: the wait before `doLoad()` is not modelled. The loop waits for as long as any reprocessing task is pending, in five-second slices, and after every slice logs a warning if more than five seconds of the thread's CPU time (`currentThreadTimeMillis`) have passed since the wait began. So the model does not capture that `doLoad()` runs only after every pending `onFallbackDelivered` task has finished. Its logging and the `Error`/`RuntimeException` rethrown from `doLoad()` are left out too. Only `doLoad()`'s values and `ChainLoaderException`s are modelled.
- LegacyChainLoader.AsyncChainLoader.PerformLoad: only the first cycle's `registerListener` is modelled faithfully. `onReset` never unregisters, and Android's `registerListener` throws IllegalStateException when a listener is already registered. So a cycle after a reset would throw before `startLoading` and before the phase rises. The model records the registration as an event, and lets that later cycle start the chain and raise the phase.
- ChainLoader.AsyncChainLoader.OnLoadComplete: the branch for Android releases before Honeycomb, which picks another executor, is not modelled. The submitted task is recorded as an event carrying its `RunnableWrapper`. It is not pushed into a `FallbackQueue` object.
- ChainLoader.AsyncChainLoader.RunFallbackTask: reads the task's cancelled flag once. A cancellation that lands between `doInBackground` and its completion callback is not modelled.
- The Android base loader is reduced to its `started`/`reset`/`abandoned` flags and to `startLoading`/`reset`. The work of `forceLoad`, `cancelLoad` and `super.deliverResult` appears only as events.
- `mCreatedLocation` (a stack trace kept for logging): diagnostics only.
- The `FallbackDeliveryExecutorIdlingResource` for Espresso: reflection and threads.
- The parallel-speedup and not-main-thread tests: they assert timing and thread identity.

## Findings

| source | as written | input that shows it | evidently intended | confidence | as-written member | corrected member |
|---|---|---|---|---|---|---|
| library/src/main/java/com/docusign/forklift/FallbackDeliveryExecutor.java:317-323 | `containsAll` starts from false and ORs the answers of `contains` | a collection of two wrappers of which only the first is queued gives true; an empty collection gives false | `Collection.containsAll`: true iff every element is queued, and true for an empty collection | not executed | FallbackDelivery.FallbackQueue.ContainsAllAsWritten | FallbackDelivery.FallbackQueue.ContainsAll |

`FallbackQueueSpec.ContainsAllDiffers` proves both inputs of this row.
