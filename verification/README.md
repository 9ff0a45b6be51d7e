# Queuete scheduler core, modelled in Dafny

Queuete is an in-process work scheduler written in C#. Work items (`QueueItem`) go into lanes (`ItemQueue`), and a processor (`QueueProcessor`) runs them. This project models the sequential bookkeeping at the centre of the scheduler as imperative Dafny classes and proves it correct:

- **Lane queue (`ItemQueue`).** A FIFO of pending items with a `count`, and a set of active items with an `activeCount`.
  - `Enqueue`, `Dequeue`, `Activate` and `Deactivate` update these fields in place.
  - `IsIdle` and `IsAvailable` read them. `IsAvailable` is the admission rule.
  - `MarkWaiting` sets every pending item to `Waiting`.
  - `TryAdmit` is one admission step: dequeue and activate, only when the lane is available.
  - `SubmissionOrder` shows that items come out of a lane in the order they went in.
- **Work item (`QueueItem`).**
  - The initial state, first-call-only binding (`InitializeItem`), and registration of dependents and dependencies.
  - The `State` setter's change detection. The `StateChanged` event is a subscription flag plus a log of the notifications that would be delivered.
  - `Execute`. A throwing action records the error and ends `Errored`, leaving the dependents alone. An action that completes, with no error recorded earlier, ends `Finished` and releases the dependents in registration order: one occurrence of the item leaves each dependent's dependency list, and each dependent whose list becomes empty goes to the processor.
- **Dependency release, as values (`module Dependencies`).**
  - The release loop as a left fold, `ReleaseUpTo`/`Release`. The immutable-list `Remove` is `RemoveFirst`.
  - An independent reference definition, `Freed`, of which dependents are handed on.
  - Lemmas tie the two together.
- **Processor (`QueueProcessor`).**
  - `Enqueue` binds the item to the processor and appends it.
  - Each `Round` of the `Process` loop either takes the head and runs it to completion, or, on an empty queue, resolves the idle signal and arms a fresh one.
  - The loop stops at the first check of the stop flag after `Stop`, and resolves the latest stopped signal only.
  - `Process` runs a schedule of `Step`s. The schedule interleaves rounds with `Enqueue` and `Stop` calls made from outside.

Nothing outside the scheduler is called, so it all becomes inputs or logs:

| In the source | In the model |
|---|---|
| the user action | an `Outcome`: `Completes` or `Throws(message)` |
| the lane's blocking rule | the `blocked` parameter of `IsAvailable` |
| `Dispatch` | runs its action inline |
| `EnsureOnProcessorThread` | does nothing |
| the idle completion source | the `idleSignals` counter |
| the cancellation token of the loop | the `stopRequested` flag |
| the stopped completion source | the `stopSignals` list: one entry per Stop() call, true once its task has completed |

`submitted`, `executed`, `idleMark` and `rounds` are ghost logs of what the processor did: every item enqueued, in order (including dependents released by a finished item); every item dequeued and run, in order; the length of `submitted` at the latest idle signal; and the number of rounds. The classes refer to each other, so they live in the default module. The value types are in `module Types`.

## Model

| member | source | states |
|---|---|---|
| ItemQueue.constructor | Queuete/ItemQueue.cs:19-28 | a new lane has an empty pending queue and no active items, with both counters in step |
| ItemQueue.Count | Queuete/ItemQueue.cs:10 | while the counters are in step, `Count` is the number of pending items |
| ItemQueue.IsIdle | Queuete/ItemQueue.cs:11 | while the counters are in step, the lane is idle exactly when nothing is pending and nothing is active |
| ItemQueue.IsAvailable | Queuete/ItemQueue.cs:12 | availability implies under the cap, something pending and not blocked; with counters in step, it holds exactly when all of that holds and no active item still has dependents |
| ItemQueue.Enqueue | Queuete/ItemQueue.cs:35-41 | the item is appended at the tail, `count` goes up by one, and `count` stays equal to the queue length |
| ItemQueue.Dequeue | Queuete/ItemQueue.cs:43-51 | `count` always goes down by one; a non-empty queue yields its head and keeps the rest in order; an empty queue throws (`None`) and is left as it was; the counters stay in step exactly when the queue was not empty |
| ItemQueue.Activate | Queuete/ItemQueue.cs:53-59 | the item joins the active set and `activeCount` goes up; the counters stay in step exactly when the item was not already active |
| ItemQueue.Deactivate | Queuete/ItemQueue.cs:61-67 | the item leaves the active set and `activeCount` goes down; the counters stay in step exactly when the item was active |
| ItemQueue.MarkWaiting | Queuete/ItemQueue.cs:69-73 | every pending item ends `Waiting`; each logs a notification exactly when its state changed and it has an observer; only those items' states and logs may change |
| ItemQueue.InitializeItem | Queuete/ItemQueue.cs:80-83 | binds the item to this lane and its processor when it was not yet bound, and leaves an earlier binding in place |
| ItemQueue.TryAdmit | Queuete/ItemQueue.cs:43-59 | admits exactly when `IsAvailable` held: the head is dequeued and activated, `count` going down by one; otherwise nothing changes; `activeCount` never exceeds the cap |
| SubmissionOrder | Queuete/ItemQueue.cs:35-51 | items enqueued on an empty lane and then dequeued come out in submission order, with the lane valid and empty afterwards |
| QueueItem.constructor | Queuete/QueueItem.cs:24-43 | a new item is `Pending`, with no error, no dependents, no dependencies, no binding and no observer |
| QueueItem.InitializeItem | Queuete/QueueItem.cs:45-52 | the first call binds the processor and the lane; later calls change neither |
| QueueItem.Subscribe | Queuete/QueueItem.cs:12 | after subscribing, state changes are reported |
| QueueItem.SetState | Queuete/QueueItem.cs:64-82 | the value is always stored; it counts as changed exactly when it differs from the old state, and only then does a subscribed observer get a notification |
| QueueItem.EnqueueDependent | Queuete/QueueItem.cs:54-57 | the dependent is appended at the tail of `dependents`, and nothing else changes |
| QueueItem.AddDependency | Queuete/QueueItem.cs:59-62 | the dependency is appended to `dependencies`, and nothing else changes |
| QueueItem.Execute | Queuete/QueueItem.cs:84-125 | the state passes through `Running`. On a throw, the error is recorded, the item ends `Errored`, and no dependent or processor queue changes. On completion with an earlier error still recorded, the item ends `Errored` and nothing is released. On completion with no earlier error, the item ends `Finished` with `dependents` empty; the processor queue grows by exactly the released dependents, in order; each former dependent's dependencies and binding are as `Release` computes |
| QueueItem.Settle | Queuete/QueueItem.cs:97-124 | the item ends `Errored` when an error is recorded, with nothing released; otherwise it ends `Finished` and releases its dependents as `Release` computes |
| QueueItem.ReleaseDependents | Queuete/QueueItem.cs:105-122 | the dependents list is emptied; then the release runs on the old list: the processor receives exactly `Release`'s handed-on dependents, in order, and each dependent's dependencies and binding match it |
| QueueItem.ReleaseEach | Queuete/QueueItem.cs:110-120 | the loop over the dependents leaves the processor queue, every dependent's dependencies and every dependent's binding exactly as the fold `Release` computes from the dependency lists before the loop |
| QueueItem.ReleaseOne | Queuete/QueueItem.cs:112-119 | one occurrence of this item leaves `d`'s dependencies; `d` goes to the processor, bound and appended, exactly when the list is now empty; otherwise nothing else changes |
| Dependencies.RemoveFirstCounts | Queuete/QueueItem.cs:113 | removal takes out exactly one occurrence of the element when there is one, and nothing else |
| Dependencies.RemoveFirstKeepsOthers | Queuete/QueueItem.cs:113 | removal keeps the count of every other element |
| Dependencies.ReleaseUpTo | Queuete/QueueItem.cs:110-120 | the release fold keeps every entry of the dependency map and hands on at most one item per dependent processed |
| Dependencies.ReleaseLeavesOthersUpTo | Queuete/QueueItem.cs:110-120 | an item outside the processed prefix keeps its dependency list |
| Dependencies.ReleaseLeavesOthers | Queuete/QueueItem.cs:110-120 | an item that is not a dependent keeps its dependency list |
| Dependencies.ReleasedAreFreeUpTo | Queuete/QueueItem.cs:113-119 | over any prefix, only dependents are handed on, each with an empty dependency list |
| Dependencies.ReleasedAreFree | Queuete/QueueItem.cs:113-119 | only dependents are handed on, and each one handed on has no dependencies left |
| Dependencies.FreedUpTo | Queuete/QueueItem.cs:110-120 | the reference selection contains only dependents whose list empties once this item is removed |
| Dependencies.ReleasedOfDistinctUpTo | Queuete/QueueItem.cs:110-120 | with dependents registered once, the fold over a prefix hands on exactly the reference selection, in order |
| Dependencies.ReleaseMapOfDistinctUpTo | Queuete/QueueItem.cs:110-120 | with dependents registered once, each processed dependent loses exactly one occurrence of this item |
| Dependencies.ReleaseOfDistinct | Queuete/QueueItem.cs:110-120 | with dependents registered once, the release hands on exactly the dependents whose list becomes empty, in registration order, and removes one occurrence of this item from each dependent |
| Dependencies.FreedMembershipUpTo | Queuete/QueueItem.cs:113-119 | an item is selected from a prefix exactly when it is in the prefix and its list empties |
| Dependencies.FreedMembership | Queuete/QueueItem.cs:113-119 | a dependent is handed on exactly when this item was its last dependency (both directions) |
| Dependencies.FreedIsDistinctUpTo | Queuete/QueueItem.cs:110-120 | the selection from a prefix of distinct dependents is distinct and drawn from that prefix |
| Dependencies.FreedIsDistinct | Queuete/QueueItem.cs:110-120 | with dependents registered once, no dependent is handed to the processor twice |
| Dependencies.ReleaseKeepsOtherDependenciesUpTo | Queuete/QueueItem.cs:113 | over any prefix, each dependency other than this item keeps its multiplicity |
| Dependencies.ReleaseKeepsOtherDependencies | Queuete/QueueItem.cs:113-119 | a dependent still waiting on other items keeps every one of them, as many times as listed |
| ExitIndex | Queuete/QueueProcessor.cs:52 | the loop exits at a round step, the first that finds a stop requested (pending at the start or from a Stop() call earlier in the schedule); every round before it finds none |
| RoundCount | Queuete/QueueProcessor.cs:52-78 | the rounds in a schedule are at most its length, and equal to it exactly when every step is a round |
| StopCount | Queuete/QueueProcessor.cs:36-43 | the Stop() calls in a schedule are at most its length, and none exactly when the schedule holds no Stop() call |
| Arrivals | Queuete/QueueProcessor.cs:20-28 | the items enqueued from outside: each comes from an Enqueue() call in the schedule, and every such call is represented |
| ArrivalsInOrder | Queuete/QueueProcessor.cs:20-28 | the arrivals keep call order: those of any prefix of the schedule are a prefix of those of the whole schedule |
| IdleLogGrows | Queuete/QueueProcessor.cs:67-73 | one step keeps the idle log: the items run only grow, and an idle round logged at step `i` has run every item that arrived before it |
| RunBeforeIdle | Queuete/QueueProcessor.cs:57 | when a round finds the queue empty, every item that has arrived has run |
| Unresolved | Queuete/QueueProcessor.cs:38 | `n` Stop() calls arm `n` signals, none of them resolved |
| ResolveLast | Queuete/QueueProcessor.cs:81 | the loop's exit resolves the latest stopped signal and leaves every earlier one as it was |
| QueueProcessor.constructor | Queuete/QueueProcessor.cs:14-18 | a new processor has an empty queue and empty logs, no stop request, no stopped signal and no idle signal yet |
| QueueProcessor.Enqueue | Queuete/QueueProcessor.cs:20-28 | the item is bound to this processor and appended at the tail of the queue and of the submission log; earlier entries are unchanged |
| QueueProcessor.Stop | Queuete/QueueProcessor.cs:36-43 | the stop flag is set and one more, unresolved, stopped signal is armed; earlier signals stay as they were |
| QueueProcessor.HeadSettledKeepsInvariants | Queuete/QueueProcessor.cs:57-66 | a busy round keeps "run, then waiting, equals enqueued", keeps every queued item bound to the processor and keeps the queue within the known items |
| QueueProcessor.Round | Queuete/QueueProcessor.cs:54-77 | an empty queue resolves one idle signal, marks everything enqueued so far, and changes no item; otherwise exactly the head is removed and run to completion (`Errored` on a throw or when an earlier error is recorded, `Finished` otherwise), its released dependents are appended, and every other item is left unchanged except for the dependents' lists and bindings, which are as `Release` computes; the invariants are kept |
| QueueProcessor.RunHead | Queuete/QueueProcessor.cs:57-66 | the head is dequeued, logged as executed and run to completion; the queue becomes the rest followed by the dependents that a successful run releases; items other than the head and its dependents are unchanged |
| QueueProcessor.Dequeue | Queuete/QueueProcessor.cs:57-60 | the head comes off the queue, the rest stays in order, and the head is logged as executed |
| QueueProcessor.Perform | Queuete/QueueProcessor.cs:20-43 | a round does what `Round` states; an Enqueue() call appends exactly its item to the queue and the submission log and changes nothing else; a Stop() call sets the flag and arms one signal and changes nothing else |
| QueueProcessor.RunSteps | Queuete/QueueProcessor.cs:52-78 | the loop performs exactly the steps before `ExitIndex`; by then the arrivals are in the submission log in call order, each Stop() call has armed a signal, each round is counted, and an idle signal marks everything enqueued before the loop started; the idle log lists, in increasing order, one round step per idle signal, and every item that arrived before such a step has run |
| QueueProcessor.Process | Queuete/QueueProcessor.cs:50-82 | items run in enqueue order, including items enqueued while the loop runs (`executed + queue == submitted`, with the arrivals in call order); everything enqueued before the latest idle signal has run; each idle signal comes at a round step, listed in order, and every item that arrived before that step, even while the loop ran, has run; the queue stays within the known items, so loops can be chained; the loop runs exactly the rounds before its exit; on exit only the latest stopped signal is resolved |
| RunOneItem | Queuete.Tests/QueueProcessorTests.cs:13-25 | with the loop started first, and its first round finding the queue empty or not, the item enqueued on a fresh processor has run and finished when the awaited idle signal resolves |
| RunOneItemUntilIdle | Queuete.Tests/QueueProcessorTests.cs:13-25 | under any schedule of rounds and Stop() calls after the enqueue, the awaited idle signal resolves only after the item has run |
| EnqueueDuringLoop | Queuete.Tests/QueueProcessorTests.cs:13-25 | the test's Start-then-Enqueue order run wholly by the loop (an idle round, the enqueue, two rounds): any idle signal after the first comes only once the item has run |
| StopTwice | Queuete/QueueProcessor.cs:36-43 | two Stop() calls before the loop's next check arm two signals, and the exit resolves only the second: the task the first call returned never completes |
| Dependencies.RemoveFirst | Queuete/QueueItem.cs:113 | removing an element that occurs shortens the list by one; removing one that does not occur leaves the list as it was |
| Dependencies.Release | Queuete/QueueItem.cs:110-120 | the release keeps an entry for every item in the dependency map and hands on at most one item per dependent |

## Left out

- Threads and locks are not modelled: the `lock`, the `AutoResetEvent`, `WaitHandle.WaitAny`, `Task.Run` and `Interlocked`. The model is sequential. `Interlocked.CompareExchange` becomes a plain read and write.
- `async`/`await` and the `TaskCompletionSource` futures are not modelled. `Start`, `WaitForIdle`, the `Task` returned by `Stop` and the `completionSource` inside `Execute` are replaced by the `idleSignals` counter and the `stopSignals` list.
- Cancellation tokens are reduced to the `stopRequested` flag. Not modelled:
  - `ItemQueue.Cancel`, `ItemQueue.NotifyStopped` and `QueueItem.CancellationToken`;
  - the continuation that replaces the processor's token once a stopped signal resolves (`Queuete/QueueProcessor.cs:39`), so in the model the stop flag stays set after the loop exits.
- The user action is not modelled. Only its outcome is: completes, or throws with a message.
- `StateChanged` is delivered on background tasks in the source. The model appends each notification to a log, in the order the changes happen, so it does not capture the delivery order.
- The lane's blocking rule (`IsBlocked`) comes in as a boolean.
- `Dispatch` runs inline, so the processor's inbox is not modelled. `EnsureOnProcessorThread` has no effect.
- `QueueStopReason`, `ToString` and the lane label have no logic and are not modelled.
- ItemQueue.Enqueue: `count` and `activeCount` are unbounded integers, so 32-bit overflow after 2^31 - 1 items is not modelled. The same holds for `Dequeue`, `Activate` and `Deactivate`.
- QueueProcessor.Process: a schedule of `Step`s replaces the wake-ups of the wait handle. Calls made while an item is running are modelled as arriving between rounds.
- QueueProcessor.Round: each round is atomic. In the source a round can find the queue empty (`Queuete/QueueProcessor.cs:57`) and resolve the idle signal (:71) only after an `Enqueue` and a `WaitForIdle` made in between (`Queuete.Tests/QueueProcessorTests.cs:21-22`), so the awaited task resolves before the item has run. That interleaving is not modelled: `RunOneItem` and `RunOneItemUntilIdle` let that first round happen either wholly before the enqueue or not at all.
- QueueItem.EnqueueDependent: requires the item to be bound to a processor. In the source an unbound item throws a NullReferenceException from `processor.Dispatch` (`Queuete/QueueItem.cs:56`); that error path is not modelled.
- QueueItem.AddDependency: requires the item to be bound to a processor. The source throws from `processor.Dispatch` (`Queuete/QueueItem.cs:61`) otherwise; not modelled.
- QueueItem.Execute: requires the item to be bound to a processor. In the source an unbound item that completes with no error reaches `Finished` and then throws from `processor.Dispatch` (`Queuete/QueueItem.cs:105`); that path is not modelled. Items run by the processor are always bound, by `QueueProcessor.Enqueue`.
- QueueProcessor.Process: the steps after the loop's exit are not performed. An `Enqueue` made after the exit still appends to the queue in the source, but no round ever takes that item.
- Dependencies.Release: its own contract only bounds the result. What it hands on and what it leaves in each list is stated by `Dependencies.ReleaseOfDistinct`, `Dependencies.FreedMembership`, `Dependencies.ReleasedAreFree` and `Dependencies.ReleaseKeepsOtherDependencies`, and for dependents registered twice by `QueueItem.ReleaseEach` against the fold itself.
- The lane descriptor's cap is taken as given. The code's constructor accepts any value, including zero or a negative one, and the model follows the code rather than a "cap of at least one" rule.
- The model follows the single-FIFO processor shown in `Queuete/QueueProcessor.cs`. A multi-lane processor is not part of this model: scanning every lane per round, admitting through `ItemQueue`, and deactivating on completion. So the lanes are checked on their own, through `TryAdmit`. `IsIdle` is not connected to the processor's idle signal.
