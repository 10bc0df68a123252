# GlobalDispatchTimer in Dafny

A model of the scheduling engine of GlobalDispatchTimer, a dispatcher for Unity that runs once per frame and holds deferred jobs. The model covers six pieces:

- **The heap.** Callers push `TimerJob`s: plain one-shot jobs, `IntervalTask`s that reschedule themselves, `ExpirableIntervalTask`s that also queue their own `Dispose`, and `GroupTask`s that run a list of delegates. Jobs wait in a binary min-heap, `PriorityQueue<T>`. It orders entries by due time, and an insertion id breaks ties.
- **The per-frame update.** On every `LateUpdate`, the dispatcher first cancels the jobs bound to game objects that have been destroyed. Then it runs every job that has come due, in queue order. It catches each job's exception and always takes the job out of the queue afterwards.
- **Destroy triggers.** A `DestroyTrigger` component gives each game object a unique key and a liveness flag.
- **Jobs and payloads.** A job is a record in a table (`JobStores.JobStore`), and a reference to a job is its index there. A delegate is `Null`, caller code that leaves an id in a trace and may throw, or the `Dispose` of a job.
- **Time.** Time is whole ticks. Each call receives the clock as a parameter `now`, plus the wall clock `wallNow` where the source reads `DateTime.Now`.
- **Conditions.** An `IntervalTask`'s repeat condition is a number. The function `conds`, given per tick, answers for it.

Modules follow the source files:

| module | file | source |
|---|---|---|
| `Utils` | `utils.dfy` | `Utils/Utils.cs` |
| `PriorityQueues` | `priority_queue.dfy` | `PriorityQueue.cs` (class `PriorityQueue` over an `array<Entry>`) |
| `TimerJobs` | `timer_job.dfy` | `TimerJob.cs` |
| `GroupTasks` | `group_task.dfy` | `GroupTask.cs` |
| `IntervalTasks` | `interval_task.dfy` | `IntervalTask.cs`, `ExpirableIntervalTask.cs` |
| `JobStores` | `job_store.dfy` | the job objects, updated in place |
| `DestroyTriggers` | `destroy_trigger.dfy` | `DestroyTrigger.cs` |
| `DispatchTime` | `dispatch_time.dfy` | the clock arithmetic of `GlobalDispatchTimer.cs` |
| `GlobalDispatch` | `dispatcher.dfy` | `GlobalDispatchTimer.cs` (class `GlobalDispatchTimer`) |

## Four behaviours the code has

The model does what the code does in four places where a reader might expect something else.

1. **A rescheduled interval job is dequeued correctly.** `LateUpdate` calls `Execute` on the root job while the root entry is still in the queue, and only then calls `Dequeue`. An interval task moves its own due time and queues itself again from inside `Execute`.
   - `PriorityQueue.SetRootDue` models the due-time change of the stored root.
   - The new entry ties the root on time and carries a larger id, so it cannot climb above the root. `PriorityQueue.Enqueue` with `lo == 3` proves this.
   - `Dequeue` then removes the old entry: see `FinishRoot` and `RunRoot`.
   - The dispatcher invariant `Valid` includes `Mirrors`: every queued entry carries its job's current due time, and no job is queued twice. So exactly one entry is left for the job.
2. **A frame's walk removes at most one destroyed trigger.** `CheckDestroyedGameObject` removes the first destroyed trigger from its `LinkedList`. .NET clears the removed node's links, so the following `ptr = ptr.Next` ends the walk.
   - `WalkKept` and `WalkKeys` state this, and `CheckDestroyedGameObject` and `LateUpdate` are proved against them.
   - `SweepOfOneDead` shows the walk agrees with a full sweep when at most one trigger is destroyed.
   - `WalkLeavesSecondDestroyed` gives two destroyed triggers: the walk leaves the second one, and the job bound to it, for a later frame.
3. **`startImmediatly == false` ignores the delay.** The first run is at `now + interval`, as `NewIntervalTask` states. The doc comment at `IntervalTask.cs:28-29` says "delay + interval". The model follows the code.
4. **`RemoveAt` always sifts down from the root.** So `PriorityQueue.Remove` restores the heap only when it removes the root, and its contract promises only that.

Validation uses the strict policy: `GlobalDispatchTimer.cs:2` defines `__DISALLOW_PAST_TASK_ENQUEUE`. A negative delay is refused, and an instant must lie strictly after `wallNow`.

## Model

| member | source | states |
|---|---|---|
| Utils.SafetyAdd | Assets/Scripts/Utils/Utils.cs:10-16 | an absent key is added with the value; a present key keeps its old value; no other key changes |
| Utils.CompareNumbers | Assets/Scripts/TimerJob.cs:59-62 | the result is -1, 0 or 1, and negative/zero exactly when x < y / x == y |
| TimerJobs.NewTimerJob | Assets/Scripts/TimerJob.cs:43-49 | a new job is active, due at the given ticks, and holds the action |
| TimerJobs.MarkDisposed | Assets/Scripts/TimerJob.cs:54-57 | the job becomes deactivated and nothing else about it changes |
| TimerJobs.MarkDisposedIdempotent | Assets/Scripts/TimerJob.cs:54-57 | marking twice equals marking once; a deactivated job is a fixed point |
| TimerJobs.Dispose | Assets/Scripts/TimerJob.cs:84-89 | same state effect as MarkDisposed |
| TimerJobs.CompareTo | Assets/Scripts/TimerJob.cs:59-62 | the sign depends only on the two due times |
| TimerJobs.Invoke | Assets/Scripts/Utils/Utils.cs:18-22 | a null delegate does nothing; caller code is recorded once and throws as flagged; a `Dispose` delegate deactivates its job; only flags go up |
| TimerJobs.DisposeNullChk | Assets/Scripts/Utils/Utils.cs:48-52 | a null reference leaves the world unchanged; otherwise that job is marked disposed |
| TimerJobs.ExecutePlain | Assets/Scripts/TimerJob.cs:95-99 | a deactivated job runs nothing; an active one runs its action exactly once |
| GroupTasks.NewGroupTask | Assets/Scripts/GroupTask.cs:14-17 | an active group due at the given ticks whose list is the given tasks in order |
| GroupTasks.AddTask | Assets/Scripts/GroupTask.cs:25-28 | the list grows by one at the end; earlier entries are unchanged |
| GroupTasks.FirstIndex | Assets/Scripts/GroupTask.cs:32 | -1 exactly when absent; otherwise the index of the first equal entry |
| GroupTasks.RemoveTask | Assets/Scripts/GroupTask.cs:30-33 | an absent task leaves the list unchanged; otherwise only the first equal entry is dropped |
| GroupTasks.IndexOf | Assets/Scripts/GroupTask.cs:35-38 | returns the first index of an equal task, or -1 when absent; a null entry reached first throws (None), in both directions |
| GroupTasks.RunAllSnoc | Assets/Scripts/GroupTask.cs:19-23 | running one more task after a pass that did not throw |
| GroupTasks.RunAllStopsAtThrow | Assets/Scripts/GroupTask.cs:19-23 | after a task throws, no later task runs |
| GroupTasks.RunAllTrace | Assets/Scripts/GroupTask.cs:19-23 | with no throwing task, each task runs once in list order, null entries skipped |
| GroupTasks.ExecuteGroup | Assets/Scripts/GroupTask.cs:40-44 | a deactivated group runs no task; an active group runs its whole list |
| IntervalTasks.CheckCondition | Assets/Scripts/IntervalTask.cs:42 | a null condition is always true; otherwise the condition's answer at this call |
| IntervalTasks.NewIntervalTask | Assets/Scripts/IntervalTask.cs:38-50 | active; first due time `now + delay` when starting immediately, else `now + interval` |
| IntervalTasks.SetInterval | Assets/Scripts/IntervalTask.cs:52-55 | the next due time is one interval after `now`; the flag and the interval are unchanged |
| IntervalTasks.ExecuteInterval | Assets/Scripts/IntervalTask.cs:57-71 | flags only go up; kinds (hence intervals) never change; only this job's due time moves, to `now + interval`, and only when it asks to be queued again while still active |
| IntervalTasks.DisposedIntervalEnds | Assets/Scripts/IntervalTask.cs:59-70 | a deactivated task skips payload and condition, runs its end task once, and is not queued again |
| IntervalTasks.IntervalRepushIff | Assets/Scripts/IntervalTask.cs:61-66 | queued again exactly when the payload did not throw, the job is still active, and the condition holds |
| IntervalTasks.IntervalRunsThenRepeatsOrEnds | Assets/Scripts/IntervalTask.cs:57-71 | condition true: payload once, rescheduled, no end task; condition false: payload then end task, not rescheduled |
| IntervalTasks.IntervalThrowSkipsEndTask | Assets/Scripts/IntervalTask.cs:59 | an exception from the payload skips condition, rescheduling and end task |
| IntervalTasks.IntervalRunsKPlusOne | Assets/Scripts/IntervalTask.cs:57-71 | a condition true k times and then false: the payload runs k+1 times, then the end task once, then no rescheduling |
| IntervalTasks.ExpiryEndsInterval | Assets/Scripts/ExpirableIntervalTask.cs:11-15 | after the expiry job's `Dispose` has run, the next `Execute` runs the end task and ends |
| IntervalTasks.SelfDisposeEndsAtOnce | Assets/Scripts/IntervalTask.cs:59-61 | a payload that disposes its own job ends the repetition in the same call |
| JobStores.ExecuteJob | Assets/Scripts/TimerJob.cs:95-99 | the virtual `Execute` keeps the frame of `ExecuteInterval` for every class |
| JobStores.ExecuteJobCases | Assets/Scripts/TimerJob.cs:95-99 | dispatch on the class; only an interval task can ask to be queued again |
| JobStores.DeactivatedJobRunsNothing | Assets/Scripts/TimerJob.cs:97 | a cancelled job never asks to be queued again; a plain or group job leaves the world unchanged |
| JobStores.JobStore.Add | Assets/Scripts/GlobalDispatchTimer.cs:186 | `new TimerJob(...)`: the new job is appended under a fresh reference, the next index; earlier jobs and the trace are unchanged |
| JobStores.JobStore.MarkDisposed | Assets/Scripts/TimerJob.cs:54-57 | in place: only job `h` changes, to its marked copy |
| JobStores.JobStore.Dispose | Assets/Scripts/TimerJob.cs:84-89 | in place: the state becomes `DisposeAt` of the old state |
| JobStores.JobStore.DisposeNullChk | Assets/Scripts/Utils/Utils.cs:48-52 | in place: agrees with the function `DisposeNullChk` |
| JobStores.JobStore.AddTask | Assets/Scripts/GroupTask.cs:25-28 | in place: the group's list becomes `AddTask` of the old list |
| JobStores.JobStore.RemoveTask | Assets/Scripts/GroupTask.cs:30-33 | in place: the group's list becomes `RemoveTask` of the old list |
| JobStores.JobStore.Invoke | Assets/Scripts/Utils/Utils.cs:18-22 | in place: agrees with the function `Invoke` |
| JobStores.JobStore.ExecuteInternal | Assets/Scripts/GroupTask.cs:19-23 | the `foreach` loop agrees with `RunAll`, including leaving at an exception |
| JobStores.JobStore.Execute | Assets/Scripts/IntervalTask.cs:57-71 | in place: state, re-push request and exception all agree with `ExecuteJob` |
| DestroyTriggers.KeyIssuer.constructor | Assets/Scripts/DestroyTrigger.cs:14 | the counter starts at `long.MinValue` |
| DestroyTriggers.DestroyTrigger.Awake | Assets/Scripts/DestroyTrigger.cs:23-28 | the key is the incremented counter, larger than every earlier key; the trigger starts activated |
| DestroyTriggers.DestroyTrigger.OnEnable | Assets/Scripts/DestroyTrigger.cs:30-33 | sets managed; the flag (and the constant key) are unchanged |
| DestroyTriggers.DestroyTrigger.OnDisable | Assets/Scripts/DestroyTrigger.cs:35-39 | still active exactly when it was active and had been enabled |
| DestroyTriggers.DestroyTrigger.OnDestroy | Assets/Scripts/DestroyTrigger.cs:41-44 | deactivated |
| DispatchTime.NormalizeTime | Assets/Scripts/GlobalDispatchTimer.cs:136-139 | the result lies exactly `delay` after `now` |
| DispatchTime.NormalizeInstant | Assets/Scripts/GlobalDispatchTimer.cs:146-150 | keeps the instant's distance from the wall clock |
| DispatchTime.ValidateDelay | Assets/Scripts/GlobalDispatchTimer.cs:363-375 | accepted exactly when the delay is not negative (zero is accepted) |
| DispatchTime.ValidateInstant | Assets/Scripts/GlobalDispatchTimer.cs:351-361 | accepted exactly when strictly after the wall clock |
| DispatchTime.AcceptedInstantIsAcceptedDelay | Assets/Scripts/GlobalDispatchTimer.cs:208-215 | an accepted instant passes the delay check it forwards to, and lands where `NormalizeInstant` puts it |
| PriorityQueues.CompareTo | Assets/Scripts/PriorityQueue.cs:171-177 | negative/positive/zero exactly as `Before` by due time then id |
| PriorityQueues.BeforeIsStrictTotalOrder | Assets/Scripts/PriorityQueue.cs:171-177 | irreflexive, asymmetric, transitive, and total on distinct ids |
| PriorityQueues.Parent | Assets/Scripts/PriorityQueue.cs:46-48 | truncating `(i - 1) / 2`: slot 0 is its own parent; otherwise a smaller slot with `i` as a child |
| PriorityQueues.NotBeforeRoot | Assets/Scripts/PriorityQueue.cs:91 | in a heap no slot comes before the root |
| PriorityQueues.HeapRootIsMinimal | Assets/Scripts/PriorityQueue.cs:83-92 | the root is minimal; among equal due times it has the smallest, earliest id |
| PriorityQueues.IndexOfJob | Assets/Scripts/PriorityQueue.cs:154-161 | -1 exactly when no slot holds the job; otherwise the first slot holding it |
| PriorityQueues.RemoveSlotMultiset | Assets/Scripts/PriorityQueue.cs:100-101 | moving the last slot into `i` drops exactly that entry from the multiset |
| PriorityQueues.SiftUpStep | Assets/Scripts/PriorityQueue.cs:50-55 | one swap with the parent keeps the sift-up invariant one level up |
| PriorityQueues.SiftDownStep | Assets/Scripts/PriorityQueue.cs:68-77 | one swap with the higher-priority child keeps the sift-down invariant one level down |
| PriorityQueues.AddFreshId | Assets/Scripts/PriorityQueue.cs:141 | an entry under the next id keeps ids distinct; it is larger than every earlier id |
| PriorityQueues.PriorityQueue.constructor | Assets/Scripts/PriorityQueue.cs:31-35 | an empty heap with the given capacity |
| PriorityQueues.PriorityQueue.Count | Assets/Scripts/PriorityQueue.cs:81 | the number of stored entries |
| PriorityQueues.PriorityQueue.IsHigherPriority | Assets/Scripts/PriorityQueue.cs:37-40 | true exactly when the left slot's entry comes before the right slot's by due time, then id |
| PriorityQueues.PriorityQueue.Swap | Assets/Scripts/PriorityQueue.cs:52-54 | exchanges two slots and keeps the multiset |
| PriorityQueues.PriorityQueue.Percolate | Assets/Scripts/PriorityQueue.cs:42-57 | keeps the multiset; restores the heap above a slot that may be too small; leaves the root alone when the entry is not before it |
| PriorityQueues.PriorityQueue.Heapify | Assets/Scripts/PriorityQueue.cs:59-79 | keeps the multiset; restores the heap below a slot that may be too large |
| PriorityQueues.PriorityQueue.Peek | Assets/Scripts/PriorityQueue.cs:83-92 | empty gives null and changes nothing; otherwise the root, which no entry precedes |
| PriorityQueues.PriorityQueue.RemoveAt | Assets/Scripts/PriorityQueue.cs:94-111 | removes exactly slot `index`'s entry; the heap is restored when `index` is 0 |
| PriorityQueues.PriorityQueue.MoveLastInto | Assets/Scripts/PriorityQueue.cs:100-101 | the last entry overwrites slot `index`, and the size drops by one |
| PriorityQueues.PriorityQueue.Clear | Assets/Scripts/PriorityQueue.cs:113-121 | empty, same capacity, id counter kept |
| PriorityQueues.PriorityQueue.Dequeue | Assets/Scripts/PriorityQueue.cs:123-128 | returns the old root, a minimal entry, removes only it, keeps the heap |
| PriorityQueues.PriorityQueue.Grow | Assets/Scripts/PriorityQueue.cs:132-137 | a fresh array of twice the length holding the same entries |
| PriorityQueues.PriorityQueue.Insert | Assets/Scripts/PriorityQueue.cs:139-148 | adds exactly the new entry under the next id and restores the heap |
| PriorityQueues.PriorityQueue.Place | Assets/Scripts/PriorityQueue.cs:139-141 | appends the entry under the next id at the end |
| PriorityQueues.PriorityQueue.Enqueue | Assets/Scripts/PriorityQueue.cs:130-149 | adds exactly one entry under the next id, doubling a full array; restores the heap, and with `lo == 3` the root stays the root |
| PriorityQueues.PriorityQueue.SetRootDue | Assets/Scripts/IntervalTask.cs:52-55 | the stored root takes the job's new due time; the rest of the heap is untouched |
| PriorityQueues.PriorityQueue.RescheduleRoot | Assets/Scripts/IntervalTask.cs:64-65 | the root's due time moves and the job is queued again under a fresh id, below the still-root entry |
| PriorityQueues.PriorityQueue.Remove | Assets/Scripts/PriorityQueue.cs:152-164 | true exactly when some slot holds the job; then only the first such entry is removed; false changes nothing |
| GlobalDispatch.MirrorsKeep | Assets/Scripts/GlobalDispatchTimer.cs:436-453 | cancelling jobs leaves the queue a mirror of the table |
| GlobalDispatch.MirrorsAfterRun | Assets/Scripts/GlobalDispatchTimer.cs:591 | after the root job runs, the rest of the queue still mirrors the table |
| GlobalDispatch.RequeueMirrors | Assets/Scripts/IntervalTask.cs:64-65 | the queue without the root, plus the re-pushed entry, mirrors the table; the new entry is due after `now` |
| GlobalDispatch.TriggersAgreeRegister | Assets/Scripts/GlobalDispatchTimer.cs:391-400 | registering keeps "map keys are the list's keys, no trigger twice" for both branches |
| GlobalDispatch.TriggersAgreeUnwatch | Assets/Scripts/GlobalDispatchTimer.cs:430-452 | dropping one trigger from the list and its key from the map keeps the agreement |
| GlobalDispatch.TriggersAgreeWalk | Assets/Scripts/GlobalDispatchTimer.cs:416-453 | one frame's walk keeps the agreement |
| GlobalDispatch.FirstInactive | Assets/Scripts/GlobalDispatchTimer.cs:416-434 | -1 exactly when all triggers are active; otherwise the first destroyed one |
| GlobalDispatch.WalkKept | Assets/Scripts/GlobalDispatchTimer.cs:416-434 | the list without its first destroyed trigger, order kept; unchanged when none is destroyed |
| GlobalDispatch.WalkKeys | Assets/Scripts/GlobalDispatchTimer.cs:416-434 | at most one marked key, and none exactly when all triggers are active |
| GlobalDispatch.SweepOfActive | Assets/Scripts/GlobalDispatchTimer.cs:416-434 | with all triggers alive, the full sweep keeps all and marks none |
| GlobalDispatch.SweepOfOneDead | Assets/Scripts/GlobalDispatchTimer.cs:416-434 | with one destroyed trigger, the walk and the full sweep agree |
| GlobalDispatch.WalkLeavesSecondDestroyed | Assets/Scripts/GlobalDispatchTimer.cs:430-433 | with two destroyed triggers, the walk removes only the first and leaves the second trigger's job active |
| GlobalDispatch.Without | Assets/Scripts/GlobalDispatchTimer.cs:452 | the marked keys are gone; all other entries are kept |
| GlobalDispatch.DisposeAll | Assets/Scripts/GlobalDispatchTimer.cs:443-450 | exactly the doomed jobs are marked disposed; due times and classes are unchanged |
| GlobalDispatch.DrainStep | Assets/Scripts/GlobalDispatchTimer.cs:578-601 | one turn keeps the drain bookkeeping (run entries are due, in queue order, from the start queue) and removes one due entry |
| GlobalDispatch.DrainDone | Assets/Scripts/GlobalDispatchTimer.cs:578-583 | at loop exit the run entries are exactly the due part of the start queue; the rest is still queued |
| GlobalDispatch.ChainSnoc | Assets/Scripts/GlobalDispatchTimer.cs:591 | running one more job extends the chain of tables |
| GlobalDispatch.ChainIsReplay | Assets/Scripts/GlobalDispatchTimer.cs:585-601 | the table after the loop is the in-order replay of the run jobs, exceptions ignored |
| GlobalDispatch.GlobalDispatchTimer.Awake | Assets/Scripts/GlobalDispatchTimer.cs:114-129 | empty queue and registries, initialised and running |
| GlobalDispatch.GlobalDispatchTimer.NewJob | Assets/Scripts/GlobalDispatchTimer.cs:186 | a new job under the next reference, not queued; the invariant holds |
| GlobalDispatch.GlobalDispatchTimer.EnqueueJob | Assets/Scripts/GlobalDispatchTimer.cs:187 | one entry for the job, at its own due time under the next id, joins the queue; the invariant holds |
| GlobalDispatch.GlobalDispatchTimer.PushJob | Assets/Scripts/GlobalDispatchTimer.cs:169-172 | a new active job due now is queued |
| GlobalDispatch.GlobalDispatchTimer.PushTimerJob | Assets/Scripts/GlobalDispatchTimer.cs:181-189 | a negative delay gives null and changes nothing; otherwise a new job due `now + delay` is queued and returned |
| GlobalDispatch.GlobalDispatchTimer.PushTimerJobAt | Assets/Scripts/GlobalDispatchTimer.cs:208-215 | an instant not after the wall clock gives null; otherwise a new job at the normalised instant is queued |
| GlobalDispatch.GlobalDispatchTimer.RegisterTrigger | Assets/Scripts/GlobalDispatchTimer.cs:377-403 | a new key appends the trigger and maps the key to `[h]`; a known key only appends `h` to its list; other keys untouched |
| GlobalDispatch.GlobalDispatchTimer.PushBoundTimerJob | Assets/Scripts/GlobalDispatchTimer.cs:225-257 | a bad delay or a null object gives null and changes nothing; otherwise the new job due `now + delay` is queued and bound as `RegisterTrigger` binds it: the key's list gains the job (a new key also joins the watch list), every other key's list is unchanged |
| GlobalDispatch.GlobalDispatchTimer.PushBoundTimerJobAt | Assets/Scripts/GlobalDispatchTimer.cs:280-287 | an instant not after the wall clock or a null object gives null and changes nothing; otherwise the new job at the normalised instant is queued and bound as `RegisterTrigger` binds it, other keys unchanged |
| GlobalDispatch.GlobalDispatchTimer.PushExistingJob | Assets/Scripts/GlobalDispatchTimer.cs:294-303 | null is ignored; otherwise the job is queued at its own due time |
| GlobalDispatch.GlobalDispatchTimer.PushExistingBoundJob | Assets/Scripts/GlobalDispatchTimer.cs:312-341 | a null job or object changes nothing; otherwise the job is queued at its own due time and bound as `RegisterTrigger` binds it, other keys unchanged |
| GlobalDispatch.GlobalDispatchTimer.NewExpirableIntervalTask | Assets/Scripts/ExpirableIntervalTask.cs:11-15 | the interval task is created as `NewIntervalTask`; exactly one extra job (its `Dispose`, due `now + expire`) is queued, and none when `expire < 0` |
| GlobalDispatch.GlobalDispatchTimer.DisposeBound | Assets/Scripts/GlobalDispatchTimer.cs:443-450 | exactly the listed jobs are marked disposed |
| GlobalDispatch.GlobalDispatchTimer.DisposeMarked | Assets/Scripts/GlobalDispatchTimer.cs:436-453 | the jobs bound to the marked keys are marked disposed and those keys leave the map |
| GlobalDispatch.GlobalDispatchTimer.WalkTriggers | Assets/Scripts/GlobalDispatchTimer.cs:416-434 | the linked-list walk: the result is `WalkKeys` and the list becomes `WalkKept` |
| GlobalDispatch.GlobalDispatchTimer.CheckDestroyedGameObject | Assets/Scripts/GlobalDispatchTimer.cs:408-456 | list, map and table after one walk: the first destroyed trigger and its jobs are cancelled; the invariant holds |
| GlobalDispatch.GlobalDispatchTimer.Stop | Assets/Scripts/GlobalDispatchTimer.cs:514-517 | not running; nothing else changes |
| GlobalDispatch.GlobalDispatchTimer.Resume | Assets/Scripts/GlobalDispatchTimer.cs:522-525 | running; nothing else changes |
| GlobalDispatch.GlobalDispatchTimer.Reset | Assets/Scripts/GlobalDispatchTimer.cs:530-535 | empty queue and registries; the running and initialised flags are unchanged |
| GlobalDispatch.GlobalDispatchTimer.Count | Assets/Scripts/GlobalDispatchTimer.cs:541-544 | the number of queued entries, cancelled ones included |
| GlobalDispatch.GlobalDispatchTimer.Status | Assets/Scripts/GlobalDispatchTimer.cs:550-555 | UNINITIALIZED / RUNNING / STOP, each exactly in its case |
| GlobalDispatch.GlobalDispatchTimer.LateUpdate | Assets/Scripts/GlobalDispatchTimer.cs:568-603 | stopped or destroyed: nothing changes. Otherwise the one-trigger walk runs first. Then every entry due at `now` runs, in queue order. Nothing due remains and nothing not due is lost. The table is the replay on the swept table. `asked[i]` is the re-push run `i` requested. The new queue plus the run entries is the old queue plus exactly those requests, under the next fresh ids |
| GlobalDispatch.GlobalDispatchTimer.OnDestroy | Assets/Scripts/GlobalDispatchTimer.cs:605-614 | everything cleared; destroyed, not initialised, not running |
| GlobalDispatch.GlobalDispatchTimer.RunDueJobs | Assets/Scripts/GlobalDispatchTimer.cs:578-602 | the drain loop: exactly the due entries run, each once, in queue order, and the table is their replay. `asked[i]` is what run `i` asked on its table `ws[i]`. The queue afterwards plus the run entries equals the queue before plus `Requeues`: one fresh-id entry per request, at the requested time. `lastId` grows by the number of requests |
| GlobalDispatch.GlobalDispatchTimer.DrainDue | Assets/Scripts/GlobalDispatchTimer.cs:578-602 | the `while` loop itself: it ends with nothing due queued. It keeps the drain bookkeeping, the chain of tables and the record of each run's request and the entries it added |
| GlobalDispatch.GlobalDispatchTimer.DrainFinished | Assets/Scripts/GlobalDispatchTimer.cs:578-583 | at loop exit the run entries are the due part of the start queue, in order. The table is their replay. The new queue plus the run entries is the start queue plus the entries the runs' requests put back |
| GlobalDispatch.RepushOfStep | Assets/Scripts/IntervalTask.cs:60-65 | a run asks to be queued again exactly when `ExecuteJob` re-pushes, at the job's new due time |
| GlobalDispatch.RequeueCases | Assets/Scripts/PriorityQueue.cs:130-143 | a granted request adds one entry at the asked time under the next id. Without a request nothing is added |
| GlobalDispatch.RequeuesFrom | Assets/Scripts/GlobalDispatchTimer.cs:585-601 | every entry a drain put back has a fresh id, past the start `lastId` and at most the number of requests past it. It belongs to a run that asked for exactly its due time |
| GlobalDispatch.RequeuesAll | Assets/Scripts/GlobalDispatchTimer.cs:585-601 | every run that asked to be queued again has its entry, for its job, at the time it asked |
| GlobalDispatch.RequeuesSnoc | Assets/Scripts/GlobalDispatchTimer.cs:585-601 | one more turn adds its own request, under the id after those the earlier turns used |
| GlobalDispatch.RequestsSnoc | Assets/Scripts/GlobalDispatchTimer.cs:585-592 | one more run on the last table adds its own request to the record |
| GlobalDispatch.SameJobSameEntry | Assets/Scripts/GlobalDispatchTimer.cs:585-601 | a queue that mirrors the table holds at most one entry per job |
| GlobalDispatch.OneEntryPerJob | Assets/Scripts/GlobalDispatchTimer.cs:585-601 | once the root is taken out and its job's re-push is added, the queued entries for that job are exactly the re-pushed ones |
| GlobalDispatch.GlobalDispatchTimer.PeekDue | Assets/Scripts/GlobalDispatchTimer.cs:580-583 | stop exactly when even the root is not due, and then nothing is due; otherwise the root is due and minimal |
| GlobalDispatch.GlobalDispatchTimer.RunDue | Assets/Scripts/GlobalDispatchTimer.cs:585-601 | one turn keeps the bookkeeping and removes one due entry. `asked` is the re-push the run requested on the table before it. `requeued` is exactly that request, as one entry under the next id, or nothing |
| GlobalDispatch.GlobalDispatchTimer.RunRoot | Assets/Scripts/GlobalDispatchTimer.cs:585-601 | `Execute` then `Dequeue`: exactly the old root leaves the queue, and `requeued` is added. `requeued` is the one entry the run's re-push asked for, under id `lastId + 1`, or nothing. It is due after `now`. Afterwards the queue's entries for that job are exactly `requeued`. The table is `ExecuteJob`'s |
| GlobalDispatch.GlobalDispatchTimer.ExecuteRoot | Assets/Scripts/GlobalDispatchTimer.cs:585-592 | the `try`: the root job's `Execute`. Afterwards the rest of the queue plus the re-pushed entry mirror the table. `repush` and `due` are the request `ExecuteJob` makes |
| GlobalDispatch.GlobalDispatchTimer.FinishRoot | Assets/Scripts/GlobalDispatchTimer.cs:597-601 | the `finally`: `Dequeue` takes the old root out and leaves the re-pushed entry. The heap holds. `lastId` moved by one exactly when there was a re-push |

## Left out

- Float seconds, `DateTime` and `TimeSpan` are whole ticks. The `TimeSpan` overloads of `NormalizeTime` and `PushTimerJob` only convert and forward, so they are not modelled separately.
- GlobalDispatch.GlobalDispatchTimer.RunDueJobs: `now` is fixed for the whole frame. The source reads `Time.realtimeSinceStartup` again on every turn of the loop.
- GlobalDispatch.GlobalDispatchTimer.LateUpdate: the same fixed `now` as `RunDueJobs`.
- GlobalDispatch.GlobalDispatchTimer.PushExistingJob: requires a queued interval task to have a positive interval. With a zero or negative interval, the drain loop of the source may never end while the task's condition holds.
- GlobalDispatch.GlobalDispatchTimer.PushExistingJob: requires the job not to be queued already. Pushing a queued job twice gives it two entries in the source, which breaks the one-entry-per-job invariant the model keeps.
- GlobalDispatch.GlobalDispatchTimer.PushExistingBoundJob: the same two requirements as `PushExistingJob`.
- GlobalDispatch.GlobalDispatchTimer.EnqueueJob: the same two requirements.
- PriorityQueues.PriorityQueue.constructor: requires a positive capacity. With capacity 0, doubling keeps the array empty and `Enqueue` indexes out of bounds. The dispatcher's default of 100 is used.
- PriorityQueues.PriorityQueue.Remove: restores the heap only when it removes the root, as the code does.
- Weak references and garbage collection: every bound job reference is taken to be alive. So the `Target == null` case of the cancel loop is not modelled.
- The Unity object model is not modelled:
  - Unity's overloaded `null` for destroyed objects.
  - `GetComponent`/`AddComponent`. The caller supplies the `DestroyTrigger`, and `null` stands for a null game object.
  - The two null checks inside `RegisterTrigger`. Its callers never pass a null job.
- Singleton plumbing is not modelled: `Instance`, `Init`, `FindObjectOfType` and `DontDestroyOnLoad`.
- The dispatcher is an explicit object, and each class's static counter is a field: the queue's `_count` as `lastId`, and the trigger key counter as `KeyIssuer`.
- Overflow of the id and key counters.
- Caller payloads are modelled only in part:
  - They have no effects beyond the trace, and they neither push jobs nor mutate a group during its own `Execute`.
  - Conditions are answers per frame, with no side effects, and never throw. A throwing `checkCondition` in the source would skip both `SetInterval` and `EndTask`.
- The engine's calls to `DestroyTrigger` callbacks are not modelled; the callbacks are methods the caller invokes.
- GroupTasks.NewGroupTask: takes a sequence, so a null task list, for which `ToList()` throws, is not modelled.
- Editor-only members are not modelled: `indexedItemList`, `GetTaskList`, `GetExecutor`, `IsDisposed`. Neither is logging (`Debugs.*`).
- `GlobalDispatchMonitor.cs`, `CustomTimerTaskObject.cs` and `Utils/Debugs.cs` are not part of this model.
