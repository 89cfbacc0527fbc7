# TOPPERS/HRP3: a verified model of the kernel

This project models the core of the TOPPERS/HRP3 real-time kernel (`hrp3_wo_tecs/kernel`), the serial
driver that comes with it, and the calendar arithmetic of the sample application, and proves what the
kernel's comments, design document tags and assertions promise. `dafny verify dfyconfig.toml` checks all
of it.

Every service call of the kernel runs with the CPU locked, so a call, or an interrupt callback, is one
atomic step. A step is a method of a class that holds the control block's fields. Each step requires the
invariant of its class and establishes it again, and states its whole effect, so the invariant holds
throughout every run that starts with the constructor. Ghost fields hold what the C code only implies:
unbounded times behind wrapped ones, the contents of a ring or a list, the chain of mutexes of a task.

| module | what it models |
|---|---|
| `RingQueue` | the intrusive ring lists, refined to sequences |
| `TimeHeap` | the array heap of time events with back pointers |
| `TimeEvent`, `TimeClients` | the wrapping clock, system time, the timer interrupt; cyclic and alarm notifications |
| `Primap`, `TaskState`, `KernelState`, `Kernel` | bitmap search, task state encoding, scheduler, waits, mutexes, task services |
| `MessageBuffer`, `DataQueue`, `PriDataQueue`, `MemPool`, `EventFlag`, `Semaphore` | the communication objects with the tasks blocked on them |
| `Bits` | what the tests of an event flag's pattern mean bit by bit |
| `Partition` | system cycles and time windows |
| `Serial` | the token protocol between tasks and device callbacks |
| `Calendar` | `__tm_to_secs` |
| `Common`, `WaitQueue` | shared types, and the queue of tasks that wait for one object |

## What the proofs found

These promises hold only under a condition that the code does not check; each is stated exactly.

* No block of a fixed-sized memory pool is held by two tasks. `rel_mpf` (`mempfix.c:320-342`) checks the
  block before it locks the CPU, and hands it on or takes it back whatever has happened since. The promise,
  and the consistency of the free list, survive a return if and only if the task that makes it still holds
  the block then (`MemPool.MemoryPool.ReleaseBlock`, `MemPool.HandedOn`, `MemPool.Returned`). That the block
  is still allocated is not enough: if two checks come before the two returns and two tasks wait, both get
  the block (`MemPool.GivenToTwo`); the mark never changes. If nobody waits, the free list holds the block
  twice (`MemPool.ReleaseIff`, `MemPool.DoubleRelease`).
* The first sender blocked on a message buffer is one whose message does not fit. That is so in every
  reachable state if and only if every legal message fits an empty buffer, or none does
  (`MessageBuffer.Buffer.AllOrNoneFit`): then it is part of the invariant, and otherwise `LeftBehind` runs
  the services into a state without it, for every such configuration, because a receiver that takes the
  message of a blocked sender directly leaves the next one blocked. `MessageBuffer.Buffer.RcvMbf` says
  exactly which receptions do.
* The size computation of a message in unsigned words is right if and only if the message is at most
  2^32 - 8 bytes long (`MessageBuffer.AllocSzRight`); the configurator accepts larger ones.
* An overdue time event is recognised as due if and only if it is no more than `BOUNDARY_MARGIN` late
  (`TimeEvent.DueIfWithinMargin`).

## Assumptions

Each is a precondition in the text: the tables of the configurator are consistent (`ConfigOk`,
`TablesOk`; the message buffer's size is a multiple of the word, as the generated macro rounds it); no
registered event becomes more than `BOUNDARY_MARGIN` late and the timer's counter does not go round
unseen (`TimeManager.InTime`).

With an initial operating mode, the event of the system cycle is registered from the start, and `sta_ker`
raises its interrupt (`startup.c:124`, `time_event.c:448-452`) before the first task runs. The model assumes
that it goes off before a task calls `chg_som`, which takes "no current mode" to mean that the event is not
registered (`domain.c:589-598`). `Partition.Partition.ChgSom` and `Partition.Partition.SetDspflg` state
without the assumption what happens, and `Partition.RegisteredTwice` and `Partition.RegisteredOnceOrTwice`
when the event would be in the heap twice.

Callbacks of time events are an arbitrary sequence of registrations, cancellations and adjustments
(`TimeManager.Callback`, `TimeManager.Requests`); timer readings, device registers and the room in a message
buffer at the time of a release come in as parameters. Dispatching means that the running task becomes the
one that should run.

## Model

| member | source | states |
|---|---|---|
| RingQueue.Initialize | hrp3_wo_tecs/include/queue.h:77-81 | the header alone is an empty ring |
| RingQueue.InsertPrev | hrp3_wo_tecs/include/queue.h:90-96 | the ring is the old sequence with the entry inserted before the given one; all links right in both directions |
| RingQueue.InsertNext | hrp3_wo_tecs/include/queue.h:105-111 | the same, behind the given entry |
| RingQueue.Delete | hrp3_wo_tecs/include/queue.h:119-123 | the ring is the old sequence without that entry |
| RingQueue.DeleteNext | hrp3_wo_tecs/include/queue.h:134-143 | takes and returns the first element of a non-empty queue |
| RingQueue.Empty | hrp3_wo_tecs/include/queue.h:151-158 | true if and only if the sequence is empty, with the assertion on both pointers |
| RingQueue.InsertByPriority | hrp3_wo_tecs/kernel/wait.h:62-74 | the search loop puts the entry behind all entries that are at least as urgent and before the first that is not |
| Common.PriorityPlaceKeepsOrder | hrp3_wo_tecs/kernel/wait.h:55-74 | an ordered queue stays ordered; among equals first come is first served |
| TimeHeap.Heap.Up | hrp3_wo_tecs/kernel/time_event.c:198-224 | moves the hole to where the time fits, changing no other key, back pointers right |
| TimeHeap.Heap.Down | hrp3_wo_tecs/kernel/time_event.c:238-275 | the same downwards, taking the earlier child each time |
| TimeHeap.Heap.Insert | hrp3_wo_tecs/kernel/time_event.c:286-301 | the blocks are the old ones and the new one; heap order and back pointers kept; the top changes only if the new block is the top |
| TimeHeap.Heap.Delete | hrp3_wo_tecs/kernel/time_event.c:307-359 | at any slot, the last included: exactly that block leaves, heap order and back pointers kept; deleting another block than the top leaves the top in place |
| TimeHeap.Heap.DeleteTop | hrp3_wo_tecs/kernel/time_event.c:365-393 | the first block leaves; order and back pointers kept |
| TimeHeap.Heap.TopIsFirst | hrp3_wo_tecs/kernel/time_event.c:100-112 | no block is earlier than the top, in the order relative to the boundary |
| TimeHeap.TopIsLeast | hrp3_wo_tecs/kernel/time_event.c:91-98 | the key of slot 1 is a minimum of any array that is a heap |
| TimeEvent.AdvanceIsDistance | hrp3_wo_tecs/kernel/time_event.c:115-123 | EVTTIM_ADVANCE of a wrapped time is the unbounded distance from the boundary |
| TimeEvent.DueIfWithinMargin | hrp3_wo_tecs/kernel/time_event.c:115-123 | the exact condition: a late event is recognised as due if and only if it is within BOUNDARY_MARGIN |
| TimeEvent.MovedBoundaryKeepsOrder | hrp3_wo_tecs/kernel/time_event.c:401-427 | moving the boundary past no event keeps the heap a heap, though every comparison changes its reference |
| TimeEvent.TimeManager.WrappedOrderIsTrueOrder | hrp3_wo_tecs/kernel/time_event.c:115-123 | in every reachable state EVTTIM_LT and EVTTIM_LE between registered events and the current time agree with unbounded time |
| TimeEvent.TimeManager.AdvanceIsBounded | hrp3_wo_tecs/kernel/time_event.c:115-123 | the advance of every registered event stays below 4,202,004,000, hence below 2^32 |
| TimeEvent.TimeManager.UpdateCurrentEvttim | hrp3_wo_tecs/kernel/time_event.c:401-427 | the clocks follow the timer exactly, the monotonic time is the running maximum, the heap stays ordered |
| TimeEvent.TimeManager.CounterAdvance | hrp3_wo_tecs/kernel/time_event.c:401-417 | two readings of a counter of any period determine the time between them |
| TimeEvent.TimeManager.CarryOnWrap | hrp3_wo_tecs/kernel/time_event.c:418-427 | the carry of 2^32 is added exactly when the 32-bit monotonic time wraps |
| TimeEvent.TimeManager.SetTim | hrp3_wo_tecs/kernel/time_manage.c:94-111 | the system time is the given one from now on |
| TimeEvent.TimeManager.GetTim | hrp3_wo_tecs/kernel/time_manage.c:121-139 | reads the never decreasing unbounded monotonic time plus a difference that only set_tim changes |
| TimeEvent.TimeManager.CheckAdjtim | hrp3_wo_tecs/kernel/time_event.c:573-583 | refuses if and only if an event is a second late already, or the current time lags by a second already |
| TimeEvent.TimeManager.AdjTim | hrp3_wo_tecs/kernel/time_manage.c:149-190 | all error cases; the adjustment moves the current time, the monotonic time never goes back and stays less than two seconds ahead |
| TimeEvent.TimeManager.SetHrtEvent | hrp3_wo_tecs/kernel/time_event.c:437-467 | the interrupt is requested for the first event, for now if that is past, at most the bound ahead |
| TimeEvent.TimeManager.EnqueueReltim | hrp3_wo_tecs/kernel/time_event.c:514-535 | the event is due tstep and its time after now; the requested interrupt is never later than the first event |
| TimeEvent.TimeManager.Dequeue | hrp3_wo_tecs/kernel/time_event.c:545-563 | only that event leaves; the clock is read, and the timer set anew, only for the first one outside the handler, and that is enough |
| TimeEvent.TimeManager.TopIsDueFirst | hrp3_wo_tecs/kernel/time_event.c:437-467 | the top of the heap is due no later than any registered event, in unbounded time |
| TimeEvent.TimeManager.CallTop | hrp3_wo_tecs/kernel/time_event.c:680-700 | the event called back is a current minimum and due |
| TimeEvent.TimeManager.SignalTime | hrp3_wo_tecs/kernel/time_event.c:656-713 | on return the timer has been read after the last callback, no event is due and the timer is armed exactly; every callback is of an event that is due |
| TimeEvent.TimeManager.NoneEarly | hrp3_wo_tecs/kernel/time_event.c:656-713 | in every reachable state no callback has come before its time, adjustments set aside |
| TimeEvent.TimeManager.TwoReadings | hrp3_wo_tecs/kernel/time_manage.c:121-139 | the system time never goes back: two readings with any calls and timer interrupts between them but set_tim differ in 64 bits by how far the monotonic time has come, which is not negative |
| TimeClients.Cyclic.StaCyc | hrp3_wo_tecs/kernel/cyclic.c:137-166 | the event is registered anew for the phase from now, started or not |
| TimeClients.Cyclic.StpCyc | hrp3_wo_tecs/kernel/cyclic.c:176-198 | stopped, and the event is not registered |
| TimeClients.Cyclic.CallCyclic | hrp3_wo_tecs/kernel/cyclic.c:244-268 | the next event comes one period after this one was due, however late the call |
| TimeClients.Alarm.StaAlm | hrp3_wo_tecs/kernel/alarm.c:125-152 | registered for the given time from now, or refused |
| TimeClients.Alarm.StpAlm | hrp3_wo_tecs/kernel/alarm.c:162-184 | stopped, and the event is not registered |
| TimeClients.Alarm.CallAlarm | hrp3_wo_tecs/kernel/alarm.c:230-249 | stopped exactly when its event is gone |
| Primap.BitmapSearch | hrp3_wo_tecs/kernel/task.c:139-153 | finds the lowest set bit of any non-zero bitmap |
| Primap.SetBit | hrp3_wo_tecs/kernel/task.c:179-182 | sets one bit and no other |
| Primap.ClearBit | hrp3_wo_tecs/kernel/task.c:188-191 | clears one bit and no other |
| TaskState.TestsAgree | hrp3_wo_tecs/kernel/task.h:84-133 | each test macro on the state byte says what it is named for, in every state |
| TaskState.SuspendAndResume | hrp3_wo_tecs/kernel/task_sync.c:342-444 | the bit operations of sus_tsk and rsm_tsk on a waiting task give the code of the double wait and back |
| TaskState.TestsAgreeWithState | hrp3_wo_tecs/kernel/task.h:111-133 | the same tests on the byte of a task, where its wait names a queue, in terms of the state that the scheduler has |
| TaskState.EncodingIsInjective | hrp3_wo_tecs/kernel/task.h:84-101 | no two states have the same byte |
| KernelState.InsertTpriPlace | hrp3_wo_tecs/kernel/wait.h:62-74 | the queue after an insertion is the old one with the task at the place for its priority |
| KernelState.JoinedIs | hrp3_wo_tecs/kernel/wait.c:172-180 | a task that joins a wait queue goes to the tail, or behind all that are at least as urgent |
| KernelState.InsertTpriByPriority | hrp3_wo_tecs/kernel/wait.h:62-74 | insertion keeps a wait queue in the order of the current priorities |
| KernelState.BestMoves | hrp3_wo_tecs/kernel/task.c:331-390 | which task goes first in its unit after a change of priority, in both modes |
| KernelState.MovedIs | hrp3_wo_tecs/kernel/task.c:331-390 | a task that changes its priority goes to the front of its new queue for a mutex and to the tail otherwise; the other queues stay |
| KernelState.BestLoses | hrp3_wo_tecs/kernel/task.c:249-274 | which task goes first after one has left |
| KernelState.CacheGains | hrp3_wo_tecs/kernel/task.c:219-234 | bitmap and cached first task stay right when a task joins |
| KernelState.RotateCache | hrp3_wo_tecs/kernel/task.c:403-418 | bitmap and cached first task stay right under rotation |
| KernelState.SelectRaised | hrp3_wo_tecs/kernel/mutex.c:351-357 | the selected task stays selected when it becomes more urgent |
| KernelState.CeilPriIsLeast | hrp3_wo_tecs/kernel/mutex.c:215-229 | the ceiling priority is the minimum of base priority and held ceilings |
| KernelState.CeilPriRemove | hrp3_wo_tecs/kernel/mutex.c:237-248 | what the minimum loses when one mutex leaves the chain, wherever it stood |
| KernelState.CeilingsCount | hrp3_wo_tecs/kernel/task_manage.c:286-290 | with a held ceiling the base priority does not count |
| KernelState.MutexPop | hrp3_wo_tecs/kernel/mutex.c:313-321 | the chains list exactly the owned mutexes after the last one is taken off |
| KernelState.MutexPush | hrp3_wo_tecs/kernel/mutex.c:258-262 | and after one is put on top |
| KernelState.MutexUnlink | hrp3_wo_tecs/kernel/mutex.c:543-553 | and after one is taken out of the middle |
| Kernel.Kernel.constructor | hrp3_wo_tecs/kernel/task.c:78-106 | the invariant holds after the initialisation, with exactly the tasks that have TA_ACT made active and the most urgent of them running |
| Kernel.Kernel.MakeActive | hrp3_wo_tecs/kernel/task.c:304-310 | a dormant task becomes runnable, and nothing else changes |
| Kernel.Kernel.UpdateSchedtsk | hrp3_wo_tecs/kernel/task.h:362-382 | the first of the kernel domain is selected unless the first of the current unit is strictly more urgent; the unit that idles only if both have nobody |
| Kernel.Kernel.SearchPredtsk | hrp3_wo_tecs/kernel/task.c:199-205 | the head of the best non-empty queue |
| Kernel.Kernel.MakeRunnable | hrp3_wo_tecs/kernel/task.c:219-234 | the task joins the tail of its queue; bitmap, cached first task and selected task agree with a full recomputation |
| Kernel.Kernel.MakeNonRunnable | hrp3_wo_tecs/kernel/task.c:249-274 | the same for leaving |
| Kernel.Kernel.ChangePriority | hrp3_wo_tecs/kernel/task.c:331-390 | the same for a change of priority in both modes, in the ready queue or in a priority-ordered wait queue |
| Kernel.Kernel.RotateReadyQueue | hrp3_wo_tecs/kernel/task.c:403-418 | the head goes to the tail, caches right |
| Kernel.Kernel.SwitchWindow | hrp3_wo_tecs/kernel/domain.c:355-367 | other units become current; the selection follows |
| Kernel.Kernel.WaitInsert | hrp3_wo_tecs/kernel/wait.c:172-180 | the task joins the wait queue at the tail, or at the place for its priority |
| Kernel.Kernel.WaitUnlink | hrp3_wo_tecs/kernel/wait.c:83-91 | the task leaves its wait queue, the others keep their order |
| Kernel.Kernel.WaitDequeueTmevtb | hrp3_wo_tecs/kernel/wait.h:147-153 | a registered time event is cancelled, through the union |
| Kernel.Kernel.SetWercd | hrp3_wo_tecs/kernel/wait.c:101-106 | the result may be written only when no time event is registered, and only once |
| Kernel.Kernel.MakeNonWait | hrp3_wo_tecs/kernel/wait.h:111-130 | a waiting task becomes runnable or merely suspended |
| Kernel.Kernel.MakeWait | hrp3_wo_tecs/kernel/wait.h:84-90 | the running task leaves its ready queue, with its time event registered if there is a timeout |
| Kernel.Kernel.WobjMakeWait | hrp3_wo_tecs/kernel/wait.c:188-207 | and joins the queue of the object, at the tail or at the place for its priority |
| Kernel.Kernel.WaitDequeueWobj | hrp3_wo_tecs/kernel/wait.c:83-91 | a task leaves the queue of its object; a sender that leaves lets the next senders go as far as there is room |
| Kernel.Kernel.InitWaitQueue | hrp3_wo_tecs/kernel/wait.c:217-227 | every wait for the object ends with E_DLT, and nothing else changes |
| Kernel.Kernel.Timeout | hrp3_wo_tecs/kernel/wait.c:116-161 | exactly this wait ends, with E_TMOUT, or E_OK for a delay; the invariant is kept |
| Kernel.Kernel.SlpTsk | hrp3_wo_tecs/kernel/task_sync.c:125-194 | all results; the wait begins with or without a timeout |
| Kernel.Kernel.WupTsk | hrp3_wo_tecs/kernel/task_sync.c:204-248 | wakes a sleeping task, or queues one request |
| Kernel.Kernel.RelWai | hrp3_wo_tecs/kernel/task_sync.c:297-332 | exactly this wait ends with E_RLWAI, or E_OBJ; if the task was sending to a message buffer, the next senders go on that find room |
| Kernel.Kernel.SusTsk | hrp3_wo_tecs/kernel/task_sync.c:342-396 | all results and the new state |
| Kernel.Kernel.RsmTsk | hrp3_wo_tecs/kernel/task_sync.c:406-444 | all results and the new state |
| Kernel.Kernel.DlyTsk | hrp3_wo_tecs/kernel/task_sync.c:454-486 | the wait begins with its time event registered |
| Kernel.Kernel.WaitForObject | hrp3_wo_tecs/kernel/semaphore.c:265-301 | the part of a service that waits for an object, with all its results |
| Kernel.Kernel.WaitInTurn | hrp3_wo_tecs/kernel/semaphore.c:155-169 | two tasks that wait in turn for an object without priorities are released in this order |
| Kernel.Kernel.SignalObject | hrp3_wo_tecs/kernel/semaphore.c:155-169 | the first waiting task goes on, and nobody else |
| Kernel.Kernel.MbfSignal | hrp3_wo_tecs/kernel/messagebuf.c:285-300 | the first senders that find room are released, in order |
| Kernel.Kernel.SignalChosen | hrp3_wo_tecs/kernel/eventflag.c:186-208 | exactly the tasks whose conditions are met leave the queue, wherever they are in it; the others keep their order |
| Kernel.Kernel.SignalSenders | hrp3_wo_tecs/kernel/messagebuf.c:285-300 | a reception lets the first senders go that find room |
| Kernel.Kernel.InitObject | hrp3_wo_tecs/kernel/dataqueue.c:635-640 | all waits for an object, those of senders and of receivers, end with E_DLT, and nothing else changes |
| KernelState.KeptOne | hrp3_wo_tecs/kernel/eventflag.c:187-200 | one step along the queue takes the task out or leaves it, and keeps the order of the rest |
| Kernel.Kernel.MutexCalcPriority | hrp3_wo_tecs/kernel/mutex.c:215-229 | the walk along the chain computes the minimum |
| Kernel.Kernel.MutexCheckCeilpri | hrp3_wo_tecs/kernel/mutex.c:152-183 | true if and only if the ceilings held and waited for allow the base priority |
| Kernel.Kernel.MutexScanCeilmtx | hrp3_wo_tecs/kernel/mutex.c:193-205 | true if and only if a mutex with a ceiling is held |
| Kernel.Kernel.MutexDropPriority | hrp3_wo_tecs/kernel/mutex.c:237-248 | the priority becomes the recomputed minimum, though it is looked at only if the ceiling mattered |
| Kernel.Kernel.MutexAcquire | hrp3_wo_tecs/kernel/mutex.c:258-267 | the priority is the new minimum, and the running task stays the selected one |
| Kernel.Kernel.HandOver | hrp3_wo_tecs/kernel/mutex.c:282-302 | the first waiting task owns the mutex, has the minimum as its priority and goes on |
| Kernel.Kernel.MutexRelease | hrp3_wo_tecs/kernel/mutex.c:277-303 | the mutex becomes free or passes to the first waiting task |
| Kernel.Kernel.MutexReleaseAll | hrp3_wo_tecs/kernel/mutex.c:313-321 | every mutex of the task becomes free or passes on, each as if alone, and nothing else changes |
| Kernel.Kernel.LocMtx | hrp3_wo_tecs/kernel/mutex.c:331-478 | all results; after locking p_runtsk == p_schedtsk, which the code asserts |
| Kernel.Kernel.PlocMtx | hrp3_wo_tecs/kernel/mutex.c:384-420 | the same without waiting, with dispatching disabled as well |
| Kernel.Kernel.UnlMtx | hrp3_wo_tecs/kernel/mutex.c:488-517 | only the last locked mutex; the priority is the minimum of what is left, and a task that falls back goes ahead of its equals; the first waiting task owns the mutex, at no lower priority than its ceiling, and goes on |
| Kernel.Kernel.UnlinkMutex | hrp3_wo_tecs/kernel/mutex.c:543-551 | the pointer walk takes exactly this mutex out of its owner's chain |
| Kernel.Kernel.IniMtx | hrp3_wo_tecs/kernel/mutex.c:527-563 | all waits end with E_DLT, the mutex is free, its owner has the minimum of what is left |
| Kernel.Kernel.CeilingForbids | hrp3_wo_tecs/kernel/mutex.c:152-183 | a base priority is forbidden exactly by a less urgent ceiling of a mutex that the task owns or waits for |
| Kernel.Kernel.ChgPri | hrp3_wo_tecs/kernel/task_manage.c:250-297 | all results; refused exactly for the ceiling of a mutex that is owned or waited for; the priority is the minimum for the new base priority; without a ceiling the task goes behind the others of its new priority |
| Kernel.Kernel.MakeDormant | hrp3_wo_tecs/kernel/task.c:284-310 | the task has its initial state, or starts anew if an activation was queued |
| Kernel.Kernel.TaskTerminate | hrp3_wo_tecs/kernel/task.c:428-445 | the whole effect of a termination on all tasks, queues and mutexes |
| Kernel.Kernel.TerTsk | hrp3_wo_tecs/kernel/task_term.c:296-324 | all results; the task is dormant, or starts anew with the queued activation used up; each mutex of it belongs to the first task that waited for it, or to nobody |
| Kernel.Kernel.EndTwice | hrp3_wo_tecs/kernel/task.c:428-445 | a task that is ended twice in a row is dormant, because no more than one activation is queued |
| Kernel.Kernel.RasTer | hrp3_wo_tecs/kernel/task_term.c:159-204 | ends the task, or ends its wait with E_RASTER and notes the request; no request is lost (part of the invariant) |
| Kernel.Kernel.ExtTsk | hrp3_wo_tecs/kernel/task_term.c:110-149 | the running task ends, with dispatching enabled first |
| Kernel.Kernel.EnaTer | hrp3_wo_tecs/kernel/task_term.c:240-263 | a pending request takes effect |
| Kernel.Kernel.DisTer | hrp3_wo_tecs/kernel/task_term.c:214-230 | only the flag changes |
| Kernel.Kernel.SetDspflg | hrp3_wo_tecs/kernel/domain.c:552-558 | dispatching is enabled and the selected task recomputed |
| Kernel.Kernel.DisDsp | hrp3_wo_tecs/kernel/sys_manage.c:603-620 | only the flags change |
| Kernel.Kernel.EnaDsp | hrp3_wo_tecs/kernel/sys_manage.c:630-662 | with an open interrupt priority mask the running task ends if that was requested, else the selected task runs; otherwise only the flag changes |
| Kernel.Kernel.ChgIpm | hrp3_wo_tecs/kernel/interrupt.c:364-399 | the same for an opened mask; dispatching is enabled exactly while the mask is open and no task has disabled it (part of the invariant) |
| Kernel.Kernel.ActTsk | hrp3_wo_tecs/kernel/task_manage.c:109-150 | all results; one activation can be queued |
| Kernel.Kernel.CanAct | hrp3_wo_tecs/kernel/task_manage.c:160-184 | the queued activation is reported and cancelled |
| Kernel.Kernel.RotRdq | hrp3_wo_tecs/kernel/sys_manage.c:197-291 | the queue is rotated and the selected task runs |
| Kernel.LockAtStart | hrp3_wo_tecs/kernel/mutex.c:258-267 | a run from the initial state to a task that runs at the ceiling of the mutex it has locked |
| Kernel.Kernel.EachTaskInItsPlace | hrp3_wo_tecs/kernel/wait.c:57-163 | in every reachable state a task is in exactly the queue its state says, once, and its time event is registered exactly while it waits with a timeout |
| Kernel.Kernel.TestsMatch | hrp3_wo_tecs/kernel/task.h:111-133 | in every reachable state the tests on the byte of a task's state decide what is decided here: whether it waits for a mutex, for a message buffer, or in a queue by priority |
| Kernel.Kernel.RunningIsTheOne | hrp3_wo_tecs/kernel/task.h:362-382 | in every reachable state with dispatching enabled the running task is the head of its queue; it is of the kernel domain, or strictly more urgent than all of that; the unit that idles has its most urgent task run only if nobody else can |
| Kernel.Kernel.PriorityIsCeilinged | hrp3_wo_tecs/kernel/mutex.c:215-321 | in every reachable state the priority is the minimum of base priority and owned ceilings, none of which is below the base priority |
| Kernel.Kernel.RunningIsMostUrgent | hrp3_wo_tecs/kernel/task.h:362-382 | while dispatching is enabled no runnable task of the kernel domain or the current window is more urgent than the running one |
| Kernel.Kernel.IdleRunsLast | hrp3_wo_tecs/kernel/task.h:362-382 | tasks of the idle unit run only if no such task can |
| MessageBuffer.AllocSzRight | hrp3_wo_tecs/kernel/messagebuf.c:174-175 | the size in unsigned words is right if and only if the message is at most 2^32 - 8 bytes |
| MessageBuffer.Round | hrp3_wo_tecs/include/kernel.h:484-486 | the least multiple of the word that is not less |
| MessageBuffer.WordRoundTrip | hrp3_wo_tecs/kernel/messagebuf.c:176-211 | a length read from the buffer is the one that was stored |
| MessageBuffer.StoredSnoc | hrp3_wo_tecs/kernel/messagebuf.c:167-200 | messages written one behind the other around the ring are stored |
| MessageBuffer.StoredHead | hrp3_wo_tecs/kernel/messagebuf.c:210-241 | the first stored message can be read back |
| MessageBuffer.Buffer.constructor | hrp3_wo_tecs/kernel/messagebuf.c:140-157 | an empty buffer, of any configuration; the invariant holds if and only if messages have at most 2^32 - 8 bytes |
| MessageBuffer.Buffer.EnqueueMessage | hrp3_wo_tecs/kernel/messagebuf.c:167-200 | stored behind the others if and only if there is room; free space, tail and all accesses right |
| MessageBuffer.Buffer.DequeueMessage | hrp3_wo_tecs/kernel/messagebuf.c:210-241 | returns exactly the bytes of the oldest message, across the split |
| MessageBuffer.Buffer.Signal | hrp3_wo_tecs/kernel/messagebuf.c:285-300 | senders go in order until the first one's message does not fit; nothing pending is lost or reordered |
| MessageBuffer.Buffer.SendMessage | hrp3_wo_tecs/kernel/messagebuf.c:251-270 | to the first blocked receiver, or to the end of the one queue |
| MessageBuffer.Buffer.SndMbf | hrp3_wo_tecs/kernel/messagebuf.c:353-480 | all results; stored or blocked, the message is the last of the pending ones |
| MessageBuffer.Buffer.ReceiveMessage | hrp3_wo_tecs/kernel/messagebuf.c:310-330 | takes the first of the pending messages; a sender that fits is left behind if and only if none of the messages is stored and the second blocked one fits |
| MessageBuffer.Buffer.RcvMbf | hrp3_wo_tecs/kernel/messagebuf.c:490-619 | all results, how many senders go on, and the same exact condition; nobody is left behind if every legal message or none fits an empty buffer (part of the invariant) |
| MessageBuffer.Buffer.SenderLeaves | hrp3_wo_tecs/kernel/messagebuf.c:340-343 | only that sender's message is withdrawn, and those behind it go if they fit |
| MessageBuffer.Buffer.IniMbf | hrp3_wo_tecs/kernel/messagebuf.c:629-656 | empty, all waits end |
| MessageBuffer.LeftBehind | hrp3_wo_tecs/kernel/messagebuf.c:310-330 | for every other configuration, a run of the services that leaves a sender blocked although its message fits |
| WaitQueue.JoinKeepsOrder | hrp3_wo_tecs/kernel/wait.h:62-74 | a queue by priority stays in order, equals by arrival |
| WaitQueue.JoinInTurn | hrp3_wo_tecs/kernel/wait.c:172-180 | without priorities, tasks stand in a queue in the order in which they came |
| WaitQueue.RequeueIs | hrp3_wo_tecs/kernel/wait.h:257-263 | a waiting task with a new priority goes behind all that are at least as urgent, or keeps its place without priorities |
| WaitQueue.LeaveKeepsOrder | hrp3_wo_tecs/kernel/wait.c:83-91 | it stays in order when a task leaves it anywhere |
| WaitQueue.RequeueKeepsOrder | hrp3_wo_tecs/kernel/wait.h:257-263 | it stays in order when a waiting task gets another priority |
| DataQueue.Queue.EnqueueData | hrp3_wo_tecs/kernel/dataqueue.c:169-177 | the ring refines a bounded FIFO |
| DataQueue.Queue.ForceEnqueueData | hrp3_wo_tecs/kernel/dataqueue.c:187-200 | a full ring loses exactly its oldest data |
| DataQueue.Queue.DequeueData | hrp3_wo_tecs/kernel/dataqueue.c:210-218 | takes the oldest data |
| DataQueue.Queue.SendData | hrp3_wo_tecs/kernel/dataqueue.c:228-245 | to the first blocked receiver, or stored, or refused when full |
| DataQueue.Queue.SndDtq | hrp3_wo_tecs/kernel/dataqueue.c:311-435 | all results; senders block only when the ring is full |
| DataQueue.Queue.FsndDtq | hrp3_wo_tecs/kernel/dataqueue.c:445-473 | refused without capacity; else to a receiver or forced in, blocked senders untouched |
| DataQueue.Queue.ReceiveData | hrp3_wo_tecs/kernel/dataqueue.c:277-301 | takes the first pending data; the first blocked sender refills the ring, which stays full |
| DataQueue.Queue.RcvDtq | hrp3_wo_tecs/kernel/dataqueue.c:483-613 | all results; receivers block only when the ring is empty and no sender is blocked |
| DataQueue.Queue.SenderLeaves | hrp3_wo_tecs/kernel/wait.c:83-91 | only the data of the sender that leaves is withdrawn |
| DataQueue.Queue.ReceiverLeaves | hrp3_wo_tecs/kernel/wait.c:83-91 | only that receiver leaves |
| DataQueue.Queue.SenderChangesPriority | hrp3_wo_tecs/kernel/wait.h:257-263 | the sender goes behind all that are at least as urgent, the pending data with it |
| DataQueue.Queue.IniDtq | hrp3_wo_tecs/kernel/dataqueue.c:623-649 | empty; the waits of all senders, then of all receivers end |
| PriDataQueue.InsertKeepsOrder | hrp3_wo_tecs/kernel/pridataq.c:163-190 | ascending priorities, arrival order among equals |
| PriDataQueue.InsertIs | hrp3_wo_tecs/kernel/pridataq.c:163-190 | the new data is behind all that comes no later and before the first that does; the rest is unchanged |
| PriDataQueue.InsertContents | hrp3_wo_tecs/kernel/pridataq.c:163-190 | nothing lost, nothing added but the new data |
| PriDataQueue.ListInsert | hrp3_wo_tecs/kernel/pridataq.c:177-188 | splicing a block into the linked list inserts its data in the sequence |
| PriDataQueue.Queue.TakeBlock | hrp3_wo_tecs/kernel/pridataq.c:168-175 | a block in neither list, below the capacity |
| PriDataQueue.Queue.FindPlace | hrp3_wo_tecs/kernel/pridataq.c:180-186 | the search stops behind all data that comes no later |
| PriDataQueue.Queue.EnqueuePridata | hrp3_wo_tecs/kernel/pridataq.c:163-190 | the data is inserted in order; data list and free list still split the used blocks |
| PriDataQueue.Queue.DequeuePridata | hrp3_wo_tecs/kernel/pridataq.c:200-213 | the first data leaves, its block is free |
| PriDataQueue.Queue.SendPridata | hrp3_wo_tecs/kernel/pridataq.c:223-241 | to the first blocked receiver, or stored in order, or refused when full |
| PriDataQueue.Queue.SndPdq | hrp3_wo_tecs/kernel/pridataq.c:288-417 | all results |
| PriDataQueue.Queue.ReceivePridata | hrp3_wo_tecs/kernel/pridataq.c:251-278 | the first data; the first blocked sender takes the free place |
| PriDataQueue.Queue.RcvPdq | hrp3_wo_tecs/kernel/pridataq.c:427-562 | all results |
| PriDataQueue.Queue.SenderLeaves | hrp3_wo_tecs/kernel/wait.c:83-91 | only the data of the sender that leaves is withdrawn |
| PriDataQueue.Queue.SenderChangesPriority | hrp3_wo_tecs/kernel/wait.h:257-263 | the sender goes behind all that are at least as urgent |
| PriDataQueue.Queue.IniPdq | hrp3_wo_tecs/kernel/pridataq.c:572-599 | all blocks unused again; the waits of all senders, then of all receivers end |
| MemPool.GetOk | hrp3_wo_tecs/kernel/mempfix.c:151-167 | a block that is taken was not allocated; no other block changes |
| MemPool.InitialOk | hrp3_wo_tecs/kernel/mempfix.c:369-373 | stale marks count for nothing: no block of a fresh or initialised pool passes as allocated |
| MemPool.ReleaseOk | hrp3_wo_tecs/kernel/mempfix.c:337-341 | an allocated block becomes free, no other changes |
| MemPool.ReleaseOfFree | hrp3_wo_tecs/kernel/mempfix.c:337-341 | returning any other block leaves no consistent free list |
| MemPool.ReleaseIff | hrp3_wo_tecs/kernel/mempfix.c:320-342 | the free list stays consistent if and only if the block is allocated when the CPU is locked |
| MemPool.DoubleRelease | hrp3_wo_tecs/kernel/mempfix.c:320-342 | two returns that passed the checks together make the pool give the block out twice |
| MemPool.CountIsRight | hrp3_wo_tecs/kernel/mempfix.c:151-167 | fblkcnt is the number of blocks that are not allocated |
| MemPool.GrantNew | hrp3_wo_tecs/kernel/mempfix.c:151-167 | giving a block that is not allocated to a task leaves no block held twice, and the allocated ones exactly the held ones |
| MemPool.HandedOn | hrp3_wo_tecs/kernel/mempfix.c:328-336 | handing a block on keeps that if and only if the task that returns it holds it |
| MemPool.Returned | hrp3_wo_tecs/kernel/mempfix.c:337-341 | so does taking it back |
| MemPool.MemoryPool.constructor | hrp3_wo_tecs/kernel/mempfix.c:127-140 | no block is allocated or held |
| MemPool.MemoryPool.GetMpfBlock | hrp3_wo_tecs/kernel/mempfix.c:151-167 | the pool changes as specified, the address is the block's |
| MemPool.MemoryPool.GetMpf | hrp3_wo_tecs/kernel/mempfix.c:177-297 | all results; a block that nobody holds, which only this task holds then; tasks wait only when none is free |
| MemPool.MemoryPool.CheckBlock | hrp3_wo_tecs/kernel/mempfix.c:320-325 | accepts exactly the addresses of allocated blocks |
| MemPool.MemoryPool.ReleaseBlock | hrp3_wo_tecs/kernel/mempfix.c:327-342 | to the first waiting task, or free; no block is held twice and the pool is consistent afterwards if and only if the task still holds the block |
| MemPool.MemoryPool.RelMpf | hrp3_wo_tecs/kernel/mempfix.c:307-349 | refused if nobody holds the block; keeps the invariant if and only if the task holds it |
| MemPool.MemoryPool.WaiterLeaves | hrp3_wo_tecs/kernel/wait.c:83-91 | only that task leaves the queue |
| MemPool.MemoryPool.WaiterChangesPriority | hrp3_wo_tecs/kernel/wait.h:257-263 | the task goes behind all that are at least as urgent |
| MemPool.MemoryPool.IniMpf | hrp3_wo_tecs/kernel/mempfix.c:358-383 | nothing allocated or held; all waits end |
| MemPool.GivenToTwo | hrp3_wo_tecs/kernel/mempfix.c:320-342 | a run in which two unlocked checks of one block, and the two returns that follow, give it to two waiting tasks |
| Bits.AnyBit | hrp3_wo_tecs/kernel/eventflag.c:150-153 | a pattern has a bit of another exactly if their conjunction is not zero |
| Bits.AllBits | hrp3_wo_tecs/kernel/eventflag.c:150-153 | a pattern has all bits of another exactly if their conjunction is the other |
| EventFlag.SatisfiedIffMet | hrp3_wo_tecs/kernel/eventflag.c:150-153 | TWF_ORW asks for one of the bits and TWF_ANDW for all of them |
| EventFlag.PartsByBits | hrp3_wo_tecs/kernel/eventflag.c:187-200 | the tasks whose bits are set are released in the order of the queue; the others keep theirs |
| EventFlag.ClearingSatisfiesNobody | hrp3_wo_tecs/kernel/eventflag.c:225-244 | clearing bits satisfies no condition that was not |
| EventFlag.FreedAndKept | hrp3_wo_tecs/kernel/eventflag.c:171-215 | released and remaining tasks are all tasks, each once |
| EventFlag.FirstGoesOn | hrp3_wo_tecs/kernel/eventflag.c:188-202 | with TA_CLR the first satisfied task takes all bits, and no other is satisfied then |
| EventFlag.Flag.CheckFlgCond | hrp3_wo_tecs/kernel/eventflag.c:150-161 | the test, bit by bit, and the clearing |
| EventFlag.Flag.SetFlg | hrp3_wo_tecs/kernel/eventflag.c:171-215 | exactly the tasks whose bits are set, or the first one of them with TA_CLR, go on with the pattern; nobody is left waiting satisfied |
| EventFlag.Flag.ClrFlg | hrp3_wo_tecs/kernel/eventflag.c:225-244 | the pattern; nobody becomes satisfied |
| EventFlag.Flag.WaiFlg | hrp3_wo_tecs/kernel/eventflag.c:254-393 | all results, the one for the pattern bit by bit; who waits is not satisfied |
| EventFlag.Flag.TakeOrWait | hrp3_wo_tecs/kernel/eventflag.c:269-290 | takes the pattern, or waits unsatisfied |
| EventFlag.Flag.WaiterLeaves | hrp3_wo_tecs/kernel/wait.c:83-91 | only that task leaves the queue |
| EventFlag.Flag.WaiterChangesPriority | hrp3_wo_tecs/kernel/wait.h:257-263 | the task goes behind all that are at least as urgent |
| EventFlag.Flag.IniFlg | hrp3_wo_tecs/kernel/eventflag.c:403-426 | initial pattern; all waits end |
| Semaphore.Semaphore.SigSem | hrp3_wo_tecs/kernel/semaphore.c:142-180 | to the first waiting task, or counted, or E_QOVR at the maximum; no resource made up |
| Semaphore.Semaphore.WaiSem | hrp3_wo_tecs/kernel/semaphore.c:190-301 | all results; nobody waits while the count is positive |
| Semaphore.Semaphore.WaiterLeaves | hrp3_wo_tecs/kernel/wait.c:83-91 | only that task leaves the queue |
| Semaphore.Semaphore.WaiterChangesPriority | hrp3_wo_tecs/kernel/wait.h:257-263 | the task goes behind all that are at least as urgent |
| Semaphore.Semaphore.IniSem | hrp3_wo_tecs/kernel/semaphore.c:311-334 | initial count; all waits end |
| Partition.Partition.constructor | hrp3_wo_tecs/kernel/domain.c:173-218 | the initial state, with and without cycles and an initial mode |
| Partition.Partition.TwdStart | hrp3_wo_tecs/kernel/domain.c:405-448 | window or idle window; units, timer and order of windows right |
| Partition.Partition.ScycStart | hrp3_wo_tecs/kernel/domain.c:303-343 | a cycle of the next mode begins with its first window, one cycle time after the one before; or the cycles stop |
| Partition.Partition.ScycSwitch | hrp3_wo_tecs/kernel/domain.c:355-367 | at once, with the mode, window and units of the tables, or pending while dispatching is disabled |
| Partition.Partition.TwoCycles | hrp3_wo_tecs/kernel/domain.c:303-367 | two switches in a row follow the table of modes, a cycle time apart |
| Partition.Partition.TwdSwitch | hrp3_wo_tecs/kernel/domain.c:458-494 | the next window, once, in the order of the table; or pending |
| Partition.Partition.SetDspflg | hrp3_wo_tecs/kernel/domain.c:507-559 | what was put off is done once; a cycle switch supersedes a window switch; the event is in the heap twice afterwards if and only if a pending cycle starts while that of the initial mode is still to come |
| Partition.Partition.ChgSom | hrp3_wo_tecs/kernel/domain.c:569-651 | takes effect at the end of the cycle, or at once when stopped; the exact condition under which the event stays registered once and under its own time |
| Partition.RegisteredTwice | hrp3_wo_tecs/kernel/domain.c:589-598 | a mode asked for before the initial event has gone off registers it twice |
| Partition.RegisteredOnceOrTwice | hrp3_wo_tecs/kernel/domain.c:507-559 | with dispatching disabled it is registered twice only if the event does not go off before dispatching is enabled |
| Partition.Partition.TwdtimerStop | hrp3_wo_tecs/kernel/domain.c:247-253 | the time left is kept |
| Partition.Partition.TwdtimerControl | hrp3_wo_tecs/kernel/domain.c:265-287 | the timer runs exactly while a user task does |
| Serial.Ring.Put | hrp3_wo_tecs/syssvc/serial.c:450-456 | the ring refines a FIFO |
| Serial.Ring.Take | hrp3_wo_tecs/syssvc/serial.c:525-532 | the oldest character |
| Serial.Side.Wait | hrp3_wo_tecs/syssvc/serial.c:496-500 | the task has the token, or is blocked |
| Serial.Side.Signal | hrp3_wo_tecs/syssvc/serial.c:737-744 | the token becomes available or goes to the first blocked task; the semaphore is never signalled too often |
| Serial.Side.Finish | hrp3_wo_tecs/syssvc/serial.c:505-507 | a token that is left is given back |
| Serial.Port.WriChr | hrp3_wo_tecs/syssvc/serial.c:439-461 | the token holder finds room; the character is the next one written |
| Serial.Port.WriteStep | hrp3_wo_tecs/syssvc/serial.c:474-513 | the next step of a writer in any interleaving; what is written is what is sent and then what is in the buffer |
| Serial.Port.ReaChr | hrp3_wo_tecs/syssvc/serial.c:519-550 | the token holder finds a character, the oldest one; START at half full |
| Serial.Port.ReadStep | hrp3_wo_tecs/syssvc/serial.c:556-610 | the next step of a reader in any interleaving; characters come in the order of their receipt |
| Serial.Port.IrdySnd | hrp3_wo_tecs/syssvc/serial.c:671-703 | one character goes to the device; a writer can go on when the buffer was full |
| Serial.Port.IrdyRcv | hrp3_wo_tecs/syssvc/serial.c:709-779 | all cases of flow control; a character is put into the buffer unless that is full; a reader can go on when it was empty |
| Serial.Port.NobodyBlocked | hrp3_wo_tecs/syssvc/serial.c:474-513 | a writer is blocked only while another has the token or the buffer is full |
| Calendar.DaysToYearClosed | app_iothub_client/src/stub.c:191-237 | the sum of year lengths from 1970 in closed form, for all years |
| Calendar.DaysToYearFormula | app_iothub_client/src/stub.c:191-237 | the days to a year by floored divisions, for all years |
| Calendar.DaysToMonthClosed | app_iothub_client/src/stub.c:240-249 | where the months begin in closed form: five months have 153 days from March on |
| Calendar.DayNumberFormula | app_iothub_client/src/stub.c:252-273 | the day number of any date from its year, month and day alone |
| Calendar.NextDayHasNextNumber | app_iothub_client/src/stub.c:252-273 | the day number counts the days of the Gregorian calendar one by one |
| Calendar.AgreesWithPosix | app_iothub_client/src/stub.c:252-273 | the formula "Seconds Since the Epoch", section 4.16 of the POSIX.1-2017 Base Definitions, gives the same |
| Calendar.FastLeaps | app_iothub_client/src/stub.c:193-203 | the leap days and the leap flag of the fast path are right for 1902 to 2038 |
| Calendar.YearToSecsFast | app_iothub_client/src/stub.c:193-203 | the fast path gives the seconds to the year; its 32-bit arithmetic does not overflow |
| Calendar.YearToSecsCycles | app_iothub_client/src/stub.c:205-236 | the general path gives the same for every year for which its int sums do not overflow |
| Calendar.TmYearFits | app_iothub_client/src/stub.c:252-266 | every year that a tm can name, with its month in or out of range, is such a year |
| Calendar.YearToSecs | app_iothub_client/src/stub.c:191-237 | both paths agree with the sum of year lengths and the Gregorian leap rule, for all of these years |
| Calendar.MonthToSecs | app_iothub_client/src/stub.c:240-249 | the table is the sum of the month lengths, in closed form |
| Calendar.TmToSecs | app_iothub_client/src/stub.c:252-273 | 86400 times the day number, plus the time of day, for any month in or out of range; also from the date alone, in closed form |

## Left out

- Preamble checks of the service calls (context, identifiers, access patterns, memory probes) and trace logs: preconditions or nothing.
- Context switching, target code, `sio_*` and timers of the target: dispatching assigns the running task; devices are parameters.
- Control blocks are elements of sequences held in fields, named by their indices: pointer aliasing between control blocks is not modelled, except in `RingQueue`, `TimeHeap` and the block lists.
- `Kernel` knows the time events of tasks only as a set; `TimeHeap` and `TimeEvent` hold the heap itself, for one domain.
- Kernel.Kernel.MbfSignal: takes how many senders find room as a parameter; `MessageBuffer` says which ones do.
- Kernel.Kernel.WaitDequeueWobj: takes how many senders behind the one that leaves find room as a parameter, too.
- Kernel.Kernel.SignalChosen: takes the tasks whose conditions are met as a parameter; `EventFlag` says which ones these are.
- Calls of objects other than mutexes are in `Kernel` as waits for, signals of and initialisations of an object; the objects themselves are modules of their own.
- Message buffers in the order of priorities (TA_TPRI): the configurator of this kernel refuses the attribute.
- TimeEvent.TimeManager.SignalTime: follows at most a given number of callbacks, because a handler may register events for ever; its result says whether the handler came to its end.
- TimeEvent.TimeManager.SetHrtEvent: for targets with a 32-bit counter; the variants for 64-bit counters and without an upper bound are not modelled.
- Arming of the timer from `set_dspflg` through `tmevtb_enqueue`, with a clock that has not been updated.
- Partition.Partition.TwdStart: the notification handler of a window and the processing of time events before it; they do not touch the variables of the module.
- Serial.Port.ReadStep: echo off, and the port stays open; a forced release of a wait during echo loses the token. Closing, `serial_get_chr` and the expansion of LF to CR LF (part of the text given to `WriteBegin`) are left out.
- Calendar.TmToSecs: `tm_mday - 1` and the smaller products are exact, where the C code would overflow for values near the ends of `int`.
- Kernel.Kernel.RasTer: the request is noted together with the change of state, not before the task leaves its queue; the step is atomic.
- Reference services (`ref_*`, `get_*`), `can_wup`, `loc_cpu` and the other sensing calls: one-branch facts.
- Binary search and memory probing, histograms, log formatting, the configurator, drivers, network stack and cloud client.
