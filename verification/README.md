# Citra thread scheduling, synchronisation calls and HID input, in Dafny

This project models the part of the Citra 3DS emulator that decides which
guest thread runs and what the kernel calls built on it return, plus the
input side that feeds the guest's HID shared memory.

- **Priority scheduler.** Threads are registered with per-thread scheduling
  state. One application core holds 64 FIFO ready buckets indexed by
  priority (0 is the highest). The model covers the transitions between
  RUNNING, READY, the three wait states (sleep, wait-synchronisation,
  address-arbitration), DORMANT and DEAD. It also covers rescheduling with
  its fixed 4000-tick charge, wakeups after a delay, and the two address
  arbitration primitives. The CPU engine, the timing queue, mutexes and wait
  objects are outside the scheduler. Each request to them is recorded as an
  `Effect` in an ordered log, so contracts can say what was asked of them
  and in which order.
- **System calls** on behalf of the current thread: WaitSynchronization1,
  WaitSynchronizationN, GetThreadPriority, SetThreadPriority, SleepThread
  and ArbitrateAddress. Each returns a `Reply`: the new kernel state, the
  result code and the optional output register.
- **Thread objects:** creation with its argument checks, the start-up
  register context, and the wait-object view of a thread (it can be waited
  on until it is DORMANT). Also the two result registers a wait writes.
- **Address arbiter:** signal the first N waiters or all of them, wait if
  the word is less than or equal to a value, and the decrementing and timed
  variants.
- **HID pad:** pending button state, the circle-pad position derived from
  the four direction bits, and the eight-entry history ring with per-entry
  additions and removals.
- **HID touch:** the raw position and the eight-entry touch history ring.
- **Key map:** the host-key to pad-button binding and device id allocation.
- **common_funcs.h helpers:** CLAMP, MIN/MAX and the min/max templates,
  ROUND_UP_POW2, the rotate helpers and the byte swaps.

Files (one module each):

- `types.dfy`: shared types (`Option`, `Result`, result codes, thread
  status and its status bits, the handle table).
- `common_funcs.dfy`
- `key_map.dfy`
- `hid_pad.dfy`
- `hid_touch.dfy`
- `thread_queue_list.dfy`: the 64-bucket ready queue.
- `priority_scheduler.dfy`
- `thread.dfy`
- `kernel.dfy`: the kernel state a system call sees (scheduler, handle
  table, guest memory words) and the wait-object operations.
- `address_arbiter.dfy`
- `svc.dfy`

The source compares and stores several values through C++ casts. The model
spells each out:

- guest memory words are unsigned 32-bit integers (`U32`);
- the arbitration value and the word read are compared as signed 32-bit
  (`ToS32`);
- the signed 64-bit timeout is passed through an unsigned 64-bit parameter
  and back (`S64ToU64`, `U64ToS64`);
- wakeup delays divide with C++'s truncating division (`TruncDiv`);
- the thread id counter wraps at 2^32.

## Model

| member | source | states |
|---|---|---|
| Types.StatusPredicatesExact | src/core/hle/kernel/priority_scheduler.h:54-58 | With one status bit per state, IsRunning/IsReady/IsStopped/IsWaiting hold exactly for RUNNING, READY, DORMANT and the three wait states; IsSuspended never holds; distinct states have distinct bits |
| Types.GetWaitObject | src/core/hle/svc.cpp:122-124 | A handle yields a wait object exactly when it names a thread or another waitable object; the result is that object |
| Types.GetThread | src/core/hle/svc.cpp:325-327 | A handle yields a thread exactly when it names a thread; the result is that thread |
| CommonFuncs.Clamp | src/common/common_funcs.h:30 | The result lies in [lo, hi] whenever lo <= hi; it is x inside the range, lo below it and hi above it (above wins when the bounds cross) |
| CommonFuncs.Min | src/common/common_funcs.h:27 | MIN returns one of its arguments and is at most both |
| CommonFuncs.Max | src/common/common_funcs.h:28 | MAX returns one of its arguments and is at least both (the max template at lines 157-158 is the same expression) |
| CommonFuncs.TemplateMin | src/common/common_funcs.h:155-156 | The min template returns one of its arguments and is at most both |
| CommonFuncs.MinMaxAgree | src/common/common_funcs.h:155-158 | The macro and template spellings of min agree; min <= max and together they are the two arguments |
| CommonFuncs.ClampIdempotent | src/common/common_funcs.h:30 | Clamping a clamped value again changes nothing |
| CommonFuncs.RoundUpPow2 | src/common/common_funcs.h:20-25 | For 1 <= x <= 2^31, ROUND_UP_POW2(x) is a power of two, at least x, and its half is below x; for x == 0 and every x above 2^31 the 32-bit addition wraps and the result is 0 |
| CommonFuncs.RoundUpPow2IsLeast | src/common/common_funcs.h:20-25 | No power of two at least x is smaller than ROUND_UP_POW2(x) |
| CommonFuncs.RotateCancels32 | src/common/common_funcs.h:65-75 | For 0 < n < 32, the right-rotate expression undoes the left-rotate expression |
| CommonFuncs.RotateCancelsReverse32 | src/common/common_funcs.h:65-75 | For 0 < n < 32, the left-rotate expression undoes the right-rotate expression |
| CommonFuncs.RotateCancels64 | src/common/common_funcs.h:78-86 | For 0 < n < 64, the _rotr64 expression undoes the _rotl64 expression |
| CommonFuncs.RotateCancelsReverse64 | src/common/common_funcs.h:78-86 | For 0 < n < 64, the _rotl64 expression undoes the _rotr64 expression |
| CommonFuncs.RotateRightUndoesLeft32 | src/common/common_funcs.h:65-75 | For every reduced amount including 0, rotating right undoes rotating left |
| CommonFuncs.RotateLeftUndoesRight32 | src/common/common_funcs.h:65-75 | For every reduced amount including 0, rotating left undoes rotating right |
| CommonFuncs.Rotl | src/common/common_funcs.h:65-69 | An amount that is a multiple of 32 leaves x unchanged |
| CommonFuncs.Rotr | src/common/common_funcs.h:71-75 | An amount that is a multiple of 32 leaves x unchanged |
| CommonFuncs.RotlRotrInverse | src/common/common_funcs.h:65-75 | _rotl and _rotr undo each other for every shift amount |
| CommonFuncs.RotlMovesBits | src/common/common_funcs.h:65-69 | _rotl moves bit i of x to bit (i + shift mod 32) mod 32, for every bit |
| CommonFuncs.RotrMovesBits | src/common/common_funcs.h:71-75 | _rotr puts bit (i + shift mod 32) mod 32 of x at bit i, for every bit |
| CommonFuncs.RotateByOne | src/common/common_funcs.h:65-75 | Rotating 0x80000001 left by one gives 3 and back; rotating 1 right by one gives 0x80000000; an amount of 33 acts as 1 |
| CommonFuncs.Rotr64UndoesRotl64 | src/common/common_funcs.h:78-86 | For every amount that is not a multiple of 64, _rotr64 undoes _rotl64 |
| CommonFuncs.Rotl64UndoesRotr64 | src/common/common_funcs.h:78-86 | For every amount that is not a multiple of 64, _rotl64 undoes _rotr64 |
| CommonFuncs.Rotate64ByOne | src/common/common_funcs.h:78-86 | Rotating 0x8000000000000001 left by one gives 3 and back; rotating 1 right by one sets only the top bit; an amount of 65 acts as 1 |
| CommonFuncs.Swap16 | src/common/common_funcs.h:202 | The high byte of the result is the low byte of the input and vice versa |
| CommonFuncs.Swap32 | src/common/common_funcs.h:203 | Byte i of the result is byte 3-i of the input |
| CommonFuncs.Swap64 | src/common/common_funcs.h:204 | Byte i of the result is byte 7-i of the input |
| CommonFuncs.SwapsAreInvolutions | src/common/common_funcs.h:202-204 | Swapping twice gives back the input, for all three widths |
| CommonFuncs.Swap24 | src/common/common_funcs.h:169 | The three bytes land big-endian in bits 23..0 and the top byte is 0 |
| KeyMap.NewDeviceId | src/common/key_map.cpp:13-15 | The id returned is the counter's value; the counter moves past it; the bindings are untouched |
| KeyMap.DeviceIdsCount | src/common/key_map.cpp:11-15 | n calls in a row hand out c, c+1, ..., c+n-1 and leave the counter at c+n |
| KeyMap.DeviceIdsIncrease | src/common/key_map.cpp:13-15 | Ids handed out one after another strictly increase, so no two devices share one |
| KeyMap.FirstIdsFromZero | src/common/key_map.cpp:11-15 | From the initial counter 0, the first n devices get ids 0..n-1 |
| KeyMap.SetKeyMapping | src/common/key_map.cpp:17-19 | The key is bound to the given buttons; the key set grows by exactly that key; every other binding is kept |
| KeyMap.GetPadKey | src/common/key_map.cpp:21-23 | A bound key yields its buttons and changes nothing; an unbound key yields 0 and the lookup binds it to 0; no other binding changes |
| KeyMap.SetThenGet | src/common/key_map.cpp:17-23 | Looking a key up right after binding it yields the buttons just bound |
| KeyMap.SetLeavesOthers | src/common/key_map.cpp:17-23 | Binding one key does not change what any other key looks up to |
| KeyMap.LastSetWins | src/common/key_map.cpp:17-19 | Binding a key twice is the same as binding it once to the later buttons |
| KeyMap.GetIdempotent | src/common/key_map.cpp:21-23 | A second lookup of the same key gives the same buttons and changes nothing more |
| HidPad.CircleAxis | src/core/hw/hid_pad.cpp:27-33 | An axis is -0x9C, 0 or 0x9C; it is 0 exactly when both or neither direction key is held, positive exactly when only the positive key is held |
| HidPad.UpdateNextCirclePadState | src/core/hw/hid_pad.cpp:27-33 | Afterwards the circle position agrees with the direction bits; the buttons are untouched; an already consistent position is kept |
| HidPad.PadButtonPress | src/core/hw/hid_pad.cpp:38-41 | Every bit of the mask is held afterwards, every bit held before stays held, and the circle position agrees with the new bits |
| HidPad.PressSetsOnlyMask | src/core/hw/hid_pad.cpp:38-41 | A press sets no bit that was neither held nor in the mask |
| HidPad.PadButtonRelease | src/core/hw/hid_pad.cpp:46-49 | Exactly the mask's bits are cleared and every other bit is kept; the circle position agrees with the new bits |
| HidPad.PressThenRelease | src/core/hw/hid_pad.cpp:38-49 | Pressing then releasing a mask leaves the mask's keys up and every other key as before |
| HidPad.PressHeldIsNoOp | src/core/hw/hid_pad.cpp:38-41 | Pressing keys that are all already held changes nothing |
| HidPad.PressIdempotent | src/core/hw/hid_pad.cpp:38-41 | Pressing the same mask twice is pressing it once |
| HidPad.PreviousIndex | src/core/hw/hid_pad.cpp:64 | The unsigned (index - 1) % 8 is a valid ring position |
| HidPad.PreviousIndexIsPredecessor | src/core/hw/hid_pad.cpp:64 | Because 8 divides 2^32, the wrapped subtraction gives the ring predecessor: 7 for entry 0, index-1 otherwise |
| HidPad.Additions | src/core/hw/hid_pad.cpp:68-73 | No bit counted as added was already set before |
| HidPad.Removals | src/core/hw/hid_pad.cpp:68-77 | No bit counted as removed is still set now |
| HidPad.DeltasDisjoint | src/core/hw/hid_pad.cpp:68-77 | No bit is both added and removed |
| HidPad.DeltasReconstruct | src/core/hw/hid_pad.cpp:68-77 | Clearing the removals from the old state and setting the additions yields the new state |
| HidPad.DeltasCoverChanges | src/core/hw/hid_pad.cpp:68-77 | Together the additions and removals are exactly the changed bits |
| HidPad.PadUpdateComplete | src/core/hw/hid_pad.cpp:55-95 | The pending position is published and advances mod 8. The entry at that index, and no other, gets the pending state, the deltas against the previous entry and the circle position. The reset-tick pair rolls over exactly when entry 0 is written |
| HidPad.UpdateRecordsDifference | src/core/hw/hid_pad.cpp:59-89 | The recorded deltas applied to the entry just before it in the ring give the recorded state |
| HidPad.RepeatedUpdateHasNoDelta | src/core/hw/hid_pad.cpp:55-89 | Two updates with no key change in between record empty deltas the second time |
| HidTouch.Publish | src/core/hw/hid_touch.cpp:19-36 | Ring bookkeeping: the pending position is published and advances mod 8; only the entry at that index changes; the reset ticks roll over exactly when entry 0 is written |
| HidTouch.TouchLocationUpdatedAsWritten | src/core/hw/hid_touch.cpp:16-39 | As written, the raw data holds (x, y) but the new history entry holds y as its x coordinate and keeps its old y coordinate |
| HidTouch.AsWrittenMisrecordsTouch | src/core/hw/hid_touch.cpp:28-31 | With a cleared history, a touch at (1, 2) is recorded as (2, 0) while the raw data says (1, 2) |
| HidTouch.AsWrittenLosesY | src/core/hw/hid_touch.cpp:28-31 | As written, the first touch after a release always records y = 0 in the history, with y in the x field |
| HidTouch.TouchLocationUpdated | src/core/hw/hid_touch.cpp:16-39 | Corrected: the raw data holds (x, y), valid. Ring bookkeeping is as for Publish |
| HidTouch.TouchEntryMatchesRaw | src/core/hw/hid_touch.cpp:23-31 | Corrected: the history entry written equals the raw data recorded |
| HidTouch.TouchReleased | src/core/hw/hid_touch.cpp:41-54 | Every history entry is cleared and the next write goes to entry 0; the published index, raw data and reset ticks are kept |
| HidTouch.ReleaseIdempotent | src/core/hw/hid_touch.cpp:41-54 | Releasing twice is releasing once |
| HidTouch.TouchAfterRelease | src/core/hw/hid_touch.cpp:16-54 | The first touch after a release writes entry 0, stamps new reset ticks and is the only valid entry in the history |
| ThreadQueueList.Empty | src/core/hle/kernel/priority_scheduler.h:65 | A fresh ready queue has 64 buckets, all empty |
| ThreadQueueList.FlattenSplit | src/core/hle/kernel/priority_scheduler.h:65 | The queue in priority order is the buckets before i, bucket i, then the buckets after it |
| ThreadQueueList.InFlatten | src/core/hle/kernel/priority_scheduler.h:65 | A thread is queued exactly when some bucket holds it |
| ThreadQueueList.PushBack | src/core/hle/kernel/priority_scheduler.cpp:231 | The thread joins the back of bucket p; no other bucket changes; the queued multiset gains exactly that thread |
| ThreadQueueList.PushFront | src/core/hle/kernel/priority_scheduler.cpp:229 | The thread joins the front of bucket p; no other bucket changes; the queued multiset gains exactly that thread |
| ThreadQueueList.Erase | src/core/hle/kernel/priority_scheduler.cpp:241 | Every occurrence of the thread leaves the bucket and every other entry stays; erasing an absent thread changes nothing |
| ThreadQueueList.EraseMultiset | src/core/hle/kernel/priority_scheduler.cpp:241 | Erasing drops every copy of the thread and keeps every other entry with its count |
| ThreadQueueList.EraseAppend | src/core/hle/kernel/priority_scheduler.cpp:241 | Erasing from a concatenation erases from each part |
| ThreadQueueList.Remove | src/core/hle/kernel/priority_scheduler.cpp:241 | Bucket p loses exactly its occurrences of the thread; other buckets and other threads' counts are unchanged |
| ThreadQueueList.FirstNonEmpty | src/core/hle/kernel/priority_scheduler.cpp:305-318 | The result is the first non-empty bucket in the range, or none when all are empty |
| ThreadQueueList.PopFirstBetter | src/core/hle/kernel/priority_scheduler.cpp:310 | Nothing is popped exactly when every bucket strictly better than p is empty; otherwise the front of the best such bucket is removed |
| ThreadQueueList.PopFrontFlatten | src/core/hle/kernel/priority_scheduler.cpp:310-312 | Taking the front of the first non-empty bucket takes the first thread in service order and leaves the others queued in the same order |
| ThreadQueueList.PopFirst | src/core/hle/kernel/priority_scheduler.cpp:312 | Nothing is popped exactly when the queue is empty; otherwise the first thread in priority order is removed and the rest keep their order |
| ThreadQueueList.PopFirstBetterIsPopFirstBelow | src/core/hle/kernel/priority_scheduler.cpp:305-318 | When pop_first_better finds a thread it is the one pop_first would take; when it finds none, pop_first's thread is the front of a bucket of priority p or worse |
| PriorityScheduler.Init | src/core/hle/kernel/priority_scheduler.h:99-105 | The empty scheduler satisfies the invariant: no threads, nothing current |
| PriorityScheduler.ClampPriority | src/core/hle/kernel/priority_scheduler.cpp:21-30 | The result is in [0, 63]; an in-range priority is kept; below 0 gives 0 and above 63 gives 63 |
| PriorityScheduler.SelectCore | src/core/hle/kernel/priority_scheduler.cpp:40-51 | The core chosen is core 0 or one whose probe bit passes the processor mask; with no cores it is core 0 |
| PriorityScheduler.SelectCorePicksFirstClear | src/core/hle/kernel/priority_scheduler.cpp:43-51 | If probe i (the mask shifted i times, i below the core count) is the first to find a clear processor-id bit, the thread goes to the core `~mask` of that probe |
| PriorityScheduler.SelectCoreDefaultsToCore0 | src/core/hle/kernel/priority_scheduler.cpp:40-51 | If no probe below the core count finds a clear processor-id bit, the thread stays on THREADPROCESSORID_0 |
| PriorityScheduler.SelectCoreExamples | src/core/hle/kernel/priority_scheduler.cpp:40-51 | With two cores, a processor id with bit 0 set and bit 1 clear picks core 1; with both bits set it falls back to core 0 |
| PriorityScheduler.SingleCoreSelectsCore0 | src/core/hle/kernel/priority_scheduler.cpp:40-51 | With the single registered core every thread goes to core 0 |
| PriorityScheduler.NewThreadId | src/core/hle/kernel/priority_scheduler.h:86-89 | Returns the counter and advances it, wrapping at 2^32 |
| PriorityScheduler.ThreadIdsIncrease | src/core/hle/kernel/priority_scheduler.h:86-89 | Below the wrap, n ids in a row are counter, counter+1, ... and strictly increase |
| PriorityScheduler.MakeReady | src/core/hle/kernel/priority_scheduler.cpp:224-235 | The thread becomes READY and nothing else in the thread table changes. Any thread, even one already READY, joins its priority bucket: at the front when it was RUNNING, at the back otherwise. The scheduler invariant is kept |
| PriorityScheduler.MakeNotReady | src/core/hle/kernel/priority_scheduler.cpp:237-245 | The thread takes the given status. A READY thread leaves its bucket and any other thread leaves the queue as it was. The invariant is kept |
| PriorityScheduler.PopNextReadyThread | src/core/hle/kernel/priority_scheduler.cpp:305-318 | With the current thread RUNNING, only a strictly better thread is taken; otherwise the first thread in priority order. Nothing is taken only when no such thread exists |
| PriorityScheduler.SwitchContext | src/core/hle/kernel/priority_scheduler.cpp:248-273 | The next thread becomes current and RUNNING. An outgoing thread is saved and made READY, and the log records the save and the load. Every other thread and the waiter lists are unchanged |
| PriorityScheduler.Reschedule | src/core/hle/kernel/priority_scheduler.cpp:276-303 | Charges 4000 ticks and logs only context switches. With nothing to pop, nothing else changes. Otherwise the popped thread becomes current. No thread changes anything but its status |
| PriorityScheduler.RemoveWaiter | src/core/hle/kernel/priority_scheduler.cpp:98-129 | The thread leaves the waiter list of every object it waited on and no other list changes |
| PriorityScheduler.ResumeFromWait | src/core/hle/kernel/priority_scheduler.cpp:98-129 | The thread becomes READY in its priority bucket. A WAIT_SYNC thread leaves the waiter lists of its objects. The pending wakeup is cancelled. The invariant is kept |
| PriorityScheduler.TruncDiv | src/core/hle/kernel/priority_scheduler.cpp:131-140 | Division truncates toward zero for both signs of the dividend |
| PriorityScheduler.WakeupDelay | src/core/hle/kernel/priority_scheduler.cpp:131-140 | A non-negative delay is converted to whole microseconds, rounded down; small negative delays give 0; larger negative ones wrap: the delay is 2^64 minus the truncated magnitude, mod 2^64 |
| PriorityScheduler.WakeThreadAfterDelay | src/core/hle/kernel/priority_scheduler.cpp:131-140 | -1 schedules nothing; any other delay schedules exactly one wakeup of the thread after the converted delay |
| PriorityScheduler.GetPriority | src/core/hle/svc.cpp:329 | The priority reported is in [0, 63] |
| PriorityScheduler.SetPriority | src/core/hle/kernel/priority_scheduler.cpp:143-163 | The clamped priority becomes current and nothing else in the thread table changes. A READY thread moves from its old bucket to the back of the new one unless the priority is unchanged: the old bucket keeps every other thread in its order, and the other buckets are untouched |
| PriorityScheduler.ScheduleThread | src/core/hle/kernel/priority_scheduler.cpp:32-70 | The thread is appended to the thread list with a fresh id and the clamped priority. It becomes READY at the back of its bucket. Existing threads are untouched |
| PriorityScheduler.BlockCurrent | src/core/hle/kernel/priority_scheduler.cpp:72-95 | The current thread records its wait and leaves the ready queue; the core reschedules; only context switches are logged; whoever runs next, the caller keeps the wait record it was given |
| PriorityScheduler.RescheduleAfterBlock | src/core/hle/kernel/priority_scheduler.cpp:276-318 | After the current thread blocks: with an empty queue it stays current, though not RUNNING; otherwise the first ready thread takes over |
| PriorityScheduler.WaitCurrentThreadSleep | src/core/hle/kernel/priority_scheduler.cpp:72-76 | The caller goes to WAIT_SLEEP and the core reschedules, charging 4000 ticks and logging only switches |
| PriorityScheduler.WaitCurrentThreadWaitSynchronization | src/core/hle/kernel/priority_scheduler.cpp:78-88 | The caller goes to WAIT_SYNC with the objects appended to its wait list and the given output and wait-all flags; the core reschedules |
| PriorityScheduler.WaitCurrentThreadArbitrateAddress | src/core/hle/kernel/priority_scheduler.cpp:90-95 | The caller goes to WAIT_ARB on the address and the core reschedules |
| PriorityScheduler.ExitCurrentThread | src/core/hle/kernel/priority_scheduler.cpp:166-181 | The caller's mutexes are released and its wakeup cancelled, in that order; it becomes DEAD, the threads waiting on it are resumed, and the core reschedules: the caller stays current only when nothing was queued and nobody was woken, and a RUNNING caller is made READY again by the switch when another thread takes over (as written) |
| PriorityScheduler.ExitResumesWaiters | src/core/hle/kernel/priority_scheduler.cpp:178-180 | Every thread waiting on the exiting thread ends READY, or RUNNING as the thread switched to |
| PriorityScheduler.ResumeAll | src/core/hle/kernel/priority_scheduler.cpp:178 | Each woken thread ends READY and every other thread is untouched |
| PriorityScheduler.ScanHighest | src/core/hle/kernel/priority_scheduler.cpp:184-211 | The scan keeps a waiter on the address whose priority is at most that of every waiter scanned (among equals the last one met), starting from the bound 63 |
| PriorityScheduler.HighestWaiter | src/core/hle/kernel/priority_scheduler.cpp:184-204 | The loop finds nothing exactly when no thread waits on the address; otherwise it finds a waiter on the address whose priority is at least as good as every other waiter's |
| PriorityScheduler.HighestWaiterIsLastOfEquals | src/core/hle/kernel/priority_scheduler.cpp:199-202 | Because the comparison is `<=`, every waiter later in thread_list than the one found has a strictly worse priority: among equals the last wins |
| PriorityScheduler.ArbitrateHighestPriorityThread | src/core/hle/kernel/priority_scheduler.cpp:184-211 | No thread is returned exactly when nothing waits on the address, and then nothing changes. Otherwise the thread returned waits there, has the best priority of all such waiters, is the one HighestWaiter finds (so the last of equals), and is resumed |
| PriorityScheduler.ArbitrateAllThreads | src/core/hle/kernel/priority_scheduler.cpp:214-221 | Every thread waiting on the address is resumed and every other thread is unchanged; each waiter is appended to the back of its priority's bucket in thread_list order (ArbEnqueued) and logged as a cancelled wakeup in that order (ArbCancellations); no wait object's waiter list changes |
| PriorityScheduler.ArbEnqueuedIsTheWaiters | src/core/hle/kernel/priority_scheduler.cpp:214-221 | What ArbitrateAllThreads appends to bucket p is exactly the threads waiting on the address with priority p |
| PriorityScheduler.ThreadWakeupCallback | src/core/hle/kernel/priority_scheduler.cpp:367-387 | An unknown handle changes nothing. A thread in WAIT_SYNC gets the timeout result, and output -1 when it asked for output, and leaves every waiter list it was on. The thread is then resumed: it alone becomes READY, only its own bucket changes (front if RUNNING, else back), the current thread is kept, and the log gains exactly the timeout entries, the cancelled wakeup and, for a thread not waiting, the failed assertion |
| Threads.ZeroContext | src/core/hle/kernel/thread.cpp:46 | Every CPU and FPU register of the cleared context is 0 |
| Threads.ResetThread | src/core/hle/kernel/thread.cpp:45-57 | The context becomes the start-up context (r0 = arg, pc = entry point, sp = stack top, user-mode cpsr, mode 8) and nothing else about the thread changes |
| Threads.StartContextUnique | src/core/hle/kernel/thread.cpp:45-57 | The start-up context is fully determined by the argument, entry point and stack top |
| Threads.ResetForgetsContext | src/core/hle/kernel/thread.cpp:45-57 | Resetting gives the same context whatever the context was before |
| Threads.Create | src/core/hle/kernel/thread.cpp:75-110 | A stack below 0x200 gives InvalidSize, then an unmapped entry point gives InvalidAddress, then a handle-table failure passes its code through; only success changes the handle table, and the new thread holds the given fields and the start-up context |
| Threads.Acquire | src/core/hle/kernel/thread.cpp:38-40 | The assertion holds exactly when the thread is DORMANT |
| Threads.SetWaitSynchronizationResult | src/core/hle/kernel/thread.cpp:26-28 | r0 takes the raw result and nothing else about the thread changes |
| Threads.SetWaitSynchronizationOutput | src/core/hle/kernel/thread.cpp:30-32 | r1 takes the output's 32-bit pattern and nothing else about the thread changes |
| Threads.ResultAndOutputCommute | src/core/hle/kernel/thread.cpp:26-32 | Setting the result and the output in either order gives the same thread |
| Threads.TimeoutOutputAllOnes | src/core/hle/kernel/thread.cpp:30-32 | The output -1 a timeout writes is 0xFFFFFFFF in r1 |
| Kernel.Acquire | src/core/hle/svc.cpp:142 | Acquiring an available object logs exactly its acquisition; any acquisition is logged first; a single-use object becomes unavailable and no other object's availability changes; nothing else but the log changes |
| Kernel.AcquireConsumesSingleUse | src/core/hle/svc.cpp:142 | After acquiring a single-use object it has to be waited on, while every other object is exactly as available as before |
| Kernel.AddWaitingThread | src/core/hle/svc.cpp:132 | The thread joins the object's waiter list and no other list changes |
| Kernel.Write32 | src/core/hle/kernel/address_arbiter.cpp:68 | The word written reads back; every other word is unchanged |
| Kernel.ToS32 | src/core/hle/kernel/address_arbiter.cpp:55 | The signed reading of a word is in the s32 range and is negative exactly when the top bit is set |
| Kernel.S32RoundTrip | src/core/hle/kernel/address_arbiter.cpp:67-68 | Storing a signed value as a word and reading it back signed is the identity, in both directions |
| Kernel.Decrement | src/core/hle/kernel/address_arbiter.cpp:67 | Decrementing a word wraps: 0 becomes 0xFFFFFFFF and any other word goes down by one |
| Kernel.TimeoutSurvivesU64 | src/core/hle/svc.cpp:246-250 | Passing the s64 timeout through the u64 parameter and back preserves it, and -1 is all ones |
| AddressArbiter.HighestLeavesTheOthers | src/core/hle/kernel/priority_scheduler.cpp:184-211 | Arbitrating the highest waiter removes exactly that waiter from the address's waiters and schedules no wakeup |
| AddressArbiter.SignalCount | src/core/hle/kernel/address_arbiter.cpp:44-50 | Signalling n waiters leaves max(0, W - n) of the W waiters, touches no thread that was not waiting, changes no priority, schedules no wakeup, and resumes best priority first: every resumed waiter's priority is at least as good as every remaining waiter's |
| AddressArbiter.ArbitrateAllSchedulesNoWakeup | src/core/hle/kernel/priority_scheduler.cpp:214-221 | Resuming every waiter schedules no wakeup |
| AddressArbiter.ArbitrateAllEmptiesAddress | src/core/hle/kernel/priority_scheduler.cpp:214-221 | Afterwards nothing waits on the address and every former waiter is READY |
| AddressArbiter.WaitOnAddress | src/core/hle/kernel/address_arbiter.cpp:54-83 | The caller waits on the address with a reschedule; a wakeup is scheduled exactly for the timed types with a timeout other than -1, and for the thread current after the reschedule |
| AddressArbiter.ArbitrateAddress | src/core/hle/kernel/address_arbiter.cpp:33-90 | A non-arbiter handle gives InvalidHandle and an unknown type InvalidEnumValue, both changing nothing; every known type succeeds; only the decrementing types write memory, and they write the decremented word |
| AddressArbiter.SignalResumes | src/core/hle/kernel/address_arbiter.cpp:42-51 | A negative value resumes every waiter on the address; otherwise max(0, W - value) of the W waiters remain, and every resumed waiter has a priority at least as good as every remaining one; memory is untouched and no wakeup is scheduled |
| AddressArbiter.WaitsIffComparisonHolds | src/core/hle/kernel/address_arbiter.cpp:54-83 | A waiting type blocks the caller, charging a reschedule, exactly when the signed word (decremented first for the decrementing types) is at most the value; otherwise the scheduler is untouched |
| AddressArbiter.WakeupIffTimedWait | src/core/hle/kernel/address_arbiter.cpp:59-83 | A wakeup is scheduled exactly when the handle is an arbiter, the type has a timeout, the comparison holds and the timeout is not -1 |
| AddressArbiter.AloneWaitsOnAddress | src/core/hle/kernel/address_arbiter.cpp:54-83 | With nothing else ready, a waiting caller stays current in WAIT_ARB on the address |
| AddressArbiter.TimeoutGoesToNewCurrent | src/core/hle/kernel/address_arbiter.cpp:59-63 | When another thread takes over, the timed wakeup is scheduled for that thread, not for the waiter |
| Svc.WaitSynchronization1 | src/core/hle/svc.cpp:121-145 | An unknown handle gives InvalidHandle and changes nothing. An available object is acquired with Success. Otherwise the caller joins the object's waiters, its wait list gains the object, it asks for no output and does not wait for all, it blocks with a reschedule, and the result is the sentinel. No output is written |
| Svc.WaitOnOne | src/core/hle/svc.cpp:130-136 | The caller joins the object's waiters, its wait list gains the object alone with no output and no wait-all, one reschedule is charged, and nothing but the scheduler changes |
| Svc.Wait1Timeout | src/core/hle/svc.cpp:130-136 | A blocked call logs only context switches, then, unless the timeout is -1, one wakeup with the converted delay for the thread current after the reschedule |
| Svc.Wait1AloneBlocksCaller | src/core/hle/svc.cpp:130-136 | With nothing else ready, the blocked caller stays current in WAIT_SYNC on the object alone, asks for no output and is a waiter of the object |
| Svc.ScanHandles | src/core/hle/svc.cpp:166-189 | The scan fails exactly when some handle names no wait object. Wait-all decides to wait when some object is unavailable. Wait-any keeps the first available handle as selected |
| Svc.FirstAvailable | src/core/hle/svc.cpp:182-187 | The first available object's position, with every earlier object unavailable; none when all are unavailable |
| Svc.BlockOn | src/core/hle/svc.cpp:204-206 | One block step adds the caller to that object's waiters only, charges one reschedule and logs only switches |
| Svc.BlockOnEachFillsWaiters | src/core/hle/svc.cpp:203-207 | Every object named ends with a waiter |
| Svc.BlockOnEachLeavesOthers | src/core/hle/svc.cpp:203-207 | An object not named keeps its waiters |
| Svc.BlockAloneJoinsAll | src/core/hle/svc.cpp:203-207 | With nothing else ready, the caller is a waiter of every object named |
| Svc.BlockAloneWaitsOnAll | src/core/hle/svc.cpp:203-207 | With nothing else ready, the caller's wait list gains the objects in order |
| Svc.BlockAloneSleeps | src/core/hle/svc.cpp:203-207 | With nothing else ready and at least one object, the caller ends in WAIT_SYNC, asking for output, with its wait-all flag |
| Svc.AcquireLoop | src/core/hle/svc.cpp:217-229 | Each object is checked when the loop reaches it, in the state the earlier acquisitions left; wait-any acquires only the first available one, or none; only acquired single-use objects become unavailable |
| Svc.AcquireLoopTakesAll | src/core/hle/svc.cpp:217-229 | Wait-all with every object available and no single-use object named twice acquires every object, in handle order |
| Svc.AcquireKeepsOthers | src/core/hle/svc.cpp:220-222 | Acquiring one object leaves every later handle as available as it was when no single-use object is named twice |
| Svc.WaitAllTakesSingleUseOnce | src/core/hle/svc.cpp:217-229 | A wait-all naming one available single-use object twice acquires it once: the second check finds it taken |
| Svc.Acquisitions | src/core/hle/svc.cpp:217-229 | The log of acquisitions lists exactly the objects, in order |
| Svc.WaitSynchronizationN | src/core/hle/svc.cpp:148-236 | A null array gives InvalidPointer, a negative count OutOfRange and an unknown handle InvalidHandle, all changing nothing. Otherwise the result is Success with an output or the sentinel without one |
| Svc.WaitNWithHandles | src/core/hle/svc.cpp:166-236 | A positive count works on exactly the first count handles |
| Svc.WaitBlocksIff | src/core/hle/svc.cpp:166-214 | Wait-all blocks exactly when some object is unavailable; wait-any exactly when every object is |
| Svc.WaitAllAcquiresEvery | src/core/hle/svc.cpp:216-235 | Wait-all with every object available, and no single-use object named twice, acquires them all in handle order and outputs 0 |
| Svc.WaitAnyAcquiresFirst | src/core/hle/svc.cpp:216-235 | Wait-any acquires only the first available object and outputs its position |
| Svc.WaitBlocked | src/core/hle/svc.cpp:199-214 | A call that must block (wait-all with some object unavailable, wait-any with all unavailable) takes the blocking path over the named objects, with no output |
| Svc.BlockAllTimeout | src/core/hle/svc.cpp:199-214 | The blocking path charges one reschedule per object and logs only switches. It then schedules a wakeup, unless the timeout is -1, for the thread current at the end |
| Svc.BlockAllFillsWaiters | src/core/hle/svc.cpp:199-214 | Every named object ends with a waiter; with nothing else ready, that waiter is the caller |
| Svc.BlockAllLeavesOthers | src/core/hle/svc.cpp:199-214 | Objects not named keep their waiters |
| Svc.BlockAllAloneBlocksCaller | src/core/hle/svc.cpp:199-214 | With nothing else ready, the caller stays current in WAIT_SYNC on all the objects |
| Svc.WaitNNoHandles | src/core/hle/svc.cpp:190-197 | With no handles, wait-all succeeds at once with output 0; wait-any blocks the caller on no object |
| Svc.GetThreadPriority | src/core/hle/svc.cpp:324-331 | A non-thread handle gives InvalidHandle; a thread gives Success with its priority, which is in [0, 63]; nothing changes |
| Svc.SetThreadPriority | src/core/hle/svc.cpp:334-342 | A non-thread handle gives InvalidHandle and changes nothing; a thread gives Success, and the current thread and the log are unchanged |
| Svc.SetThenGetPriority | src/core/hle/svc.cpp:324-342 | Reading a priority right after setting it gives the clamped value set |
| Svc.SetPriorityIdempotent | src/core/hle/svc.cpp:334-342 | Setting the same priority twice is setting it once |
| Svc.SetPriorityLeavesOthers | src/core/hle/svc.cpp:324-342 | Setting one thread's priority does not change any other thread's reported priority |
| Svc.SleepThread | src/core/hle/svc.cpp:455-463 | Sleeping charges one reschedule and leaves the handle table and memory alone |
| Svc.SleepSchedulesWakeup | src/core/hle/svc.cpp:459-462 | Only switches are logged, then a wakeup unless the timeout is -1. The wakeup is for the thread current after the reschedule and uses the converted delay |
| Svc.SleepAlone | src/core/hle/svc.cpp:455-463 | With nothing else ready, the sleeper stays current in WAIT_SLEEP |
| Svc.SleepRequeuesSleeper | src/core/hle/svc.cpp:459-462 | When another thread takes over, the sleeper is put back in the ready queue and the wakeup goes to the new thread |
| Svc.ArbitrateAddress | src/core/hle/svc.cpp:246-251 | The call yields InvalidHandle, InvalidEnumValue or Success and writes no output |
| Svc.ArbitrateForeverSchedulesNoWakeup | src/core/hle/svc.cpp:246-251 | A timeout of -1 passed through the call never schedules a wakeup |
| Svc.ValueIsSigned | src/core/hle/svc.cpp:246-250 | The value register is compared signed: wait-if-less-than 0xFFFFFFFF on a word holding 0 does not wait |

## Left out

- I/O and timing:
  - CoreTiming is replaced by `WakeupScheduled`/`WakeupCancelled` entries in the effect log; `ThreadWakeupCallback` is the handler a fired wakeup would run.
  - `GetTicks` is a parameter of the HID updates.
  - The HID event signalling at hid_pad.cpp:98 and hid_touch.cpp:38 is not modelled.
- The CPU engine: `SaveContext`/`LoadContext` are `ContextSaved`/`ContextLoaded` effects, and the register file exists only as the `Thread` context.
- `Init`, `Shutdown`, `RegisterCore`, `SetCurrentCore`, `Update`/`CoreUpdate` and the system core are not modelled. Only the single application core is, as core.cpp registers only that one.
- System calls not named above are out of scope: CreateThread, ExitThread, mutexes, semaphores, events, timers, memory mapping and IPC. So are `SetupIdleThread`, `SetupMainThread` and `DebugThreadQueue`.
- The handle table internals are not modelled. A handle resolves through a map, and `Create`'s slot result is a parameter.
- Wait objects other than threads (kernel.cpp is not part of this model) are abstract. Each is only available or not, with a set of waiting threads; a thread object is available exactly when DORMANT. Which objects an acquisition makes unavailable (a mutex, a one-shot event, a semaphore's last count) is part of the state (`singleUse`), not derived from each object's kind.
- `WakeupAllWaitingThreads` belongs to that wait-object code, so ExitCurrentThread takes the threads it resumes, in order, as a parameter.
- The `ThreadQueueList` header is not part of this model. Its assumed behaviour:
  - 64 FIFO buckets;
  - `remove` erases every occurrence;
  - `pop_first_better(p)` considers only buckets strictly better than p.
- The values of the thread-status and arbitration-type enums are not shown. Assumed:
  - one bit per status;
  - arbitration types Signal = 0, WaitIfLessThan = 1, DecrementAndWaitIfLessThan = 2, WaitIfLessThanWithTimeout = 3, DecrementAndWaitIfLessThanWithTimeout = 4.
- hid_pad.h and key_map.h are not part of this model. Assumed:
  - the circle direction bits are 28-31;
  - a `HostDeviceKey` is a key code and a device id.
- `Memory::Read32` of an unmapped word is taken to read 0.
- Floating point: the touch coordinates arrive as floats and are cast to u16. The model takes the coordinates as u16 already.
- HidPad.PadUpdateComplete: the circle position is kept as an unbounded integer rather than s16; ±0x9C fits either way.
- KeyMap.NewDeviceId: does not model the signed overflow of `next_device_id` after 2^31 devices, because that is undefined behaviour in the source.
- CommonFuncs.Rotl64: defined only for amounts that are not a multiple of 64, because the source then shifts by 64, which is undefined behaviour; Rotr64 likewise. Their inverse property is stated by Rotr64UndoesRotl64 and Rotl64UndoesRotr64, and their bit movement only by the concrete cases of Rotate64ByOne: a bit-position statement for every 64-bit amount is beyond what the solver settles within the resource bound.
- PriorityScheduler.GetPriority: its body is not part of this model; it is taken to read the thread's current priority.
- Svc.WaitSynchronizationN: the output pointer is taken to be non-null; the assertion at svc.cpp:158 is not modelled, because the call's output is a Reply field rather than a pointer the caller passes.
- Svc.SleepThread: its own contract says only what the call leaves alone and the ticks it charges; the effect log is stated by Svc.SleepSchedulesWakeup.
- Behaviour that looks unintended is modelled as the code does it, not corrected:
  - SwitchContext makes any outgoing thread READY, even one that was blocking.
  - ResumeFromWait queues a thread that was already READY a second time.
  - The timeout of every blocking call is attached to the thread current after the reschedule (Svc.SleepRequeuesSleeper, AddressArbiter.TimeoutGoesToNewCurrent).
  - WaitSynchronizationN blocks and reschedules once per object.

## Findings

| source | as written | input that shows it | evidently intended | confidence | as-written member | corrected member |
|---|---|---|---|---|---|---|
| src/core/hw/hid_touch.cpp:29-30 | The history entry's x coordinate is assigned x and then y; its y coordinate is never written | A touch at (1, 2) after a release is recorded in the history as (2, 0) while the raw data holds (1, 2) | The history entry holds (x, y), the same position as the raw data | high (not executed) | HidTouch.TouchLocationUpdatedAsWritten, HidTouch.AsWrittenMisrecordsTouch | HidTouch.TouchLocationUpdated, HidTouch.TouchEntryMatchesRaw |
