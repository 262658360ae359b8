# Shared state in the kernel modules

Seven source files of the repository hold shared state with invariants of their own.  This project models
them and proves what they keep, over every call and over every interleaving.

| module | models |
|---|---|
| `ListHead` | the kernel's circular list as linked nodes on the heap: INIT_LIST_HEAD, list_add, list_del, and the safe traversal that deletes while it walks |
| `TaskList`, `TaskListRuns`, `TaskListCalls`, `TaskListExpiry` | the synchronised task list of `list_sync.c` |
| `Deferred`, `DeferredRuns`, `DeferredCalls`, `DeferredFiring`, `DeferredMonitoring`, `DeferredExit` | the deferred-work device of `deferred.c` |
| `Keyboard`, `KeyboardRuns`, `KeyboardDelivery`, `KeyboardCalls` | the keystroke ring of `kbd.c` |
| `TryLock` | the flag that the three char devices take by cmpxchg and clear by atomic_set |
| `MessageBuffer` | the device_read that `char_device.c` and `char_dev_example.c` share |
| `MessageDevice`, `MessageRuns`, `MessageCalls`, `MessageHistory` | the message device of `char_device.c` and its client in `userspace_ioctl.c` |
| `Greeter`, `GreeterRuns` | the exclusive-open device of `char_dev_example.c` |
| `So2`, `So2Runs`, `So2Sessions` | the byte device of `so2_cdev.c` |

Each device has a module with a class with the source's fields, whose methods change them in
place and are proved against functions on values, and a `...Runs` module with a machine of steps: one per locked
region or atomic access, several where the code lets others in between.  The steps use the same functions, or, where
a call takes several of them, a lemma shows that undisturbed they do what the method's contract says
(`UndisturbedAdd`, `UndisturbedSet`, `UndisturbedCancel`, `UndisturbedMon`, `UndisturbedFiring`,
`UndisturbedIteration`, `QuietRead`, `QuietWrite`, `SessionRefines`).  What a machine records for the theorems is
shown to be the history of its steps (`AddsInHistory`, `EventsAreInterrupts`, `SetsRecorded`, `OpensCounted`).  A
traversal under a lock visits one node per step, because jiffies, dying tasks and the unlocked parts of
other threads go on meanwhile.  Theorems about runs quantify over every trace of the machine, with any
number of threads.  Where a step of the machine needs an index to be in bounds to be defined, a lemma shows
that it always is (`VisitInBounds`, `CheckInBounds`, `AlwaysEnabled`, both lemmas named `AccessesInBounds`,
`GreeterRuns.ReadProgresses`).

Some fields are bookkeeping for the theorems and are never read by a modelled operation: `touched` (the tick
of an entry's last jiffies read, unwrapped) and `hits` (its increments, unwrapped) beside the wrapped
`timestamp` and `count`; the freed nodes; the completed adds; the references held; the accepted characters,
who dequeued them, and which of them were lost or discarded; the completed strings of SET_MSG.

Five expectations that one may have of the code turn out to need a condition.  For each the exact condition is
proved, in both directions, and a failing case is given:

* A count of 5 pins an entry of the task list only until the 32-bit counter wraps (`PinnedWhile` gives the exact
  condition for an entry, `PinnedInRuns` for every scan of every run, and `PinnedEntryFreed` is a run that frees an
  entry hit 2^31 times).
* What an expiry scan finds at its first jiffies read holds for the reads after it exactly if jiffies completes no lap
  relative to the entry meanwhile (`ExpiredThroughout`), and likewise backwards from its last read
  (`SparedThroughout`).  `LapMisleadsScan` is a run of a scan that gets one entry of each kind wrong.
* A MON ioctl keeps the polling going exactly if the mode is MON when it arms the timer (`PollingExactly`), and keeps
  it to its schedule, HZ ticks after the latest MON call or firing, exactly if, besides, no SET or ALLOC that took the
  mode earlier has yet to arm the timer (`MonitoringExactly`; `OverlappingSetPostpones` is such a run from the start).
* Module exit is sure to end exactly if no polling is going on, that is, unless the mode is MON and the timer pending
  or the handler on its way to re-arm it (`ExitSureExactly`).  With polling, the timer can fire again each time before
  timer_delete_sync gets its turn (`StarvingRun` is such a run from the start).  A kernel that is fair to
  timer_delete_sync ends every exit (`FairExitEnds`), and an exit ends exactly if the timer fires only finitely often
  while it lasts (`ExitEndsExactly`).
* The GET_NTH_BYTE loop prints the whole message exactly if the message is 7-bit, because a byte is returned
  as a signed char and a negative one reads as a failure (`GetNthByteLoop`; `NotSevenBit` is a message that SET_MSG
  stores and the loop cannot print).

## Model

| member | source | states |
|---|---|---|
| ListHead.SplitRank | kernel_api/kernel_lists/list_sync/list_sync.c:112-118 | With SplitSource: what a deleting traversal keeps is a subsequence of the original nodes; each kept node stands behind exactly the kept ones before it. |
| ListHead.SplitSource | kernel_api/kernel_lists/list_sync/list_sync.c:112-118 | The converse: every node of the result comes from an original position whose decision was to keep it. |
| ListHead.SplitPartitions | kernel_api/kernel_lists/list_sync/list_sync.c:112-118 | Kept and removed nodes together are the original nodes, none lost and none twice. |
| ListHead.List.Add | kernel_api/kernel_lists/list_sync/list_sync.c:76 | list_add relinks four pointers and leaves a well-formed ring (`next` and `prev` inverse all the way round, through the sentinel) with the new node in front and the others in order. |
| ListHead.List.Del | kernel_api/kernel_lists/list_sync/list_sync.c:115 | list_del leaves a well-formed ring without exactly that node, whose own links are poisoned. |
| ListHead.List.Visit | kernel_api/kernel_lists/list_sync/list_sync.c:112-118 | One iteration of the safe traversal: removing the current node does not disturb the step to the next one, which was read before. |
| ListHead.List.RemoveIf | kernel_api/kernel_lists/list_sync/list_sync.c:112-118 | The whole traversal leaves a well-formed ring of the kept nodes, in order and with untouched fields, and frees each removed node exactly once, unlinked. |
| TaskList.AgeAcrossRollover | kernel_api/kernel_lists/list_sync/list_sync.c:114 | The unsigned subtraction is the true age modulo the width of an unsigned long across any rollover, and is the true age exactly when fewer ticks than that went by. |
| TaskList.PinnedWhile | kernel_api/kernel_lists/list_sync/list_sync.c:114 | Exactly when an entry expires, in true age and true number of hits: reaching 5 hits protects it until the counter wraps. |
| TaskList.PinWrapsAway | kernel_api/kernel_lists/list_sync/list_sync.c:114 | An entry with 2^31 hits that does expire. (With line 68.) |
| TaskList.TouchCoherent | kernel_api/kernel_lists/list_sync/list_sync.c:67-68 | A hit keeps timestamp and count equal to the true tick and true number of hits, each wrapped to its width. |
| TaskList.TaskTable.FindPid | kernel_api/kernel_lists/list_sync/list_sync.c:45-58 | Returns the first node with the pid, and null exactly if there is none. |
| TaskList.TaskTable.Lookup | kernel_api/kernel_lists/list_sync/list_sync.c:64-72 | The first locked region: on a hit refreshes and counts exactly that entry, otherwise changes nothing. |
| TaskList.TaskTable.AddToList | kernel_api/kernel_lists/list_sync/list_sync.c:60-78 | A hit refreshes the first entry of the pid in place, a miss puts a fresh entry with count 0 in front; all other entries and the freed nodes stay. |
| TaskList.FourListed | kernel_api/kernel_lists/list_sync/list_sync.c:80-86 | After the four adds all four pids are listed, stamped no earlier than the first jiffies read, and so is every pid that was before. |
| TaskListCalls.FourFresh | kernel_api/kernel_lists/list_sync/list_sync.c:80-86 | For four distinct pids none of which is listed, the list gets four fresh entries in front, each with count 0, the last pid first, and nothing else. |
| TaskListCalls.FourWeigh | kernel_api/kernel_lists/list_sync/list_sync.c:80-86 | Whatever pids coincide or are listed, each of the four calls counts exactly one add for its pid. |
| TaskListCalls.AddWeighs | kernel_api/kernel_lists/list_sync/list_sync.c:60-78 | One call counts one add for its pid and none for another, and adds an entry exactly if the pid was not listed. |
| TaskList.TaskTable.AddForCurrent | kernel_api/kernel_lists/list_sync/list_sync.c:80-86 | The four calls do that to the ring: all four pids are listed as of the tick at which it started, no recent entry is lost and nothing is freed. |
| TaskList.TaskTable.Sweep | kernel_api/kernel_lists/list_sync/list_sync.c:106-135 | remove_expired, which reads jiffies anew at each node, keeps exactly the nodes not expired at their own read, in order, and frees the others once; purge empties the ring. |
| TaskListRuns.DuplicatesBoundedByOverlap | kernel_api/kernel_lists/list_sync/list_sync.c:60-78 | If at most k adds of a pid are ever between miss and insertion together, its copies plus those pending adds never exceed k, in any run with any scans. (With lines 106-135.) |
| TaskListRuns.DuplicatesBoundedByThreads | kernel_api/kernel_lists/list_sync/list_sync.c:60-78 | With T threads, copies plus pending adds of a pid never exceed T. (With lines 106-135.) |
| TaskListRuns.BoundIsAttained | kernel_api/kernel_lists/list_sync/list_sync.c:64-77 | For every T some run of T threads leaves T nodes with one pid: the unlock between lookup and insertion matters and the bound is tight. |
| TaskListRuns.UniqueWithoutOverlap | kernel_api/kernel_lists/list_sync/list_sync.c:60-78 | If no two adds of one pid overlap, pids are unique in the list at all times. |
| TaskListRuns.AddsConserved | kernel_api/kernel_lists/list_sync/list_sync.c:60-78 | In every run the completed adds of a pid are the sum of 1 plus the hits over its live and its removed entries. (With lines 32-43, 106-135.) |
| TaskListCalls.AddsInHistory | kernel_api/kernel_lists/list_sync/list_sync.c:60-78 | The same of the steps themselves: the adds that the steps of a run completed are the sum of 1 plus the hits over its live and its removed entries. (With lines 106-135.) |
| TaskListRuns.UndisturbedAdd | kernel_api/kernel_lists/list_sync/list_sync.c:60-78 | The steps of one add, when no other thread gets in between, do to the list what AddToList's contract says. |
| TaskListRuns.InvAlways | kernel_api/kernel_lists/list_sync/list_sync.c:60-78 | In every run: entries coherent and never stamped in the future, at most one scan, and a scan in progress has split what it visited by its decisions and left the rest alone. (With lines 106-135.) |
| TaskListRuns.VisitInBounds | kernel_api/kernel_lists/list_sync/list_sync.c:112-113 | A scan can always visit its next node, or unlock when there is none, and the node it visits is the one it locked. |
| TaskListRuns.TraversalOutcome | kernel_api/kernel_lists/list_sync/list_sync.c:106-135 | When a scan unlocks, the list is the kept subsequence of the list it locked, though other threads allocated and time passed meanwhile; after a purge it is empty. |
| TaskListCalls.PurgeEmpties | kernel_api/kernel_lists/list_sync/list_sync.c:123-135 | A whole purge, from lock to unlock, leaves an empty list. |
| TaskListCalls.ExpiryLeaves | kernel_api/kernel_lists/list_sync/list_sync.c:106-120 | A whole expiry scan leaves exactly the entries it found at its lock, in order and untouched, without those expired at their own read, and each read lies between lock and unlock. |
| TaskListExpiry.ExpiryIsStable | kernel_api/kernel_lists/list_sync/list_sync.c:114 | Within one lap of jiffies relative to an entry, expired stays expired. |
| TaskListExpiry.ExpiryScanOutcome | kernel_api/kernel_lists/list_sync/list_sync.c:106-120 | In every run a scan drops exactly the entries expired at their own jiffies read, which lies between its first and its last; so an entry expired at the first read is gone and one not expired at the last remains, if no lap relative to it ends between the two. |
| TaskListExpiry.PinnedInRuns | kernel_api/kernel_lists/list_sync/list_sync.c:114 | In every run, the entries that an expiry scan drops are exactly those whose age at their own read, modulo the width, is beyond the limit and whose number of hits reads below 5 in 32 bits. |
| TaskListExpiry.ExpiredThroughout | kernel_api/kernel_lists/list_sync/list_sync.c:114 | That condition is exact: an entry expired at one tick is expired at every tick up to another if and only if no lap relative to it ends in between. |
| TaskListExpiry.SparedThroughout | kernel_api/kernel_lists/list_sync/list_sync.c:114 | Likewise backwards: an entry not expired at one tick was not expired at any tick since another if and only if no lap ended in between, or its count is at least 5, or no age can exceed the limit. |
| TaskListExpiry.LapMisleadsScan | kernel_api/kernel_lists/list_sync/list_sync.c:106-120 | A run in which a lap ends between the two reads of one scan, for any clock: the entry expired at the first read stays, and the one not expired at the last is freed. |
| TaskListExpiry.LapRescuesEntry | kernel_api/kernel_lists/list_sync/list_sync.c:114 | An entry that is expired at one tick and not at the next, when the lap ends there. |
| TaskListExpiry.HitsReachable | kernel_api/kernel_lists/list_sync/list_sync.c:64-71 | Every number of hits of one entry is reached by some run. |
| TaskListExpiry.PinnedEntryFreed | kernel_api/kernel_lists/list_sync/list_sync.c:106-120 | A run in which an expiry scan frees an entry that was hit 2^31 times. |
| TaskListRuns.RetainedAfterAdd | kernel_api/kernel_lists/list_sync/list_sync.c:60-78 | For 3 * HZ ticks after a tick u, no scan of any thread takes away the last entry of a pid whose add read jiffies at u or later; only a purge can. (With lines 106-120.) |
| TaskListRuns.CallCompletes | kernel_api/kernel_lists/list_sync/list_sync.c:60-78 | A call of add_to_list, hit or miss, ends in a step whose entry carries its pid and a jiffies read no older than the start of the call. |
| TaskListRuns.AddForCurrentRetained | kernel_api/kernel_lists/list_sync/list_sync.c:60-86 | Any number of expiry scans within 3 * HZ ticks of the start of add_for_current leave all its pids in the list, with any other threads running. (With lines 106-120.) |
| Deferred.Device.GetProc | deferred_work/deferred/kernel/deferred.c:50-69 | ESRCH without a task and ENOMEM without memory, each with no reference taken; otherwise a new node for the task and one more reference on it. |
| Deferred.Device.Reap | deferred_work/deferred/kernel/deferred.c:91-98 | The traversal drops exactly the chosen nodes, frees each once and puts exactly their references, so that references and nodes balance again. (With lines 212-216.) |
| Deferred.Device.TimerHandler | deferred_work/deferred/kernel/deferred.c:78-104 | What a firing does in each mode: queue work, drop the dead and re-arm for HZ ticks, or nothing. |
| Deferred.Device.Ioctl | deferred_work/deferred/kernel/deferred.c:121-158 | Mode, timer, list and error of every command; a failing or unknown one changes nothing; references and nodes stay balanced. |
| Deferred.Device.Exit | deferred_work/deferred/kernel/deferred.c:209-216 | After exit no timer, no work, no node and no reference is left and every node was freed once, in order. |
| DeferredRuns.ReferencesConserved | deferred_work/deferred/kernel/deferred.c:140-153 | At every point of every run, for every task, the references held equal the nodes for it that are linked or got and not yet linked, however often it is monitored and whatever the mode. (With lines 50-69, 89-99, 212-216.) |
| DeferredRuns.NodesConserved | deferred_work/deferred/kernel/deferred.c:95-96 | Every node ever made is in exactly one place: linked once, about to be linked, or freed once. (With lines 61, 147, 214-215.) |
| DeferredRuns.NoUseAfterFree | deferred_work/deferred/kernel/deferred.c:91-98 | No step of any run touches a node that was freed. (With lines 147, 212-216.) |
| DeferredRuns.InvAlways | deferred_work/deferred/kernel/deferred.c:78-104 | In every run a traversal in progress has split what it visited by its checks, and each stage of exit holds what the earlier ones took down. (With lines 121-158, 199-217.) |
| DeferredCalls.UndisturbedSet | deferred_work/deferred/kernel/deferred.c:129-139 | The steps of one SET or ALLOC ioctl, when nobody gets in between, leave its mode and its deadline and touch nothing else. |
| DeferredCalls.UndisturbedCancel | deferred_work/deferred/kernel/deferred.c:133-135 | A CANCEL, while no handler runs, stops the timer and touches nothing else. |
| DeferredCalls.CancelHolds | deferred_work/deferred/kernel/deferred.c:133-135 | In every run, from a CANCEL until an ioctl arms the timer again, the timer is stopped, no handler runs and nothing fires. |
| DeferredCalls.FiringReaps | deferred_work/deferred/kernel/deferred.c:89-100 | A whole MON firing, from its lock to its unlock, leaves no node of a task that was dead at the lock and every node it found of a task still alive at the unlock, and adds none. |
| DeferredCalls.DeadIsReaped | deferred_work/deferred/kernel/deferred.c:89-100 | A task that died before a MON firing took the lock is not monitored after it. |
| DeferredCalls.WorkConserved | deferred_work/deferred/kernel/deferred.c:85-87 | In every run each queueing of the work is one run of the work handler: done, going on or still to come. (With lines 73-76.) |
| DeferredCalls.WorkDoneAtExit | deferred_work/deferred/kernel/deferred.c:210 | When exit has ended every queued work has been started and finished. |
| DeferredRuns.CheckInBounds | deferred_work/deferred/kernel/deferred.c:91 | A traversal can always check its next node, or end, and the node it checks is the one it locked. |
| DeferredRuns.FiringOutcome | deferred_work/deferred/kernel/deferred.c:90-99 | A MON firing removes exactly the nodes whose task is dead at its own check, keeps the rest in order, and misses none that was dead when the lock was taken. |
| DeferredRuns.UndisturbedMon | deferred_work/deferred/kernel/deferred.c:140-153 | The four steps of one MON ioctl, when nobody gets in between, do what Device.Ioctl's contract says. |
| DeferredFiring.UndisturbedFiring | deferred_work/deferred/kernel/deferred.c:78-104 | The steps of one whole firing, when nobody gets in between, do what Device.TimerHandler's contract says, in every mode. |
| DeferredMonitoring.MonitoringContinues | deferred_work/deferred/kernel/deferred.c:140-153 | After a MON ioctl that leaves the mode MON with no SET or ALLOC still to arm, and until a SET, ALLOC, CANCEL or exit, the timer is pending between handler runs with its deadline HZ ticks after the latest MON call or firing. (With lines 78-104.) |
| DeferredMonitoring.PollingExactly | deferred_work/deferred/kernel/deferred.c:140-153 | A MON ioctl keeps the polling going (timer pending, or handler on its way to re-arm it) in every continuation without SET, ALLOC, CANCEL or exit if and only if the mode is MON when it arms the timer. (With lines 78-104.) |
| DeferredMonitoring.OtherModeEndsPolling | deferred_work/deferred/kernel/deferred.c:129-138 | From every reachable state where a MON ioctl arms the timer in another mode, the run can go on without any further command to where no handler runs and no timer is pending. (With lines 83-103, 150-151.) |
| DeferredMonitoring.ArmingEndsSchedule | deferred_work/deferred/kernel/deferred.c:129-138 | From every reachable state where a MON ioctl arms the timer with a SET or ALLOC still to arm it, the run can go on without any further command to where the deadline is not HZ ticks after the latest MON call or firing. (With lines 150-151.) |
| DeferredMonitoring.MonitoringExactly | deferred_work/deferred/kernel/deferred.c:140-153 | A MON ioctl keeps the polling on time in every continuation without SET, ALLOC, CANCEL or exit if and only if it arms the timer in mode MON with no SET or ALLOC still to arm it. (With lines 78-104, 129-138.) |
| DeferredMonitoring.OverlappingSetPostpones | deferred_work/deferred/kernel/deferred.c:129-132 | A run from the start in which a SET overlaps a MON and moves the deadline although no command follows the MON. (With lines 150-151.) |
| DeferredExit.ExitLeavesNothing | deferred_work/deferred/kernel/deferred.c:199-217 | Whenever exit has ended: no pending timer, no running handler, no work, an empty list, no references, and every node ever made was freed once. |
| DeferredExit.ExitDescends | deferred_work/deferred/kernel/deferred.c:209-216 | Once exit has begun only the kernel's own steps, time and dying tasks go on; each of the first brings exit a step nearer to its end, except a firing, which adds at most the handler it starts; time and deaths never set it back. (With lines 78-104.) |
| DeferredExit.ExitStepsBounded | deferred_work/deferred/kernel/deferred.c:209-216 | However long exit lasts, its steps are bounded by what was left when it began plus a fixed cost per firing. (With lines 78-104.) |
| DeferredExit.FiringsBounded | deferred_work/deferred/kernel/deferred.c:100 | During exit the timer fires at most once, and once more for every HZ ticks that go by. (With line 209.) |
| DeferredExit.ExitNeverStuck | deferred_work/deferred/kernel/deferred.c:209-216 | During exit some step of the kernel can always be taken: it never waits for what cannot happen. |
| DeferredExit.ExitEndsExactly | deferred_work/deferred/kernel/deferred.c:199-217 | An exit, with the clock running and tasks dying, in which the kernel keeps taking steps in any order, comes to its end and leaves nothing behind if and only if the timer fires only finitely often. |
| DeferredExit.DeletionEndsExit | deferred_work/deferred/kernel/deferred.c:209-216 | Once timer_delete_sync gets through between two handler runs, exit ends clean: no later step re-arms the timer or queues work. |
| DeferredExit.RestlessExitStarves | deferred_work/deferred/kernel/deferred.c:89-101 | From every reachable state of an exit with polling going on, a run in which the kernel keeps taking steps and exit never ends. (With line 209.) |
| DeferredExit.StarvingRun | deferred_work/deferred/kernel/deferred.c:209 | Such a run from the start: one live task is monitored when exit begins, and the timer fires for ever. (With lines 89-101, 140-153.) |
| DeferredExit.FairExitEnds | deferred_work/deferred/kernel/deferred.c:199-217 | Every exit, with polling or without, ends clean if the kernel keeps taking steps and lets timer_delete_sync through when no handler runs time and again. |
| DeferredExit.ExitSureExactly | deferred_work/deferred/kernel/deferred.c:199-217 | From every reachable state of an exit, every run in which the kernel keeps taking steps ends clean if and only if no polling is going on. (With lines 78-104.) |
| Keyboard.PutIsEnqueue | keylogger/kbd.c:92-99 | put_char on the ring is an append to the queue of unread characters, or drops the character when 1024 are unread; put_idx stays (get_idx + count) % 1024. |
| Keyboard.GetIsDequeue | keylogger/kbd.c:101-113 | get_char removes the front of that queue. |
| Keyboard.ResetIsEmpty | keylogger/kbd.c:115-123 | reset_buffer empties it. |
| Keyboard.PressAndRelease | keylogger/kbd.c:43-46 | For every key, its code is a press, its code plus 0x80 is not, and both stand for the same character. |
| Keyboard.PressIsLow | keylogger/kbd.c:43-46 | A scancode is a press exactly if it is below 0x80. |
| Keyboard.KeyRows | keylogger/kbd.c:53-90 | The keys read row by row as on a US keyboard, and every other code gives a question mark. |
| Keyboard.RoomForAll | keylogger/kbd.c:92-99 | While the buffer does not fill up, the characters of all presses are accepted, in order. |
| Keyboard.Kbd.PutChar | keylogger/kbd.c:92-99 | The new ring, the character accepted exactly if the buffer was not full, and the unread characters remain the latest accepted ones. |
| Keyboard.Kbd.GetChar | keylogger/kbd.c:101-113 | Fails exactly on an empty buffer, which it leaves alone; otherwise returns the oldest unread character and removes only it. |
| Keyboard.Kbd.InterruptHandler | keylogger/kbd.c:134-152 | A scancode from 0x80 on, a release, changes nothing; one below enqueues its character, or is dropped on a full buffer. |
| Keyboard.Kbd.KbdRead | keylogger/kbd.c:190-209 | With interrupts between its iterations, kbd_read ends; what is accepted meanwhile is what those interrupts bring with the room there is at each; unread at entry ++ accepted meanwhile equals returned ++ lost to a failed put_user ++ still unread; it returns fewer than `size` only after finding the buffer empty or a fault. |
| KeyboardRuns.InvAlways | keylogger/kbd.c:92-123 | In every run: the unread characters are the latest accepted ones, every reader's bytes are accepted characters that it alone dequeued, and the accepted stream is the presses not met by a full buffer. (With lines 134-152, 190-209.) |
| KeyboardRuns.FifoSinceReset | keylogger/kbd.c:92-123 | In every interleaving the characters accepted since the last reset are those dequeued since, in lock order, followed by the contents of the ring. (With lines 134-152, 190-209.) |
| KeyboardRuns.AtMostOneReader | keylogger/kbd.c:198-206 | An accepted character reaches at most one reader, at most once. (With lines 101-113.) |
| KeyboardRuns.ReaderGetsSubsequence | keylogger/kbd.c:198-206 | The bytes of each reader are a subsequence of the accepted stream, in order. |
| KeyboardRuns.PressesAccounted | keylogger/kbd.c:92-123 | Presses are those dropped plus those dequeued plus those discarded by resets plus the unread ones, always. (With lines 43-46, 134-152.) |
| KeyboardCalls.EventsAreInterrupts | keylogger/kbd.c:134-152 | The recorded events, which the stream theorems speak of, are the run's interrupts, all of them, in order. |
| KeyboardCalls.PressThenRelease | keylogger/kbd.c:134-152 | A press with room in the ring and then its release append exactly one character, at the press. |
| KeyboardCalls.ResetForgets | keylogger/kbd.c:115-123 | A reset empties the buffer, and no reader ever gets what was unread then. |
| KeyboardRuns.StreamWithoutReset | keylogger/kbd.c:43-99 | Without a reset, what was dequeued followed by the ring is the scancodes' presses, as characters, minus exactly those that met 1024 unread characters; StreamDelivered says the same of what readers got. (With lines 134-152, 190-209.) |
| KeyboardDelivery.EveryCharacterHasOnePlace | keylogger/kbd.c:92-123 | At every point of every run each accepted character is in exactly one place: unread, discarded by a reset, delivered to a reader, between the unlock and the put_user of one, or lost by a failing put_user. (With lines 134-152, 190-209.) |
| KeyboardDelivery.ReaderGetsItsOwn | keylogger/kbd.c:190-209 | In every run, with any number of readers, what a reader was given, with the character in flight, is exactly what it dequeued, in stream order, without what its failing put_users lost. |
| KeyboardDelivery.NothingIsLost | keylogger/kbd.c:190-209 | When no put_user fails and no reset comes, every character that left the ring has been delivered or is in flight. |
| KeyboardDelivery.StreamDelivered | keylogger/kbd.c:43-99 | With one reader, no failing put_user and no reset, what was delivered, then the character in flight, then the ring spell the scancodes' presses minus exactly those that met 1024 unread characters. (With lines 134-152, 190-209.) |
| KeyboardCalls.ReadBegins | keylogger/kbd.c:190-198 | An idle reader can begin a read of any size at any time. |
| KeyboardCalls.ReadEnds | keylogger/kbd.c:190-209 | A read of `size` bytes, in whatever company, ends in exactly one of three ways: exactly `size` bytes delivered, the buffer found empty, or a failing put_user; never with more. |
| KeyboardCalls.UndisturbedIteration | keylogger/kbd.c:198-206 | One iteration, when nobody gets in between, delivers the oldest unread character and leaves the others. |
| KeyboardRuns.AlwaysEnabled | keylogger/kbd.c:106 | The ring's indices are in bounds whenever an interrupt or a reader uses them. (With line 96.) |
| MessageBuffer.DeviceRead | device_drivers/chardev/char_device.c:76-94 | The loop returns the string from the offset on, at most `length` bytes of it, and moves the offset past them; at the NUL it returns nothing and rewinds; it stays inside the array. |
| MessageBuffer.ReadsTheString | device_drivers/chardev/char_device.c:76-94 | While the offset is inside the message's string, a read is a read of that string at a cursor. |
| MessageBuffer.ReadContinues | device_drivers/chardev/char_device.c:76-94 | One more read extends what the pass has collected by the next bytes of the string, or ends the pass exactly when the whole string was collected. |
| MessageBuffer.ChunksSpellMessage | device_drivers/chardev/char_device.c:76-94 | Calls of device_read of any positive lengths, from offset 0 on a fixed message, concatenate to its string; an empty result comes exactly then, and the next pass starts over. |
| MessageBuffer.PassEnds | device_drivers/chardev/char_device.c:76-94 | A pass ends after at most one call per character still to come. |
| MessageDevice.SetThenStr | device_drivers/chardev/char_device.c:122-133 | For every previous message, writing what SET_MSG writes leaves the terminator at index 80 and makes the message the string cut to 80 characters; an empty string changes nothing. |
| MessageDevice.Device.Read | device_drivers/chardev/char_device.c:76-94 | device_read moves only its own file's offset, which stays in 0..80. |
| MessageDevice.Device.Write | device_drivers/chardev/char_device.c:96-107 | Overwrites exactly the first min(length, 80) bytes and keeps the terminator. |
| MessageDevice.Device.ScanLength | device_drivers/chardev/char_device.c:128-130 | The scan fetches the first byte twice, so it counts the terminator of a string of at most 79 characters, stops at 80 for longer ones, and gives 0 for the empty string. |
| MessageDevice.Device.DeviceIoctl | device_drivers/chardev/char_device.c:109-153 | Busy changes nothing; otherwise the flag is clear again, SET_MSG stores the cut string, GET_MSG returns the stored string with its NUL, GET_NTH_BYTE the byte. |
| MessageDevice.NthByteDecides | device_drivers/chardev/userspace_ioctl.c:39-46 | After printing i bytes the next byte is inside the array and decides: a negative one ends the 7-bit beginning, a NUL the whole string, any other is its next character. |
| MessageDevice.NotSevenBit | device_drivers/chardev/char_device.c:122-148 | A string with a negative byte, which SET_MSG stores over any message and whose 7-bit beginning is empty. |
| MessageDevice.GetNthByteLoop | device_drivers/chardev/userspace_ioctl.c:35-48 | The client loop ends without asking beyond index 80, and succeeds exactly if the message is 7-bit, having printed the string and its NUL; otherwise it fails with the 7-bit beginning printed. |
| MessageRuns.SentinelAlways | device_drivers/chardev/char_device.c:76-107 | In any interleaving, byte by byte, of reads, plain writes and ioctls on any number of open files, message[80] stays NUL and every offset and cursor stays in 0..80. (With lines 57, 121-143.) |
| MessageRuns.AccessesInBounds | device_drivers/chardev/char_device.c:76-107 | The next step of every busy thread can always be taken: no access leaves the array, even when a write changes the string under a half-finished reader. |
| MessageRuns.CallsEnd | device_drivers/chardev/char_device.c:76-107 | Every read, write and ioctl ends within 164 steps of its own thread, whatever other threads write to the message meanwhile. (With lines 109-153.) |
| MessageCalls.QuietRead | device_drivers/chardev/char_device.c:76-94 | A plain read during which nobody writes returns and leaves what Device.Read does on the message and offset it found, whatever others read or enter meanwhile. |
| MessageCalls.QuietWrite | device_drivers/chardev/char_device.c:96-107 | A plain write during which nobody else writes leaves what Device.Write leaves. |
| MessageRuns.MutualExclusion | device_drivers/chardev/char_device.c:118-150 | At most one thread is between cmpxchg and atomic_set, and the flag is set exactly while one is. |
| MessageRuns.LinearAlways | device_drivers/chardev/char_device.c:109-153 | Without plain writes, in every run a thread inside has overlaid or copied a prefix of the right string, and the message is the register's value when nobody is inside. |
| MessageHistory.IoctlsEnter | device_drivers/chardev/char_device.c:118-119 | An ioctl of an idle thread comes in exactly if no thread is inside, and is otherwise busy and changes nothing. |
| MessageHistory.SetsRecorded | device_drivers/chardev/char_device.c:122-133 | In every run the completed SET_MSG strings are those of all SET_MSG calls that came in, in order, without the one still writing. |
| MessageHistory.IoctlReturns | device_drivers/chardev/char_device.c:109-153 | Without plain writes, when an ioctl leaves, the message is the latest string of the SET_MSG calls that came in; a GET_MSG takes out that string, a GET_NTH_BYTE the byte it asked for, the others nothing. |
| MessageHistory.SetTakesEffect | device_drivers/chardev/char_device.c:122-133 | Without plain writes, a whole SET_MSG leaves its string cut to 80 characters as the message, or, if it is empty, what the calls before it had left. |
| MessageRuns.GetReturnsLatest | device_drivers/chardev/char_device.c:109-153 | Without plain writes every GET_MSG returns the first 80 characters of the latest completed SET_MSG with a non-empty string. |
| MessageRuns.NthByteOfLatest | device_drivers/chardev/char_device.c:144-148 | Without plain writes every GET_NTH_BYTE within that string and its NUL returns that byte of it. |
| MessageRuns.IdleMessageIsLatest | device_drivers/chardev/char_device.c:109-153 | Between ioctls the message is that string. |
| Greeter.ParseDecimal | device_drivers/chardev/char_dev_example.c:98 | The %d format can be read back: parsing the decimal of any int returns it. |
| Greeter.NoLeadingZero | device_drivers/chardev/char_dev_example.c:98 | The decimal of a number other than 0 does not start with 0. |
| Greeter.GreetingFits | device_drivers/chardev/char_dev_example.c:98 | The formatted greeting and its terminator fit in 80 bytes for every 32-bit counter, and it contains no NUL. (With lines 29, 43.) |
| Greeter.GreetingsDistinct | device_drivers/chardev/char_dev_example.c:98 | Two opens get the same greeting exactly if their counters are equal modulo 2^32. |
| Greeter.GreetingReads | device_drivers/chardev/char_dev_example.c:98 | The greeting starts and ends with the two parts of the format, and what stands between reads as the counter. |
| Greeter.FormatSpells | device_drivers/chardev/char_dev_example.c:98 | After the sprintf the buffer's string is the greeting, whatever was there, and its last byte is still NUL. |
| Greeter.Device.Sprintf | device_drivers/chardev/char_dev_example.c:98 | Writes the text and its NUL and leaves the bytes behind them. |
| Greeter.Device.Open | device_drivers/chardev/char_dev_example.c:91-101 | Succeeds exactly if the device was free; then the message is the greeting for the counter, which goes up by one and wraps as an int; otherwise nothing changes. |
| Greeter.Device.Read | device_drivers/chardev/char_dev_example.c:115-147 | The same read as the message device's, on this buffer. |
| GreeterRuns.AtMostOneOpen | device_drivers/chardev/char_dev_example.c:91-110 | In every run at most one file is open, and the flag is set exactly while one is. |
| GreeterRuns.OpenAndRelease | device_drivers/chardev/char_dev_example.c:91-110 | In every run an open succeeds exactly if no file is open, formats the greeting for the opens before it and starts at offset 0; a release makes the next open succeed. |
| GreeterRuns.OpensCounted | device_drivers/chardev/char_dev_example.c:98 | The number of opens told is the number of greetings formatted by the run's steps. |
| GreeterRuns.MessageConstant | device_drivers/chardev/char_dev_example.c:91-110 | From a successful open to its release no step changes the message. |
| GreeterRuns.PassesSpellGreeting | device_drivers/chardev/char_dev_example.c:91-147 | Every completed pass of reads, of any sizes, spells the greeting for exactly the number of successful opens before this one. |
| GreeterRuns.ReadProgresses | device_drivers/chardev/char_dev_example.c:115-147 | A read of at least one byte can always be made, and it extends the pass or completes it. |
| So2.WritesOverlay | device_drivers/lkt_char_dev/so2_cdev.c:92-112 | Sequential writes of any sizes put their concatenation, cut to the file's length, over the old bytes. |
| So2.ReadsSpell | device_drivers/lkt_char_dev/so2_cdev.c:71-90 | Sequential reads of any sizes return the bytes in order up to the file's length. |
| So2.WriteThenReopenAndRead | device_drivers/lkt_char_dev/so2_cdev.c:71-112 | On the byte file: writes from its start, and then reads from its start, return the written prefix followed by the old tail. |
| So2.GrantedIsRest | device_drivers/lkt_char_dev/so2_cdev.c:78 | While the offset is inside the file the size_t subtraction does not wrap, so a request gets what is left of the file at most. (With line 99.) |
| So2.PatchIsWrite | device_drivers/lkt_char_dev/so2_cdev.c:105-109 | A copy of the granted bytes into the buffer is a write at the cursor of the file and leaves the bytes behind the file. |
| So2.Device.Open | device_drivers/lkt_char_dev/so2_cdev.c:41-58 | Succeeds exactly if the device was free, and leaves it taken. |
| So2.Device.Read | device_drivers/lkt_char_dev/so2_cdev.c:71-90 | A read at the cursor of the byte file; a fault leaves the offset. |
| So2.Device.Write | device_drivers/lkt_char_dev/so2_cdev.c:92-112 | A write at the cursor of the byte file; a fault leaves the offset but may change the granted bytes; nothing behind the file changes. |
| So2Runs.StepRefines | device_drivers/lkt_char_dev/so2_cdev.c:41-112 | Every step refines the byte file with a cursor: same bytes returned, same new file; the size and the bytes behind it never change. |
| So2Runs.InvAlways | device_drivers/lkt_char_dev/so2_cdev.c:41-112 | In every run the offset of an open file is inside the file, the size is constant and the bytes behind the file are the initial ones. |
| So2Runs.AtMostOneOpen | device_drivers/lkt_char_dev/so2_cdev.c:41-69 | At most one process holds the device, the flag is set exactly while one does, an open succeeds exactly when none does and starts at offset 0, and a release makes the next one succeed. |
| So2Runs.AccessesInBounds | device_drivers/lkt_char_dev/so2_cdev.c:78 | In every run any read and any write on an open file can be served inside the buffer: the subtraction never wraps. (With line 99.) |
| So2Sessions.SessionRefines | device_drivers/lkt_char_dev/so2_cdev.c:41-112 | In any run, all the reads and writes of one open session, mixed, of any sizes, faulting or not, return what a byte file with a cursor returns and leave what it holds, whatever other processes try. |
| So2Sessions.WriteReleaseOpenRead | device_drivers/lkt_char_dev/so2_cdev.c:41-112 | In any run, a session of writes, its release and, with no write in between, a later session of any process whose reads cover the file: what those return is the written prefix followed by the old tail. |

## Left out

- Spinlocks, cmpxchg, the timer wheel, workqueues, RCU: each is taken as the atomic step it promises; timer_delete_sync waits until the handler is not running and removes a pending timer, and flushing waits until no work is queued or running.
- Allocation failure in task_info_add_to_list: its result is used unchecked (kernel_api/kernel_lists/list_sync/list_sync.c:74-76), so allocation always succeeds there.
- The pids that task_info_add_for_current passes are parameters, since they come from the scheduler; task_info_print_list only prints.
- TaskListRuns.AddsConserved: counts true hits, not the 32-bit counter, which equals them only modulo 2^32 (`TaskList.TouchCoherent`).
- TaskListExpiry.ExpiryScanOutcome: its last part assumes that no lap of jiffies relative to the entry ends during the scan; the condition is exact (`ExpiredThroughout`, `SparedThroughout`).
- DeferredMonitoring.MonitoringContinues: assumes that no SET or ALLOC is between its flag and its timer when the MON arms the timer; the condition is exact (`MonitoringExactly`).
- DeferredExit.ExitEndsExactly: assumes that the kernel keeps taking steps until exit has ended; an idle clock alone ends nothing.
- Deferred.Device.Reap: puts the references of the removed nodes as one block after the traversal; the machine in `DeferredRuns` puts each with its node.
- Deferred.Device.Ioctl: does not model the wrap-around of `arg * HZ`, nor of jiffies; deadlines are unbounded tick counts.
- Deferred.Device.Exit: the class runs it when no handler is running; the interleavings are in `DeferredRuns`.
- A failing get_proc has no step in `DeferredRuns`, because it changes nothing; lookup and reference-taking are one step.
- Module exit starts only when no ioctl is in flight, which the kernel's module reference count on open files ensures.
- The work handler only sleeps; the duration is not modelled.
- Keyboard.Kbd.KbdRead: has no other reader and no reset beside it; `KeyboardRuns` has both.
- kbd_write's command parsing: its comparison (keylogger/kbd.c:180) resets the buffer for every text except "clear", the opposite of what keylogger/README.md:15 says; the reset is a step that may happen at any time, and nothing is claimed about "clear".
- Keyboard indices are unbounded integers: put_idx and get_idx stay below 1024 and count at most 1024, so their width does not matter.
- User copies of the message devices do not fault: their get_user and put_user results are ignored by the code, and user buffers are stable during a call.
- MessageDevice.Device.DeviceIoctl: GET_NTH_BYTE, also in `MessageRuns`, is modelled for indices 0 to 80, the ones that the client loop asks for; the code does not check the index.
- MessageDevice.GetNthByteLoop: nobody else uses the device during the loop.
- MessageRuns.GetReturnsLatest: excludes plain writes, which take no flag and can tear a message under an ioctl.
- The scan of the user string by SET_MSG has no step of its own in `MessageRuns`, because it reads no shared state.
- Caller-chosen file offsets as pread or lseek would set them: offsets are those that the drivers produce.
- Writing to the greeting device, which always fails, and open and release of the message device, which only count module references.
- The bytes of two greeting reads at the same time on one file: only one process holds the file, and its reads follow each other.
- so2_cdev_init's success test and the return code of SET_BUFFER, both inverted (device_drivers/lkt_char_dev/so2_cdev.c:128,169): the model starts from the state of lines 174-181, and the device's ioctls and wait queue are not part of it.
- So2.GrantedWrapsPastEnd: a concrete offset past the end of a file, to show that the bound in `GrantedIsRest` matters; no run reaches it.
- pci_device, whose meaning lies in a device that is not in the repository, and the other modules (registration, procfs, sysfs, timers, threads, menus): plumbing or facts about one branch.
