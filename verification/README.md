# A verified model of the kernel's core

The kernel is a small preemptive 32-bit x86 system. This project models the parts of it that carry its
guarantees, in Dafny, and proves those guarantees:

* **The scheduler** (`KernelState`, `Scheduler`, `TaskTable`, `LinkedList`): tasks on intrusive doubly linked
  lists - the ready list and the sleep list share each task's `run_node`, all wait lists its `wait_node` -
  with round-robin time slices, sleeping, counting semaphores and nestable mutexes. It is modelled twice. The class
  `TaskManager` updates records and links in place as the code does. `KernelState` is a state machine over
  sequences, one step for each body between `irq_enter_protection` and `irq_leave_protection`. Every method
  of the class is proved to have exactly the effect of its step, and the theorems about all runs
  (`SchedulerInvariant`, `StepEffects`, `SchedulerRuns`, `EffectRuns`, `SleepRuns`, `SyncRuns`, `KernelTheorems`) are
  proved about the steps.
  `SchedulerDriver` boots the real data and takes it through any run, so that the theorems hold of it.
* **Number and format printing** (`Numerals`, `Klib`, `Format`): `kernel_itoa` and `kernel_vsprintf` as loops over a
  character buffer, against numerals and a recursive description of formatting, and this against what a reader of the
  text makes of it.
* **Program loading** (`Elf`, `ElfLayout`, `BootLoader`, `Paging`, `PageWalk`, `ProgramLoad`, `LoadTotals`, `ExecArgs`,
  `Execve`): `reload_elf_file` in physical memory, `load_phdr` and `load_elf_file` into an address space, and the argument
  block `copy_args` builds for a new program; `Execve` puts the three together as `sys_execve` does. `ElfLayout` ties the
  loaders' offsets to files written field by field, `PageWalk` the map of pages to the words of memory it stands for.
* **Descriptors** (`Gdt`): the packed entries of the global descriptor table and their first-fit allocation.

Where the code does something its names or comments do not suggest, the model follows the code:

* `sys_msleep` with more than 2^32 - 10 milliseconds wraps to 0 ticks, and the caller ends up on no queue. The theorems
  say exactly when (`NoTaskLost`, `OverlongSleepLosesCaller`).
* `sem_init` ignores `init_count`; every semaphore starts at 0 (`SemaphoreFifo`).
* `state` does not mirror the queues: a task waiting on a semaphore keeps its old state, and a lone task whose slice ends
  runs on in state READY. Only SLEEP and the sleep list agree (`ReachableSafety`).
* `kernel_vsprintf` writes no terminator of its own; a NUL gets behind the text exactly if its last printed piece is a
  number (`Vsprintf`). `%` swallows any character it does not know, another `%` included.
* `reload_elf_file` steps through the program headers by their struct size, whatever `e_phentsize` says;
  `load_elf_file` uses `e_phentsize`.
* Bits 8-11 of a descriptor's `attr` end up in its limit (`LimitStored`).
* `copy_args` writes the pointer table through one physical address, into a strip of memory that need not be the table's
  own. If that strip meets a page table, a pointer becomes a mapping (`PointerBecomesMapping`), so the results about
  `copy_args` are for strips that meet none; neighbouring frames never make one (`ContiguousIsClear`), and the stack
  `sys_execve` allocates, lowest frame first, has none in the way of any argument vector that fits (`RoomOnStack`). The
  pointers arrive, whatever memory held before, if and only if the table's pages have neighbouring frames
  (`PointersRightIff`); one page, up to 1021 arguments, always has them (`ExecveTableFits`), and with 1022 arguments the
  last pointer can be missing, on the stack `sys_execve` builds too (`LastPointerMissing`).
* `memory_get_paddr` answers for an absent page if its page table is present, with an address at the bottom of physical
  memory; `memory_copy_uvm_data` then writes there and reports success (`CopyUvmData`).

`dafny verify dfyconfig.toml` checks the whole project.

## Model

| member | source | states |
|---|---|---|
| KernelTheorems.ReachableSafety | source/kernel/core/task.c:184-294 | in every state that any interleaving of ticks, yields, sleeps, semaphore and mutex calls, forks and starts can reach: the running task is the head of the ready list, or idle exactly when that list is empty; no task is on two queues or twice on one, idle on none; 1 <= slice_ticks <= time_slice; state SLEEP exactly for the tasks on the sleep list, each with sleep_ticks >= 1; a semaphore with a count has no waiter |
| KernelTheorems.NoTaskLostSinceBoot | source/kernel/core/task.c:174-294 | after any run from boot the queued tasks are exactly the first task and those started since, each once, if and only if no sys_msleep of the run asked for more than 2^32 - 10 ms |
| KernelTheorems.RoundRobin | source/kernel/core/task.c:208-271 | in any run with at least 10·p ticks from a reachable state, the task at position p of the ready list becomes the running one within the first 10·p of them |
| KernelTheorems.SleepsAsAsked | source/kernel/core/task.c:234-294 | a task that calls sys_msleep(ms) is asleep after every run with fewer than max(1, ceil(ms / 10)) ticks, and from that tick on ready until it gets the processor, whatever else happens in between |
| KernelTheorems.SleepsThenRuns | source/kernel/core/task.c:208-294 | the caller of sys_msleep is ready at exactly its n-th tick, whatever happens in between, behind some p tasks, and running again within n + 10·p ticks of the call |
| KernelTheorems.OverlongSleepLosesCaller | source/kernel/core/task.c:273-294 | the caller of sys_msleep is still on some queue afterwards if and only if ms <= 2^32 - 10: beyond, the rounding wraps to 0 ticks and it is on none |
| KernelTheorems.SemaphoreFirstComeFirstServed | source/kernel/ipc/sem.c:8-38 | over every run since sem_init the completed waits are a prefix of the calls, in call order, min(waits, notifies) of them |
| KernelTheorems.StartedTaskRuns | source/kernel/core/task.c:174-178 | a task that is started runs within 10 ticks for each task that is ready at its start, in every run from a reachable state |
| KernelTheorems.FirstSlice | source/kernel/core/task.c:242-254 | from boot the first task, unless it gives up the processor, runs for its whole slice of 10 ticks, whatever it starts; with the tenth the next in line runs, if there is one |
| SchedulerInvariant.StepKeepsInv | source/kernel/core/task.c:174-294 | each atomic step keeps the whole invariant, and says for each kind of step how the multiset of queued tasks changes |
| SchedulerInvariant.StepConserves | source/kernel/core/task.c:174-294 | conservation: a step adds to the queues exactly the task it starts and removes exactly the one an over-long sleep loses |
| SchedulerInvariant.TickInv | source/kernel/core/task.c:237-271 | a tick keeps the invariant and every task that was queued |
| SchedulerInvariant.SleepTicksValue | source/kernel/core/task.c:283-289 | the tick count sys_msleep computes in 32 bits is ms rounded up, at least 1, and 0 exactly for ms > 2^32 - 10 |
| SchedulerInvariant.BlockOnInv | source/kernel/ipc/sem.c:16-21 | blocking on a wait list moves the running task there and keeps the invariant |
| SchedulerInvariant.HandOverInv | source/kernel/ipc/sem.c:27-33 | making the head of a wait list ready and dispatching keeps the invariant and every task |
| SchedulerInvariant.WakePrefixStep | source/kernel/core/task.c:257-268 | one round of the walk along the sleep list takes the state after i sleepers to the state after i + 1, whether or not the node is unlinked |
| StepEffects.StartEffect | source/kernel/core/task.c:174-190 | task_start puts the task at the end of the ready list, in state READY and with its slice kept; it neither runs nor sleeps, the caller runs on, and every other queue and record is as before |
| StepEffects.StepEffect | source/kernel/core/task.c:184-233 | every step but a tick: who is on the ready list and on the sleep list afterwards, in which order, and who runs - by whether the caller yields, sleeps or has to wait, and who is taken off a wait list or started |
| StepEffects.StepOnRecords | source/kernel/core/task.c:184-294 | every step, record by record: a task is in state RUNNING exactly if it has just got the processor, SLEEP if it has just joined the sleep list, READY if it has just joined the end of the ready list, and otherwise in the state it was in; the running task alone pays a tick and gets a new slice at the end of its own; ticks to sleep are set by the call and counted by the ticks |
| StepEffects.UnblockedEffect | source/kernel/ipc/sem.c:12-38 | a sem_wait on a positive count, a mutex_lock that need not wait, a notify or unlock that wakes nobody and the making of an object change that object and nothing else: no queue, no record, not the running task |
| StepEffects.SwitchesIff | source/kernel/core/task.c:208-218 | the running task changes if and only if its slice ends with another task ready, it yields with another task ready, it goes to sleep, it has to wait, or idle was running and somebody becomes ready |
| SchedulerRuns.TickEffect | source/kernel/core/task.c:237-271 | one tick: every sleeper loses exactly one tick; those left with none are ready, behind the (rotated) ready list, the others sleep on; both groups keep the order of the sleep list; nobody appears or disappears; wait lists are untouched |
| SchedulerRuns.YieldEffect | source/kernel/core/task.c:219-233 | a yield with another task ready runs the second in line and puts the caller last without touching its slice; alone it changes nothing |
| SchedulerRuns.StepShape | source/kernel/core/task.c:184-233 | every step but a tick only appends to the ready list, except that the head may leave it, and changes no time slice: task_set_block never takes out anything but the head |
| SchedulerRuns.TickShape | source/kernel/core/task.c:242-254 | a tick charges the running task alone, and rotates it to the back exactly when its slice was 1 |
| SchedulerRuns.AheadBounds | source/kernel/core/task.c:242-254 | the time slices in front of position p add up to between p and 10·p |
| SchedulerRuns.WaitShrinks | source/kernel/core/task.c:208-271 | the slices in front of a ready task drop by exactly 1 with each tick and never grow with any other step; it stays ready |
| SchedulerRuns.BoundedWaiting | source/kernel/core/task.c:208-271 | in every run with enough ticks the task runs within as many ticks as the slices in front of it add up to |
| SchedulerRuns.RunConserves | source/kernel/core/task.c:174-294 | over every run: queued afterwards plus lost equals queued before plus started |
| SchedulerRuns.NoTaskLost | source/kernel/core/task.c:174-294 | nobody is lost over a run if and only if no sleep in it was over-long; nobody is duplicated ever |
| EffectRuns.StartedRuns | source/kernel/core/task.c:174-218 | from any state with the invariant: a started task is behind all that are ready and runs within 10 ticks for each of them |
| EffectRuns.RunsThroughout | source/kernel/core/task.c:208-218 | one task runs throughout a run if and only if no step of it is one of those that switch |
| EffectRuns.SliceLasts | source/kernel/core/task.c:242-254 | a task that does not give up the processor keeps it, whatever else happens, until it has run for as many ticks as its slice has left |
| EffectRuns.SliceEnds | source/kernel/core/task.c:242-254 | with the tick that uses its slice up it goes behind all that are ready, with a new slice of 10, and the next in line runs |
| EffectRuns.WakeInOrder | source/kernel/core/task.c:256-281 | two sleepers whose delays end with the same tick are ready in the order in which they went to sleep |
| EffectRuns.SleepersInCallOrder | source/kernel/core/task.c:256-294 | the same for two calls of sys_msleep at different times of a run, with delays that end with the same tick |
| EffectRuns.WaiterMovesUp | source/kernel/ipc/sem.c:12-38 | number j in a semaphore's queue moves up by one with each notify and with nothing else |
| EffectRuns.WaiterRuns | source/kernel/ipc/sem.c:26-38 | number j in a semaphore's queue is ready at notify number j + 1, at the end of the ready list behind some p tasks, and runs within 10·p ticks of it |
| SleepRuns.SleeperOverRun | source/kernel/core/task.c:256-268 | over every run a sleeper has its remaining ticks less the ticks of the run, is on the sleep list and not ready before they are used up, and ready from then until it runs |
| SleepRuns.ReadyUntilCurrent | source/kernel/core/task.c:184-218 | a ready task stays ready until it has been the running one |
| SleepRuns.SleepsExactly | source/kernel/core/task.c:282-294 | the exact sleeping time from any state satisfying the invariant |
| SleepRuns.ReadyAtItsTick | source/kernel/core/task.c:256-268 | after any run that ends with the tick its delay ends with, the sleeper is ready |
| SleepRuns.SleepsAndRuns | source/kernel/core/task.c:208-294 | from any state with the invariant: the prefix of the run up to the n-th tick, the position the sleeper wakes at, and the bounded wait from there |
| SyncRuns.StepOnObjects | source/kernel/ipc/sem.c:12-38 | a step changes the semaphore or mutex it names as its code says, and no other; the task it is handed to is ready |
| SyncRuns.SemAccounting | source/kernel/ipc/sem.c:12-38 | over every run: waiting before + calls = completed + waiting after, as sequences, and count + completed = count before + notifies |
| SyncRuns.SemaphoreFifo | source/kernel/ipc/sem.c:8-38 | from sem_init with any initial count (it is ignored): completed waits are the first calls, min(waits, notifies) of them, the rest wait in order, and the count is what notifies are left over, kept only while nobody waits |
| SyncRuns.HandOverWakes | source/kernel/ipc/sem.c:26-38 | a task that leaves a wait list is ready, and the caller of sem_notify or mutex_unlock runs on |
| SyncRuns.HeldIsDepth | source/kernel/include/ipc/mutex.h:10-17 | over every run the mutex's own owner and count equal the number of lock calls that have returned and were not undone; that a call has returned is read off the wait queue, owner and count are not consulted |
| SyncRuns.MutualExclusion | source/kernel/include/ipc/mutex.h:10-17 | no two tasks are ever between the return of mutex_lock and their mutex_unlock on one mutex; nesting is counted |
| SyncRuns.MutexFifo | source/kernel/include/ipc/mutex.h:10-17 | tasks that block on a mutex get it in the order in which they blocked, and none is forgotten |
| LinkedList.List.constructor | source/kernel/tools/list.c:7-10 | an empty list |
| LinkedList.List.IsEmpty | source/kernel/include/tools/list.h:79-81 | the count is 0 exactly if no node is linked |
| LinkedList.List.InsertFirst | source/kernel/tools/list.c:17-34 | the node is linked in front of all others; first, last, count and every link agree |
| LinkedList.List.InsertLast | source/kernel/tools/list.c:42-59 | the node is linked behind all others |
| LinkedList.List.RemoveFirst | source/kernel/tools/list.c:66-91 | the first node comes out with both links cleared; null from an empty list |
| LinkedList.List.Remove | source/kernel/tools/list.c:97-122 | a node at any position k comes out with both links cleared, the others stay in order |
| LinkedList.List.TraversalsAgree | source/kernel/include/tools/list.h:49-60 | following next from first meets exactly the list's nodes and ends; following pre from last meets them in reverse |
| LinkedList.ListFamily.Append | source/kernel/tools/list.c:42-59 | with several lists over the same tasks' nodes, appending to one leaves every other as it was |
| LinkedList.ListFamily.Remove | source/kernel/tools/list.c:97-122 | likewise removing a task from the list it is on |
| LinkedList.ListFamily.PopFirst | source/kernel/tools/list.c:66-91 | likewise removing the first, and which task it belongs to |
| LinkedList.ListFamily.Count | source/kernel/include/tools/list.h:88-90 | the number of tasks on the list |
| LinkedList.ListFamily.First | source/kernel/include/tools/list.h:97-99 | the node of the first task on the list, or null |
| LinkedList.ListFamily.NextOf | source/kernel/include/tools/list.h:58-60 | the next link of a task's node is the node of the next task in line |
| LinkedList.ListFamily.ParentOf | source/kernel/include/tools/list.h:15-26 | from a node back to the task that embeds it |
| Scheduler.TaskManager.constructor | source/kernel/core/task.c:161-169 | empty lists, idle on none of them, all of it newly allocated |
| Scheduler.TaskManager.FirstInit | source/kernel/core/task.c:83-105 | the booted state: the first task current and alone on the ready list; it satisfies the invariant; the only objects that join are new |
| Scheduler.TaskManager.SetReady | source/kernel/core/task.c:184-190 | joins the ready list's end, state READY; nothing for idle |
| Scheduler.TaskManager.SetBlock | source/kernel/core/task.c:192-197 | leaves the ready list; nothing for idle |
| Scheduler.TaskManager.NextRun | source/kernel/core/task.c:199-207 | the task around the first node of the ready list, or idle |
| Scheduler.TaskManager.Dispatch | source/kernel/core/task.c:208-218 | the next task becomes current with state RUNNING, if it is not already |
| Scheduler.TaskManager.SetWakeup | source/kernel/core/task.c:234-236 | leaves the sleep list |
| Scheduler.TaskManager.SetSleep | source/kernel/core/task.c:273-281 | joins the sleep list with its ticks; nothing at all for 0 ticks |
| Scheduler.TaskManager.ChargeSlice | source/kernel/core/task.c:242-254 | the running task pays for the tick; at 0 its slice is reloaded and it goes to the back |
| Scheduler.TaskManager.WalkOn | source/kernel/core/task.c:259-267 | one round of the walk over a list that is changed on the way: the successor read beforehand is the right one |
| Scheduler.TaskManager.WakeSleepers | source/kernel/core/task.c:256-268 | the whole walk wakes and counts down all sleepers as if at once |
| Scheduler.TaskManager.TimeTick | source/kernel/core/task.c:237-271 | refines the tick, keeps the invariant |
| Scheduler.TaskManager.Yield | source/kernel/core/task.c:219-233 | refines the yield, keeps the invariant |
| Scheduler.TaskManager.Msleep | source/kernel/core/task.c:282-294 | refines the sleep, wrap-around included, keeps the invariant |
| Scheduler.TaskManager.TaskInit | source/kernel/core/task.c:107-134 | a new task with its nodes, on no queue; every other record and node is untouched |
| Scheduler.TaskManager.TaskStart | source/kernel/core/task.c:174-178 | the new task joins the ready list; refines the start, keeps the invariant |
| Scheduler.TaskManager.SemInit | source/kernel/ipc/sem.c:8-11 | a new semaphore with count 0 whatever the argument, and an empty wait list |
| Scheduler.TaskManager.SemWait | source/kernel/ipc/sem.c:12-25 | refines the wait: count down, or block |
| Scheduler.TaskManager.SemNotify | source/kernel/ipc/sem.c:26-38 | refines the notify: hand over to the longest waiter, or count up |
| Scheduler.TaskManager.MutexInit | source/kernel/include/ipc/mutex.h:15 | a new mutex, not owned, and an empty wait list |
| Scheduler.TaskManager.MutexLock | source/kernel/include/ipc/mutex.h:16 | refines the lock: take it, nest, or block |
| Scheduler.TaskManager.MutexUnlock | source/kernel/include/ipc/mutex.h:17 | refines the unlock: nothing for a stranger, un-nest, hand over to the longest waiter, or free |
| SchedulerDriver.Perform | source/kernel/core/task.c:174-294 | the call for each step takes the data from one state to the next and keeps the invariant |
| SchedulerDriver.Drive | source/kernel/core/task.c:174-294 | any run on the real data ends in the state the abstract run ends in |
| SchedulerDriver.BootAndDrive | source/kernel/core/task.c:83-178 | from the first initialisation on: the data stands for a reachable state after any run, so every theorem about reachable states holds of it |
| TaskTable.Task.constructor | source/kernel/core/task.c:117-120 | the scheduling fields of a new task |
| TaskTable.Tasks.DecSleepTicks | source/kernel/core/task.c:262 | one field of one task record changes; so for the other setters of the table |
| Numerals.NumeralIsCanonical | source/kernel/tools/klib.c:155-162 | repeated division gives a text without leading zeros whose value is the number |
| Numerals.CanonicalIsNumeral | source/kernel/tools/klib.c:155-162 | and that is the only such text: printing inverts reading |
| Klib.ItoaRoundTrip | source/kernel/tools/klib.c:130-173 | for every 32-bit int, reading the text back gives the number in base 10, INT_MIN included, and the number modulo 2^32 in bases 2, 8 and 16; no leading zeros; no NUL inside |
| Klib.ItoaInjective | source/kernel/tools/klib.c:130-173 | no two ints print alike in one base |
| Klib.ItoaLength | source/kernel/tools/klib.c:130-173 | at most 32 characters, at most 11 in base 10 |
| Klib.Num2Ch | source/kernel/tools/klib.c:132 | the digit table gives the right digit for every remainder between -15 and 15 |
| Klib.EmitSigned | source/kernel/tools/klib.c:149-154 | the loop on C's truncated remainders leaves the digits of -num in reverse |
| Klib.EmitUnsigned | source/kernel/tools/klib.c:156-161 | the loop on the unsigned value leaves its digits in reverse |
| Klib.ReverseInPlace | source/kernel/tools/klib.c:166-172 | the part of the buffer between the two pointers is reversed, nothing else changes |
| Klib.Itoa | source/kernel/tools/klib.c:130-173 | the buffer holds the rendered number and a NUL, every other character is as before; an unsupported base gives the empty string |
| Klib.Strlen | source/kernel/tools/klib.c:34-47 | the distance to the first NUL |
| Format.Vsprintf | source/kernel/tools/klib.c:184-222 | for every format, matching arguments and a buffer that holds what is written, the output is the concatenation of literals and rendered conversions, the one text a reader of the format expects (PrintsExactly); no character beyond its length changes, except that the one at its length becomes NUL exactly if nothing is printed behind the last %d or %x |
| Format.ShowsExactly | source/kernel/tools/klib.c:200-217 | the text of a conversion is the only one that reads back as its argument: %d a canonical decimal numeral with a sign exactly if negative, %x the canonical hexadecimal numeral of the 32-bit pattern, %c one character, %s what stands before the first NUL, nothing for null |
| Format.PrintsExactly | source/kernel/tools/klib.c:184-222 | for every format and matching arguments there is exactly one text with each literal character in place and, for each conversion, a text that shows its argument; it is the formatted one |
| Format.NumberPrinted | source/kernel/tools/klib.c:200-210 | for every int n, "%d" prints a text that parses to n, "%x" the canonical base-16 numeral of n modulo 2^32, "%c" the character n modulo 256 |
| Format.StringPrinted | source/kernel/tools/klib.c:211-217 | "%s" prints the string before its NUL whatever lies behind it, and nothing for a null pointer |
| Format.PlainPrintsItself | source/kernel/tools/klib.c:190-198 | a format without % prints itself and takes no argument |
| Format.OthersSwallowed | source/kernel/tools/klib.c:199-219 | a % before any other character, or at the end, prints nothing and takes no argument |
| Format.FormatsConcatenate | source/kernel/tools/klib.c:184-222 | formatting f followed by g is formatting f and then g with the arguments f left over, unless f ends in an open % |
| Format.Convert | source/kernel/tools/klib.c:200-217 | each of %d, %x, %c, %s at its position, with what stays untouched |
| Format.ZeroedBufferTerminated | source/kernel/tools/log.c:24-31 | in a zeroed buffer that is longer than the text the output is a C string |
| Format.LogPrintf | source/kernel/tools/log.c:22-41 | in its zeroed 128-character buffer, for matching arguments and a text that fits: what goes to the port is exactly the formatted text, up to a NUL printed into it if there is one, and the end of the line |
| BootLoader.ReloadElfFile | source/loader/loader_32.c:25-56 | a bad magic number gives 0 and changes nothing; otherwise every byte of memory is what the segments say and the entry point is returned, although headers and data are read from the memory being written |
| BootLoader.LoadSegment | source/loader/loader_32.c:41-52 | p_filesz bytes copied, zeros up to p_memsz, nothing else changed |
| BootLoader.DisjointSegments | source/loader/loader_32.c:25-56 | where segments do not overlap, each holds its file bytes and then zeros |
| BootLoader.LastSegmentWins | source/loader/loader_32.c:35-53 | where they overlap, the last header decides |
| BootLoader.OutsideUnchanged | source/loader/loader_32.c:25-56 | an address in no segment keeps its byte |
| BootLoader.FileKept | source/loader/loader_32.c:25-56 | the file's own bytes are never overwritten |
| ElfLayout.EhdrReadsBack | source/comm/elf.h:19-34 | an ELF header written field by field in the order of its declaration is read back with the same fields, and passes the magic test exactly if its first four bytes are 0x7F, E, L, F |
| ElfLayout.PhdrReadsBack | source/comm/elf.h:35-44 | so is a program header |
| ElfLayout.BootHeaders | source/loader/loader_32.c:35-37 | in a file whose program headers lie one behind the other from e_phoff on, reload_elf_file finds header i as it was written, for every i |
| ElfLayout.SegmentBooted | source/loader/loader_32.c:35-53 | by the fields as written: a PT_LOAD segment that shares no address with another one is at its physical address afterwards, its file bytes and then zeros |
| ElfLayout.FileHeaders | source/kernel/core/task.c:415-433 | in a file whose program headers lie e_phentsize apart, load_elf_file finds header i as it was written, and accepts it exactly if its type is 1 and its address is at least 0x80000000 |
| ElfLayout.HeaderChecked | source/kernel/core/task.c:396-412 | the checks of the ELF header, by the fields as written |
| Elf.SamePhdr | source/comm/elf.h:35-44 | a program header depends on its own 32 bytes only |
| Elf.SameEhdr | source/comm/elf.h:19-34 | the ELF header depends on its own 52 bytes only |
| Paging.CopyUvmData | source/kernel/core/task.c:526-537 | memory_copy_uvm_data: page by page over any injective two-level map; success exactly if memory_get_paddr answers for every address; if the pages are all there the bytes then stand at their virtual addresses and no other mapped address or unrelated frame has changed; if the first page is absent under a present page table, its part has gone to the bottom of memory |
| Paging.TablesSpared | source/kernel/core/task.c:526-537 | writing through the map never hits a page table |
| Paging.EntrySpared | source/kernel/core/task.c:518-533 | a write to physical memory that is clear of the page tables' frames leaves every mapping alone, whatever page it is for |
| Paging.PaddrInjective | source/kernel/core/task.c:359 | different mapped virtual addresses have different physical ones |
| PageWalk.WalkIsPaddr | source/kernel/core/task.c:359 | where the words of a page directory and its page tables in memory hold a map of pages, the walk of memory_get_paddr through them answers what the map says for every user address, absent pages and absent page tables included |
| PageWalk.NewDirectoryStands | source/kernel/core/task.c:546 | a new page directory with its user half zero holds the empty map |
| PageWalk.FindTable | source/kernel/core/task.c:339 | find_pte on memory: the page table the directory names, or a new zeroed one from the first free frame, entered in the directory |
| PageWalk.MapPageInMemory | source/kernel/core/task.c:339 | mapping a page by writing entries into memory does to the words what MapPage does to the map: same frames, same success, and the words hold the new map |
| PageWalk.TableAbovePage | source/kernel/core/task.c:339 | a page takes its frame before its page table does |
| PageWalk.BetweenArises | source/kernel/core/task.c:339 | two pages mapped one after the other in a new address space leave their page table's frame between theirs |
| PageWalk.CopyKeepsWalk | source/kernel/core/task.c:526-537 | memory_copy_uvm_data leaves every entry as it was, so its own later pieces are looked up right |
| ProgramLoad.ReadPages | source/kernel/core/task.c:355-370 | the reading loop: no read crosses a page, and all bytes of mapped pages arrive exactly if the file, as modelled, has them; what belongs to an absent page is read over |
| ProgramLoad.LoadPhdr | source/kernel/core/task.c:334-376 | for every page-aligned header, p_filesz above p_memsz included: success exactly if the frames suffice for the pages and for every page table still missing, the seek works and the file, as modelled, has the bytes; then byte k of the segment is read through the page table at p_vaddr + k where that is mapped, no other mapped byte changes, old pages and page tables keep their frames, and exactly the frames needed are used up |
| ProgramLoad.LoadHeaders | source/kernel/core/task.c:415-443 | the loop over the program headers, with e_phoff advancing by e_phentsize in 32 bits: success exactly if every header can be loaded with what the ones before it left over; conditions on a header only if the loop reaches it |
| ProgramLoad.LoadElfFile | source/kernel/core/task.c:377-454 | the entry point exactly if the file is there, its header passes and every program header can be loaded, page tables counted; then the address space has the pages, page tables and leftover frames those headers determine, and every accepted segment is in memory at once; whatever happens, a file that was opened is closed exactly once |
| ProgramLoad.HeapAboveSegments | source/kernel/core/task.c:441-442 | with accepted segments in ascending order below 2^32 the heap starts at or above the end of every one of them, heap_start and heap_end being the same whatever they were |
| LoadTotals.LoadsIff | source/kernel/core/task.c:415-443 | the headers load exactly if each can be read, each accepted one has its bytes in the file, and the frames suffice for all of them together |
| LoadTotals.PagesAskedFor | source/kernel/core/task.c:339 | a page is mapped exactly if an accepted header's range, in whole pages, has it |
| LoadTotals.TablesAskedFor | source/kernel/core/task.c:339 | there is a page table exactly where there was one and for the pages that are mapped |
| LoadTotals.FramesCounted | source/kernel/core/task.c:339 | loading a file takes one frame for each page it maps and one for each page table that is new |
| LoadTotals.HeapIsLastEnd | source/kernel/core/task.c:441-442 | the heap begins at the end of the last accepted segment modulo 2^32, and stays where it was if there is none |
| LoadTotals.PositionIs | source/kernel/core/task.c:415-416 | header i is sought at e_phoff + i * e_phentsize modulo 2^32 |
| ProgramLoad.AddressSpace.Alloc | source/kernel/core/task.c:339 | memory_alloc_for_page_dir as load_phdr uses it: exactly the pages of the range get frames that were free, one each, and so does each page table that was missing; success exactly if there are that many; with the lowest frame taken first, the new pages' frames rise, and a page table lies below all pages entered after it |
| ProgramLoad.AddressSpace.MapPage | source/kernel/core/task.c:339 | one page: its frame first, then one for its page table if the directory has none there |
| ProgramLoad.FramesForNext | source/kernel/core/task.c:339 | a range takes one frame for each page and one for each directory entry it is the first to need |
| ExecArgs.CopyArgs | source/kernel/core/task.c:507-538 | on any frames, neighbours or not, as long as the pointer strip meets no page table: memory afterwards is the strings through the page map, each pointer at its place behind the physical address of the table, then the header |
| ExecArgs.TableWord | source/kernel/core/task.c:518-533 | on frames whose pointer strip meets no page table, word j of the table is the pointer whose place is its physical address, or what was there before |
| ExecArgs.PointersRightIff | source/kernel/core/task.c:518-533 | on frames whose pointer strip meets no page table: all pointers arrive from every memory if and only if the pages of the table have neighbouring frames |
| ExecArgs.HeaderCopied | source/kernel/core/task.c:509-511 | argc and the table's address are right on frames whose pointer strip meets no page table |
| ExecArgs.ChangedByCopyArgs | source/kernel/core/task.c:507-538 | on frames whose pointer strip meets no page table, nothing changes but the block and the strip |
| ExecArgs.PageTablesKept | source/kernel/core/task.c:507-538 | in particular no byte of a page table's frame changes from beginning to end, so that the page map stays the one all copies go through |
| ExecArgs.ContiguousIsClear | source/kernel/core/task.c:518-533 | where the pages of the table have neighbouring frames, the pointer strip meets no page table |
| ExecArgs.PointerBecomesMapping | source/kernel/core/task.c:518-533 | 1022 arguments, the page table's frame between those of the first two pages: the last pointer goes exactly to the entry that maps the block's first page, and names another frame, so the header copied last does not arrive |
| PageWalk.CopyArgsKeepsWalk | source/kernel/core/task.c:507-538 | where the strip meets neither a page table nor the directory, the words of memory hold the same map after copy_args: every address it looked up was the right one |
| PageWalk.PointerMisleadsWalk | source/kernel/core/task.c:518-533 | the same 1022 arguments in memory: whatever it holds, after the last pointer is stored the walk for the block's first address ends at 0x80001000 instead of the block's frame |
| ExecArgs.BlockCopied | source/kernel/core/task.c:507-538 | on neighbouring frames the whole block stands at its virtual address and nothing else that is mapped changes |
| ExecArgs.CopiedReadsBack | source/kernel/core/task.c:507-538 | on neighbouring frames the new program reads back argc and every string exactly |
| ExecArgs.ArgsReadBack | source/kernel/include/core/task.h:48-52 | any memory that holds such a block at the stack pointer reads back as the argument vector it was built from |
| ExecArgs.ImageParts | source/kernel/core/task.c:509-515 | header, table and strings lie one behind the other without gap or overlap |
| ExecArgs.PointerAt | source/kernel/core/task.c:530-533 | entry i of the table is the address where string i begins |
| ExecArgs.StringAt | source/kernel/core/task.c:525-533 | string i lies where all before it end, followed by its NUL |
| ExecArgs.ExecveTableFits | source/kernel/core/task.c:518-530 | a page-aligned target and at most 1021 arguments keep the pointer table in one page |
| ExecArgs.MisplacedPointer | source/kernel/core/task.c:518-530 | a word of the table whose physical address is not its place behind the first word's is wrong after copy_args, if it was 0 before |
| Execve.RoomOnStack | source/kernel/core/task.c:518-562 | after an allocation of the stack, lowest frame first, the pointer strip of every argument vector that fits the four pages stays inside memory and meets no page table |
| Execve.OldPagesKept | source/kernel/core/task.c:507-562 | copying any such argument vector leaves every byte of the pages mapped before the stack as it was |
| Execve.MakeStack | source/kernel/core/task.c:555-565 | the stack's pages and the arguments: success if and only if the frames left by the segments suffice; the program reads back its arguments, and the segments loaded before are still there |
| Execve.SegmentsKept | source/kernel/core/task.c:550-562 | a write that spares the pages mapped before the stack leaves every loaded segment as it is |
| Execve.Execve | source/kernel/core/task.c:550-565 | sys_execve's work on the address space, for arguments in any number that fit the four pages: success if and only if the file loads and the frames suffice for its segments, the stack and all their page tables; then every accepted segment and argc are in the new address space together, and every argument reads back if there are at most 1021 or their pointers' pages have neighbouring frames |
| Execve.FramesInNumbers | source/kernel/core/task.c:555-556 | the frames sys_execve needs beyond the segments: 500 for the stack that ends at 0xE0000000, and one for its page table if directory entry 895 has none |
| Execve.LastPointerMissing | source/kernel/core/task.c:518-562 | 1022 empty arguments on sys_execve's stack, allocated lowest frame first with one frame taken between those of the first two argument pages, in memory that was zero: the last pointer reads back as null |
| Gdt.SegmentReadBack | source/kernel/cpu/cpu.c:28-45 | for every base, limit and attr with bits 8-11 and 15 clear the processor reads back the base, the attributes and the limit, rounded up to its 4096-byte unit if it exceeds 20 bits |
| Gdt.LimitStored | source/kernel/cpu/cpu.c:28-45 | for every attr: its bits 8-11 are mixed into the upper limit bits, and G is set for large limits |
| Gdt.SmallLimitKept | source/kernel/cpu/cpu.c:40-43 | a 20-bit limit is kept exactly if attr claims none of its zero bits among 8-11 and not G |
| Gdt.LargeLimitKept | source/kernel/cpu/cpu.c:32-43 | a larger limit keeps its upper 20 bits, and is seen rounded up to its unit, exactly if attr claims none of their zero bits |
| Gdt.SegmentMarksTaken | source/kernel/cpu/cpu.c:43 | a non-zero attr leaves the entry marked as taken |
| Gdt.GateMarksTaken | source/kernel/cpu/cpu.c:46-51 | so does a gate with a type byte, although the layouts differ: that byte lies where the segment layout has the low byte of attr |
| Gdt.SystemEntriesMarked | source/kernel/cpu/cpu.c:63-71 | the kernel's code, data and gate entries count as taken |
| Gdt.GateReadBack | source/kernel/cpu/cpu.c:46-51 | for every selector, offset and attr the processor's fields of a call gate give the three back |
| Gdt.SyscallGate | source/kernel/cpu/cpu.c:71 | in every state of the table the system call gate leads to selector 8 at the handler, and is present, open to privilege 3, of type 0xC, with 5 parameters |
| Gdt.KernelSegmentKinds | source/kernel/cpu/cpu.c:63-69 | in every state of the table selector 8 is readable code and selector 16 writable data, both present, 32-bit and for privilege 0 |
| Gdt.AttrAssigned | source/kernel/cpu/cpu.c:17-18 | assigning an entry's attr reads back and changes no other byte of it |
| Gdt.DescriptorTable.constructor | source/kernel/cpu/cpu.c:57-74 | init_gdt: the kernel's three entries, and all others from 4 on free |
| Gdt.DescriptorTable.AllocDesc | source/kernel/cpu/cpu.c:9-24 | the lowest free selector or -1 if there is none; only that entry's attr changes, the kernel's entries never |
| Gdt.DescriptorTable.SegmentDescSet | source/kernel/cpu/cpu.c:28-45 | the entry gets its descriptor, all others are as before; an owned entry given a non-zero attr stays taken |
| Gdt.DescriptorTable.FreeSel | source/kernel/cpu/cpu.c:52-56 | only the entry's attr is cleared; an owned entry becomes free |
| Gdt.KernelSegmentsAreFlat | source/kernel/cpu/cpu.c:63-69 | in every state of the table the kernel's two selectors denote flat 4 GB segments |
| Gdt.FirstUnowned | source/kernel/cpu/cpu.c:14-20 | first fit: free itself, everything below it taken |
| Gdt.GivenAndFreed | source/kernel/cpu/cpu.c:9-56 | over every run of calls a selector is handed out exactly as often as freed, and once more if it is owned at the end: never to two owners |
| Gdt.OnlySpareEntriesGiven | source/kernel/cpu/cpu.c:9-24 | what is handed out is a multiple of 8 in [32, 2040], never the null, code, data or gate selector |
| Gdt.FailsOnlyWhenFull | source/kernel/cpu/cpu.c:23 | -1 if and only if all 252 spare entries are owned |
| Gdt.Perform | source/kernel/cpu/cpu.c:9-56 | each call on the packed table - allocate, set with a non-zero attr, free - takes the set of owned selectors to the next one and returns the lowest spare selector or none |
| Gdt.Drive | source/kernel/cpu/cpu.c:9-56 | any run of calls on the packed table ends with the owners of the abstract run, the kernel's entries untouched, and returns each selector as often as the abstract run gives it out, so GivenAndFreed and OnlySpareEntriesGiven hold of the table itself |

## Left out

- Hardware: dispatching changes the current task only; the task switch, register frames, interrupt controller, timer and serial port drivers, boot sector, assembly files and exception handlers are not modelled.
- Interleaving inside a protected body: each is one atomic step, as interrupts are off in it on the single processor.
- C int overflow of a list's or semaphore's count and of a mutex's nesting depth: these are unbounded here.
- task_list and all_node: a register of all tasks that the scheduler only appends to; the model's map of tasks plays its part.
- The null current task between task_manager_init and task_first_init: the model has idle current in that time, in which no step is taken.
- Scheduler.TaskManager.TaskInit: covers the scheduling fields and nodes only; names, TSS, page directory and the failure paths of task_init, sys_fork and tss_init are not part of this model, and tasks do not end (the source has no exit call).
- Scheduler.TaskManager.Msleep: not called by idle, which only halts; so for SemWait, MutexLock and TaskStart.
- Scheduler.TaskManager.MutexLock: stands for source/kernel/ipc/mutex.c, of which the table cites the header; locking while no task is current is not part of this model.
- sem_count, sys_getpid and the system call table: they add nothing to the properties.
- LinkedList.ListFamily.ParentOf: each node carries its task's address as a constant in place of the pointer arithmetic of list_node_parent.
- ExecArgs.CopyArgs: its page tables are maps, not bytes, so frames whose pointer strip meets one are left out (`PointerBecomesMapping` shows what goes wrong there); the argument strings and pointers are given as values: with 1022 or more arguments on frames that are not neighbours the strip can lie in a frame that something else uses - the caller, its page directory, a kernel stack - and change what is still to be copied, which is not modelled; the return address field, which the source leaves uninitialised, is a parameter; the whole block must be mapped, which sys_execve provides for arguments that fit, and whose absence the source notices only where memory_get_paddr gives 0.
- ProgramLoad.LoadPhdr: takes for granted a segment that does not wrap around 2^32 and pages not yet mapped, as load_phdr does; after a failure only the frames of the old pages and page tables are specified, as the caller throws the address space away.
- PageWalk.MapPageInMemory: stands, like Paging, for source/kernel/core/memory.c, of which the table cites the calls; addresses below 0x80000000 are left out.
- ProgramLoad.AddressSpace.Alloc: the directory and page tables are finite maps; PageWalk ties them to the bytes of memory for lookups, single mappings and copies, not for whole runs of sys_execve; the kernel half of the directory is left out; a missing frame for a page, where memory.c panics, is the failure result here; what memory.c frees after a failure is not modelled.
- ProgramLoad.File: a byte sequence with a position; reads are short at its end, where the source's sys_read, which knows no end, would go on into whatever follows the file in memory; sys_read gives no error, and a failing sys_lseek is a property of the file.
- ProgramLoad.LoadElfFile: all segments are in memory at once if every accepted header has p_filesz <= p_memsz; otherwise a segment can be written over by a later one, and only what is mapped and how many frames are left is stated. Zeroing behind p_filesz is left to the program's start code by the source, so nothing is said about those bytes.
- BootLoader.ReloadElfFile: requires p_filesz <= p_memsz < 2^31 for loadable headers and segments clear of the file; the source does not check. With p_filesz above p_memsz the unsigned difference wraps and nearly 4 GB are zeroed, the running loader with them.
- Format.Vsprintf: the variadic arguments are a sequence that must fit the format, and the buffer must hold what is written; the source can check neither.
- Gdt.DescriptorTable.FreeSel: says nothing of later allocations if the caller does not own the selector; likewise SegmentDescSet for a zero attr. The mutex around both is one atomic step here.
- Execve.Execve: the arguments must fit the four pages set aside for them, which the source does not check, and the frames are those of an allocator that gives out the lowest free one first, as the bitmap does, to an address space whose frames lie below them; creating and destroying page directories, the register frame and the failure paths of sys_execve are not modelled.
- kernel_strcpy, kernel_strncpy, kernel_strncmp, get_file_name, strings_count, memory functions of klib.c: small, and their boundary behaviour would only add easy members.
- The file system, the bitmap and page allocators, memory_copy_uvm, the shell and the first task's program.
