# A verified model of the tp_so kernel core

This project models, in Dafny, the sequential core of the x86-64 teaching
kernel tp_so and of the user-space helpers around it, and proves what that
code promises:

- **Intrusive list** (`list.dfy`, module `IntrusiveList`): the sentinel-based
  circular doubly-linked list of `Kernel/collections/list.c`. Every node
  records the list that owns it. The `prev`, `next` and `owner` fields and
  the list sizes are fields of one `LinkedLists` object, and the ghost map
  `Contents` gives each list's order.
- **FIFO queue** (`queue.dfy`, module `QueueAdt`): the opaque singly-linked
  queue of `Kernel/collections/queueADT.c` with its read-only iterator.
- **Process queues and PCB helpers** (`process.dfy`, module `Process`): the
  eight priority levels of a process queue, priority clamping, `pcb_init`
  and the parent/children links.
- **Scheduler** (`scheduler.dfy`, module `Scheduler`): the ready queue, the
  current and idle PCB, the reschedule flag and the `uint64_t` metrics.
- **Pipes** (`pipes.dfy`, module `Pipes`): the table of 100 pipe slots, each
  pipe's 16 KiB ring buffer, the attach count and the rule deciding whether
  `close_pipe` destroys a pipe.
- **Buddy allocator** (`buddy.dfy`, module `Buddy`): the FREE/SPLIT/USED tree
  over a 512 KiB heap, stored by index in a static array, with allocation
  headers in front of each block.
- **First-fit allocator** (`firstfit.dfy`, module `FirstFit`): the
  alternative allocator, a chain of `Block` headers that splits blocks but
  does not merge them.
- **Timer** (`timer.dfy`, module `Timer`): the tick counter and the queue of
  sleeping processes.
- **Kernel strings** (`strings.dfy`, module `KernelStrings`): `strlen` and
  `strcpy`.
- **Shell** (`shell.dfy`, module `Shell`) covers four parts:
  - the line editor;
  - `trimWhitespace`;
  - `parseCommand` and the split at a pipe;
  - the background `&` rule and the ten-entry history ring.
- **User-space helpers**: `satoi`, `memcheck` and the multiply-with-carry
  generator of the tests (`testutil.dfy`, module `TestUtil`), and `malloc`,
  `free`, `calloc`, `rand` and `srand` of the user libc (`stdlib.dfy`,
  module `UserStdlib`).
- **Common** (`common.dfy`): `Option` (a C pointer that may be NULL) and the
  machine word sizes.

## How the model is built

**Ids instead of pointers.** Nodes, lists, PCBs and queue nodes are named
by ids, not by addresses. `LIST_ENTRY` is reading the id a node carries.

**State that changes in place is a class.** Each such object of the C code
becomes a `class` whose methods `modifies` what the C function writes. Each
method is proved against pure ghost functions of the state. The properties
the code promises are lemmas about those functions.

**Calls into code that is not part of this model** become parameters:
whether an allocation succeeds, which pids `process_lookup` finds, and what
a semaphore call returns. What those calls would do to other processes is
returned instead: the pids `timer_handler` unblocks, the wake-ups
`close_pipe` posts, and whether `sleepTicks` blocks.

**Machine widths are explicit where the code depends on them:**
- a `uint64_t` counter wraps modulo 2^64;
- the pipes' `uint8_t` attach count wraps modulo 256;
- `rand`'s `unsigned long` state is 64 bits wide;
- `ticks_elapsed` returns an `unsigned long` as an `int`.

**The interrupt flag.** The buddy allocator brackets every entry point with
`_cli`/`_sti`, and the model tracks that one flag. This is where the
finding below was found.

## Model

| member | source | states |
|---|---|---|
| KernelStrings.NulIndex | Kernel/strings.c:8-12 | the position the `strlen` walk stops at: it holds a NUL and no earlier position does |
| KernelStrings.Strlen | Kernel/strings.c:3-13 | NULL gives 0; otherwise the result is the index of the first NUL of the string |
| KernelStrings.Strcpy | Kernel/strings.c:15-25 | returns `dest`; with a NULL `dest` or `src` nothing is written; otherwise `dest` holds `src` up to and including its NUL and every later byte of `dest` is unchanged |
| TestUtil.Satoi | Userland/tests/test_util.c:34-56 | NULL gives 0; otherwise the result is `SatoiValue` of the C string: an optional `-` then only digits is that decimal number, negated for `-`, and anything else is 0 |
| TestUtil.SatoiReadsDecimal | Userland/tests/test_util.c:39-55 | every integer written in decimal (with `-` when negative) is read back as itself |
| TestUtil.SatoiRejectsNonDigit | Userland/tests/test_util.c:48-51 | a non-digit anywhere after the optional sign makes the result 0 |
| TestUtil.DecimalValueOfFormat | Userland/tests/test_util.c:48-53 | the digit accumulation `res * 10 + digit` inverts decimal formatting of a natural number |
| TestUtil.Memcheck | Userland/tests/test_util.c:24-32 | the result is 0 or 1, and 1 exactly when all `size` bytes from `start` equal `value` (so 1 for size 0) |
| TestUtil.MwcStepFits | Userland/tests/test_util.c:11-12 | each multiply-with-carry step `a * (x & 65535) + (x >> 16)` stays below 2^32, so the uint32 arithmetic never wraps there |
| TestUtil.MwcGenerator.constructor | Userland/tests/test_util.c:7-8 | the generator starts from the fixed seeds `m_z = 362436069`, `m_w = 521288629` |
| TestUtil.MwcGenerator.GetUint | Userland/tests/test_util.c:10-14 | both recurrences advance in uint32 and the result is `(m_z << 16) + m_w` mod 2^32, below 2^32 |
| TestUtil.MwcFirstSteps | Userland/tests/test_util.c:7-14 | an example: the first two states and outputs of the recurrences from the fixed seeds |
| TestUtil.FirstOutputs | Userland/tests/test_util.c:7-14 | an example: a fresh generator's first two `GetUint` results are 820856226 and 2331188998 |
| UserStdlib.Malloc | Userland/libc/stdlib.c:6-12 | the system call is made exactly when `size` is not 0; a zero request is NULL, any other is the kernel's answer |
| UserStdlib.Free | Userland/libc/stdlib.c:14-20 | the system call is made exactly for a non-NULL pointer |
| UserStdlib.CallocGuardExact | Userland/libc/stdlib.c:27-31 | for a non-zero size, `nmemb <= SIZE_MAX / size` holds exactly when `nmemb * size` fits in `size_t`, so the guard refuses precisely the overflowing products |
| UserStdlib.Calloc | Userland/libc/stdlib.c:22-42 | `malloc` is reached exactly for a non-zero count and size that pass the guard; the result is non-NULL exactly when it is reached and succeeds; then the first `nmemb * size` bytes are 0 and the rest of the block is untouched |
| UserStdlib.RandOutput | Userland/libc/stdlib.c:52 | the value returned from a state is at most 32767 |
| UserStdlib.RandStreamInRange | Userland/libc/stdlib.c:49-53 | every value of a `rand` stream is in [0, 32767] |
| UserStdlib.RandState.constructor | Userland/libc/stdlib.c:47 | the state starts at 1 |
| UserStdlib.RandState.Srand | Userland/libc/stdlib.c:55-57 | the state becomes the seed |
| UserStdlib.RandState.Rand | Userland/libc/stdlib.c:49-53 | the state takes one LCG step in 64 bits and the result, from the new state, is at most 32767 |
| UserStdlib.SeededSequence | Userland/libc/stdlib.c:47-57 | after `srand(seed)` the next `count` results are `RandStream(seed, count)`, whatever the state was before: they depend on the seed alone |
| UserStdlib.LcgFirstSteps | Userland/libc/stdlib.c:51-52 | an example: the first two states from 1 and the values they give |
| UserStdlib.DefaultStream | Userland/libc/stdlib.c:47-53 | an example: without `srand` the stream starts 16838, 5758 |
| Scheduler.Bump | Kernel/process/scheduler.c:58 | a `uint64_t` counter increment: one more below 2^64 - 1, 0 after it, always below 2^64 |
| Scheduler.BumpManyIsSum | Kernel/process/scheduler.c:104-109 | `n` increments of a counter take it `n` steps forward modulo 2^64 |
| Scheduler.BumpManyGrows | Kernel/process/scheduler.c:104-109 | until a counter would reach 2^64 each increment adds one, so `n` increments add exactly `n` and the metrics never go down before they wrap |
| Scheduler.HandleTimerInterrupt | Kernel/process/scheduler.c:122-125 | the stack frame handed in is handed back unchanged |
| Scheduler.SchedulerState.constructor | Kernel/process/scheduler.c:13 | the zero-filled static state: not initialised, no current or idle PCB, no pending reschedule, zero quantum and counters |
| Scheduler.SchedulerState.Init | Kernel/process/scheduler.c:29-38 | empty ready queue (every level empty, count 0, nothing urgent), no current or idle PCB, flag clear, quantum 4, zeroed metrics, no PCB changed, every other list keeps its nodes |
| Scheduler.SchedulerState.IsInitialized | Kernel/process/scheduler.c:40-42 | true exactly once `scheduler_init` ran |
| Scheduler.SchedulerState.SetIdleProcess | Kernel/process/scheduler.c:44-46 | the idle PCB becomes the argument, NULL included, and nothing else changes |
| Scheduler.SchedulerState.Current | Kernel/process/scheduler.c:48-50 | the current PCB as stored |
| Scheduler.SchedulerState.SetCurrent | Kernel/process/scheduler.c:52-67 | before initialisation nothing changes; after it the context-switch count goes up exactly when the PCB differs from the current one, the PCB becomes current and (if not NULL) RUNNING, and the flag is cleared |
| Scheduler.SchedulerState.EnqueueReady | Kernel/process/scheduler.c:69-75 | before initialisation or for NULL nothing changes; otherwise the PCB is READY and at the back of its level of the ready queue, out of any queue it was in |
| Scheduler.SchedulerState.EnqueueReadyFront | Kernel/process/scheduler.c:77-83 | as `EnqueueReady`, at the front of the level |
| Scheduler.SchedulerState.PickNext | Kernel/process/scheduler.c:85-95 | NULL before initialisation; otherwise the front PCB of the most urgent non-empty level, popped, or the idle PCB with the queue unchanged when none is ready |
| Scheduler.SchedulerState.HasReady | Kernel/process/scheduler.c:97-102 | true exactly when initialised and some level of the ready queue holds a PCB |
| Scheduler.SchedulerState.OnTick | Kernel/process/scheduler.c:104-109 | once initialised the tick count goes up by one (mod 2^64); nothing else changes |
| Scheduler.SchedulerState.OnTicks | Kernel/process/scheduler.c:104-109 | `n` ticks in a row, each `OnTick`: once initialised the tick count is `BumpMany` of the old one, that is it moves `n` steps modulo 2^64 and grows by exactly `n` until it wraps; before initialisation nothing changes; nothing else changes |
| Scheduler.SchedulerState.NeedsReschedule | Kernel/process/scheduler.c:111-116 | the flag once initialised, false before |
| Scheduler.SchedulerState.AckReschedule | Kernel/process/scheduler.c:118-120 | the flag is clear afterwards, initialised or not, and nothing else changes |
| Scheduler.SchedulerState.GetMetrics | Kernel/process/scheduler.c:127-129 | the two counters as they stand, each below 2^64 |
| Timer.NextTick | Kernel/drivers/time.c:28 | `ticks++` on an `unsigned long`: one more below 2^64 - 1, 0 after it |
| Timer.ToInt32 | Kernel/drivers/time.c:56-58 | the `int` an `unsigned long` becomes: in the 32-bit signed range, the same value below 2^31, and congruent to it modulo 2^32 |
| Timer.WaitingMembers | Kernel/drivers/time.c:45-52 | an entry is still asleep after a tick exactly when it was queued and its wake time is past the tick count |
| Timer.WaitingAppend | Kernel/drivers/time.c:45-52 | removing the due entries removes them part by part: what stays keeps its relative order |
| Timer.WaitingAll | Kernel/drivers/time.c:45-52 | nothing leaves the queue exactly when no entry is due |
| Timer.WokenMembers | Kernel/drivers/time.c:34-43 | a pid is unblocked exactly when some due entry names it and the lookup finds its process |
| Timer.TimerState.constructor | Kernel/drivers/time.c:12-19 | no ticks and no sleeping queue yet |
| Timer.TimerState.TimerHandler | Kernel/drivers/time.c:27-54 | one more tick; without a queue nothing else happens; with one, the unblocked pids are `WokenBy` of the queue at the new tick, in queue order, and the queue keeps exactly its non-due entries in order (`Waiting`) |
| Timer.TimerState.TicksElapsed | Kernel/drivers/time.c:56-58 | the tick count as an `int`: itself below 2^31, and the same modulo 2^32 |
| Timer.TimerState.SecondsElapsed | Kernel/drivers/time.c:60-62 | the whole seconds of ticks: `r * rate <= ticks < (r + 1) * rate` while that fits in an `int` |
| Timer.TimerState.SleepTicks | Kernel/drivers/time.c:64-88 | the queue is created if missing and allocation allows; the process is blocked exactly when there is a current process, the entry and its node are allocated and a queue exists; then the entry {pid, `ticks + t` mod 2^64} is at the back, otherwise the queue keeps its entries |
| Timer.TimerState.Sleep | Kernel/drivers/time.c:90-93 | `sleepTicks` of `seconds * SECONDS_TO_TICKS` converted to `uint64_t`, with the same blocking rule |
| Timer.QueuedWakes | Kernel/drivers/time.c:48-80 | an entry pushed at the back of the queue leaves it at the first tick at or past its wake time and not before, whatever the entries ahead of it do |
| Timer.NoneDueAfterTick | Kernel/drivers/time.c:45-52 | after a tick no entry left asleep is due |
| IntrusiveList.LinkedLists.constructor | Kernel/include/collections/list.h:10-19 | no list and no node is initialised yet, and the link invariant holds |
| IntrusiveList.LinkedLists.Init | Kernel/collections/list.c:12-21 | NULL changes nothing; otherwise the sentinel's `prev` and `next` point at itself, its owner is NULL, the size is 0, the list is empty and every list stays a well-formed circle |
| IntrusiveList.LinkedLists.NodeInit | Kernel/collections/list.c:23-31 | NULL changes nothing; otherwise the node's three fields become NULL and no list changes |
| IntrusiveList.LinkedLists.IsEmpty | Kernel/collections/list.c:33-35 | true exactly for NULL or a list that holds no node |
| IntrusiveList.LinkedLists.Size | Kernel/collections/list.c:37-39 | 0 for NULL, otherwise the number of nodes in the list |
| IntrusiveList.LinkedLists.PeekFront | Kernel/collections/list.c:113-118 | NULL for a NULL or empty list, otherwise the first node in list order |
| IntrusiveList.LinkedLists.PeekBack | Kernel/collections/list.c:120-125 | NULL for a NULL or empty list, otherwise the last node in list order |
| IntrusiveList.LinkedLists.IsLinked | Kernel/collections/list.c:127-129 | true exactly when the node is non-NULL and some list holds it |
| IntrusiveList.LinkedLists.OwnerOf | Kernel/collections/list.c:131-133 | NULL for NULL; otherwise the one list that holds the node, or NULL when none does |
| IntrusiveList.LinkedLists.OwnerExact | Kernel/collections/list.c:8 | a node's `owner` field names exactly the lists that hold it: the one it was attached to, or none |
| IntrusiveList.LinkedLists.SentinelLinks | Kernel/collections/list.c:17-18 | the sentinel's `next` is the first node and its `prev` the last, or the sentinel itself when the list is empty |
| IntrusiveList.LinkedLists.Attach | Kernel/collections/list.c:3-10 | linking an unlinked node between two neighbours of a list inserts it at that position, makes that list its owner and keeps every list a well-formed circle |
| IntrusiveList.LinkedLists.Remove | Kernel/collections/list.c:97-111 | NULL or an unlinked node changes nothing; otherwise the node leaves the list that owns it (and only that list), its fields become NULL and every list stays well formed |
| IntrusiveList.LinkedLists.PushFront | Kernel/collections/list.c:41-51 | NULL list or node changes nothing; otherwise the node first leaves any list that holds it, then becomes the first node of the list, which becomes its owner |
| IntrusiveList.LinkedLists.PushBack | Kernel/collections/list.c:53-63 | as `PushFront`, with the node becoming the last node |
| IntrusiveList.LinkedLists.PopFront | Kernel/collections/list.c:65-87 | returns what `PeekFront` returned; a node returned is taken off the front of the list and unlinked; NULL leaves everything unchanged |
| IntrusiveList.LinkedLists.PopBack | Kernel/collections/list.c:73-95 | returns what `PeekBack` returned; a node returned is taken off the back of the list and unlinked; NULL leaves everything unchanged |
| IntrusiveList.WalkVisitsInOrder | Kernel/include/collections/list.h:38-41 | following `next` from the sentinel visits the list's nodes in order and is back at the sentinel after all of them |
| IntrusiveList.WalkBackVisitsReversed | Kernel/collections/list.c:6-7 | following `prev` from the sentinel visits the nodes in reverse order |
| IntrusiveList.ChainDistinct | Kernel/collections/list.c:3-10 | no node occurs twice in a well-formed list |
| IntrusiveList.AttachOk | Kernel/collections/list.c:3-10 | the fields `list_attach` writes, in the order it writes them, keep every list well formed and put the node at the chosen position |
| IntrusiveList.AttachSelf | Kernel/collections/list.c:4-7 | rewriting the four pointers splices the node into its list's circle, in both directions |
| IntrusiveList.DetachOk | Kernel/collections/list.c:102-110 | the fields `list_remove` writes, in order, keep every list well formed and cut the node out of its owner |
| IntrusiveList.DetachSelf | Kernel/collections/list.c:104-105 | joining a node's two neighbours removes exactly that node from the circle |
| IntrusiveList.DetachPre | Kernel/collections/list.c:102-105 | a linked node's owner holds it, its `prev` and `next` are its neighbours there and the owner's size is positive, so the decrement cannot go below 0 |
| IntrusiveList.InitOk | Kernel/collections/list.c:17-20 | re-initialising an empty or never-initialised list keeps every list well formed and makes that one empty |
| IntrusiveList.NodeInitOk | Kernel/collections/list.c:28-30 | clearing an unlinked node's fields keeps every list well formed |
| IntrusiveList.Without | Kernel/collections/list.c:97-111 | removing a node present in a sequence shortens it by one; removing an absent one changes nothing |
| IntrusiveList.WithoutAt | Kernel/collections/list.c:104-105 | removing the first occurrence of a node cuts it out at its position |
| IntrusiveList.WithoutKeeps | Kernel/collections/list.c:104-105 | removing one node keeps every other node |
| QueueAdt.Queue.constructor | Kernel/collections/queueADT.c:20-22 | a queue with no head, no tail, size 0 and no nodes |
| QueueAdt.Create | Kernel/collections/queueADT.c:15-24 | NULL exactly when the allocation of the queue object fails; otherwise a fresh, empty, well-formed queue |
| QueueAdt.IsEmpty | Kernel/collections/queueADT.c:54-56 | true exactly when the queue is NULL or stores no element |
| QueueAdt.Size | Kernel/collections/queueADT.c:58-60 | the number of stored elements, 0 for NULL |
| QueueAdt.Peek | Kernel/collections/queueADT.c:104-109 | NULL exactly for a NULL or empty queue, otherwise the oldest element |
| QueueAdt.Push | Kernel/collections/queueADT.c:62-83 | false and nothing changes for a NULL queue or a failed node allocation; otherwise true, the element is appended after the tail, the new node becomes the tail and exactly one node is added |
| QueueAdt.PushKeeps | Kernel/collections/queueADT.c:72-80 | after linking the new node every old node keeps its element and its `next`, except the old tail, which points at the new node |
| QueueAdt.Pop | Kernel/collections/queueADT.c:85-102 | returns what `Peek` returned; NULL leaves the queue alone; otherwise the oldest element leaves, its node is freed, and `tail` is NULL once the queue is empty |
| QueueAdt.PopKeeps | Kernel/collections/queueADT.c:93-98 | freeing the head node leaves every later node as it was and no node outside the chain |
| QueueAdt.Clear | Kernel/collections/queueADT.c:26-44 | every node is freed and the queue is left empty; the destroy callback, when given, is called on every element in queue order, and never when it is NULL |
| QueueAdt.ClearStep | Kernel/collections/queueADT.c:32-39 | freeing the node the walk stands on keeps the nodes after it intact |
| QueueAdt.Destroy | Kernel/collections/queueADT.c:46-52 | clears the queue as `Clear` does, calling the callback on the same elements |
| QueueAdt.Iter | Kernel/collections/queueADT.c:111-117 | a fresh cursor before the first element, NULL for a NULL queue |
| QueueAdt.HasNext | Kernel/collections/queueADT.c:119-121 | true exactly when the cursor is non-NULL and stands before an element |
| QueueAdt.IterNext | Kernel/collections/queueADT.c:123-131 | yields the element the cursor stands before and moves it one on; at the end, or for a NULL cursor, yields NULL and stays |
| QueueAdt.Fifo | Kernel/collections/queueADT.c:62-102 | pushing elements one by one onto a new queue with `Push`, each into an unused node, and then calling `Pop` as many times hands them back in push order |
| Process.Clamp | Kernel/process/process.c:4-16 | the result lies in [0, 7]; a priority already there is kept and one above 7 becomes 7 |
| Process.PriorityValid | Kernel/process/process.c:18-20 | true exactly for the priorities that clamping leaves unchanged, that is, those below the number of levels |
| Process.ZeroContext | Kernel/process/process.c:190 | the 20 saved registers of `cpu_context_t`, all zero |
| Process.InitialPcb | Kernel/process/process.c:163-183 | the PCB `pcb_init` writes: the given pid with ppid 0, state NEW, the given foreground mode, the clamped priority (the given one when valid), no parent, no queue, zero counters and exit code, and a zeroed context |
| Process.UrgentLevel | Kernel/process/process.c:85-90 | the lowest level at or after `k` that holds a PCB: every level before it is empty, and it is non-empty unless it is past the last level |
| Process.Front | Kernel/process/process.c:94-104 | no PCB exactly when the level is empty; otherwise the PCB of the level's first node |
| Process.Urgent | Kernel/process/process.c:110-122 | no PCB exactly when every level of the queue is empty |
| Process.UrgentScan | Kernel/process/process.c:115-120 | a scan that reaches level `k` with nothing more urgent returns the front of `k` when it has one, and otherwise goes on to `k + 1` with the same target |
| Process.TotalZero | Kernel/process/process.c:143-145 | a queue's PCB total is 0 exactly when all its levels are empty |
| Process.TotalUpdate | Kernel/process/process.c:46-71 | changing one level changes its queue's total by the change in that level's length, and leaves other queues' totals alone |
| Process.Dec | Kernel/process/process.c:124-141 | the decrement behind its guard: one less when positive, 0 stays 0, other queues unchanged |
| Process.Inc | Kernel/process/process.c:46 | the queue's count goes up by one and every other count stays |
| Process.Relink | Kernel/process/process.c:124-141 | moving one node of a PCB into or out of one list, with that PCB's fields and its queue's count updated to match, keeps the PCB table, the counts and the lists consistent |
| Process.PopFrontOk | Kernel/process/process.c:62-73 | unlinking the front PCB of a level, decrementing its queue's count and clearing its `current_queue` keeps the table consistent |
| Process.RemoveOk | Kernel/process/process.c:134-140 | unlinking a queued PCB, decrementing its queue's count and clearing its `current_queue` keeps the table consistent, and the PCB's `current_queue` is the queue it was linked in |
| Process.PushOk | Kernel/process/process.c:42-46 | linking an unqueued PCB at either end of its clamped level, with `current_queue` and the count set, keeps the table consistent |
| Process.EnqueuedAfter | Kernel/process/process.c:38-46 | the removal from the old queue followed by the link into the new level is exactly the state change `queue_attach` promises |
| Process.PcbInitOk | Kernel/process/process.c:163-183 | initialising a PCB slot that is in no queue, no children list and has no children keeps the table consistent, with an empty children list and unlinked nodes |
| Process.DetachChildOk | Kernel/process/process.c:224-228 | unlinking a child from its parent's children list, with `parent` NULL and `ppid` 0, keeps the table consistent |
| Process.AttachChildOk | Kernel/process/process.c:214-216 | appending a parentless PCB to another PCB's children list, with `parent` and `ppid` set, keeps the table consistent |
| Process.AdoptedAfter | Kernel/process/process.c:213-216 | the detach followed by the append is exactly the state change `pcb_attach_child` promises |
| Process.ProcessTable.constructor | Kernel/include/process.h:55-81 | no PCB, no queue and no list yet, and the table is consistent |
| Process.ProcessTable.NoneQueued | Kernel/process/process.c:143-145 | an initialised queue's `process_count` is 0 exactly when every level is empty |
| Process.ProcessTable.LevelHolds | Kernel/process/process.c:68 | each node of a level is the scheduling node of a PCB whose `current_queue` is that queue |
| Process.ProcessTable.ChildrenHold | Kernel/process/process.c:216 | each node of a children list is the sibling node of a PCB whose parent owns the list |
| Process.ProcessTable.QueuedAt | Kernel/process/process.c:129-135 | a PCB whose `current_queue` is set is linked in a level of exactly that queue |
| Process.ProcessTable.Unqueued | Kernel/process/process.c:38-40 | a PCB whose `current_queue` is NULL is in no level of any queue |
| Process.ProcessTable.CountPositive | Kernel/process/process.c:136-138 | the queue of a queued PCB has a positive count, so the guard on the decrement never fires |
| Process.ProcessTable.Orphan | Kernel/process/process.c:224-226 | a PCB without a parent is in no children list |
| Process.ProcessTable.QueueInit | Kernel/process/process.c:22-31 | NULL changes nothing; otherwise every level of the queue is empty, the count is 0, PCBs are unchanged and every other list keeps its nodes |
| Process.ProcessTable.IsEmpty | Kernel/process/process.c:143-145 | true exactly for NULL or a queue with every level empty |
| Process.ProcessTable.Size | Kernel/process/process.c:147-149 | 0 for NULL, otherwise the number of PCBs in all the levels |
| Process.ProcessTable.PeekPriority | Kernel/process/process.c:94-108 | NULL for a NULL queue or an invalid priority; otherwise the PCB at the front of that level, NULL when it is empty |
| Process.ProcessTable.Peek | Kernel/process/process.c:110-122 | NULL for NULL; otherwise the front PCB of the lowest-numbered non-empty level, NULL when all are empty |
| Process.ProcessTable.PopPriority | Kernel/process/process.c:57-78 | returns what `PeekPriority` would; NULL changes nothing; a PCB returned left the front of that level, its queue's count went down (never below 0) and its `current_queue` is NULL |
| Process.ProcessTable.Pop | Kernel/process/process.c:80-92 | returns the PCB `Peek` selects and takes it off the front of its level as `PopPriority` does; NULL changes nothing |
| Process.ProcessTable.Remove | Kernel/process/process.c:124-141 | nothing changes for NULL, an unqueued PCB or a queue that is not the PCB's own; otherwise the PCB leaves its queue, whose count goes down, and its `current_queue` becomes NULL |
| Process.ProcessTable.Attach | Kernel/process/process.c:33-47 | NULL queue or PCB changes nothing; otherwise the PCB leaves any queue it was in, its priority is clamped, it sits at the back (or front) of that level of the queue, its `current_queue` is that queue and the count went up by one |
| Process.ProcessTable.Link | Kernel/process/process.c:42-46 | a PCB in no queue gets its clamped priority, is linked at the chosen end of that level, names the queue in `current_queue`, and the count goes up by one |
| Process.ProcessTable.Push | Kernel/process/process.c:49-51 | `Attach` at the back of the level |
| Process.ProcessTable.PushFront | Kernel/process/process.c:53-55 | `Attach` at the front of the level |
| Process.ProcessTable.PcbInit | Kernel/process/process.c:151-184 | NULL changes nothing; otherwise the slot holds `InitialPcb` of the arguments and an empty children list, and no queue changes |
| Process.ProcessTable.InitLinks | Kernel/process/process.c:164-166 | the children list becomes empty and both embedded nodes become unlinked |
| Process.ProcessTable.ResetContext | Kernel/process/process.c:186-191 | NULL changes nothing; otherwise only the PCB's saved context changes, to all zeros |
| Process.ProcessTable.SetPriority | Kernel/process/process.c:193-199 | NULL changes nothing; otherwise only the PCB's priority changes, to the clamped value, and the PCB stays in the level it is linked in |
| Process.ProcessTable.SetState | Kernel/process/process.c:201-206 | NULL changes nothing; otherwise only the PCB's state changes |
| Process.ProcessTable.DetachChild | Kernel/process/process.c:219-229 | NULL changes nothing; otherwise the child leaves the children list that held it, if any, and its `parent` and `ppid` are cleared |
| Process.ProcessTable.UnlinkSibling | Kernel/process/process.c:224-226 | the sibling node leaves its children list when linked; otherwise nothing changes |
| Process.ProcessTable.AttachChild | Kernel/process/process.c:208-217 | NULL for either changes nothing; otherwise the child leaves its old parent's list and is last in the new parent's children list, with `parent` and `ppid` naming it |
| Process.ProcessTable.Adopt | Kernel/process/process.c:214-216 | a parentless PCB becomes the last child of the parent, with `parent` and `ppid` set |
| Pipes.NextIndex | Kernel/pipes.c:12 | the slot after `idx` on the 16 KiB ring, always a valid slot |
| Pipes.Bump32 | Kernel/pipes.c:24-25 | a `uint32_t` waiting counter plus one, wrapping below 2^32 |
| Pipes.RingPush | Kernel/pipes.c:204-206 | storing a byte at the write slot and counting it appends the byte to the ring's contents |
| Pipes.RingPop | Kernel/pipes.c:157-159 | advancing the read slot and uncounting a byte drops exactly the oldest byte of the contents |
| Pipes.RingEmpty | Kernel/pipes.c:53-55 | a ring with nothing counted holds no bytes, wherever its slots point |
| Pipes.DecideRule | Kernel/pipes.c:264-272 | a pipe is deleted only with at most one attachment; pipes 0, 1 and 2 never release waiters; any other pipe is deleted exactly when nobody is attached, and then its waiters are released; with one attachment pipes 0, 1 and 2 are deleted without releasing waiters while any other pipe releases its waiters and is kept; with none every pipe is deleted, and only pipes other than 0, 1 and 2 release waiters; two or more attachments do neither |
| Pipes.Pipe.constructor | Kernel/pipes.c:52-58 | a fresh 16 KiB ring with both slots at 0, nothing stored, no attachment and no waiter |
| Pipes.Pipe.TakeByte | Kernel/pipes.c:157-159 | returns the oldest stored byte, which leaves the contents; the read slot advances and the count drops by one |
| Pipes.Pipe.PutByte | Kernel/pipes.c:204-206 | the byte becomes the newest stored byte; the write slot advances and the count grows by one |
| Pipes.Pipe.Read | Kernel/pipes.c:134-167 | copies the oldest min(bytes, stored) bytes into the buffer in order, leaving the rest of it alone, and removes them from the pipe; it finishes when all are read or at most one party is attached, and otherwise stops to wait on `can_read` with one more waiting reader |
| Pipes.Pipe.Write | Kernel/pipes.c:184-221 | appends the first min(bytes, free space) bytes of the source, in order; it finishes when all are written and otherwise stops to wait on `can_write` with one more waiting writer |
| Pipes.PipeTable.constructor | Kernel/pipes.c:28-29 | every slot NULL and `next_pipe_id` 0 |
| Pipes.PipeTable.CreatePipe | Kernel/pipes.c:46-90 | NULL exactly when the block or any of the three semaphores is not obtained; otherwise a fresh empty pipe numbered `next_pipe_id` with zero indices, attachments and waiters |
| Pipes.PipeTable.OpenPipe | Kernel/pipes.c:92-104 | -1 with nothing changed once `next_pipe_id` reaches 100 or creation fails; otherwise the new empty pipe takes slot `next_pipe_id`, which is returned and then advanced, and no other slot changes |
| Pipes.PipeTable.AttachToPipe | Kernel/pipes.c:106-118 | -1 for an id out of range or an empty slot; otherwise 0 and the `uint8_t` attach count goes up by one modulo 256; the id, the data and both waiting counts are untouched |
| Pipes.PipeTable.ReadPipe | Kernel/pipes.c:120-168 | -1 for a NULL buffer, then 0 for zero bytes, then -1 for a bad id, in that order; otherwise the pipe's read loop as `Pipe.Read` states it: the oldest bytes copied out and dropped, the pipe's id, attach count and waiting writers kept, and the waiting readers counted up (mod 2^32) exactly when the read would block |
| Pipes.PipeTable.WritePipe | Kernel/pipes.c:170-222 | the same checks in the same order; otherwise the pipe's write loop as `Pipe.Write` states it: the bytes appended, the pipe's id, attach count and waiting readers kept, and the waiting writers counted up (mod 2^32) exactly when the write would block |
| Pipes.PipeTable.UnattachFromPipe | Kernel/pipes.c:241-256 | the attach count drops by one, never below 0, unless the pid is outside the process range; the contents, id and waiting counts stay; for a bad id nothing happens |
| Pipes.PipeTable.DestroyPipe | Kernel/pipes.c:224-239 | NULL changes nothing; otherwise the slot becomes NULL and no other slot changes |
| Pipes.PipeTable.ClosePipe | Kernel/pipes.c:258-291 | -1 with nothing changed for a bad id or a failed wait on the mutex; otherwise 0, one post of `can_read` per waiting reader and of `can_write` per waiting writer when `Decide` releases waiters (none otherwise), and the slot NULL exactly when `Decide` deletes the pipe |
| Pipes.PipeTable.ResetPipes | Kernel/pipes.c:293-300 | every slot is NULL and `next_pipe_id` is 0 |
| Pipes.PipeTable.SetNextId | Kernel/pipes.c:302-304 | `next_pipe_id` becomes the given id; the table stays well formed |
| Pipes.Posts | Kernel/pipes.c:278-284 | the countdown loop posts `n` times for a positive `n` and never otherwise |
| Buddy.Pow2Add | Kernel/mmu/buddy.c:35-37 | the shift `1 << (a + b)` equals `(1 << a) * (1 << b)`: a block of order `a + b` holds `2^b` blocks of order `a` |
| Buddy.BlockSize | Kernel/mmu/buddy.c:35-37 | the block of an order is 2 to that power bytes |
| Buddy.NodeOrder | Kernel/mmu/buddy.c:44-54 | every node of `nodes[]` has an order in [5, 19] and has children exactly when its order is above 5 |
| Buddy.ChildOrder | Kernel/mmu/buddy.c:53-54 | both children of a node are built one order lower |
| Buddy.Halves | Kernel/mmu/buddy.c:49-54 | an inner node's children split its block into two equal halves, the left one first and the right one starting `half` bytes later |
| Buddy.RootLayout | Kernel/mmu/buddy.c:155 | the root is built with order 19 at the start of the heap and covers all 512 KiB; every leaf is a 32-byte block |
| Buddy.BlockWithin | Kernel/mmu/buddy.c:53-54 | a node's block lies inside the block of every node above it |
| Buddy.BlocksApart | Kernel/mmu/buddy.c:53-54 | two nodes neither of which lies below the other have disjoint blocks |
| Buddy.ParentOf | Kernel/mmu/buddy.c:41-57 | NULL exactly at the root; otherwise the node of which this one is a child |
| Buddy.InitialTree | Kernel/mmu/buddy.c:45 | every node FREE, which satisfies the split rule |
| Buddy.FreeBytes | Kernel/mmu/buddy.c:137-151 | the free bytes under a node never exceed its block |
| Buddy.FreeBytesSame | Kernel/mmu/buddy.c:137-151 | what `free_bytes` returns for a node depends on its subtree alone |
| Buddy.FreeBytesInner | Kernel/mmu/buddy.c:146-148 | a FREE or SPLIT inner node in a well-formed tree has the free bytes of its two halves together |
| Buddy.BelowUnsplitFree | Kernel/mmu/buddy.c:80-102 | in a well-formed tree everything below a FREE or USED node is FREE, so a USED block holds no other block in use |
| Buddy.AboveUsedSplit | Kernel/mmu/buddy.c:100-102 | every node above a node in use is SPLIT |
| Buddy.UsedApart | Kernel/mmu/buddy.c:88-91 | two USED nodes occupy disjoint blocks: no byte of the heap is handed out twice |
| Buddy.FreeBytesUp | Kernel/mmu/buddy.c:146-148 | a change to one node below a path of SPLIT nodes changes the free bytes of each node on the path by the same amount |
| Buddy.AcquireHere | Kernel/mmu/buddy.c:88-91 | turning a FREE node of the wanted order USED is a successful acquisition that loses exactly its block |
| Buddy.AcquireBelow | Kernel/mmu/buddy.c:100-107 | marking a node SPLIT and acquiring a block under one of its halves is an acquisition under the node |
| Buddy.BelowBytes | Kernel/mmu/buddy.c:100-110 | an acquisition under a half takes exactly the acquired block off the node's free bytes |
| Buddy.AcquiredCan | Kernel/mmu/buddy.c:75-119 | a block `acquire_node` hands out is a FREE node of the wanted order with no USED node above it |
| Buddy.CannotUnderUsed | Kernel/mmu/buddy.c:80-82 | nothing can be acquired under a USED node |
| Buddy.OrdersBelow | Kernel/mmu/buddy.c:84-98 | under a node no block has a higher order than the node, the only block of its own order is the node itself, and a leaf holds no block of another order |
| Buddy.CanSplit | Kernel/mmu/buddy.c:104-118 | when neither half of an inner node offers a block of the wanted order, the node offers none |
| Buddy.FailedSearchRestores | Kernel/mmu/buddy.c:114-116 | a failed search under an inner node puts it back as it was: SPLIT is undone exactly when both halves are FREE |
| Buddy.SearchedNowhere | Kernel/mmu/buddy.c:104-118 | when both halves fail, the node is restored and nothing could be acquired under it |
| Buddy.SearchedBelow | Kernel/mmu/buddy.c:104-112 | a block found under the left half, or under the right half when the left half held nothing to take, is the result of the search under the node, lowest base included |
| Buddy.CandidateInHalf | Kernel/mmu/buddy.c:100-107 | a block that may be taken under a node and lies in one of its halves may be taken under that half once the node is SPLIT |
| Buddy.LowestHere | Kernel/mmu/buddy.c:88-94 | a FREE node of the order sought is the only block that may be taken under it, so it is the lowest-based one |
| Buddy.LowestBelow | Kernel/mmu/buddy.c:104-112 | searching the left half first takes the lowest-based block: a block found there starts before every block of the right half, and the right half is searched only when the left half holds none |
| Buddy.LowestUnique | Kernel/mmu/buddy.c:75-119 | two blocks that may be taken and both have the lowest base are the same node, so the search result is determined |
| Buddy.FitOrder | Kernel/mmu/buddy.c:65-73 | the least order from 5 on whose block holds the size, or 20 when none up to 19 does |
| Buddy.FitOrderInRange | Kernel/mmu/buddy.c:175-181 | every total that fits the heap has an order up to 19 |
| Buddy.CoalesceStep | Kernel/mmu/buddy.c:124-126 | merging a node whose halves are both FREE moves the walk to its parent, keeps the walk's precondition and leaves the tree's free bytes unchanged |
| Buddy.MergeReady | Kernel/mmu/buddy.c:124-126 | after the merge every node except the parent keeps the split rule and everything above the parent is still SPLIT |
| Buddy.MergeKeepsFree | Kernel/mmu/buddy.c:125 | two FREE halves merged into one FREE block count the same free bytes |
| Buddy.CoalesceStop | Kernel/mmu/buddy.c:127-130 | stopping at a node whose halves are not both FREE leaves it SPLIT and the whole tree well formed |
| Buddy.CoalesceLeaf | Kernel/mmu/buddy.c:131-133 | a node without children passes the walk to its parent |
| Buddy.FreeReady | Kernel/mmu/buddy.c:216-218 | marking a USED node FREE readies its parent for coalescing and gives the tree back exactly that node's block |
| Buddy.UsedBytes | Kernel/mmu/buddy.c:238-240 | the bytes in USED blocks under a node never exceed its block |
| Buddy.FreeUsedTotal | Kernel/mmu/buddy.c:232-240 | in a well-formed subtree every byte is free or in a USED block, never both, so used plus available is the block size |
| Buddy.NothingUsedFree | Kernel/mmu/buddy.c:121-135 | a well-formed subtree without a USED node is a single FREE block: once every allocation is freed the heap has coalesced back to its root |
| Buddy.IdleHeap | Kernel/mmu/buddy.c:222-241 | with nothing allocated the whole heap is reported free and none of it used |
| Buddy.AllocHeaders | Kernel/mmu/buddy.c:189-190 | writing the new block's header overwrites no header of another USED block |
| Buddy.AllocOk | Kernel/mmu/buddy.c:183-193 | after the acquisition of the lowest-based block and the header write the tree is well formed, every header names the node whose block it starts, and the allocation is as `Allocated` states |
| Buddy.HeaderBefore | Kernel/mmu/buddy.c:189-193 | the header right before the returned address names the allocated node |
| Buddy.SizeFits | Kernel/mmu/buddy.c:175-176 | a node of the order `required_order` picks holds the request together with its header |
| Buddy.FreeHeaders | Kernel/mmu/buddy.c:216-218 | clearing the freed node's header keeps the header of every other USED block, and the node ends FREE |
| Buddy.BuddyHeap.constructor | Kernel/mmu/buddy.c:31-33 | the zero-filled static state: every node FREE, `root` NULL and no header written, interrupts enabled |
| Buddy.BuddyHeap.AcquireNode | Kernel/mmu/buddy.c:75-119 | NULL gives NULL with nothing changed; otherwise either a FREE node of the order below the start with no USED node above it is now USED, it is the one with the lowest base among all such nodes (`Lowest`, as the left-half-first search picks), the nodes on the way are SPLIT, nothing else changed and exactly its block was lost, or no such node existed and the tree is unchanged |
| Buddy.BuddyHeap.Descend | Kernel/mmu/buddy.c:100-118 | the search at an inner node with a higher order, as `AcquireNode` states it: the node taken is the lowest-based one that can be taken, found in the left half whenever the left half holds one |
| Buddy.BuddyHeap.DescendRight | Kernel/mmu/buddy.c:109-118 | after the left half held nothing to take, the search of the right half, whose result is the lowest-based node that can be taken under the node, or the node restored and nothing changed |
| Buddy.BuddyHeap.BuildTree | Kernel/mmu/buddy.c:39-63 | returns the node it was given; every node of its subtree is FREE and no node outside it changed |
| Buddy.BuddyHeap.MemInit | Kernel/mmu/buddy.c:153-157 | the whole tree is rebuilt FREE and the allocator is initialised, between `_cli` and `_sti` |
| Buddy.BuddyHeap.RequiredOrder | Kernel/mmu/buddy.c:65-73 | the loop returns `FitOrder` of the size |
| Buddy.BuddyHeap.CoalesceUp | Kernel/mmu/buddy.c:121-135 | from a freed node's parent, only SPLIT nodes at or above it turn FREE, the tree ends well formed and its free bytes do not change |
| Buddy.BuddyHeap.MemAlloc | Kernel/mmu/buddy.c:159-194 | NULL exactly for size 0, a size that does not fit the heap with its header, or when no FREE block of the needed order is free of USED ancestors, and then nothing changes; otherwise `Allocated`: the chosen node is the lowest-based FREE node of the least order that fits with no USED node above it, it is USED, holds the request and its header, its header is written just before the returned address, and the tree lost exactly that block; interrupts are enabled on return |
| Buddy.BuddyHeap.AllocBlock | Kernel/mmu/buddy.c:165-193 | the same as `MemAlloc`, once the tree is built: the node taken is the lowest-based FREE node of the least order that fits with no USED node above it |
| Buddy.BuddyHeap.MemFree | Kernel/mmu/buddy.c:196-220 | NULL, a call before `mem_init`, or a header of NULL or of a node that is not USED changes nothing; otherwise the header is cleared, the node becomes FREE, only SPLIT nodes above it merge, and the heap gains exactly that node's block, the one `mem_alloc` took; every way out re-enables interrupts |
| Buddy.BuddyHeap.MemFreeAsWritten | Kernel/mmu/buddy.c:196-220 | the same checks and release as `MemFree`: on release the header is cleared, the node is FREE, its parents are merged as far as they can be and the free bytes grow by its block; otherwise nothing changes; interrupts are enabled on return exactly when the way out is not the invalid-header one (buddy.c:211-214) |
| Buddy.BuddyHeap.FreeChecked | Kernel/mmu/buddy.c:202-218 | the way out taken is `FreeExitOf` the old state, the release happens exactly when the header names a USED node, and the interrupt flag is not touched |
| Buddy.FreeExitOf | Kernel/mmu/buddy.c:198-214 | ignored exactly for NULL or before `mem_init`; invalid exactly when the header names NULL or a node that is not USED; otherwise the USED node the header names |
| Buddy.DoubleFree | Kernel/mmu/buddy.c:211-216 | once `mem_free` has cleared a pointer's header, freeing the same pointer again takes the invalid-header way out |
| Buddy.BuddyHeap.ReleaseNode | Kernel/mmu/buddy.c:216-219 | the header is cleared, the node FREE and coalesced upward, and the tree's free bytes grow by its block |
| Buddy.BuddyHeap.MemStatus | Kernel/mmu/buddy.c:222-242 | after the lazy `mem_init`, total is the heap size, available the free bytes of the tree, used the bytes of USED blocks, and used plus available is the total; interrupts are enabled on return |
| FirstFit.Weight | Kernel/mmu/myMalloc.c:58-71 | a block spans its header and payload; its payload counts as used or as available by its `free` flag, never both |
| FirstFit.SumSplit | Kernel/mmu/myMalloc.c:63-71 | the `mem_status` walk adds up consecutive runs of the chain independently |
| FirstFit.AddrStep | Kernel/mmu/myMalloc.c:32 | each block's header starts right where the previous block's payload ends |
| FirstFit.AddrOrdered | Kernel/mmu/myMalloc.c:32-36 | the chain is in address order and no two blocks overlap |
| FirstFit.AddrWithin | Kernel/mmu/myMalloc.c:19-20 | every block lies inside the span of the chain |
| FirstFit.BlockAt | Kernel/mmu/myMalloc.c:54 | the block found is one whose payload starts at the pointer; none is found exactly when no block's payload starts there |
| FirstFit.BlockAtAddr | Kernel/mmu/myMalloc.c:40-54 | stepping back a header from the address `mem_alloc` hands out leads to the block it handed out |
| FirstFit.FirstFree | Kernel/mmu/myMalloc.c:26-45 | the first block in list order that is free and holds the size; none exactly when no block does |
| FirstFit.CarvedPiece | Kernel/mmu/myMalloc.c:31-39 | a block that leaves more than a header's room is cut in two pieces, otherwise it stays one piece |
| FirstFit.Taken | Kernel/mmu/myMalloc.c:31-38 | the payload handed out: the requested size when the block is cut, the whole block otherwise |
| FirstFit.PieceSums | Kernel/mmu/myMalloc.c:31-39 | cutting keeps the block's span and moves exactly the taken payload from available to used, the new header costing one header size |
| FirstFit.CarveSpan | Kernel/mmu/myMalloc.c:31-39 | after an allocation the chain still covers exactly the same span |
| FirstFit.CarveSums | Kernel/mmu/myMalloc.c:31-71 | after an allocation used grows by the taken payload and available shrinks by it and, on a cut, by one header |
| FirstFit.CarveHead | Kernel/mmu/myMalloc.c:37-40 | blocks before the chosen one are unchanged and keep their addresses; the chosen block is used, holds at least the size and stays at its address |
| FirstFit.CarveRemainder | Kernel/mmu/myMalloc.c:32-36 | the free remainder of a cut has the left-over size and starts right after the handed-out payload |
| FirstFit.CarveTail | Kernel/mmu/myMalloc.c:35-36 | every later block keeps its contents and its address, one place further down the list after a cut |
| FirstFit.FreedSums | Kernel/mmu/myMalloc.c:54-55 | freeing changes no address; a used block's payload moves from used to available |
| FirstFit.SumParts | Kernel/mmu/myMalloc.c:58-71 | the used and available payload together with one header per block make up the span |
| FirstFit.SplitThenFree | Kernel/mmu/myMalloc.c:31-56 | without coalescing, cutting a block and freeing it again leaves one block more and one header's worth less available |
| FirstFit.FirstFitHeap.constructor | Kernel/mmu/myMalloc.c:16 | `free_list` starts NULL: no blocks |
| FirstFit.FirstFitHeap.MemInit | Kernel/mmu/myMalloc.c:18-23 | one free block of the heap size less its header |
| FirstFit.FirstFitHeap.MemAlloc | Kernel/mmu/myMalloc.c:25-46 | NULL with nothing changed exactly when no block is free and large enough; otherwise the first such block is cut as `Carve` states, its payload address is returned, leads back to it, and it is used and large enough; the chain keeps covering the heap |
| FirstFit.FirstFitHeap.Owner | Kernel/mmu/myMalloc.c:54 | the block in front of a pointer, when one is |
| FirstFit.FirstFitHeap.MemFree | Kernel/mmu/myMalloc.c:49-56 | NULL changes nothing; otherwise the block in front of the pointer is marked free and nothing else changes |
| FirstFit.FirstFitHeap.MemStatus | Kernel/mmu/myMalloc.c:58-72 | total is the heap size, used and available the payload of the used and of the free blocks; after `mem_init` they add up to the heap less one header per block |
| Shell.SubMod | Userland/Shell/shell.c:29 | for operands in the ring the result is in the ring and is the difference, plus the modulus when it went negative |
| Shell.IncMod | Userland/Shell/shell.c:28 | the next index of the ring: one more, and 0 after the last |
| Shell.DecMod | Userland/Shell/shell.c:30 | the previous index of the ring: one less, and the last after 0 |
| Shell.IncDec | Userland/Shell/shell.c:28-30 | the up and down arrows undo each other: one step forward and one back return to the same history row, either way round |
| Shell.Lead | Userland/Shell/shell.c:583-585 | the count of leading white space: all of it white space and the character after it not |
| Shell.TrailEnd | Userland/Shell/shell.c:587-594 | where the trailing white space begins: everything after it white space, the character before it not, never before the given start |
| Shell.Trim | Userland/Shell/shell.c:578-598 | the slice of the string between its leading and trailing white space, beginning and ending with a character that is not white space |
| Shell.TrimIdempotent | Userland/Shell/shell.c:578-598 | trimming a trimmed part changes nothing |
| Shell.TrimBlank | Userland/Shell/shell.c:293-300 | a part trims to the empty string exactly when it is all white space, which is when `main` refuses it |
| Shell.WordLength | Userland/Shell/shell.c:417-451 | the length of the leading word: all of it non-space and followed by a space or the end |
| Shell.Tokens | Userland/Shell/shell.c:417-460 | the tokens `strtok` with a space separator hands out: each non-empty and without a space |
| Shell.FirstIndexOf | Userland/Shell/shell.c:278-284 | `strchr`: the first position of the character, or NULL exactly when it does not occur |
| Shell.LookupFrom | Userland/Shell/shell.c:430-435 | the first entry from the given one with the name, or none exactly when no later entry has it |
| Shell.Lookup | Userland/Shell/shell.c:429-439 | the first entry of the `commands` table named exactly as the command, or none exactly when no entry is |
| Shell.Truncated | Userland/Shell/shell.c:426-427 | the token cut to at most 255 characters, a prefix of it, and the token itself when it is short enough |
| Shell.SkipPipes | Userland/Shell/shell.c:417-420 | the first token that is not `|`, every token before it being `|` |
| Shell.ArgEnd | Userland/Shell/shell.c:451-461 | the argument loop stops at the end, at a `|` or when 63 entries of `argv` are filled, having copied no `|` |
| Shell.ParsedWell | Userland/Shell/shell.c:441-465 | a parsed command holds a table name first, 1 to 63 entries in `argv`, arguments that are non-empty, space-free and not `|`, and the entry's built-in flag |
| Shell.ParsedShape | Userland/Shell/shell.c:417-465 | on success `argv[0]` names the first table entry matching the first non-`|` token, and the tokens after it follow in order up to the end, a `|` or the argument limit |
| Shell.ParseNothing | Userland/Shell/shell.c:417-424 | `parseCommand` returns 0 exactly when every token is `|` |
| Shell.ParseFailures | Userland/Shell/shell.c:429-457 | -1 for an unknown name exactly when no table entry carries the truncated token; -1 for memory only when a `malloc` returns NULL |
| Shell.ParseCommand | Userland/Shell/shell.c:410-466 | the loop-based parse returns what `ParseSpec` states |
| Shell.CopyArguments | Userland/Shell/shell.c:451-463 | `argv` is the name followed by the tokens up to `ArgEnd`, or failure when the `malloc` of one of them returns NULL |
| Shell.LinePipes | Userland/Shell/shell.c:278-290 | a line is refused for its pipes exactly when it holds two or more `|` |
| Shell.LineAccepted | Userland/Shell/shell.c:277-334 | an accepted line gives one command per part, two exactly when it holds a `|`, each well parsed |
| Shell.ParseLine | Userland/Shell/shell.c:277-301 | the split at the first `|`, the second-pipe check and the trimming of each part, as `LineSpec` states |
| Shell.ParseParts | Userland/Shell/shell.c:298-334 | an empty first part is refused silently, a failed parse reports its token, an empty second part reports the first command's name, otherwise the commands are accepted, as `PartsSpec` states |
| Shell.LaunchOf | Userland/Shell/shell.c:478-527 | nothing exactly for no command; a built-in runs in the shell exactly when it is the only command; a pipe is refused exactly when it has more than one command and one of them is built in; processes are spawned exactly when no command is built in, a final `&` on the first command setting the background flag and being dropped from its `argv`, the rest unchanged |
| Shell.BackgroundStrip | Userland/Shell/shell.c:483-497 | only the `&` is dropped: putting it back gives the first command's `argv`; without it the commands are run as parsed; a lone built-in is run as parsed |
| Shell.ListedFrom | Userland/Shell/shell.c:604-608 | the listing loop lists at most the rows left before the limit |
| Shell.ListedFromRows | Userland/Shell/shell.c:604-608 | every listed row is non-empty and is the row that many steps back from the start |
| Shell.ListedFromStops | Userland/Shell/shell.c:604 | the row after the last listed is empty unless the limit of ten stopped the loop |
| Shell.Listed | Userland/Shell/shell.c:600-610 | `history` lists at most ten rows |
| Shell.ListedRows | Userland/Shell/shell.c:600-610 | `history` lists the stored lines newest first: the k-th is the row k + 1 back from `command_history_last`, none empty, stopping at the first empty row or after ten |
| Shell.NewestFirst | Userland/Shell/shell.c:600-605 | a line just stored is the first one `history` lists |
| Shell.ZeroedFrom | Userland/Shell/shell.c:364-368 | the buffer with a range of positions set to NUL and every other position kept |
| Shell.Edited | Userland/Shell/shell.c:203-222 | the typed line never outgrows the buffer; a character other than backspace or DEL is appended, with the line before it kept, while fewer than 1023 are typed |
| Shell.EditUndo | Userland/Shell/shell.c:203-222 | a backspace takes back the character typed before it |
| Shell.ShellState.constructor | Userland/Shell/shell.c:175-177 | the zero-filled statics: empty buffers and history rows, row 0 for `command_history_last` and the arrow |
| Shell.ShellState.DeleteCharacter | Userland/Shell/shell.c:353-362 | nothing on an empty line; otherwise one character fewer, its position zeroed in both buffers |
| Shell.ShellState.AppendCharacter | Userland/Shell/shell.c:203-222 | backspace and DEL delete; a full line is left alone; anything else is written at `buffer_dim` in both buffers; the line is `Edited` of the old one |
| Shell.ShellState.EmptyScreenBuffer | Userland/Shell/shell.c:364-368 | the line is emptied, every typed position of both buffers zeroed, the rest kept |
| Shell.ShellState.ShowArrowed | Userland/Shell/shell.c:183-200 | an empty row under the arrow changes nothing; otherwise the typed line is erased and both buffers hold the row as a C string |
| Shell.ShellState.PreviousCommand | Userland/Shell/shell.c:181-190 | the arrow moves one row back; a non-empty row there becomes the typed line, an empty one changes nothing |
| Shell.ShellState.NextCommand | Userland/Shell/shell.c:192-201 | the arrow moves one row forward; a non-empty row there becomes the typed line, an empty one changes nothing |
| Shell.ShellState.Key | Userland/Shell/shell.c:241-263 | a newline ends the line; Ctrl-C empties it; Ctrl-D ends the shell on an empty line and is ignored otherwise; anything else edits the line |
| Shell.ShellState.Submit | Userland/Shell/shell.c:265-346 | the entered line is parsed as `LineSpec` states; an accepted line is stored at `command_history_last`, which moves on with the arrow, and is handed on as `LaunchOf` states; a refused one leaves the history alone; the line is emptied either way |
| Shell.ShellState.EndLine | Userland/Shell/shell.c:267-268 | both buffers are NUL-terminated at `buffer_dim` and hold the same C string, the entered line |
| Shell.ShellState.Record | Userland/Shell/shell.c:336-339 | the line is stored at `command_history_last`, which moves forward, and the arrow points there |
| Shell.ShellState.ClearLine | Userland/Shell/shell.c:344-346 | both buffers start with a NUL and the line is empty; nothing else changes |
| Shell.ShellState.History | Userland/Shell/shell.c:600-610 | the lines listed are `Listed` of the history |
| Shell.ListRows | Userland/Shell/shell.c:601-608 | the listing loop yields `Listed` of the rows |
| Shell.TrimAt | Userland/Shell/shell.c:596 | ending the string after its last non-space character leaves its trimmed form in place |
| Shell.TrimWhitespace | Userland/Shell/shell.c:578-598 | NULL for NULL; otherwise the string is cut with a NUL after its last non-space character, the rest of the buffer unchanged, and the result points at its trimmed form |
| Shell.SkipSpaces | Userland/Shell/shell.c:583-585 | the first loop stops at the first character that is not white space |
| Shell.SpacesFrom | Userland/Shell/shell.c:587-594 | the second loop ends just after the last character that is not white space, never before the start |

## Findings

| source | as written | input that shows it | evidently intended | confidence | as-written member | corrected member |
|---|---|---|---|---|---|---|
| Kernel/mmu/buddy.c:211-214 | `mem_free` returns without `_sti()` when the header names NULL or a node that is not USED. It leaves interrupts disabled, because `_cli()` at line 197 was not undone. | freeing the same pointer twice: the first call clears the header (`Buddy.DoubleFree`), so the second call takes this way out | every way out of `mem_free` restores interrupts, as the other ways out and `mem_alloc`/`mem_status` do | high (not executed) | Buddy.BuddyHeap.MemFreeAsWritten | Buddy.BuddyHeap.MemFree |

## Left out

- Semaphores (`Kernel/sem.c`).
  - The file is an unfinished stub, and most `sem_*` functions have no body in the files modelled here.
  - The pipes call them through parameters instead: what a wait or post returns, and the waiting counts.
- Blocking and concurrency in pipes.
  - Each call is one single-threaded step.
  - Where the C would wait on `can_read` (an empty ring with more than one attachment) or on `can_write` (a full ring), the step ends with a `WouldBlock` outcome instead of waiting.
  - The `mutex` semaphore is taken to be always available: no read or write path waits on it.
  - The `_force_scheduler_interrupt` that `write_pipe` issues after a byte reaches a waiting reader is a yield the model does not stop at: the step goes on writing.
- QueueAdt.Destroy: the `mem_free` of the queue object itself is not modelled; the object stays allocated in the model, emptied as `Clear` leaves it.
- Pipes.PipeTable.UnattachFromPipe: the two `sem_remove_process` calls on `can_read` and `can_write` belong to the semaphores, which are outside this model.
- Pipes.PipeTable.ReadPipe and Pipes.PipeTable.WritePipe:
  - the `(int)` cast of the byte count returned is not modelled;
  - the count is returned as a natural number below 2^64.
- `free_pipes` and `init_pipes`: `free_pipes` is declared but has no body, and `init_pipes`'s semaphore names are not modelled.
- `queue_remove`: it is declared in `Kernel/include/queueADT.h:24` but not defined, so `timer_handler`'s removal of the due entries is modelled as a filter of the queue.
- Process operations without a body in these files, which are outside this model:
  - `createProcess`, `process_exit` and `process_wait_*`;
  - `process_block`, `process_unblock` and `process_yield`;
  - `process_lookup`, aging and `schedule_tick`.
  - `process_lookup`, `process_unblock` and `process_block` appear only as parameters or outputs.
- `PROCESS_FIRST_PID`, `PROCESS_MAX_PROCESSES` and `SECONDS_TO_TICKS` are not defined in the files modelled here, so they are parameters.
- `toggleCursor` in `timer_handler` is screen output and is not modelled.
- Interrupt masking outside the buddy allocator: `_cli`/`_sti` in `Kernel/fd.c`, the IDT loader and boot have no effect in the model.
- Buddy.BuddyHeap.MemAlloc: the nested `mem_init` re-enables interrupts before the allocation goes on. The model only states that interrupts are enabled when `mem_alloc` returns.
- Buddy.BuddyHeap.MemFree and Buddy.BuddyHeap.MemFreeAsWritten:
  - they require that the header address in front of `ptr` be one the allocator wrote;
  - reading an arbitrary word of user memory as a header is not modelled;
  - the allocation headers are a map from address to node, not bytes of the heap.
- Buddy: the `parent`, `left`, `right`, `order` and `base` fields of a node are functions of its index, as `build_tree` computes them. Only the node states are stored.
- Buddy.BuddyHeap.MemStatus: NULL out-pointers are not modelled. All three results are returned.
- FirstFit.FirstFitHeap.MemFree:
  - it requires `ptr` to be the payload address of a block of the chain;
  - the C writes through any pointer it is given.
- FirstFit: `next` pointers are implicit in the order of the chain, and a block's address is the room taken by the blocks before it.
- Process.ProcessTable.PcbInit: it requires a slot that is in no queue, has no children and is no one's child. The C zero-fills the PCB whatever its links, which would leave other lists pointing at it.
- Process.ProcessTable.QueueInit, Scheduler.SchedulerState.Init and IntrusiveList.LinkedLists.Init:
  - they require the queue or list they re-initialise to be empty;
  - in the C, re-initialising a non-empty one would orphan its nodes.
- IntrusiveList.LinkedLists.NodeInit: it requires an unlinked node, for the same reason.
- Process: `process_count` is an unbounded natural number.
- KernelStrings.Strcpy:
  - it requires `dest` to hold the copy, since an overflowing copy is undefined behaviour in C;
  - it also requires `dest` and `src` not to be the same array, so that the two can be framed apart;
  - the kernel's `strcpy` takes no `restrict`, and the self-copy it defines, which leaves the string as it was, is not modelled;
  - the one call, at Kernel/pipes.c:35, copies a string literal into the static semaphore-name buffer: two distinct arrays, and the literal fits.
- TestUtil.Satoi: it accumulates in mathematical integers. The `int64_t` overflow of very long digit strings is undefined behaviour in C and is not modelled.
- `GetUniform` in `Userland/tests/test_util.c` uses floating point and is not modelled.
- UserStdlib.RandState.Srand: the seed is an `unsigned int` below 2^32.
- UserStdlib.Calloc:
  - its arguments are `size_t` values below 2^64;
  - the block handed back by the kernel must be at least as long as the request.
- Timer.TimerState.SecondsElapsed: the contract holds only while the quotient fits in an `int`. Past that, the result is only known to be the truncated `int`.
- Timer.TimerState.Sleep: it requires `seconds * SECONDS_TO_TICKS` to fit in an `int`, since a signed overflow there is undefined behaviour in C.
- Shell.SubMod: it is stated for operands in the ring, the only way the shell uses it.
- Shell process spawning: `processCreate`, `processWaitPid`, `openPipe` and the fd-target updates in `Userland/Shell/shell.c:499-575` are outside this model. `LaunchOf` stops at what is to be spawned and whether in the background.
- Shell output: `printf` and `putchar`, the prompt and `prompt_dirty`, `clearScreenCharacter` and `handleBackgroundChildren` are not modelled.
- The `exit` built-in's `sscanf` is not modelled.
- The shell's scratch state: `freeParsedCommands` and `cleanupParsedCommand` are not modelled. Nor are the NULs written into `buffer` while a line is parsed: at the `|` that `strchr` finds (`Userland/Shell/shell.c:282`), at the separators `strtok` replaces, and at the end `trimWhitespace` sets, beyond what `TrimWhitespace` states. Shell.ShellState.Submit therefore states `buffer` only up to its first NUL as the C leaves it.
- Pids are unbounded integers rather than `int32_t`.
- Syscall dispatch, video and fonts, exceptions, the fd layer, the shell's other commands and the user-space stress tests are outside this model.

