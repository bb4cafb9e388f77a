# Verified model of the kernel's core

A Dafny model of five connected parts of this small x86 kernel, with machine-checked proofs about
them: synchronous message passing and its three real clients, the two schedulers, the kernel heap
over page frames and page tables, the on-disk file system, and number printing and parsing.
`dafny verify dfyconfig.toml` checks the whole project.

Code that changes state is modelled as it is written: classes over arrays, maps and sequences whose
methods loop over links, frames, bitmaps and buffers. Each method is proved against a specification
on plain values, and the theorems are about those specifications, over every input, every reachable
state or every run.

| File | Part of the system |
|---|---|
| `ProcTable`, `Messages`, `ListSurgery`, `Successors`, `Mailboxes`, `InterruptLatch` | the process table, the message protocol as a transition system, its linked lists and the states its calls lead to, its refinement to mailboxes, the interrupt latch |
| `Clients` | the terminal, the file system and the disk driver composed over the protocol |
| `LineSchedule`, `AgingSchedule` | what the two schedulers decide and how fair they are |
| `ClientSchedule` | the three clients under the round-robin scheduler |
| `Kernel` | the imperative code over the process table: messages, scheduling, system calls, slots |
| `Pmm`, `PageTables`, `HeapPages` | frames, two-level page tables, the pages under the heap |
| `HeapSpec`, `HeapLinks`, `Heap`, `HeapAsWritten` | the heap as a list of chunks, the same list as linked headers, the code, the line of it that loses chunks, and which requests its machine widths serve |
| `FsBytes`, `FsSpec`, `FsImage`, `FsDisk` | sectors and records, what the disk routines do, the files and folders that the disk represents, the code |
| `Digits`, `Printk`, `PrintkFormat`, `PrintkShape`, `Numbers` | numerals, `number` and `vsprintf`, formats written and read back, what the printed text looks like, the parsers |
| `Words`, `Sequences`, `Counting` | 32-bit words, sequence surgery, set sizes and the pigeonhole principle |

## What the proofs establish

**Messages.** A process is on a receiver's list exactly when it is blocked sending to it; lists are
acyclic and disjoint; nobody is blocked receiving while a sender it wants is queued. `msg_block` does
not say why a process is blocked, so `msg_send` can copy into a process that is blocked as a sender.
`Messages.SendValidIffNoMisfire` gives the exact condition, and `Clients.NoMisfireInAnyRun` shows that
the terminal, the file system and the disk driver never meet it, in any interleaving with interrupts
at any time; they never deadlock, from every state with a request outstanding its reply can be
reached, and it gets just one. Under the round-robin scheduler it takes at most as many rounds of N
scheduler calls as there are client steps left, apart from rounds that begin with everything waiting
for the disk interrupt (`ClientSchedule.AnsweredWithinRounds`). Whole runs refine mailboxes: every
message is delivered once, in order per sender, or is still queued. No call takes or frees a slot or
changes a priority; which process can change which other field is listed for every call.

**Schedulers.** The round-robin search reaches a process that stays runnable within N calls. Of the
priorities the aging scheduler needs only that those of runnable processes are positive; a free slot
has priority 0, as in the table that the kernel starts with. From a fresh table, whatever blocks,
wakes or takes a slot, every call finds somebody to choose if anybody can run, a process of priority p
is reached within p*N calls, and no `waiting` counter of a process that ever runs reaches N times its
priority. From arbitrary counters it is reached within (p+1)*N calls as long as its own counter does
not wrap, and within twice that and one more if it does.

**Heap.** After any history of requests and releases the chunks tile the heap, no two neighbours are
free, the last is allocated, live payloads are disjoint, and `heap_max` is the end of the last chunk
rounded up to a page. Frames are conserved between the free stack, the heap and the page tables.

**Files.** The disk represents a growing list of files and folders. Creating one changes no other
inode, no other extent and no existing entry. Whatever a history made is still there, and is named in
the folder it was made in if that had room. The set bits of the sector map are the metadata and the
extents; following ".." always ends at the root.

**Printing.** Every format of text and written directives (flags in any order and number, a width and a
precision in digits, a qualifier) prints its text and its arguments in order. What each directive
prints is stated character by character: blanks, sign, prefix, digits of the right alphabet that
denote the argument, no more zeros or blanks than asked for. A numeric directive prints its argument
if and only if neither width nor precision is `*`; the parsers undo `%u` and `%d` on all 32-bit values.

## Where the code differs from its intent

Three lines are modelled as intended, each marked as repaired where it stands, and each accompanied
by what the line as written does:

- `split_chunk` (mm/heap.c:121-130) does not set the back link of the chunk behind.
  `HeapAsWritten.LinkedIffNotSplit`: the list stays well linked if and only if the chunk is not split.
  `HeapAsWritten.LiveChunkIsLost`: a history that drops a live chunk.
- `unmap` (mm/vmm.c:70) uses PGD_INDEX for the table index. `PageTables.AddressSpace.UnmapAsWritten`
  says which page it clears, `PageTables.UnmapAsWrittenIff` when that is the right one. For all of the
  heap's first four megabytes it is page 0xE0380000 (`PageTables.HeapPagesStrikeOne`).
- The inode offset (fs/mk.c:201, fs/mk.c:295) multiplies by the record size twice.
  `FsSpec.OffsetAsWrittenIff`: it is right exactly for ids below 16 and before the buffer otherwise.

These limits are kept as the code has them, each with its exact condition:

- `update_sector_map` (fs/mk.c:61-106) marks a free run correctly if and only if it lies within one
  sector of the map (`FsSpec.UpdateMapExactIff`), and making an inode is right under just that
  condition (`FsImage.MakeInodeRefinesIff`). A run that crosses is handed out twice
  (`FsSpec.CrossingRunGivenTwice`), and such a run is reached (`FsImage.CrossingIsReachable`).
- `kmalloc` (mm/heap.c:30-98) adds in 32 bits, keeps lengths in 31 bits and grows the heap until a
  32-bit `heap_max` reaches the new end. A request is served, in a chunk that holds it and its header
  and is backed by pages, if and only if their sum does not wrap and either a free chunk fits or the
  new end is at most 0xFFFFF000: beyond that `heap_max` wraps to 0 (`HeapAsWritten.ServedIff`). Two
  requests without a wrapping sum that fail are in `HeapAsWritten.LargeRequestsNotServed`.
- `proc_priority_schedule` (proc/sched.c:53-79) sets `mark` if and only if some process can run whose
  counter does not wrap at that call (`AgingSchedule.CallChoosesIff`).
- Installation (fs/fs.c:290-423) leaves a disk with just a root folder if and only if the metadata end
  within the first sector of the map and the root does not cross out of it (`FsImage.InstallIff`).
- `pmm_alloc_page` (mm/pmm.c:125-131) leaves a usable stack if and only if the stack was not empty
  (`Pmm.Allocator.AllocPageAsWritten`).
- `alloc_pmm` (mm/pmm.c:99-122) returns the base of a block exactly when the frames on top of the
  stack lie within as many pages from the deepest of them on (`Pmm.AllocIsBlockIff`).
- A wait for an interrupt falls through exactly when another interrupt is latched
  (`InterruptLatch.WaitFallsThroughIff`).
- `*` in a format (kernel/printk.c:223-230, kernel/printk.c:238-241) takes an argument but is not
  skipped: a directive prints its argument if and only if it has none
  (`PrintkFormat.PrintsItsArgumentIff`), and `%*d` prints `%*d` (`PrintkFormat.StarPrintsStar`).

## Model

| member | source | states |
|---|---|---|
| Messages.StepKeepsValid | msg/msg.c:21-161 | every legal send, receive, raise and wait keeps the lists linked, duplicate-free, disjoint and equal to the blocked senders, the roles consistent with the table, and no rendezvous missed |
| Messages.SendKeepsValid | msg/msg.c:72-96 | a send that does not hit the stale `recv_from` keeps all of that |
| Messages.ReceiveKeepsValid | msg/msg.c:99-140 | so does a receive, whether it takes a queued sender or blocks |
| Messages.InterruptKeepsValid | msg/msg.c:21-69 | so do raising and waiting for an interrupt |
| Messages.SendValidIffNoMisfire | msg/msg.c:78-95 | a send from a valid state leads to a table that is valid under some reading of who is blocked why, if and only if the target is not a blocked sender whose stale `recv_from` admits the caller |
| Messages.MisfireOverwritesMessage | msg/msg.c:78-84 | otherwise the target stays queued, unblocked, with its own message overwritten |
| Messages.FirstSendMisfires | proc/proc.c:175 | a process that has never received and blocks in a send is such a target for process 0, because `recv_from` starts out 0 |
| Messages.InterruptsLeaveMessages | msg/msg.c:37-41 | an interrupt never wakes a process blocked on a message |
| Messages.MessagesLeaveInterrupts | msg/msg.c:78 | a message never wakes a process in WAIT_INT |
| Messages.RunStaysValid | msg/msg.c:72-161 | the invariant holds in every state of every run of legal calls |
| Messages.BootIsValid | proc/proc.c:70-80 | it holds when nobody is blocked and every list is empty |
| Messages.MatchAt | msg/msg.c:112-134 | the search stops at the first sender that is wanted, or finds none |
| Messages.SendOutcome | msg/msg.c:72-96 | after a send the message is either in the slot of an unblocked receiver that was waiting for it, or in that of the blocked sender, last on the list |
| Messages.ReceiveOutcome | msg/msg.c:99-140 | after a receive the caller has the message of the oldest wanted sender, which is unblocked and off the list, or is blocked with its own buffer and what it wants |
| Messages.SendFrame | msg/msg.c:72-96 | field by field and slot by slot, what a send does not change, and who alone can have changed otherwise |
| Messages.ReceiveFrame | msg/msg.c:99-140 | the same for a receive |
| Messages.InterruptFrame | msg/msg.c:21-69 | an interrupt call touches only the latch and the blocking of its own slot; the id changes only when none is pending or awaited; another id than that changes nothing |
| Messages.StepFrame | msg/msg.c:21-161 | over every step no slot is taken or freed and no priority changes, only scheduling changes status and waiting, recv_from changes only for a receiver that blocks and send_to only for a sender that blocks |
| Messages.RunKeepsSlots | msg/msg.c:21-161 | so over every run the slots in use and the priorities are those of its start |
| Mailboxes.StepRefines | msg/msg.c:72-161 | each call on the table is the corresponding step of per-receiver mailboxes |
| Mailboxes.RunRefinesMailboxes | msg/msg.c:72-161 | each run of the table is a run of the mailboxes on the same events |
| Mailboxes.MailStepKeepsValid | msg/msg.c:107-135 | in the mailboxes everything ever sent is what was delivered followed by what is queued, and each blocked sender has one letter queued |
| Mailboxes.CollectKeepsValid | msg/msg.c:112-131 | a receive takes the oldest letter that is wanted: those before it are not wanted, and the box that remains is what was before it followed by what was behind; without a wanted letter nothing is taken; the accounts stay right |
| Mailboxes.DeliveredOnceInOrder | msg/msg.c:107-161 | over any run, per receiver and sender: queued at the start plus posted is delivered plus still queued, in order |
| InterruptLatch.RunIsLatchRun | msg/msg.c:21-69 | a run in which one process uses one interrupt id drives a one-slot latch |
| InterruptLatch.ConsumesFreshRaise | msg/msg.c:37-62 | a wait completes only by an interrupt raised after every earlier completion, so none completes two waits |
| InterruptLatch.NoRaiseLost | msg/msg.c:27-41 | an interrupt merges with a pending one, or the next completion consumes it, or it is still latched |
| InterruptLatch.LatchConserves | msg/msg.c:21-69 | raises are completions, merges and the pending one; waits are completions and the blocked one |
| InterruptLatch.WaitFallsThroughIff | msg/msg.c:59-67 | a wait neither consumes nor blocks exactly when an interrupt with another id is pending |
| Clients.WorldStepKeepsInv | fs/fs.c:236-256 | every step of terminal, file system, disk driver, interrupt or scheduler keeps the invariant that says where the three stand to one another |
| Clients.ViewStepKeepsInv | driver/hd.c:114-143 | the same on the clients' own places, roles and messages |
| Clients.TtyAskView | shell/shell_fs.c:52-73 | what the terminal's request changes |
| Clients.FsCallView | fs/read.c:10-36 | what a disk call of the file system changes |
| Clients.FsReplyView | fs/opt.c:37-51 | what its reply changes |
| Clients.FsCollectView | fs/write.c:31-35 | what waiting for the disk's completion changes |
| Clients.HdReplyView | driver/hd.c:188-196 | what the driver's completion message changes |
| Clients.HdInterruptView | driver/hd.c:78-86 | what the disk interrupt and waiting for it change |
| Clients.StartExists | fs/fs.c:236-238 | the idle state that runs start from exists |
| Clients.RunKeepsInv | fs/fs.c:236-256 | the invariant holds throughout every run from the idle state |
| Clients.NoMisfireInAnyRun | msg/msg.c:78-84 | in every interleaving every call is legal: no message is copied into a process blocked as a sender |
| Clients.NoDeadlock | driver/hd.c:114-143 | in every reachable state some client has a step, to a state that exists, or the driver is in WAIT_INT |
| Clients.StepExists | fs/fs.c:236-256 | the action that is due has a successor world, the message received being the one there is to receive |
| Successors.SendHasSuccessor | msg/msg.c:72-96 | every legal send leads to a linked table, built by the writes of the code |
| Successors.ReceiveHasSuccessor | msg/msg.c:99-140 | so does every legal receive |
| Successors.WaitHasSuccessor | msg/msg.c:45-69 | so does every legal wait |
| Successors.RaiseHasSuccessor | msg/msg.c:21-42 | so does every raise |
| Clients.RepliesMatchRequests | shell/shell_fs.c:66-69 | replies received, replies sent and requests asked never differ by more than the one in flight |
| Clients.StepLowersRank | fs/fs.c:236-256 | every client step but a new request lowers a measure, interrupts and scheduling never raise it |
| Clients.RequestIsAnswered | shell/shell_fs.c:66-69 | a run in which the clients take that many steps contains the receipt of the outstanding reply |
| Clients.ReplyIsReachable | shell/shell_fs.c:66-69 | from every state with a request outstanding, the clients' steps and the interrupts they wait for lead to the receipt of its reply |
| ClientSchedule.RoundHasStep | proc/sched.c:26-48 | N consecutive scheduler calls, the first with a client unblocked, contain a step of some client, if a client that is chosen steps before the next call |
| ClientSchedule.AnsweredWithinRounds | shell/shell_fs.c:66-69 | under the same condition, and with the clients' slots taken at the start, an outstanding reply is received before as many rounds of N scheduler calls as client steps remain have begun with not everything waiting for the disk interrupt |
| ClientSchedule.RankOfRequest | shell/shell_fs.c:52-73 | for a request just made that needs w disk calls that is at most 8+6w rounds |
| ClientSchedule.RunKeepsTaken | fs/fs.c:236-256 | in every run of the clients, with interrupts and scheduling, every slot stays taken or free |
| Kernel.Kernel.constructor | proc/proc.c:70-80 | all slots free and all lists empty |
| Kernel.Kernel.MsgSend | msg/msg.c:72-96 | does what the protocol calls a send, on the linked slots |
| Kernel.Kernel.InsertMsgQueue | msg/msg.c:142-161 | hangs the sender behind the last one and changes nothing else |
| Kernel.Kernel.LastSender | msg/msg.c:151-157 | the walk ends at the last sender of the list |
| Kernel.Kernel.FindSender | msg/msg.c:108-134 | the walk finds the first wanted sender and its predecessor |
| Kernel.Kernel.MsgReceive | msg/msg.c:99-140 | does what the protocol calls a receive, and reports the "Error!" case |
| Kernel.Kernel.Unlink | msg/msg.c:117-130 | takes just that sender out of the list and unblocks it |
| Kernel.Kernel.MsgSendInterrupt | msg/msg.c:21-42 | the new slot, and the lists untouched |
| Kernel.Kernel.MsgRecvInterrupt | msg/msg.c:45-69 | the new slot, and the lists untouched |
| Kernel.Kernel.ProcLineSchedule | proc/sched.c:26-48 | terminates when a slot is runnable and chooses the first one cyclically from `proc_ptr`, which moves on to the slot behind it; the chosen slot is marked running, the blocked ones passed are marked blocked, and nothing else changes in any slot |
| Kernel.Kernel.ProcPrioritySchedule | proc/sched.c:50-80 | whenever `mark` gets a value and runnable processes have positive priority: ages every runnable process by one, chooses the first of the largest waiting/priority, clears its counter, marks the runnable running and all others blocked, and changes nothing else in any slot |
| Kernel.Kernel.Scan | proc/sched.c:57-75 | in every case in which runnable processes have positive priority: the slots after the loop, and that `mark` is the choice or no runnable process has a level above zero |
| Kernel.Kernel.SysSendMessage | sys/proc/sys_call_proc.c:45-59 | a send; if the caller is then blocked, the CPU goes to the first runnable process from `proc_ptr` on, which is not the caller, and `proc_ptr` behind it; otherwise current process and `proc_ptr` stay |
| Kernel.Kernel.SysRecvMessage | sys/proc/sys_call_proc.c:63-77 | a receive; if the caller is then blocked, the CPU goes to the first runnable process from `proc_ptr` on, which is not the caller, and `proc_ptr` behind it; otherwise current process and `proc_ptr` stay |
| Kernel.Kernel.SysSendInterrupt | sys/proc/sys_call_proc.c:81-91 | an interrupt; if its target is then blocked, the CPU goes to the first runnable process from `proc_ptr` on, otherwise nothing is rescheduled |
| Kernel.Kernel.SysRecvInterrupt | sys/proc/sys_call_proc.c:95-105 | a wait; if the caller is then blocked, the CPU goes to the first runnable process from `proc_ptr` on, otherwise nothing is rescheduled |
| Kernel.Kernel.GetEmptyProcBlock | proc/proc.c:82-96 | the first free slot, or -1 when there is none |
| Kernel.Kernel.NewProc | proc/proc.c:165-224 | the first free slot is taken with priority 1, unblocked, with no interrupt, no list and `recv_from` 0; a full table changes nothing |
| Kernel.TakenSuffice | proc/sched.c:63-64 | if the taken slots have positive priority, as NewProc keeps it, the scan divides by no zero, whatever the free slots hold |
| Kernel.NewProcessMisfires | proc/proc.c:165-224 | a process as NewProc leaves it, whose first send blocks, can be hit by process 0 |
| Kernel.StartAndSchedule | init/entry.c:134-155 | start-up with any number of processes in a table of any size, free slots left over or not: every taken slot has priority 1, and the first aging call chooses slot 0 and leaves all others waiting once |
| Kernel.SchedulingIsAStep | proc/sched.c:26-80 | neither scheduler changes anything that messages use, the lists included |
| Kernel.SysSendKeepsValid | sys/proc/sys_call_proc.c:45-59 | the system call, rescheduling included, keeps the protocol's invariant |
| Kernel.SysRecvKeepsValid | sys/proc/sys_call_proc.c:63-77 | so does the receiving one |
| Kernel.SysInterruptKeepsValid | sys/proc/sys_call_proc.c:81-105 | so do the two interrupt calls |
| ListSurgery.AppendKeepsLinked | msg/msg.c:142-161 | the writes that hang a sender behind a list keep every list linked, duplicate-free and disjoint |
| ListSurgery.UnlinkKeepsLinked | msg/msg.c:117-130 | so do the writes that take one out |
| LineSchedule.Distance | proc/sched.c:28-47 | some slot at that distance is runnable and none before it is |
| LineSchedule.AheadIsModulo | proc/sched.c:34 | places ahead of `proc_ptr` are counted around the table |
| LineSchedule.SearchMeans | proc/sched.c:28-47 | a whole search, slot by slot: which one runs, which are marked, that no other changes and none changes in anything but status |
| LineSchedule.CallApproaches | proc/sched.c:28-47 | a call chooses a runnable process or brings `proc_ptr` strictly closer to it |
| LineSchedule.RoundRobinFair | proc/sched.c:26-48 | a process runnable at any N consecutive calls of a run is chosen by one of them, whatever else changes between the calls |
| AgingSchedule.PickUnique | proc/sched.c:57-78 | the choice is determined |
| AgingSchedule.PickExists | proc/sched.c:57-78 | and exists when some runnable process has a level above zero; only runnable processes need a positive priority |
| AgingSchedule.ScanMoves | proc/sched.c:65-69 | a strictly larger level becomes the choice among the slots seen |
| AgingSchedule.ScanKeeps | proc/sched.c:57-75 | otherwise the choice stays |
| AgingSchedule.CallDependsOnRunners | proc/sched.c:57-59 | what a call does is the same for any two priority tables that agree on the runnable processes |
| AgingSchedule.ChosenTwice | proc/sched.c:57-79 | while p is ignored, two calls choose the same process only if they are far enough apart |
| AgingSchedule.AgingFair | proc/sched.c:50-80 | with any counters and a positive priority for every process that ever runs, a process of priority q runnable at (q+1)*N calls is chosen, if its own counter does not wrap meanwhile |
| AgingSchedule.AgingFairAlways | proc/sched.c:50-80 | likewise within 2*(q+1)*N+1 calls even if it wraps |
| AgingSchedule.AgingFairPriorityOne | proc/proc.c:158 | within N calls for priority 1, under the same condition |
| AgingSchedule.WaitingBounded | proc/sched.c:57-79 | from a fresh table in which every process that ever runs has a positive priority, for any blocking and waking, at most N-k levels ever reach k (a priority 0 counting as 1), so no counter reaches N times its priority and none wraps; with all priorities 1 none exceeds N-1 |
| AgingSchedule.FreshTableFair | proc/sched.c:50-80 | so from a fresh table a process of priority q runnable at q*N consecutive calls, after any history, is chosen by one of them |
| AgingSchedule.FreshTableChooses | proc/sched.c:57-79 | and every call has a choice whenever anybody can run |
| AgingSchedule.CallChoosesIff | proc/sched.c:57-79 | a call has a choice if and only if some process can run whose counter does not wrap at that call |
| AgingSchedule.WrappedCounterChoosesNobody | proc/sched.c:63-69 | the smallest instance: a lone process whose counter is at its greatest |
| Pmm.Allocator.AllocPage | mm/pmm.c:125-131 | pops the top frame |
| Pmm.Allocator.AllocPageAsWritten | mm/pmm.c:125-131 | on any stack: the slot at the top is handed out, and the state afterwards is usable if and only if the stack was not empty; on an empty one the top wraps |
| Pmm.Allocator.FreePage | mm/pmm.c:134-138 | pushes a frame |
| Pmm.Allocator.AllocPmm | mm/pmm.c:99-122 | takes ceil(size/4096) frames and returns the last, or restores the stack exactly and returns 0 |
| Pmm.Allocator.PushRegion | mm/pmm.c:86-89 | frees every page of the region up to and including the limit, in ascending order |
| Pmm.ConsecutiveIsBlock | mm/pmm.c:105-120 | consecutive frames taken make the result the base of a block |
| Pmm.IsBlockIff | mm/pmm.c:105-120 | in general the block is what was taken if and only if every frame taken lies inside it |
| Pmm.AllocIsBlockIff | mm/pmm.c:99-122 | the block that the call returns is what it takes if and only if the frames on top of the stack before it lie within as many pages from the deepest of them on |
| Pmm.FreedInOtherOrder | mm/pmm.c:99-138 | two neighbouring frames freed higher one first: the next call for two pages takes both and returns an address whose second page it did not take |
| PageTables.WriteEntry | mm/vmm.c:62 | writing a table word changes the entry of one page only |
| PageTables.AddTable | mm/vmm.c:47-55 | a new zeroed table changes no entry |
| PageTables.AddressSpace.Map | mm/vmm.c:38-65 | sets the entry of the page of va, no other, and takes a frame exactly if a table is missing |
| PageTables.AddressSpace.Unmap | mm/vmm.c:67-84 | repaired: clears the entry of the page of va and no other |
| PageTables.AddressSpace.UnmapAsWritten | mm/vmm.c:67-84 | as written: clears the page whose two indices are both PGD_INDEX |
| PageTables.UnmapAsWrittenIff | mm/vmm.c:69-70 | the two agree if and only if the page's indices agree or neither page was mapped |
| PageTables.HeapPageMissed | mm/vmm.c:70 | the first page of the heap, if mapped, stays mapped |
| PageTables.HeapPagesStrikeOne | mm/vmm.c:70 | for each of the 1024 pages from the heap start on it clears the entry of page 0xE0380, so any other of them stays mapped and that one, if in use, is lost |
| PageTables.AddressSpace.GetMapping | mm/vmm.c:86-104 | reads back the frame of a mapped page |
| HeapPages.Pages.AllocChunk | mm/heap.c:89-98 | grows by the fewest pages that reach the end, conserving frames |
| HeapPages.Pages.GrowAccounted | mm/heap.c:93-97 | one page: its frame moves from the stack to the heap, and one more to the tables if needed |
| HeapPages.Pages.ShrinkTo | mm/heap.c:108-115 | gives back exactly the pages wholly behind the chunk, conserving frames |
| HeapPages.Pages.ShrinkAccounted | mm/heap.c:109-114 | one page: its frame goes back to the stack |
| HeapPages.Pages.RoomForFrames | mm/heap.c:93 | the heap cannot reach the end of the address space, so `heap_max` never wraps |
| HeapPages.Grown | mm/vmm.c:47-55 | the free, heap and table frames stay distinct and together the initial set |
| HeapPages.GiveBack | mm/heap.c:114 | the same when a frame is returned |
| HeapPages.RegionConserved | mm/pmm.c:86-89 | the frames freed at start-up are distinct, aligned and few enough to begin with |
| HeapSpec.MallocKeepsValid | mm/heap.c:28-77 | a request keeps the chunks tiling the heap, no two neighbours free, the last allocated, each fitting its request with at most one header spare |
| HeapSpec.ReleaseKeepsValid | mm/heap.c:79-87 | so does a release of a live chunk |
| HeapSpec.AnyHistoryIsValid | mm/heap.c:28-87 | so does any history of them |
| HeapSpec.MallocKeepsLive | mm/heap.c:42-48 | a request adds one new live chunk large enough for it and changes no other |
| HeapSpec.MallocIsLowest | mm/heap.c:39-54 | no free chunk that would do starts lower |
| HeapSpec.MallocPlace | mm/heap.c:56-76 | where the chunk lies, and when the end of the heap moves |
| HeapSpec.ReleaseTakesOne | mm/heap.c:133-158 | a release takes away its own chunk and no other live one |
| HeapSpec.ReleaseUndoesMalloc | mm/heap.c:28-87 | releasing what was just allocated restores the heap exactly |
| HeapSpec.PayloadsDisjoint | mm/heap.c:47 | no address lies in two live payloads |
| HeapLinks.SplitStores | mm/heap.c:118-131 | the writes of a split, back link included, link the list with the chunk cut in two |
| HeapLinks.JoinStores | mm/heap.c:135-153 | the writes of a gluing link the list with the two chunks joined |
| HeapLinks.AppendStores | mm/heap.c:66-74 | the writes for a new last chunk |
| HeapLinks.CutStores | mm/heap.c:102-106 | the write that takes the last chunk off |
| HeapLinks.ReleaseSteps | mm/heap.c:79-158 | marking, gluing behind, gluing before and cutting off are together the release |
| Heap.Heap.Kmalloc | mm/heap.c:28-77 | the chunk list becomes that of the request, the pointer is the payload of its chunk, and `heap_max` is the end rounded up |
| Heap.Heap.AffordableIsServed | mm/heap.c:28-98 | what Kmalloc requires implies that the code as written, in its machine widths, serves the request |
| Heap.Heap.FindFit | mm/heap.c:34-54 | the walk is first fit |
| Heap.Heap.Take | mm/heap.c:42-47 | the chunk found is cut and marked |
| Heap.Heap.SplitChunk | mm/heap.c:118-131 | repaired: cut in two exactly if more than a header remains, links kept |
| Heap.Heap.Append | mm/heap.c:56-74 | a new chunk at the end, on pages that now reach it |
| Heap.Heap.Kfree | mm/heap.c:79-87 | the chunk list becomes that of the release, and `heap_max` the new end rounded up |
| Heap.Heap.GlueChunk | mm/heap.c:133-158 | joins with the free neighbours and cuts off a free tail |
| Heap.Heap.FreeChunk | mm/heap.c:100-116 | the last chunk goes and with it the pages it no longer needs |
| Heap.Heap.LengthFitsField | include/heap.h:33 | no chunk outgrows the 31 bits of its length field, and no address in the heap wraps |
| Heap.Boot | mm/pmm.c:61-96 | start-up from a memory region meets everything that the heap's methods require |
| HeapAsWritten.LinkedIffNotSplit | mm/heap.c:118-131 | as written, the links are right after a request if and only if nothing was split |
| HeapAsWritten.LiveChunkIsLost | mm/heap.c:121-130 | a history after which a live chunk is on no list |
| HeapAsWritten.ServedIff | mm/heap.c:28-98 | in the widths of the code, a request gets a chunk that holds it and its header, marked, on pages that reach its end, if and only if the sum does not wrap and a free chunk fits or the new end is at most the last page's start |
| HeapAsWritten.LargeRequestsNotServed | include/heap.h:33 | 0x2000_0000 and 0x8000_0000 bytes are not served by an empty heap, though neither sum wraps |
| HeapAsWritten.ServableAsIntended | mm/heap.c:66-74 | a new chunk that is served is the one of the list specification, its stored length included |
| FsBytes.SetBitsAt | fs/mk.c:85-92 | setting a stretch of bits sets those and no others |
| FsBytes.SectorBitIs | fs/mk.c:81-92 | bit i of a sector is the bit of weight 2^(i mod 8) of byte i/8 |
| FsBytes.InodeLayout | include/fs.h:40-52 | mode, size, start and count are the first four words of the record, lowest byte first |
| FsBytes.EntryLayout | include/fs.h:55-66 | an entry is the inode's word, 24 characters and the kind's word |
| FsBytes.NamedIs | fs/mk.c:361 | a stored name is its characters, a zero, and what the field held before |
| FsBytes.InodeRoundTrip | fs/mk.c:204 | an inode is read back as it was stored |
| FsBytes.EntryRoundTrip | fs/mk.c:328 | so is a directory entry |
| FsBytes.SlotOfPut | fs/mk.c:204 | storing a record changes that record of the sector only |
| FsSpec.UpdateMapExactIff | fs/mk.c:61-106 | marking a free run sets exactly its bits and nothing else on disk if and only if it lies within one sector of the map |
| FsSpec.CrossingRunGivenTwice | fs/mk.c:61-106 | a crossing run is not marked, and the next request of its size gets the same sectors |
| FsSpec.FirstRun | fs/mk.c:129-171 | the lowest free run of the wanted length |
| FsSpec.MapBitPlace | fs/mk.c:68-92 | the bit of a sector in the map, by sector, byte and bit on the disk |
| FsSpec.ScanSetBit | fs/mk.c:146-149 | how a set bit moves the search on |
| FsSpec.ScanClearBit | fs/mk.c:151-168 | how a clear bit does, and that the run it completes is the lowest |
| FsSpec.ScanNone | fs/mk.c:172 | a search that ends without a run means there is none |
| FsSpec.PutInodeAt | fs/mk.c:189-209 | storing an inode changes what is read of that inode only |
| FsSpec.InodePlace | fs/mk.c:281-303 | an inode's words, by sector and offset on the disk |
| FsSpec.OffsetAsWrittenIff | fs/mk.c:201 | the offset as written is right exactly for ids below 16, and negative otherwise |
| FsSpec.PutEntryAt | fs/mk.c:325-330 | storing an entry changes that entry only |
| FsSpec.EntryPlace | fs/mk.c:306-336 | an entry's words and name, by sector and offset on the disk |
| FsSpec.FreeEntry | fs/mk.c:317-335 | the first entry with inode 0, or none |
| FsImage.MakeInodeRefines | fs/mk.c:247-278 | making an inode on disk is adding an empty file or folder: maps, inodes, extents and entries agree |
| FsImage.MakeInodeRefinesIff | fs/mk.c:247-278 | with space left, that is so if and only if the extent lies within one sector of the map |
| FsImage.CrossingIsReachable | fs/mk.c:109-173 | a history of one file after which the lowest run for a folder crosses a sector of the map, on every disk that represents it |
| FsImage.AddEntryRefines | fs/mk.c:306-336 | adding an entry on disk is adding it behind the folder's entries, or nothing when it is full |
| FsImage.TopIsFirstRun | fs/mk.c:129-171 | the lowest free run starts right behind the last extent |
| FsImage.ExtentsDisjoint | fs/mk.c:163-167 | no two extents share a sector and none lies below the first data sector |
| FsImage.SetBitsAreUse | fs/mk.c:61-106 | the set bits of the sector map are exactly the metadata and the extents |
| FsImage.MakeInodeSparesAll | fs/mk.c:247-278 | no sector of an existing extent changes |
| FsImage.AddEntrySparesAll | fs/mk.c:306-336 | no sector of another extent changes |
| FsImage.MkFileKeepsTree | fs/mk.c:353-368 | the folders stay a tree when a file is made |
| FsImage.MkDirKeepsTree | fs/mk.c:373-397 | and when a folder is made |
| FsImage.MkDirIs | fs/mk.c:375-394 | a new folder is its parent with an entry more and a node with two entries, in one equation |
| FsImage.MkFileIs | fs/mk.c:353-368 | a new file's node has the size, mode and size/512 sectors asked for behind the last extent; the folder's new entry, if it has room, has the new inode, the kind FILE and the name with its zero; nothing else changes |
| FsImage.MkDirMeans | fs/mk.c:373-397 | the same for a folder, and its own entries "." with its inode and ".." with its parent's |
| FsImage.MadeFileOnDisk | fs/mk.c:353-368 | the same read from any disk that represents the result |
| FsImage.MadeFolderOnDisk | fs/mk.c:373-397 | and for a folder |
| FsImage.PathEndsAtRoot | fs/mk.c:391-394 | following ".." leads to the root through folders with ever smaller numbers |
| FsImage.HistoryKeeps | fs/mk.c:353-397 | after any history the folders are a tree and the extents do not overlap |
| FsImage.HistoryGrows | fs/mk.c:353-397 | no inode and no entry ever changes once made |
| FsImage.HistoryProvides | fs/mk.c:353-397 | what an operation of a history made is there in every later state: inode as asked for, and an entry with its name in the folder asked for, if that had room |
| FsImage.EveryInodeNamed | fs/mk.c:353-397 | every inode made in a history comes from one operation and is named so |
| FsImage.WipedRepresents | fs/fs.c:290-394 | the wiped disk represents no file at all, if the metadata end within the first sector of the map |
| FsImage.InstallIff | fs/fs.c:290-423 | wiping and making the root give a disk with no file and then with just a root folder if and only if the metadata end within the first sector of the map and are not just one sector short of filling it |
| FsImage.FreshIsTree | fs/fs.c:402-423 | what installation leaves is a tree |
| FsImage.RootOnDisk | fs/fs.c:402-423 | a disk as installed has inode 1 with two sectors behind the metadata and a first entry "." of inode 1 |
| FsDisk.FileSystem.UpdateSectorMap | fs/mk.c:61-106 | the three loops compute the map update, and the result says whether the count ran out |
| FsDisk.FileSystem.InodeAllocSector | fs/mk.c:109-173 | finds the lowest free run across the sectors of the map if there is one, and marks it |
| FsDisk.FileSystem.SearchSector | fs/mk.c:133-170 | the search through one sector of the map |
| FsDisk.FileSystem.GetNewInode | fs/mk.c:212-242 | takes the lowest free inode, or returns -1 and changes nothing |
| FsDisk.FileSystem.UpdateInode | fs/mk.c:189-209 | repaired: stores the inode in its place |
| FsDisk.FileSystem.FindInode | fs/mk.c:281-303 | repaired: reads it from there |
| FsDisk.FileSystem.ClearSector | fs/mk.c:339-348 | zeroes exactly the given sectors |
| FsDisk.FileSystem.MkInode | fs/mk.c:247-278 | the lowest inode, the lowest run, both marked, the inode stored, the run zeroed |
| FsDisk.FileSystem.AddDirEntry | fs/mk.c:306-336 | stores the entry in the first empty record, or does nothing |
| FsDisk.FileSystem.MkFile | fs/mk.c:353-368 | the disk then represents the files with the new one, no other extent changed; read from the disk, the inode is as asked for, the folder's new record names it, and its sectors are zero |
| FsDisk.FileSystem.MkDir | fs/mk.c:373-397 | the same for a folder with its two entries, each read from the disk |
| FsDisk.FileSystem.Mkfs | fs/fs.c:260-424 | any disk with room for the root that meets the condition of InstallIff then represents a root folder with its own entry; both read from the disk |
| FsDisk.FileSystem.GetDirEntries | fs/opt.c:14-29 | returns the sectors of the folder |
| FsDisk.ListingShows | fs/opt.c:22-29 | which show its entries in order and then empty records |
| Digits.NumeralDenotes | kernel/printk.c:136-143 | in every base the digits denote the number, without a leading zero |
| Digits.NumeralInjective | kernel/printk.c:136-143 | different numbers are printed differently |
| Digits.NumeralLength | kernel/printk.c:103 | a 32-bit number has at most 32 digits |
| Digits.DigitCharIs | kernel/printk.c:104-108 | digits come from the two alphabets of the source |
| Printk.Printer.Digits | kernel/printk.c:136-143 | the digits, last first, and never past `tmp` |
| Printk.Printer.Number | kernel/printk.c:101-182 | padding, sign, prefix, zeros and digits in the order that flags, width and precision dictate; NULL for another base |
| Printk.NumberWidth | kernel/printk.c:126-148 | the text is as wide as the width, or as its parts need |
| Printk.PlainText | kernel/printk.c:119-124 | without flags, width and precision it is the sign and the digits |
| Printk.Printer.SkipAtoi | kernel/printk.c:77-86 | the number that the digits denote, and where they end |
| Printk.Printer.ReadDirective | kernel/printk.c:203-252 | flags, width, precision and qualifier as read |
| Printk.Printer.Convert | kernel/printk.c:254-336 | what one conversion prints; PrintkShape says what that text is |
| Printk.Printer.Vsprintf | kernel/printk.c:184-341 | the whole format, directive by directive; PrintkFormat.FormatPrints says what that is |
| PrintkFormat.RenderedRead | kernel/printk.c:203-252 | a directive without `*`, anywhere in a format, with flags in any order and number, a width and a precision in digits and a qualifier, is read back as it was written |
| PrintkFormat.RenderedPrints | kernel/printk.c:203-336 | there it prints the next argument with exactly those, and the format goes on with the argument behind |
| PrintkFormat.FormatPrints | kernel/printk.c:184-341 | a format of text and directives without `*` prints the text as it is and the arguments in order |
| PrintkFormat.OneCharacter | kernel/printk.c:322-336 | `%%` prints one `%`, `%n` nothing, and `%` before a character that is no conversion both of them |
| PrintkFormat.PlainEnd | kernel/printk.c:327-336 | a `%` that ends the format prints itself |
| PrintkShape.NumberMeans | kernel/printk.c:101-182 | every printed number is blanks, sign and prefix, digits of the base and alphabet that denote its magnitude, blanks: at least precision digits, at least width characters, no more of either than needed, placed as left and zeropad say |
| PrintkShape.NumberShown | kernel/printk.c:289-320 | the same for a written directive by its characters: base, alphabet, sign of + and space, prefix of #, width 8 with zeros of a bare %p |
| PrintkShape.StringShown | kernel/printk.c:267-288 | `%s` prints its text, cut off at the precision if one is written, padded to the width on the side that `-` says |
| PrintkShape.CharShown | kernel/printk.c:255-265 | `%c` prints its lowest byte, padded likewise |
| PrintkShape.PlainString | kernel/printk.c:267-288 | `%s` prints the text |
| PrintkFormat.PrintsItsArgumentIff | kernel/printk.c:223-245 | a written directive prints a number, namely its argument as written, if and only if neither width nor precision is `*` |
| PrintkFormat.StarWidthPrints | kernel/printk.c:223-230 | `*` as a width takes an argument, prints `%*` and leaves the rest of the format to itself |
| PrintkFormat.StarPrecisionPrints | kernel/printk.c:234-241 | so does `.*` as a precision |
| PrintkFormat.StarPrintsStar | kernel/printk.c:223-230 | `%*d` prints `%*d` |
| Numbers.CstrToUint32 | libs/number.c:4-16 | the value of the characters as digits, modulo 2^32 |
| Numbers.CstrToInt32 | libs/number.c:18-37 | the value after an optional minus, as the 32-bit integer congruent to it |
| Numbers.PlainPrints | kernel/printk.c:310-316 | what `%u` and `%d` print |
| Numbers.UnsignedRoundTrip | libs/number.c:4-16 | parsing what `%u` prints gives every 32-bit word back |
| Numbers.SignedRoundTrip | libs/number.c:18-37 | parsing what `%d` prints gives every 32-bit integer back, the least one by wrap-around |
| Numbers.UnsignedWrapsIff | libs/number.c:10-13 | a parsed digit string has its value if and only if that is below 2^32 |

## Left out

- Boot, interrupt entry and exit, descriptor tables and port I/O: each system call and interrupt handler is one atomic step.
- ATA commands and the partition table in driver/hd.c: of the driver only its receive, wait and reply pattern is modelled, and the file system sees the disk as an array of sectors.
- The start of the file system task before its loop (MSG_DEV_OPEN, MSG_DEV_INFO): the composed runs begin with FS and HD blocked in their ANY receives and the terminal idle.
- `sys_kill`: it frees a slot without taking it off any list, so it does not keep the protocol's invariant.
- Task bookkeeping (proc/task.c, `task_line_schedule`), `fork` and memory management for processes, and the stack, register and descriptor fields of a process: bookkeeping only.
- Keyboard, terminal windows, the shell's parsing and its name cache.
- AgingSchedule.AgingFair: the levels are compared exactly by cross-multiplication, where the source rounds them to doubles.
- AgingSchedule.WaitingBounded: N times each priority must be below 2^32 (free slots counting as 1), a condition on the fixed priorities alone; it is 10 for the priorities that the constructors set.
- AgingSchedule.FreshTableFair: under the same bound on the priorities.
- Kernel.Kernel.ProcPrioritySchedule: requires the exact condition of AgingSchedule.CallChoosesIff, without which the source indexes the table with an unset `mark`.
- Kernel.Kernel.MsgSend: the caller must not itself be on a list, which holds for every running process.
- Kernel.Kernel.NewProc: a free slot must be on no list and own an empty one, which the source takes for granted.
- Messages.RunStaysValid: process creation is not an event of a run; a scheduling step changes `status` and `waiting` only.
- Pmm.Allocator.AllocPage: needs a free frame, which the source does not check; so do the heap's requests (`Affordable`). What happens without one is Pmm.Allocator.AllocPageAsWritten.
- Heap.Heap.Kmalloc: the request plus a header must be below 2^32 and the frames for it free; by Heap.Heap.AffordableIsServed such requests meet the exact condition of HeapAsWritten.ServedIff.
- PageTables.AddressSpace.Map: the frame for a new table must not already serve as one, which the heap proves of its free frames.
- FsDisk.FileSystem.UpdateSectorMap: a count of 0 is left out. For it the source writes the sector back unchanged and returns 1 if the start is not a multiple of 4096, and otherwise goes on past the end of the map.
- FsDisk.FileSystem.InodeAllocSector: a request for 0 sectors is left out, which the source makes unchecked for a size below 512.
- FsDisk.FileSystem.MkInode: needs a free inode and a free run on the disk and at least one sector, which the source does not check; what the stack leaves in unset fields is a parameter.
- FsDisk.FileSystem.MkFile: the new extent must lie within one sector of the map, the exact condition of FsImage.MakeInodeRefinesIff, and the name must fit its field.
- FsDisk.FileSystem.Mkfs: requires the exact condition of FsImage.InstallIff, met by disks of up to about 15 million sectors; the contents of the super block's own sector are a parameter.
- Printk.Printer.Number: widths and precisions are unbounded integers, as are the numbers that Printk.Printer.SkipAtoi reads.
- Printk.Printer.Vsprintf: the store through the pointer of `%n` is not modelled, and the output buffer is a sequence, so its 1024-byte limit is not.
- Heap.Boot: the page directory starts out empty; the kernel's own mappings below the heap are not part of the model.
- The copying of messages is that of the whole record; the data areas that `buf` points to are not part of the model.
