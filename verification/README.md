# OS/Z, modelled and proved

This project models the parts of the OS/Z microkernel whose correctness rests on data structures, and proves what they
promise. Every statement below holds for all inputs that its contract admits.

- **Scheduler** (`SchedState`, `SchedQueues`, `SchedPick`, `SchedShare`, `SchedTimer`, `SchedRun`, `SchedSwitch`, `SchedWindow`).
  Operations on control blocks with direct access; the lists they form; `sched_pick` as a mixed-radix counter, and the share
  of picks that it gives each task; the sorted timer list; whole runs; what the interrupt switches to; and a class in which
  all control blocks are reached through one remappable window, proved to do the same.
- **Physical memory manager** (`PmmTable`, `Pmm`, `PmmRun`). The fragment table in pages; a class with the table in place, in
  bytes; whole runs.
- **Page mapping** (`VmmTree`, `VmmMaps`, `VmmRights`, `Vmm`). The processor's 4-level walk, what entries of each kind do to
  it and to the access rights, and `vmm_mapbss` and the mmap system call on top of the memory manager.
- **Sorting** (`Qsort`), **checksums** (`CrcTables`, `Crc`), **numbers** (`Numbers`).
- **Run-time linker** (`ElfMemory`, `ElfTables`, `ElfLink`, `ElfExamples`, `ElfLinker`, `ElfSpace`, `ElfCrossing`). Memory in
  bytes; the objects' tables; collecting and resolving relocations; a class that does so in place and pushes the entry
  points; and what the task finds at its own addresses, through the page tables.
- **FS/Z** (`FszNames`, `FszBytes`, `FszImage`, `FszHeader`, `FszSteps`, `FszLookup`, `FszFiles`, `FszKernel`, `FszLines`,
  `FszRun`, `FszClose`, `FszBuild`). The bytes of inodes and entries and their checksums; building an image up to its closed
  superblock; finding paths by the builder's and by the kernel's own method; and reading files back.
- `Options` holds the one type for results that may be missing.

Several promises turn out not to hold everywhere. Each has a lemma that says exactly when it does, and an input or family
of inputs where it does not: blocking the head of the blocked list (`BlockInvIff`, `SelfLoop`, `BlockedFromBoot`), setting an
alarm twice (`AlarmIff`, `AlarmAgain`, `AlarmedFromBoot`), slots cut from the end of a fragment (`SlotConservesIff`,
`LeakExample`), 2M entries for unaligned memory (`SlotAlignedIff`), access rights below tables that were made for an
earlier request (`RightsIff`, `SecondIff`, `ReadOnlyFirst`), padded decimal numbers (`DecRoundTrip`, `PaddingExample`),
relocations behind the 512th record (`CollectIff`, `LateExample`), several relocations for one place (`SharedSlotIff`,
`SharedExample`), relocations that reach into the next page (`SeenIff`, `CrossingExample`), a library on the second page
(`LoadOrderIff`), files of zeros in the direct layout (`FileReadsBackIff`, `LostReads`), and, in the kernel's lookup,
directories without their slash, paths with a slash in front or two in a row, and names with a line end
(`KernelAgreesIff`, `ShadowExample`, `LeadingSlash`, `LineExample`).

Where the sources' comments and their code differ, the model follows the code: `sched_alarm` does not reset the link of a
task that is appended, an inlined sector directory's inode points to the first data sector and not to itself, and
`vmm_mapbss` tests that memory lies above 2M where its comment says aligned.

## Model

| member | source | states |
|---|---|---|
| `SchedQueues.QueuesDisjoint` | src/core/sched.c:208-282 | in a well-formed state no task is in two of the priority queues and the blocked list |
| `SchedQueues.AddInv` | src/core/sched.c:208-223 | adding a task that is in no list puts it at the front of its priority queue, with all lists well linked |
| `SchedQueues.RemoveInv` | src/core/sched.c:228-250 | removing an active task takes exactly that task out of its queue; a cursor that was on it moves to its successor |
| `SchedQueues.BlockInv` | src/core/sched.c:256-282 | blocking a queued task other than the blocked head moves it to the front of the blocked list and disturbs nobody else |
| `SchedQueues.BlockInvIff` | src/core/sched.c:256-282 | blocking a queued task leaves well-formed lists if and only if it is the idle task or not the head of the blocked list |
| `SchedQueues.SelfLoop` | src/core/sched.c:268-281 | blocking the head of the blocked list makes it its own successor, after which the links spell out no lists |
| `SchedQueues.AwakeInv` | src/core/sched.c:172-203 | waking moves a task from the blocked list to the front of its queue, although it is linked there before it is unlinked here |
| `SchedQueues.AwakeShape` | src/core/sched.c:183-200 | linking first and bypassing afterwards with the saved links gives the same links as the other order |
| `SchedPick.PickInv` | src/core/sched.c:287-345 | a pick changes no queue and keeps every cursor zero or on a member of its queue |
| `SchedPick.ScanSpec` | src/core/sched.c:294-306 | what one pass over the queues does: where it stops, and that exactly the cursors of the queues it passed are reset |
| `SchedPick.ChooseSpec` | src/core/sched.c:291-332 | what the first pass, the second pass and the idle case together choose |
| `SchedPick.PickDigits` | src/core/sched.c:294-335 | the cursors, read as digits, change by a borrow through the queues that have turned around |
| `SchedPick.PickCounts` | src/core/sched.c:287-345 | each pick takes one from the mixed-radix number with digits r_i and bases n_i+1; from zero it goes to the product minus two |
| `SchedPick.CounterAfter` | src/core/sched.c:287-345 | the value of that number after k consecutive picks, for every k below a full round |
| `SchedPick.ChosenAt` | src/core/sched.c:333-335 | at which value of the number a given member of a given queue is chosen |
| `SchedPick.NoStarvation` | src/core/sched.c:287-345 | with unchanged queues every ready task is picked within any product(n_i+1)-1 consecutive calls |
| `SchedPick.ChosenOnlyAt` | src/core/sched.c:287-345 | a task of the last non-empty queue is chosen at exactly one value of the number |
| `SchedPick.WaitIsExact` | src/core/sched.c:287-345 | such a task is chosen only once in a full round, so the bound cannot be improved |
| `SchedShare.FairShare` | src/core/sched.c:287-345 | with unchanged queues, in any product(n_i+1)-1 consecutive calls each task of queue i is picked exactly product over k > i of (n_k+1) times |
| `SchedShare.ChosenIffShows` | src/core/sched.c:287-345 | a task is chosen exactly at the values of the number whose first digit other than zero is its own |
| `SchedSwitch.PickNext` | src/core/sched.c:316-344 | what a pick leaves for the processor: the memory root of the chosen task, nothing new if that is the running one, and the idle task if no queue has a task |
| `SchedSwitch.NextAt` | src/core/sched.c:333-344 | at the values of the number that show a task, exactly that task is what the interrupt switches to |
| `SchedSwitch.ChosenRuns` | src/core/x86_64/ibmpc/isrs.S:1119-1127 | after the timer interrupt the processor has the memory of the chosen task, also when that was the one running |
| `SchedSwitch.FairTurns` | src/core/sched.c:287-345 | so in any product(n_i+1)-1 consecutive interrupts each task of queue i runs exactly product over k > i of (n_k+1) times |
| `SchedSwitch.RunsSoon` | src/core/sched.c:287-345 | and every ready task runs within that many interrupts |
| `SchedSwitch.IdleTurns` | src/core/sched.c:314-335 | when only the idle queue has tasks, they take turns |
| `SchedSwitch.WokenRuns` | src/core/sched.c:201-202 | a task that is woken is switched to |
| `SchedSwitch.ExpiredRuns` | src/core/x86_64/isrc.S:330-362 | so is one whose alarm is due |
| `SchedTimer.AlarmInserts` | src/core/sched.c:104-152 | a task off the timer list goes behind all members that are not later; the list stays sorted and acyclic, with one member more and the earliest at its head |
| `SchedTimer.LinkAlarmInserts` | src/core/sched.c:123-151 | the relinking alone: before the head, between two members or at the end |
| `SchedTimer.AlarmIff` | src/core/sched.c:104-152 | the links still form a sorted list if and only if the task was not listed, or its new time falls between those of its neighbours |
| `SchedTimer.ExpireDropsHead` | src/core/x86_64/isrc.S:330-362 | the timer interrupt takes exactly the head off the list and resets its link |
| `SchedTimer.TimesAgree` | src/core/sched.c:108-133 | past, due and later mean the order of time in seconds and nanoseconds |
| `SchedTimer.TimesAfterAdd` | src/core/sched.c:208-223 | adding a task changes no alarm |
| `SchedTimer.TimesAfterRemove` | src/core/sched.c:228-250 | removing a task changes no alarm |
| `SchedTimer.TimesAfterBlock` | src/core/sched.c:256-282 | blocking changes no alarm |
| `SchedTimer.TimesAfterAwake` | src/core/sched.c:172-203 | waking changes no alarm |
| `SchedRun.BlockKeeps` | src/core/sched.c:256-282 | blocking keeps all lists, the timer list included, as the list machine says |
| `SchedRun.AwakeKeeps` | src/core/sched.c:172-203 | so does waking |
| `SchedRun.AlarmKeeps` | src/core/sched.c:104-152 | so does setting an alarm for a task off the timer list |
| `SchedRun.ExpireKeeps` | src/core/x86_64/isrc.S:330-362 | so does the expiry of the first alarm |
| `SchedRun.StepKeeps` | src/core/sched.c:104-345 | after any one operation the links spell out the lists of a machine that has no links |
| `SchedRun.RunKeeps` | src/core/sched.c:104-345 | so they do after every run of operations |
| `SchedRun.BootRuns` | src/core/sched.c:104-345 | from boot on, in every run, with any task woken and any alarm expiring at any time: lists acyclic, sorted where they should be, pairwise disjoint, with members of the right state and priority, and every task that is not running on the blocked list |
| `SchedRun.AlarmAgain` | src/core/sched.c:130-151 | a second alarm for the only listed task makes it its own successor |
| `SchedRun.AlarmedFromBoot` | src/core/sched.c:104-203 | a run from boot that leads to a running task on the timer list, which may set an alarm again |
| `SchedRun.BlockedFromBoot` | src/core/sched.c:208-282 | a run from boot that leads to a state whose blocked list has a head, which can be blocked again |
| `SchedRun.BlockedTime` | src/core/sched.c:172-203 | a task is billed exactly the time between its being blocked and its being woken, whatever happens to others meanwhile |
| `SchedWindow.Core.GetTcb` | src/core/sched.c:38-52 | a task number maps that task in the window, zero is the running task, and a pointer to a mapped block is left alone |
| `SchedWindow.Core.Add` | src/core/sched.c:208-223 | through one shared window, adding does what it does with direct access to every control block |
| `SchedWindow.Core.Remove` | src/core/sched.c:228-250 | the same for removing |
| `SchedWindow.Core.Block` | src/core/sched.c:256-282 | the same for blocking |
| `SchedWindow.Core.Awake` | src/core/sched.c:172-203 | the same for waking |
| `SchedWindow.Core.Rouse` | src/core/sched.c:179-203 | the part for tasks that are not running |
| `SchedWindow.Core.Activate` | src/core/sched.c:183-200 | the part for blocked tasks |
| `SchedWindow.Core.Unhybernate` | src/core/sched.c:179-182 | the part for hibernated tasks |
| `SchedWindow.Core.Bypass` | src/core/sched.c:191-198 | the neighbours, from links read earlier, are linked to each other |
| `SchedWindow.Core.Alarm` | src/core/sched.c:104-152 | the same for alarms; the second window shows the head of the timer list |
| `SchedWindow.Core.Enlist` | src/core/sched.c:120-151 | the relinking part |
| `SchedWindow.Core.Walk` | src/core/sched.c:130-150 | the walk along the timer list stops behind the members that are not later |
| `SchedWindow.Core.Pass` | src/core/sched.c:294-306 | one pass over the queues |
| `SchedWindow.Core.Pick` | src/core/sched.c:287-345 | the same for picking; the result is the memory root of the chosen task, and so is what is left for the interrupt to switch to, unless that task is running already |
| `SchedWindow.Core.Tick` | src/core/x86_64/isrc.S:330-362 | the timer interrupt, through the window on the head of the timer list, which still shows the head afterwards |
| `SchedWindow.InvRefs` | src/core/sched.c:38-52 | in a well-formed state every link names a task that exists |
| `SchedWindow.InvKnown` | src/core/sched.c:287-345 | so the heads and cursors that a pick follows name tasks that exist |
| `PmmTable.AllocValid` | src/core/pmm.c:63-117 | allocating keeps the fragments disjoint |
| `PmmTable.AllocSum` | src/core/pmm.c:79-89 | the sizes of the fragments add up to exactly as much less |
| `PmmTable.AllocTakes` | src/core/pmm.c:72-89 | exactly the range handed out, all of it free before, leaves the free pages |
| `PmmTable.AllocShape` | src/core/pmm.c:79-89 | one entry less if and only if the fragment had just as many pages, else that one cut in front; all other entries keep their values and their order; no entry becomes empty |
| `PmmTable.SlotValid` | src/core/pmm.c:130-162 | allocating a slot keeps the table sound, also when it leaks |
| `PmmTable.SlotSum` | src/core/pmm.c:137-162 | the sizes add up to 512 less, and to the leading fragment less when that drops out |
| `PmmTable.SlotTakes` | src/core/pmm.c:130-162 | the slot is 2M aligned and was free; no page becomes free; other pages are lost only if the split leaves no tail |
| `PmmTable.SlotConservesIff` | src/core/pmm.c:137-162 | exactly the slot leaves the free pages if and only if the fragment begins at a slot boundary or goes on behind the slot |
| `PmmTable.SlotShape` | src/core/pmm.c:137-162 | in place of one entry what is left before and behind the slot, nothing else; an entry becomes empty if and only if the slot leaks |
| `PmmTable.LeakExample` | src/core/pmm.c:152-161 | a table with one fragment from page 1 to 1023: its first 511 pages are gone |
| `PmmTable.FreeValid` | src/core/pmm.c:198-231 | freeing pages that are not free keeps the table sound |
| `PmmTable.FreeSum` | src/core/pmm.c:220-227 | the sizes add up to exactly as much more |
| `PmmTable.FreeGives` | src/core/pmm.c:211-227 | exactly the given pages become free, merged with the first fragment they touch |
| `PmmTable.FreeShape` | src/core/pmm.c:211-230 | the first entry that touches grows in its place, or a new one comes last; all others keep their values and their order |
| `Pmm.Manager.constructor` | src/core/pmm.c:324-373 | the table and its counters as filled at boot |
| `Pmm.Manager.Alloc` | src/core/pmm.c:63-117 | in place: first fit, or out of memory; the table becomes what `AllocShape`, `AllocTakes` and `AllocSum` describe, and the counter goes down by as much |
| `Pmm.Manager.TakeFrom` | src/core/pmm.c:79-89 | the first pages of an entry; an emptied entry is removed, as `AllocShape` says |
| `Pmm.Manager.AllocSlot` | src/core/pmm.c:123-193 | in place: the first fragment that holds an aligned slot, or out of memory or table |
| `Pmm.Manager.CutAt` | src/core/pmm.c:151-161 | a fragment that begins at the slot |
| `Pmm.Manager.Halve` | src/core/pmm.c:137-154 | an entry becomes two, before and behind the slot |
| `Pmm.Manager.SplitAt` | src/core/pmm.c:137-161 | a fragment that is split before the slot; an empty tail makes entry i, not i+1, go |
| `Pmm.Manager.ShiftDown` | src/core/pmm.c:83-86 | entries move one place down |
| `Pmm.Manager.ShiftUp` | src/core/pmm.c:141-144 | entries move one place up |
| `Pmm.Manager.Free` | src/core/pmm.c:198-231 | in place: merged at one end of the first fragment that touches, else a new entry |
| `Pmm.Manager.FindTouching` | src/core/pmm.c:211-219 | the first entry that the range touches |
| `Pmm.ByteSlotPages` | src/core/pmm.c:131-132 | rounding byte addresses up to 2M, in pages |
| `PmmRun.GrantIsFresh` | src/core/pmm.c:63-193 | a grant is a range of free pages that nobody holds, aligned if it is a slot |
| `PmmRun.AllocKeeps` | src/core/pmm.c:63-117 | allocating keeps the counter equal to the fragments plus what leaked |
| `PmmRun.SlotKeeps` | src/core/pmm.c:123-193 | allocating a slot does too; what leaks is exactly the leading fragment |
| `PmmRun.FreeKeeps` | src/core/pmm.c:198-231 | an owner giving back pages does too |
| `PmmRun.RunKeeps` | src/core/pmm.c:63-231 | over every run the table is sound, no held page is free, and the counter does not exceed the total |
| `PmmRun.NeverTwice` | src/core/pmm.c:63-231 | no page is handed out again before it is given back |
| `PmmRun.RunWaste` | src/core/pmm.c:63-231 | over every run, empty entries arise only from slots that leak and from freeing nothing |
| `PmmRun.EntriesBound` | src/core/pmm.c:63-231 | a table without empty entries has at most one entry for each free page |
| `VmmTree.WalkIsLookup` | src/core/x86_64/vmm.c:64-116 | the processor's 4-level walk (section 4.5 of the Intel SDM, volume 3A) equals a lookup by place in the tree |
| `VmmTree.LeafLookup` | src/core/x86_64/vmm.c:107-116 | writing a page table entry changes the translation of that page only |
| `VmmTree.SlotLookup` | src/core/x86_64/vmm.c:90-96 | writing a 2M entry changes the translation of its 512 pages only |
| `VmmTree.LinkLookup` | src/core/x86_64/vmm.c:68-71 | linking a new table changes no translation |
| `VmmTree.SlotAlignedIff` | src/core/x86_64/vmm.c:86-90 | a 2M entry, written when the frame is at least 512, maps all its 512 pages page for page if and only if page and frame are multiples of 512 |
| `VmmMaps.FilledMaps` | src/core/x86_64/vmm.c:107-116 | page table entries filled one by one map a range and nothing else |
| `VmmMaps.SlotFilledMaps` | src/core/x86_64/vmm.c:89-97 | so do 2M entries |
| `VmmMaps.DidTranslates` | src/core/x86_64/vmm.c:47-117 | what the passes did, said in terms of the processor's walk |
| `VmmMaps.PrivateAfter` | src/core/msg.c:264-279 | frames that were free before a call are neither tables nor mapped elsewhere after it |
| `Vmm.Space.TakePage` | src/core/pmm.c:63-117 | one page from the memory manager, exactly when it has one; its fragments hold one page less |
| `Vmm.Space.NewTable` | src/core/x86_64/vmm.c:68-71 | an empty entry gets a cleared table of its own, linked with the rights of the request and counted in allocmem; fails only without a free page |
| `Vmm.Space.Descend` | src/core/x86_64/vmm.c:67-73 | to the table below an entry; fails only without a free page |
| `Vmm.Space.ToDirectory` | src/core/x86_64/vmm.c:64-81 | from the root to the page directory; fails only without a free page |
| `Vmm.Space.ToTable` | src/core/x86_64/vmm.c:82-103 | from the directory to the page table; fails only without a free page |
| `Vmm.Space.FillPages` | src/core/x86_64/vmm.c:104-116 | page table entries until the request or the table ends |
| `Vmm.Space.FillSlots` | src/core/x86_64/vmm.c:87-97 | 2M entries until the request or the directory ends |
| `Vmm.Space.PassSlots` | src/core/x86_64/vmm.c:86-99 | a pass that ends in the directory |
| `Vmm.Space.PassPages` | src/core/x86_64/vmm.c:100-116 | a pass that ends in a page table; fails only without a free page |
| `Vmm.Space.Pass` | src/core/x86_64/vmm.c:64-116 | one pass from the root; a full table starts another; fails only without a free page |
| `Vmm.Space.MapBss` | src/core/x86_64/vmm.c:47-117 | every page of the fresh range translates to phys plus its offset and nothing else changes, over any number of passes; the range is rounded up to slots exactly when some of it got 2M entries, else to pages; linkmem grows by the pages linked, allocmem by what the memory manager's fragments lose; the entries of these pages have the rights asked for, and the processor grants them exactly as `RightsIff` says, those of other pages unchanged; fails only without a free page |
| `Vmm.Space.TakeSlot` | src/core/pmm.c:123-193 | one slot from the memory manager, exactly when it has one and room in its table |
| `Vmm.Space.MmapUnit` | src/core/msg.c:267-278 | one page or slot of a request; fails only without a page or slot |
| `Vmm.Space.MmapUnits` | src/core/msg.c:265-279 | all of them; fails only without a page or slot |
| `Vmm.Space.Mmap` | src/core/msg.c:258-280 | one call on a fresh range: mapped pages have frames of their own, which are neither tables nor free, and are entered as writable in user mode and not executable; fails only without a page or slot |
| `Vmm.Space.MmapAll` | src/core/msg.c:258-280 | the same after any sequence of calls on fresh ranges that do not meet, rights included, with the pages taken and linked counted |
| `VmmRights.RightsWalk` | src/core/x86_64/vmm.c:64-116 | the processor's rights (section 4.6 of the Intel SDM, volume 3A) are defined exactly where its walk leads to a page |
| `VmmRights.RightsRead` | src/core/x86_64/vmm.c:64-116 | they are the flags of the entry that maps the page, met with those of every link to its table |
| `VmmRights.PreparedAsAsked` | src/core/x86_64/vmm.c:54-59 | writable exactly if asked for or nothing was passed, no-execute exactly if asked for or writable, user and caching as asked |
| `VmmRights.PutTableGives` | src/core/x86_64/vmm.c:68-71 | a new table is linked with the flags of the request; no other flags change |
| `VmmRights.FilledGives` | src/core/x86_64/vmm.c:107-116 | page table entries filled one by one have those flags; all other pages keep theirs |
| `VmmRights.SlotFilledGives` | src/core/x86_64/vmm.c:89-97 | so do 2M entries, with the page size bit |
| `VmmRights.RightsIff` | src/core/x86_64/vmm.c:47-117 | the processor grants on a page what was asked for if and only if every table that was on its way before the request is linked with at least those rights |
| `VmmRights.RightsElsewhere` | src/core/x86_64/vmm.c:47-117 | all other pages keep their rights |
| `VmmRights.FirstGranted` | src/core/x86_64/vmm.c:47-117 | the first request of a task is granted |
| `VmmRights.SecondIff` | src/core/x86_64/vmm.c:66-103 | a second one below the same top level entry is granted if and only if it asks for no more than the first |
| `VmmRights.SecondExample` | src/core/x86_64/vmm.c:66-103 | data behind read-only text, and text behind data: neither is |
| `Vmm.ReadOnlyFirst` | src/core/x86_64/vmm.c:47-117 | the calls that show it: a page mapped writable next to one mapped read-only is not writable |
| `Qsort.Med3IsMedian` | src/lib/libc/qsort.c:72-78 | the chosen one of three is neither below nor above both others |
| `Qsort.Swap` | src/lib/libc/qsort.c:64-70 | two elements change places |
| `Qsort.VecSwap` | src/lib/libc/qsort.c:71-71 | two stretches change places |
| `Qsort.InsertionSort` | src/lib/libc/qsort.c:88-92 | sorted, and only rearranged |
| `Qsort.Insert` | src/lib/libc/qsort.c:89-91 | one element sinks into the sorted part |
| `Qsort.PivotFirst` | src/lib/libc/qsort.c:94-106 | the middle, the median of three, or that of three medians comes first |
| `Qsort.ScanUp` | src/lib/libc/qsort.c:111-118 | up to an element above the pivot, with equal ones gathered at the left end |
| `Qsort.ScanDown` | src/lib/libc/qsort.c:119-126 | down to an element below the pivot, with equal ones gathered at the right end |
| `Qsort.Exchange` | src/lib/libc/qsort.c:129-132 | the two elements the scans stopped at change places |
| `Qsort.Partition` | src/lib/libc/qsort.c:107-133 | equal, below, above, equal, from left to right |
| `Qsort.Gather` | src/lib/libc/qsort.c:141-145 | below, equal, above: the equal ones are in neither of the parts that remain |
| `Qsort.LeftSorted` | src/lib/libc/qsort.c:146-147 | with the left part sorted, all up to the right part is |
| `Qsort.Onward` | src/lib/libc/qsort.c:148-153 | what a round has sorted joins what was sorted before |
| `Qsort.Round` | src/lib/libc/qsort.c:85-147 | one turn of the loop leaves fewer elements to sort, none of them below those before |
| `Qsort.Sort` | src/lib/libc/qsort.c:79-155 | terminates, sorted under every total preorder, and a permutation of the input |
| `CrcTables.Parts` | etc/include/crc32.h:5-70 | both tables: an entry is the exclusive or of the entries at the parts of its position |
| `Crc.EntryIsEight` | etc/include/crc32.h:5-70 | every entry of both tables is what eight shifts with the polynomial make of its position |
| `Crc.UpdateIsBits` | etc/include/crc32.h:76-76 | one lookup equals feeding the eight bits of the byte |
| `Crc.Calculate` | etc/include/crc32.h:73-78 | equals feeding the whole message bit by bit, polynomial 0x82F63B78, from zero |
| `Crc.CalculateEfi` | etc/include/crc32.h:81-90 | equals feeding it with 0xEDB88320, from all ones, complemented at the end |
| `Crc.FeedIsRemainder` | etc/include/crc32.h:73-90 | feeding bits is school division of polynomials over GF(2), one subtraction a power |
| `Crc.CalculateIsRemainder` | etc/include/crc32.h:73-78 | the result is the remainder of the message with 32 zeros behind it |
| `Crc.CalculateEfiIsRemainder` | etc/include/crc32.h:81-90 | the same, with the first 32 coefficients and the remainder complemented, as in section 8 of RFC 1952 |
| `Crc.UpdateInjective` | etc/include/crc32.h:76-76 | injective in the register for a fixed byte, and in the byte for a fixed register |
| `Crc.FeedInjective` | etc/include/crc32.h:73-90 | different registers stay different |
| `Crc.FeedDistinct` | etc/include/crc32.h:73-90 | from one register no two runs of at most 32 bits lead to the same one |
| `Crc.BurstDetected` | etc/include/crc32.h:73-90 | messages that differ only within 32 consecutive bits have different checksums |
| `Crc.BytesDetected` | etc/include/crc32.h:73-90 | in particular those that differ in one byte |
| `Numbers.PutHex` | src/core/syslog.c:76-91 | the text has the expected length, only digits, and the value of the number modulo 2^64 |
| `Numbers.HexDigits` | src/core/syslog.c:78-85 | the digits, sixteen of them for negative numbers |
| `Numbers.PutDec` | src/core/syslog.c:55-74 | spaces, sign, and the digits of the number, cut to seventeen |
| `Numbers.DecDigits` | src/core/syslog.c:60-64 | the digits, as few as possible |
| `Numbers.Pad` | src/core/syslog.c:67-71 | spaces in front, up to the width |
| `Numbers.StdlibHex` | src/lib/libc/stdlib.c:63-83 | the value that the digits spell, modulo 2^64, within the limits, and where reading stopped |
| `Numbers.StdlibDec` | src/lib/libc/stdlib.c:85-100 | the same for decimal, with the first character taken unchecked |
| `Numbers.HexCase` | src/lib/libc/stdlib.c:68-77 | upper and lower case digits read alike, and reading stops at the same place |
| `Numbers.LimitedNearest` | src/lib/libc/stdlib.c:78-81 | the limits: the number between them that is closest |
| `Numbers.Atol` | src/lib/libc/stdlib.c:113-120 | the signed result |
| `Numbers.HexRoundTrip` | src/core/syslog.c:76-91 | every 64-bit value is recovered at every width |
| `Numbers.DecRoundTrip` | src/core/syslog.c:55-74 | recovered if and only if it has at most seventeen digits and no space is put before it; or is padded and happens to be -16 |
| `Numbers.PaddingExample` | src/core/syslog.c:67-71 | 7 printed at width 2 is read as -153 |
| `ElfTables.SearchIsFirst` | src/core/elf.c:632-796 | searching the definitions as they are met finds the first in load order and then in table order, and finds none only if there is none |
| `ElfMemory.WriteWord` | src/core/elf.c:773-787 | a word that was stored is loaded again, byte by byte |
| `ElfMemory.WriteByte` | src/core/elf.c:773-787 | storing a word changes no byte outside it |
| `ElfLink.CollectRecords` | src/core/elf.c:508-630 | the relocations with a name are recorded in order, up to the 512th |
| `ElfLink.CollectPlain` | src/core/elf.c:599-606 | each one without a name has its object's base added once |
| `ElfLink.CollectIff` | src/core/elf.c:579-629 | everything is recorded or relocated if and only if no relocation follows the 512th with a name |
| `ElfLink.ResolveRecord` | src/core/elf.c:773-787 | a record is resolved if and only if its name has a definition, whatever other records there are |
| `ElfLink.ResolveSettles` | src/core/elf.c:773-787 | its place gets the address of the first definition of its name, or stays as it was |
| `ElfLink.ResolveShared` | src/core/elf.c:773-787 | of several records for one place, the one whose first definition is met last decides |
| `ElfLink.ResolveElsewhere` | src/core/elf.c:773-787 | a byte that belongs to no waiting record's place stays as it was |
| `ElfLink.SlotLinked` | src/core/elf.c:508-796 | the physical place of every relocation that is taken, and that no other one touches, holds the address of the first definition of its name, the old word plus the base if it has no name, or the old word if the name is not defined; `RelocationSeen` says so of the task's own addresses |
| `ElfLink.PlaceHolds` | src/core/elf.c:508-796 | what a place that any number of relocations share holds in the end: the first definition met last, or, if no name is defined, the old word with all bases added |
| `ElfLink.SharedSlotIff` | src/core/elf.c:508-796 | a shared place is right for a name waited for there if and only if the first definition met last, of the names recorded for it, has the address of the first of its own |
| `ElfExamples.SharedExample` | src/core/elf.c:773-787 | an object with two names waiting at one place: the first of them does not get its address |
| `ElfExamples.LateExample` | src/core/elf.c:579-629 | 512 relocations with a name and one without behind them, which is not relocated |
| `ElfLink.LinkedIff` | src/core/elf.c:797-803 | no record is left waiting if and only if every recorded name is defined by some object |
| `ElfLink.ElsewhereLinked` | src/core/elf.c:508-796 | no byte changes that is not part of the place of a relocation |
| `ElfLinker.Linker.CollectData` | src/core/elf.c:579-609 | in place: the data relocations of one object, at the places that `SlotSeen` describes |
| `ElfLinker.Linker.CollectPlt` | src/core/elf.c:610-629 | in place: its procedure relocations, at the places that `SlotSeen` describes |
| `ElfLinker.Linker.CollectPage` | src/core/elf.c:508-630 | one object |
| `ElfLinker.Linker.CollectPages` | src/core/elf.c:508-630 | all objects |
| `ElfLinker.Linker.PatchRecords` | src/core/elf.c:773-787 | one definition |
| `ElfLinker.Linker.ResolveSymbol` | src/core/elf.c:682-792 | one symbol |
| `ElfLinker.Linker.ResolvePage` | src/core/elf.c:677-795 | one table, up to a name beyond the string table |
| `ElfLinker.Linker.ResolvePages` | src/core/elf.c:632-796 | all tables |
| `ElfLinker.Linker.Check` | src/core/elf.c:797-803 | reports a name still waited for, exactly when there is one |
| `ElfLinker.Linker.PushEntries` | src/core/elf.c:805-825 | what will be popped: the entry points from the third page on in load order, then the executable's |
| `ElfLinker.Linker.Bind` | src/core/elf.c:508-796 | collecting and resolving |
| `ElfLinker.Linker.Link` | src/core/elf.c:502-828 | the three outcomes, when each occurs, and the state they leave, whose memory is the one that `RelocationSeen` speaks of |
| `ElfLinker.LoadOrderIff` | src/core/elf.c:815-825 | all libraries are started, in load order, if and only if none begins on the second page |
| `ElfSpace.SlotSeen` | src/core/elf.c:585-589 | the place that is patched is the one that the task's page tables give for the relocation's offset in its object |
| `ElfSpace.ObjectByte` | src/core/elf.c:585-589 | so it is for every byte of every object |
| `ElfSpace.SeenIff` | src/core/elf.c:602-606 | the task loads the word that was stored there, whatever it is, if and only if it does not reach into the next page or the frame of that page follows |
| `ElfSpace.RelaEntry` | src/core/elf.c:579-629 | which place, name and base belong to each relocation of each object |
| `ElfSpace.RelocationSeen` | src/core/elf.c:502-828 | with the page tables that the linker worked on, the task loads from each relocation's own address what belongs there |
| `ElfSpace.DefinitionSeen` | src/core/elf.c:682-684 | the address that a definition gives leads the task to the symbol itself |
| `ElfSpace.PointSeen` | src/core/elf.c:805-825 | and each entry point to that of its object |
| `ElfCrossing.CrossingExample` | src/core/elf.c:585-606 | an object on the second page with a relocation four bytes before the end of that page: patched, and not what the task loads |
| `FszNames.PrefixFirst` | tools/mkfs.c:125-128 | a name sorts before every longer one that begins with it |
| `FszNames.CaseSame` | tools/mkfs.c:125-128 | names compare equal exactly if they differ in nothing but the case of letters |
| `FszNames.StrnEqIs` | tools/mkfs.c:224-224 | what a bounded comparison of strings means |
| `FszImage.EntOrdering` | tools/mkfs.c:125-128 | the comparison of entries is a total preorder, as the sort needs it |
| `FszBytes.LittleNumber` | tools/mkfs.c:805-808 | little endian bytes spell the number, modulo what fits |
| `FszBytes.FieldKept` | etc/include/fsZ.h:133-172 | every field of a record is read back from its place |
| `FszBytes.OneFieldDiffers` | etc/include/fsZ.h:133-172 | records that differ in one field are the same elsewhere |
| `FszHeader.HeaderWords` | etc/include/fsZ.h:133-172 | the times, block and link counts, sector and size of an inode are read at their offsets, modulo 2^64 |
| `FszHeader.HeaderParts` | etc/include/fsZ.h:133-172 | so are type, mime type, owner and, from the flags, the layout |
| `FszHeader.HeaderRest` | etc/include/fsZ.h:133-172 | all other bytes that the checksum covers are zero |
| `FszHeader.HeaderDecides` | tools/mkfs.c:205-205 | two inodes have the same 1016 bytes under their checksum if and only if they agree in every field, as far as 64 bits show it |
| `FszHeader.StaleLinks` | tools/mkfs.c:244-245 | an inode whose link count changed, by anything that leaves its upper half alone, is not valid before its checksum is computed again |
| `FszHeader.StaleSize` | tools/mkfs.c:240-243 | nor is one whose size changed |
| `FszHeader.EntryRead` | tools/mkfs.c:242-242 | entry k of a directory takes the 128 bytes from 128k on |
| `FszHeader.EntryParts` | etc/include/fsZ.h:321-326 | number, length and every character of an entry are read at their offsets |
| `FszHeader.EntriesDecide` | tools/mkfs.c:242-242 | the bytes under a directory's checksum decide its entries |
| `FszHeader.StaleDirectory` | tools/mkfs.c:241-242 | a directory that names another inode is not valid before its checksum is computed again |
| `FszSteps.AppendInv` | tools/mkfs.c:170-208 | appending new sectors keeps the image well formed |
| `FszSteps.LinkInv` | tools/mkfs.c:213-246 | entering an inode keeps every directory dense, sorted and of the right size, every link count equal to the entries, and every checksum current, computed over what `HeaderDecides` and `EntriesDecide` describe |
| `FszSteps.RefsLinked` | tools/mkfs.c:230-246 | exactly one more entry names the inode |
| `FszLookup.ScanIs` | tools/mkfs.c:438-450 | the loop over a directory finds exactly the entry the path goes to |
| `FszLookup.LocateKept` | tools/mkfs.c:425-453 | a path that was found is found in every larger image |
| `FszLookup.WalkLocates` | tools/mkfs.c:213-246 | once entered where the walk ends, the whole path is found |
| `FszFiles.FileReadsBack` | tools/mkfs.c:251-321 | in each of the four layouts the bytes are read back |
| `FszFiles.LostReads` | tools/mkfs.c:311-319 | a file of 3073 to 4096 zeros is not |
| `FszFiles.FileReadsBackIff` | tools/mkfs.c:251-321 | exactly those are not |
| `FszFiles.BlocksCounted` | tools/mkfs.c:264-319 | an inode counts the sectors that were added behind it, the sector directory included, and none for a file of zeros in the direct layout |
| `FszFiles.DirectoryReads` | tools/mkfs.c:292-307 | every byte of a large file is also found through the address of its own sector in the sector directory |
| `FszFiles.ContentsStay` | tools/mkfs.c:858-887 | later additions do not change what is read |
| `FszKernel.ExactIsFirst` | src/core/fs.c:70-84 | the first name that begins with the component is the exact one, if it is there |
| `FszKernel.DirIsFirst` | src/core/fs.c:70-84 | a directory without its slash is found when no name shadows it |
| `FszKernel.DirIsShadowed` | src/core/fs.c:70-84 | otherwise another entry is |
| `FszKernel.ShadowExample` | src/core/fs.c:70-84 | looking for foo next to foo-bar and foo/ |
| `FszKernel.KernelAgrees` | src/core/fs.c:51-87 | on a path of one line without empty components that is not shadowed, the kernel finds the same inode as the builder |
| `FszKernel.NotShadowed` | src/core/fs.c:70-84 | files, and paths with a slash at the end, are never shadowed |
| `FszKernel.OneLineIff` | src/core/fs.c:51-87 | whatever path of one line the builder finds, the kernel finds the same inode if and only if the path has no empty component and is not shadowed |
| `FszLines.LineCut` | src/core/fs.c:55-74 | what follows a line end in a path makes no difference to the kernel |
| `FszLines.KernelIs` | src/core/fs.c:51-87 | on any path whatever, cut at its line end: nothing if a component is empty, else the first entry that begins with the last word, in the directory where the builder finds the words before |
| `FszLines.KernelFindIs` | src/core/fs.c:68-82 | what first means: no entry before it begins with the word |
| `FszLines.KernelFindsSome` | src/core/fs.c:51-87 | so the kernel finds something, also for a path that is not there, if and only if some name begins with the last word |
| `FszLines.CutIff` | src/core/fs.c:51-87 | a path with a line end leads to the same inode if and only if the line ends inside the last component and no entry that begins with the part before stands in front of the one looked for |
| `FszLines.KernelAgreesIff` | src/core/fs.c:51-87 | for every path that the builder finds, of one line or not: exactly when the kernel finds the same inode |
| `FszLines.LineExample` | src/core/fs.c:55-74 | a name with a line end next to the name that it begins with: the kernel takes the other |
| `FszKernel.UncleanNotFound` | src/core/fs.c:51-87 | a path of one line with an empty component is not found by the kernel |
| `FszKernel.LeadingSlash` | tools/mkfs.c:432-438 | a slash in front makes no difference to the builder, and the kernel finds nothing |
| `FszKernel.EmptyPath` | src/core/fs.c:51-87 | no path at all gives the first entry of the directory |
| `FszRun.RunDownward` | tools/mkfs.c:213-246 | in every run entries lead to inodes with higher numbers than their directory, so there are no cycles |
| `FszRun.WalkClean` | tools/mkfs.c:213-246 | a path that can be entered has no empty component |
| `FszRun.DidInv` | tools/mkfs.c:170-246 | every step of building keeps the image well formed |
| `FszRun.DidFinds` | tools/mkfs.c:213-246 | its path is found afterwards |
| `FszRun.DidStores` | tools/mkfs.c:251-381 | its file is stored |
| `FszRun.RunInv` | tools/mkfs.c:786-803 | every image of every run is well formed |
| `FszRun.PathsFound` | tools/mkfs.c:425-453 | every path entered is found in every later image |
| `FszRun.FilesReadBack` | tools/mkfs.c:858-887 | every file added is read back from every later image, with its size |
| `FszRun.KernelReadsBack` | src/core/fs.c:37-121 | and the kernel reads the same bytes; it finds every path of one line, and of the others exactly those whose part before the line end leads to the same entry |
| `FszRun.KernelFindsIff` | src/core/fs.c:51-87 | whatever was entered, the kernel finds it if and only if its path is of one line and not shadowed, or the part before the line end leads to the same entry |
| `FszBuild.LocatePath` | tools/mkfs.c:425-453 | the builder's loop and recursion |
| `FszBuild.FsLocate` | src/core/fs.c:37-121 | the kernel's loops: inode, size and data |
| `FszBuild.FirstWith` | src/core/fs.c:70-84 | the first entry that begins with a word |
| `FszBuild.SortEntries` | tools/mkfs.c:241-242 | sorted by qsort, and their checksum |
| `FszBuild.Enter` | tools/mkfs.c:232-243 | the directory after an entry was added |
| `FszBuild.NewDir` | tools/mkfs.c:170-208 | an empty directory |
| `FszBuild.NewSymlink` | tools/mkfs.c:170-208 | a symbolic link |
| `FszBuild.CopySector` | tools/mkfs.c:297-303 | one sector of a file, the rest of the last one zero |
| `FszBuild.CopySectors` | tools/mkfs.c:293-307 | all of them, with consecutive addresses |
| `FszBuild.LayOutMany` | tools/mkfs.c:273-309 | a file of several sectors |
| `FszBuild.LayOut` | tools/mkfs.c:251-321 | all sectors of a file, or too big |
| `FszBuild.Builder.Insert` | tools/mkfs.c:230-246 | in place: the entry is added and the inode's links are counted, with checksums over the bytes that `HeaderDecides` and `EntriesDecide` describe |
| `FszBuild.Builder.LinkInode` | tools/mkfs.c:213-246 | in place: along the path |
| `FszBuild.Builder.AddFile` | tools/mkfs.c:251-321 | in place: a file, unless it is too big, its inode with the checksum of its header |
| `FszBuild.Builder.AddDir` | tools/mkfs.c:399-402 | in place: a directory |
| `FszBuild.Builder.AddSymlink` | tools/mkfs.c:409-414 | in place: a symbolic link |
| `FszBuild.Builder.Finish` | tools/mkfs.c:805-808 | in place: the number of sectors and the checksum of the superblock, in an image that stays well formed |
| `FszClose.ClosedOk` | tools/mkfs.c:805-808 | the superblock then has the number of sectors twice, a current checksum, and all its other bytes as before |
| `FszClose.ClosedFindsIff` | tools/mkfs.c:805-813 | whatever was entered in any run is still found, by the kernel exactly when it would have been before |
| `FszClose.ClosedReadsBack` | tools/mkfs.c:805-813 | and every file is still found and read back, by the builder and by the kernel, from every path of one line and the others that the kernel finds |
| `FszBuild.Builder.constructor` | tools/mkfs.c:786-799 | superblock and root directory, well formed |

## Left out

- vmm_unmapbss, page faults, invlpg: hardware, or a sweep that counts only page tables.
- Concurrency: locks, context switches, `ksend` and message passing are not modelled; operations are atomic, and panics are outcomes that stop.
- Memory allocation in libc (bztalloc.c), the FS caches and the file system tasks: not modelled.
- security.c, the debugger, console, ACPI, PCI, entropy mixing and debug printing: not modelled.
- sched_pick: the side effects when the idle task is first reached (`idle_first`, `sys_ready`) are not modelled.
- sched_hybernate: sets one field and is not a step of runs; waking a hibernated task is modelled.
- Clearing of pages that are handed out, and the parsing of the boot memory map: not modelled.
- mkfs: disk and GPT images, holes in images other than initrd, mime detection and dumping are not modelled; file type and mime type are parameters, host directories are sequences of steps.
- FS/Z: only the initrd mode, 4096-byte sectors, paths whose directories exist, directories with at most 23 entries, and names that are not taken and have at most 109 characters, as the builder needs them: an entry has 111 bytes for a name with the slash of a directory and a zero.
- elf_rtlink: IRQ symbols, data exported to drivers and services, and the entry address of the first object are not modelled; the tables found by walking the dynamic section are given.
- Pmm.Manager.constructor: the walk over the boot memory map, with the initrd taken out, is a parameter; the table and the counters as it leaves them are modelled.
- Pmm.Manager.Alloc: requires fewer than 0x80000 pages, since the product of pages and page size is a 32-bit integer.
- Pmm.Manager.Free: requires room for one more entry when no fragment touches the range, since the code does not check it.
- Vmm.Space.MapBss: requires a range where nothing is mapped, and alignment to 2M for requests of 2M and more; `SlotAlignedIff` says why.
- VmmRights.RightsIff: rights of user mode and of kernel mode are not told apart beyond the user bit, and protection keys and the write protection of the kernel are not modelled.
- ElfSpace.RelocationSeen: for words that do not reach into a page elsewhere, as `SeenIff` says; the bytes of the page tables are not among the bytes that are linked.
- FszHeader.StaleLinks: for changes within the lower 32 bits, the longest that the checksum is sure to detect.
- FszHeader.EntriesDecide: for names of at most 111 bytes and numbers below 2^128, which is what an entry holds.
- Vmm.Space.Mmap: the memory manager is used through its specification, so its table is a value here.
- ElfLink.SlotLinked: for places that no other relocation touches; `PlaceHolds` says what a shared place holds, and words that overlap in part are only framed by `ElsewhereLinked`.
- ElfLink.CollectIff: for relocations without a name whose place no other one touches and whose base is not zero; a base of zero adds nothing whether it is taken or not.
- Qsort.Sort: elements are exchanged whole; the copying by words or bytes is not modelled, nor that the flag for the switch to insertion sort is exact.
- Numbers.PutDec: the one number whose negation overflows is excluded.
- Numbers.StdlibHex: an empty string is admitted, but since the first character is taken unchecked, the memory behind its end up to a zero has to be given.
- Numbers.StdlibDec: the same.
- Numbers.Atol: the same, also for a minus sign alone.
- FszBuild.FsLocate: the initrd is taken to be there and to be an FS/Z image of at most 2^31 sectors, since the number of an inode is kept in a signed 32-bit integer.
- FszLines.KernelAgreesIff: for inodes with one link, which the builder makes; with more, another entry could name the same inode. For paths with a line end also without cycles of directories, which no run makes (`RunDownward`). The empty path is in `EmptyPath`.
- FszRun.KernelReadsBack: for images of at most 2^31 sectors, for the same reason as `FsLocate`.
- FszBuild.Builder.AddFile: file type and mime type, which the builder finds out by looking at name and data, are parameters.
- FszBuild.Builder.Finish: the size of an image is a 32-bit integer in the builder; images for which it overflows are not modelled.
