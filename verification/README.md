# Verified model of the kernel's stateful parts

A Dafny model of a small 32-bit kernel: its heap allocator, page table, task table and `schedule`, ready
queue, VGA text console, number printers and keyboard driver. Each part has two layers. A class does what
the C code does, with the same fields, loops and branches, and is proved against a pure description of the
same part; laws over all inputs, all states or all runs are proved about that description.

- **Heap** (`Machine`, `Headers`, `Blocks`, `BlockLaws`, `HeapLayout`, `Heap`, `HeapRuns`, `HeapCalls`,
  `HeapContents`, `MemoryManager`). Memory is 16 MB of bytes. The 20-byte headers are stored in it field by
  field as little-endian words, in the same bytes the callers' data lives in, and pointers are addresses. The
  list of blocks the headers stand for is a ghost sequence. Splitting and merging are pointer writes into those bytes; that they keep
  the doubly linked list intact and never touch a live payload is proved byte for byte. On the sequence
  level the block list turns out to be a function of the live allocations alone, from which the algebra of
  `kmalloc` and `kfree` follows; what every call returns and changes is stated on the set of live blocks alone.
  Runs interleave calls with the clients' own stores into payloads they hold; every byte of a live payload
  that was stored, zeroed or copied there reads as last written.
- **Tasks** (`Schedule`, `RoundRobin`, `TaskManager`). The slot array with its `next` links, and `schedule`
  as a step of a machine whose runs are characterised exactly. The comment above `schedule` promises round
  robin: turn after turn, for ever, for every runnable task (`Fair`). Because a current task at the list tail
  never gives way (kernel/task.c:99), that holds from some states only. `FairExactly` gives the exact
  condition over all states in which only the current task can be RUNNING, and `EachRunsExactly` the one for
  at least one turn each. The state `kernel_main` itself builds meets only the second (`KernelMainExample`);
  `StarvationExample` and `DeadTailExample` meet neither.
- **Console** (`Layout`, `Console`, `Numerals`). The 80x25 screen is a window on an unbounded page laid out
  from everything printed. `char` is signed on the target, so bytes from 0x80 up set all attribute bits.
- **Keyboard** (`KeyEvents`, `KeyCodes`, `Keyboard`). Modifier flags, translation tables, ring buffer and
  statistics, related to what the history of key events says without any buffer or flag, down to the bytes
  received.
- **Ready queue** (`ReadyQueue`) and **pages** (`PageTable`).

Modelling choices. Unsigned 32-bit arithmetic is written out (`Add32`, `Sub32`, `Wrap`). Masks with a power
of two are remainders. Interrupt handler and reader are atomic steps; the byte from the keyboard port is an
argument. Messages the operations print about themselves are not part of their models. `print_string` gets
the bytes from its pointer on, which must contain a NUL.

Requests the code does not guard against:

- A size above 0xFFFFFFFC wraps to 0 when it is aligned (kernel/memory.c:308), and `kmalloc` returns a block
  of at most 20 bytes; `MallocGives` states that a block covers its request exactly up to that bound. `kcalloc`
  and `krealloc` go on to write the requested length. `WritesFitExactly` states when that stays inside the
  block; the two methods, `ReallocLive` and the run theorems require exactly that (`CopyFits`, `Permitted`).
  All sizes up to the bound are permitted; beyond it the copy of a live block of more than 20 bytes never
  fits the block got (`LargeCopyOverruns`).
- `kcalloc` multiplies in 32 bits (kernel/memory.c:143). `CallocCovers` states exactly when the block has room
  for all elements, and `CallocWrapExample` a request that succeeds with far too little.
- An empty block, which such a `kmalloc` can give out, is not freed by `krealloc` (kernel/memory.c:179).
  `ReallocLive` states both cases and `LeakExample` reaches the second from boot.
- `krealloc` reads the size of a block whether it is free or not (kernel/memory.c:169-176). Given a pointer
  already freed, it can get that very block, free it again and return it: `ReturnedIsLive` states exactly when,
  and `DanglingExample` reaches it from boot, with the next `kmalloc` handing out the same block.
- A task's name is copied without a NUL behind it (kernel/task.c:72-75). `NameReadsBack` states exactly when
  it reads back; in `kernel_main`'s order it always does.
- Adding the queue's last task to the ready queue again links it to itself; `Add` states this, and that it is
  the only way to break the queue.

## Model

| member | source | states |
|---|---|---|
| Headers.LoadFrame | kernel/memory.h:25-31 | a header outside the bytes written reads the same afterwards |
| Blocks.TiledSplit | kernel/memory.c:74-88 | a list tiles a range exactly if any two parts of it tile the two parts of the range |
| Blocks.TiledFacts | kernel/memory.c:70-101 | blocks of a tiling are in address order, disjoint, adjacent and inside the range |
| BlockLaws.AllocWellFormed | kernel/memory.c:70-99 | first-fit allocation keeps exact tiling and leaves no two neighbours both free |
| BlockLaws.AllocLive | kernel/memory.c:73-98 | allocation adds exactly one live block, at a new address, at most a header larger than asked |
| BlockLaws.CoalesceCoalesced | kernel/memory.c:286-304 | one left-to-right pass leaves no two neighbours both free |
| BlockLaws.CoalesceLive | kernel/memory.c:286-304 | merging changes no live block |
| BlockLaws.ReleaseWellFormed | kernel/memory.c:116-138 | freeing any pointer keeps tiling and maximal coalescing |
| BlockLaws.ReleaseLive | kernel/memory.c:116-138 | freeing takes away exactly the live block at that address, if there is one |
| BlockLaws.Canonical | kernel/memory.c:73-88 | two well formed lists are equal exactly if their live blocks are |
| BlockLaws.ReleaseCommutes | kernel/memory.c:107-139 | frees commute |
| BlockLaws.AllocThenRelease | kernel/memory.c:56-139 | a successful allocation followed by its free restores the exact list |
| BlockLaws.ReleaseAllRestores | kernel/memory.c:107-139 | freeing a list of pointers in any order gives the single initial block exactly if it covers all live ones |
| BlockLaws.FreeBlocksAreGaps | kernel/memory.c:286-304 | the free blocks are exactly the maximal gaps between live blocks |
| BlockLaws.AllocIsLowestGap | kernel/memory.c:68-103 | allocation returns NULL exactly when no gap has room for header and size, else the lowest such gap |
| BlockLaws.BytesConserved | kernel/memory.c:19-45 | live bytes, free bytes and 20 per block add up to the managed range |
| HeapLayout.ListInBytes | kernel/memory.h:25-31 | byte for byte, the header before every payload holds address, size, free flag, next and previous header, little-endian at offsets 0, 4, 8, 12, 16 |
| HeapLayout.LinksInverse | kernel/memory.c:78-84 | `next` and `prev` are mutual inverses and null exactly at the ends |
| HeapLayout.WriteUnprotected | kernel/memory.c:74-88 | a write inside a header or a free payload changes no byte of a live payload or outside the range |
| HeapLayout.SplitLinks | kernel/memory.c:74-85 | the five header writes and three link writes of a split turn the list into the split list |
| HeapLayout.MergeLinks | kernel/memory.c:293-298 | the link writes of a merge turn the list into the merged list |
| Heap.AlignSpec | kernel/memory.c:307-309 | rounding to four covers the request, losing at most three bytes, exactly up to 0xFFFFFFFC, and gives 0 above |
| Heap.MallocSpec | kernel/memory.c:61-103 | `kmalloc` fails, changing nothing, exactly when the size is 0 or no gap between live blocks is large enough, else uses the lowest |
| Heap.MallocGives | kernel/memory.c:71-98 | the new block is the only change to the live set, overlaps none, covers the request exactly up to 0xFFFFFFFC, by at most 23 bytes more |
| Heap.GivenSize | kernel/memory.c:73-85 | the new block has exactly the rounded size if more than 20 bytes of its gap would be left, else it is the whole gap |
| Heap.MallocSound | kernel/memory.c:88-98 | `kmalloc` keeps layout, alignment and every counter exact; no counter of bytes wraps |
| Heap.FreeSound | kernel/memory.c:125-138 | `kfree` does too |
| Heap.ReallocLive | kernel/memory.c:154-186 | `krealloc` of a live block to a non-zero size, the copied bytes fitting the block got: NULL with nothing changed, or one new live block, which replaces the old one exactly if that was not empty |
| Heap.LargeCopyOverruns | kernel/memory.c:173-183 | above 0xFFFFFFFC the copy from any live block of more than 20 bytes is larger than the block it goes to |
| Heap.LeakExample | kernel/memory.c:169-183 | an empty block obtained on the fresh heap stays live when `krealloc` has replaced it |
| Heap.CallocCovers | kernel/memory.c:142-144 | the block of `kcalloc` has room for all elements exactly if the true product is at most 0xFFFFFFFC |
| Heap.CallocWrapExample | kernel/memory.c:142-144 | 65536 elements of 65537 bytes get a block of 65536 bytes |
| Heap.WritesFitExactly | kernel/memory.c:146-148 | the guards on `kcalloc` and `krealloc` hold exactly when the bytes they write fit the block they got |
| Heap.MallocThenFree | kernel/memory.c:91-135 | `kmalloc` then `kfree` restores list and byte counts |
| Heap.FreesCommute | kernel/memory.c:125-138 | two frees give the same heap in either order, counters included |
| HeapRuns.RunSound | kernel/memory.c:10-186 | after any run of permitted calls from boot: exact tiling, sizes and addresses multiples of four, maximal coalescing, current and free bytes exact with constant sum, allocations minus frees the live count modulo 2^32 |
| HeapRuns.PermittedInRange | kernel/memory.c:142-186 | `kmalloc`, `kfree` and every size up to 0xFFFFFFFC are permitted; zeroing 2^32 - 3 bytes on the fresh heap is not |
| HeapRuns.RunsConfluent | kernel/memory.c:10-186 | permitted runs that leave the same blocks live leave the same list and byte counts |
| HeapRuns.StepCounts | kernel/memory.c:91-135 | `total_allocations` rises exactly when a block becomes live, `total_frees` exactly when one stops |
| HeapCalls.PointerSpec | kernel/memory.c:56-186 | every call returns NULL if it asks for nothing, else the lowest gap between live blocks with room for the rounded request, NULL if none has |
| HeapCalls.LiveSpec | kernel/memory.c:56-186 | for every permitted call and any pointer: which live blocks go, and that exactly one comes, of exact size, unless `krealloc` frees it again |
| HeapCalls.NewIsReturned | kernel/memory.c:154-186 | a block that became live is the one returned, for every call |
| HeapCalls.LiveWasReturned | kernel/memory.c:56-186 | every block live after a permitted run from boot was returned by one of its calls |
| HeapCalls.ReturnedIsLive | kernel/memory.c:169-183 | a pointer returned is that of a live block exactly unless `krealloc` was passed that address with a non-empty free block there |
| HeapCalls.DanglingExample | kernel/memory.c:169-183 | from boot: `krealloc` of a freed pointer returns it with nothing live, and the next `kmalloc` returns it again |
| HeapCalls.CallCounts | kernel/memory.c:91-98 | a call counts one allocation exactly if it returns a pointer |
| HeapCalls.CountersExact | kernel/memory.c:91-135 | after any permitted run from boot the allocations are the pointers returned and the frees those less the live blocks, modulo 2^32 |
| HeapCalls.BeforeInit | kernel/memory.c:61-112 | before initialisation every call changes nothing and returns NULL |
| HeapCalls.KernelMainHeap | kernel/kernel.c:154-162 | the pointers, blocks and counters of the heap test in `kernel_main`, in numbers |
| HeapContents.ZeroesKnown | kernel/memory.c:146-148 | all bytes `kcalloc` was asked for are remembered as 0 |
| HeapContents.MovedKnown | kernel/memory.c:178-183 | what was remembered of the old block is remembered of the new one at the same offset, up to the smaller size |
| HeapRuns.KnownKept | kernel/memory.c:56-186 | over any permitted run, what is known of a byte whose block stays live and is not stored to is what was known before |
| HeapContents.EffectRemembered | kernel/memory.c:56-186 | a call or store with the stated effect on memory leaves everything remembered in live payloads and reading as remembered: stored, zeroed, or copied by `krealloc` |
| HeapRuns.PeakIsMaximum | kernel/memory.c:91-95 | over a permitted run `peak_allocated` is the largest number of live bytes at any moment, inside `krealloc` too |
| Memory.MemoryManager.Init | kernel/memory.c:18-47 | one free block covering the range, in memory, all counters reset, nothing outside the range written |
| Memory.MemoryManager.Split | kernel/memory.c:73-86 | the list in memory becomes the split list; protected bytes are untouched |
| Memory.MemoryManager.Kmalloc | kernel/memory.c:56-104 | heap and returned pointer are those of the pure step; no live byte and none outside the range changes |
| Memory.MemoryManager.CompactFreeBlocks | kernel/memory.c:286-304 | the in-place pass computes `Coalesce` of the list and touches no live byte |
| Memory.MemoryManager.Kfree | kernel/memory.c:107-139 | heap is that of the pure step for any pointer; remaining live bytes are unchanged |
| Memory.MemoryManager.Kcalloc | kernel/memory.c:142-151 | as `kmalloc` of the 32-bit product, with the payload zeroed, room for all elements exactly if the product does not wrap, and other live bytes unchanged |
| Memory.MemoryManager.Krealloc | kernel/memory.c:154-186 | for any pointer the heap is that of the pure step; a live block's first min(old, new) bytes are in the new block; all blocks live before and after keep their bytes |
| Memory.MemoryManager.Memset | kernel/memory.c:324-333 | exactly the range is filled |
| Memory.MemoryManager.Memcpy | kernel/memory.c:335-345 | the range is copied unless the destination starts inside the source, and then repeats its first bytes; nothing else changes |
| Memory.MemoryManager.ServeAll | kernel/memory.c:56-186 | over any interleaving of permitted calls and client stores, from any state, heap and returned pointers are those of the pure run, every byte stored, zeroed or copied into a payload still live reads as last written, and nothing outside the range changes |
| Memory.MemoryManager.BootAndServe | kernel/memory.c:10-186 | the same from power-on, the runs the run theorems speak of |
| Memory.MemoryManager.WritePayload | kernel/memory.c:98 | a caller's store into a payload it holds disturbs neither the list nor other allocations |
| PageTables.PageAtSpec | kernel/memory.c:226-237 | the scan by address finds exactly the page starts in range, at the index arithmetic gives |
| PageTables.AllocatedSpec | kernel/memory.c:189-203 | only the lowest free page changes, to used with one reference |
| PageTables.ReleasedSpec | kernel/memory.c:206-223 | the start of any used page frees that page and no other; any other address changes nothing |
| PageTables.AllocThenFree | kernel/memory.c:189-223 | `alloc_page` then `free_page` restores the table |
| PageTables.PageTable.AllocPage | kernel/memory.c:189-203 | lowest free page or NULL; free and used counts stay the true counts, summing to 3840; used exactly when the reference count is 1 |
| PageTables.PageTable.FreePage | kernel/memory.c:206-223 | only a used page that starts there is freed; the free count rises by one exactly if one is; counts stay true |
| PageTables.PageTable.GetPageInfo | kernel/memory.c:226-237 | the page found is number (addr - MEMORY_START) / 4096 for every address in range, none outside |
| Schedule.PickSpec | kernel/task.c:99-113 | off the tail, the first runnable task after the current one in circular order, or the current one exactly if no other is runnable; at the tail, the current one |
| Schedule.StepStates | kernel/task.c:44-155 | the state of every task after every operation: caller SLEEPING, dead or READY again, the task switched to RUNNING, a woken sleeper READY, a created task READY and last, all others unchanged |
| Schedule.StepCurrent | kernel/task.c:98-155 | the task current after every operation: for yield, exit and sleep the one `PickSpec` characterises, whatever the caller's new state |
| Schedule.SleeperStays | kernel/task.c:98-155 | a sleeper sleeps on exactly unless woken or exiting while current, and is not switched to |
| Schedule.SleepsUntilWoken | kernel/task.c:98-155 | over any run a sleeper that is not current stays asleep and not current until its wake |
| Schedule.SwitchesOnlyToReady | kernel/task.c:115-140 | any switch goes to a READY task and makes it RUNNING |
| Schedule.ZombieRevived | kernel/task.c:130-155 | an operation revives a dead task exactly if it is the current one calling `task_sleep` |
| Schedule.RunInvariant | kernel/task.c:44-155 | in every state of every run from boot a RUNNING task is the current one |
| Schedule.ZombieForever | kernel/task.c:130-155 | over any run in which no dead task sleeps, dead tasks stay dead |
| RoundRobin.FullRotation | kernel/task.c:98-127 | tail not runnable: each runnable task runs exactly once in r calls, at a turn given by its rank, and the whole state is back after r |
| RoundRobin.RotationPeriodic | kernel/task.c:98-127 | tail not runnable: the rotation repeats for ever |
| RoundRobin.TailAbsorbs | kernel/task.c:98-127 | tail runnable: it is current exactly from the call numbered by the runnable tasks behind the start, at most n-1, and stays |
| RoundRobin.FairExactly | kernel/task.c:97-127 | from any state in which only the current task can be RUNNING, every runnable task runs again and again for ever exactly if current is not the tail and the tail is not runnable, or no task but the tail is runnable |
| RoundRobin.EachRunsExactly | kernel/task.c:97-127 | from any such state every runnable task runs at least once exactly if current is not the tail and the tail is not runnable, or no runnable task precedes the current one |
| RoundRobin.FairRotates | kernel/task.c:97-127 | from a RUNNING current task, fair scheduling is a strict rotation: each runnable task exactly once per round, at the turn its rank gives, the state back after it |
| RoundRobin.KernelMainExample | kernel/kernel.c:128-134 | the two tasks `kernel_main` sets up each get a turn, but the first never runs again after one call |
| RoundRobin.StarvationExample | kernel/task.c:99-101 | two runnable tasks, current at the tail: the other gets no turn |
| RoundRobin.DeadTailExample | kernel/task.c:99-140 | reached from boot: the exited task at the tail stays current and the READY task before it never runs, though the tail is not runnable |
| RoundRobin.FirstTurnSettles | kernel/task.c:98-127 | from a dead, sleeping or READY current task, a switch gives a RUNNING current task and changes no task's runnability, so the rotation results apply from there |
| RoundRobin.StuckForever | kernel/task.c:98-127 | where `schedule` once keeps the current task it does so for ever |
| TaskTable.TicksAreTurns | kernel/interrupt.c:165-177 | from any tasks and any counter position, n timer interrupts make exactly the `schedule` calls due, wraps of the counter included |
| TaskTable.DueNext | kernel/interrupt.c:165-177 | the number of calls due rises by one exactly at a displayed multiple of ten, at a wrap of the counter too |
| TaskTable.NamedBytes | kernel/task.c:71-75 | the sixteen bytes of the name: at most fifteen characters, the old bytes behind them, NUL last |
| TaskTable.NameReadsBack | kernel/task.c:71-75 | the copied name, cut to fifteen characters, reads back exactly if it fills the slot or the old name ended where it does |
| TaskTable.TaskManager.Init | kernel/task.c:14-41 | one RUNNING kernel task with pid 0 in slot 0, every field stated; pid, state and link of all other slots blanked and nothing else; from any earlier state |
| TaskTable.TaskManager.CreateTask | kernel/task.c:44-95 | no slot before initialisation or at 64 tasks; else the next slot, every field stated, linked last, all other slots but for links unchanged; the list stays slots in order; names read back while no old name is left in a blank slot |
| TaskTable.TaskManager.NextRunnable | kernel/task.c:103-113 | the scan terminates and finds the task `PickSpec` characterises |
| TaskTable.TaskManager.Reschedule | kernel/task.c:98-127 | the slot array moves as the pure step does, and only states change |
| TaskTable.TaskManager.TaskExit | kernel/task.c:130-140 | likewise for exit |
| TaskTable.TaskManager.TaskSleep | kernel/task.c:143-148 | likewise for sleep |
| TaskTable.TaskManager.TaskWake | kernel/task.c:151-155 | likewise for wake of any slot, in the list or not, at any time |
| TaskTable.TaskManager.FindTask | kernel/task.c:158-167 | the list walk finds a task exactly if one has that pid, and equals indexing when pids are slot numbers |
| TaskTable.TaskManager.KernelMain | kernel/kernel.c:122-134 | the early idle task gets no slot, so pids 0 and 1 are slots 0 and 1, and the second is named `demo_task` |
| ReadyQueues.AddThenRemove | kernel/scheduler.c:89-129 | adding an absent task and removing it gives the same queue |
| ReadyQueues.FirstReadyUnique | kernel/scheduler.c:154-187 | round robin and FIFO return the same task in every state |
| ReadyQueues.BestExactly | kernel/scheduler.c:281-295 | the choice is the least-numbered READY task exactly if some READY task is within the bound of 41 or none is READY |
| ReadyQueues.BestInRange | kernel/scheduler.c:281-295 | with priorities in range the bound of 41 hides no READY task |
| ReadyQueues.HiddenOutOfRange | kernel/scheduler.c:281-295 | a lone READY task is passed over for idle exactly if its priority exceeds 40 |
| ReadyQueues.ReadyQueue.Add | kernel/scheduler.c:89-102 | appends an absent task; a queued one cuts off what follows it; the queue breaks exactly if it was the last; priorities stay in range |
| ReadyQueues.ReadyQueue.Remove | kernel/scheduler.c:107-129 | the queue loses exactly that task, links and both ends intact; its own link stays; priorities stay in range |
| ReadyQueues.ReadyQueue.NextRoundRobin | kernel/scheduler.c:154-171 | the circular loop terminates with the first READY task, else idle |
| ReadyQueues.ReadyQueue.NextFifo | kernel/scheduler.c:176-187 | the linear loop does too |
| ReadyQueues.ReadyQueue.HighestPriority | kernel/scheduler.c:281-295 | earliest least-numbered READY task among those with number at most 40, else idle; with priorities in range, idle only when nothing is READY |
| ReadyQueues.ReadyQueue.NextTask | kernel/scheduler.c:138-149 | each policy returns the task its description names |
| ReadyQueues.ReadyQueue.SetPriority | kernel/scheduler.c:194-217 | priorities are clamped to 0..40, below to 0 and above to 40, keeping the queue's in range, and the slice is 50 minus priority, so its own clamps never act |
| Layout.PageGrows | kernel/kernel.c:24-44 | one more character extends the page of wrapped lines at its end only |
| Layout.PageFits | kernel/kernel.c:33-43 | no page row is over-full and the last has room, so every cell written is in bounds |
| Layout.PageConcat | kernel/kernel.c:24-31 | the page of two texts with a newline (10) between is one page above the other |
| Layout.PageOfLine | kernel/kernel.c:33-43 | without newlines character k is in row k / 80, column k % 80 |
| Layout.ScreenCells | kernel/kernel.c:15-62 | every one of the 2000 cells in numbers: character byte and attribute 0x0F or 0xFF where printed, 0x0020 or 0x0720 elsewhere; and the cursor |
| Layout.RowsReadBack | kernel/kernel.c:17-56 | the visible rows can be read off the screen: pages with the same cells and cursor row show the same rows, printed spaces and blanks told apart |
| Layout.ScrollShows | kernel/kernel.c:46-62 | scrolling the window is a line feed on the page |
| ConsoleScreen.Console.ClearScreen | kernel/kernel.c:15-21 | the screen shows the empty page |
| ConsoleScreen.Console.ScrollScreen | kernel/kernel.c:46-62 | the in-place copy moves every row up and blanks the last |
| ConsoleScreen.Console.PrintChar | kernel/kernel.c:24-44 | the 2000 cells and the cursor are the last 25 rows of the page of all text printed since the clear, this character included |
| ConsoleScreen.Console.PrintString | kernel/kernel.c:86-91 | likewise for every character before the NUL |
| ConsoleScreen.Console.PrintNumber | kernel/kernel.c:64-83 | prints the decimal numeral; the buffer is never overrun |
| ConsoleScreen.Console.PrintHex | kernel/interrupt.c:249-261 | prints `0x` and the eight-digit numeral |
| Numerals.DecimalRoundTrip | kernel/kernel.c:64-83 | reading the numeral back gives the number; digits only, no leading zero except in 0 |
| Numerals.DecimalDigitAt | kernel/kernel.c:73-77 | the k-th digit from the right is character 48 plus the number divided by ten k times, modulo ten |
| Numerals.HexDigitAt | kernel/interrupt.c:250-257 | each hexadecimal digit by its character, 48 to 57 and 65 to 70, from the number divided by sixteen |
| Numerals.WordLength | kernel/kernel.c:65-77 | at most ten digits for every 32-bit number |
| Numerals.WordHexRoundTrip | kernel/interrupt.c:249-261 | exactly eight characters, all hexadecimal digits, that read back as the number |
| KeyEvents.AsciiSpec | kernel/keyboard.c:199-218 | letters are capitals under shift or caps lock, caps lock affects nothing else, and having a character depends on the key alone |
| KeyEvents.ModifiersSpec | kernel/keyboard.c:139-193 | the flags equal what the history says: pressed and not released since; caps lock by parity of presses |
| KeyCodes.ModifiersByCode | kernel/keyboard.c:92-193 | the flags by the bytes received: which press byte sets and which release byte clears each, caps lock by parity of 0x3A |
| KeyCodes.KeyboardLayout | kernel/keyboard.c:18-55 | both tables as the labels of the keys, row by row |
| KeyCodes.NoCharacter | kernel/keyboard.c:18-35 | the codes without a character are exactly the five modifiers, 0, 0x3B to 0x46 and 0x54 to 0x7F |
| KeyCodes.TypedByHistory | kernel/keyboard.c:115-218 | the character any byte types after any history of bytes; modifiers, releases and reads type none |
| KeyCodes.CountedByCode | kernel/keyboard.c:92-133 | each statistic is the number of bytes received from a stated set of codes |
| KeyCodes.FateOf | kernel/keyboard.c:115-133 | a typed character is accepted exactly if fewer than 256 wait, else dropped; a reader takes one exactly if one waits |
| KeyCodes.FirstAreKept | kernel/keyboard.c:254-264 | with no reader the first 256 characters typed are kept and the rest dropped |
| KeyCodes.ReadsDrain | kernel/keyboard.c:270-280 | n reads in a row take the n oldest waiting characters, or all |
| KeyEvents.TypedAccounted | kernel/keyboard.c:115-133 | every typed character is accepted or dropped, and with none dropped accepted is all that was typed, in order |
| KeyEvents.PressesAccounted | kernel/keyboard.c:99-133 | key presses are special, invalid, accepted and dropped ones, with nothing left over |
| KeyboardDriver.Keyboard.StatsBalance | kernel/keyboard.c:99-133 | in every reachable state total keypresses equal special, invalid, overflowed and accepted ones modulo 2^32 |
| KeyboardDriver.Keyboard.Put | kernel/keyboard.c:254-264 | the ring contents grow by the character unless 256 are waiting |
| KeyboardDriver.Keyboard.Take | kernel/keyboard.c:270-280 | the oldest character leaves the ring; 0 from an empty one |
| KeyboardDriver.Keyboard.Interrupt | kernel/keyboard.c:92-133 | after every interleaving, delivered characters followed by ring contents are the accepted ones of the event history, and each counter is its true count modulo 2^32 |
| KeyboardDriver.Keyboard.GetChar | kernel/keyboard.c:270-280 | the reader gets the oldest accepted character not yet delivered, or 0 |

## Left out

- Memory.MemoryManager.Kcalloc: requires that the bytes it zeroes fit the block it got; what the code overwrites otherwise is not modelled.
- Memory.MemoryManager.Krealloc: requires that the bytes it copies fit the block it got; what the code overwrites otherwise is not modelled. The bytes it copies out of a block already free are not stated.
- Heap.ReallocLive: requires that the bytes copied fit the block got; otherwise the code overwrites the blocks behind it, which is not modelled.
- HeapRuns.RunSound: covers runs of such calls only, as do `RunsConfluent` and `PeakIsMaximum`.
- TaskTable.TaskManager.TaskWake: takes a slot of the table or none; other pointers are not modelled.
- TaskTable.TaskManager.CreateTask: does not model the overflow of `next_pid` past 2^31 - 1, which C leaves undefined.
- TaskTable.TicksAreTurns: does not model the dot printed every hundred ticks.
- Disjointness of pages and heap blocks: both allocators manage the same range, so it does not hold; they are modelled apart.
- One task in the task list and in the ready queue: both use the same `next` field, so they are modelled apart.
- `keyboard_flush_buffer`, the wait loop of `keyboard_getchar`, and interleavings finer than whole handler and reader steps.
- `scheduler_tick`, `yield`, `start_scheduler`, `stop_scheduler`, `force_schedule` and the scheduler's statistics.
- `memcmp`, `is_valid_address`, `is_kernel_address` and all information printing.
- kernel/syscall.c, interrupt and exception dispatch, port I/O, context switching and the boot code.
