# gammaOS kernel: a verified model

gammaOS is a small 32-bit x86 kernel. This project models its memory core, the users of its address
spaces, its process state machine, its read-only FAT16 stack and its keyboard buffer in Dafny, and
proves what those parts promise.

**Memory core.** `HeapTable`, `HeapRuns` and `Heap` are the first-fit block allocator: its byte table,
runs of calls on it, and the code in place. `Words` has 32-bit arithmetic and bit packing, `Memory` the
2^32 bytes of physical memory. `Paging`, `KernelHeap`, `PageRanges`, `AddressSpaces`, `PageTables` and
`KernelPaging` are the two-level page tables (32-bit paging, section 4.3 of the Intel SDM, Volume 3A),
built from heap blocks inside that memory. The results stack: the byte table encodes the live allocations; these supply
the aligned, page-sized, disjoint blocks that make the pointer-packed tables right; the tables of each
address space refine a flat map from page to entry.

**Users of address spaces.** `Loader` lays out a program (TIS ELF 1.2, "Program Header" and "Program
Loading"), `TaskCopy` copies a string out of a task through a borrowed page, `ProcessMemory` is a
process's own allocator, `Tasks` and `Processes` are the task list, the process table, EXEC and EXIT.
`ProcessSpaces` puts these over kernel memory: the live address spaces follow the task list. `Creation`
says how creating a process ends: which step fails, if one does, and the state it leaves. `HeldBlocks`,
`ProcessLife` and `SystemCalls` are the same calls in place, with every allocation they make and give back:
booting, EXEC, EXIT and MALLOC as methods of one object that has the kernel's globals, each of them a step
of those runs. `Presence` shows that the translation spoken of is the processor's.

**Files and keys.** `Disk` reads bytes sector by sector; `Fat16`, `EntryPosition`, `Fat16Written`,
`Directory` and `Names` are the FAT16 reader (Microsoft FAT specification v1.03, "FAT Data Structure" and
"FAT Directory Structure"), directory loading and 8.3 names; `Paths` says what parsing a path gives,
`PathParser` is the parser in place, and `PathWalk` the walk along its list; `Keyboard` is the ring buffer.
`Status` has the kernel's status codes and `Options` an option type.

Objects that the kernel updates in place are classes (`Heap`, `Kernel`, `TaskList`, `ProcessTable`,
`GammaOS`, `Slots`, `Stream`, `PathUnit`, `KeyboardBuffer`). Each of their methods is proved equal to a step of
a specification, and the laws are proved of the specification over whole runs. What the hardware and the
formats fix (the bits of an entry, the bytes of a word, the fields of a directory entry) is stated in
numbers. A ghost value beside the real fields (`Kernel.k`, `ProcessTable.s`, `TaskList.tasks`, `Stream.log`)
is the abstract state.

Where the code departs from what it is evidently for, the model has the written step, and the meant one
beside it where there is one, and the members named here say exactly when the code does what it is for:

- `free_blocks` clears an entry before it tests its HAS_NEXT bit, so it frees one block
  (`HeapTable.MallocThenWrittenFree`, `HeapRuns.WrittenFreeLeaks`). The kernel model uses the written step.
- `destroy_virtual_address_space` does not free the directory (`AddressSpaces.CreateThenDestroy`). The
  kernel model uses the written step.
- `fat16_get_entry` multiplies where it should add (`EntryPosition.EntryPosAgrees`), and
  `fat16_read_from_disk` uses the whole offset and does not stop at a cluster's end. `Fat16` and the
  directory code are the reader with the meant steps; `Fat16Written` is the reader as it is written. For
  every read `Fat16Written.WrittenAgrees` says exactly when the written one takes each byte from its place,
  `Fat16Written.ShortReadAgrees` says it for reads of at most a cluster, and
  `Fat16Written.WrittenReadFails` is a read that goes wrong.
- The test for a failed cluster lookup is made on an unsigned value (`Fat16Written.WrittenNeverFails`).
- The marks that end a chain have 12 bits (`Fat16Written.MarksAgree`, `Fat16Written.FollowAgrees`). Both
  readers have the code's marks, so a chain closed by 0xffff goes on to a cluster 0xffff; no read asks for
  anything beyond the clusters of its own bytes (`Fat16Written.MarkedFileReadable`).
- The loaded directory takes as many slots as there are live entries, from the first slot on, which is
  right exactly when no live entry follows a deleted one (`Directory.LoadedAreLive`).
- `task_list_delete` does not reset the list when the only task goes (`Tasks.TaskList.Delete`, reached by
  `Tasks.StaleHead`).
- A path that ends in '/' loses that '/' (`Paths.JoinedUnits`, `Paths.ParsePrinted`).
- A path unit of 64 bytes fills its block, and the parser measures it with strlen: it halts when a stale byte
  follows (`PathParser.UnitLength`). The second unit's block is the one the first copy of the path has just
  left (`PathParser.CopyComesBack`), so a second unit of 64 bytes always halts (`Paths.SecondUnitHalts`,
  `Paths.HaltingPath`).
- The walk along a path goes on with a null unit, and into a directory that loaded as null
  (`PathWalk.FaultsWhenStuck`; a volume and a path: `PathWalk.EmptyFolderFaults`).
- A full keyboard ring overwrites its oldest character (`Keyboard.FullLosesOldest`).
- With no free pid, `process_get_free_process_id` gives 65524 and its caller does not notice
  (`Processes.ProcessTable.GetFreeProcessId`, `Processes.FullTableUnnoticed`).
- A `process_new` that fails after its file was loaded gives back the rest, but leaves the file's memory
  allocated (`ProcessLife.PrepareProcess`), and `process_kill` frees none of what the process allocated
  by MALLOC (`ProcessLife.ReleaseProcess`).

## Model

| member | source | states |
|---|---|---|
| Words.OrMoreFlags | mm/paging/paging.c:130 | or-ing creation flags and write access onto an aligned table pointer changes only its low 12 bits |
| Words.MaskClearsOffset | mm/paging/paging.c:101 | the mask 0xfffff000 clears exactly the low 12 bits of any word |
| Words.PackUnpack | mm/paging/paging.c:122-130 | flags below 4096 or-ed onto an aligned pointer are undone by the mask |
| Words.OrBits | mm/paging/paging.c:122-130 | the operator `|` of the model is the bitwise one: bit n of the result is set exactly when it is set in one of the two |
| Words.AndBits | mm/paging/paging.c:101 | likewise `&`: exactly when it is set in both |
| HeapTable.RunsDetermineTable | mm/heap/heap.c:151-174 | two tables that encode the same live allocations are equal |
| HeapTable.TableDeterminesRuns | mm/heap/heap.c:151-174 | no two sets of live allocations have the same table: the three bits per block lose nothing |
| HeapTable.EntryBits | mm/heap/heap.c:151-174 | of a run's entries bit 0 is always set, bit 6 in the first only, bit 7 in all but the last, and no other bit ever |
| HeapTable.FirstFit | mm/heap/heap.c:121-147 | the specification of the search: the least start of k free blocks, none exactly when k is 0 or there is no such run |
| HeapTable.RoundingNeverShort | mm/heap/heap.c:98-103 | rounding gives the least number of blocks that covers the size; it gives 0 exactly for size 0 and sizes above 0xfffff000 |
| HeapTable.MallocSound | mm/heap/heap.c:47-79 | a non-null result is block-aligned, inside the heap, covers the size, and took only free blocks; a null result leaves the table alone; wrapping sizes give null |
| HeapTable.OneBlockFit | mm/heap/heap.c:65-79 | a request for one block succeeds exactly when a block is free, and takes just that block |
| HeapTable.MeantClearsRun | mm/heap/heap.c:82-93 | the meant free stops at the end of the run it starts in |
| HeapTable.MallocThenFree | mm/heap/heap.c:82-93 | malloc, then the meant free, gives the table back byte for byte |
| HeapTable.MallocThenWrittenFree | mm/heap/heap.c:85-90 | with the written free this holds exactly for one-block allocations, and every later block stays taken |
| HeapRuns.MallocKeeps | mm/heap/heap.c:65-79 | malloc keeps the table an encoding of disjoint live runs inside the heap |
| HeapRuns.FreeKeeps | mm/heap/heap.c:82-93 | so does free of a live base, meant or written; freeing a block that is free already changes nothing |
| HeapRuns.FreedTable | mm/heap/heap.c:82-93 | the meant free clears exactly the blocks its malloc took, the written one the first of them |
| HeapRuns.RunEncodes | mm/heap/heap.c:47-93 | over every run of calls the table encodes the live runs, and the meant free never loses a block |
| HeapRuns.FreshRunEncodes | mm/heap/heap.c:22-93 | from an empty heap the encoding is exact after every run |
| HeapRuns.WrittenFreeLeaks | mm/heap/heap.c:85-90 | over every run the written free loses exactly k - 1 blocks for each freed run of k |
| Heap.Heap.Create | mm/heap/heap.c:22-43 | succeeds exactly when both ends are aligned and the table has as many entries as the signed difference of the ends gives; then all entries are free, else nothing changes |
| Heap.Heap.FindFreeEntry | mm/heap/heap.c:121-147 | the one-pass search is sound, complete and minimal for every table |
| Heap.Heap.MarkBlocksTaken | mm/heap/heap.c:151-174 | writes exactly the encoding of one run and no other entry |
| Heap.Heap.MallocBlocks | mm/heap/heap.c:65-79 | takes the first run that fits and returns its address, or leaves the table alone and returns 0 |
| Heap.Heap.Malloc | mm/heap/heap.c:47-54 | refines the specification of malloc, whose laws are above |
| Heap.Heap.FreeBlocks | mm/heap/heap.c:82-93 | as written, the loop clears one entry |
| Heap.Heap.FreeBlocksMeant | mm/heap/heap.c:82-93 | the loop with the bit read first refines the meant free |
| Heap.Heap.Free | mm/heap/heap.c:58-62 | frees from the block of the address, in 32-bit arithmetic |
| Memory.LoadBack | mm/paging/paging.c:101-102 | a 32-bit word stored is the word loaded |
| Memory.WordSet | mm/paging/paging.c:101-102 | storing an entry of a page changes that entry and no other entry of any page |
| Paging.IdentityIs | mm/paging/paging.c:118-123 | in the flat map of a new space every address translates to itself, and entry p is 4096 p or-ed with the creation flags |
| Paging.HardwareWalk | mm/paging/paging.c:88-105 | the translation by the flat map is what the processor finds: bits 22 to 31 pick a directory entry, bits 12 to 21 an entry of the table it points to, both read byte by byte, and the low 12 bits stay |
| Paging.StoreEntry | mm/paging/paging.c:88-105 | storing through a two-level table whose pages are distinct changes one entry of its flat map and keeps the wiring |
| Paging.SpacesDisjoint | mm/paging/paging.c:109-146 | no page of one address space belongs to another |
| Paging.MapKeeps | mm/paging/paging.c:88-105 | mapping a page in one space changes that page of that space and no other translation |
| Paging.OthersKeep | mm/paging/paging.c:109-160 | a change outside the pages of all spaces leaves every translation and the invariant as they were |
| Paging.AddSpace | mm/paging/paging.c:139-146 | a new space made of live blocks no space owns adds its flat map and keeps all others |
| Paging.RemoveSpace | mm/paging/paging.c:148-160 | removing a space removes its flat map only, and frees its blocks from ownership |
| KernelHeap.KzallocKeeps | mm/heap/kheap.c:44-52 | kzalloc, zeroing included, changes no translation of any space |
| KernelHeap.KfreeKeeps | mm/heap/kheap.c:55-57 | kfree of a block no space owns changes no translation of any space |
| KernelHeap.GrownOne | mm/heap/kheap.c:44-52 | a request of at most a page takes exactly one free block and clears only bytes in it |
| KernelHeap.FreedKeeps | mm/paging/paging.c:148-160 | freeing a set of one-block runs no space owns keeps the encoding and every translation |
| PageTables.FillTable | mm/paging/paging.c:118-123 | the inner loop fills a page with the identity entries of its 4 MB, as `Paging.IdentityIs` gives them, and touches no other page |
| PageTables.FreshSpace | mm/paging/paging.c:109-146 | finished tables, directory and structure represent the identity map with the creation flags |
| PageRanges.RangeStep | mm/paging/paging.c:60-65 | one more page of a range is one more entry of the flat map, at a page number that wraps modulo 2^20 |
| PageRanges.RangeStoredKeeps | mm/paging/paging.c:50-70 | the stores of a range keep the wiring, touch only tables of the space, and map exactly the pages of the range |
| PageRanges.MapRangeKeeps | mm/paging/paging.c:50-70 | a range mapped in one space is seen by no other |
| KernelPaging.Kernel.Kzalloc | mm/heap/kheap.c:44-52 | refines malloc; each of the size bytes from the result on is 0 and each other byte of memory as before; every translation stays |
| KernelPaging.Kernel.Kfree | mm/heap/kheap.c:55-57 | refines the written free; every translation stays |
| KernelPaging.Kernel.GetPageIndices | mm/paging/paging.c:74-85 | refuses exactly the unaligned addresses; otherwise the two indices give the address back |
| KernelPaging.Kernel.TableAt | mm/paging/paging.c:101 | the masked directory entry is the address of the page table |
| KernelPaging.Kernel.MapVaddrToVal | mm/paging/paging.c:88-105 | sets the one entry of an aligned address, refuses others and changes nothing then |
| KernelPaging.Kernel.VirtToPhy | mm/paging/paging.c:162-173 | reads the entry of the page in the space's flat map |
| KernelPaging.Kernel.MapPages | mm/paging/paging.c:50-70 | makes exactly the stores of the range, in order, or is refused and stores nothing |
| KernelPaging.Kernel.MapValue | mm/paging/paging.c:88-105 | on a live space it is the map step of the runs below |
| KernelPaging.Kernel.MapRange | mm/paging/paging.c:50-70 | succeeds exactly for arguments that are multiples of 4096 with paddr <= endaddr; page i of the range gets (paddr + 4096 i) with the flags, wrapping at 2^32; nothing else in this or any other space changes: the map-range step of the runs below |
| KernelPaging.Kernel.NewPageDirectory | mm/paging/paging.c:109-137 | given enough free blocks, takes 1026 of them, all different, and fills and links them |
| KernelPaging.Kernel.CreateSpace | mm/paging/paging.c:139-146 | the new space is not one of the live ones, every address in it translates to itself, entry p is 4096 p or-ed with the flags, and every other space keeps its translation |
| KernelPaging.Kernel.DestroySpace | mm/paging/paging.c:148-160 | follows the packed pointers to free the tables, descriptor and structure: the written destruction, whose laws are below |
| AddressSpaces.CreatedKeeps | mm/paging/paging.c:109-146 | creating a space consumes exactly 1027 heap blocks, keeps the invariant and all other flat maps |
| AddressSpaces.DestroyedKeeps | mm/paging/paging.c:148-160 | destroying one removes its flat map only, and returns 1027 blocks as meant, 1026 as written |
| AddressSpaces.RunRefinesFlatMaps | mm/paging/paging.c:74-173 | after every run of create, map, map-range, the written destroy and other steps that leave the blocks of spaces alone, each page of each live space holds the last value mapped there in that space, else its own address with the creation flags |
| AddressSpaces.StepKeeps | mm/paging/paging.c:74-160 | every step of such a run keeps the invariant and acts on the flat maps as its abstract step does |
| AddressSpaces.RangeIsMaps | mm/paging/paging.c:60-65 | a range is one map step for each of its pages, with the value paddr + 4096 i and the flags |
| AddressSpaces.HeapCallsAreSteps | mm/heap/kheap.c:44-57 | every kzalloc, and every kfree of what no space owns, is such a step |
| AddressSpaces.CreateThenDestroy | mm/paging/paging.c:109-160 | create then the meant destroy restores the heap table byte for byte; the written one leaves exactly the directory's block taken |
| Loader.WriteBit | kernel/task/process/process.c:149-152 | the write flag is tested by bit 1 of the header's flags |
| Loader.LastRangeWins | kernel/task/process/process.c:137-193 | after a list of ranges a page has the entry of the last range that covers it, else its old one |
| Loader.SegmentCovers | kernel/task/process/process.c:146-154 | the range of a segment congruent to its file offset is accepted and covers exactly the segment's pages |
| Loader.ElfLayout | kernel/task/process/process.c:137-193 | every byte of every segment translates to the file byte at its offset; its entry has bits 0 and 2 set, and bit 1 exactly when bit 1 of the header's flags is; the 16 KB below 0x3ff000 translate to the stack buffer, with all three bits; every other page keeps its entry |
| Loader.BinaryAsSegment | kernel/task/process/process.c:127-135 | a flat binary is laid out like one writable segment at 0x400000 |
| Loader.BinaryLayout | kernel/task/process/process.c:127-193 | every byte of a flat binary and of the stack translates to where it was loaded, with write access |
| Loader.MapElf | kernel/task/process/process.c:137-161 | maps all segments in order, each with the access its header asks for, or stops at the first one that is refused |
| Loader.MapBinary | kernel/task/process/process.c:127-135 | maps the file from 0x400000 on, or is refused and changes nothing |
| Loader.ProcessMapMemory | kernel/task/process/process.c:173-193 | makes the stores of the ranges up to the first refused one, so that the space's flat map is that of these ranges; success exactly when none is refused; no other space changes |
| Loader.RangesKeep | kernel/task/process/process.c:137-193 | the stores of a list of ranges give the space the flat map of the list, and no other space sees them |
| TaskCopy.Translate | kernel/task/task.c:195-196 | where the entries are present, the address the processor reaches through the tables is the one of the flat map |
| TaskCopy.Strncpy | string/string.c:54-68 | under any translation that leaves the target in place, copies the bytes up to the first NUL or the length, and no others |
| TaskCopy.EntryRestored | kernel/task/task.c:188-201 | putting the saved entry back undoes the borrowing, whatever the copy wrote into the page |
| TaskCopy.Borrow | kernel/task/task.c:188-196 | the borrowed page is mapped to its own address or-ed with 7: present, writable and open to users |
| TaskCopy.CopyThroughPage | kernel/task/task.c:188-201 | the borrowed page receives the bytes seen through the task's translation, and nothing else changes |
| TaskCopy.SeenLengthUnique | kernel/task/task.c:203-207 | the returned count is determined by what the task's translation shows |
| TaskCopy.CopyFromTask | kernel/task/task.c:176-210 | with the borrowed page clear of the source, delivers exactly the bytes up to the first NUL or the size and returns their count; heap table and all entries of all spaces are as before; the two failures change nothing |
| TaskCopy.BufferKinds | kernel/task/task.c:203 | a destination outside the heap, or in a live allocation that is part of no space, is one the copy is right for |
| TaskCopy.CopyIsStep | kernel/task/task.c:176-210 | the whole copy is a step that no space sees |
| ProcessMemory.PagesAreBlocks | kernel/task/process/process.c:266 | the pages mapped for a size are as many as the blocks allocated for it, wrapping sizes included |
| ProcessMemory.FreeSlot | kernel/task/process/process.c:259-260 | the first slot not in use |
| ProcessMemory.RecordedMore | kernel/task/process/process.c:255-280 | a new allocation is none of those recorded, and every slot still names a live allocation of its size |
| ProcessMemory.OwnAddresses | kernel/task/process/process.c:266-269 | each byte of the allocation translates to itself, present, writable and open to users; each page outside it and each other space keeps its entries; an allocation that ends at 2^32 is not mapped at all |
| ProcessMemory.ProcessMalloc | kernel/task/process/process.c:255-280 | fills the first free slot and maps the pages of the result, those from address 0 when kzalloc failed; with no slot left nothing changes |
| Tasks.TaskList.Add | kernel/task/task.c:20-30 | appends: from head to tail the links list the live tasks in order of creation, `prev` undoes `next`, stale ends allowed |
| Tasks.TaskList.Delete | kernel/task/task.c:32-44 | the list is that of the other tasks exactly when the task was not the only one or its `next` was null; of the links only those of an inner task's neighbours change |
| Tasks.StaleHead | kernel/task/task.c:32-44 | two tasks added, the second deleted and then the first: the empty list keeps a head, and is no list |
| Processes.AddedKeeps | kernel/task/process/process.c:195-253 | adding a process in the first free pid keeps slots, tasks and creation order consistent |
| Processes.ExecKeeps | kernel/idt/__0x80/process/process.c:9-28 | EXEC, successful or not, keeps the invariant |
| Processes.ExitKeeps | kernel/idt/__0x80/process/process.c:30-34 | EXIT of a process other than the shell keeps it, with the shell in slot 0 and current |
| Processes.ExecRuns | kernel/idt/__0x80/process/process.c:9-28 | after a successful EXEC the new process, which no earlier one equals, has the lowest free of the 16 pids, a task at the end of the list, and is current and running; a failed one changes nothing |
| Processes.ExitToShell | kernel/idt/__0x80/process/process.c:30-34 | after EXIT the shell, in slot 0, is current and running; the process that exits is gone from table and list, and nothing else is |
| Processes.RunConsistent | kernel/idt/__0x80/process/process.c:9-34 | in every state of every run from boot the shell is in slot 0, the current process is in the table and is the one running, slots are distinct, and the task list is that of the processes in the table, in order of creation |
| Processes.ProcessTable.GetFreeProcessId | kernel/task/process/process.c:44-57 | the first free pid, or 65524 when there is none |
| Processes.FullTableUnnoticed | kernel/task/process/process.c:205-208 | the test for a full table never holds, as no 16-bit pid equals the negative error number, and the pid it lets through is no slot |
| Processes.ProcessTable.Boot | kernel/kernel.c:121-126 | the first process gets pid 0 and its task runs; when creating it fails, at whatever step, table and list stay empty |
| Processes.ProcessTable.ProcessNew | kernel/task/process/process.c:195-253 | takes the first free pid with a new last task, or fails at any of its steps with table and list as before |
| Processes.ProcessTable.Kill | kernel/task/process/process.c:313-343 | the slot is free and the task has left the list; all other processes keep theirs |
| Processes.ProcessTable.ExecSyscall | kernel/idt/__0x80/process/process.c:9-28 | refines EXEC; on success the current process and the current task are the new one's |
| Processes.ProcessTable.ExitSyscall | kernel/idt/__0x80/process/process.c:30-33 | refines EXIT: pid equals slot for every process, the current process and the current task are the shell's |
| ProcessSpaces.WorkKeeps | kernel/task/process/process.c:195-280 | whatever the kernel does between, and in one space, leaves the translations of all other spaces alone |
| ProcessSpaces.ExecKeepsSpaces | kernel/task/process/process.c:195-253 | EXEC changes no translation of any process or of the kernel; on success there is one new space, on failure there are the same |
| ProcessSpaces.ExitKeepsSpaces | kernel/task/process/process.c:313-343 | EXIT removes the address space of the process that exits, and no other translation changes |
| ProcessSpaces.WorkStepKeepsSpaces | kernel/idt/__0x80/mm/heap/heap.c:5-10 | so does the running process between the calls: it may map pages in its own space, and changes no other translation |
| ProcessSpaces.MallocIsWork | kernel/task/process/process.c:255-280 | a MALLOC call, whether memory was found or not, is such work |
| ProcessSpaces.StepIsolates | kernel/idt/__0x80/process/process.c:9-34 | no step of a run changes the translation of the kernel, or of a process other than the one that works |
| ProcessSpaces.SpacesFollowTasks | kernel/idt/__0x80/process/process.c:9-34 | in every state of every run of EXEC, EXIT and work of the processes in between, the live address spaces are the kernel's and one for each listed task, all different, and in the kernel's own every address translates to itself with write access |
| HeldBlocks.KzallocHolds | mm/heap/kheap.c:44-52 | kzalloc leaves every held allocation held; a result that is not null is held too, and is none of those |
| HeldBlocks.KzallocRoom | mm/heap/kheap.c:44-52 | it takes no more free blocks than the size rounds up to |
| HeldBlocks.KzallocFits | mm/heap/kheap.c:44-52 | on a heap that is free from some block on, a request that fits there succeeds, and the rest stays free |
| HeldBlocks.KfreeHolds | mm/heap/kheap.c:55-57 | what is held may be freed, all other allocations stay held, and a second kfree of it is allowed |
| HeldBlocks.KfreeGives | mm/heap/kheap.c:55-57 | the block at the freed address is free and live no more, as are those given back before, and one block more is free |
| HeldBlocks.CreatedHolds | mm/paging/paging.c:109-146 | creating a space leaves every held allocation held |
| HeldBlocks.CreatedFits | mm/paging/paging.c:109-146 | creating a space takes the lowest 1027 free blocks, so a heap that was free from some block on is free from 1027 blocks further on |
| HeldBlocks.DestroyedHolds | mm/paging/paging.c:148-160 | so does destroying one |
| HeldBlocks.DestroyedGives | mm/paging/paging.c:148-160 | destroying one gives back exactly 1026 blocks, and what was given back before stays free |
| Creation.OneOutcome | kernel/task/process/process.c:195-253 | the heap before and the file decide which step of process_new fails first, if any: no two of the outcomes' conditions hold together |
| Creation.EndsIs | kernel/task/process/process.c:195-253 | a final state that an outcome leads to exists only where the condition of that outcome holds |
| Creation.PlentySucceeds | kernel/task/process/process.c:195-253 | a flat binary, or a program with its segments inside its file, becomes a process on every heap that is free, from some block on, for the 20 blocks of process, stack and task, the loader's structure and the file, twice if it is a binary |
| Creation.LoadableHere | kernel/task/process/process.c:195-253 | a program that was created meets what the layout theorem asks, whatever blocks it got, if its headers are congruent to their offsets, inside the file and apart |
| ProcessLife.LoadData | kernel/task/process/process.c:108-125 | loads a file as a program, when it is one and there is memory, else as a flat binary, into new allocations; a failure gives back all it took |
| ProcessLife.CreateAndMap | kernel/task/process/process.c:226-243 | the space of a new task is the identity with the program's ranges and the stack mapped over it; success exactly when every range is accepted |
| ProcessLife.PrepareProcess | kernel/task/process/process.c:195-253 | the memory of process_new, for every file and heap: the outcome is that of the first step that fails, and the final state the one the calls up to there make, and what the code then frees is free; on success a new space with that layout and new allocations of its own; on failure the spaces and all held allocations are as they were, and only the loaded file stays allocated |
| Creation.EnoughBlocks | kernel/task/process/process.c:195-253 | a number of free blocks with which process_new has 1027 left when it comes to create the space, whatever else fails |
| ProcessLife.ProgramInPlace | kernel/task/process/process.c:137-193 | in that space every byte of a segment is the file's byte at its offset, writable exactly when bit 1 of its header's flags is set; the stack is the stack buffer, writable; every other address translates to itself, its page's entry or-ed with 5 |
| ProcessLife.ReleaseProcess | kernel/task/process/process.c:313-343 | the memory of process_kill: the first blocks of stack, file, task and process are free again, with the task freed twice; exactly 1026 blocks of the space and one for each allocation come back; every other allocation stays held |
| SystemCalls.GammaOS.Boot | kernel/kernel.c:87-126 | from a fresh heap to the first state of a run: the kernel's space, the identity, and the shell with its program laid out; it halts exactly when creating the shell ends otherwise than in success |
| SystemCalls.ShellSucceeds | kernel/kernel.c:94-126 | booting succeeds on every heap that is free, from some block on, for two spaces and the shell's allocations |
| SystemCalls.GammaOS.Exec | kernel/idt/__0x80/process/process.c:9-28 | in place on heap, memory, tables, process table and task list, is the EXEC step of those runs; SUCCESS exactly when no step of creating the process fails; then the current process's space has the file's program laid out and its task runs; else the state is that of the failed outcome, and what the code then frees is free |
| SystemCalls.GammaOS.Exit | kernel/idt/__0x80/process/process.c:30-34 | likewise the EXIT step: all allocations of the process are free again, one block for each and 1026 of its space come back, and the shell's task runs |
| SystemCalls.GammaOS.Malloc | kernel/idt/__0x80/mm/heap/heap.c:5-10 | likewise a step of work of the current process; null without a free slot, else what kzalloc returns, recorded with the size in the first free slot; unless that is null or ends at 2^32, its bytes are at their own addresses, present, writable and open to users, and every other page is as it was |
| Presence.RunPresent | mm/paging/paging.c:88-146 | in every state of a run whose spaces are created and whose pages are mapped with the present flag, as all callers do, every entry of every space's directory and tables has it |
| Presence.StepPresent | mm/paging/paging.c:88-146 | every such step keeps that |
| Disk.Stream.Read | drivers/disk/disk.c:73-107 | delivers exactly the n bytes at the position, moves it by n, and reads exactly (pos % 512 + n) / 512 + 1 consecutive sectors |
| Disk.NextSector | drivers/disk/disk.c:84-104 | the recursive rest of an overflowing read starts at the next sector and needs the remaining sectors, one past the end at a boundary |
| EntryPosition.EntryPosAgrees | fs/fat16/fat16.c:226-234 | in 32-bit arithmetic, the written table position is the meant one exactly for cluster 0 of a volume without reserved sectors |
| EntryPosition.NoOtherSolution | fs/fat16/fat16.c:229-234 | 1024 r c = 512 r + 2 c modulo 2^32 has no other solution in 16-bit numbers |
| Fat16.FollowNext | fs/fat16/fat16.c:252-278 | one more step along a chain is one more table entry, unless it is a stop mark |
| Fat16.FollowChain | fs/fat16/fat16.c:252-278 | along a chain the k-th step gives its k-th cluster |
| Fat16.FollowStops | fs/fat16/fat16.c:252-278 | a chain that has stopped gives no further cluster |
| Fat16.ByteOfContent | fs/fat16/fat16.c:287-317 | the byte of a file at an offset is that byte of its concatenated clusters, whatever mark follows them |
| Fat16.SpecGeometry | fs/fat16/fat16.c:168-191 | positions are those of the FAT specification for every parameter block: the root directory is rounded up to sectors, cluster 2 follows it |
| Fat16.ReceivedSlice | fs/fat16/fat16.c:287-317 | a read within the chain delivers exactly that slice of the concatenated clusters |
| Fat16Written.WrittenAgrees | fs/fat16/fat16.c:287-317 | for every read, the written one takes each byte from its meant place exactly when, for each piece, the cluster of its offset lies as many clusters behind the one looked up as the offset has clusters, and so does the next one if the piece runs into it |
| Fat16Written.ShortReadAgrees | fs/fat16/fat16.c:299-307 | for at most a cluster from inside the first one, that is exactly when the read stays there or the chain goes on with the next cluster of the disk |
| Fat16Written.SamePlacesSameBytes | fs/fat16/fat16.c:287-317 | where the places agree, the written read delivers what the meant one does |
| Fat16Written.WrittenReadsFirstCluster | fs/fat16/fat16.c:287-317 | inside the first cluster the written read is right, status included, whatever the chain after it |
| Fat16Written.WrittenReadFails | fs/fat16/fat16.c:299-307 | on the boot volume, from offset 1 over a cluster's length of a file in clusters 2 and 4, the last byte is wrong, and all the read asks for is on the disk |
| Fat16Written.WrittenNeverFails | fs/fat16/fat16.c:293-297 | the written status is always success, so it is right exactly when the chain reaches the offset |
| Fat16Written.MarkedFileReadable | boot/boot.s:24-36 | with the boot volume's parameters, every read inside a one-cluster file closed by 0xffff is within what the reader asks for, although the cluster 0xffff is nowhere |
| Fat16Written.MarksAgree | fs/fat16/fat16.c:255-273 | the code and the specification agree on an entry exactly when it is below 0xfff0 and none of five cluster numbers |
| Fat16Written.FollowAgrees | fs/fat16/fat16.c:252-278 | the code follows a chain as the specification does, for k steps, exactly when they agree on every entry on the way |
| Fat16Written.WrittenDriver.GetEntry | fs/fat16/fat16.c:226-243 | the two little-endian bytes at 1024 r c modulo 2^32 |
| Fat16Written.WrittenDriver.GetClusterFromOffset | fs/fat16/fat16.c:245-281 | the lookup over written positions; a failure is an unsigned word |
| Fat16Written.WrittenDriver.ReadFromDisk | fs/fat16/fat16.c:287-317 | the recursive read as it is written refines the written read of the lemmas above |
| Fat16.Driver.GetEntry | fs/fat16/fat16.c:226-243 | the two little-endian bytes at 512 r + 2 c, for r reserved sectors |
| Fat16.Driver.GetClusterFromOffset | fs/fat16/fat16.c:245-281 | the cluster that many steps along the chain, or an error when the chain stops before |
| Fat16.Driver.ReadFromDisk | fs/fat16/fat16.c:287-317 | as meant, for any offset, size and chain, cyclic or short: each byte the chain reaches is delivered, every other byte of the buffer stays; fails exactly when the chain stops before the offset |
| Fat16.Driver.ReadMembers | fs/fat16/fat16.c:552-580 | counts the members up to the first that starts past the chain's end; the buffer is that of one single read |
| Directory.TotalFiles | fs/fat16/fat16.c:142-166 | the number of entries before the first 0x00 that are not deleted; terminates when there is such an entry |
| Directory.SubdirectoryBit | fs/fat16/fat16.c:365 | an entry is a subdirectory exactly when bit 4 of its byte 11 is set |
| Directory.ClusterWord | fs/fat16/fat16.c:371 | its first cluster is the little-endian word at byte 26, or-ed with the one at byte 20 |
| Directory.LoadedAreLive | fs/fat16/fat16.c:354-394 | the first entries, as many as are live, are the live ones exactly when no live entry follows a deleted one |
| Directory.LoadedListing | fs/fat16/fat16.c:354-394 | so a loaded directory, of any number of clusters that follow one another on the disk, lists the live entries under exactly that condition |
| Directory.OneClusterContiguous | fs/fat16/fat16.c:245-281 | a directory that fits its first cluster is such a one |
| Directory.LoadDirectory | fs/fat16/fat16.c:354-394 | loads nothing for a file, an empty directory or without memory; else as many entries as are live, through the cluster chain |
| Names.LowerIsFold | string/string.c:34-38 | the odd tolower identifies exactly the pairs of upper- and lower-case letters, the codes 65 to 90 with those 32 above |
| Names.CompareIsFolded | string/string.c:40-52 | comparing two zeroed buffers to their ends is comparing their strings up to ASCII case |
| Names.TrimmedIs | fs/fat16/fat16.c:319-340 | a field counts up to its first 0x00 or 0x20 exactly |
| Names.Strncmp | string/string.c:40-52 | 0 exactly when all n bytes agree up to tolower; else the order of the first bytes that differ, as signed characters |
| Names.DecodedPadded | fs/fat16/fat16.c:319-352 | decoding inverts the padding with 0x20 of an 8-byte base and a 3-byte extension, with a dot between them when there is an extension |
| Names.DecodedDistinguishes | fs/fat16/fat16.c:342-352 | two entries without a dot in the base decode alike exactly when base and extension are alike |
| Names.ToProperString | fs/fat16/fat16.c:319-340 | appends the field up to its first NUL or space to the buffer's string |
| Names.GetFullRelativeName | fs/fat16/fat16.c:342-352 | the buffer holds the decoded name and zeros after it |
| Names.FindUnit | fs/fat16/fat16.c:437-456 | selects the last entry whose decoded name equals the unit up to case, none exactly when there is no such entry |
| Paths.UnitsOfJoined | fs/parser/parser.c:25-57 | splitting a joined list of units gives it back, but for one empty last unit |
| Paths.JoinedUnits | fs/parser/parser.c:25-57 | joining the units of a path gives it back, but for one trailing '/' |
| Paths.AfterUnit | fs/parser/parser.c:33-50 | taking a unit strictly shortens a path that is not empty |
| Paths.ParsePrinted | fs/parser/parser.c:59-109 | parsing a printed path gives drive and units back exactly when there is no unit or the last one is not empty, and every unit has less than 64 bytes, or has 64, is not the second one, and the byte behind its block's 64 is 0 |
| Paths.PrintParsed | fs/parser/parser.c:59-109 | printing an accepted path that starts like "C:/" gives it back, but for one trailing '/' |
| Paths.ParseRefuses | fs/parser/parser.c:59-81 | a path of up to 512 bytes is refused exactly when it has less than three or does not start with a letter 'A' to 'Z', which is the drive; a longer one halts; the units start at the fourth byte |
| Paths.SecondUnitHalts | fs/parser/parser.c:25-57 | whatever memory held, a path whose second unit has 64 bytes halts the kernel |
| Paths.HaltingPath | fs/parser/parser.c:25-57 | "C:/a/" and 64 times 'b' is such a path, though its units come back when it is split |
| PathParser.CopyComesBack | mm/heap/kheap.c:44-57 | the block of the second unit is the one of the first copy of the path, just freed; later units get blocks that are none of those of the first call |
| PathParser.UnitLength | string/string.c:11-18 | strlen of a unit's block is above 64 exactly when the unit is longer than 64, or has 64 and the byte behind is not 0 |
| PathParser.GetUnitAndAdvance | fs/parser/parser.c:25-57 | returns the first unit in a block whose first 64 bytes were zeroed, and leaves the rest in place at the start of the buffer; none at the end; halts exactly on a unit over 64 bytes, or of 64 with a stale byte behind |
| PathParser.ParsePath | fs/parser/parser.c:59-109 | halts, refuses or builds a linked list of exactly the path's units, for every path and whatever memory held |
| PathWalk.FromDiskIs | fs/fat16/fat16.c:354-394 | what loading a directory gives is determined by the disk |
| PathWalk.FolderListed | fs/fat16/fat16.c:354-394 | a directory whose clusters follow one another on the disk loads as exactly its live entries, in order, if and only if no live entry follows a deleted one |
| PathWalk.FolderContent | fs/fat16/fat16.c:354-394 | along any chain, entry i of a loaded directory is bytes 32 i to 32 i + 32 of the chain's contents |
| PathWalk.GetUnit | fs/fat16/fat16.c:458-484 | the walk along the parser's list, loading one directory after the other from the disk, refines its specification, null units and paths without units included |
| PathWalk.Open | fs/fat16/fat16.c:534-551 | parsing a path and walking its list: the kernel halts, finds no path, or ends where the path's units lead |
| PathWalk.ResolvedIsLed | fs/fat16/fat16.c:458-484 | whatever loading gives, cyclic directories included: where no directory on the way has two entries of equal names, a path finds an entry exactly when its names, up to case, lead there |
| PathWalk.ResolvedFaults | fs/fat16/fat16.c:458-484 | from the root: missing when the root lacks the first name, or there is no name and no entry; a null read without names in a root with entries, or when the walk is stuck below the last entry of the first name, and only then |
| PathWalk.OpenedByPrintedPath | fs/fat16/fat16.c:458-484 | parsing the printed path of any such entry whose names fit, and walking it, finds that entry |
| PathWalk.FaultsWhenStuck | fs/fat16/fat16.c:470-480 | the walk reads through a null pointer exactly when it enters a directory that loads as null, or lacks a unit with more to follow |
| PathWalk.EmptyFolderFaults | fs/fat16/fat16.c:354-394 | a volume with an empty subdirectory, and a path of two units into it that reads through a null pointer |
| Keyboard.PushKeeps | drivers/keyboard/keyboard.c:56-63 | with room, a push appends its character to the queue and all other cells stay zero |
| Keyboard.PopKeeps | drivers/keyboard/keyboard.c:42-54 | a pop returns and removes the oldest character, and returns 0 exactly when none is pending |
| Keyboard.FullLosesOldest | drivers/keyboard/keyboard.c:56-63 | after a push the next pop is right exactly when the ring was not full, the push was of 0, or it repeated the oldest character |
| Keyboard.RingIsQueue | drivers/keyboard/keyboard.c:42-63 | over every run with at most 1024 pending the ring answers like a first-in first-out queue, and still represents it at the end |
| Keyboard.NothingLost | drivers/keyboard/keyboard.c:42-63 | on that queue every character pushed is returned once, in order, or still pending |
| Keyboard.KeyboardBuffer.Push | drivers/keyboard/keyboard.c:56-63 | refines the push on rings |
| Keyboard.KeyboardBuffer.Pop | drivers/keyboard/keyboard.c:42-54 | refines the pop on rings |

## Left out

- KernelPaging.Kernel.NewPageDirectory: needs 1027 free blocks before the space is begun, because the code checks no allocation in it for failure.
- KernelPaging.Kernel.CreateSpace: needs them too.
- Processes.ProcessTable.ProcessNew: needs a free pid, because without one the code stores outside the process table; where creating a process stops is a parameter, which `ProcessLife.PrepareProcess` computes.
- KernelPaging.Kernel.VirtToPhy: takes an aligned address, because for others the code reads indices it has not set.
- Processes.ProcessTable.ExecSyscall: states the process table and the task list; with memory and address spaces it is `SystemCalls.GammaOS.Exec`.
- Processes.ProcessTable.ExitSyscall: states the process table and the task list, of a process other than the shell: after the shell's own exit the code reads its slot through a null pointer. With memory and address spaces it is `SystemCalls.GammaOS.Exit`.
- SystemCalls.GammaOS.Exit: takes a process other than the shell, for the same reason.
- Processes.ProcessTable.Kill: takes the current process, the only one the code kills; its kfree calls are in `ProcessLife.ReleaseProcess`. The task object stays an object here, so its address is not used again.
- SystemCalls.GammaOS.Exec: needs a free pid, and 1027 free blocks if it comes to create the space, for the reason given above; does the memory of a new process before its entries in table and list, which share no state; takes as a parameter what opening, reading and checking the file comes to, and not its bytes. The copy of the file name is `TaskCopy.CopyFromTask`.
- SystemCalls.GammaOS.Boot: needs these free blocks for both spaces; the heap's creation is `Heap.Heap.Create`.
- SystemCalls.GammaOS.Malloc: takes the allocation slots of the process as an object of their own.
- TaskCopy.Translate: does not look at the present bits by itself; `Presence.RunPresent` shows that they are set.
- Fat16.Driver.ReadFromDisk: is the meant read; the written one is `Fat16Written.WrittenDriver.ReadFromDisk`.
- Fat16.Driver.GetEntry: is the meant lookup; the written one is `Fat16Written.WrittenDriver.GetEntry`.
- Fat16.Driver.GetClusterFromOffset: is the meant lookup; the written one is `Fat16Written.WrittenDriver.GetClusterFromOffset`.
- PathWalk.GetUnit: loads a directory when the walk goes into it, not when it is found, and with memory for it.
- PathParser.ParsePath: takes what memory held behind the blocks it asks for as a parameter, up to some NUL; the block of the second unit is computed, as `PathParser.CopyComesBack` shows.
- TaskCopy.CopyFromTask: takes a destination that is in no page of an address space and in no free block of the heap; the kernel's own tables are no buffers. It does not say which bytes arrive when the source is read through the borrowed page, its frame or its entry; the count, the restored entries and the heap are still stated.
- Loader.ProcessMapMemory: takes the program headers as a sequence; reading and validating the ELF header is not part of this model.
- Keyboard.KeyboardBuffer.Push: needs counters below 2^31, where the code's signed counters would overflow.
- process_free: its page count divides by the allocation's size, and what freed pages should map to is not decided by the code.
- next_task and round-robin scheduling: nothing calls them.
- File descriptors, seek and stat, the VFS dispatch and reading the root directory at mount time: thin layers over the reader.
- Root directory geometry is taken from the parameter block fields; checking the volume's signature is not modelled.
- CR3 loads, the registers a task starts with, segments, the GDT, interrupts and all assembly: hardware effects. The active address space of a copy is a parameter.
- ATA port input and output: the disk is an image of bytes, and every sector of it can be read.
- VGA output, scan codes, the shell and user programs: user interface.
- memset and memcpy loops outside page tables are single assignments of the bytes.
