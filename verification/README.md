# A verified model of the kernel's storage, loading and event layers

This project models the parts of a small embedded kernel that manage memory, files, programs and
events, and proves what they keep over whole runs.

- **Heap.** A first-fit allocator over a bitmap of 32-bit words with headers inside the blocks. The
  bitmap words are refined to a sequence of units, the word-skipping search is compared with a plain
  scan, and every run of requests, returns and client writes is shown to keep live blocks apart, or to
  break exactly when one step does something stated. A pool of equal-sized objects sits on top.
- **Clients of the heap.** A request is *clean* when the search, as it is written, answers it as the
  intended search would; this is a condition on the bitmap and the size before the call. File nodes
  and block tables are proved to keep live blocks of their own over a run exactly when the run's requests
  are clean; mounts, VMs and tasks do after a clean request. With the repaired search every request is
  clean, short of a block table whose size wraps.
- **Storage.** A RAM disk, and two file systems on it. Over clean runs the second file system is proved to
  be a map from names to bytes, with an exact account of the device blocks and heap blocks it leaks; the
  first is proved to be one under the discipline it needs, with the law that says when its extents overlap.
- **Programs.** The two-pass assembler, the image it writes, the loader that checks and starts an image,
  and the way the virtual machine decodes what the assembler encoded.
- **Events.** The queue between producers and the dispatcher, first on values, then with entries in heap
  blocks that are returned and handed out again. Each heap call, each region with interrupts off and each
  stretch between them is one step, and any tasks' steps interleave.

Each component that changes state has a value-level model (`..._model.dfy`, `search.dfy`, `pool.dfy`'s
`PoolModel`), and a class whose methods update arrays, fields and links in place and are proved to
compute exactly that model. Laws over runs are lemmas about the model.

The code does not always do what it is evidently meant to do. The model follows the code. Where a
property fails, there is a lemma with the exact condition under which it holds, and where one line
would repair it the repaired form is a `Variant`: `WithReset` for the search (`count` set to 0 when a
full word is skipped), `EntryCleared` for the dispatcher (`entry` set to NULL in each iteration).

Words are integers with their bounds in the type; wrap-around, shifts, masks and truncations are
written out in `words.dfy`.

## Where the code departs from its documentation or intent

- The search does not reset its count over a full word, so a window may cover used units
  (`kernel/memory/mem_alloc.c:61-62`); five calls after `mem_init` suffice, and so do a mount and seven
  file operations, after which two files' nodes lie over each other.
- `ramfs2` drops a file's old blocks and its old block table at each write, and keeps the old count when a
  write is refused (`kernel/fs/ramfs2/ramfs2.c:153-159`); the size of the table wraps at 2^32.
- A mount or a pool initialisation whose second request is refused keeps the first one's block
  (`kernel/fs/ramfs2/ramfs2.c:108-116`, `kernel/memory/mem_pool.c:40-48`), a format keeps every node
  (`kernel/fs/ramfs/ramfs.c:112-117`), and rename takes any new name (`kernel/fs/ramfs/ramfs.c:194-200`).
- `ramfs` fixes a file's first block at its creation, but moves its counter only at writes
  (`kernel/fs/ramfs/ramfs.c:126`, `kernel/fs/ramfs/ramfs.c:151`).
- Both file systems return 0 from a successful read or write, not the byte count that `kernel/fs/fs.h:56`
  and `kernel/fs/fs.h:66` promise; `ramfs2` reads and writes whole blocks whatever length is asked for.
- The dispatcher does not clear its entry, so a drained queue repeats the last event
  (`kernel/event/event.c:41-53`), reads and frees a block it no longer holds, and an entry that is given that
  block can end up linked to itself.
- The capacity of a handler row is tested before the critical section that uses it
  (`kernel/event/event.c:75-77`), so two registrations can leave nine handlers in a row of eight.
- `LOAD rd, off(base)` reads the base with its closing parenthesis, so every name but `r` and a number becomes
  register 0 (`asm/vm_asm.c:79-82`).
- A `ramfs` write past the end of the device returns 0 and loses its blocks (`kernel/fs/ramfs/ramfs.c:144-152`).
- The assembler lays the high byte of an immediate over the register byte (`asm/vm_asm.c:112`), while the
  opcode list promises a 16-bit immediate next to the register (`kernel/vm/opcodes.h:41-46`).
- Branch offsets are counted from the next instruction (`asm/vm_asm.c:102`) and added to the current one
  (`kernel/vm/vm_core.c:221-232`).
- `le32_to_host` swaps bytes on every CPU, whatever its comment says (`kernel/loader/app_loader.c:23-35`).
- A load that fails with -7 keeps the VM's memory: `vm_destroy` only marks a VM whose reference count is
  still 1 (`kernel/loader/app_loader.c:115-118`).
- The shown board asks for a RAM disk of 524288 bytes in a heap of 262144
  (`arch/mips/pic32mz2048efm144.h:25-27`), so sizes are parameters everywhere.

## Main results

- The heap: `Search.WrittenSearchIsSqueezedFit`, `Search.ResetSearchIsFirstFit`, `HeapModel.RunKeepsIff`,
  `HeapModel.OverlapReachable`, `HeapClients.ServeKeeps`.
- The pool: `PoolModel.RunKeeps`, `PoolModel.FreeExactly`, `MemPool.ObjectsAndBitmapApart`.
- ramfs2: `Ramfs2System.RunOwnsIff`, `Ramfs2System.RoomyRunIsPlainMap`, `Ramfs2System.RunLeaks`,
  `Ramfs2Heap.CreateWriteRemoveIsNeutral`, `Ramfs2Overlap.NodeOverNode`, `Ramfs2Results.WriteStaysInsideIff`.
- ramfs: `RamfsHeap.RunOwnsIff`, `RamfsExtents.ExtentsDisjointIff`, `RamfsHeap.DisciplinedRunIsSafe`,
  `RamfsNames.RenameReads`, `RamfsOverlap.NameOverName`.
- Events: `EventMemory.RunSoundIff`, `EventMemory.TriggerCarried`, `EventMemory.RunRefines`,
  `EventMemory.ClearedRunDispatchesInOrder`, `EventMemory.InterruptedTriggerLinksToItself`,
  `EventModel.DispatchedOnceIff`, `EventRegister.RunReservedIff`.
- Programs: `AsmProofs.JumpReachesLabel`, `AsmDirectives.RamSizeField`, `AsmDirectives.ConstantMeans`,
  `HeaderChecks.ImageLoads`, `VmDecode.LoadedJumpReachesLabel`, `VmDecode.LoadedBranchMissesLabel`,
  `VmDecode.LoadLineAgreesIff`, `LoaderModel.RefusalByBytes`, `LoaderModel.LoadOutcome`, `LoaderModel.LoadOwns`.

The other rows below are the methods proved against the models, the steps of these results, and facts that
follow from the definitions alone (such as `HeapModel.InitialInv`, `Ramfs2System.MountIsGood`,
`RamfsRuns.MountIsSafe`, `RamfsHeap.CreateAndRemoveKeepNames`, most of `AsmLines` and the `ReturnsPromisedIff`
lemmas), which say where a run may start, what a line of source means, or what a caller may expect.

## Model

The rows of `VmDecode` and of the functions behind the loader cite the assembler or loader lines they
answer to. What they model of the virtual machine and the scheduler: `Loader.Kernel.VmCreate` and
`LoaderModel.VmHeap` are `kernel/vm/vm_core.c:28-64`, `VmDestroy` is `kernel/vm/vm_core.c:97-107`,
`TaskCreate` and `LoaderModel.TaskHeap` are `kernel/scheduler/scheduler.c:49-83`, the header layout is
`kernel/vm/vm_types.h:104-113`, and `VmDecode.Decode`, the operand lemmas and `VmDecode.NextPc` are
`kernel/vm/vm_core.c:123-128`, `kernel/vm/vm_core.c:135-197` and `kernel/vm/vm_core.c:221-264`.

| member | source | states |
|---|---|---|
| Search.Window | kernel/memory/mem_alloc.c:54-89 | the window a search returns lies in the heap, starts at a free unit, and each of its units is free or in a full word; with the reset all are free |
| Search.Complete | kernel/memory/mem_alloc.c:54-89 | either search fails only if nothing fits, and never starts later than any place that fits |
| Search.ResetSearchIsFirstFit | kernel/memory/mem_alloc.c:54-89 | with the reset, the word-skipping search is the bit-by-bit first-fit scan |
| Search.WindowFreeIffNoFullWordInside | kernel/memory/mem_alloc.c:61-62 | as written, the window is all free if and only if no full word begins strictly inside it |
| Search.SearchesAgreeIff | kernel/memory/mem_alloc.c:54-89 | the written and the intended search agree exactly when the written one fails or spans no full word |
| Search.WrittenSearchIsSqueezedFit | kernel/memory/mem_alloc.c:54-89 | as written, the search is the plain first fit over the bitmap with its full words taken out |
| Search.TooLargeRefused | kernel/memory/mem_alloc.c:68-69 | more units than the heap has are refused |
| Search.NothingForNothing | kernel/memory/mem_alloc.c:78-79 | a request whose unit count wrapped to 0 is never granted |
| Words.SetBit | kernel/memory/mem_alloc.c:30-33 | exactly one more bit of the word is set |
| Words.ClearBit | kernel/memory/mem_alloc.c:35-38 | exactly one bit of the word is cleared |
| Bitmap.FullWordAt | kernel/memory/mem_alloc.c:61 | a word equals 0xFFFFFFFF exactly when its 32 units are used |
| Bitmap.BitGet | kernel/memory/mem_alloc.c:25-28 | the word at index / 32 divided by two to the index mod 32 is odd, which is what shifting and masking it tell |
| Bitmap.BitSet | kernel/memory/mem_alloc.c:30-33 | the bit of the index is set, every other keeps its value |
| Bitmap.BitClear | kernel/memory/mem_alloc.c:35-38 | the bit of the index is cleared, every other keeps its value |
| MemAlloc.MemHeap.MemInit | kernel/memory/mem_alloc.c:44-48 | no unit is used, the heap bytes stay |
| MemAlloc.MemHeap.FindFreeUnits | kernel/memory/mem_alloc.c:54-89 | the loop over words computes the search on units |
| MemAlloc.MemHeap.MemAlloc | kernel/memory/mem_alloc.c:95-118 | bitmap words and heap bytes end as the model's request says, with its pointer |
| MemAlloc.MemHeap.MemFree | kernel/memory/mem_alloc.c:124-140 | bitmap words and heap bytes end as the model's return says, also for a header without the magic |
| MemAlloc.MemHeap.MemFreeSpace | kernel/memory/mem_alloc.c:146-157 | the number of free units times the unit size |
| HeapModel.GrantedIff | kernel/memory/mem_alloc.c:95-107 | with the reset, a request is granted exactly when it is not empty, its units did not wrap to 0, and they fit somewhere |
| HeapModel.CleanIffSameAnswer | kernel/memory/mem_alloc.c:54-89 | a request is clean (judged from the bitmap and the size alone) exactly when the search answers as the intended one |
| HeapModel.CleanWindowFits | kernel/memory/mem_alloc.c:54-110 | a request that finds a window is clean exactly when all units of the window are free |
| HeapModel.StepKeepsIff | kernel/memory/mem_alloc.c:95-140 | a step keeps "used units are the disjoint union of the live blocks and every header is intact" if and only if it is not an unclean request |
| HeapModel.RunKeepsIff | kernel/memory/mem_alloc.c:54-140 | over every run, that invariant holds throughout if and only if every step is such |
| HeapModel.ResetRunKeeps | kernel/memory/mem_alloc.c:54-140 | with the reset, every run keeps it |
| HeapModel.AllocateKeepsIff | kernel/memory/mem_alloc.c:95-118 | the same equivalence for one request |
| HeapModel.InitialInv | kernel/memory/mem_alloc.c:44-48 | it holds after `mem_init` |
| HeapModel.PayloadFits | kernel/memory/mem_alloc.c:100-102 | the payload lies inside its block if and only if adding the header did not wrap |
| HeapModel.UnitsAreLeast | kernel/memory/mem_alloc.c:100-102 | a request takes the least number of units that hold header and payload, short of the sizes that wrap |
| HeapModel.HeaderWritten | kernel/memory/mem_alloc.c:112-117 | the four bytes before a granted pointer are the magic number and the number of units, lower byte first; no other byte of the heap changes |
| HeapModel.PayloadsStayApart | kernel/memory/mem_alloc.c:95-140 | in every clean run the payloads of two live blocks are disjoint, inside the heap and clear of each other's headers |
| HeapModel.OverlapReachable | kernel/memory/mem_alloc.c:61-62 | as written, five calls on any heap of 96 units give two live blocks a common unit |
| HeapModel.Conservation | kernel/memory/mem_alloc.c:146-157 | free units and units of live blocks add up to the heap |
| HeapModel.ReleasingAllEmpties | kernel/memory/mem_alloc.c:124-140 | returning all live blocks in any order leaves no unit used |
| HeapModel.SecondReleaseChangesNothing | kernel/memory/mem_alloc.c:131-139 | returning a block again, before its first unit is used again, changes nothing |
| HeapModel.TakeAndReturn | kernel/memory/mem_alloc.c:95-140 | taking and returning a block restores the bitmap if and only if its window was free |
| HeapModel.TakeTwoAndReturn | kernel/memory/mem_alloc.c:95-140 | taking two blocks and returning them in reverse order restores the bitmap if and only if both windows were free before the first was taken |
| HeapModel.AllocFreeable | kernel/memory/mem_alloc.c:112-117 | a granted pointer can be returned, and earlier ones still can |
| HeapModel.FreeFreeable | kernel/memory/mem_alloc.c:124-140 | after a return, other pointers can still be returned |
| HeapClients.GrantKeepsIff | kernel/memory/mem_alloc.c:95-118 | a granted block joins the live ones, apart from all of them, exactly when the request was clean |
| HeapClients.UncleanGrantOverlaps | kernel/memory/mem_alloc.c:61-62 | a granted request that is not clean shares a unit with a live block |
| HeapClients.ServeFills | kernel/memory/mem_alloc.c:95-118 | clean requests one after the other are granted as long as there is room, each at its first fit |
| HeapClients.ServeKeeps | kernel/memory/mem_alloc.c:95-118 | and their blocks join the live ones, all apart |
| HeapClients.ServeRestoresIff | kernel/memory/mem_alloc.c:95-118 | clean requests of which nothing is returned leave the bitmap as it was exactly when the first is refused |
| HeapClients.PayloadsApart | kernel/memory/mem_alloc.c:95-140 | the payloads of two live blocks share no byte, with each other or with a header |
| HeapClients.WriteKeeps | kernel/memory/mem_alloc.c:95-118 | writing any byte of one's own payload keeps every header and every block |
| PoolModel.ObjectsApart | kernel/memory/mem_pool.c:73-75 | object ranges are disjoint and inside the pool |
| PoolModel.ObjectsInsideIffNoWrap | kernel/memory/mem_pool.c:38 | all objects lie in the memory obtained if and only if the size product did not wrap |
| PoolModel.FreeExactly | kernel/memory/mem_pool.c:86-99 | a pointer anywhere in an object frees that object only; any other pointer frees none |
| PoolModel.FreeIndexOutside | kernel/memory/mem_pool.c:93-96 | a pointer below or above the pool is rejected although the division is unsigned |
| PoolModel.AllocExactly | kernel/memory/mem_pool.c:62-80 | NULL if and only if all are live; otherwise the first dead object becomes live and no other changes |
| PoolModel.FreeUndoesAlloc | kernel/memory/mem_pool.c:62-99 | returning any pointer into the object just obtained restores the pool |
| PoolModel.RunKeeps | kernel/memory/mem_pool.c:62-119 | over every run set bits are the objects held, and free plus held objects make the capacity |
| MemPool.GrantedPoolInsideIff | kernel/memory/mem_pool.c:38-43 | the objects of a granted pool lie inside the heap if and only if count times size is at most 2^32 - 4, and then the pool is valid |
| MemPool.Pool.Init | kernel/memory/mem_pool.c:27-56 | which requests are made of the heap, when it succeeds, and the empty pool then, with a bitmap of as many words as the memory asked for it holds, at the address granted; a refused bitmap leaves the objects allocated |
| MemPool.BitmapHoldsObjects | kernel/memory/mem_pool.c:45-47 | the memory asked for the bitmap is four bytes for every 32 objects begun, and the word of each object lies in it |
| MemPool.PoolOwns | kernel/memory/mem_pool.c:38-48 | when both requests are granted and were clean, the objects and the bitmap are two live blocks of their own, with room for all words of the bitmap, and for all objects if their size did not wrap |
| MemPool.ObjectsAndBitmapApart | kernel/memory/mem_pool.c:38-56 | and then no byte of the objects lies in the bitmap or in a header, and no bitmap word in an object or a header |
| MemPool.FailedInitRestoresIff | kernel/memory/mem_pool.c:38-48 | under clean requests, initialisation succeeds exactly when there is room for both, and leaves the bitmap as it was exactly when there is none for the objects; a refused bitmap keeps them |
| MemPool.Pool.Alloc | kernel/memory/mem_pool.c:62-80 | the bitmap words end as the model says, with its pointer |
| MemPool.Pool.Free | kernel/memory/mem_pool.c:86-99 | the bitmap words end as the model says |
| MemPool.Pool.FreeCount | kernel/memory/mem_pool.c:105-119 | the number of clear bits below the capacity |
| DiskModel.SpliceIsWriteBlock | drivers/storage/ram/storage_ram.c:57-66 | bytes copied into the buffer at a block's place change that block and no other |
| RamDisk.RamDisk.Write | drivers/storage/ram/storage_ram.c:57-66 | exactly the block's leading bytes change; a block or length out of range is refused and changes nothing |
| RamDisk.RamDisk.Read | drivers/storage/ram/storage_ram.c:46-55 | exactly the block's leading bytes are delivered, or an error and an untouched buffer |
| RamDisk.RamInit | drivers/storage/ram/storage_ram.c:20-33 | the heap after both requests, NULL exactly when one is refused, and the device otherwise |
| RamDisk.InitOwns | drivers/storage/ram/storage_ram.c:20-33 | after clean requests a context of 4 bytes and a buffer of the size asked for are live blocks of their own at the two addresses granted |
| RamDisk.RefusedInitRestoresIff | drivers/storage/ram/storage_ram.c:24-28 | of either search: a refused initialisation leaves the bitmap as it was if and only if the request for the context was clean |
| RamDisk.DeinitUndoesInitIff | drivers/storage/ram/storage_ram.c:35-44 | of either search: deinitialising right after initialising restores the bitmap if and only if both windows were free |
| RamDisk.ShownDiskNeverFits | arch/mips/pic32mz2048efm144.h:25-27 | with the shown board's constants the RAM disk can never be initialised |
| FileList.List.Find | kernel/fs/ramfs2/ramfs2.c:74-81 | the first node with the name, or NULL |
| FileList.List.Remove | kernel/fs/ramfs2/ramfs2.c:184-203 | the first node with the name is unlinked, all others keep their order |
| FileList.List.Prepend | kernel/fs/ramfs2/ramfs2.c:136-137 | a node becomes the head of an acyclic list |
| CStrings.StrEq | kernel/fs/ramfs/ramfs.c:59-66 | true exactly when both strings up to their terminators are equal |
| CStrings.StrCopy | kernel/fs/ramfs/ramfs.c:74-81 | the field holds the string padded with zeros, bytes beyond it stay |
| CStrings.StoredNameTerminatedIff | kernel/fs/ramfs/ramfs.c:124 | a copied name is terminated if and only if it is shorter than its field, and then it is that name |
| Ramfs2.RamFs2.AllocBlock | kernel/fs/ramfs2/ramfs2.c:92-100 | the first free block is marked, or -1 and nothing changes |
| Ramfs2.RamFs2.Create | kernel/fs/ramfs2/ramfs2.c:124-139 | list, block map, device and heap end as the model says |
| Ramfs2.RamFs2.Write | kernel/fs/ramfs2/ramfs2.c:141-165 | the same for a write, including refused and cut-short ones |
| Ramfs2.RamFs2.Read | kernel/fs/ramfs2/ramfs2.c:167-182 | the file's blocks are laid at the start of the memory pointed to, whatever length was asked; nothing else changes |
| Ramfs2.RamFs2.Remove | kernel/fs/ramfs2/ramfs2.c:184-203 | the same for a removal |
| Ramfs2.Mount | kernel/fs/ramfs2/ramfs2.c:106-122 | the heap after both requests and the empty file system; a refused block map leaves the context allocated |
| Ramfs2Refinement.FillTakes | kernel/fs/ramfs2/ramfs2.c:157-162 | the write loop takes free blocks only, each once, and marks no other |
| Ramfs2Refinement.FillTakesLowest | kernel/fs/ramfs2/ramfs2.c:92-100 | and they are the lowest free ones, in ascending order |
| Ramfs2Refinement.FillStores | kernel/fs/ramfs2/ramfs2.c:157-162 | chunk i of the buffer ends up in the i-th block taken, no other block changes |
| Ramfs2Refinement.FillCount | kernel/fs/ramfs2/ramfs2.c:157-162 | the loop takes as many blocks as needed or as are free, whichever is less |
| Ramfs2Refinement.FillStopsWhenFull | kernel/fs/ramfs2/ramfs2.c:158-159 | it stops short only when no block is free |
| Ramfs2Refinement.WriteSucceedsIff | kernel/fs/ramfs2/ramfs2.c:153-164 | a write succeeds if and only if the heap grants its table and enough blocks are free |
| Ramfs2Refinement.RemoveKeeps | kernel/fs/ramfs2/ramfs2.c:184-203 | a removal keeps the invariant of the block lists |
| Ramfs2Runs.RoomSuffices | kernel/fs/ramfs2/ramfs2.c:124-165 | with heap and free blocks enough before the call, neither a create nor a write fails |
| Ramfs2Runs.UsedIsOwnedOrLeaked | kernel/fs/ramfs2/ramfs2.c:92-100 | a used block is owned by one file, at one place, or leaked, and not both |
| Ramfs2Heap.StepOwnsIff | kernel/fs/ramfs2/ramfs2.c:124-203 | after an operation the nodes, the current tables and the dropped tables are still live blocks of their own, every table large enough for its entries, if and only if the operation is clean; the table a write replaces goes astray |
| Ramfs2Heap.WriteOwnsIff | kernel/fs/ramfs2/ramfs2.c:153-165 | the same equivalence for a write |
| Ramfs2Heap.CleanWrite | kernel/fs/ramfs2/ramfs2.c:141-165 | a clean write, complete, refused or cut short, changes only its own file, blocks that were free, and their marks; what the file holds then is told by its outcome; every node and table keeps its own block |
| Ramfs2Heap.StepLeaks | kernel/fs/ramfs2/ramfs2.c:153-155 | by a clean operation the leaked device blocks grow by exactly the previous list of a file being written, and the stray heap blocks by its table |
| Ramfs2Heap.CreateWriteRemoveIsNeutral | kernel/fs/ramfs2/ramfs2.c:124-203 | create, one successful write and remove, all clean, restore the list, the block map, the heap's bitmap and its live blocks |
| Ramfs2Heap.TableHoldsIff | kernel/fs/ramfs2/ramfs2.c:153 | a granted block table lies with all its entries inside its block if and only if four times its count is below 2^32 |
| Ramfs2Heap.OneByteBlocksLoseTable | kernel/fs/ramfs2/ramfs2.c:151-153 | with blocks of one byte, 2^30 + 1 bytes are given a table of one entry |
| Ramfs2System.MountIsGood | kernel/fs/ramfs2/ramfs2.c:106-122 | a fresh mount satisfies the invariant, stands for the empty map and has leaked nothing |
| Ramfs2System.MountOwns | kernel/fs/ramfs2/ramfs2.c:106-122 | a clean mount adds its context and its block map, at the addresses granted, to the live blocks of the heap |
| Ramfs2System.FailedMountRestoresIff | kernel/fs/ramfs2/ramfs2.c:108-116 | under clean requests, a mount succeeds exactly when there is room for both, and leaves the bitmap as it was exactly when there is none for the context |
| Ramfs2System.RunOwnsIff | kernel/fs/ramfs2/ramfs2.c:106-203 | over every run, of either search, the files' heap objects stay live blocks of their own throughout if and only if every operation is clean |
| Ramfs2System.ResetRunIsClean | kernel/memory/mem_alloc.c:54-89 | with the reset every run is clean whose block tables are smaller than 2^32 bytes |
| Ramfs2System.ObjectsApart | kernel/fs/ramfs2/ramfs2.c:26-48 | in such a state no byte belongs to two nodes, tables, contexts or maps, nor to one of them and a header |
| Ramfs2System.ObjectWriteKeeps | kernel/fs/ramfs2/ramfs2.c:131-163 | writing a field of a node or an entry of a table touches no other object |
| Ramfs2System.RunRefines | kernel/fs/ramfs2/ramfs2.c:106-203 | in every clean run each operation, failures included, is a step of the map from names to bytes, and every heap object keeps its own block |
| Ramfs2System.RoomyRunIsPlainMap | kernel/fs/ramfs2/ramfs2.c:106-203 | with room before each call, every clean run is a plain map: a read delivers first the bytes last written to its name |
| Ramfs2System.RunLeaks | kernel/fs/ramfs2/ramfs2.c:153-155 | over a clean run the leaked device blocks are exactly those some write dropped, and the stray heap blocks those from the start and the tables of the same writes |
| Ramfs2System.CleanRunOwns | kernel/fs/ramfs2/ramfs2.c:153-155 | over a clean run the heap blocks that belong to no file are exactly those from the start and the tables some write dropped |
| Ramfs2Overlap.NodeOverNode | kernel/memory/mem_alloc.c:61-62 | as written: after mount and seven successful calls the node of one file lies over the node of another that is still in the list; only the last request is unclean |
| Ramfs2Results.ReadStaysInsideIff | kernel/fs/ramfs2/ramfs2.c:179-181 | a read leaves all memory beyond the length asked for alone if and only if the file's blocks hold no more than that |
| Ramfs2Results.OneByteTouches32 | kernel/fs/ramfs2/ramfs2.c:179-181 | one byte written with blocks of 32 bytes: reading one byte back touches 32 |
| Ramfs2Results.WriteStaysInsideIff | kernel/fs/ramfs2/ramfs2.c:157-162 | a successful write depends on no byte beyond the length given if and only if its blocks hold no more than that |
| Ramfs2Results.WriteLeavesIntactIff | kernel/fs/ramfs2/ramfs2.c:153-159 | after a write the block table is complete if and only if the write succeeded, or was refused a table for a file that counts no blocks |
| Ramfs2Results.WriteSetsSizeIff | kernel/fs/ramfs2/ramfs2.c:153-165 | the size of a file becomes the length written if the write succeeds, and otherwise stays |
| Ramfs2Results.ReadReturnsPromisedIff | kernel/fs/fs.h:55-56 | the value of a read is the promised count if and only if there is no file or nothing to read |
| Ramfs2Results.WriteReturnsPromisedIff | kernel/fs/fs.h:65-66 | the value of a write is the promised count or -1 if and only if the write fails |
| Ramfs.RamFs.Format | kernel/fs/ramfs/ramfs.c:112-117 | no files, counter 0, heap untouched |
| Ramfs.RamFs.Create | kernel/fs/ramfs/ramfs.c:119-130 | list, counter, device and heap end as the model says |
| Ramfs.RamFs.Write | kernel/fs/ramfs/ramfs.c:132-153 | the same for a write, block by block |
| Ramfs.RamFs.Read | kernel/fs/ramfs/ramfs.c:155-175 | the caller's buffer ends as the model says; nothing else changes |
| Ramfs.RamFs.Remove | kernel/fs/ramfs/ramfs.c:177-192 | the same for a removal |
| Ramfs.RamFs.Rename | kernel/fs/ramfs/ramfs.c:194-200 | the first file with the old name gets the new one, taken or not |
| RamfsModel.WriteLoopHolds | kernel/fs/ramfs/ramfs.c:144-149 | after the loop every byte of the buffer stands at its block and place |
| RamfsModel.ReadLoopDelivers | kernel/fs/ramfs/ramfs.c:168-173 | the loop delivers the bytes that stand on the device and keeps the rest of the buffer |
| RamfsExtents.CounterIsSum | kernel/fs/ramfs/ramfs.c:151 | over a clean run without a format the counter is the sum of all blocks written, modulo 2^32, and every node keeps its own block |
| RamfsExtents.CounterSinceFormat | kernel/fs/ramfs/ramfs.c:112-153 | over a clean run with formats the counter is the sum of the blocks written since the last one, modulo 2^32 |
| RamfsExtents.StartStaysInRun | kernel/fs/ramfs/ramfs.c:126 | over a clean run a file keeps its first block for as long as it keeps its name |
| RamfsExtents.ExtentLaw | kernel/fs/ramfs/ramfs.c:119-153 | over a clean run a later file starts as many blocks after an earlier one as were written between their creations, and both nodes keep their own blocks |
| RamfsExtents.ExtentsDisjointIff | kernel/fs/ramfs/ramfs.c:119-153 | over a clean run two non-empty files share no block if and only if that number is at least the older file's block count |
| RamfsExtents.LaterWriteShowsThrough | kernel/fs/ramfs/ramfs.c:126-151 | over a clean run two files created before either is written start at the same block, and the second write stands in both |
| RamfsOverlap.NameOverName | kernel/memory/mem_alloc.c:61-62 | as written: on a board of used units, two creates in a row satisfy every other hypothesis of the extent law and lay the second node's name field over the first node's name |
| RamfsOverlap.BoardReached | kernel/memory/mem_alloc.c:95-140 | eight calls from `mem_init`, a mount's request first, lead to that board |
| RamfsRuns.WriteLandsIff | kernel/fs/ramfs/ramfs.c:132-153 | data that is written is on the device if and only if the start plus the blocks needed is at most the device's size; the write returns 0 in either case |
| RamfsRuns.FirstAfterFormat | kernel/fs/ramfs/ramfs.c:112-130 | the first file created after a format starts at block 0 |
| RamfsHeap.PutKeepsIff | kernel/fs/ramfs/ramfs.c:119-153 | a create with its only write right after it keeps all extents apart, below the counter, and readable; the nodes stay live blocks of their own if and only if the create's request is clean |
| RamfsRuns.DropOnValues | kernel/fs/ramfs/ramfs.c:177-192 | a removal keeps all other extents apart and readable |
| RamfsRuns.GetDelivers | kernel/fs/ramfs/ramfs.c:155-175 | a read then returns 0 and the first min(len, size) bytes that were put |
| RamfsHeap.DisciplinedRunIsSafe | kernel/fs/ramfs/ramfs.c:119-192 | over every clean run of putting new files, renaming them to free names, reading and removing them, that stays on the device: the map of what was put, moved along, with extents apart and every node live |
| RamfsRuns.MountIsSafe | kernel/fs/ramfs/ramfs.c:101-110 | a fresh mount is such a state, for the empty map |
| RamfsHeap.MountOwns | kernel/fs/ramfs/ramfs.c:101-110 | a clean mount adds its context to the live blocks of the heap |
| RamfsHeap.StepOwnsIff | kernel/fs/ramfs/ramfs.c:112-200 | after an operation the nodes are still live blocks of their own if and only if the operation is clean; only a format lets nodes go astray |
| RamfsHeap.RunOwnsIff | kernel/fs/ramfs/ramfs.c:112-200 | over every run, of either search, they are throughout if and only if every create is clean |
| RamfsHeap.DropOwns | kernel/fs/ramfs/ramfs.c:177-192 | a removal returns the node's block and leaves all others live |
| RamfsHeap.FormatLeavesNodes | kernel/fs/ramfs/ramfs.c:112-117 | after a format the used units are exactly those of the forgotten nodes and of the blocks that belonged to no file |
| RamfsHeap.RenameKeepsNamesIff | kernel/fs/ramfs/ramfs.c:194-200 | rename keeps names distinct if and only if the old name is missing, equals the new one, or the new one is free |
| RamfsNames.FormatForgets | kernel/fs/ramfs/ramfs.c:112-117 | after a format every name reads as missing, and what was written still stands on the device |
| RamfsNames.RenameReads | kernel/fs/ramfs/ramfs.c:194-200 | renaming returns 0 if and only if the old name is there; a new name that was free then reads, for every length and buffer, as the old one did, the old one is gone, and every other name reads as before |
| RamfsNames.CreateReads | kernel/fs/ramfs/ramfs.c:119-130 | creating returns 0 if and only if the name is free and a node is granted; the file then reads as empty, and every other name as before |
| RamfsNames.RemoveReads | kernel/fs/ramfs/ramfs.c:177-192 | removing returns 0 if and only if the name is there, which is then gone; every other name reads as before |
| RamfsNames.WriteReads | kernel/fs/ramfs/ramfs.c:132-175 | data written on the device is read back, up to the shorter of its length and the length asked for, with the rest of the buffer untouched |
| RamfsNames.WriteSpares | kernel/fs/ramfs/ramfs.c:132-153 | writing returns 0 if and only if the name is there, and a file whose blocks are not among those written reads as before |
| RamfsHeap.CreateAndRemoveKeepNames | kernel/fs/ramfs/ramfs.c:119-192 | create and remove keep names distinct |
| RamfsResults.ReadReturnsPromisedIff | kernel/fs/fs.h:55-56 | the value of a read is the promised count if and only if there is no file or nothing to read |
| RamfsResults.WriteReturnsPromisedIff | kernel/fs/fs.h:65-66 | the value of a write is the promised one if and only if there is no file or nothing to write |
| EventSystem.Queue.Push | kernel/event/event.c:113-119 | the entry is linked behind the tail, whatever it is; a list stays finite and acyclic if and only if the entry was not in it, and then gains it at its end; an entry that is the tail is linked to itself |
| EventSystem.Queue.Pop | kernel/event/event.c:45-49 | head and tail end as the code leaves them, whatever hangs on the head; of a list the first entry leaves, and a list stays one |
| EventSystem.HandlerTable.Register | kernel/event/event.c:73-83 | the handler joins the end of its row, or an error and no change |
| EventSystem.HandlerTable.Unregister | kernel/event/event.c:85-101 | the row ends as the model says after compaction in place |
| EventSystem.Dispatcher.Request | kernel/event/event.c:104-107 | the heap's answer to a trigger makes its block pending, or ends it; the dispatcher stays sound if and only if the block is not the one of the entry in use |
| EventSystem.Dispatcher.Fill | kernel/event/event.c:109-111 | the fields of a pending block are set, nothing else changes, and the dispatcher stays sound |
| EventSystem.Dispatcher.Link | kernel/event/event.c:113-120 | the critical section: the event joins queue and history as the model says, and the dispatcher stays sound |
| EventSystem.Dispatcher.Trigger | kernel/event/event.c:103-121 | a trigger without an interruption ends as the model says; it stays sound if and only if the block is not the one of the entry under dispatch |
| EventSystem.Dispatcher.Extract | kernel/event/event.c:42-53 | the critical section and the test after it |
| EventSystem.Dispatcher.Call | kernel/event/event.c:54-58 | one handler call, or the release of the entry after the last |
| EventModel.RunFifo | kernel/event/event.c:39-121 | over every interleaving of triggers and dispatcher steps on values the taken events followed by the queued ones are the accepted triggers in order; EventMemory.RunRefines says when the code's runs are such |
| EventModel.RunFreesFollow | kernel/event/event.c:52-58 | freed entries are the dispatched ones, short of the one in progress |
| EventModel.DispatchedCount | kernel/event/event.c:41-53 | dispatches number the taken events plus the iterations that met an empty queue with a stale entry |
| EventModel.DispatchedOnceIff | kernel/event/event.c:41-53 | each taken event is dispatched once, in order, if and only if there was no such iteration |
| EventModel.ClearedDispatchesInOrder | kernel/event/event.c:39-64 | with the entry cleared, accepted events are dispatched in order and none is freed twice |
| EventModel.DrainedQueueRepeats | kernel/event/event.c:41-53 | as written, a drained queue makes the next iteration dispatch and free the last event again |
| EventModel.RunCalls | kernel/event/event.c:54-57 | while the table stays, each dispatched event goes to every handler of its kind once, in order of registration |
| EventModel.RegisterAppends | kernel/event/event.c:73-83 | a registration is taken exactly for a known kind, a handler that is not NULL and a row of fewer than eight; the handler then stands last and no other row changes |
| EventModel.UnregisterUndoesRegister | kernel/event/event.c:73-101 | unregistering a handler that was new restores the table |
| EventModel.UnregisterRemovesOne | kernel/event/event.c:85-101 | it succeeds exactly when the handler is there, and takes away one occurrence |
| EventModel.UnregisterMovesUp | kernel/event/event.c:85-101 | the first match gives up its place: handlers before it stay, those behind it move up by one in order, and no other row changes |
| EventModel.UnregisterFailsIff | kernel/event/event.c:85-101 | unregistering fails exactly for an unknown kind or a handler that is not there, and then changes nothing |
| EventMemory.StepSoundIff | kernel/event/event.c:39-121 | with entries in heap blocks that are handed out again, and any number of triggers between their heap request and the linking of their entry: a step keeps the queue a finite list of live entries, the pending blocks apart, and the dispatcher's entry its own, if and only if it does not hand out memory of the entry in use, to a trigger or to anyone else |
| EventMemory.RunSoundIff | kernel/event/event.c:39-121 | over every run of such steps that holds throughout if and only if no step hands out such memory |
| EventMemory.TriggerCarried | kernel/event/event.c:103-121 | over every run in which no step hands out memory of the entry in use, the event linked at a block is the one whose trigger requested it, whatever tasks do in between, and it joins the end of the queue |
| EventMemory.ClearedNeverBreaks | kernel/event/event.c:41-58 | with the entry cleared no step can, since the entry in use is still held |
| EventMemory.ClearedRunDispatchesInOrder | kernel/event/event.c:39-121 | with the entry cleared, over every such run and every choice of addresses: first in, first out, each taken event dispatched once and none freed twice |
| EventMemory.StepRefines | kernel/event/event.c:39-121 | a step from a sound state is a step of the machine of events on values, triggers counting from their linking, or nothing there |
| EventMemory.RunRefines | kernel/event/event.c:39-121 | a run that hands out no memory of the entry in use is a run of that machine, so its laws hold |
| EventMemory.RunFifo | kernel/event/event.c:39-121 | in such a run the links from the head lead through exactly the accepted events not yet taken, in order, and end |
| EventMemory.ReusedBlockLinksToItself | kernel/event/event.c:113-119 | as written: a trigger that is given the block of the stale entry under dispatch, and the next trigger, leave an entry linked to itself |
| EventMemory.InterruptedTriggerLinksToItself | kernel/event/event.c:103-121 | as written: a trigger that is given the block of the stale entry and loses the processor before linking it, and the next trigger, whose own request hands out nothing in use, do the same |
| EventMemory.Iterations | kernel/event/event.c:45-58 | from there every iteration takes that one event again |
| EventRegister.StepReservedIff | kernel/event/event.c:73-83 | with the capacity test outside the critical section: a step keeps room in the row for every registration past the test if and only if it is not a test that passes beyond it |
| EventRegister.RunReservedIff | kernel/event/event.c:73-83 | over every interleaving that holds throughout if and only if no test passes beyond the room |
| EventRegister.StoreAppends | kernel/event/event.c:77-81 | with that room a store appends to its own row and leaves the others alone |
| EventRegister.UninterruptedIsRegistered | kernel/event/event.c:73-83 | test and store with nothing in between are the registration of EventModel |
| EventRegister.StoreAllFitsIff | kernel/event/event.c:77-81 | the registrations past the test end inside the row, if nothing else happens, exactly when there is room for all |
| EventRegister.NinthHandlerFallsIntoNextRow | kernel/event/event.c:75-80 | two registrations that both see seven handlers leave nine, and the second replaces the first handler of the next kind |
| Assembler.VmAsm.RegToNum | asm/vm_asm.c:25-33 | the loop over names computes the register number |
| Assembler.VmAsm.ResolveValue | asm/vm_asm.c:35-50 | a number, else the first constant, else the first label of that name, else 0 |
| Assembler.VmAsm.Word | asm/vm_asm.c:61-113 | the chain of mnemonics computes the model's word |
| Assembler.VmAsm.AssembleLine | asm/vm_asm.c:54-118 | exactly four bytes are appended, whatever the mnemonic |
| Assembler.VmAsm.Pass1 | asm/vm_asm.c:126-146 | tables and header fields end as gathered from the lines |
| Assembler.VmAsm.Pass2 | asm/vm_asm.c:148-156 | the code buffer ends as the concatenated words |
| Assembler.VmAsm.WriteImage | asm/vm_asm.c:157-168 | the bytes of the output file |
| Assembler.VmAsm.Translate | asm/vm_asm.c:120-168 | from lines to the output file |
| AsmModel.PassesPickSameLines | asm/vm_asm.c:126-155 | both passes treat the same lines as instructions |
| AsmModel.AssembledHasMnemonic | asm/vm_asm.c:56-57 | a line picked for assembly never takes the early return |
| AsmLines.TokensAre | asm/vm_asm.c:54-58 | the mnemonic and the operands of a line are its words, separated by blanks |
| AsmLines.AddAndSubLines | asm/vm_asm.c:63-64 | what is decoded of an ADD or SUB line: opcode, destination, first and second source, by operand position |
| AsmLines.MoveLine | asm/vm_asm.c:76 | likewise MOV: destination and source |
| AsmLines.AddImmediateLine | asm/vm_asm.c:65-70 | ADDI carries destination, source and value, the upper half for `hi(` and the lower half for `lo(` |
| AsmLines.ContainsIff | asm/vm_asm.c:68 | the test for `hi(` and `lo(` finds the text anywhere in the operand |
| AsmLines.LoadUpperLine | asm/vm_asm.c:71-75 | LUI carries its destination and the upper half of its operand |
| AsmLines.LoadLines | asm/vm_asm.c:77-97 | LOAD without parentheses and LOADB carry destination, base and offset, in the order of the operands |
| AsmLines.LoadOffsetLine | asm/vm_asm.c:77-83 | LOAD with parentheses carries destination, base and the offset before them |
| AsmLines.StoreLines | asm/vm_asm.c:89-98 | STORE and STOREB carry their last operand first, then their first as base and the second as offset |
| AsmLines.BranchLines | asm/vm_asm.c:99-103 | BEQ and BNE carry their two registers in order and the distance in words from the next instruction |
| AsmLines.JumpLines | asm/vm_asm.c:104-105 | JMP and CALL carry opcode and the low 24 bits of the target |
| AsmLines.BareLines | asm/vm_asm.c:106-108 | RET, VCALL and HALT decode to their opcode and zeros; an unknown mnemonic becomes the word 0 |
| AsmLines.ShippedSubtraction | asm/app0.s:144 | `SUB v0, t3, t4` becomes 0x02020B0C |
| AsmLines.RegisterNumbers | asm/vm_asm.c:15-33 | the number of each of the 32 register names |
| AsmLines.RegisterForms | asm/vm_asm.c:25-33 | a comma ends a register operand; `r` and a number is that register, and any other word that is no name is register 0 |
| AsmLines.CleanForms | asm/vm_asm.c:35-44 | a value operand means what stands before its first comma, or between its parentheses |
| AsmLines.NumberForms | asm/vm_asm.c:46 | an operand that begins with a digit, or with a minus sign and a digit, stands for what `strtoul` makes of it up to its first comma |
| AsmProofs.PassesAgree | asm/vm_asm.c:126-155 | at every line both passes' `pc` and the code length are four times the instruction lines so far |
| AsmProofs.WordAtLine | asm/vm_asm.c:115-117 | the word of a line stands at its offset in the final code |
| AsmProofs.LabelValue | asm/vm_asm.c:138-143 | the table binds a label to the offset of its first definition |
| AsmProofs.JumpReachesLabel | asm/vm_asm.c:104-105 | JMP and CALL to a label carry in their low 24 bits the offset of the first instruction after its first definition |
| AsmProofs.FirstInstructionAfter | asm/vm_asm.c:138-146 | that offset is where the next instruction line is assembled |
| AsmProofs.BranchIsExact | asm/vm_asm.c:99-103 | the unsigned branch arithmetic gives the exact signed word offset, forwards and backwards |
| AsmProofs.RegisterFormsDiffer | asm/vm_asm.c:110 | register forms are equal exactly when all fields are |
| AsmProofs.ImmediateFormsCollideIff | asm/vm_asm.c:111-113 | immediate forms are equal exactly when opcode, rd, low byte and the mixed third byte are |
| AsmProofs.ByteImmediatesRecoverable | asm/vm_asm.c:111-113 | for immediates 0 to 255 every field is recovered |
| AsmProofs.NegativeImmediateHidesRegister | asm/app0.s:100 | a stack adjustment by -32 has third byte 0xff whatever register was named |
| AsmModel.JumpIs | asm/vm_asm.c:104-105 | opcode and target share no bits |
| Image.HeaderReadBack | asm/vm_asm.c:157-168 | reading a written header recovers every field, whatever follows |
| Image.WrittenLayout | asm/vm_asm.c:157-168 | where each field of a written header stands, byte for byte |
| Image.ReadLayout | kernel/loader/app_loader.c:54-86 | where each field that is read stands, byte for byte |
| HeaderChecks.ImageLoads | kernel/loader/app_loader.c:54-106 | every assembled program passes the checks, and sizes, entry, capabilities, name and code are recovered |
| AsmDirectives.RamSizeField | asm/vm_asm.c:132 | the image gives as RAM size the word of the last `.ramsize` line, told from the lines |
| AsmDirectives.CapabilitiesField | asm/vm_asm.c:133 | and as capabilities the word of the last `.capabilities` line |
| AsmDirectives.NameField | asm/vm_asm.c:131 | and as name the first 15 characters between the quotes of the last `.name` line, padded with zeros |
| AsmDirectives.DefaultFields | asm/vm_asm.c:20-21 | without such lines no RAM, no capabilities and the name `shell` |
| AsmDirectives.ImageFields | asm/vm_asm.c:157-168 | the bytes of the header: magic number, name, version 1, code size, RAM size, entry 0, capabilities, checksum 0, each at its place and lowest byte first |
| AsmDirectives.Classified | asm/vm_asm.c:127-145 | each directive is taken by its own parser and by no other, with its limits on names |
| AsmDirectives.DefinesIff | asm/vm_asm.c:134-137 | a line defines a constant if and only if it has the shape `.equ name, value` |
| AsmDirectives.LabelShape | asm/vm_asm.c:138-143 | a line with a colon that is no comment and no directive defines what stands before its first colon, up to 63 characters |
| AsmDirectives.ColonsInFront | asm/vm_asm.c:138-143 | colons in front of the name are passed over |
| AsmDirectives.IgnoredShape | asm/vm_asm.c:144-152 | a line that begins with a dot, has no colon and is no directive does nothing in either pass |
| AsmDirectives.InstructionShape | asm/vm_asm.c:144-152 | a line without a colon that begins with neither a dot nor a hash sign is an instruction in both passes |
| AsmDirectives.ConstantMeans | asm/vm_asm.c:46-47 | an operand that is not a number and that some `.equ` defines stands for the first value given to it, told from the lines |
| AsmDirectives.ConstantLine | asm/vm_asm.c:65-70 | and an ADDI line with such an operand carries that value |
| AsmDirectives.LabelMeans | asm/vm_asm.c:46-48 | an operand that is not a number and that no `.equ` line defines stands for the offset of the first definition of its label |
| AsmDirectives.UnboundMeansNothing | asm/vm_asm.c:46-49 | an operand that is not a number and that no line defines stands for 0 |
| HeaderChecks.TruncatedImageRefused | kernel/loader/app_loader.c:55-92 | an image cut short anywhere is refused, with the code that says where |
| LoaderModel.RefusalByBytes | kernel/loader/app_loader.c:54-92 | for every byte string: -1 below 44 bytes, -2 unless it begins with CE FA FE CA, -4 unless bytes 20 to 23 are the number 1, -5 if bytes 24 to 27 give more code than there is, by the first that applies and with the heap untouched; otherwise it is refused only for want of memory |
| LoaderModel.ChangedMagicRefused | kernel/loader/app_loader.c:61-64 | an assembled image with any other byte in its magic number gives -2 |
| LoaderModel.AlignedRamIs | kernel/loader/app_loader.c:108-111 | the RAM of a VM is the least multiple of 4 not below the size asked for, and none for the last three sizes, which wrap |
| Endian.ReversesBytes | kernel/loader/app_loader.c:30-35 | `le32_to_host` reverses the bytes |
| Endian.SwapLaws | kernel/loader/app_loader.c:23-35 | twice it is the identity; once it is exactly for words that read the same from both ends |
| Endian.SwappedMagicDiffers | kernel/loader/app_loader.c:61-63 | the magic number read through it is not the magic number |
| LoaderModel.VmCreatedIff | kernel/loader/app_loader.c:108-111 | under clean requests `vm_create` succeeds if and only if there is room for its context and its RAM, and otherwise leaves the bitmap as it was |
| LoaderModel.TaskCreatedIff | kernel/loader/app_loader.c:113-118 | likewise `task_create` with its three requests |
| LoaderModel.LoadRestoresIff | kernel/loader/app_loader.c:54-124 | a clean load leaves the bitmap as it was if and only if the image is refused or there is no room for the VM, both told before the call; with the reset every load is clean |
| LoaderModel.LoadOutcome | kernel/loader/app_loader.c:54-124 | the code a clean load returns and the units it leaves taken, told from the image's verdict and the room in the bitmap before the call |
| LoaderModel.LoadOwns | kernel/loader/app_loader.c:108-124 | after a clean load the blocks at the addresses given to the VM and its RAM, and the three given to the task, its stack and its context, are live blocks of their own beside those from before; after -7 those of the VM; otherwise none are added |
| LoaderModel.ResetLoadIsClean | kernel/memory/mem_alloc.c:54-89 | with the reset every load is clean |
| LoaderModel.EmptyProgramLeaksVm | kernel/loader/app_loader.c:115-118 | the image of an empty source on a heap of 23 free units: -7, and every unit stays taken |
| Loader.Kernel.VmCreate | kernel/loader/app_loader.c:108-111 | heap and VM fields, or NULL with the context given back |
| Loader.Kernel.VmDestroy | kernel/loader/app_loader.c:115-118 | a VM still referred to is only marked; otherwise RAM and context go back |
| Loader.Kernel.TaskCreate | kernel/loader/app_loader.c:113-118 | heap, task fields and the next task number |
| Loader.Kernel.KernelLoadApp | kernel/loader/app_loader.c:54-124 | each error code in its order with nothing started, or one new task that owns a VM at the addresses the heap gave, whose fields are the numbers at their places in the bytes |
| VmDecode.RegisterOperandsAgree | asm/vm_asm.c:63-64 | register forms decode to the opcode and registers named |
| VmDecode.AddImmediateAgreesIff | asm/vm_asm.c:65-70 | `ADDI` uses the register and number written if and only if the number is in 0 to 127 |
| VmDecode.LoadStoreAgreeIff | asm/vm_asm.c:77-95 | `LOAD` and `STORE` use the base and offset written if and only if the offset's high byte is the base's number |
| VmDecode.BaseSurvivesIff | asm/vm_asm.c:79-82 | the base of `off(base)` is read with its parenthesis: it is the register named if and only if it is written as `r` and a number, or names register 0 |
| VmDecode.LoadLineAgreesIff | asm/vm_asm.c:77-83 | a line `LOAD rd, off(base)` loads from the base and offset named if and only if the offset's high byte is the base's number; a base that is not written as `r` and a number has no part in the word |
| VmDecode.LoadAddressAgreesIff | asm/vm_asm.c:65-75 | `LUI` of the upper half is exact, and `ADDI` with the lower half completes the value if and only if that half is below 128 |
| VmDecode.JumpLands | asm/vm_asm.c:104-105 | JMP and CALL go to the low 24 bits of their target |
| VmDecode.BranchLands | asm/vm_asm.c:99-103 | a taken branch never lands on its label, and lands on the instruction before it if and only if the offset's high byte contains the bits of `rs` |
| VmDecode.OthersGoOn | asm/vm_asm.c:106-108 | RET goes to the return address; every other word, and a branch that is not taken, goes on to the next word |
| VmDecode.LoadedJumpReachesLabel | asm/vm_asm.c:104-105 | in a loaded image a jump to a label goes where the label's first instruction is fetched |
| VmDecode.LoadedBranchMissesLabel | asm/vm_asm.c:99-103 | in a loaded image a taken BEQ or BNE to a label never goes to the label; it goes to the instruction before it if and only if the high byte of the distance contains the bits of its second register's number |
| VmDecode.ShortBranchHighByte | asm/vm_asm.c:99-113 | within 256 instructions that is so backwards always, and forwards only for register 0 |

## Left out

- Ramfs2.RamFs2.Read: the contract asks that the memory pointed to is long enough for every block, which the code touches, and that the file's table is complete; WriteLeavesIntactIff says which writes leave it so. ReadStaysInsideIff says when the caller's `len` bytes are enough.
- Ramfs2.RamFs2.Write: the contract asks for memory of whole blocks, which is what the code reads; WriteStaysInsideIff says when `len` bytes are enough.
- Ramfs2.RamFs2.Remove: a file whose table is incomplete after a failed write is not removed here; the code reads entries that were never written.
- Ramfs2.RamFs2.Create: names are at most 31 characters; the code leaves longer ones without a terminator (StoredNameTerminatedIff), and they then run on into the next field.
- Ramfs.RamFs.Create: names are at most 31 characters, for the same reason.
- Ramfs.RamFs.Rename: names are at most 31 characters, for the same reason.
- MemAlloc.MemHeap.MemFree: a pointer must lead to a header inside the heap; pointers elsewhere are undefined behaviour in C.
- RamDisk.RamInit: block size times block count is below 2^32, as the constants of a board must be.
- Lemmas named `...OnValues` (and Ramfs2Refinement.WriteIsConfined and WrittenEntry) speak of descriptors and devices only, and are steps of the rows on clean runs.
- EventSystem.HandlerTable.Register: test and store are one step here; EventRegister separates them.
- EventSystem.Dispatcher.Request: blocks are objects here, so two entries share all of their memory or none; once the block of the entry in use has been handed out the class promises nothing more. EventMemory follows overlapping blocks and other users of the heap.
- Loader.Kernel.TaskCreate: the CPU context, the stack contents and the insertion into the scheduler's ring are not part of the model; the sizes of kernel structures are parameters.
- Loader.Kernel.KernelLoadApp: VM and task are objects beside the heap bytes, at the addresses the heap gave; LoadOwns says that these are live blocks of their own after a clean load.
- Assembler.VmAsm.AssembleLine: the code buffer must have room for a word; the code does not check.
- Assembler.VmAsm.Pass1: sources with more labels or constants than the arrays hold are left out; the code does not check.
- Assembler.VmAsm.Pass2: sources with more code than the buffer holds are left out; the code does not check.
- Assembler.VmAsm.Translate: the same limits as both passes.
- Heap bytes that hold kernel structures (nodes, entries, tasks, VM contexts) are kept as objects or values; the model's heap bytes hold headers and client writes. For clean runs this loses nothing, since each structure has a live block of its own whose bytes nothing else touches; for other runs the contents after an overlap are not followed. A NULL receiver is not modelled.
- What an event entry reads as after something was written over it: runs in which the entry in use keeps its memory never ask.
- Interrupts: each region with interrupts off and each heap call is one step, and so are the three assignments that fill in an entry and one pass of the handler loop (its test, the fetch of the handler and the call); handlers do not change the handler table while an event is dispatched in RunCalls, and their bodies are not modelled.
- Two tasks inside the heap, one file system or the loader at once: each of their calls is one step; the code takes no lock there.
- Text limits of the assembler's buffers (`sscanf` fields of 32 and 64 bytes, lines of 255) are not modelled; operands that are missing, or whose parenthesis is not closed, read as empty, and so does the name of a line of colons only; `strtoul` and `atoi` are parameters.
- `ramfs` mount: two assignments after one request; its result is the state of MountIsSafe and MountOwns.
- The VM's arithmetic, memory accesses, run loop and reference counting beyond `vm_destroy`: only decoding, operands and the program counter are modelled.
- `storage_ram.c`'s registration and `ram_info`, `fs.c`, `mount.c`, `kdevice.c`, `storage.c`, the intent dispatcher, services, timers, buses, consoles and `bin2c.c`: tables and thin wrappers that would add easy members.
- Checksum validation: the loader does not perform it.
