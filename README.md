# ptsim in Dafny

A model of `ptsim.c`, a single-level paged-memory simulator. All of its
state is one array `mem` of 16384 bytes: 64 frames of 256 bytes each.
Frame 0 holds two tables:

- the free map: byte j (j < 64) is 0 when frame j is free and nonzero when it is in use;
- the page-table directory: byte 64 + p is the frame holding process p's page table, or 0 when p has none.

A process's page table is a whole frame. Entry v (byte v of that frame) is
the frame that backs virtual page v, or 0 when the page is unmapped.

The model has two layers.

- **Pure functions over a snapshot `seq<Byte>` of the array.** These are:
  - address arithmetic (`Addressing`);
  - first-fit frame allocation (`FrameAllocator`);
  - the directory, translation, store and load (`PageTables`);
  - process creation and teardown (`Lifecycle`);
  - frame ownership (`Ownership`).

  The lemmas about them are in `Lifecycle`, `Properties`, `Ownership` and `Findings`.
- **An imperative class, `Simulator.Memory`.** It holds the array as `mem: array<Byte>` and has one method per C routine, with the routine's loops. Each method's postcondition ties the new array contents and the returned value to the matching function. So every property proved about the functions holds of the array.

The class keeps the invariant `Ownership.Consistent`, which holds from `initialize_mem` on. It has three parts:

- `Wf`: every directory byte is a frame number below 64, and frame 0 is marked used.
- Every nonzero directory byte, and every nonzero entry of a live table, names a frame marked used.
- No frame has two owners. Two live processes have different table frames, no entry names a table frame, and entries of two different processes name different frames.

As a consequence, a store by one process never changes what another process loads.

Modules:

| module | contents |
|---|---|
| `Config` | the constants `MEM_SIZE`, `PAGE_SIZE`, `PAGE_COUNT`, `PAGE_SHIFT`, `PTP_OFFSET`; `Byte` |
| `Addressing` | `get_address` as a shift and a bitwise OR; splitting an address with `>> 8` and `& 255` |
| `FrameAllocator` | the free list (the free frames 1..63 in ascending order) and the first-fit scan |
| `PageTables` | the well-formedness invariant `Wf`; directory lookup; translation as written and corrected; store; load |
| `Lifecycle` | `find_free_pages`, `new_process` as written and with its table cleared, `free_process_pages`, `free_process_page_table`, `kill_process` |
| `Properties` | initial state, create then kill, translation after create, two processes side by side, a concrete scenario |
| `Ownership` | the invariant `Consistent`, and its preservation by store, kill and the corrected creation |
| `Findings` | the hazards listed under Findings below |
| `Simulator` | the class `Memory` with the imperative routines |

Where a call would misbehave, the model returns an error (`Result`/`Step`)
instead:

- `OutOfMemory`: the source prints a message and calls `exit(1)`. The memory is left as it was at that point, with no rollback.
- `InvalidProcess`: a process id outside the 192 directory slots.
- `NoPageTable`: translating or killing a process that has no page table.
- `UnmappedPage`: translating through a zero entry.
- `AddressOutOfRange`: a negative virtual address, a virtual page of 64 or more, or a physical address outside memory.

In three places the C code does something a caller would not expect.

- Out of memory in the middle of `new_process` keeps the frames already taken, where a caller would expect a rollback. The model follows the code.
- Creating a process whose id already has a table overwrites the directory slot and leaks the old table, where a caller would expect a rejection. The model follows the code.
- `new_process` does not clear the table frame it takes, so entries past the new page count keep what an earlier owner left there. This breaks the ownership invariant (see Findings). The simulator uses the corrected creation `Lifecycle.NewProcessCleared`, which zeroes those entries.

## Model

| member | source | states |
|---|---|---|
| Addressing.GetAddress | ptsim.c:19-22 | `get_address`: `(page << 8) \| offset`, which for an offset below 256 is `page * 256 + offset`, an address inside frame `page` |
| Addressing.GetAddressIsShiftOr | ptsim.c:19-22 | `GetAddress(page, offset)` is `page << 8` bitwise-OR `offset` for every page and offset |
| Addressing.AddressSplit | ptsim.c:19-22 | for an offset below 256, `>> 8` of the composed address gives back the page and `& 255` gives back the offset |
| Addressing.AddressJoin | ptsim.c:127-130 | recomposing the page (`>> 8`) and the offset (`& 255`) of a non-negative address gives back the address |
| Addressing.GeometryConsistent | ptsim.c:6-9 | `PAGE_COUNT * PAGE_SIZE == MEM_SIZE` and `2^PAGE_SHIFT == PAGE_SIZE`, as the constants' comments require |
| FrameAllocator.LowestFree | ptsim.c:50-60 | the frame the first-fit scan picks: 0 exactly when the free list is empty, otherwise a frame in 1..63 whose free-map byte is 0 |
| FrameAllocator.FreeFrom | ptsim.c:52-58 | every frame on the free list of lo..63 lies in that range and has free-map byte 0 |
| FrameAllocator.FreeFromAscending | ptsim.c:52-58 | the free list is strictly ascending, so its frames are pairwise distinct |
| FrameAllocator.FreeFromComplete | ptsim.c:52-58 | every frame of the range with free-map byte 0 is on the free list |
| FrameAllocator.LowestFreeIsFirstFit | ptsim.c:50-60 | the scan's answer is a free frame in 1..63 with every frame between 1 and it in use; 0 means frames 1..63 are all in use; frame 0 is never a candidate |
| FrameAllocator.FreeFramesAgree | ptsim.c:52-53 | the free list depends only on bytes 0..63 |
| FrameAllocator.AllocateRemovesLowest | ptsim.c:53-56 | marking the lowest free frame used removes exactly that frame from the front of the free list; the free count drops by one |
| FrameAllocator.ReleaseThenAllocate | ptsim.c:50-60 | after frame k is freed while frames 1..k-1 are in use, the next allocation returns k |
| PageTables.InitialMemory | ptsim.c:27-33 | the memory after `initialize_mem`: byte 0 is 1 (frame 0 used) and every other byte is 0 |
| PageTables.DirectoryAddress | ptsim.c:40 | process p's directory slot is byte 64 + p, inside frame 0 after the free map |
| PageTables.PageTableOf | ptsim.c:38-42 | under `Wf`, the directory byte read is a frame number below 64 |
| PageTables.EntryFor | ptsim.c:125-129 | the byte `vaddr_to_paddr` reads as the entry, `mem[(pt << 8) \| (v >> 8)]`, for any valid id and any read inside `mem`: entry `v >> 8` of a live process's table, or free-map byte `v >> 8` for a process with directory byte 0 |
| PageTables.TranslateAsWritten | ptsim.c:123-131 | `(entry << 8) \| (v & 255)` for any valid id and any entry read inside `mem`, zero entries and table frame 0 included: its page is the entry and its offset is `v & 255` |
| PageTables.Translate | ptsim.c:123-131 | succeeds exactly when the id is valid, the process has a table, the virtual page is below 64 and its entry is a nonzero frame below 64; the result then lies in the entry's frame at the virtual address's offset; otherwise it names the error (invalid id, no table, address out of range, unmapped page) |
| PageTables.Store | ptsim.c:133-141 | keeps `Wf`; on success writes `value mod 256` at the translated address and changes no other byte; on a translation error changes nothing |
| PageTables.Load | ptsim.c:143-151 | succeeds exactly when translation does, and returns the translated address and the byte stored there |
| PageTables.StoreAsWritten | ptsim.c:133-141 | `store_value` as written: when the as-written address lies inside `mem`, writes `value mod 256` there and changes no other byte |
| PageTables.TranslateThroughEntry | ptsim.c:127-130 | when entry `v >> 8` of the table is frame f, address v translates to `f * 256 + (v & 255)` |
| PageTables.StoreThenLoad | ptsim.c:133-151 | a load after a store at the same process and virtual address returns the stored byte, unless the store overwrote the very entry the translation reads |
| Lifecycle.Round | ptsim.c:66-79 | one round of `find_free_pages` after the scan found frame f: f's free-map byte becomes 1 and entry k of the table becomes f |
| Lifecycle.Allocated | ptsim.c:64-80 | n rounds, round k taking the k-th lowest frame that was free before the loop (its bytes are stated by `AllocatedBytes`) |
| Lifecycle.FillTable | ptsim.c:63-81 | `find_free_pages`: succeeds exactly when at least c frames are free, after c rounds; otherwise takes every free frame and stops with out of memory at the page numbered by the free count |
| Lifecycle.AllocatedBytes | ptsim.c:64-80 | after n rounds, byte a is 1 when a is one of the n lowest free frames, is the k-th of them when a is table entry k < n, and is unchanged otherwise |
| Lifecycle.FreeFramesAllocated | ptsim.c:64-80 | after n rounds the free list has lost exactly its first n frames |
| Lifecycle.LowestFreeAllocated | ptsim.c:66-72 | the scan in round n finds the n-th lowest frame that was free before the loop, or 0 once those frames are used up |
| Lifecycle.RoundTakesLowest | ptsim.c:66-79 | a round that takes the lowest free frame removes exactly that frame from the front of the free list |
| Lifecycle.AllocatedWf | ptsim.c:64-80 | the allocation loop keeps `Wf` |
| Lifecycle.NewProcess | ptsim.c:83-100 | keeps `Wf`; succeeds only for an id inside the directory |
| Lifecycle.NewProcessOutcome | ptsim.c:83-100 | succeeds exactly when the id is valid and at least c + 1 frames are free; an invalid id or a full memory changes nothing; running out while filling the table leaves no frame free and the directory slot untouched |
| Lifecycle.NewProcessSuccess | ptsim.c:83-100 | on success, the table frame is the lowest free frame; the loop then ran to the end on the remaining frames, and the directory slot was written last |
| Lifecycle.NewProcessTable | ptsim.c:83-100 | on success, the directory slot names the lowest free frame, and entry k of the table names the (k + 1)-th lowest |
| Lifecycle.NewProcessFreeFrames | ptsim.c:83-100 | on success, the c + 1 lowest frames leave the free list, and the free count drops by exactly c + 1 |
| Lifecycle.NewProcessChanges | ptsim.c:83-100 | on success, only the free-map bytes of the frames taken, entries 0..c-1 of the table and the directory slot change |
| Lifecycle.NewProcessKeepsLaterEntries | ptsim.c:63-81 | entries c and above of the new table frame keep whatever they held, because frames are never cleared |
| Lifecycle.FillTableStops | ptsim.c:63-81 | proof helper for the loop exit of `Simulator.Memory.FindFreePages`: after i rounds, `FillTable` is the i-round state with success when i is the page count, or with out of memory at page i when the i free frames are used up before that |
| Lifecycle.ReleaseEntries | ptsim.c:102-110 | the loop of `free_process_pages` over entries 0..n-1, each read from the memory as already updated, clearing the byte each nonzero entry names |
| Lifecycle.Teardown | ptsim.c:102-115 | `free_process_pages` over all 64 entries, then `free_process_page_table`: the table frame's free-map byte and the directory slot end 0 |
| Lifecycle.KillAsWritten | ptsim.c:117-121 | `kill_process` as written: the teardown of whatever frame the directory slot names, frame 0 included; that frame's free-map byte and the slot end 0 |
| Lifecycle.ReleaseEntriesBytes | ptsim.c:102-110 | for a table outside frame 0, the loop clears exactly the bytes its nonzero entries name and changes nothing else |
| Lifecycle.ReleaseEntriesOnlyClears | ptsim.c:102-110 | the loop never writes byte 0, and every byte stays as it was or becomes 0 |
| Lifecycle.ReleaseEntriesKeepsClear | ptsim.c:102-110 | a byte the loop has cleared stays clear for the rest of the loop |
| Lifecycle.Kill | ptsim.c:117-121 | keeps `Wf`, for every process id |
| Lifecycle.KillOutcome | ptsim.c:117-121 | succeeds exactly for a process with a table; it then clears the directory slot, the table frame's free-map byte and the bytes named by the nonzero entries, and nothing else; on an error nothing changes |
| Lifecycle.ClearEntries | ptsim.c:83-100 | the clearing the creation lacks: entries `from`..63 of the table in frame pt are 0 and every other byte is unchanged |
| Lifecycle.NewProcessCleared | ptsim.c:83-100 | the corrected creation keeps `Wf` |
| Lifecycle.NewProcessClearedOutcome | ptsim.c:83-100 | the corrected creation has the same result as `new_process`; on success its table names the c lowest free frames after the table frame in entries 0..c-1 and holds 0 in entries c..63; no byte outside entries c..63 differs from the as-written creation |
| Properties.InitialState | ptsim.c:27-33 | after `initialize_mem`, the memory is well formed, frames 1..63 are free in order, the first allocation gets frame 1, and every directory slot is empty |
| Properties.TeardownUndoesAllocation | ptsim.c:102-121 | killing a process whose table frame and data frames were free before it was built restores every byte of frame 0 except its directory slot |
| Properties.CreateThenKillRestoresFreeMap | ptsim.c:83-121 | create then kill restores the free map byte for byte and the free list, and empties the directory slot, provided the table frame held zeros past the new page count; frame 0 is fully restored when the slot was empty before |
| Properties.ClearedCreateThenKillRestoresFreeMap | ptsim.c:83-121 | with the corrected creation, create then kill restores the free map and the free list and empties the directory slot, from any well-formed memory; frame 0 is fully restored when the slot was empty before |
| Properties.NewProcessFramesDistinct | ptsim.c:83-100 | on success, the table frame and every data frame are nonzero and marked used; the data frames are pairwise distinct and distinct from the table frame |
| Properties.TranslateThroughTable | ptsim.c:123-131 | a table whose first n entries name given frames maps every address below n * 256 into those frames, page by page |
| Properties.TranslateAfterCreate | ptsim.c:83-131 | right after `new_process`, address v below c * 256 translates to the (v / 256 + 1)-th lowest free frame at offset `v & 255` |
| Properties.TableKeptByOtherWrites | ptsim.c:94-97 | writes to the free map, to another directory slot and to another frame leave a process's directory slot and table unchanged |
| Properties.TwoProcessesShareNoFrame | ptsim.c:83-100 | two creations in a row take the c1 + 1 lowest free frames and then the next c2 + 1 frames, all above the first set; the first process's table survives the second creation |
| Properties.CreateTwoPagesScenario | ptsim.c:27-131 | from a fresh memory, process 0 with two pages gets table frame 1 and data frames 2 and 3; addresses 0 and 0x105 land in frames 2 and 3; killing it leaves only frame 0 in use |
| Findings.UnmappedTranslatesIntoFrameZero | ptsim.c:123-131 | through a zero entry the source's address is the bare offset, inside frame 0; the corrected translation reports the page as unmapped |
| Findings.TranslateRefinesAsWritten | ptsim.c:123-131 | wherever the corrected translation succeeds, it equals the source's arithmetic |
| Findings.StoreToUnmappedPageHitsDirectory | ptsim.c:123-141 | after `np 0 1`, the source translates process 0's address 320 to byte 64, process 0's own directory slot; the corrected translation reports page 1 as unmapped |
| Findings.KillWithoutTableFreesFrameZero | ptsim.c:117-121 | killing a process with no table, as written, marks frames 0 and 1 free and breaks `Wf`; the next allocation returns frame 1; the corrected `Kill` reports the missing table and changes nothing |
| Findings.NoTableReadsFreeMap | ptsim.c:123-131 | for a process with no table and an address below 64 * 256, the source reads free-map byte `v >> 8` as the entry, so the address lands in frame 0 or frame 1; the corrected translation reports the missing table |
| Findings.StoreWithoutTableHitsAnotherTable | ptsim.c:123-141 | after `np 0 1`, a store of 7 by process 5 (no table) at address 0 writes entry 0 of process 0's table, changing it from frame 2 to frame 7; the corrected translation reports the missing table |
| Findings.FirstCreate | ptsim.c:83-100 | from a fresh memory, `np 0 1` gives process 0 table frame 1, whose entry 0 names frame 2 and whose other entries are 0 |
| Findings.KilledFirst | ptsim.c:117-121 | killing that process succeeds and gives back the fresh free map, the fresh free list and an empty directory |
| Findings.KillKeepsHigherFrames | ptsim.c:102-121 | a kill changes no byte outside frame 0 |
| Findings.CreateKillLeavesEntry | ptsim.c:83-121 | after `np 0 1` and `kp 0`, the free map and directory are as fresh, but frame 1 still holds entry 0 = 2 |
| Findings.ReuseFrameOne | ptsim.c:83-100 | from a memory whose two lowest free frames are 1 and 2 and whose frame 1 holds entry 0 = 2, `np 1 0` gives process 1 table frame 1, whose entry 0 still names frame 2, which is free |
| Findings.EmptyCreateKeepsBytes | ptsim.c:83-100 | a successful creation with no data pages changes only the table frame's free-map byte and the directory slot |
| Findings.AfterReuse | ptsim.c:83-121 | after `np 0 1`, `kp 0`, `np 1 0`, process 1's table is frame 1, its entry 0 names frame 2, frame 2 is free and is the lowest free frame |
| Findings.StaleEntryBreaksInvariant | ptsim.c:123-131 | a live table whose entry 0 names a free frame breaks `Consistent`, and address 0 still translates into that frame |
| Findings.ClearedReuseUnmaps | ptsim.c:83-131 | with the corrected creation, a process created in table frame 1 with no data pages has page 0 unmapped, whatever frame 1 held |
| Findings.ReusedTableKeepsStaleEntry | ptsim.c:83-131 | after `np 0 1`, `kp 0`, `np 1 0`, process 1's address 0 translates to byte 512 of free frame 2 and the memory is not `Consistent`; with the corrected creation the page is unmapped |
| Findings.ReuseFrameTwo | ptsim.c:83-100 | when the lowest free frame is 2, `np 2 0` gives process 2 table frame 2 and leaves frame 1 as it was |
| Findings.SharedFrameHazards | ptsim.c:117-141 | when entry 0 of process 1's table names process 2's table frame, process 1's address 0 lands in that table; a store of 7 there maps process 2's page 0 to frame 7; killing process 1 marks frame 2 free while process 2 still uses it |
| Findings.StaleEntryReachesAnotherTable | ptsim.c:83-141 | after `np 0 1`, `kp 0`, `np 1 0`, `np 2 0`, process 2's table is frame 2, which process 1's stale entry names, with the store and kill consequences of `SharedFrameHazards` |
| Ownership.InitialConsistent | ptsim.c:27-33 | `initialize_mem` establishes `Consistent` |
| Ownership.Restrict | ptsim.c:102-141 | a well-formed memory that marks every frame it owns, and whose live processes have the same table and entries as in a consistent memory, is consistent |
| Ownership.Adopt | ptsim.c:83-100 | adding to a consistent memory one process whose table frame and nonzero entries were free before, are marked used now and whose entries differ from its table frame, while every other process keeps its table and entries and every mark stays, gives a consistent memory |
| Ownership.TranslateFrame | ptsim.c:123-131 | a successful translation lands in the process's frame for page `v >> 8`, a frame in 1..63, at offset `v & 255` |
| Ownership.SameTranslation | ptsim.c:123-131 | translation depends only on the process's table frame and the entry it reads |
| Ownership.TranslationMissesOwnEntry | ptsim.c:123-131 | under `Consistent` a successful translation never lands on the table entry it reads |
| Ownership.ConsistentStoreThenLoad | ptsim.c:133-151 | under `Consistent` a load after a store at the same process and virtual address returns the stored byte, with no exception |
| Ownership.StoreKeepsTables | ptsim.c:133-141 | in a consistent memory a store changes neither frame 0 nor any process's entries |
| Ownership.StoreKeepsConsistent | ptsim.c:133-141 | a store keeps `Consistent` |
| Ownership.StoreIsolated | ptsim.c:123-151 | in a consistent memory a store by one process does not change what any other process loads at any address |
| Ownership.ReleasedAreOwn | ptsim.c:102-110 | in a consistent memory every frame the kill loop frees is a data frame in 1..63 of the killed process: not a table frame, and not a frame of another process |
| Ownership.KillKeepsConsistent | ptsim.c:117-121 | the kill keeps `Consistent` |
| Ownership.PartialFillKeepsConsistent | ptsim.c:63-100 | running out of memory while filling the new table keeps `Consistent`, because the directory slot is not yet written |
| Ownership.UnlinkedWritesKeepConsistent | ptsim.c:63-81 | marking free-map bytes used and writing entries of a free frame that no directory slot names keeps `Consistent` |
| Ownership.AllocatedOutside | ptsim.c:63-81 | the allocation loop changes no byte above frame 0 outside the first n entries of the table, and each free-map byte it changes becomes 1 |
| Ownership.CreateKeepsConsistent | ptsim.c:83-100 | the corrected creation keeps `Consistent`, whether it succeeds or runs out of memory |
| Ownership.CreatedAdopted | ptsim.c:83-100 | a successful corrected creation keeps `Consistent` |
| Simulator.Memory.constructor | ptsim.c:27-33 | a fresh array holding exactly the memory after `initialize_mem` |
| Simulator.Memory.InitializeMem | ptsim.c:27-33 | the clearing loop and the mark on frame 0 produce `InitialMemory()` |
| Simulator.Memory.GetPageTable | ptsim.c:38-42 | returns the directory byte of the process, a frame number below 64 |
| Simulator.Memory.SetupPageTable | ptsim.c:50-60 | returns the lowest free frame and marks only it used; returns 0 and changes nothing when none is free |
| Simulator.Memory.FindFreePages | ptsim.c:63-81 | the new array and the result are those of `FillTable`: every page filled in first-fit order, or out of memory at the page where frames ran out |
| Simulator.Memory.NewProcess | ptsim.c:83-100 | the new array and the result are those of the corrected creation `Lifecycle.NewProcessCleared`; keeps `Consistent` |
| Simulator.Memory.ClearEntriesFrom | ptsim.c:83-100 | the clearing the creation lacks: the new array is the old one with entries `from`..63 of the table in frame pt set to 0 |
| Simulator.Memory.FreeProcessPages | ptsim.c:102-110 | the new array is `ReleaseEntries` over all 64 entries, as the loop reads them from the array it is updating |
| Simulator.Memory.FreeProcessPageTable | ptsim.c:112-115 | clears the table frame's free-map byte and the directory slot, and nothing else |
| Simulator.Memory.KillProcess | ptsim.c:117-121 | the new array and the result are those of `Lifecycle.Kill`; keeps `Consistent` |
| Simulator.Memory.VaddrToPaddr | ptsim.c:123-131 | returns `Translate` of the current array |
| Simulator.Memory.StoreValue | ptsim.c:133-141 | the new array and the result are those of `Store`; keeps `Consistent` |
| Simulator.Memory.GetValue | ptsim.c:143-151 | returns `Load` of the current array |

## Left out

- `main`, `print_page_free_map` and `print_page_table` are not modelled. They are command-line parsing and text output.
- The `printf` calls in `find_free_pages`, `new_process`, `store_value` and `get_value` are not modelled. Their data comes back as results instead: the error value, the physical address, and the byte loaded.
- `exit(1)` on out of memory becomes an `OutOfMemory` result. The memory is left exactly as the C code leaves it when it exits, with the frames already taken still marked used. Nothing after it is modelled, because the C program ends there.
- Lifecycle.NewProcess, Lifecycle.Kill and PageTables.Translate reject a process id outside 0..191 with `InvalidProcess` before touching memory. The C code does not check the id, and uses byte 64 + p as the directory slot. That byte is defined for p from -64 to 16319 and is outside `mem` (undefined behaviour) otherwise. For p from -64 to -1 it is a free-map byte; `kp -63`, for example, reads byte 1 as the table frame and then clears byte 1. For p from 192 to 16319 it is a byte of some other frame, read and written like a slot. The C `new_process` also takes its table and data frames before it writes such a slot. The model does not capture any of these writes.
- PageTables.Translate reports `AddressOutOfRange` for a negative virtual address, for a virtual page of 64 or more, and for a physical address outside `mem`. For a virtual page of 64 or more, C reads byte `(pt << 8) | page`, which is past entry 63 of the table frame, in another frame, or outside `mem`.
- Simulator.Memory.VaddrToPaddr, StoreValue, GetValue and KillProcess follow the corrected functions `Translate` and `Kill`, not the C code. The C arithmetic is kept in `PageTables.TranslateAsWritten`, `PageTables.StoreAsWritten` and `Lifecycle.KillAsWritten`. These cover an unmapped entry and a process without a table (whose directory byte 0 makes the free map its table), and the cases are exhibited under Findings. They do not cover an id outside 0..191, or a C address outside `mem`.
- Simulator.Memory.NewProcess follows the corrected creation `Lifecycle.NewProcessCleared`, not the C code. The C creation is kept in `Lifecycle.NewProcess`, and the stale entries it leaves are exhibited under Findings.
- Properties.CreateThenKillRestoresFreeMap is about the C creation, so it requires the table frame's entries past the new page count to be zero. Frames are never cleared there, so a reused table frame can hold stale entries, and `free_process_pages` frees whatever they name. Properties.ClearedCreateThenKillRestoresFreeMap states the same without that requirement for the corrected creation.
- PageTables.StoreThenLoad excludes a store that overwrites the table entry its own translation reads. That can happen only through a stale entry naming the table frame itself. Ownership.ConsistentStoreThenLoad drops the exclusion for memories that keep `Consistent`, which include every state of `Simulator.Memory`.
- Lifecycle.ReleaseEntriesBytes covers tables in frames 1..63. A table in frame 0 is the kill-without-table hazard under Findings.
- Simulator.Memory.SetupPageTable stands for both first-fit scans. `find_free_pages` repeats the scan of `setup_page_table` inline, and the method uses the one method for both.
- C's 32-bit `int` is not modelled for virtual addresses and stored values. Both are unbounded integers; the stored value is reduced modulo 256, as the conversion to `unsigned char` does. Every other quantity stays far below 2^31.

## Findings

| source | as written | input that shows it | evidently intended | confidence | as-written member | corrected member |
|---|---|---|---|---|---|---|
| ptsim.c:123-131 | `vaddr_to_paddr` uses a zero (unmapped) table entry as frame 0, so the address falls inside the free map or the directory | `np 0 1` then `sb 0 320 9`: address 320 is page 1 offset 64; entry 1 is 0, so the store writes byte 64, process 0's own directory slot | an unmapped page is reported as an error and nothing is written | not executed | Findings.StoreToUnmappedPageHitsDirectory | PageTables.Translate |
| ptsim.c:117-121 | `kill_process` on a process with no page table walks frame 0 as its table | `np 0 1` then `kp 5`: entry 0 of "table" 0 is the byte 1 that marks frame 0 used, so frame 1 (process 0's table) is marked free; then frame 0 itself is marked free | a process without a table is reported and memory is left alone | not executed | Findings.KillWithoutTableFreesFrameZero | Lifecycle.Kill |
| ptsim.c:123-141 | `vaddr_to_paddr` on a process with no page table reads the free map as its table | `np 0 1` then `sb 5 0 7`: process 5's directory byte is 0, so entry 0 is free-map byte 0, which is 1; the store writes byte 256, entry 0 of process 0's table, changing it from frame 2 to frame 7 | a process without a table is reported and nothing is written | not executed | Findings.StoreWithoutTableHitsAnotherTable | PageTables.Translate |
| ptsim.c:50-110 | `new_process` takes a table frame without clearing it, so entries past the new page count keep what an earlier owner left there | `np 0 1`, `kp 0`, `np 1 0`, `np 2 0`: process 1 gets frame 1, whose entry 0 still names frame 2; `np 2 0` makes frame 2 process 2's table; process 1's address 0 now lands in process 2's table, and `kp 1` marks frame 2 free under process 2 | every nonzero entry of a live table names a frame that process owns | not executed | Findings.StaleEntryReachesAnotherTable | Lifecycle.NewProcessCleared |
