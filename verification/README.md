# Proofs about the operating-systems assignments

This project models four programs of the repository in Dafny and proves what they are for:

- the **virtual-memory simulator**, a demand-paging machine with a two-level page table, a
  coremap, a swap bitmap and five replacement algorithms, replayed over a trace;
- **blocked matrix multiplication**, one of its trace programs, against the plain product;
- the **system-call monitor**, a kernel module that intercepts system calls and logs chosen
  processes;
- the **ext2 tools** `mkdir`, `ln` and `rm`, which edit a mapped disk image.

`dafny verify dfyconfig.toml` checks everything.

## How it is built

*Virtual memory.* `Replay` is paging with the victim left open: only which pages are resident
matters. Over it `Optimal` proves Belady's theorem and `Competitive` the bound for conservative
policies. `Policies` states LRU, FIFO and CLOCK on lists of pages; `ConservativePolicies` and
`Recency` prove what those lists mean. `ReferenceList` and `OptPolicy` are the linked structures of
lru.c, fifo.c, clock.c and opt.c, node by node, each shown to do what the list functions say.
`PageEntries`, `PageTable`, `SwapBitmap`, `Coremap` and `Memory` hold the simulated hardware.
`Paging` is the whole simulator as one transition per trace line; `PagingLaws` and `Survival` prove
what it keeps over any run. `Simulator` and `Simulation` are the imperative program, from `main` to
the counters, shown to be that transition system with victims as the chosen algorithm demands.
`Repaired` is the same machine with the swap file and the flags of the entries made visible and three
lines of `allocate_frame` open to repair; unrepaired it is `Paging`, line for line.

*Matrices.* `BlockedMatrix` does the index arithmetic of the two layouts, the moving-pointer
conversions and both products over any addition and multiplication. Both programs add the same
products in the same order, so equality is exact and needs no law of arithmetic. The conversions are
compiled in only when `DEBUG` is defined (blocked.c:107-118); `BothPrograms` is about that build.

*Monitor.* `Monitor` is the promise, over sets of process ids (all but finitely many, in black-list
mode) and over runs of commands and exits. `Interceptor` is the module: table entries, pid lists,
the call table, every branch of every command in the order of the code.
`Monitor.StartStop` and `Monitor.ReleaseForgets` are two small facts about single commands.

*ext2.* `DirectoryBlock` treats one block of entries, `Ext2Image` a whole image, its consistency and
the changes the tools make as values, and `Ext2Laws` what each change keeps. `Ext2Lookup` is about
paths: where they lead, what the lookup answers, and when the two agree. `Ext2Tools` and `Ext2Release`
say exactly when making a directory, adding a link and giving a file back leave an image consistent,
`Ext2Commands` puts the three commands together, `Ext2Answers` says what each answers and which
inodes it touches, and `Ext2Disk` is the loops over bitmap bytes and entry lengths that carry them
out in place. `Ext2Village` has the images on which they go wrong.

*Shared.* `Sets` has the few facts about sizes of finite sets that several modules use.

## Where the code falls short, and exactly when

- A page that was written out comes back zeroed: `allocate_frame` overwrites every flag of the new
  entry (pagetable.c:65-66), nothing ever sets `PG_ONSWAP`, so swap is written and never read.
  `Survival.SurvivesIffNeverSwapped` says exactly which counters survive, and
  `Simulator.Simulator.ReplayLine` says it for each access, by the swap offset that the page's entry
  has before it; `Survival.WriteLost` is a trace that loses a write. The frame number handed to
  `swap_pageout` is shifted a second time (pagetable.c:45); the model shifts it too. Three repairs
  would do, and no two of them: `Repaired.RepairsExact`.
- `del_pid` stops before the last system call (interceptor.c:153), although every list is meant:
  `Monitor.ExitForgets`, and `Monitor.LastCallKeepsExited` after two commands by root.
- In black-list mode a failed allocation is not reported (interceptor.c:494): a stop that reports
  success has ended the watching exactly when processes are listed one by one or the allocation
  succeeds (`Monitor.StopTakesEffect`), and `Monitor.UnreportedStop` has not.
- Unloading does not release intercepted calls: `Interceptor.Module.ExitFunction` and
  `Interceptor.UnloadedWhileIntercepting`. The comment at interceptor.c:313 asks for a valid pid in
  two commands only; the code checks it in all four, and so does the model.
- `find_dir_inode` steps to the next block of the disk where it means the next block of the
  directory (ext2_mkdir.c:278). It looks every path up right exactly if every directory that a path
  leads to is `Unmistaken`, which is about block numbers and the names in those blocks:
  `Ext2Lookup.PathsExact`. In `Ext2Village.VillageMisled` it misses a subdirectory, and in
  `Ext2Village.VillageMkdir` the subdirectory is then made a second time.
- With no block free, `ext2_mkdir` and `ext2_ln` go on with whatever the block pointer held, and
  `ext2_mkdir` with a variable that nothing has set (ext2_mkdir.c:137-148, 199-215,
  ext2_ln.c:295-311); a directory of twelve blocks gets a thirteenth in the place of its indirect
  block. `Ext2Tools.MakingExact` and `Ext2Tools.LinkingExact` say exactly when the image stays
  consistent all the same; in `Ext2Village.FullMkdir` it does not.
- `ext2_ln` counts the link before it finds the name taken: also `Ext2Tools.LinkingExact`, with
  `Ext2Tools.LinkWithoutEntry`.
- Giving back a file's inode and blocks clears 32 bits for each (ext2_rm.c:257, 267, where a zero is
  shifted): `Ext2Release.ReleaseExact` says when no other file or directory is hit, and
  `Ext2Village.VillageRemove` is a file whose removal hits the reserved inodes. With a second link
  the file can be removed (`Ext2Village.VillageLink`, `Ext2Village.VillageUnlink`).

## What is taken as given

The coremap comes from `malloc`; its `in_use` fields are taken as zero. List policies need two frames
(lru.c:29 and fifo.c:28 write through a null pointer otherwise, clock.c:36-46 breaks a ring of one).
Frame numbers are below 2^20, addresses have 36 bits, swap has at most 2^27 slots. OPT reads the same
trace that is replayed. The call table has an entry for every number up to `NR_syscalls`, and on
loading none of its entries belongs to the module. A user's commands and exits are single steps. An
ext2 image is consistent before a command, an unused entry has an empty name, and bit 127 of the block
bitmap, which stands for a block past the end of the image, is set. The blocks of the file system
itself and of files are `held`; the tables and bitmaps are modelled apart from the blocks they lie in, so
that entries written over such a block count as damage to it and do not change the tables. A write
past the image ends a command with `Fault`, and a lookup that comes to a block without entries with
`Strayed`, since what follows is not determined by the code.

## Model

| member | source | states |
|---|---|---|
| `Optimal.MinIsOptimal` | Virtual Memory  /369a2-double loop for opt/opt.c:22-57 | Belady's theorem: from any memory, a run whose every victim is a page used farthest ahead misses no more often than a run with any other legal victims, over every reference string and every number of frames |
| `Optimal.SoonerIsBetter` | Virtual Memory  /369a2-double loop for opt/opt.c:32-54 | the exchange step: of two memories that differ in one page, the one holding the page used sooner can always do at least as well |
| `Optimal.OneApart` | Virtual Memory  /369a2-double loop for opt/opt.c:32-54 | two memories that differ in one page are at most one miss apart |
| `Optimal.FarthestIsMin` | Virtual Memory  /369a2-double loop for opt/opt.c:22-57 | a run each of whose victims was farthest at its time is a MIN run in the sense of MinIsOptimal |
| `OptPolicy.TraceList.constructor` | Virtual Memory  /369a2-double loop for opt/opt.c:72-107 | opt_init builds the linked list of page numbers of the trace, in order, and stands at its head |
| `OptPolicy.TraceList.Advance` | Virtual Memory  /369a2-double loop for opt/opt.c:63-67 | opt_ref moves one reference on |
| `OptPolicy.TraceList.Distance` | Virtual Memory  /369a2-double loop for opt/opt.c:33-46 | the inner loop leaves in the frame's distance field the number of references before the next use of its page, all of the rest when there is none, and changes no other frame; the early return at line 42 is in the method and shown never to be reached |
| `OptPolicy.TraceList.Largest` | Virtual Memory  /369a2-double loop for opt/opt.c:49-54 | of the frames with the largest distance the first is answered |
| `OptPolicy.TraceList.OptEvict` | Virtual Memory  /369a2-double loop for opt/opt.c:22-57 | the frame chosen holds a page whose next use after the current reference is farthest among all frames, and every frame before it a page used strictly sooner; only distance fields change |
| `Competitive.ConservativeIsCompetitive` | Virtual Memory  /369a2-double loop for opt/lru.c:21-81 | any policy that misses at most once per distinct page in stretches of at most k pages misses at most k times as often as any legal run with k frames |
| `Competitive.AtMostKPerPhase` | Virtual Memory  /369a2-double loop for opt/fifo.c:20-64 | a conservative policy pays at most k misses for each phase of the reference string |
| `Competitive.AtLeastOnePerPhase` | Virtual Memory  /369a2-double loop for opt/pagetable.c:26-68 | every legal run of the paging machine pays at least one miss for each phase |
| `ConservativePolicies.PolicyIsConservative` | Virtual Memory  /369a2-double loop for opt/lru.c:21-81 | with k frames LRU, FIFO and CLOCK miss at most once for each distinct page of any stretch with at most k distinct pages, whatever came before |
| `ConservativePolicies.PolicyIsCompetitive` | Virtual Memory  /369a2-double loop for opt/fifo.c:20-64 | LRU, FIFO and CLOCK miss at most k times as often as any legal run from an empty memory |
| `ConservativePolicies.MinBounds` | Virtual Memory  /369a2-double loop for opt/opt.c:22-57 | for LRU, FIFO and CLOCK: at least MIN's misses and at most k times as many |
| `ConservativePolicies.ClockSpares` | Virtual Memory  /369a2-double loop for opt/clock.c:19-58 | the hand of CLOCK never takes a page loaded in a stretch while some resident page lies outside the stretch |
| `Recency.LruIsPrefix` | Virtual Memory  /369a2-double loop for opt/lru.c:21-81 | after any trace the LRU list with k frames is the first k pages in order of last use: the stack property |
| `Recency.LruInclusion` | Virtual Memory  /369a2-double loop for opt/lru.c:21-81 | with more frames the LRU list only grows at its end, and the miss count never increases |
| `Recency.RecencyOrder` | Virtual Memory  /369a2-double loop for opt/lru.c:40-81 | moving to the front keeps exactly the pages used so far, each once, sorted by last use |
| `Recency.LruVictim` | Virtual Memory  /369a2-double loop for opt/lru.c:21-34 | lru_evict takes the least recently used resident page |
| `Recency.FifoOrder` | Virtual Memory  /369a2-double loop for opt/fifo.c:39-64 | after any trace the FIFO list is sorted by load time, newest first |
| `Recency.FifoVictim` | Virtual Memory  /369a2-double loop for opt/fifo.c:20-33 | fifo_evict takes the resident page loaded earliest |
| `Policies.SecondChance` | Virtual Memory  /369a2-double loop for opt/clock.c:19-58 | clock_evict on the list from the hand: the victim is the first page with a clear bit, exactly the bits passed are cleared, and the pages passed go to the end in order |
| `Policies.SecondChanceFullTurn` | Virtual Memory  /369a2-double loop for opt/clock.c:28-46 | with every bit set the hand makes one full turn, clears all bits and takes the page it started at |
| `Policies.PolicyRun` | Virtual Memory  /369a2-double loop for opt/pagetable.c:26-68 | each list policy is one legal way to run the paging machine: the list holds exactly the resident pages and the counts agree |
| `Policies.EvictSound` | Virtual Memory  /369a2-double loop for opt/clock.c:36-55 | eviction removes one listed page and keeps the others, each once |
| `ReferenceList.RefList.EvictLast` | Virtual Memory  /369a2-double loop for opt/lru.c:21-34 | lru_evict and fifo_evict on linked nodes: the last node is cut off and its frame number returned |
| `ReferenceList.RefList.LruRef` | Virtual Memory  /369a2-double loop for opt/lru.c:40-81 | lru_ref on linked nodes: the entry is moved, or added, to the head, and the order of the rest is kept |
| `ReferenceList.RefList.FifoRef` | Virtual Memory  /369a2-double loop for opt/fifo.c:39-64 | fifo_ref on linked nodes: a listed entry stays where it is, a new one becomes the head |
| `ReferenceList.RefList.Sweep` | Virtual Memory  /369a2-double loop for opt/clock.c:23-33 | the loop of clock_evict ends within one turn of the ring, having cleared exactly the bits it passed |
| `ReferenceList.RefList.ClockEvict` | Virtual Memory  /369a2-double loop for opt/clock.c:19-58 | clock_evict on the ring is second chance: same victim, same list, same bits as Policies.Evict, and the ring stays a proper cycle of the remaining nodes |
| `ReferenceList.RefList.ClockRef` | Virtual Memory  /369a2-double loop for opt/clock.c:64-93 | clock_ref: a listed entry keeps its place, a new one enters just behind the hand, and the ring stays closed |
| `ReferenceList.RefList.EvictBy` | Virtual Memory  /369a2-double loop for opt/lru.c:21-34 | eviction of each list policy on linked nodes is Policies.Evict on the list they stand for, and touches nothing but reference bits of entries |
| `ReferenceList.RefList.ReferBy` | Virtual Memory  /369a2-double loop for opt/fifo.c:39-64 | reference of each list policy on linked nodes is Policies.Refer on the list they stand for |
| `Correspondence.EvictRelated` | Virtual Memory  /369a2-double loop for opt/clock.c:19-58 | evicting from a list of entries and from the list of their pages stays in step, bits included |
| `Correspondence.ReferRelated` | Virtual Memory  /369a2-double loop for opt/lru.c:40-81 | referencing an entry and its page keeps the two lists in step |
| `PageEntries.PackFaithful` | Virtual Memory  /369a2-double loop for opt/pagetable.h:11-15 | below 2^20 frames, frame words are equal as records exactly when the 32-bit integers that the code compares are; Simulator.Simulator.Identify rests on it |
| `PageTable.IndexPairIsPage` | Virtual Memory  /369a2-double loop for opt/pagetable.h:39-41 | two addresses share both indices exactly when they lie in one page, and the indices are the halves of the 24-bit page number |
| `PageTable.TwoLevel.constructor` | Virtual Memory  /369a2-double loop for opt/pagetable.c:81-88 | init_pagetable: an empty flat table |
| `PageTable.TwoLevel.InitSecondLevel` | Virtual Memory  /369a2-double loop for opt/pagetable.c:92-115 | a second-level table of distinct, zeroed entries with no swap offset |
| `PageTable.TwoLevel.AddSecondLevel` | Virtual Memory  /369a2-double loop for opt/pagetable.c:159-161 | a new second-level table leaves every existing translation alone, and its entries are new |
| `PageTable.TwoLevel.Locate` | Virtual Memory  /369a2-double loop for opt/pagetable.c:152-165 | the walk yields the flat table's entry of the address's page; distinct pages have distinct entries |
| `SwapBitmap.Bitmap.constructor` | Virtual Memory  /369a2-double loop for opt/swap.c:28-62 | bitmap_create: no index in use, and the bits past nbits marked in advance, for every nbits |
| `SwapBitmap.Bitmap.Alloc` | Virtual Memory  /369a2-double loop for opt/swap.c:64-87 | bitmap_alloc returns the least free index and marks it, or fails exactly when all are in use; neither of its asserts can fire |
| `SwapBitmap.Bitmap.Mark` | Virtual Memory  /369a2-double loop for opt/swap.c:100-111 | mark adds exactly one index to those in use |
| `SwapBitmap.Bitmap.Unmark` | Virtual Memory  /369a2-double loop for opt/swap.c:113-124 | unmark takes exactly one index out of those in use |
| `SwapBitmap.Bitmap.Test` | Virtual Memory  /369a2-double loop for opt/swap.c:127-135 | isset answers whether the index is in use |
| `SwapBitmap.OrBit` | Virtual Memory  /369a2-double loop for opt/swap.c:73-81 | setting one bit of a word changes that bit alone |
| `SwapBitmap.AndNotBit` | Virtual Memory  /369a2-double loop for opt/swap.c:113-124 | clearing one bit of a word changes that bit alone |
| `Memory.Memory.constructor` | Virtual Memory  /369a2-double loop for opt/sim.c:123-129 | no frame in use, an empty page table, an empty swap map, counters at zero |
| `Memory.SlotsApart` | Virtual Memory  /369a2-double loop for opt/swap.c:228-243 | the sixteen bytes of one page's slot lie apart from those of any other's |
| `Memory.Memory.FindFree` | Virtual Memory  /369a2-double loop for opt/pagetable.c:27-35 | the first frame not in use is the one after those in use; none when all are |
| `Memory.Memory.SwapPageOut` | Virtual Memory  /369a2-double loop for opt/swap.c:222-256 | a page without an offset gets the next slot or fails when none is left; the frame's content is stored at the offset and at no other |
| `Memory.Memory.WriteBack` | Virtual Memory  /369a2-double loop for opt/pagetable.c:44-51 | a dirty victim gets a slot at its first write-back and keeps it; fails exactly when it has none and none is left |
| `Memory.Memory.Evict` | Virtual Memory  /369a2-double loop for opt/pagetable.c:42-56 | the victim's entry is invalidated, written back if dirty, the right eviction counter goes up by one, and reference bits are untouched |
| `Memory.Memory.Record` | Virtual Memory  /369a2-double loop for opt/pagetable.c:61-66 | the frame is recorded for the page and every flag of its entry but VALID is reset |
| `Memory.Memory.InitFrame` | Virtual Memory  /369a2-double loop for opt/pagetable.c:127-137 | the frame is zeroed and the address stored in it |
| `Memory.Memory.MarkReferenced` | Virtual Memory  /369a2-double loop for opt/pagetable.c:187-195 | VALID and REF are set, DIRTY exactly if it was or the access is an S or an M, and the coremap notes the address |
| `Memory.Memory.CheckAndCount` | Virtual Memory  /369a2-double loop for opt/sim.c:55-65 | the check compares the stored address; the frame's counter goes up by one exactly on S and M; no other frame and no stored address changes |
| `PagingLaws.RunConsistent` | Virtual Memory  /369a2-double loop for opt/pagetable.c:26-68 | after any trace under any victims: hits plus misses are the references, misses are the frames in use plus clean plus dirty evictions, no page has two frames or two slots |
| `PagingLaws.RunIsReplay` | Virtual Memory  /369a2-double loop for opt/pagetable.c:152-204 | a run of the simulator is a legal run of the open paging machine with the same misses and the same resident pages |
| `PagingLaws.SwapSuffices` | Virtual Memory  /369a2-double loop for opt/swap.c:222-236 | with as many swap slots as the trace has distinct pages no run fails |
| `PagingLaws.StepSlots` | Virtual Memory  /369a2-double loop for opt/pagetable.c:44-51 | slots are handed out in order, only to pages that were resident, and a page keeps its slot |
| `PagingLaws.CounterSinceLoad` | Virtual Memory  /369a2-double loop for opt/pagetable.c:168-195 | a frame's version counter is the number of S and M accesses to its page since the page was last loaded |
| `PagingLaws.EvictionsExact` | Virtual Memory  /369a2-double loop for opt/pagetable.c:42-56 | over any run: dirty evictions are those of pages written (S or M) since their load, clean ones the others, and exactly the pages evicted dirty own a slot |
| `PagingLaws.ContentCheck` | Virtual Memory  /369a2-double loop for opt/sim.c:53-60 | on page-aligned traces the address stored in every frame is its page's own, so the check in access_mem succeeds |
| `PagingLaws.AlignedMatch` | Virtual Memory  /369a2-double loop for opt/sim.c:58-60 | on page-aligned traces every line gives the address of the line that loaded its page |
| `PagingLaws.FailedStays` | Virtual Memory  /369a2-double loop for opt/pagetable.c:46-49 | a run whose swap has filled up does not recover |
| `Survival.SurvivesIffNeverSwapped` | Virtual Memory  /369a2-double loop for opt/pagetable.c:168-184 | as the code stands, a resident page's counter is its total number of writes exactly when it owns no swap slot |
| `Survival.StepHeld` | Virtual Memory  /369a2-double loop for opt/sim.c:62-65 | a line raises the counter of its page's frame by one exactly if it is an S or an M, and leaves the other frames' counters alone |
| `Survival.WriteLost` | Virtual Memory  /369a2-double loop for opt/pagetable.c:65-66 | four accesses on two frames after which a written page holds a zero counter: the flags are overwritten, PG_ONSWAP is never set, and swap is never read |
| `Repaired.RunAsWritten` | Virtual Memory  /369a2-double loop for opt/pagetable.c:26-68 | without repairs the machine with flags, slots and swap file takes the same steps as the paging machine, fails when it fails, and never reads swap |
| `Repaired.RunFlat` | Virtual Memory  /369a2-double loop for opt/pagetable.c:168-184 | with the victim's own frame number passed on and PG_ONSWAP set and kept: after any trace under any victims every page's counter, in its frame or in the swap file at its slot's offset, is its total number of writes, and swap_pagein always finds what it is to read |
| `Repaired.NothingLost` | Virtual Memory  /369a2-double loop for opt/swap.c:188-256 | with the same repairs the counter in a frame is the total number of writes to its page, whatever was written to the swap file and read back |
| `Repaired.OutFaithful` | Virtual Memory  /369a2-double loop for opt/swap.c:222-256 | with them, writing a victim to its offset changes no other page's content on swap and loses nothing |
| `Repaired.CheckHolds` | Virtual Memory  /369a2-double loop for opt/sim.c:53-60 | with the same repairs, on page-aligned traces, every frame and every slot in use holds its page's own address, whatever was written out and read back |
| `Repaired.RepairsExact` | Virtual Memory  /369a2-double loop for opt/pagetable.c:42-66 | some run loses a write exactly unless all three repairs are made: for each one left out there is a trace |
| `Simulator.Simulator.constructor` | Virtual Memory  /369a2-double loop for opt/sim.c:123-153 | main: everything in order for a replay from the first line; OPT has read the trace beforehand |
| `Simulator.Simulator.EvictFcn` | Virtual Memory  /369a2-double loop for opt/sim.c:25-31 | the frame evict_fcn answers: of the page the algorithm names; for OPT the first of the pages used farthest ahead; for the list policies the list gives that page up |
| `Simulator.Simulator.Translate` | Virtual Memory  /369a2-double loop for opt/pagetable.c:159-165 | translation leaves memory and the reference list as they were |
| `Simulator.Simulator.TakeFrame` | Virtual Memory  /369a2-double loop for opt/pagetable.c:26-57 | a free frame, or the frame of a victim the algorithm names, written back if dirty; -1 exactly when the write-back finds no slot |
| `Simulator.Simulator.Obtain` | Virtual Memory  /369a2-double loop for opt/pagetable.c:168-186 | the VALID branch: hit or fresh frame; the swap-in branch is never taken, because no entry ever has PG_ONSWAP |
| `Simulator.Simulator.ValidIffResident` | Virtual Memory  /369a2-double loop for opt/pagetable.c:168-169 | an entry is valid exactly when its page is resident, and its frame number is then that of the page's frame |
| `Simulator.Simulator.Identify` | Virtual Memory  /369a2-double loop for opt/lru.c:52-72 | comparing frame words, as records or as the 32-bit integers the code compares, tells the entry apart from every other listed one |
| `Simulator.Simulator.FindPhyspage` | Virtual Memory  /369a2-double loop for opt/pagetable.c:152-204 | one reference is one step of the paging machine with a victim the algorithm demands, and the list stays exactly the resident pages |
| `Simulator.Simulator.AccessMem` | Virtual Memory  /369a2-double loop for opt/sim.c:53-67 | one trace line: the machine's step, the check against the address stored in the page's frame, and a version counter that goes up by one exactly on S and M, that of no other page's frame |
| `Simulator.Simulator.ReplayLine` | Virtual Memory  /369a2-double loop for opt/sim.c:53-67 | after a line the counter in the accessed page's frame is the number of writes to the page in the trace so far exactly if the page's entry had no swap offset before the line; and the check fails exactly if the line gives another address than the one that loaded the page |
| `Simulator.Simulator.ReplayTrace` | Virtual Memory  /369a2-double loop for opt/sim.c:70-87 | the replay is a run of the paging machine over the whole trace, each victim as the algorithm demands; it fails exactly when the machine's run does; the mismatches counted are the lines that give another address than the one that loaded their page, none on page-aligned traces |
| `Simulator.ProgressStep` | Virtual Memory  /369a2-double loop for opt/sim.c:70-87 | one more line extends the run, the list policy's list and the farthest-so-far record together |
| `Simulation.Simulate` | Virtual Memory  /369a2-double loop for opt/sim.c:90-171 | the whole program: never fails with a slot per distinct page; counters add up; clean and dirty evictions told apart by the S and M lines since the load; a list policy within memsize times any policy; OPT no worse than any policy; no mismatch on page-aligned traces |
| `BlockedMatrix.Shape.PlaceInjective` | Virtual Memory  /369a2-double loop for opt/traceprogs/blocked.c:172-204 | in either layout no two cells share a place |
| `BlockedMatrix.Shape.PlaceOnto` | Virtual Memory  /369a2-double loop for opt/traceprogs/blocked.c:249-319 | in either layout every place of the n*n array is some cell's |
| `BlockedMatrix.ToBlocked` | Virtual Memory  /369a2-double loop for opt/traceprogs/blocked.c:249-279 | To_blocked moves every cell from its row-major to its blocked place, whenever b divides n |
| `BlockedMatrix.FromBlocked` | Virtual Memory  /369a2-double loop for opt/traceprogs/blocked.c:290-319 | From_blocked moves every cell from its blocked to its row-major place |
| `BlockedMatrix.RoundTrip` | Virtual Memory  /369a2-double loop for opt/traceprogs/blocked.c:249-319 | the two conversions are inverse: there and back is the same array |
| `BlockedMatrix.RearrangedUnique` | Virtual Memory  /369a2-double loop for opt/traceprogs/blocked.c:249-319 | a rearrangement determines the array |
| `BlockedMatrix.ZeroC` | Virtual Memory  /369a2-double loop for opt/traceprogs/blocked.c:172-176 | exactly the places of the current block of C are cleared, of those up to its end |
| `BlockedMatrix.AddCell` | Virtual Memory  /369a2-double loop for opt/traceprogs/blocked.c:198-203 | one cell takes up the products of one block column, continuing its sum in the order of k, and no other place changes |
| `BlockedMatrix.MultAdd` | Virtual Memory  /369a2-double loop for opt/traceprogs/blocked.c:193-204 | every cell of the current block takes up the products of block column k_bar, and earlier blocks are untouched |
| `BlockedMatrix.BlockedMatMult` | Virtual Memory  /369a2-double loop for opt/traceprogs/blocked.c:214-223 | C is the product of A and B in blocked storage, each cell summed from zero in the order of k |
| `BlockedMatrix.MatMult` | Virtual Memory  /369a2-double loop for opt/traceprogs/matmul.c:136-146 | C is the product of A and B in row-major storage, each cell summed from zero in the order of k |
| `BlockedMatrix.TwoByTwo` | Virtual Memory  /369a2-double loop for opt/traceprogs/matmul.c:136-146 | the product of two matrices of order two, written out |
| `BlockedMatrix.BlockedIsPlain` | Virtual Memory  /369a2-double loop for opt/traceprogs/blocked.c:107-121 | to blocked storage, blocked product, and back is the plain product, for any addition and multiplication |
| `BlockedMatrix.BothPrograms` | Virtual Memory  /369a2-double loop for opt/traceprogs/blocked.c:107-121 | the two programs on the same factors leave the same array |
| `Monitor.Independent` | System Calls and Monitoring Processes/interceptor.c:389-512 | after any run, whether a process is watched at a call depends only on the events about that process, about everyone, and about intercepting that call |
| `Monitor.UsersConfined` | System Calls and Monitoring Processes/interceptor.c:389-512 | no run of commands by users other than root and of exits changes anything but the watching of processes their callers own or that exit |
| `Monitor.ReplyAnswers` | System Calls and Monitoring Processes/interceptor.c:409-511 | each status is given exactly when the policy before the command asks for it (EPERM without the right, EBUSY when already in, EINVAL when not intercepted or already out, ENOMEM when the list cannot grow), a refused command changes nothing, and each granted one does what it is for |
| `Monitor.StopEndsAll` | System Calls and Monitoring Processes/interceptor.c:478-485 | after any run that ends in root stopping everybody at an intercepted call nobody is watched there, and nobody by default |
| `Monitor.StartWatchesAll` | System Calls and Monitoring Processes/interceptor.c:431-441 | after any run that ends in root starting everybody at an intercepted call everybody is watched there, those not yet born too |
| `Monitor.ExitForgets` | System Calls and Monitoring Processes/interceptor.c:147-176 | an exit takes the process out of every list exactly when the last call, which the loop passes over, does not name it |
| `Monitor.LastCallKeepsExited` | System Calls and Monitoring Processes/interceptor.c:153-153 | from the module just loaded, after two commands by root: a process named at the last call that is still named after its exit |
| `Monitor.UnreportedStop` | System Calls and Monitoring Processes/interceptor.c:493-494 | from the module just loaded, after two commands by root: a stop that reports success although the failed allocation left the process watched |
| `Interceptor.Module.constructor` | System Calls and Monitoring Processes/interceptor.c:540-566 | init_function: exactly two slots of the call table are taken over, no call is intercepted, nobody watched |
| `Interceptor.Module.AddPidSysc` | System Calls and Monitoring Processes/interceptor.c:96-110 | the pid enters at the head and the count goes up, or nothing happens and ENOMEM |
| `Interceptor.Module.DelPidSysc` | System Calls and Monitoring Processes/interceptor.c:116-141 | the pid goes back to being one never named; EINVAL exactly when it was not listed; an emptied list of watched pids ends the monitoring |
| `Interceptor.Module.DelPid` | System Calls and Monitoring Processes/interceptor.c:147-176 | the pid goes back to being one never named at every call but the last; answers whether it was listed anywhere |
| `Interceptor.Module.DestroyList` | System Calls and Monitoring Processes/interceptor.c:181-195 | the list is emptied, its count and the monitored flag are zero |
| `Interceptor.Module.CheckPidMonitored` | System Calls and Monitoring Processes/interceptor.c:216-229 | answers whether the pid is listed |
| `Interceptor.Module.MyExitGroup` | System Calls and Monitoring Processes/interceptor.c:252-258 | an exit is the event Exit on the policies, and control goes on to the original exit_group |
| `Interceptor.Module.Intercept` | System Calls and Monitoring Processes/interceptor.c:279-297 | a call is logged exactly when its caller is in the set of watched processes, in white-list and black-list mode alike |
| `Interceptor.Module.Dispatch` | System Calls and Monitoring Processes/interceptor.c:279-297 | whatever is intercepted, a call ends in the handler it had without interception (the kernel's own, or for exit_group the module's), and is logged exactly when intercepted and watched |
| `Interceptor.Module.SyscallIntercept` | System Calls and Monitoring Processes/interceptor.c:350-359 | the handler is saved and replaced; only that call becomes intercepted |
| `Interceptor.Module.SyscallRelease` | System Calls and Monitoring Processes/interceptor.c:361-372 | the saved handler is put back and that call's policy is cleared |
| `Interceptor.Module.StartMonitoring` | System Calls and Monitoring Processes/interceptor.c:426-470 | the start command: its status is given exactly when it should be, with pid 0 everybody is watched afterwards, with another pid that one more and no other (Monitor.Answered) |
| `Interceptor.Module.StopMonitoring` | System Calls and Monitoring Processes/interceptor.c:472-509 | the stop command: its status is given exactly when it should be, with pid 0 nobody is watched afterwards, with another pid that one no longer and no other changes, save where black-list mode has no memory (Monitor.Answered) |
| `Interceptor.Module.MySyscall` | System Calls and Monitoring Processes/interceptor.c:389-512 | every command: EINVAL and nothing changed exactly for numbers, commands and pids out of range; otherwise status and effect as Monitor.Answered has them, at that call alone; lists keep no duplicates, counts are lengths, and the call table holds the interceptor exactly for intercepted calls |
| `Interceptor.StopSilences` | System Calls and Monitoring Processes/interceptor.c:478-485 | once root has stopped the monitoring of everybody at a call, no caller of it is logged |
| `Interceptor.StartLogs` | System Calls and Monitoring Processes/interceptor.c:431-441 | once root has started the monitoring of everybody at a call, every caller of it is logged |
| `Interceptor.Module.ExitFunction` | System Calls and Monitoring Processes/interceptor.c:578-593 | unloading restores the initial call table exactly when every intercepted call other than exit_group has been released; each of the others is left with the interceptor |
| `Interceptor.UnloadedWhileIntercepting` | System Calls and Monitoring Processes/interceptor.c:540-593 | loading, one intercept command and unloading leave that call with the interceptor of a module that is gone |
| `DirectoryBlock.SplitTiled` | File System/ext2_mkdir.c:176-185 | splitting the last entry of a block keeps the block exactly tiled, every length a multiple of four with room for its name; the last entry keeps the room it needs, the new one has what is left, and the others stay |
| `DirectoryBlock.SlackExact` | File System/ext2_mkdir.c:176-180 | there is room behind the last entry exactly if its length can be divided, in multiples of four, into header and name for itself and for the new name |
| `DirectoryBlock.AloneTiled` | File System/ext2_mkdir.c:214-222 | one entry over a whole block tiles it |
| `DirectoryBlock.DotsTiled` | File System/ext2_mkdir.c:146-160 | the first block of a new directory is tiled, 12 and 1012 bytes, and names exactly the two dots |
| `DirectoryBlock.EraseTiled` | File System/ext2_rm.c:129-134 | clearing an entry keeps its block tiled |
| `DirectoryBlock.TableInsert` | File System/ext2_mkdir.c:162-229 | an entry with a new name adds that name and no other to what a search finds |
| `DirectoryBlock.TableErase` | File System/ext2_rm.c:129-134 | clearing an entry deletes its name and no other from what a search finds |
| `DirectoryBlock.FirstInTable` | File System/ext2_ln.c:152-165 | the first entry with a name is the one a search finds |
| `DirectoryBlock.Walk` | File System/ext2_ln.c:152-173 | adding up entry lengths meets the end of the block exactly at its last entry |
| `Ext2Laws.TakeInodeOwing` | File System/ext2_mkdir.c:109-134 | taking the first free inode for a directory keeps the image consistent but for a block and a name still owed |
| `Ext2Laws.DotsOwing` | File System/ext2_mkdir.c:136-160 | the first block of a new directory: owned by nobody before, and then the image owes only the name |
| `Ext2Laws.InsertOwing` | File System/ext2_mkdir.c:162-229 | the entry owed, put behind the first block's last entry that leaves room or alone in a new block, makes the image consistent, adds one name to that directory and changes no other |
| `Ext2Laws.EraseOwing` | File System/ext2_rm.c:100-134 | clearing a file's entry deletes one name from one directory and owes one link |
| `Ext2Laws.FormattedConsistent` | File System/ext2.h:26-27 | an image of 128 blocks and 32 inodes with nothing but a root directory is consistent |
| `Ext2Disk.Disk.AllocateInode` | File System/ext2_mkdir.c:109-124 | the first free inode is marked and both free counts go down by one; none when all are in use |
| `Ext2Disk.Disk.AllocateBlock` | File System/ext2_mkdir.c:136-145 | the first free block is marked and both free counts go down by one; none when all are in use |
| `Ext2Disk.Disk.FindEntry` | File System/ext2_ln.c:142-173 | the walk by entry lengths over a directory's own blocks finds the first entry of the name, and fails exactly when the directory does not name it |
| `Ext2Disk.Disk.FindSlack` | File System/ext2_mkdir.c:169-192 | finds the first block of a directory whose last entry leaves room for the name |
| `Ext2Laws.ExtendAttaches` | File System/ext2_mkdir.c:196-215 | the next block of a directory, free or found in the pointer, was of no directory and no file |
| `Ext2Lookup.LookupExact` | File System/ext2_mkdir.c:254-284 | searching one directory answers every name as the directory does exactly if: all blocks of the run from its first block on hold entries, every name in a block of its own that the run leaves out is in some block of the run, and what a foreign block is first in the run to name the directory names alike |
| `Ext2Lookup.PathsExact` | File System/ext2_mkdir.c:236-291 | every path is looked up right exactly if every directory that a path leads to satisfies that condition |
| `Ext2Lookup.LookupIfUnmistaken` | File System/ext2_mkdir.c:236-291 | one path is looked up right if the directories along it satisfy the condition |
| `Ext2Lookup.ContiguousUnmistaken` | File System/ext2_mkdir.c:276-279 | a directory in blocks that follow each other satisfies the condition |
| `Ext2Lookup.LookupDirectory` | File System/ext2_mkdir.c:266-288 | whatever the lookup finds is a directory |
| `Ext2Lookup.ResolveChain` | File System/ext2_mkdir.c:236-291 | a path leads to a directory exactly along a chain of directories each of which names the next one |
| `Ext2Lookup.ResolveFails` | File System/ext2_mkdir.c:266-288 | a path is missing exactly if some directory on it does not have the next name, and not one of directories exactly if one has it for something else |
| `Ext2Tools.ExtendNeeds` | File System/ext2_mkdir.c:196-222 | a further block that is neither free nor usable, or a thirteenth, leaves the blocks of directories wrong |
| `Ext2Tools.ExtendDamages` | File System/ext2_mkdir.c:136-148 | with no block free, a first pointer to a block not usable gives some block two owners, or one it must not have |
| `Ext2Tools.InsertNotUnique` | File System/ext2_mkdir.c:224-229 | an entry for a name that is there already leaves the directory with the name twice |
| `Ext2Tools.MakingExact` | File System/ext2_mkdir.c:103-230 | mkdir leaves a consistent image exactly if the name is new and there is room (a free block, or by chance a pointer to a block that nothing uses, for the directory, and room behind an entry or the same once more for the name); consistent means: both free counts are the clear bits, no block has two owners, used blocks are marked, blocks are tiled, names are unique, each directory has link count two plus its subdirectories and one name, each file its link count of names |
| `Ext2Tools.MadeResolves` | File System/ext2_mkdir.c:236-291 | after mkdir the new path leads to the new directory and every path that led to a directory leads to the same one |
| `Ext2Tools.LinkingExact` | File System/ext2_ln.c:180-334 | a hard link leaves a consistent image exactly if the name is new and there is room; and then it adds the one name |
| `Ext2Tools.LinkWithoutEntry` | File System/ext2_ln.c:181-207 | a link counted for a file without the entry leaves the image inconsistent |
| `Ext2Tools.RemoveConsistent` | File System/ext2_rm.c:129-139 | clearing a file's entry and taking back its link keeps the image consistent and deletes the one name |
| `Ext2Tools.PathsKept` | File System/ext2_mkdir.c:236-291 | a path to a directory still leads there after any change that keeps the directories' names |
| `Ext2Release.CountedExact` | File System/ext2_rm.c:142-153 | the free counts agree with the bitmaps after giving a file back exactly if the words cleared hold no other set bit |
| `Ext2Release.ReleaseExact` | File System/ext2_rm.c:139-153 | giving back a file without links leaves a consistent image exactly if the words cleared hold no other set bit |
| `Ext2Commands.MkdirExact` | File System/ext2_mkdir.c:87-233 | once mkdir goes on, the image stays consistent exactly if the name is new in the parent that was looked up and there is room; then the outcome is done, and the new path and all old ones lead where they should |
| `Ext2Commands.RightIsNew` | File System/ext2_mkdir.c:87-101 | where the lookups are right, a name that mkdir goes on with is new |
| `Ext2Commands.LnExact` | File System/ext2_ln.c:123-337 | ext2_ln leaves a consistent image exactly if it fails before it counts the link, or the name is new and there is room |
| `Ext2Commands.RmExact` | File System/ext2_rm.c:123-153 | removing one entry of a file leaves a consistent image exactly if it was not the last link or nothing else goes with the file |
| `Ext2Answers.MkdirAnswered` | File System/ext2_mkdir.c:87-124 | which outcome mkdir has, case by case, from the two lookups and the inode bits |
| `Ext2Answers.MakingTouches` | File System/ext2_mkdir.c:109-135 | of the inodes mkdir changes only the first free one, which becomes a directory of mode EXT2_S_IFDIR, dtime 0, two links and one block, and the parent, which keeps mode and dtime and has a link more once the name is made |
| `Ext2Answers.LnAnswered` | File System/ext2_ln.c:123-207 | which outcome ln has, case by case, from the two lookups, the source's entry and the entry under the new name; only the file's link count and the target directory's length change |
| `Ext2Answers.RmUnlinks` | File System/ext2_rm.c:129-166 | what the removal of one entry leaves: that name is gone and no other, one link less, and with the last link the bits near the file's cleared |
| `Ext2Answers.InsertAnswered` | File System/ext2_mkdir.c:196-222 | when an insertion ends in NoBlock or Fault, and that otherwise the entry is the last of one block and no other block changes |
| `Ext2Village.VillageConsistent` | File System/ext2.h:26-27 | an image with a root directory in two blocks apart, a subdirectory and a regular file is consistent |
| `Ext2Village.VillageMisled` | File System/ext2_mkdir.c:276-279 | on that image the lookup of the subdirectory answers that it is missing |
| `Ext2Village.VillageMkdir` | File System/ext2_mkdir.c:95-101 | so mkdir goes on to make it again and leaves the image inconsistent |
| `Ext2Village.VillageLink` | File System/ext2_ln.c:123-337 | on that image a hard link to the file under any new name ends in done and leaves the image consistent |
| `Ext2Village.VillageUnlink` | File System/ext2_rm.c:81-169 | and then removing the first name ends in done and leaves the image consistent |
| `Ext2Village.VillageRemove` | File System/ext2_rm.c:139-153 | removing the file's only name leaves the image inconsistent |
| `Ext2Village.FullMkdir` | File System/ext2_mkdir.c:136-148 | on a full image with nothing but a root directory mkdir leaves the image inconsistent, for every name but the dots |
| `Ext2Disk.GetBitmap` | File System/ext2_mkdir.c:311-341 | the cells are the first bits of the bitmap's bytes in order |
| `Ext2Disk.SetBitmap` | File System/ext2_mkdir.c:343-358 | exactly one bit is set |
| `Ext2Disk.ClearBitmap` | File System/ext2_rm.c:250-268 | exactly the 32 bits from the start of the bit's byte on are cleared |
| `Ext2Disk.Disk.FindDirEntry` | File System/ext2_mkdir.c:254-284 | the search of one directory answers what the run of disk blocks from its first block on holds under the name |
| `Ext2Disk.Disk.FindDirInode` | File System/ext2_mkdir.c:236-291 | the path lookup is that search, name after name, on every consistent image |
| `Ext2Disk.Disk.InsertEntry` | File System/ext2_mkdir.c:162-229 | without room and with no block free: NoBlock exactly if the next pointer is -1, Fault exactly if it is not and the variable lies past the image, both with nothing changed; otherwise the entry becomes the last of one block and no other block changes; and the image is that of Ext2Tools.Inserting |
| `Ext2Disk.Disk.NewDirectory` | File System/ext2_mkdir.c:103-160 | the new directory's inode and first block, in the first free block or with none free where the stale pointer leads |
| `Ext2Disk.Disk.ReleaseFile` | File System/ext2_rm.c:139-154 | exactly the bits in the 32 from the byte of the inode's bit and of each of at most twelve blocks are cleared, and the counts go up by one for each |
| `Ext2Disk.Disk.Mkdir` | File System/ext2_mkdir.c:87-233 | on every consistent image: ENOENT if the lookup misses the parent, EEXIST if it finds the new path, NotADirectory for a file on the way, NoInode exactly if it goes on with every inode bit set, all with nothing changed; otherwise the first free inode becomes a directory with dtime 0 and two links, no inode but it and its parent changes, and the image stays consistent exactly if the name is new and there is room |
| `Ext2Disk.Disk.Ln` | File System/ext2_ln.c:123-337 | on every consistent image: ENOENT and NotADirectory for a failed lookup, of the target first, ENOENT exactly for a missing source, EISDIR for a directory as source, all with nothing changed; otherwise the file has a link more, and a name taken gives EISDIR for a directory and EEXIST for anything else; consistent exactly if it failed before counting the link, or the name is new and there is room |
| `Ext2Disk.Disk.Rm` | File System/ext2_rm.c:81-166 | on every consistent image: with the parent found ENOENT exactly if it does not have the name and EISDIR exactly if it has it for a directory, with nothing changed; in every other case that name is gone, no other name is, its inode has a link less, no other inode changes, and the bits given back are those near the file's; consistent exactly if it was not the last link or the words cleared hold nothing else |

## Left out

- Ext2Disk.Disk.Ln: the symbolic-link branch is not modelled.
- Ext2Disk.Disk.Rm: a file of more than twelve blocks is given back only up to its indirect block (`Indirect`); ext2_rm.c:155-164 then reads every eighth number of that block and of the blocks behind it.
- Ext2Disk.Disk.FindDirInode: what the lookup makes of bytes that are no directory entries is not modelled; it ends with `Astray`.
- Interceptor.Module.DelPid: leaves the last call alone, as the code does.
- Repaired.RunFlat: is about the code with all three repairs; `Repaired.RunAsWritten` ties the machine without them to the code.
- Simulator.Simulator.ReplayTrace: says nothing about the lines after the one at which swap runs out; the program then goes on with a frame number of -1.
- Files and devices: mapping the image, the swap file, reading traces and arguments, and all printing; traces are sequences of lines and swap is a map from offsets to contents.
- Splitting command-line paths into names: paths are sequences of non-empty names of at most 255 characters.
- `ext2_cp.c`, which holds unresolved merge markers, and `ext2_ls.c`, which repeats the lookup modelled here.
- `bg_used_dirs_count`, time stamps other than `i_dtime`, and every other field the tools never touch.
- The padding bits of the bitmaps past 32 inodes and 128 blocks, which the 32-bit stores also touch.
- Bytes inside directory blocks: a block is a sequence of entries with their lengths, and what an entry's slack holds is not modelled.
- Kernel mechanics of the module: page protection, registers, message formats, locks and interleavings of commands.
- `rand_evict` is any choice of a frame in range; the quality of the random numbers is not a subject.
- Integer width of the counters: they are unbounded here.
- Freed memory: `free` has no counterpart; a node that leaves a list is simply no longer reachable.
- Entries of a second-level page table are objects; the table itself is an immutable sequence of them, which captures in-place updates of entries but not the layout of the table.
- `fastslim.py`, `simpleloop.c`, the page-table printers and rounding of floating-point sums.
