# Verified model of rambrain's swapping core

rambrain extends RAM by moving chunks of memory to swap files. This project models, in Dafny 4.11, the three
coupled parts that decide whether a user gets back the bytes that were written: the page-file allocator and
scatter/gather store (`managedFileSwap`), the life cycle of chunks with its asynchronous I/O (`managedMemory`),
and the cyclic scheduler (`cyclicManagedMemory`). `dafny verify dfyconfig.toml` checks everything.

The layout follows one pattern. Values describe what the data structures mean and what each operation does to
them; the theorems are about these values. Classes hold the fields that the program updates in place; each of
their methods is proved to do exactly what the value says.

## Page files

- `PageSpace`, `PageAlloc`, `PageChains`: the swap files as a map from global offsets to blocks. Blocks tile the
  files, free blocks are merged within a file, chains carry exactly the bytes asked for. `Canonical` is the key: the
  free blocks are determined by the blocks in use, so freeing undoes allocating, frees commute, and freeing everything
  restores the initial layout, however operations were interleaved.
- `PageFiles`: the classes with `all_space` and `free_space`, where location objects are split, merged and relabelled
  in place.

## Life cycle

- `Lifecycle`: user calls, the steps of a `copyMem` call and arrivals in any order, as one machine over chunks, trackers,
  counters, page files and the bytes on disk. `Disk`, `Ownership`, `SwapInvariant`, `Invariant`, `Preservation`, `Arrivals`
  and `Reachable` prove its invariant for every run.
- `Refinement`: the file swap refines the dummy swap, and a chunk keeps its bytes over every run in which nobody writes or
  frees it. `Pinning`, `Completion` and `Accounting` prove what users of the manager rely on besides.
- `FileSwap`: the class with the counters, chunks and trackers; loops for cleaning, scheduling and placing; each method takes
  the steps of the machine. `Choosing`: what is swapped out when room has to be made is what the scheduler's walk over its ring
  selects. `Capacity`: when room can be made, and when the swap refuses nothing on the way. `Manager`: the calls of the user with the
  waits they contain; when they succeed, why they fail, and that `ensureEnoughSpace` comes to an end.
  `DummySwap`: the swap that keeps chunks in RAM buffers, as classes.
- `Family`: the tree of chunks under parental control and its recursive deletion.

## Scheduler

- `Ring`, `Scheduler`, `Filtering`, `SwappingOut`, `SwapOutOrder`, `Decaying`, `SwappingIn`, `ReadingAhead`: the doubly linked ring
  and its three cursors, changed link by link. Every method says exactly what is then read from `active`, and whether it leaves one
  cycle over the same elements; all do, but for one case of reading ahead.
- `Sections`, `Unloading`, `Yielding`, `AheadOrder`: that reading as a sequence with three sections, which is the order that
  `checkCycle` looks for, and exactly when each operation keeps it. `Yielding` is about a `swapOut` that takes `active` itself.

## Where the code does not keep what it seems to promise

The code was kept as it is, and the condition under which it does meet the expectation is proved as an equivalence.
`Corners` (states that satisfy the whole invariant) and `OrderCorners` (rings in order) give small inputs.

- Asking `allocInFree` for no bytes takes the free block out of the map (`CarveZero`, `EmptyRequest`).
- `pfmalloc` throws when dropping cached copies in the order of their ids releases exactly what was missing (`PfmallocFails`,
  `JustEnoughFails`).
- A chunk that is freed while it swaps in stays in `memory_used` (`MfreeLeak`, `FreedOnItsWayIn`).
- A `setUse` that fails leaves its use counted (`SetUse`, `FailedUse`), and the chunk can then not be swapped out (`CountedStays`).
- If what `swapIn` wants to read fits into RAM although the requested chunk alone does not, no room is made and the use fails (`SetUse`,
  where `Covers` does not hold: `preemptiveBytes` exceeds what may be read ahead).
- Deleting the only element of the first section breaks the order, and registering another does not mend it
  (`DeleteKeepsOrder`, `DeleteLosesOrder`, `RegisterAfterLoss`).
- `swapOut` breaks the order when the swap refuses a chunk that was loaded on a guess (`UnloadKeepsOrder`, `RefusedGuess`), also when
  it refuses everything and `swapOut` returns early (`RefusedKeepsOrder`, `RefusedAll`), and mostly when `active` is among what it has
  selected (`YieldKeepsOrder`, `YieldRefusedOrder`, `ActiveSwappedOut`). `SwapOutKeepsOrder` has all cases together.
- An empty chunk at the end of the selection is counted by the first pass of `swapOut` and not listed by the second
  (`PassesAgree`, `EmptyVictimIsLost`).
- `decay` throws, and loses the order, exactly if the swap refuses anything it has selected (`Decay`, `RefusedDecay`).
- `swapIn` of a chunk alone breaks the order if everything is out and `active` is still swapping out (`LoadKeepsOrder`,
  `LoadLosesOrder`).
- Reading ahead breaks the order when the swap refuses one of the chunks, or if everything is out and `active` is still swapping out
  (`LoadedKeepsOrder`, `RefusedAhead`, `LeavingAhead`); if everything is out and `active` is requested, in most cases
  (`ActiveKeepsOrder`, `ActiveAhead`).
- Reading ahead tears `active` and what was read with it out of the ring, if `active` has come in, was not the requested chunk, and
  the run looked at was not the whole ring (`SwapInAhead`, `Reinsert`, `TornRing`).

## Model

| member | source | states |
|---|---|---|
| PageSpace.EachByteInOneBlock | src/managedFileSwap.cpp:508-513 | tiling: each byte of the swap lies in one block and no more |
| PageSpace.NoFileCrossing | src/managedFileSwap.cpp:508-513 | no block reaches from one page file into the next |
| PageSpace.BytesAddUp | src/managedFileSwap.cpp:1336-1366 | free bytes and the extents of used blocks add up to the swap size |
| PageSpace.Canonical | src/managedFileSwap.cpp:880-946 | two valid layouts with the same used blocks are equal: free space is always maximally merged |
| PageSpace.FreshValid | src/managedFileSwap.cpp:508-513 | the initial layout is valid and has nothing in use |
| PageSpace.AllFreedIsFresh | src/managedFileSwap.cpp:880-946 | with nothing in use each page file is one full free block, whatever happened before |
| PageAlloc.CarveValid | src/managedFileSwap.cpp:845-878 | taking space keeps tiling and merging, and adds just the one used block |
| PageAlloc.CarveZero | src/managedFileSwap.cpp:845-874 | taking space keeps the tiling if and only if something is asked for or the block cannot be split |
| PageAlloc.ReleaseValid | src/managedFileSwap.cpp:880-946 | freeing a part keeps tiling and merging and takes out just that block |
| PageAlloc.ReleaseUndoesCarve | src/managedFileSwap.cpp:845-946 | merging is the inverse of splitting: freeing what was just taken restores the space |
| PageChains.AllocPlaced | src/managedFileSwap.cpp:752-843 | once the free bytes suffice allocation succeeds with a chain of exactly the size in formerly free blocks, in one part at the lowest fitting offset if and only if some block fits |
| PageChains.OverheadIsLast | src/managedFileSwap.cpp:852-864 | only the last part of a chain loses bytes to padding and slack |
| PageChains.FreeUndoesAlloc | src/managedFileSwap.cpp:752-946 | freeing an allocation restores the space, however it was scattered |
| PageChains.FreesCommute | src/managedFileSwap.cpp:880-946 | two chains may be freed in either order with the same result |
| PageChains.ReleaseChainValid | src/managedFileSwap.cpp:880-946 | freeing a chain keeps the space valid and takes out exactly its parts |
| PageFiles.PageFiles.constructor | src/managedFileSwap.cpp:508-513 | the maps represent a row of empty files, with all of it as free swap |
| PageFiles.PageFiles.AllocInFree | src/managedFileSwap.cpp:845-878 | the object and both maps represent the carved space; swapFree loses padding and slack |
| PageFiles.PageFiles.FirstFit | src/managedFileSwap.cpp:764-772 | finds the lowest free location that takes the bytes in one piece, if there is one |
| PageFiles.PageFiles.CountFree | src/managedFileSwap.cpp:781-788 | counts free bytes up to the request, and all of them if they are too few |
| PageFiles.PageFiles.PlaceAt | src/managedFileSwap.cpp:774-779 | room in one piece: the maps represent the carved space, other used locations keep their objects |
| PageFiles.PageFiles.ScatterOver | src/managedFileSwap.cpp:798-835 | room in several pieces: the scattered allocation of the specification, with linked location objects |
| PageFiles.PageFiles.Pffree | src/managedFileSwap.cpp:880-946 | walking the links frees exactly the chain; overhead comes back into swapFree |
| PageFiles.PageFiles.ExtendSwap | src/managedFileSwap.cpp:699-723 | whole files are added behind the old ones if the disk has room, else nothing changes |
| Disk.PartsMakeWhole | src/managedFileSwap.cpp:1311-1332 | a buffer that agrees with the disk part by part holds what reading the whole chain gives |
| Reachable.KeepsStep | src/managedFileSwap.cpp:950-1399 | every step keeps the invariant: spaces, ownership, bytes, trackers, books, RAM ceiling |
| Reachable.ReachableInv | src/managedMemory.cpp:152-528 | every state that a run can reach satisfies the invariant, where no chunk is freed on its way in; `MfreeLeak` treats that case apart |
| Refinement.RefinesStep | src/managedDummySwap.cpp:37-119 | one step of the file swap is what the dummy swap does in the events that can be seen |
| Refinement.RefinesRun | src/managedDummySwap.cpp:37-119 | over every run and order of arrivals the file swap behaves like the dummy swap |
| Refinement.BytesSurvive | src/managedFileSwap.cpp:962-1047 | a chunk that is neither written nor freed keeps its bytes through every run |
| Refinement.ReadsBack | src/managedFileSwap.cpp:962-1047 | a user who finds the chunk resident again finds the bytes that were there |
| Pinning.HeldStep | src/managedMemory.cpp:423-447 | no step but the last unsetUse moves a chunk in use or gives it a disk copy |
| Pinning.Pinned | src/managedMemory.cpp:339-447 | from setUse to the matching unsetUse the chunk stays in the same buffer in every interleaving |
| Pinning.CountedStays | src/managedMemory.cpp:343-351 | a use that stays counted keeps the chunk from being swapped out over every run |
| Pinning.UsesBalance | src/managedMemory.cpp:339-447 | over every run the use count changes by one for each use begun, also a failed one, less exactly the uses given back |
| Completion.TransferStep | src/managedFileSwap.cpp:1079-1097 | each step does one unit of a transfer's work or does not concern it; it completes with the last unit, in status SWAPIN or SWAPOUT |
| Completion.NotStuck | src/managedFileSwap.cpp:1311-1332 | a transfer always has a step that drives it |
| Completion.EndsWhenDone | src/managedFileSwap.cpp:1274-1307 | in every interleaving a transfer ends with exactly the last of its steps |
| Completion.OncePerTransfer | src/managedFileSwap.cpp:1154-1207 | completeTransactionOn runs exactly once for each transfer that has begun and is over |
| Completion.QueueCounts | src/managedFileSwap.cpp:1079-1298 | totalSwapActionsQueued is the parts in flight plus the open copyMem call, and zero only if nothing is pending |
| Completion.TransferLength | src/managedFileSwap.cpp:1092-1098 | rounding a part's length up never reaches beyond the part |
| Accounting.SwapAddsUp | src/managedFileSwap.cpp:852-923 | swapFree + swapUsed + padding and slack of all used parts = swap size |
| Accounting.BooksBalance | src/cyclicManagedMemory.cpp:697-745 | every reachable state: each counter is the sum of sizes it stands for, and RAM that is not leaving is at most memory_max |
| Accounting.AllFreed | src/managedSwap.cpp:35-44 | once all chunks are gone every file is one free block and every counter is back at its start |
| Accounting.CleaningExact | src/managedFileSwap.cpp:1370-1391 | cleaning reports what it dropped, and stops only when it has enough or no copy is left |
| Accounting.CleanedToTheByte | src/managedFileSwap.cpp:1370-1391 | cleaning drops exactly what was asked for if and only if the cached copies, summed in the order of their ids, reach that sum at some id |
| Accounting.PfmallocFails | src/managedFileSwap.cpp:752-843 | which outcome pfmalloc has, if and only if a condition on the state before holds: it throws exactly if the cached copies, summed in the order of their ids, reach what is missing to the byte; enough bytes are free then |
| Accounting.RewriteChangesNothing | src/managedFileSwap.cpp:1005-1018 | cache coherence: writing a cached chunk again would not change a byte on disk |
| Accounting.MfreeLeak | src/managedMemory.cpp:517-523 | the books stay right if and only if the freed chunk was not swapping in; else memory_used keeps its size |
| FileSwap.ManagedFileSwap.constructor | src/managedFileSwap.cpp:508-513 | the objects represent the start state of the machine |
| FileSwap.ManagedFileSwap.ClaimUsageof | src/managedSwap.cpp:35-44 | RAM is booked by the manager, swap by the manager and the swap together |
| FileSwap.ManagedFileSwap.InvalidateCacheFor | src/managedFileSwap.cpp:1393-1399 | the chunk gives its parts back and forgets them |
| FileSwap.ManagedFileSwap.CleanupCachedElements | src/managedFileSwap.cpp:1370-1391 | the walk over all chunks drops what the specification drops; true only for strictly more than asked |
| FileSwap.ManagedFileSwap.Pfmalloc | src/managedFileSwap.cpp:752-843 | outcome, chain and state are those of the specification: whole, scattered, or after cleaning |
| FileSwap.ManagedFileSwap.CompleteTransactionOn | src/managedFileSwap.cpp:1154-1207 | settles the chunk and the counters; synchronised exactly if the chunk was swapping in or out |
| FileSwap.ManagedFileSwap.Transmit | src/managedFileSwap.cpp:1092-1098 | the bytes of one part move between the buffer at its offset and the disk |
| FileSwap.ManagedFileSwap.AsyncIoArrived | src/managedFileSwap.cpp:1274-1307 | takes the arrival step, and is never out of synchronisation |
| FileSwap.ManagedFileSwap.CopyMem | src/managedFileSwap.cpp:1311-1332 | schedules each part once and takes its own count back; all parts are in flight afterwards |
| FileSwap.ManagedFileSwap.SwapOut | src/managedFileSwap.cpp:994-1038 | takes the steps of the machine, keeps the invariant, and reports the chunk's size exactly if it was taken |
| FileSwap.ManagedFileSwap.SwapIn | src/managedFileSwap.cpp:962-983 | a swapped chunk begins to come in, any other is left alone |
| FileSwap.ManagedFileSwap.ExtendSwap | src/managedFileSwap.cpp:699-723 | page files and bytes are added together |
| Manager.InternalSteps | src/managedMemory.cpp:191-238 | what the manager does by itself keeps every chunk's content, and chunks in use in place |
| Manager.CheckForAIO | src/managedFileSwap.cpp:1213-1272 | returns at once if nothing is pending, else after at least one arrival |
| Choosing.ChooseVictims | src/cyclicManagedMemory.cpp:942-1012 | selects from the chunks, in the order of the ring, what the greedy walk of the scheduler selects |
| Choosing.ChoiceFits | src/cyclicManagedMemory.cpp:942-1012 | that selection names idle chunks once each, fits into the free swap, and falls short of the target only if no other idle chunk would fit |
| Choosing.ManagerFollowsRing | src/cyclicManagedMemory.cpp:942-1012 | what the manager chooses are the chunks, in turn, at the positions that swapOut selects on the ring |
| Capacity.ChoiceReaches | src/cyclicManagedMemory.cpp:942-1012 | if all idle chunks fit into the free swap, the selection reaches whatever they can give |
| Capacity.RoomyTakes | src/managedFileSwap.cpp:994-1038 | with free swap for every idle chunk and what its last part may waste, beside the copies of chunks in use, the swap takes each idle chunk |
| Capacity.RoomyRun | src/managedMemory.cpp:191-238 | this stays so through any run of swapping out, cleaning, extending and arrivals, in which then nothing is refused |
| Manager.SwapOutIdle | src/cyclicManagedMemory.cpp:901-1098 | every result if and only if, or only if, its condition; the selection of the walk over the ring is offered in turn; RAM that is not leaving shrinks by exactly the unloaded bytes, all that was selected unless something is refused |
| Manager.EnsureEnoughSpace | src/managedMemory.cpp:191-238 | ends by a decreasing measure; room means sizereq + memory_used <= memory_max; if idle chunks can make room and fit into the free swap it fails only when the swap refuses one of them; out of swap space only without chunks or when pfmalloc throws; refusals only with nothing leaving |
| Manager.Mmalloc | src/managedMemory.cpp:241-295 | room is made first; then the chunk exists, resident with its bytes; otherwise nothing is booked. It succeeds for sure if idle chunks can make room and the swap has space for them, and every failure has its cause |
| Manager.SetMemoryLimit | src/managedMemory.cpp:152-181 | the limit is set if and only if it returns true, and the RAM ceiling holds for it; if what has to go is idle and fits into the free swap it returns true unless the swap refuses something |
| Manager.WaitForSwapout | src/managedMemory.cpp:786-804 | ends; true exactly if the chunk was on its way out, which it then has left |
| Manager.WaitForSwapin | src/managedMemory.cpp:764-784 | ends; true exactly if the chunk was not on its way out, and then it is resident |
| Manager.SetUse | src/managedMemory.cpp:339-383 | success gives the chunk in use with the bytes it had before. A chunk that is there or coming is always delivered; one that is out if idle chunks can make room and the swap has space for them; one on disk that fits, unless pfmalloc throws, and always if nothing is swapped out first. Failure has its cause and leaves the use counted |
| Manager.UnsetUse | src/managedMemory.cpp:423-447 | refused exactly if too many or no uses are given back; else the count drops by just these, and the chunk becomes idle with the last |
| Manager.Mfree | src/managedMemory.cpp:466-528 | refused exactly for chunks in use; waits for parts in flight; the books are right unless the chunk was swapping in |
| Manager.WaitForCleanExit | src/managedSwap.cpp:46-54 | ends with nothing pending and every chunk settled |
| DummySwap.ManagedDummySwap.SwapOut | src/managedDummySwap.cpp:37-64 | refused exactly if it would overfill the swap; the bytes move to a new buffer; books balance |
| DummySwap.ManagedDummySwap.SwapOutList | src/managedDummySwap.cpp:67-74 | the store takes the events of those chunks that fit when their turn comes |
| DummySwap.ManagedDummySwap.SwapIn | src/managedDummySwap.cpp:77-100 | the bytes move back; books balance |
| DummySwap.ManagedDummySwap.SwapInList | src/managedDummySwap.cpp:103-110 | all listed chunks come back, in turn |
| DummySwap.ManagedDummySwap.SwapDelete | src/managedDummySwap.cpp:113-119 | the books are those of the store without the chunk |
| Family.PostorderOnce | src/managedMemory.cpp:603-622 | the order of deletion names each chunk of the trees once |
| Family.DetachedSiblings | src/managedMemory.cpp:494-511 | taking one chunk out leaves the others of the sibling list in their order |
| Family.Family.Enter | src/managedMemory.cpp:264-281 | a new chunk becomes the first child of its parent |
| Family.Family.Mfree | src/managedMemory.cpp:466-527 | refused exactly for chunks in use or with children; else removes just this chunk and its entry in the sibling list |
| Family.Family.RecursiveMfree | src/managedMemory.cpp:603-622 | ends; frees exactly the listed trees, children before parents, without ever being refused |
| Family.Family.Destroy | src/managedMemory.cpp:96-122 | the destructor leaves no chunk |
| Sections.RegisterKeepsOrder | src/cyclicManagedMemory.cpp:52-78 | registering a resident chunk keeps the order |
| Sections.DeleteKeepsOrder | src/cyclicManagedMemory.cpp:80-126 | deleting keeps the order if and only if it does not take the only element of the first section from others |
| Sections.TouchKeepsOrder | src/cyclicManagedMemory.cpp:128-191 | touching any resident chunk keeps the order |
| Sections.LoadKeepsOrder | src/cyclicManagedMemory.cpp:601-634 | loading one chunk keeps the order, with its one exception |
| Scheduler.CyclicManagedMemory.SchedulerRegister | src/cyclicManagedMemory.cpp:52-78 | one ring with the new element first; the sections are those of the specification |
| Scheduler.CyclicManagedMemory.SchedulerDelete | src/cyclicManagedMemory.cpp:80-126 | one ring over the other elements; the sections are those of the specification |
| Scheduler.CyclicManagedMemory.Touch | src/cyclicManagedMemory.cpp:128-191 | all branches are the same move to the front, with the cursors and preemptiveBytes that belong to it |
| Filtering.InsertBefore | src/cyclicManagedMemory.cpp:212-222 | a run goes in front of a position, giving one ring |
| Ring.PartitionStable | src/cyclicManagedMemory.cpp:224-307 | on both sides of a division elements stand in the order in which they stood before |
| Filtering.FilterChain | src/cyclicManagedMemory.cpp:224-307 | a stable partition in place of any run, also the whole ring; the rest is left alone |
| Unloading.VictimsGreedy | src/cyclicManagedMemory.cpp:942-1012 | a chunk is selected if and only if it is idle, too little was selected before it, and it still fits |
| Unloading.VictimsFit | src/cyclicManagedMemory.cpp:942-1012 | the selection fits into the free swap |
| Unloading.PassesAgree | src/cyclicManagedMemory.cpp:942-1012 | the filling pass selects what the counting pass did if and only if the last selected chunk is not empty |
| Unloading.UnloadKeepsOrder | src/cyclicManagedMemory.cpp:1021-1073 | with active not selected, reordering keeps the order if and only if no guessed chunk was refused |
| Yielding.YieldKeepsOrder | src/cyclicManagedMemory.cpp:1013-1073 | with active selected and something gone out, exactly when the order is kept |
| Yielding.YieldRefusedOrder | src/cyclicManagedMemory.cpp:1013-1020 | with active selected and everything refused, the order is kept only if there is but one chunk |
| SwapOutOrder.RefusedKeepsOrder | src/cyclicManagedMemory.cpp:1013-1020 | after the early return the order holds if and only if no guessed chunk had been selected |
| SwappingOut.CountVictims | src/cyclicManagedMemory.cpp:942-964 | the first pass counts the greedy selection and its bytes |
| Unloading.SecondPass | src/cyclicManagedMemory.cpp:982-1012 | the second pass selects the first of the chunks that were counted, with all bytes that were counted |
| SwappingOut.FillVictims | src/cyclicManagedMemory.cpp:982-1012 | the second pass puts these on the list, all of them exactly if the last one counted is not empty, clears flags, moves active, and finds where the walk ended |
| SwappingOut.Reorder | src/cyclicManagedMemory.cpp:1025-1054 | the ring after filtering: what stayed keeps its order, what has gone out follows behind counterActive |
| SwapOutOrder.UnloadAndRearrange | src/cyclicManagedMemory.cpp:942-1073 | one ring over the same elements, and exactly the sections of the specification, active selected or not, something gone out or not |
| SwapOutOrder.SwapOut | src/cyclicManagedMemory.cpp:901-1098 | every error code if and only if its condition; success means min_size bytes; the goal is what is wanted if that is more than min_size and fits into the free swap, else min_size, and is reached unless each idle chunk left over would exceed the free swap; the resulting sections in every case |
| SwapOutOrder.SwapOutKeepsOrder | src/cyclicManagedMemory.cpp:1013-1073 | from an ordered ring, the ring that swapOut leaves is in order if and only if the condition of the case holds |
| Decaying.DecayKeepsOrder | src/cyclicManagedMemory.cpp:309-378 | decay keeps the order when the swap takes everything |
| Decaying.FadingFor | src/cyclicManagedMemory.cpp:309-343 | a guess is selected if and only if it is idle, less than the guessed bytes, the bytes to decay and the free swap was selected before it, and it stays strictly below guessed bytes and free swap; short of that only if no such guess is left |
| Decaying.Decay | src/cyclicManagedMemory.cpp:309-378 | that selection; one ring with exactly the sections of the specification; false exactly where the code throws, which is exactly when the order is lost |
| SwappingIn.PicksGreedy | src/cyclicManagedMemory.cpp:471-542 | besides the requested chunk one is read if and only if it is swapped out, fits into RAM and into the read-ahead budget with what was selected before, and that reaches neither the target nor exactly the budget |
| SwappingIn.PickEndIs | src/cyclicManagedMemory.cpp:490-498 | the walk stops at the last chunk selected if the target or exactly the budget is reached, else at the border |
| SwappingIn.PicksFit | src/cyclicManagedMemory.cpp:471-542 | what is loaded fits into RAM, and all of it but one chunk into the read-ahead budget |
| SwappingIn.LoadAlone | src/cyclicManagedMemory.cpp:601-634 | the ring and its sections after loading one chunk |
| AheadOrder.LoadedKeepsOrder | src/cyclicManagedMemory.cpp:543-597 | reading ahead behind active keeps the order if and only if no chunk was refused and it is not the case that everything was out and active is still leaving |
| AheadOrder.ActiveKeepsOrder | src/cyclicManagedMemory.cpp:553-589 | everything was out and active is requested: exactly when the order is kept |
| ReadingAhead.Reinsert | src/cyclicManagedMemory.cpp:553-589 | the run without what has come in, and that in front of active, as one ring; or, if active has come in apart from the request and the run is not the whole ring, a ring of its own from active on |
| ReadingAhead.SwapInAhead | src/cyclicManagedMemory.cpp:465-594 | for any ring and border: the greedy selection, both passes agreeing; the ring stays one cycle over its elements if and only if active is not torn out; from an ordered ring the exact sections and when they are in order; if the request is refused only statuses and flags have changed |
| OrderCorners.DeleteLosesOrder | src/cyclicManagedMemory.cpp:115-121 | a ring whose order a deletion breaks |
| OrderCorners.RegisterAfterLoss | src/cyclicManagedMemory.cpp:71-74 | registering after such a deletion leaves the order broken, for every ring and chunk |
| OrderCorners.RefusedGuess | src/cyclicManagedMemory.cpp:1021-1073 | a ring and an answer of the swap, which refuses one of two guesses, after which the order is lost |
| OrderCorners.RefusedAll | src/cyclicManagedMemory.cpp:1013-1020 | a ring whose order is lost when swapOut returns early |
| OrderCorners.ActiveSwappedOut | src/cyclicManagedMemory.cpp:1055-1073 | a ring whose order is lost when active is swapped out |
| OrderCorners.EmptyVictimIsLost | src/cyclicManagedMemory.cpp:942-1012 | a selection that the second pass does not repeat |
| OrderCorners.RefusedDecay | src/cyclicManagedMemory.cpp:309-378 | a ring and an answer of the swap with which decay throws and loses the order |
| OrderCorners.LoadLosesOrder | src/cyclicManagedMemory.cpp:618-622 | a ring whose order loading one chunk breaks |
| OrderCorners.RefusedAhead | src/cyclicManagedMemory.cpp:543-597 | a ring whose order is lost when a chunk to be read ahead is refused |
| OrderCorners.LeavingAhead | src/cyclicManagedMemory.cpp:543-597 | a ring on which everything is out, whose order reading ahead breaks |
| OrderCorners.ActiveAhead | src/cyclicManagedMemory.cpp:553-589 | a ring whose order is lost when active is requested and another chunk read ahead with it |
| OrderCorners.TornRing | src/cyclicManagedMemory.cpp:553-589 | a ring, reached by a deletion from one in order, that reading ahead tears apart |
| Corners.EmptyRequest | src/managedFileSwap.cpp:866-874 | a free block that a request for nothing drops from the map |
| Corners.JustEnoughFails | src/managedFileSwap.cpp:789-832 | a state with the whole invariant in which pfmalloc throws with just enough bytes free |
| Corners.FreedOnItsWayIn | src/managedMemory.cpp:517-523 | a state with the whole invariant in which a chunk is freed on its way in, its last part arrives, and its bytes stay booked |
| Corners.FailedUse | src/managedMemory.cpp:343-351 | a state with the whole invariant in which a use fails and stays counted: nothing can come in or go out |

## Left out

- SwapOut: every chunk has at least one byte, as an empty last victim leaves an entry of the list uninitialised (`PassesAgree`, `EmptyVictimIsLost`); the sections are stated for a ring that is in order before.
- Decay: starts from a ring that is in order and whose chunks have at least one byte.
- SwapInAhead: the requested chunk has at least one byte and fits into RAM; if it did not, nothing or another chunk would be selected first. The sections are stated for an ordered ring with `oldBorder` between `counterActive` and the request, or with everything out and `active` requested; in other cases that the ring stays one cycle over the same elements, or exactly how it does not.
- SwapOutIdle: the order of the ring, how far RAM use is above its target, and the policy for more page files are free choices: the selection is that of the scheduler for whatever the ring is, but the manager's calls and the ring's are not run side by side.
- CheckForAIO: a caller that finds another thread waiting already, and returns at once, is not modelled.
- ExtendSwap: a failure to open the new files, after the disk was found to have room for them, is not modelled.
- Mmalloc: asks for at least one byte; the chunk without a buffer that a request for nothing makes is not modelled.
- SetUse: the scheduler's `touch` is proved apart, on the ring.
- UnsetUse: the `swapOut` that the scheduler's `untouch` may start is not part of it.
- ReachableInv: no run frees a chunk that is on its way in, since the books are wrong from then on.
- EnsureEnoughSpace: other user steps do not interleave with its waits, and each wait delivers an arrival; with out-of-swap not fatal it returns where the code would go round until another thread helps.
- SwapInRequested: which chunks are read ahead is a free choice, whether that is done and how many bytes are wanted are parameters; `decay`, which may run first, is proved apart, on the ring; its result false stands for exceptions and for a wait that nobody ends.
- Mfree: waits for all parts in flight before it gives back the first, where the code does so part by part; it needs a known chunk.
- Pfmalloc: the look-ahead past the last free block, whose value is then not used, is not made.
- Touch: the element is passed in, where the code finds it through `schedBuf`.
- Family: the part of mmalloc and mfree that handles the tree is modelled apart from the rest of these calls.
- Locations are linked by global offset instead of by address; chunk records and trackers are values in a map, so that aliasing of chunk objects is not captured.
- Bytes of page files form one sequence that is as long as the swap; truncation to `currentSize` and its growth are not modelled.
- `_mm_malloc` always succeeds; fresh buffers hold arbitrary bytes.
- The fractions behind target sizes and the read-ahead budget, and the probability that turns decay on, are parameters; the unsigned wrap-around of `max_preemptive -= preemptiveBytes` is not modelled, and counters are unbounded integers.
- Mutexes, worker threads and condition variables: each critical section is one atomic step, waits are the points where arrivals come in.
- `unsetUse ( memoryID )` and `setUse ( memoryID )`, which work on a copy of the chunk, `mrealloc`, which throws, `untouch`, `linearMfree`, statistics, signals, printing, configuration, `managedPtr` and several managers at once.
