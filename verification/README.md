# A verified model of a repository of course projects

The repository collects the programming projects of several university courses. This project
models the algorithms in it that are hardest to get right, and proves what they promise:

- a heap allocator with boundary tags and a next-fit search (`Allocator.dfy`, `HeapLayout.dfy`);
- 64-bit division built from a 64-by-32-bit divide (`Arithmetic.dfy`, `IntegerFacts.dfy`);
- a random maze generator that keeps one row of labels (`Maze.dfy`, `Graph.dfy`);
- a threaded stock server: a readers-writers lock over a search tree, and the bounded buffer that
  hands connections to its workers (`StockServer.dfy`, `StockTree.dfy`, `BoundedBuffer.dfy`,
  `ThreadSets.dfy`, `FiniteSets.dfy`);
- an intrusive doubly linked list with an in-place natural merge sort (`IntrusiveList.dfy`,
  `NaturalMerge.dfy`, `ListOperations.dfy`), a chained hash table (`HashTable.dfy`, `Bits.dfy`) and
  a bitmap over 32-bit words (`Bitmap.dfy`);
- a small file system: flat files on 512-byte sectors (`InodeIO.dfy`), sector ownership, contents and
  reference counts on top of the bitmap (`InodeLayer.dfy`), a directory of 20-byte entries in such a file
  (`Directory.dfy`), and the calls that create, open, read, write, close and remove files
  (`FilesysBooks.dfy`, `FilesysSpec.dfy`, `FilesysNames.dfy`, `Filesys.dfy`);
- an infix evaluator with two stacks (`Calculator.dfy`);
- string searching (`StringSearch.dfy`), the sorts of a sorting project (`Sorting.dfy`,
  `Rearrangement.dfy`), three searches for the largest rectangle sum (`MaxRectangle.dfy`), the heap
  sort and binary search of a C library (`HeapSort.dfy`), its integer formatting
  (`Stdio.dfy`, `PrintedIntegers.dfy`), and its `atoi` and `vsnprintf` (`Stdio.dfy`).

Code that changes state is modelled by classes, arrays and loops, and each method is proved against
a specification in terms of values; what the code promises is then proved about the specification.
Threads are modelled as a state machine with one semaphore operation or one shared access per step.
Outcomes of memory allocation, of writes to disk, and of `rand` are parameters or arbitrary choices.

Some promises turned out not to hold everywhere. For each, the exact condition is proved:

- `mm_malloc` computes a block size of at most 8 bytes for a request within 15 bytes of the largest
  `size_t`, and the right one for every other request (`Allocator.WrapsIff`). When such a request is
  placed, the heap is no longer a sequence of blocks, except when it wraps to 8 bytes and finds a block of
  16 (`HeapLayout.TinyPlaceIff`, `Allocator.Heap.MmMalloc`).
- `list_swap` damages the list when its second argument comes directly before its first
  (`ListOperations.ListSwap`).
- `middle`, described as choosing the median of three, picks the smallest when the middle element
  lies above the left and not above the right one (`Sorting.Middle`): the code tests one condition
  twice. The sort does not depend on it.
- `nfind` compares nothing for a pattern of one character, so it is right only if that character is in the
  text (`StringSearch.NfindRightIff`).
- `format_integer` pads on both sides when a negative `*` width meets the zero flag
  (`Stdio.FieldWidth`, `Stdio.BothFlags`).
- `format_integer` stops adding zeros at 63 characters, and counts separators as digits, so a larger
  precision is not always met (`Stdio.PrecisionMet`).
- `filesys_create` leaves the data sectors of a new inode marked for good when the name cannot be entered:
  when it is in use, empty or too long, when all 16 slots of the directory are in use, or when its entry is
  not written (`FilesysSpec.CreateLeaksIff`, `FilesysSpec.CreateAgainLeaks`, `FilesysSpec.LeakedForGood`).
- A search of the root directory ends early when a bounce buffer cannot be allocated, which directory.c
  (163-165) assumes away. Then `filesys_create` can overwrite the entry of another file, or enter a name
  twice; it is said exactly when (`FilesysNames.TidyStep`, `FilesysNames.CreateRightIff`,
  `FilesysNames.CutScanLosesName`), and without it the names behave as a map (`FilesysNames.NamesAreMap`).
- `sdiv64` wraps for INT64_MIN / -1, and `umod64` and `smod64` return 32 bits
  (`Arithmetic.Sdiv64IsTruncatedIff`, `Arithmetic.Umod64IsRemainderIff`, `Arithmetic.Smod64IsRemainderIff`).

`dafny verify dfyconfig.toml` checks the whole project.

## Model

| member | source | states |
|---|---|---|
| Allocator.Heap.Run | 2024_1st/CSE4100/Project_04/mm.c:70-225 | from a fresh heap, any sequence of mm_malloc, mm_free and client stores, up to the first request that wraps around in size_t: in every state on the way the header walk tiles the heap, no two free blocks are adjacent, and the live payloads are inside the heap, 8-aligned and pairwise disjoint; and every call does exactly what it should, with the pointer it returns: null for a request exactly for size zero or when no block fits and sbrk runs out, otherwise the next fit or a block cut from the grown end; a free takes its payload only, and merges |
| Allocator.Heap.DoOp | 2024_1st/CSE4100/Project_04/mm.c:94-161 | one call or one store by the client keeps the heap well formed and changes payloads, blocks and search start exactly as its relation says |
| Allocator.Heap.InitWords | 2024_1st/CSE4100/Project_04/mm.c:71-79 | padding, prologue and epilogue make a well-formed heap without room |
| Allocator.Heap.MmInit | 2024_1st/CSE4100/Project_04/mm.c:70-88 | succeeds exactly when the first words and the first chunk fit; then the heap is well formed, has no live payload, and the search starts at the prologue |
| Allocator.Heap.MmMalloc | 2024_1st/CSE4100/Project_04/mm.c:94-126 | for any size_t: null exactly for size zero or when no free block fits and sbrk runs out, and then nothing changed; otherwise the next fit if there is one, and else a block cut from the grown end; for a request that does not wrap around, a new 8-aligned payload of at least the requested size, all other payloads kept; for one that does, the heap stays tiled only in the case that TinyPlaceIff allows |
| Allocator.Heap.Take | 2024_1st/CSE4100/Project_04/mm.c:109-125 | the search, or else the growth, and the placement, for a block size of any number of double words, zero and one included |
| Allocator.Heap.ExtendAndPlace | 2024_1st/CSE4100/Project_04/mm.c:116-125 | without a fit the heap grows by the larger of the block and one chunk, and the block is cut from its end; null exactly when sbrk fails, and then nothing changed |
| Allocator.Heap.MmFree | 2024_1st/CSE4100/Project_04/mm.c:155-161 | exactly this payload goes, every other one keeps its place and its content, and the block is merged with its free neighbours |
| Allocator.Heap.StampFree | 2024_1st/CSE4100/Project_04/mm.c:155-159 | the two stores take this payload away and leave the freed block as the only possible free neighbour of a free block |
| Allocator.SoundIs | 2024_1st/CSE4100/Project_04/mm.c:94-161 | a tiled heap has 8-aligned, pairwise disjoint live payloads inside it |
| Allocator.Heap.FindFit | 2024_1st/CSE4100/Project_04/mm.c:128-150 | the first fitting free block in circular order behind last_bp, and null exactly when no free block fits |
| Allocator.Heap.FitAfter | 2024_1st/CSE4100/Project_04/mm.c:131-137 | the loop to the epilogue finds the first fit behind last_bp or shows there is none |
| Allocator.Heap.FitUpTo | 2024_1st/CSE4100/Project_04/mm.c:139-147 | the loop from the prologue finds the first fit up to and including last_bp or shows there is none |
| Allocator.Heap.Coalesce | 2024_1st/CSE4100/Project_04/mm.c:182-210 | merges with the free neighbours on both sides, moves last_bp to the merged block, restores the rule that no two free blocks are adjacent, and touches no payload |
| Allocator.Heap.Neighbours | 2024_1st/CSE4100/Project_04/mm.c:183-185 | the two tags next to a block identify its neighbours in address order, prologue and epilogue included |
| Allocator.Heap.AtKey | 2024_1st/CSE4100/Project_04/mm.c:43-55 | the macros on a payload pointer read the header word of its block and the footer word in front of it |
| Allocator.Heap.JoinNeighbours | 2024_1st/CSE4100/Project_04/mm.c:187-205 | rewrites only words inside the merged span, and leaves equal header and footer at its ends |
| Allocator.Heap.Join | 2024_1st/CSE4100/Project_04/mm.c:187-205 | in each of the four cases the tags of the merged block are right, although PREV_BLKP, NEXT_BLKP and FTRP read the words again after each store of the same case |
| Allocator.Heap.StampPrev | 2024_1st/CSE4100/Project_04/mm.c:195-199 | merging with the free block in front: footer first, then the header in front, both found through the words as they are by then; the result is the block in front |
| Allocator.Heap.StampBoth | 2024_1st/CSE4100/Project_04/mm.c:200-204 | merging with both neighbours: the header in front, then the footer behind, which is still found through the old sizes of the block and of the one behind it |
| Allocator.Heap.Stamp | 2024_1st/CSE4100/Project_04/mm.c:158-159 | writing header and footer of one block changes those two words only |
| Allocator.Heap.ExtendHeap | 2024_1st/CSE4100/Project_04/mm.c:163-177 | null exactly when sbrk fails, and then nothing changed; otherwise the old epilogue becomes a free block, merged with a free last block, and no payload is touched |
| Allocator.Heap.AddBlock | 2024_1st/CSE4100/Project_04/mm.c:163-174 | the new words become a free block in place of the epilogue: the heap stays well formed, and free neighbours can only be at the new block |
| Allocator.Heap.GrowWords | 2024_1st/CSE4100/Project_04/mm.c:172-174 | a new free block over the old epilogue and a new epilogue behind it |
| Allocator.Heap.Place | 2024_1st/CSE4100/Project_04/mm.c:212-225 | the block becomes live with at least the requested room, the rest is split off from 16 bytes on, and all other payloads keep their content; with a size of 0 or 8 bytes the heap stays tiled exactly for 8 bytes in a block of 16 |
| Allocator.Heap.PlaceWords | 2024_1st/CSE4100/Project_04/mm.c:212-225 | which words place writes in the split and in the whole case, for any size up to that of the block |
| Allocator.Heap.SplitWords | 2024_1st/CSE4100/Project_04/mm.c:215-220 | the four stores of a split, where NEXT_BLKP reads the header just written |
| Allocator.AdjustedSize | 2024_1st/CSE4100/Project_04/mm.c:103-107 | the block size is a multiple of 8, at least 16, and leaves room for the payload, header and footer |
| Allocator.AdjustedIsLeast | 2024_1st/CSE4100/Project_04/mm.c:103-107 | and it is the least such size |
| Allocator.MallocMeans | 2024_1st/CSE4100/Project_04/mm.c:94-126 | said without the computed size: null exactly for size zero, or when no free block holds the payload and the region has no room for 4096 bytes more or for one block that holds it; the block taken holds the payload and has less than 16 bytes beyond the least such block; the heap grows only if no free block holds the payload, and by the least number of bytes from 4096 on that does |
| Allocator.WrapsIff | 2024_1st/CSE4100/Project_04/mm.c:103-107 | computed in size_t it is that size exactly for requests that are not within 15 bytes of the largest size_t; those get 0 or 8 bytes, and which of them is said |
| HeapLayout.TinyPlaceIff | 2024_1st/CSE4100/Project_04/mm.c:212-225 | placing 0 or 8 bytes in a free block leaves words that some set of blocks tiles, exactly for 8 bytes in a block of 16; otherwise the footer in front of the block is lost, or there is a block without room for a payload |
| HeapLayout.SameWalk | 2024_1st/CSE4100/Project_04/mm.c:128-150 | two tilings agree on all blocks in front of the first header that differs |
| HeapLayout.MergeCorrect | 2024_1st/CSE4100/Project_04/mm.c:182-210 | after a merge the header walk tiles the heap again, no two free blocks are adjacent and all payloads are as before |
| HeapLayout.FuseTiles | 2024_1st/CSE4100/Project_04/mm.c:187-205 | new tags around a run of whole blocks give a tiled heap with one block in their place |
| HeapLayout.CutTiles | 2024_1st/CSE4100/Project_04/mm.c:215-220 | new tags around a split block give a tiled heap with two blocks in its place |
| HeapLayout.GrowTiles | 2024_1st/CSE4100/Project_04/mm.c:163-174 | the heap stays tiled when it grows by a block at the epilogue |
| HeapLayout.PlaceCorrect | 2024_1st/CSE4100/Project_04/mm.c:212-225 | placing adds one payload and keeps the others, the tiling and the separation of free blocks |
| HeapLayout.FreeWhole | 2024_1st/CSE4100/Project_04/mm.c:155-159 | before merging, a freed block is the only possible free neighbour of a free block, and only its payload is gone |
| HeapLayout.LivePayloadsDisjoint | 2024_1st/CSE4100/Project_04/mm.c:94-161 | live payloads are inside the heap and never overlap, with room for a header and a footer between them |
| HeapLayout.WalkVisitsBlocks | 2024_1st/CSE4100/Project_04/mm.c:128-150 | following headers upwards visits exactly the blocks, in address order, and stops at the epilogue |
| Arithmetic.Udiv64IsFloor | 2024_2nd/CSE4070/Project_01/lib/arithmetic.c:77-127 | udiv64 returns the floor of n / d for every 64-bit n and every nonzero 64-bit d |
| Arithmetic.EstimateBound | 2024_2nd/CSE4070/Project_01/lib/arithmetic.c:121-123 | in the wide branch the estimate from one 64-by-32 divide is the true quotient or one more |
| Arithmetic.EstimateError | 2024_2nd/CSE4070/Project_01/lib/arithmetic.c:121-123 | the error from cutting the low bits of the divisor stays below one divisor |
| Arithmetic.EstimateIsQuotient | 2024_2nd/CSE4070/Project_01/lib/arithmetic.c:121-123 | the two shifts and the divide together divide by d with its low bits cleared |
| Arithmetic.WideCorrection | 2024_2nd/CSE4070/Project_01/lib/arithmetic.c:121-124 | the comparison of the remainder with d, in wrapping arithmetic, corrects the estimate exactly |
| Arithmetic.WideFits | 2024_2nd/CSE4070/Project_01/lib/arithmetic.c:121-123 | the wide branch calls divl only with a quotient below 2 to the 32 |
| Arithmetic.NarrowPartial | 2024_2nd/CSE4070/Project_01/lib/arithmetic.c:106-111 | the narrow branch calls divl only with a quotient below 2 to the 32, and its two steps add up to the quotient |
| Arithmetic.CountLeadingZeros | 2024_2nd/CSE4070/Project_01/lib/arithmetic.c:41-73 | the binary search of nlz returns the number of leading zeros, and no shift loses a set bit |
| Arithmetic.NlzNormalizes | 2024_2nd/CSE4070/Project_01/lib/arithmetic.c:41-73 | shifting left by nlz puts the highest set bit at the top |
| Arithmetic.Umod64IsRemainderIff | 2024_2nd/CSE4070/Project_01/lib/arithmetic.c:131-135 | umod64 returns the remainder exactly when that fits in its 32-bit result |
| Arithmetic.Magnitude | 2024_2nd/CSE4070/Project_01/lib/arithmetic.c:141-142 | negation in uint64_t gives the magnitude, also of INT64_MIN |
| Arithmetic.Sdiv64IsTruncatedIff | 2024_2nd/CSE4070/Project_01/lib/arithmetic.c:139-146 | sdiv64 truncates toward zero (section 6.5.5 of ISO C99) for every pair except INT64_MIN and -1 |
| Arithmetic.Sdiv64OverflowWitness | 2024_2nd/CSE4070/Project_01/lib/arithmetic.c:139-146 | for INT64_MIN and -1 the result wraps to INT64_MIN |
| Arithmetic.Smod64IsRemainderIff | 2024_2nd/CSE4070/Project_01/lib/arithmetic.c:150-154 | smod64 returns the C remainder exactly when that fits in its 32-bit result |
| Arithmetic.TruncatedProduct | 2024_2nd/CSE4070/Project_01/lib/arithmetic.c:150-154 | the product of the truncated quotient and the divisor lies between zero and n, and leaves the remainder of the magnitudes |
| Arithmetic.OverflowRemainder | 2024_2nd/CSE4070/Project_01/lib/arithmetic.c:150-154 | the wrapped quotient of INT64_MIN and -1 still gives the right remainder |
| Maze.Generate | 2023_1st/CSE3013/Week_11/Lab/20191282.cpp:66-176 | for every width of at least 1 and every outcome of rand, the maze is a spanning tree of the grid and every flag of it is 0 or 1; heights below 2 give the two-row maze that the code prints for them |
| Maze.OpenWallCount | 2023_1st/CSE3013/Week_11/Lab/20191282.cpp:66-176 | exactly one opening less than there are rooms |
| Maze.CellCount | 2023_1st/CSE3013/Week_11/Lab/20191282.cpp:66-176 | the grid has width times height rooms |
| Maze.FirstRow | 2023_1st/CSE3013/Week_11/Lab/20191282.cpp:67-80 | its walls are the outcomes of rand; then the labels are equal exactly where the rooms are connected, and no label reaches the next fresh one |
| Maze.FirstWalls | 2023_1st/CSE3013/Week_11/Lab/20191282.cpp:67-76 | the same while the last run is still unlabelled |
| Maze.OpenFloors | 2023_1st/CSE3013/Week_11/Lab/20191282.cpp:84-105 | every run of rooms keeps an opening downwards, as FloorOpensIff says: labels stay connectivity, every component reaches the next row, and no cycle closes |
| Maze.FloorOpensIff | 2023_1st/CSE3013/Week_11/Lab/20191282.cpp:84-105 | a column opens downwards exactly if rand says so, or if it is the last of its run and rand opened no other one |
| Maze.OpenColumn | 2023_1st/CSE3013/Week_11/Lab/20191282.cpp:85-102 | a column is closed only if another column of its component stays open, and a closed one gets a fresh label |
| Maze.LastFloor | 2023_1st/CSE3013/Week_11/Lab/20191282.cpp:103-105 | the last column is closed exactly when its run already has an opening |
| Maze.MiddleRow | 2023_1st/CSE3013/Week_11/Lab/20191282.cpp:108-131 | a wall is left out exactly if the rooms on both sides are still in different components and rand, which is asked only then, says 1; the labels follow |
| Maze.Absorb | 2023_1st/CSE3013/Week_11/Lab/20191282.cpp:114-120 | the second of two joined components takes the label of the first in every column |
| Maze.LastRow | 2023_1st/CSE3013/Week_11/Lab/20191282.cpp:159-174 | the last row joins all remaining components and leaves a spanning tree |
| Maze.TopRow | 2023_1st/CSE3013/Week_11/Lab/20191282.cpp:66-81 | prints the first row of rooms |
| Maze.NextRow | 2023_1st/CSE3013/Week_11/Lab/20191282.cpp:83-133 | prints a floor and a row of rooms, and keeps what the labels mean |
| Maze.FinalRow | 2023_1st/CSE3013/Week_11/Lab/20191282.cpp:135-175 | prints the last floor and the last row, and what was printed is a spanning tree |
| Maze.AbsorbRight | 2023_1st/CSE3013/Week_11/Lab/20191282.cpp:163-169 | in the last row it is enough to relabel from the current column on |
| Maze.Join | 2023_1st/CSE3013/Week_11/Lab/20191282.cpp:108-131 | an opening between two labels joins the two components and closes no cycle |
| Maze.DownClosed | 2023_1st/CSE3013/Week_11/Lab/20191282.cpp:99-101 | a floor may stay closed below a component that reaches the row elsewhere |
| Maze.DownOpen | 2023_1st/CSE3013/Week_11/Lab/20191282.cpp:85-102 | an opened floor continues its component in the next row |
| Maze.Append | 2023_1st/CSE3013/Week_11/Lab/20191282.cpp:67-76 | a room behind a wall starts a component of its own |
| Maze.OneLabel | 2023_1st/CSE3013/Week_11/Lab/20191282.cpp:159-174 | when one label is left, all rooms are connected without a cycle |
| Graph.ConnectedAdd | 2023_1st/CSE3013/Week_11/Lab/20191282.cpp:108-131 | what one more opening connects |
| Graph.AcyclicAdd | 2023_1st/CSE3013/Week_11/Lab/20191282.cpp:108-131 | an opening between two components closes no cycle |
| StockTree.LoadOrdered | 2024_1st/CSE4100/Project_03/task_2/stockserver.c:260-296 | the tree built from the file is a search tree and holds exactly its lines |
| StockTree.ShowSorted | 2024_1st/CSE4100/Project_03/task_2/stockserver.c:237-246 | show_tree prints in order of id |
| StockTree.FindIffShown | 2024_1st/CSE4100/Project_03/task_2/stockserver.c:248-258 | find_node finds exactly the ids that show_tree prints |
| StockTree.FindIsFirst | 2024_1st/CSE4100/Project_03/task_2/stockserver.c:248-258 | find_node finds the first line with the id that show_tree prints, and an update of its count changes that line and no other, also when ids occur twice |
| StockTree.LoadFirst | 2024_1st/CSE4100/Project_03/task_2/stockserver.c:260-296 | after loading, find_node finds the first line of the file with the id |
| StockTree.SetCountEffect | 2024_1st/CSE4100/Project_03/task_2/stockserver.c:184-211 | an update through find_node changes one count and nothing else a client can see |
| StockServer.RunInv | 2024_1st/CSE4100/Project_03/task_2/stockserver.c:140-217 | every state of every interleaving of show, buy and sell satisfies the invariant |
| StockServer.InvStep | 2024_1st/CSE4100/Project_03/task_2/stockserver.c:140-217 | every single step of any thread keeps the invariant |
| StockServer.SemaphoresStep | 2024_1st/CSE4100/Project_03/task_2/stockserver.c:146-160 | every step keeps the two semaphores in step with who holds them |
| StockServer.MutualExclusion | 2024_1st/CSE4100/Project_03/task_2/stockserver.c:146-216 | no writer overlaps a reader or another writer |
| StockServer.ReadcntExact | 2024_1st/CSE4100/Project_03/task_2/stockserver.c:146-160 | readcnt is the number of readers counted in and not yet out |
| StockServer.RequestEffect | 2024_1st/CSE4100/Project_03/task_2/stockserver.c:167-217 | every buy and sell that finishes, in every run: it waits for w, and in one piece its amount is added, or taken if the count is not smaller, in one update that nothing comes in between, and the reply says which; a request for an unknown id does not finish |
| StockServer.WaitsFor | 2024_1st/CSE4100/Project_03/task_2/stockserver.c:173-202 | until it gets w it changes nothing |
| StockServer.HeldUntil | 2024_1st/CSE4100/Project_03/task_2/stockserver.c:173-216 | from then on, in every state until it gives w back, what it has done so far |
| StockServer.OthersKeep | 2024_1st/CSE4100/Project_03/task_2/stockserver.c:173-216 | no other thread changes the stock meanwhile |
| StockServer.ShowEffect | 2024_1st/CSE4100/Project_03/task_2/stockserver.c:143-162 | every show that finishes, in every run, answers with the whole stock of one state while it was served |
| StockServer.ShowIsSnapshot | 2024_1st/CSE4100/Project_03/task_2/stockserver.c:143-162 | a show prints the stock as it is at one instant |
| StockServer.Conservation | 2024_1st/CSE4100/Project_03/task_2/stockserver.c:167-216 | each count is the initial one plus sells minus successful buys |
| StockServer.ReadersShare | 2024_1st/CSE4100/Project_03/task_2/stockserver.c:143-153 | readers do not exclude each other: while one prints, another gets in by its own steps as soon as the mutex is free |
| StockServer.AnyRequestStarts | 2024_1st/CSE4100/Project_03/task_2/stockserver.c:140-194 | an idle thread can take up any request |
| StockServer.BuyWithinStock | 2024_1st/CSE4100/Project_03/task_2/stockserver.c:184-189 | a successful buy takes no more than there is, and exactly its amount |
| StockServer.NeverNegative | 2024_1st/CSE4100/Project_03/task_2/stockserver.c:167-216 | counts that start nonnegative stay so while amounts are nonnegative |
| StockServer.NoDeadlock | 2024_1st/CSE4100/Project_03/task_2/stockserver.c:140-217 | while a request is in progress, some request can take a step |
| BoundedBuffer.AnyCallStarts | 2024_1st/CSE4100/Project_03/task_2/stockserver.c:102-120 | an idle thread can insert any item, or remove one |
| BoundedBuffer.RunInv | 2024_1st/CSE4100/Project_03/task_2/stockserver.c:92-120 | every state of every interleaving of inserts and removes satisfies the invariant |
| BoundedBuffer.InvStep | 2024_1st/CSE4100/Project_03/task_2/stockserver.c:92-120 | every single step of any thread keeps the invariant |
| BoundedBuffer.Fifo | 2024_1st/CSE4100/Project_03/task_2/stockserver.c:102-120 | first in, first out, from arguments to results: the call of sbuf_remove that loads the k-th item returns the argument of the call of sbuf_insert that stored it, whoever makes the calls |
| BoundedBuffer.InOrder | 2024_1st/CSE4100/Project_03/task_2/stockserver.c:102-120 | the k-th item loaded is the k-th item stored |
| BoundedBuffer.InsertCall | 2024_1st/CSE4100/Project_03/task_2/stockserver.c:102-108 | a call of sbuf_insert stores its argument, at one position, and nothing else |
| BoundedBuffer.RemoveCall | 2024_1st/CSE4100/Project_03/task_2/stockserver.c:110-120 | a call of sbuf_remove returns what it loaded, at one position, and loads nothing else |
| BoundedBuffer.CallOrder | 2024_1st/CSE4100/Project_03/task_2/stockserver.c:102-120 | calls that follow each other have positions that follow each other |
| BoundedBuffer.StoredWasAsked | 2024_1st/CSE4100/Project_03/task_2/stockserver.c:102-108 | every item stored was the argument of an earlier call by the same thread |
| BoundedBuffer.Capacity | 2024_1st/CSE4100/Project_03/task_2/stockserver.c:92-120 | there are never more than n unread items |
| BoundedBuffer.NoOverwrite | 2024_1st/CSE4100/Project_03/task_2/stockserver.c:102-108 | an insert never overwrites an unread slot |
| BoundedBuffer.NoEmptyRead | 2024_1st/CSE4100/Project_03/task_2/stockserver.c:110-120 | a remove never reads an empty slot, and gets the oldest unread item |
| BoundedBuffer.TokensConserved | 2024_1st/CSE4100/Project_03/task_2/stockserver.c:92-120 | slots, items and operations in flight always total n |
| BoundedBuffer.NoDeadlock | 2024_1st/CSE4100/Project_03/task_2/stockserver.c:102-120 | some operation can move unless all wait on a full or on an empty buffer |
| NaturalMerge.SortCorrect | 2024_1st/CSE4100/Project_01/list.c:366-396 | repeated passes give a sorted, stable rearrangement under any strict weak order |
| NaturalMerge.PassHalves | 2024_1st/CSE4100/Project_01/list.c:374-393 | a pass at least halves the number of natural runs, rounding up, and its count is exactly that half |
| NaturalMerge.RunsConcat | 2024_1st/CSE4100/Project_01/list.c:320-332 | joining sequences creates no new run |
| NaturalMerge.MergeSorted | 2024_1st/CSE4100/Project_01/list.c:339-356 | merging two sorted runs gives a sorted run |
| NaturalMerge.MergeStable | 2024_1st/CSE4100/Project_01/list.c:339-356 | merging keeps equivalent elements in order, those of the left run first |
| NaturalMerge.PassElements | 2024_1st/CSE4100/Project_01/list.c:374-393 | a pass loses and adds no element |
| IntrusiveList.List.ListSort | 2024_1st/CSE4100/Project_01/list.c:366-396 | list_sort ends with a well-linked list of the same elements, sorted and stable |
| IntrusiveList.List.SortPass | 2024_1st/CSE4100/Project_01/list.c:379-392 | one pass over the links is one pass of the specification, with its run count |
| IntrusiveList.List.MergeNextRuns | 2024_1st/CSE4100/Project_01/list.c:380-392 | one round merges the next two runs of what is left, or ends with the last run |
| IntrusiveList.InplaceMerge | 2024_1st/CSE4100/Project_01/list.c:339-356 | merging by splicing single elements is the stable merge of the two runs |
| IntrusiveList.FindEndOfRun | 2024_1st/CSE4100/Project_01/list.c:320-332 | finds the exclusive end of the longest nondecreasing run |
| IntrusiveList.Splice | 2024_1st/CSE4100/Project_01/list.c:168-186 | moves a stretch in front of an earlier element and leaves a well-linked chain |
| IntrusiveList.List.constructor | 2024_1st/CSE4100/Project_01/list.c:57-63 | a new list is well linked and empty |
| ListOperations.ListSwap | 2024_1st/CSE4100/Project_01/list.c:465-516 | list_swap exchanges the two elements, and leaves a well-linked list, exactly unless the second comes directly before the first; then every link it leaves is said, and no elements that include the first one make a well-linked list |
| ListOperations.SwapNodes | 2024_1st/CSE4100/Project_01/list.c:465-516 | the same on a chain, case by case of the source |
| ListOperations.NoLoop | 2024_1st/CSE4100/Project_01/list.c:465-516 | two elements that point at each other are in no well-linked list, whatever its elements are |
| ListOperations.ListReverse | 2024_1st/CSE4100/Project_01/list.c:294-303 | list_reverse leaves a well-linked list in the opposite order |
| ListOperations.ReverseLinks | 2024_1st/CSE4100/Project_01/list.c:298-299 | the loop exchanges the two links of every element and ends at the tail |
| ListOperations.ExchangeEnds | 2024_1st/CSE4100/Project_01/list.c:300-301 | the two exchanges at the ends finish the reversal, also for one element |
| ListOperations.ListInsertOrdered | 2024_1st/CSE4100/Project_01/list.c:401-412 | the new element goes in front of the first element it is less than |
| ListOperations.FindPlace | 2024_1st/CSE4100/Project_01/list.c:409-410 | the search stops at the first element the new one is less than, or at the tail |
| ListOperations.PlaceSorted | 2024_1st/CSE4100/Project_01/list.c:401-412 | so a sorted list stays sorted, and the new element comes behind its equals |
| ListOperations.InsertNode | 2024_1st/CSE4100/Project_01/list.c:155-163 | list_insert links the element in both directions |
| ListOperations.RemoveNode | 2024_1st/CSE4100/Project_01/list.c:234-239 | list_remove leaves a well-linked chain and returns the following element |
| ListOperations.ListUnique | 2024_1st/CSE4100/Project_01/list.c:418-433 | the first of each group of adjacent equals stays, the others move in order to the end of the second list if there is one, and both lists are well linked |
| ListOperations.UniqueOfSorted | 2024_1st/CSE4100/Project_01/list.c:418-433 | on a sorted list the elements left are strictly increasing, and none is lost |
| ListOperations.DropNext | 2024_1st/CSE4100/Project_01/list.c:429-430 | one element changes lists without disturbing any other link |
| ListOperations.UniqueLoop | 2024_1st/CSE4100/Project_01/list.c:426-433 | the loop compares each element with the last one that stayed |
| HashTable.Table.Run | 2024_1st/CSE4100/Project_01/hash.c:111-156 | any sequence of insertions, replacements and deletions, whatever the allocations do, acts as on a finite map keyed by equality under less |
| HashTable.HashInit | 2024_1st/CSE4100/Project_01/hash.c:48-62 | fails exactly when the buckets cannot be allocated; otherwise the table is empty |
| HashTable.Table.constructor | 2024_1st/CSE4100/Project_01/hash.c:48-62 | a new table has four empty buckets |
| HashTable.Table.HashFind | 2024_1st/CSE4100/Project_01/hash.c:138-140 | finds the element that equals the key, exactly when there is one |
| HashTable.Table.HashInsert | 2024_1st/CSE4100/Project_01/hash.c:111-120 | inserts only if nothing equal is there, returns what was, and leaves the ideal bucket count unless allocation fails |
| HashTable.Table.HashReplace | 2024_1st/CSE4100/Project_01/hash.c:124-134 | takes the place of what was equal, and returns it |
| HashTable.Table.HashDelete | 2024_1st/CSE4100/Project_01/hash.c:149-156 | removes exactly what equals the key; the bucket count is adjusted only then |
| HashTable.Table.HashClear | 2024_1st/CSE4100/Project_01/hash.c:73-90 | leaves the table empty; the destructor, if there is one, is called for every element exactly once, bucket by bucket from the front |
| HashTable.Table.Rehash | 2024_1st/CSE4100/Project_01/hash.c:316-369 | keeps all elements, each once and in the bucket of its hash, and reaches the ideal bucket count unless allocation fails |
| HashTable.Table.MoveAll | 2024_1st/CSE4100/Project_01/hash.c:353-366 | moving element by element between bucket arrays loses and doubles none |
| HashTable.Table.FindBucket | 2024_1st/CSE4100/Project_01/hash.c:281-284 | masking with the bucket count less one is the remainder by it |
| HashTable.Table.Search | 2024_1st/CSE4100/Project_01/hash.c:281-297 | searching one bucket finds what a search of the whole table would |
| HashTable.Table.FindElem | 2024_1st/CSE4100/Project_01/hash.c:288-297 | the first element of the bucket that equals the key, and none exactly if there is none |
| HashTable.Table.InsertElem | 2024_1st/CSE4100/Project_01/hash.c:372-376 | in front of its bucket, and counted |
| HashTable.Table.RemoveElem | 2024_1st/CSE4100/Project_01/hash.c:379-382 | out of its bucket, and no longer counted |
| HashTable.NewBucketCnt | 2024_1st/CSE4100/Project_01/hash.c:331-334 | turning off low bits ends at the largest power of two within the wanted count |
| HashTable.IdealRatio | 2024_1st/CSE4100/Project_01/hash.c:307-334 | the bucket count is a power of two of at least 4, and from 8 elements on there are at least 2 and fewer than 4 per bucket |
| HashTable.PutLaw | 2024_1st/CSE4100/Project_01/hash.c:124-134 | replacing follows the law of a map update |
| HashTable.GoneLaw | 2024_1st/CSE4100/Project_01/hash.c:149-156 | deleting follows the law of a map removal |
| HashTable.Iterator.Next | 2024_1st/CSE4100/Project_01/hash.c:214-227 | hash_next returns the elements to come one by one, across empty buckets, and then null |
| HashTable.Walk | 2024_1st/CSE4100/Project_01/hash.c:197-227 | the iteration idiom visits every element exactly once |
| Bits.MaskIsRemainder | 2024_1st/CSE4100/Project_01/hash.c:281-284 | h & (n - 1) is h mod n for a power of two n |
| Bits.TurnOffFacts | 2024_1st/CSE4100/Project_01/hash.c:299-305 | x & (x - 1) is smaller than x, and zero exactly for powers of two |
| Bits.TurnOffKeepsTopBit | 2024_1st/CSE4100/Project_01/hash.c:331-334 | x & (x - 1) does not fall below the highest bit of a number that is no power of two |
| Bitmap.Bitmap.BitmapMark | 2024_1st/CSE4100/Project_01/bitmap.c:113-121 | or-ing a one-bit mask into a word sets exactly that bit of the map |
| Bitmap.Bitmap.BitmapReset | 2024_1st/CSE4100/Project_01/bitmap.c:124-132 | and-ing the complement clears exactly that bit |
| Bitmap.Bitmap.BitmapFlip | 2024_1st/CSE4100/Project_01/bitmap.c:137-145 | xor-ing the mask toggles exactly that bit |
| Bitmap.Bitmap.BitmapTest | 2024_1st/CSE4100/Project_01/bitmap.c:148-152 | tests that bit |
| Bitmap.Bitmap.BitmapSetMultiple | 2024_1st/CSE4100/Project_01/bitmap.c:164-173 | sets exactly the bits of the group |
| Bitmap.Bitmap.BitmapContains | 2024_1st/CSE4100/Project_01/bitmap.c:193-204 | whether some bit of the group has the value |
| Bitmap.Bitmap.BitmapScan | 2024_1st/CSE4100/Project_01/bitmap.c:230-242 | the first group at or after the start that has the value throughout, and an error exactly if there is none |
| Bitmap.Bitmap.BitmapScanAndFlip | 2024_1st/CSE4100/Project_01/bitmap.c:251-256 | that group, and only that, is flipped |
| Bitmap.OneMask | 2024_1st/CSE4100/Project_01/bitmap.c:21-23 | a mask with one bit stays within a 32-bit word and stands for exactly that bit |
| Bitmap.OneBit | 2024_1st/CSE4100/Project_01/bitmap.c:17-23 | changing one bit of the right word changes one bit of the map |
| InodeIO.ReadAt | 2024_2nd/CSE4070/Project_01/filesys/inode.c:200-250 | returns exactly the part of the request inside the file, byte for byte; without a bounce buffer it stops at the first partial sector; the rest of the buffer is unchanged |
| InodeIO.WriteAt | 2024_2nd/CSE4070/Project_01/filesys/inode.c:257-318 | writes exactly the part of the request inside the file, or nothing while writes are denied; every other byte of every sector is unchanged |
| InodeIO.WriteNext | 2024_2nd/CSE4070/Project_01/filesys/inode.c:268-314 | one iteration adds the next chunk of the buffer to what is written |
| InodeIO.WriteChunk | 2024_2nd/CSE4070/Project_01/filesys/inode.c:284-308 | one iteration extends what is written by its chunk, all of it in one sector |
| InodeIO.ReadChunk | 2024_2nd/CSE4070/Project_01/filesys/inode.c:221-243 | one iteration puts the bytes of its chunk, all from one sector, into the buffer |
| InodeIO.CopyOut | 2024_2nd/CSE4070/Project_01/filesys/inode.c:223-240 | the chunk arrives in the buffer and the rest of the buffer stays |
| InodeIO.BuildSector | 2024_2nd/CSE4070/Project_01/filesys/inode.c:299-306 | the sector to write back holds the chunk over the old content, also when the source fills it with zeros first |
| InodeIO.PatchMore | 2024_2nd/CSE4070/Project_01/filesys/inode.c:268-314 | consecutive chunks join across sector boundaries |
| InodeIO.PatchedContent | 2024_2nd/CSE4070/Project_01/filesys/inode.c:257-318 | the written file is its old content with the data spliced in |
| InodeIO.OtherFileUnchanged | 2024_2nd/CSE4070/Project_01/filesys/inode.c:257-318 | a file on other sectors keeps its content |
| InodeIO.WriteThenRead | 2024_2nd/CSE4070/Project_01/filesys/inode.c:200-318 | a read of the range last written returns the written bytes, for any offset and size |
| InodeIO.ChunkFacts | 2024_2nd/CSE4070/Project_01/filesys/inode.c:211-221 | the chunks of a request add up to the part of it inside the file |
| InodeIO.WriteNewInode | 2024_2nd/CSE4070/Project_01/filesys/inode.c:92-99 | the header sector and zeros in every data sector, and no other sector of the device changes |
| InodeIO.HeaderLayout | 2024_2nd/CSE4070/Project_01/filesys/inode.c:15-21 | the bytes of a header: start, length and magic number, each lowest byte first, and zeros |
| InodeIO.SectorsAreLeast | 2024_2nd/CSE4070/Project_01/filesys/inode.c:25-29 | a file has the least number of sectors with room for its bytes |
| InodeIO.HeaderRoundTrip | 2024_2nd/CSE4070/Project_01/filesys/inode.c:84-140 | inode_open reads back the start and the length that inode_create wrote, through four bytes each |
| InodeIO.ZeroContent | 2024_2nd/CSE4070/Project_01/filesys/inode.c:93-100 | a file on zeroed sectors reads as zeros |
| InodeIO.PatchTwice | 2024_2nd/CSE4070/Project_01/filesys/file.c:95-101 | two writes in a row are one write of both pieces |
| InodeLayer.Layer.constructor | 2024_2nd/CSE4070/Project_01/filesys/free-map.c:13-22 | initially exactly the sectors of the free map and of the root directory are in use |
| InodeLayer.Layer.FreeMapAllocate | 2024_2nd/CSE4070/Project_01/filesys/free-map.c:28-43 | the first free group is marked used, or nothing changes; it fails exactly when there is no group or the map cannot be written |
| InodeLayer.Layer.FreeMapRelease | 2024_2nd/CSE4070/Project_01/filesys/free-map.c:45-50 | exactly the given sectors become free; the asserted condition that all are in use is the precondition, and is met at every call |
| InodeLayer.Layer.InodeCreate | 2024_2nd/CSE4070/Project_01/filesys/inode.c:73-107 | the new inode owns sectors that nobody else owns and reads as zeros, and every other content stays; a failure changes nothing; it fails exactly when memory, room or the free map file fail |
| InodeLayer.Layer.InodeOpen | 2024_2nd/CSE4070/Project_01/filesys/inode.c:112-143 | an open inode is shared and counted once more, otherwise a fresh one is made; read back from its header sector; at most one in-memory inode per sector |
| InodeLayer.Layer.InodeReopen | 2024_2nd/CSE4070/Project_01/filesys/inode.c:146-152 | counts one more opener |
| InodeLayer.Layer.InodeRemove | 2024_2nd/CSE4070/Project_01/filesys/inode.c:191-195 | marks the inode and changes nothing else |
| InodeLayer.Layer.InodeClose | 2024_2nd/CSE4070/Project_01/filesys/inode.c:164-187 | counts one opener less; only the last close of a removed inode frees sectors, and exactly its own |
| InodeLayer.Layer.ReleaseInode | 2024_2nd/CSE4070/Project_01/filesys/inode.c:177-182 | header and data sectors are freed together, each once |
| InodeLayer.Layer.FileOpen | 2024_2nd/CSE4070/Project_01/filesys/file.c:18-35 | the file takes over one reference; a failed allocation gives it back |
| InodeLayer.Layer.FileSetDeny | 2024_2nd/CSE4070/Project_01/filesys/file.c:119-142 | deny_write_cnt follows the number of files with deny_write set, and stays within open_cnt |
| InodeLayer.Layer.FileRead | 2024_2nd/CSE4070/Project_01/filesys/file.c:69-75 | file_read returns the bytes of the inode at the position and advances it by their number |
| InodeLayer.Layer.FileWrite | 2024_2nd/CSE4070/Project_01/filesys/file.c:95-101 | file_write changes exactly the bytes it counts, in this inode only, and advances the position by them; it writes nothing while writes are denied |
| InodeLayer.Layer.MoveFile | 2024_2nd/CSE4070/Project_01/filesys/file.c:153-159 | only the position of this file changes |
| InodeLayer.Layer.FileClose | 2024_2nd/CSE4070/Project_01/filesys/file.c:46-55 | writes are allowed again before the reference is given up |
| InodeLayer.LiveMore | 2024_2nd/CSE4070/Project_01/filesys/inode.c:73-107 | adding an inode on free sectors keeps all extents apart |
| InodeLayer.LiveLess | 2024_2nd/CSE4070/Project_01/filesys/inode.c:177-182 | removing an inode that is not open leaves its sectors without an owner |
| InodeLayer.ContentsNew | 2024_2nd/CSE4070/Project_01/filesys/inode.c:90-101 | making an inode changes no other inode's header or bytes, and its own bytes are zeros |
| InodeLayer.ContentsWritten | 2024_2nd/CSE4070/Project_01/filesys/inode.c:257-318 | writing to one inode changes its bytes as asked, and no header and no other inode's bytes |
| InodeLayer.FreeIsUnowned | 2024_2nd/CSE4070/Project_01/filesys/free-map.c:28-43 | a sector that is marked free belongs to no inode |
| Directory.LookupEntry | 2024_2nd/CSE4070/Project_01/filesys/directory.c:91-112 | finds the first entry in use by that name among those that are read; a search ends at the first entry whose bounce buffer cannot be allocated as it does at the end of the file |
| Directory.FindFree | 2024_2nd/CSE4070/Project_01/filesys/directory.c:166-169 | the offset of the first free slot among those that are read, or the one where the search ended |
| Directory.ReadEntry | 2024_2nd/CSE4070/Project_01/filesys/directory.c:101 | an entry is read in full exactly if it is inside the file and its bounce buffer can be allocated, and not at all otherwise |
| Directory.FillEntry | 2024_2nd/CSE4070/Project_01/filesys/directory.c:172-174 | the 20 bytes written read back as the entry, whatever the name field held before |
| Directory.FilledEntry | 2024_2nd/CSE4070/Project_01/filesys/directory.c:16-22 | sector, terminated name and flag are read back from the bytes of an entry |
| Directory.StringEnds | 2024_2nd/CSE4070/Project_01/filesys/directory.c:103 | the characters up to the terminator are the name |
| Directory.WriteEntry | 2024_2nd/CSE4070/Project_01/filesys/directory.c:175 | writes exactly one slot, or nothing when it is past the end or its bounce buffer cannot be allocated |
| Directory.SlotsSpliced | 2024_2nd/CSE4070/Project_01/filesys/directory.c:175 | 20 bytes written at a slot change that entry and no other |
| Directory.Add | 2024_2nd/CSE4070/Project_01/filesys/directory.c:141-179 | enters a valid name, if no entry by it is read, in the slot where the search for a free one ended, and changes no other byte; it fails exactly otherwise, or when that slot cannot be written |
| Directory.AddsRightlyIff | 2024_2nd/CSE4070/Project_01/filesys/directory.c:135-179 | what it does to the entries is what its comment promises, exactly unless it writes an entry after a search that was cut short where it matters |
| Directory.Erase | 2024_2nd/CSE4070/Project_01/filesys/directory.c:204-207 | only the flag of this entry goes, or nothing |
| Directory.NoEntries | 2024_2nd/CSE4070/Project_01/filesys/directory.c:26-30 | a directory of zeros has no entries |
| Filesys.Filesys.Run | 2024_2nd/CSE4070/Project_01/filesys/filesys.c:46-103 | from a disk that is formatted first, every step of any sequence of calls, with any outcome of the allocations and of the writes to the free map, reads of the directory included, is one its call allows, on directory entries, sectors in use, open files and the bytes of every file; every state in between satisfies the invariants |
| Filesys.Filesys.Do | 2024_2nd/CSE4070/Project_01/filesys/filesys.c:46-91 | one call does what its relation says, and replies accordingly |
| Filesys.Filesys.DoFile | 2024_2nd/CSE4070/Project_01/filesys/file.c:39-159 | the same for the calls on an open file |
| Filesys.Filesys.constructor | 2024_2nd/CSE4070/Project_01/filesys/filesys.c:95-103 | an unformatted disk with the two reserved sectors in use |
| Filesys.Filesys.DoFormat | 2024_2nd/CSE4070/Project_01/filesys/filesys.c:95-103 | creates the inodes of the free map and of the root directory, exactly when memory allows and first fit finds room for one after the other; then there are 16 free slots and no files |
| Filesys.Filesys.FilesysCreate | 2024_2nd/CSE4070/Project_01/filesys/filesys.c:46-59 | succeeds exactly when header and data sectors can be allocated, the name is valid, no entry by it is read, and the slot where the search for a free one ended is inside the directory and can be written; then that slot points to a new file of zeros on sectors that were free; otherwise nothing changes, except that the data sectors stay marked when only the entry failed |
| Filesys.Filesys.OpenRoot | 2024_2nd/CSE4070/Project_01/filesys/directory.c:55-58 | the root inode read back from its header, with the entries of the directory |
| Filesys.Filesys.TakeHeader | 2024_2nd/CSE4070/Project_01/filesys/filesys.c:51 | one free sector is marked, or nothing changes |
| Filesys.Filesys.MakeInode | 2024_2nd/CSE4070/Project_01/filesys/filesys.c:52 | a new file of zeros at that header, on the first free group, or nothing changes |
| Filesys.Filesys.DirAdd | 2024_2nd/CSE4070/Project_01/filesys/filesys.c:53 | on the disk, dir_add changes the entries of the root directory and no other file |
| Filesys.Filesys.GiveBack | 2024_2nd/CSE4070/Project_01/filesys/filesys.c:54-55 | only the header sector becomes free again |
| Filesys.Filesys.FilesysOpen | 2024_2nd/CSE4070/Project_01/filesys/filesys.c:67-77 | succeeds exactly if an entry by that name is read and memory allows, with a file at position zero on the inode of the first such entry; a failure changes nothing |
| Filesys.Filesys.OpenFound | 2024_2nd/CSE4070/Project_01/filesys/filesys.c:73-76 | a file on the inode of the entry, which is opened or shared; a failed allocation gives everything back |
| Filesys.Filesys.FilesysRemove | 2024_2nd/CSE4070/Project_01/filesys/filesys.c:84-91 | the first entry by that name that is read goes; inode, bytes and sectors go at once if no file has it open, and stay otherwise; a failure changes nothing |
| Filesys.Filesys.EraseEntry | 2024_2nd/CSE4070/Project_01/filesys/directory.c:204-207 | on the disk, one entry goes and no other file changes |
| Filesys.Filesys.CloseEntry | 2024_2nd/CSE4070/Project_01/filesys/directory.c:209-214 | the inode is marked if its entry was erased, and closed; a failed write leaves the state as it was |
| Filesys.Filesys.FileReopen | 2024_2nd/CSE4070/Project_01/filesys/file.c:39-42 | a second file on the same inode |
| Filesys.Filesys.FileRead | 2024_2nd/CSE4070/Project_01/filesys/file.c:69-75 | the bytes of the file from its position on; only its position changes |
| Filesys.Filesys.FileWrite | 2024_2nd/CSE4070/Project_01/filesys/file.c:95-101 | only the position of this file and the bytes it counts change |
| Filesys.Filesys.FileSeek | 2024_2nd/CSE4070/Project_01/filesys/file.c:153-159 | only the position of this file changes |
| Filesys.Filesys.FileClose | 2024_2nd/CSE4070/Project_01/filesys/file.c:46-55 | the sectors of a removed inode become free when its last file is closed, and at no other close |
| Filesys.Filesys.FileSetDeny | 2024_2nd/CSE4070/Project_01/filesys/file.c:119-142 | only this file changes its flag, and its inode the count of such files |
| FilesysNames.TidyStep | 2024_2nd/CSE4070/Project_01/filesys/directory.c:135-179 | every call keeps one entry to a name and a name or an open file for every inode on disk, exactly except a create that writes its entry after a search that was cut short where it matters |
| FilesysNames.TidyRun | 2024_2nd/CSE4070/Project_01/filesys/directory.c:135-216 | so all states of a run from a formatted disk are tidy up to the first such create |
| FilesysNames.UncutRun | 2024_2nd/CSE4070/Project_01/filesys/directory.c:159-165 | in a run where no search is cut short, every name has one entry, and an inode is on disk exactly while an entry points to it or an open file keeps it after its removal |
| FilesysNames.CreateRightIff | 2024_2nd/CSE4070/Project_01/filesys/filesys.c:41-59 | filesys_create treats the directory as promised exactly if it is no such create |
| FilesysNames.CutScanLosesName | 2024_2nd/CSE4070/Project_01/filesys/directory.c:163-175 | a search for a free slot that is cut short overwrites the entry where it was cut: that file keeps its bytes and has no name |
| FilesysNames.SecondCreateCut | 2024_2nd/CSE4070/Project_01/filesys/directory.c:163-175 | two creates are enough: the second takes the slot of the first when its search gets no bounce buffer, and the first file has no name any more |
| FilesysNames.LostFileStays | 2024_2nd/CSE4070/Project_01/filesys/directory.c:163-216 | a file without a name that is not removed stays so, with its sectors, whatever is called |
| FilesysNames.UntidyCreate | 2024_2nd/CSE4070/Project_01/filesys/directory.c:163-175 | an entry over one in use, or by a name that has one, leaves a file without a name or a name with two entries |
| FilesysNames.TidyCreate | 2024_2nd/CSE4070/Project_01/filesys/directory.c:166-175 | an entry in a free slot by a new name keeps the books tidy |
| FilesysNames.TidyRemove | 2024_2nd/CSE4070/Project_01/filesys/directory.c:204-216 | erasing the entry of a file keeps the books tidy, open or not |
| FilesysNames.NamesAreMap | 2024_2nd/CSE4070/Project_01/filesys/filesys.c:41-91 | while the books are tidy and no search is cut short, the names are a map: a create adds a name not in use with a new sector, a remove takes one away, an open gets the file of its name, and no call changes any other name |
| FilesysNames.WhereAfterAdd | 2024_2nd/CSE4070/Project_01/filesys/directory.c:171-175 | a new entry adds its name and changes no other |
| FilesysNames.WhereAfterErase | 2024_2nd/CSE4070/Project_01/filesys/directory.c:204-207 | an erased entry takes its name away and changes no other |
| FilesysSpec.CreateLeaksIff | 2024_2nd/CSE4070/Project_01/filesys/filesys.c:46-59 | a failed filesys_create leaves sectors marked exactly when the inode could be made, the size is not zero, and the name was invalid, an entry by it was read, no slot was free, or the entry could not be written |
| FilesysSpec.CreateAgainLeaks | 2024_2nd/CSE4070/Project_01/filesys/directory.c:151-169 | creating a file of some size under a name in use, or an invalid one, or when all slots are in use, fails and marks sectors that belong to no inode |
| FilesysSpec.CreateSucceedsIff | 2024_2nd/CSE4070/Project_01/filesys/filesys.c:41-59 | filesys_create succeeds exactly if the inode can be made, the name has 1 to 14 bytes, no entry in use that is read has it, and there is a slot and memory to write it |
| FilesysSpec.TargetInside | 2024_2nd/CSE4070/Project_01/filesys/directory.c:166-169 | the search ends outside the directory exactly when every slot is read and none is free |
| FilesysSpec.LostStays | 2024_2nd/CSE4070/Project_01/filesys/filesys.c:54-55 | a sector in use that no inode owns never becomes free and never gets an owner, whatever is called |
| FilesysSpec.LeakedForGood | 2024_2nd/CSE4070/Project_01/filesys/filesys.c:46-59 | what a failed filesys_create leaves marked was free before, and stays marked without an owner in every later state of a run |
| FilesysSpec.FormatRoom | 2024_2nd/CSE4070/Project_01/filesys/filesys.c:95-103 | on a fresh disk formatting needs the two reserved sectors, the free map and one sector more, and nothing else |
| FilesysSpec.SectorFreed | 2024_2nd/CSE4070/Project_01/filesys/inode.c:164-187 | a sector in use becomes free only when the inode that owns it goes: at the last close of a removed file or the removal of a file that is not open |
| FilesysSpec.HandleStays | 2024_2nd/CSE4070/Project_01/filesys/file.c:14-55 | an open file stays on its inode until it is closed itself |
| FilesysSpec.ContentStays | 2024_2nd/CSE4070/Project_01/filesys/inode.c:188-195 | while a file is open its bytes change only by writes to its inode, also after its name was removed |
| FilesysSpec.UnwrittenStays | 2024_2nd/CSE4070/Project_01/filesys/inode.c:257-318 | the same over any stretch of a run |
| FilesysSpec.ReadBack | 2024_2nd/CSE4070/Project_01/filesys/file.c:63-101 | what one file wrote, any file on the same inode reads later, through any other calls that do not write to it |
| FilesysBooks.ExtentsDisjoint | 2024_2nd/CSE4070/Project_01/filesys/inode.c:73-187 | headers and extents of live inodes are pairwise disjoint and marked used |
| FilesysBooks.CountsExact | 2024_2nd/CSE4070/Project_01/filesys/inode.c:323-338 | open_cnt and deny_write_cnt equal the numbers of open files and of those that deny writes; one in-memory inode per sector |
| FilesysBooks.NoOrphans | 2024_2nd/CSE4070/Project_01/filesys/directory.c:185-216 | in tidy books an inode is on disk exactly while it has a name or an open file keeps it after its removal, and a name never points to a removed inode |
| FilesysBooks.BookEntry | 2024_2nd/CSE4070/Project_01/filesys/directory.c:171-175 | a new entry points to a live inode of its own |
| FilesysBooks.BookRemove | 2024_2nd/CSE4070/Project_01/filesys/directory.c:185-216 | the books stay right whether or not the removed file is open |
| FilesysBooks.OpenThenClose | 2024_2nd/CSE4070/Project_01/filesys/directory.c:200-215 | opening an inode and closing it again changes nothing, and with a mark in between removes it at once exactly if no file has it open |
| Calculator.EvaluatesTree | 2024_2nd/CSE3040/Project_02/calculator_20191282.java:164-314 | getAnswer computes the value of every expression from its text: sums of products of powers of factors, each grouped to the left, with every sign, name and error condition written out; only the arithmetic itself is left open; neither stack is empty when popped |
| Calculator.ScanSum | 2024_2nd/CSE3040/Project_02/calculator_20191282.java:168-231 | scanning the text of a sum leaves exactly its value, or its pending operators, on the stacks |
| Calculator.ScanProduct | 2024_2nd/CSE3040/Project_02/calculator_20191282.java:168-231 | the same for a product, where a sum may be pending |
| Calculator.ScanPower | 2024_2nd/CSE3040/Project_02/calculator_20191282.java:168-231 | the same for a power, where a product may be pending |
| Calculator.ScanFactor | 2024_2nd/CSE3040/Project_02/calculator_20191282.java:172-230 | a number, a parenthesis or a function of a factor is complete when it is scanned, whatever is pending |
| Calculator.ScanBin | 2024_2nd/CSE3040/Project_02/calculator_20191282.java:192-196 | an operator first applies what binds at least as tightly, and no more, and then waits for its right operand |
| Calculator.ScanGroup | 2024_2nd/CSE3040/Project_02/calculator_20191282.java:184-191 | a parenthesis is worth its content, whatever stands in front of it |
| Calculator.ScanNum | 2024_2nd/CSE3040/Project_02/calculator_20191282.java:172-183 | a minus sign at the start, after an operator or after an opening parenthesis is part of the number |
| Calculator.ScanFn | 2024_2nd/CSE3040/Project_02/calculator_20191282.java:197-230 | a postfix function applies to the number on top, or ends the evaluation when it rejects it |
| Calculator.PostParts | 2024_2nd/CSE3040/Project_02/calculator_20191282.java:197-230 | which function each name stands for, and when it rejects its operand |
| Calculator.GetAnswer | 2024_2nd/CSE3040/Project_02/calculator_20191282.java:164-239 | the loop over the text is the evaluator of the other rows, including the malformed texts on which it throws |
| Calculator.ScanOne | 2024_2nd/CSE3040/Project_02/calculator_20191282.java:168-231 | one iteration of the loop |
| Calculator.ReduceLoop | 2024_2nd/CSE3040/Project_02/calculator_20191282.java:193-195 | applies operators while the new one does not bind tighter |
| Calculator.CloseLoop | 2024_2nd/CSE3040/Project_02/calculator_20191282.java:187-191 | applies operators back to the opening parenthesis |
| Calculator.ScanDigits | 2024_2nd/CSE3040/Project_02/calculator_20191282.java:178-181 | takes exactly the digits and points that follow |
| StringSearch.KMP | 2022_2nd/CSE3080/Assignment/Assignment_04.c:36-83 | yes exactly when the pattern occurs; and the count it prints, exactly: the comparisons of a search that goes on with the longest border after each mismatch, at most two per character, and one for each character of the pattern behind the first |
| StringSearch.FailureTable | 2022_2nd/CSE3080/Assignment/Assignment_04.c:43-56 | failure[j] is the end of the longest proper border of the first j + 1 characters; how often the inner loop runs, which is at most as often as the outer in total |
| StringSearch.FallBack | 2022_2nd/CSE3080/Assignment/Assignment_04.c:46-49 | falling back passes only over lengths that are no border |
| StringSearch.NextCandidate | 2022_2nd/CSE3080/Assignment/Assignment_04.c:46-49 | the next border to try is the longest border of the last one |
| StringSearch.Shift | 2022_2nd/CSE3080/Assignment/Assignment_04.c:69-71 | the shift after a mismatch skips no occurrence |
| StringSearch.Nfind | 2022_2nd/CSE3080/Assignment/Assignment_04.c:7-34 | for two characters or more the answer is right; for one character nothing is compared; and exactly what it counts |
| StringSearch.Compare | 2022_2nd/CSE3080/Assignment/Assignment_04.c:19-21 | the inner loop reaches the last position exactly if all before it match |
| StringSearch.NfindRightIff | 2022_2nd/CSE3080/Assignment/Assignment_04.c:7-34 | nfind prints the right answer exactly when the pattern has two characters or its one character is in the text |
| Sorting.CustomSortAll | 2022_2nd/CSE3081/Project_02.c:145-159 | custom_sort of the whole array sorts it and keeps its elements |
| Sorting.CustomSort | 2022_2nd/CSE3081/Project_02.c:145-159 | on every range it calls itself on, where nothing to the left is greater, it sorts the range and changes nothing outside |
| Sorting.InsertionSort | 2022_2nd/CSE3081/Project_02.c:110-120 | sorts the range although its inner loop is bounded by index 0 only |
| Sorting.InsertOne | 2022_2nd/CSE3081/Project_02.c:114-118 | the inner loop stops by itself at the left end of the range |
| Sorting.CustomPartition | 2022_2nd/CSE3081/Project_02.c:92-108 | smaller elements left of the pivot, the others right of it, as a rearrangement of the range |
| Sorting.Middle | 2022_2nd/CSE3081/Project_02.c:62-90 | picks the median of three exactly unless the middle element is above the left and not above the right one |
| Sorting.Partition | 2022_2nd/CSE3081/Project_02.c:9-22 | smaller elements left of the pivot, the others right of it, as a rearrangement of the range |
| Sorting.Swap | 2022_2nd/CSE3081/Project_02.c:7 | exchanges two elements of a range |
| Sorting.QuickSort | 2022_2nd/CSE3081/Project_02.c:122-131 | sorts the range and changes nothing outside |
| Sorting.Merge | 2022_2nd/CSE3081/Project_02.c:24-60 | two sorted halves become one sorted range of the same elements |
| Sorting.Interleave | 2022_2nd/CSE3081/Project_02.c:31-42 | the smaller head first, until one half is used up |
| Sorting.CopyRight | 2022_2nd/CSE3081/Project_02.c:45-47 | then the rest of the right half |
| Sorting.CopyLeft | 2022_2nd/CSE3081/Project_02.c:50-52 | or the rest of the left half |
| Sorting.CopyBack | 2022_2nd/CSE3081/Project_02.c:55-57 | and the buffer goes back over the range |
| Sorting.MergeSort | 2022_2nd/CSE3081/Project_02.c:133-143 | sorts the range and changes nothing outside |
| Sorting.PartsAbove | 2022_2nd/CSE3081/Project_02.c:153-156 | the parts of a partitioned range meet what the recursive calls rely on |
| MaxRectangle.AllAgree | 2022_2nd/CSE3081/Project_01.c:28-205 | the three searches return the same number on every matrix |
| MaxRectangle.Index1 | 2022_2nd/CSE3081/Project_01.c:48-65 | brute force returns the maximum of zero and the largest rectangle sum |
| MaxRectangle.Index2 | 2022_2nd/CSE3081/Project_01.c:105-141 | the search over prefix sums returns that maximum |
| MaxRectangle.Index3 | 2022_2nd/CSE3081/Project_01.c:181-192 | the search over sums of columns returns that maximum |
| MaxRectangle.AddUp | 2022_2nd/CSE3081/Project_01.c:52-57 | the two inner loops sum up one rectangle |
| MaxRectangle.AddColumn | 2022_2nd/CSE3081/Project_01.c:184-186 | one more column in every row sum |
| MaxRectangle.Clear | 2022_2nd/CSE3081/Project_01.c:182 | row sums of no columns |
| MaxRectangle.MaxSubsequenceSum | 2022_2nd/CSE3081/Project_01.c:10-26 | the largest sum of a segment, an empty one included |
| MaxRectangle.PrefixSums | 2022_2nd/CSE3081/Project_01.c:105-115 | each entry is the sum of the rectangle up to it |
| MaxRectangle.FromPrefixes | 2022_2nd/CSE3081/Project_01.c:121-132 | the four cases give the rectangle sum at every border |
| MaxRectangle.InclusionExclusion | 2022_2nd/CSE3081/Project_01.c:121-132 | a rectangle sum from four prefix sums |
| MaxRectangle.SegIsRect | 2022_2nd/CSE3081/Project_01.c:183-187 | a segment of column sums is a rectangle of the matrix |
| MaxRectangle.MaximumUnique | 2022_2nd/CSE3081/Project_01.c:48-65 | there is one maximum |
| HeapSort.Sort | 2024_2nd/CSE4070/Project_01/lib/stdlib.c:131-152 | the array ends ordered by the comparison function and with the same elements, for any total preorder |
| HeapSort.Heapify | 2024_2nd/CSE4070/Project_01/lib/stdlib.c:96-123 | floating an element down restores the heap property from its index on, inside the heap only |
| HeapSort.BuildHeap | 2024_2nd/CSE4070/Project_01/lib/stdlib.c:142-144 | the whole array becomes a heap |
| HeapSort.SortOne | 2024_2nd/CSE4070/Project_01/lib/stdlib.c:147-151 | one extraction keeps heap, order behind it, and everything in the heap below that |
| HeapSort.SiftStep | 2024_2nd/CSE4070/Project_01/lib/stdlib.c:119-121 | after a swap only the child can break the heap property |
| HeapSort.RootIsMax | 2024_2nd/CSE4070/Project_01/lib/stdlib.c:142-151 | the root of a heap is its largest element |
| HeapSort.LargestOf | 2024_2nd/CSE4070/Project_01/lib/stdlib.c:105-112 | max is the largest among an element and its children |
| HeapSort.DoSwap | 2024_2nd/CSE4070/Project_01/lib/stdlib.c:66-79 | exchanges two elements of the heap |
| HeapSort.BinarySearch | 2024_2nd/CSE4070/Project_01/lib/stdlib.c:184-207 | finds an element equal to the key exactly when there is one |
| PrintedIntegers.PrintsValue | 2024_2nd/CSE4070/Project_01/lib/stdio.c:185-281 | every integer conversion, for every value, flags, width and precision, said without the tables of the code: spaces, the sign, the prefix 0x or 0X directly in front of the zeros and digits exactly for a nonzero hexadecimal value with the # flag, digits of the radix and case of the letter that read back as the value and are grouped by three or four as asked, and spaces; how many digits, and on which side the spaces are |
| PrintedIntegers.PrintInteger | 2024_2nd/CSE4070/Project_01/lib/stdio.c:185-281 | the letter decides base and sign, and format_integer prints what PrintsValue says |
| PrintedIntegers.ReadsValue | 2024_2nd/CSE4070/Project_01/lib/stdio.c:506-513 | the digits of a value, in any radix and with any separators, read back as the value |
| PrintedIntegers.DigitChar | 2024_2nd/CSE4070/Project_01/lib/stdio.c:138-141 | the tables map each digit value to its character |
| PrintedIntegers.OwnGrouped | 2024_2nd/CSE4070/Project_01/lib/stdio.c:508-509 | a separator behind a digit exactly when a multiple of the group size follows |
| PrintedIntegers.WithZeros | 2024_2nd/CSE4070/Project_01/lib/stdio.c:506-524 | and none among the zeros in front |
| PrintedIntegers.NumDigitsIff | 2024_2nd/CSE4070/Project_01/lib/stdio.c:506-513 | the number of digits is that of the powers of the radix up to the value |
| PrintedIntegers.DigitsAsked | 2024_2nd/CSE4070/Project_01/lib/stdio.c:520-524 | as many digits as the precision asks for or the value has |
| PrintedIntegers.LongEnough | 2024_2nd/CSE4070/Project_01/lib/stdio.c:526-529 | at least as long as the width, and padded only up to it |
| Stdio.AtoiReads | 2024_2nd/CSE4070/Project_01/lib/stdlib.c:9-41 | atoi on every text: white space, at most one sign, decimal digits and any rest give the number, in 32 bits |
| Stdio.AtoiRoundTrip | 2024_2nd/CSE4070/Project_01/lib/stdio.c:469-547 | atoi reads back every 32-bit int from every decimal conversion without the grouping flag, for any other flags, width and precision |
| Stdio.FormatInteger | 2024_2nd/CSE4070/Project_01/lib/stdio.c:469-547 | the characters written are sign, prefix, padding and digits as the flags ask, and the 64-character buffer is never overrun |
| Stdio.FieldWidth | 2024_2nd/CSE4070/Project_01/lib/stdio.c:526-546 | a conversion is as long as its width or its own text, exactly unless the minus and the zero flag meet |
| Stdio.BothFlags | 2024_2nd/CSE4070/Project_01/lib/stdio.c:373-416 | they meet exactly for a zero flag, no minus flag, a negative width argument and no precision |
| Stdio.AccumulateDigits | 2024_2nd/CSE4070/Project_01/lib/stdio.c:504-513 | the digits in the base, lowest first, with separators between groups |
| Stdio.AppendZeros | 2024_2nd/CSE4070/Project_01/lib/stdio.c:520-522 | zeros up to the precision, as far as the buffer goes |
| Stdio.OctalZero | 2024_2nd/CSE4070/Project_01/lib/stdio.c:523-524 | an octal conversion with the # flag starts with a zero |
| Stdio.SignCharacter | 2024_2nd/CSE4070/Project_01/lib/stdio.c:485-494 | at most one character: a minus sign exactly for a negative signed value, a plus sign or a space exactly for another signed value with the plus flag, or with the space flag alone |
| Stdio.PrecisionMet | 2024_2nd/CSE4070/Project_01/lib/stdio.c:504-524 | the number of digits is the larger of the precision and the own digits, exactly unless the precision is the larger and it exceeds 63 or separators are counted towards it |
| Stdio.OwnDigits | 2024_2nd/CSE4070/Project_01/lib/stdio.c:504-513 | how many digits a value has, and when separators come between them |
| Stdio.OutputBuffer | 2024_2nd/CSE4070/Project_01/lib/stdio.c:543-544 | the buffer backwards |
| Stdio.OutputDup | 2024_2nd/CSE4070/Project_01/lib/stdio.c:550-555 | the character cnt times |
| Stdio.Vsnprintf | 2024_2nd/CSE4070/Project_01/lib/stdio.c:25-42 | stores the longest prefix that fits and a terminator, changes nothing else, and returns the full length (section 7.19.6.12 of ISO C99) |
| Stdio.Aux.Helper | 2024_2nd/CSE4070/Project_01/lib/stdio.c:45-52 | one character is stored only while there is room, and always counted |
| Stdio.Atoi | 2024_2nd/CSE4070/Project_01/lib/stdlib.c:9-41 | the loops skip white space, read a sign and accumulate the digits downwards, in 32-bit arithmetic; AtoiReads says what that is |
| Stdio.ReadsBack | 2024_2nd/CSE4070/Project_01/lib/stdlib.c:9-41 | leading spaces, a sign, zeros, digits and trailing spaces read as the number, INT_MIN included |
| Stdio.DigitsBack | 2024_2nd/CSE4070/Project_01/lib/stdlib.c:35-36 | accumulating the printed digits gives the negated number without overflow |

## Left out

- MmMalloc: what later calls do to a heap after a request that wrapped around; the run ends there.
- AdjustedSize: the wrap-around of the sum in `size_t`; `WrappedSize` and `WrapsIff` have it, and `MmMalloc` computes with them.
- ExtendHeap: fewer than three words, which no caller asks for.
- `mm_realloc`: its paths that grow a block in place do not keep the rules that malloc and free rely on.
- `mem_sbrk`: memlib.c is not part of this model; the call hands out words of a fixed region of at most 4 GiB and fails when it is used up. Addresses are byte offsets, and null is offset zero. So every block fits its 32-bit tags.
- The server's `client_cnt`, `write_stock` and the parsing of requests: `client_cnt` is changed without a lock. An unknown stock id ends the process, and with it the run.
- Integer overflow of stock counts, of the bounded buffer's indices, of sums of matrix entries and of array indices: these are unbounded integers here.
- The division instruction itself: `divl` is its quotient, under the condition that the quotient fits.
- Signed overflow in C: negating INT64_MIN and the digits of `atoi` are modelled as wrapping.
- Splice: moves between two lists or towards a later element; the sort only moves within a list and towards the front.
- `list_shuffle`, `list_max`, `list_min` and the list accessors.
- Rehash: buckets are sequences of elements, so the relinking of list nodes is not shown; the links of lists are the subject of `IntrusiveList` and `ListOperations`. The server's search tree is a value too.
- MoveAll: taking the head of one sequence and putting it in front of another stands for `list_remove` and `list_push_front`.
- InsertElem: putting an element in front of a sequence stands for the list links.
- RemoveElem: cutting an element out of a sequence stands for the list links.
- `hash_apply` with actions that change keys, and the byte hashes.
- The bitmap's use as a file, `bitmap_count` and `bitmap_expand`; atomicity of its instructions.
- Inodes and files of `InodeLayer` and `Filesys` as heap records: they are values under handles, and equal handles stand for equal pointers.
- InodeOpen: a sector that holds no header of a live inode; directory entries point to none.
- FreeMapAllocate: what the free map file holds; whether writing it succeeds is an outcome.
- FreeMapRelease: the write of the free map file, whose failure the source ignores.
- DoFormat: opening the free map file and writing the map to it; a failure there is a panic in the source.
- OpenRoot: the root inode in the list of open inodes, and its `struct dir`. Every call opens and closes it, so whether its two allocations succeed is one outcome, and no count changes in the end. The contents in the file system's specification are those of all files but the free map and the root directory, whose bytes are there as its entries.
- `dir_readdir`, `dir_reopen`, and writing past the end of a file, which the source does not do.
- `file_read_at`, `file_write_at`, `file_tell` and `file_length`: they are `ReadAt` and `WriteAt` of `InodeIO`, and fields.
- GetAnswer: the formatting of the result, and the calculator's window.
- ScanDigits: digits other than 0 to 9, which `Character.isDigit` accepts.
- Negative offsets in `inode_read_at` and `inode_write_at`: the source asks for positions inside a file.
- DoSwap: elements as runs of bytes; an array of any element type is sorted, so the byte loop is one exchange.
- The parsing of conversion specifications, except how flags, width and precision combine; the types of integer arguments, all of which are converted to 64 bits first; and the conversions other than integers.
- `smod64`, `umod64` beyond 32 bits: the functions return 32-bit types, so only the exact condition is stated.
- FilesysCreate: the sectors that a failed call leaves marked are counted, not recovered, as in the source.
- Device drivers, shells, sockets, graphics, databases, file parsing, timing and the Huffman coder, whose decoding stops early and so has no round trip.
