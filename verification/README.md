# The algorithms of the OCaml runtime, modelled and verified in Dafny

The C runtime under `src/ocaml/runtime` contains a number of algorithms whose correctness is far from
obvious from their text: garbage collectors that share the heap with a running program, allocators
that thread trees and lists through free blocks, an iterative printer and parser of graphs, and small
machines that must behave as one step although they take several. This project models them and proves
what they are for. The setting is a 64-bit little-endian host, without profiling information and
without the no-naked-pointers mode.

C code that works by changing state is modelled by classes and methods with loops, proved against
specification functions and predicates on values; what the runtime relies on is then proved about those.
Addresses count words.

| area | files |
|---|---|
| compaction by pointer inversion | `CompactAlloc`, `Threading`, `Inversion`, `HeapChunks`, `Placement`, `Reversion`, `Relocation`, `Compactor` |
| incremental marking and sweeping, the write barrier | `MajorHeap`, `Marking`, `Cycles`, `CycleSafety`, `CycleRuns`, `Reclaiming`, `MajorCollector` |
| minor collection | `MinorHeap`, `Oldify`, `Mopup`, `MinorCollector`, `Generations` |
| best-fit free set | `Trees`, `Rings`, `LargeTree`, `LargeSet`, `SmallLists`, `FreeSet`, `SweptHeap`, `BestFit` |
| first-fit free list and its index | `FlpIndex`, `FirstFit`, `FirstFitSweep` |
| marshalling | `PositionTable`, `MarshalCodec`, `MarshalGraph`, `MarshalStream`, `Marshal`, `Unmarshal` |
| frame descriptor table | `Probing`, `FrameTable` |
| global roots | `SkipList`, `GlobalRoots` |
| structural comparison and hash | `Compare`, `Hash` |
| partial application, bytecode and JIT | `Currying`, `Machine` |
| lexer engine | `Lexing` |
| hexadecimal floats | `HexFloat` |

The main results, hardest first:

- **Compaction** (`Compactor.DoCompaction`, `Relocation.PathsKept`). Memory is a map from word addresses to
  words, told apart by the two low bits as in the code. Pass 2 threads every slot through the header of
  the block it points to, with the lists of infix positions linked one after the other; the invariant
  says that the threads hold exactly the slots inverted so far. Pass 3 unwinds them while it allocates
  virtually, pass 4 replays the allocation and moves. The end result speaks of the memory before and
  after only: exactly the blocks that are pointed to survive, and every path of fields leads to the same
  words. The one precondition is that the look-ahead of `compact_allocate` stays inside the heap. It leaves
  the heap exactly when a block is to be moved while every chunk has at most four words left
  (`Placement.LookAheadLeavesExactly`); a heap where that happens is given (`Relocation.LookAheadFails`), and so
  is a condition on the last chunk alone that rules it out, exact for a heap of one chunk
  (`LookAheadStaysInside`, `OneChunkExactly`).
- **Incremental collection** (`CycleRuns.NoReachableBlockIsFreed`, `MarkingEndsComplete`). A run is any
  interleaving of writes, allocations, heap growth, single marking steps, single sweeping steps and cycle
  starts. The invariant is a cut condition: every non-empty set of white blocks of the snapshot is entered
  from outside by a field still to be scanned, or contains a root still to be darkened. The other half is that
  a cycle reclaims (`Reclaiming.CycleReclaims`): behind the sweeper every block with fields was reachable when the
  cycle started, or has been allocated since, or is free.
- **Minor collection** (`MinorCollector.EmptyMinorHeap`, `Mopup.SameGraph`, `NoYoungPointerLeft`).
- **Best-fit allocation** (`BestFit.Allocate`, `MergeBlock`, `SweepChunk`) over splay trees of circular lists, where the
  remnant of a block may stay in the tree under its new size. A sweep gives back every dead word and leaves free
  blocks next to each other exactly where they were with no dead block before them, pieces of the greatest size
  apart (`SweptHeap.NeighboursExactly`).
- **First-fit allocation** (`FirstFit.Policy.Allocate`, `MergeBlock`, `AddBlocks`): the table of size records and
  `beyond` always describe a prefix of the records, so the search finds the block a linear scan finds. A sweep
  frees every dead word and lets no further free blocks touch unless they are too large for one (`FirstFitSweep.SweepChunk`).
- **Marshalling** (`Unmarshal.ByteRoundTrip`, `HeaderIsExact`): writer and reader advance in lockstep, object
  numbers included.
- **Hexadecimal floats** (`HexFloat.PrintParseRoundTrip`), **comparison and hash** (`Compare.CompareSays`,
  `CmpTransitive`, `Hash.HashMeans`, `HashRespectsCompare`), **partial application** (`Currying.GroupingIsTransparent`), **lexing**
  (`Lexing.RefillsDoNotMatter`), **linear probing with deletion** (`FrameTable.RemoveEntry`) and **global roots**
  (`GlobalRoots.RunKeeps`).

Two places where the code relies on more than it says: the look-ahead of `compact_allocate` reads
`Chunk_next` without a test for its end; and `ff_add_blocks` leaves `beyond` before the last entry of the
table whenever the list was not empty (`FirstFit.Policy.AddAtEnd`). The request that failed, repeated at
once, sets that right (`FirstFit.Policy.Allocate` accepts this state, `ExtendedFor`); another request may leave
`beyond` at a block that has been handed out (`FirstFit.OtherRequest`).

`dafny verify dfyconfig.toml` checks the whole project.

## Model

| member | source | states |
|---|---|---|
| `CompactAlloc.Allocator.Reset` | src/ocaml/runtime/compact.c:132-141 | sets every chunk's mark and compact_fl back, so pass 4 starts from the state pass 3 started from |
| `CompactAlloc.Allocator.CompactAllocate` | src/ocaml/runtime/compact.c:143-161 | both loops compute the allocation function: address, new marks and new compact_fl |
| `CompactAlloc.AllocatesBehind` | src/ocaml/runtime/compact.c:143-161 | a block reached by the pass is placed at or before its own address, on words not used yet, and afterwards exactly these words are added to the used ones; the only other outcome is the look-ahead beyond the last chunk |
| `CompactAlloc.LookAheadExactly` | src/ocaml/runtime/compact.c:147-152 | the look-ahead to Chunk_next leaves the heap if and only if every chunk from compact_fl on has at most four words left |
| `Placement.BigBlockGoesFirst` | src/ocaml/runtime/compact.c:143-161 | although the search starts at compact_fl, a block of five words or more goes to the first chunk of the whole heap with room for it, in every state of a pass |
| `Placement.LookAheadLeavesExactly` | src/ocaml/runtime/compact.c:147-152 | a whole pass looks beyond the last chunk if and only if it reaches a block to be moved while every chunk of the heap has at most four words left |
| `Placement.LookAheadStaysInside` | src/ocaml/runtime/compact.c:147-152 | for any number of chunks: it stays inside when, in the last chunk, the words without pointers to them and the last block that survives are more than four words, or nothing survives there |
| `Placement.OneChunkExactly` | src/ocaml/runtime/compact.c:147-152 | for a heap of one chunk this condition is exact |
| `Relocation.LookAheadFails` | src/ocaml/runtime/compact.c:147-152 | a concrete heap, with two blocks that roots point to, that meets every other precondition of compaction and on which the pass looks beyond the last chunk |
| `Placement.PlanIsGood` | src/ocaml/runtime/compact.c:275-383 | over a whole pass: exactly the live blocks are placed, each at or before its old address, on words no other block is placed on, and inside a chunk |
| `Placement.PassBlock` | src/ocaml/runtime/compact.c:345-383 | pass 4, replaying compact_allocate, gets for each block the address that pass 3 handed out |
| `Inversion.InvertDirect` | src/ocaml/runtime/compact.c:78-83 | inverting a slot that points to a block keeps all threads: the slot is added to the front of that block's list and nothing else changes meaning |
| `Inversion.InvertInfix` | src/ocaml/runtime/compact.c:116-120 | the same for a slot that points to an infix position with a list |
| `Inversion.InvertNewInfix` | src/ocaml/runtime/compact.c:84-115 | the same for the first slot that points to an infix position: its list goes before the block's other infix lists, and the original header stays at the end of the last one |
| `Compactor.Compactor.EncodeHeaders` | src/ocaml/runtime/compact.c:181-206 | after pass 1 exactly the non-infix headers are encoded, with a string tag for free blocks, and every thread is empty |
| `Compactor.Compactor.InvertPointerAt` | src/ocaml/runtime/compact.c:70-123 | the invariant of inversion is kept and the slot has been inverted; an infix header passed as a slot is left alone |
| `Compactor.Compactor.HeaderOf` | src/ocaml/runtime/compact.c:230-243 | through any threads, direct and infix, the loops find the block's original size and tag |
| `Compactor.Compactor.FollowInfixes` | src/ocaml/runtime/compact.c:238-240 | the walk through all infix lists of a block ends at its original header |
| `Compactor.Compactor.InvertPointers` | src/ocaml/runtime/compact.c:209-253 | after pass 2 exactly the roots and the fields of scanned blocks have been inverted, each once, with the invariant kept |
| `Compactor.Compactor.RevertList` | src/ocaml/runtime/compact.c:316-321 | unwinding a list writes the new address to exactly its slots and ends at the word that ended it |
| `Compactor.Compactor.RevertInfixes` | src/ocaml/runtime/compact.c:325-343 | all infix lists of a block are unwound, their slots pointing to the same offset of the new place, and the infix headers are rebuilt |
| `Compactor.Compactor.RevertBlock` | src/ocaml/runtime/compact.c:286-355 | one block of pass 3: live exactly if something points to it; then every slot in its threads gets the planned address, else the header turns blue; other blocks' threads are untouched |
| `Compactor.Compactor.RevertPointers` | src/ocaml/runtime/compact.c:275-359 | after pass 3 every block is settled: headers decoded, every threaded slot reverted to the new address |
| `Reversion.RevertStep` | src/ocaml/runtime/compact.c:286-355 | settling one block keeps the threads of all blocks not reached yet and what is settled already |
| `Compactor.Compactor.MoveBlocks` | src/ocaml/runtime/compact.c:362-383 | after pass 4 every word of every live block is at its new place, no word was overwritten before it had moved, and words outside the chunks are unchanged |
| `Relocation.MoveStep` | src/ocaml/runtime/compact.c:371-376 | memmove of one block destroys neither a word that has not been visited nor one that has moved before |
| `Relocation.LiveIsPointed` | src/ocaml/runtime/compact.c:286-290 | a block survives if and only if some root or scanned field points to it or into it |
| `Compactor.Compactor.DoCompaction` | src/ocaml/runtime/compact.c:163-383 | for every heap whose look-ahead stays inside: exactly the blocks pointed to survive, apart from each other and never later, with size and tag; every root and every field holds the new address, at the same infix offset, of what it pointed to; all other words are unchanged |
| `Relocation.PathsKept` | src/ocaml/runtime/compact.c:163-383 | every path of fields from a root leads to the same word before and after compaction, up to new addresses |
| `Relocation.RootPathsKept` | src/ocaml/runtime/compact.c:163-383 | and so does every path that starts in a root itself, without further conditions |
| `Relocation.NewWordsDiffer` | src/ocaml/runtime/compact.c:163-383 | two pointers into surviving blocks become equal only if they were equal |
| `Marking.DarkenKeeps` | src/ocaml/runtime/major_gc.c:153-188 | caml_darken keeps the marking invariant and settles the one block that was still to be darkened |
| `Marking.MarkStepKeeps` | src/ocaml/runtime/major_gc.c:380-524 | one step of the marking loop, whatever branch is taken, is defined and keeps the invariant; the last step starts a sound sweep |
| `Marking.MarkDoneNoGray` | src/ocaml/runtime/major_gc.c:478-512 | when nothing is pending and the heap is pure, no gray block is left |
| `Marking.MarkDoneAllBlack` | src/ocaml/runtime/major_gc.c:478-512 | and every kept block is black |
| `CycleRuns.StartKeeps` | src/ocaml/runtime/major_gc.c:190-213 | starting a cycle establishes the snapshot: the blocks reachable then are the ones to be kept |
| `CycleRuns.SweepKeeps` | src/ocaml/runtime/major_gc.c:554-595 | one step of the sweeper frees only blocks that need not be kept |
| `CycleRuns.EventKeeps` | src/ocaml/runtime/major_gc.c:380-524 | every event, of the mutator or the collector, keeps the invariant in every phase |
| `CycleRuns.RunKeeps` | src/ocaml/runtime/major_gc.c:380-595 | the invariant holds after every run of events |
| `CycleRuns.NoReachableBlockIsFreed` | src/ocaml/runtime/major_gc.c:125-595 | in every run from an empty heap, no block reachable from the roots is in the free list, in any interleaving of writes, allocations, heap growth, marking and sweeping |
| `CycleRuns.MarkingEndsComplete` | src/ocaml/runtime/major_gc.c:478-512 | in every run, when marking gives way to sweeping no gray block is left and every reachable block is black |
| `CycleRuns.CollectorLeavesContents` | src/ocaml/runtime/major_gc.c:380-595 | in every run, no step of the collector changes the fields of a reachable block |
| `Marking.PushedStack` | src/ocaml/runtime/major_gc.c:125-151 | after a push on a stack that may be full there is room for the next one and nothing is on it twice; unless the heap is marked impure, no entry was lost |
| `MajorCollector.Major.CamlDarken` | src/ocaml/runtime/major_gc.c:153-188 | a white block turns gray and is pushed, or black if it is not scanned; any other block is left alone |
| `MajorCollector.Major.MarkFields` | src/ocaml/runtime/major_gc.c:416-420 | the inner loop is a run of marking steps only, one for each field up to the one where the slice stops, and costs as many words |
| `MajorCollector.Major.MarkSlice` | src/ocaml/runtime/major_gc.c:380-524 | a slice, stopping anywhere, also inside a block, is a run of marking steps and nothing else; it spends its work or ends with the start of sweeping |
| `MajorCollector.Major.SweepSlice` | src/ocaml/runtime/major_gc.c:554-595 | a sweep slice is a run of sweeping steps and nothing else; each block that was white with fields from its start on and that it has passed is blue and free, black ones are white, nothing ahead is touched; it spends its work or ends with the heap swept, all such blocks free |
| `Reclaiming.EventReclaims` | src/ocaml/runtime/major_gc.c:554-595 | every event, of the mutator or the collector, keeps it that nothing with fields is left behind the sweeper but blocks to be kept and free blocks |
| `Reclaiming.RunReclaims` | src/ocaml/runtime/major_gc.c:380-595 | the same over every run; within a cycle the kept blocks are those of its start and the ones allocated since |
| `Reclaiming.CycleReclaims` | src/ocaml/runtime/major_gc.c:190-595 | in every run, from the start of a cycle to any point of it: a block with fields that the sweeper has passed, so every such block when the cycle is over, was reachable when the cycle started, or has been allocated since, or is free |
| `MajorCollector.Major.StartMarking` | src/ocaml/runtime/major_gc.c:190-213 | start_cycle darkens every root, in any order, and thereby establishes the snapshot invariant |
| `CycleSafety.ModifyKeeps` | src/ocaml/runtime/memory.c:657-698 | the write barrier keeps the invariant in every phase, for every slot and value the mutator holds |
| `CycleSafety.ModifyRemembers` | src/ocaml/runtime/memory.c:657-698 | a slot that holds a young pointer is in ref_table already, which justifies the early return; a slot that receives one is in it afterwards; while marking, the block pointed to before is no longer white |
| `CycleSafety.InitializeKeeps` | src/ocaml/runtime/memory.c:637-652 | caml_initialize keeps the invariant and remembers a young pointer |
| `CycleSafety.AllocateKeeps` | src/ocaml/runtime/memory.c:458-530 | allocating in any phase, with the colour of caml_allocation_color, keeps the invariant and the new block is among the kept ones |
| `CycleSafety.ExpandKeeps` | src/ocaml/runtime/memory.c:320-411 | adding a chunk to the heap keeps the invariant |
| `MajorCollector.Major.CamlModify` | src/ocaml/runtime/memory.c:657-698 | the branches of caml_modify compute the modelled write |
| `MajorCollector.Major.ArrayFill` | src/ocaml/runtime/array.c:617-635 | the hand-inlined barrier loop is a run of barriered writes; exactly `len` fields from `ofs` hold the value, the invariant is kept |
| `MinorCollector.Minor.OldifyOne` | src/ocaml/runtime/minor_gc.c:192-272 | forwarded blocks are copies, what is newly forwarded is finished or on the to-do list, the slot holds the moved value, nothing older changes |
| `MinorCollector.Minor.MopupOne` | src/ocaml/runtime/minor_gc.c:304-322 | finishing the head of the to-do list makes progress: more blocks are forwarded or the list is shorter |
| `MinorCollector.Minor.OldifyMopup` | src/ocaml/runtime/minor_gc.c:299-347 | the loop ends with an empty list and every copied block finished |
| `MinorCollector.Minor.EmptyMinorHeap` | src/ocaml/runtime/minor_gc.c:352-376 | the collection skeleton meets the specification of a collection: exactly the live young blocks are copied, each once, all slots moved, older blocks kept |
| `Mopup.ExactlyLive` | src/ocaml/runtime/minor_gc.c:352-376 | exactly the young blocks reachable from roots and remembered slots are copied |
| `Mopup.YoungLiveClosed` | src/ocaml/runtime/minor_gc.c:352-376 | the set of live young blocks contains the roots' targets and is closed under fields |
| `Generations.MinorCollectionMayStart` | src/ocaml/runtime/minor_gc.c:366-372 | after every run of the mutator and the major collector, each reachable major slot with a young pointer is in the table, as a minor collection requires |
| `Mopup.NoYoungPointerLeft` | src/ocaml/runtime/minor_gc.c:352-376 | after a collection neither a root nor a field of the major heap holds a young pointer |
| `Mopup.SameGraph` | src/ocaml/runtime/minor_gc.c:192-376 | along every path of field selections the heaps before and after give corresponding results, so sharing and cycles are kept |
| `LargeTree.LargeTree.Search` | src/ocaml/runtime/freelist.c:1012-1025 | finds the node of the size, or the place where it would have been with smaller blocks before and larger ones after |
| `LargeTree.LargeTree.SearchBest` | src/ocaml/runtime/freelist.c:1039-1069 | finds the least node that fits with the bound on all smaller sizes, or nothing exactly when all nodes are too small |
| `LargeTree.LargeTree.Splay` | src/ocaml/runtime/freelist.c:1077-1138 | the in-order sequence is unchanged; the new root has the size if some node has it, else it is the least larger or the greatest smaller one |
| `LargeTree.LargeTree.SplayLeast` | src/ocaml/runtime/freelist.c:1144-1175 | the in-order sequence is unchanged, the new root is the first block and has no left child |
| `LargeTree.LargeTree.RemoveAt` | src/ocaml/runtime/freelist.c:1179-1200 | exactly the node at that place leaves the sequence |
| `Trees.RotateRightKeeps` | src/ocaml/runtime/freelist.c:1096-1101 | a right rotation keeps the shape of the three trees of top-down splaying and their in-order sequence |
| `Trees.LinkRightKeeps` | src/ocaml/runtime/freelist.c:1105-1108 | linking right keeps the trees and the sequence |
| `Trees.TakeChildren` | src/ocaml/runtime/freelist.c:1130-1136 | reassembly yields one tree with the same sequence |
| `LargeSet.LargeSet.InsertBlock` | src/ocaml/runtime/freelist.c:1206-1246 | the set of large blocks gains exactly this block; order, rings and the least pointer stay right |
| `LargeSet.LargeSet.RemoveBlock` | src/ocaml/runtime/freelist.c:1357-1385 | the set of large blocks loses exactly this block |
| `LargeSet.LargeSet.FindBest` | src/ocaml/runtime/freelist.c:1039-1069 | the node found is the least block that fits, and leaving a remnant above the bound does not break the order |
| `Rings.RingRemove` | src/ocaml/runtime/freelist.c:1381-1383 | unlinking a block leaves a ring of the other blocks in order |
| `Rings.RingAppend` | src/ocaml/runtime/freelist.c:1239-1242 | insertion puts the block at the tail of the ring |
| `SmallLists.SmallLists.PopFront` | src/ocaml/runtime/freelist.c:1513-1520 | the first block of that size is taken, and the bitmap stays right |
| `SmallLists.SmallLists.InsertSweep` | src/ocaml/runtime/freelist.c:1320-1343 | the list stays in address order and the block counts as swept |
| `SmallLists.SmallLists.Remove` | src/ocaml/runtime/freelist.c:1350-1356 | exactly this block leaves the small lists; the list's merge pointer advances to it |
| `SmallLists.SmallLists.NextSize` | src/ocaml/runtime/freelist.c:1525-1528 | the next size with blocks, or 0 exactly if there is none |
| `BestFit.BestFit.Split` | src/ocaml/runtime/freelist.c:1416-1438 | the block is cut into remnant and result, the headers say so, and the words add up |
| `BestFit.BestFit.SplitInPlace` | src/ocaml/runtime/freelist.c:1449-1459 | a remnant larger than the bound stays in the tree at its place; all invariants hold |
| `BestFit.BestFit.AllocFromLarge` | src/ocaml/runtime/freelist.c:1440-1492 | the result is carved from a block of the least size that fits, on every path |
| `BestFit.BestFit.AllocateSmall` | src/ocaml/runtime/freelist.c:1512-1557 | small requests get a least block that fits from the small lists, the least pointer or the tree |
| `BestFit.BestFit.Allocate` | src/ocaml/runtime/freelist.c:1504-1563 | exact best fit: the result is cut from a block of minimum size among all that fit, NULL if and only if none fits; every invariant and the word count are kept |
| `BestFit.BestFit.InitMerge` | src/ocaml/runtime/freelist.c:1565-1596 | afterwards every free block is blue, the white remnants have left the free set, and the count agrees |
| `BestFit.BestFit.RemoveFree` | src/ocaml/runtime/freelist.c:1345-1386 | exactly this block leaves the free set, with its words |
| `BestFit.BestFit.MergeBlock` | src/ocaml/runtime/freelist.c:1636-1703 | the run of dead and free blocks is replaced by free blocks covering the same words; nothing outside it changes; it consisted of dead and free blocks only |
| `BestFit.BestFit.AddBlock` | src/ocaml/runtime/freelist.c:1705-1720 | the new block enters the free set if it is large, or small and not still to be swept |
| `BestFit.BestFit.NextChunk` | src/ocaml/runtime/major_gc.c:582-591 | the step to the next chunk keeps all invariants of the free set |
| `BestFit.BestFit.EndSweep` | src/ocaml/runtime/major_gc.c:582-587 | the free set is valid when sweeping is done, ready for the next cycle |
| `BestFit.BestFit.SweepChunk` | src/ocaml/runtime/major_gc.c:554-595 | sweeping a whole chunk with the best-fit policy: every word of a block that was white or blue is in a free block afterwards or a white fragment of one word; every block in use keeps its size and is white; free blocks follow each other only behind one of the greatest size, or exactly where they did with no dead block before them |
| `SweptHeap.RunMerged` | src/ocaml/runtime/freelist.c:1636-1703 | merging one run keeps what a sweep has achieved so far: words given back, no new neighbours |
| `SweptHeap.NeighboursExactly` | src/ocaml/runtime/freelist.c:1636-1703 | after a sweep, two free blocks below the greatest size follow each other if and only if they did before and no dead block comes before them without a block in use in between |
| `SweptHeap.SweepCoalesces` | src/ocaml/runtime/freelist.c:1636-1703 | if no free blocks followed each other before, except behind one of the greatest size, none do after a sweep |
| `SweptHeap.NeighboursMayStay` | src/ocaml/runtime/freelist.c:1636-1650 | a heap of two free blocks that follow each other, which a sweep leaves as they are |
| `SweptHeap.CutStaysCoalesced` | src/ocaml/runtime/freelist.c:1416-1438 | allocation makes no free blocks follow each other that did not before |
| `FirstFit.Policy.SearchTable` | src/ocaml/runtime/freelist.c:470-481 | the entry found stands for the first block of the whole list that fits; if none is found no block the table covers fits |
| `FirstFit.Policy.ExtendTable` | src/ocaml/runtime/freelist.c:483-521 | the scan from `beyond` finds the first block that fits and the table covers it, or no block fits and the table is complete |
| `FirstFit.Policy.AllocateBlock` | src/ocaml/runtime/freelist.c:430-459 | the list loses the block or the words at its end, and the table and `beyond` are adjusted for the block's entry |
| `FirstFit.Policy.UpdateMiddle` | src/ocaml/runtime/freelist.c:572-612 | the entries collected anew, put between the old ones, are exactly the size records of the changed list |
| `FirstFit.Policy.UpdateLast` | src/ocaml/runtime/freelist.c:565-571 | the last entry stays if it is still a record, otherwise it goes and `beyond` takes its place |
| `FirstFit.Policy.Allocate` | src/ocaml/runtime/freelist.c:461-612 | the table refines the naive search: the same block as a linear scan for the first block that fits is carved in the same way, NULL if and only if none fits; list, table and word count stay right; the only condition is that the table this request produces fits |
| `FirstFit.ShortListHasRoom` | src/ocaml/runtime/freelist.c:494-534 | fewer free blocks than FLP_MAX are enough for no request to fill the table |
| `FirstFit.Policy.AddAtEnd` | src/ocaml/runtime/freelist.c:757-764 | after growing at the end, `beyond` and the table describe a prefix of the records if and only if the list was empty or the table full |
| `FirstFit.OtherRequest` | src/ocaml/runtime/freelist.c:461-612 | why the request that failed must come next: another one, of the size of the last old block, leaves `beyond` at a block that is no longer in the list |
| `FirstFit.AllocationTakes` | src/ocaml/runtime/freelist.c:430-459 | the free list loses exactly the words handed out, plus the header-only fragment when one word would be left |
| `FlpIndex.FoundInTable` | src/ocaml/runtime/freelist.c:470-481 | the first entry that fits stands for the first block that fits |
| `FlpIndex.TailSame` | src/ocaml/runtime/freelist.c:586-612 | behind a block that is a record before and after a change, the records are the same |
| `FirstFit.GapAround` | src/ocaml/runtime/freelist.c:586-612 | between the changed block and the next entry all blocks are no larger than the old block, and the entries from there on remain the records |
| `FirstFit.LastRemoved` | src/ocaml/runtime/freelist.c:448-452 | without the last entry, `beyond` moves back to the predecessor and the table describes a prefix again |
| `FirstFit.Policy.TruncateAt` | src/ocaml/runtime/freelist.c:628-639 | the table keeps exactly the records below the node that changes, and `beyond` is dropped if it is not below |
| `FirstFit.Policy.MergeBlock` | src/ocaml/runtime/freelist.c:656-737 | the dead block, a fragment just before it and the free neighbours that are not too large become one block of the list, or a fragment that no free block touches; the free words gain exactly its words; free blocks touch where they did and nowhere else, unless too large for one: at least Max_wosize together in front of the freed block, more than that behind it; table, list and count stay right |
| `FirstFit.FusedSeams` | src/ocaml/runtime/freelist.c:656-737 | joining a block to its neighbours as far as sizes allow leaves exactly the old places where free blocks touch, and those where the two are too large |
| `FirstFitSweep.SweepChunk` | src/ocaml/runtime/major_gc.c:554-595 | sweeping a whole chunk with the first-fit policy: every dead word is free afterwards or a fragment, no word of a block in use is, what was free still is; free blocks touch exactly where they did before, and otherwise only where the two are too large for one |
| `FirstFitSweep.SweepCoalesces` | src/ocaml/runtime/major_gc.c:554-595 | if no free blocks touched before, unless too large for one, none do after the sweep |
| `FirstFitSweep.CarvedSeams` | src/ocaml/runtime/freelist.c:430-459 | allocation makes no free blocks touch that did not before |
| `FirstFit.Policy.AddBlocks` | src/ocaml/runtime/freelist.c:745-786 | after a failed request the new blocks are linked in address order; the table describes a prefix, and if it grew its last entry is the only one that serves the request |
| `PositionTable.Positions.Lookup` | src/ocaml/runtime/extern.c:267-286 | finds the recorded position of the object, or the slot where it can be recorded, and always stops |
| `PositionTable.Positions.Record` | src/ocaml/runtime/extern.c:288-296 | the table is the map extended by one entry, also when it has to grow |
| `PositionTable.Positions.Resize` | src/ocaml/runtime/extern.c:207-262 | rehashing into the larger table keeps the map |
| `PositionTable.FibonacciIsGood` | src/ocaml/runtime/extern.c:152-162 | the multiplicative hash always gives a slot of the table |
| `MarshalCodec.ItemRoundTrip` | src/ocaml/runtime/extern.c:427-480 | every item, in whichever width the writer chose, is decoded to itself, leaving the rest of the bytes |
| `MarshalGraph.StepKeeps` | src/ocaml/runtime/extern.c:497-740 | one turn of writer and reader keeps them in step: same numbering of objects, corresponding pending slots, partial copy right |
| `MarshalGraph.Lockstep` | src/ocaml/runtime/extern.c:497-740 | from any state in step, both end with nothing pending, and words and objects add up |
| `MarshalGraph.GraphRoundTrip` | src/ocaml/runtime/extern.c:487-740 | for every graph, cycles and sharing included, reading the items written gives an isomorphic graph, using exactly the words and object numbers recorded |
| `Marshal.Extern.ExternRec` | src/ocaml/runtime/extern.c:487-740 | the loop writes the encoding of exactly the items of the graph; size_64, size_32 and obj_counter are their totals |
| `Marshal.Extern.ExternValue` | src/ocaml/runtime/extern.c:744-788 | the header holds the length of the data and the counters, in the small format when they fit |
| `MarshalStream.ObjectsBounded` | src/ocaml/runtime/extern.c:288-296 | every object takes at least one byte of the message, so the count fits wherever the length does |
| `MarshalStream.WordsOnBothHosts` | src/ocaml/runtime/extern.c:575-640 | what is added to the two size counters: the fewest words that hold the object, on a host with words of four and of eight bytes |
| `Unmarshal.StreamOfItems` | src/ocaml/runtime/intern.c:358-590 | reading the bytes of items does what reading the items does |
| `Unmarshal.Intern.InternRec` | src/ocaml/runtime/intern.c:320-600 | on any input, well-formed or not, the loop with its explicit stack computes the stream reader: it succeeds exactly when that does, with the same objects and the rest of the input |
| `Unmarshal.ByteRoundTrip` | src/ocaml/runtime/intern.c:320-600 | from the bytes of extern_rec, whatever follows them, intern_rec rebuilds an isomorphic graph |
| `Unmarshal.HeaderIsExact` | src/ocaml/runtime/intern.c:602-663 | the header announces exactly the bytes, the object table entries and the destination words that reading takes |
| `MarshalStream.MessageHeaderRoundTrip` | src/ocaml/runtime/intern.c:725-768 | the reader recovers length, object count and size from the header in either format |
| `Probing.InsertAtProbe` | src/ocaml/runtime/roots_nat.c:114-118 | filling the slot a probe ended on adds exactly that key and keeps every other key reachable |
| `Probing.ProbeDecides` | src/ocaml/runtime/roots_nat.c:286-290 | a probe that ends on a free slot proves the key absent; one that ends on the key has found it |
| `Probing.MayStayMeansNotBefore` | src/ocaml/runtime/roots_nat.c:198-202 | the three-way comparison holds exactly when the hole is not on the entry's probe path |
| `Probing.MoveEntry` | src/ocaml/runtime/roots_nat.c:204-205 | moving an entry into the hole keeps every key reachable but for the new hole |
| `Probing.CloseHole` | src/ocaml/runtime/roots_nat.c:194-194 | when a free slot ends the run, every remaining key is reachable from its own hash slot |
| `FrameTable.Descriptors.FillHashtable` | src/ocaml/runtime/roots_nat.c:102-122 | the table gains exactly the descriptors of the list |
| `FrameTable.Descriptors.Register` | src/ocaml/runtime/roots_nat.c:124-163 | the table holds the descriptors of old and new frametables, at most half full, also after a rehash |
| `FrameTable.Descriptors.RemoveEntry` | src/ocaml/runtime/roots_nat.c:178-206 | for every hash function and every table with a free slot, wrapping runs included: it ends, the descriptor is gone, and exactly the others are stored and reachable |
| `FrameTable.Descriptors.BackShift` | src/ocaml/runtime/roots_nat.c:188-206 | the back-shifting loop ends at a free slot with the table invariant restored |
| `FrameTable.Descriptors.Unregister` | src/ocaml/runtime/roots_nat.c:208-235 | exactly the descriptors of that frametable disappear |
| `FrameTable.Descriptors.Find` | src/ocaml/runtime/roots_nat.c:286-291 | probing finds the registered descriptor of a return address exactly when there is one |
| `SkipList.Random.RandomLevel` | src/ocaml/runtime/globroots.c:52-66 | for every seed the level stays below NUM_LEVELS |
| `SkipList.RootList.Find` | src/ocaml/runtime/globroots.c:78-90 | on each level the last node before the root; the next node on level 0 is the root exactly if it is in the set |
| `SkipList.RootList.Insert` | src/ocaml/runtime/globroots.c:70-107 | for every level chosen, the set gains exactly this root and all levels stay sorted chains |
| `SkipList.RootList.Delete` | src/ocaml/runtime/globroots.c:111-145 | the set loses exactly this root, or nothing |
| `SkipList.RootList.Iterate` | src/ocaml/runtime/globroots.c:149-157 | every root is visited once, in increasing order |
| `SkipList.RootList.Empty` | src/ocaml/runtime/globroots.c:161-175 | the set is empty and the list can be used again |
| `GlobalRoots.Lists.RegisterRoot` | src/ocaml/runtime/globroots.c:227-242 | the young or old list gains the root according to what it holds |
| `GlobalRoots.Lists.RemoveRoot` | src/ocaml/runtime/globroots.c:244-258 | the root is in neither list afterwards |
| `GlobalRoots.Lists.ModifyRoot` | src/ocaml/runtime/globroots.c:260-288 | the root moves between the lists as its class changes |
| `GlobalRoots.Lists.ScanYoungRoots` | src/ocaml/runtime/globroots.c:301-313 | the young list empties into the old one, with the scanned values |
| `GlobalRoots.StepKeeps` | src/ocaml/runtime/globroots.c:186-313 | each operation keeps: a root with a young pointer is in the young list only, one with an old pointer in exactly one list, others in none |
| `GlobalRoots.RunKeeps` | src/ocaml/runtime/globroots.c:186-313 | the same over every run of register, modify, remove and scan |
| `GlobalRoots.NoYoungRootAfterScan` | src/ocaml/runtime/globroots.c:301-313 | after the scan of a minor collection no registered root holds a young pointer |
| `Compare.DoCompareVal` | src/ocaml/runtime/compare.c:116-296 | the loop with its explicit stack, including the shortcut on equal pointers, returns exactly the recursive comparison |
| `Compare.CmpFlip` | src/ocaml/runtime/compare.c:116-296 | exchanging the arguments reverses the sign; in total mode, and for every difference of small numbers, the result is never UNORDERED |
| `Compare.CompareSays` | src/ocaml/runtime/compare.c:116-296 | what the comparison means, without naming it: integers by their value and below blocks, blocks by tag, then by size, then by the first fields that differ, strings by the first byte that differs or as a proper prefix, floats by their numbers; LESS, EQUAL and GREATER exactly then, and UNORDERED exactly where a NaN decides |
| `Compare.KeysDecide` | src/ocaml/runtime/compare.c:199-216 | two floats are ordered as the numbers sign * significand * 2^exponent that they stand for, infinities included, and not at all when one is a NaN |
| `Compare.StringDecides` | src/ocaml/runtime/compare.c:187-199 | memcmp, then the lengths: the strings are ordered by the first byte that differs, or one is a proper prefix of the other |
| `Compare.RelationsMean` | src/ocaml/runtime/compare.c:298-344 | compare, <, <=, =, <>, > and >= in the same terms |
| `Compare.CmpReflexive` | src/ocaml/runtime/compare.c:116-296 | total comparison of a value with itself gives equality |
| `Compare.CmpTransitive` | src/ocaml/runtime/compare.c:116-296 | total comparison is transitive, with strictness where one step is strict |
| `Compare.NaNIsLeast` | src/ocaml/runtime/compare.c:203-216 | in total mode NaN equals itself and is below every other float; in partial mode it makes the result unordered |
| `Compare.PartialAgrees` | src/ocaml/runtime/compare.c:116-296 | partial comparison is unordered or agrees with total comparison |
| `Compare.DecidesWithoutNaN` | src/ocaml/runtime/compare.c:116-296 | values without NaN are never unordered |
| `Compare.MemcmpDecides` | src/ocaml/runtime/compare.c:191-202 | memcmp on the common length, then the lengths, is the lexicographic order of the bytes |
| `Compare.CompareIsTotalOrder` | src/ocaml/runtime/compare.c:298-308 | with its result cut down to a sign, compare is reflexive, antisymmetric and transitive |
| `Compare.RelationsMatchCompare` | src/ocaml/runtime/compare.c:298-344 | where partial comparison decides, <, = and > say what compare says |
| `Compare.RelationsAgree` | src/ocaml/runtime/compare.c:310-344 | the six relations are mutually consistent, and on unordered values only <> holds |
| `Hash.HashRespectsCompare` | src/ocaml/runtime/hash.c:184-288 | values that compare equal, in either mode, have the same hash for every count, limit, seed and mixing function |
| `Hash.CamlHash` | src/ocaml/runtime/hash.c:184-288 | the loop over the fixed queue computes the breadth-first traversal, and the result has 30 bits |
| `Hash.HashMeans` | src/ocaml/runtime/hash.c:184-288 | what is hashed: the first entries of the level-order listing of the tree, as many as the limit says and never more than 256, up to the count-th meaningful one; the result mixes the words of exactly these, in this order, 2n+1 for an integer and size and tag for a block |
| `Hash.FlatBlockHash` | src/ocaml/runtime/hash.c:262-275 | a block of integers, fewer than limit and count: the hash mixes the header and every field |
| `Hash.BytesAreWords` | src/ocaml/runtime/hash.c:145-178 | the bytes of a string are mixed four at a time, as little-endian words, the last one padded with zeros |
| `Hash.Enqueue` | src/ocaml/runtime/hash.c:262-275 | fields enter the queue while there is room, so no index leaves it |
| `Hash.HashMixString` | src/ocaml/runtime/hash.c:145-178 | the word-wise loop and the last bytes compute the mix of the string and its length |
| `Currying.OneGroup` | src/ocaml/runtime/interp.c:555-585 | a further group of arguments reaches the body with all arguments so far, or returns a closure that holds them all |
| `Currying.GroupingIsTransparent` | src/ocaml/runtime/interp.c:434-585 | for every split into non-empty groups the body is reached with the same stack, environment and extra_args as with one full application |
| `Currying.FullApplication` | src/ocaml/runtime/interp.c:434-440 | one full application reaches the body directly |
| `Currying.SurplusGoesToResult` | src/ocaml/runtime/interp.c:539-553 | RETURN applies a result closure to exactly the surplus arguments, for the caller of the whole application |
| `Currying.ReturnsToCaller` | src/ocaml/runtime/interp.c:539-553 | without surplus RETURN restores the caller's state |
| `Currying.TailCallPassesSurplus` | src/ocaml/runtime/interp.c:487-502 | APPTERM enters the closure with its arguments followed by the caller's surplus ones |
| `Machine.Interp.ApplyN` | src/ocaml/runtime/interp.c:441-486 | APPLY1 to APPLY3 enter the closure with their arguments above a frame that returns to the caller |
| `Machine.Interp.Appterm` | src/ocaml/runtime/interp.c:487-537 | the words slide over the frame without being overwritten before they are copied |
| `Machine.Interp.Return` | src/ocaml/runtime/interp.c:539-553 | the step on the stack array is the modelled step |
| `Machine.Interp.Restart` | src/ocaml/runtime/interp.c:555-563 | the saved arguments are put back in order, environment and extra_args recovered |
| `Machine.Interp.Grab` | src/ocaml/runtime/interp.c:565-585 | enough arguments: goes on; too few: the closure holds code, environment and all arguments, and the frame is popped |
| `Machine.AppTermStacks` | src/ocaml/runtime/jit_support.c:85-93 | makes the stack of APPTERM |
| `Machine.JitState.SupportRestart` | src/ocaml/runtime/jit_support.c:187-194 | makes the moves of RESTART, with the recovered environment in accu |
| `Machine.JitState.GrabClosure` | src/ocaml/runtime/jit_support.c:196-212 | makes the moves of GRAB when arguments are missing |
| `Lexing.Resume` | src/ocaml/runtime/lexing.c:61-117 | a run that asked for a refill, resumed on the longer buffer, does what one run on that buffer does |
| `Lexing.NextDecodes` | src/ocaml/runtime/lexing.c:79-100 | tables that hold a transition matrix, with a default for each state, give exactly the transitions of that matrix |
| `Lexing.RefillsDoNotMatter` | src/ocaml/runtime/lexing.c:61-117 | for every table and every way of cutting the input, the token, action and positions are those of one run on the whole input |
| `Lexing.LongestMatch` | src/ocaml/runtime/lexing.c:79-109 | when stuck, the engine returns action and position of the last accepting state visited |
| `Lexing.NothingNew` | src/ocaml/runtime/lexing.c:102-109 | without an accepting state the engine falls back to what was recorded, or reports an empty token |
| `Lexing.LexerBuffer.CamlLexEngine` | src/ocaml/runtime/lexing.c:61-117 | the loop computes the engine function: result, failure and all positions of the buffer |
| `HexFloat.HexStringOfFloat` | src/ocaml/runtime/floats.c:199-282 | sign, special names, and for finite numbers the printed digits with the exponent |
| `HexFloat.PrintMantissa` | src/ocaml/runtime/floats.c:246-275 | with precision 0 to 12 the digits are the mantissa rounded to nearest, ties to even; without one they are exact |
| `HexFloat.RoundMantissa` | src/ocaml/runtime/floats.c:248-259 | the bit operations round to the nearest multiple of the unit, ties to even, and do not overflow past 2^53 |
| `HexFloat.NearestIsNearest` | src/ocaml/runtime/floats.c:255-258 | that multiple is within half a unit, and even when it is exactly half a unit away |
| `HexFloat.PrintDigits` | src/ocaml/runtime/floats.c:260-275 | the shift register yields hexadecimal digits, as many as asked for, or just as many as are needed |
| `HexFloat.FloatOfHex` | src/ocaml/runtime/floats.c:284-371 | the loop computes the parser function, rejections included |
| `HexFloat.CaseDoesNotMatter` | src/ocaml/runtime/floats.c:296-348 | capital letters, in digits and before the exponent, mean what small ones do |
| `HexFloat.ExponentMayBeMissing` | src/ocaml/runtime/floats.c:296-348 | without an exponent the text means what it means with exponent 0 |
| `HexFloat.ReadBody` | src/ocaml/runtime/floats.c:296-348 | the parser reads a printed body as its digits and its exponent |
| `HexFloat.PrintParseRoundTrip` | src/ocaml/runtime/floats.c:199-371 | for every finite double, subnormals and zero included, printing without a precision and parsing gives the same number |
| `HexFloat.FloatOfString` | src/ocaml/runtime/floats.c:373-413 | underscores, sign and prefix are handled as modelled; what follows the prefix goes to the hexadecimal parser |
| `HexFloat.StringRoundTrip` | src/ocaml/runtime/floats.c:199-413 | the whole string, with sign and prefix, is read back as the same number with the same sign, zeros included |
| `HexFloat.ParserRoundsOnce` | src/ocaml/runtime/floats.c:296-364 | for digits of any length, rounding what the parser returns gives what rounding the number written would give |
| `HexFloat.RoundToOddIsInnocuous` | src/ocaml/runtime/floats.c:337-344 | rounding the mantissa to odd does not change the later rounding to nearest even |
| `HexFloat.ExponentRoundTrip` | src/ocaml/runtime/floats.c:303-324 | the exponent printed with %+d is read back |

## Left out

- BestFit.BestFit.Allocate: the bitmap of small sizes is a sequence of booleans and the small lists are sequences with a merge position, so `ffs` and the link fields of small blocks are not part of this model.
- BestFit.BestFit.MergeBlock: custom blocks have no finalisers here, and the words of a block that became part of another are no longer headers.
- BestFit.BestFit.SweepChunk: the loop over the chunks is split into sweeping one chunk, NextChunk and EndSweep.
- SmallLists.SmallLists.NextSize: a scan of the bits in place of `ffs` on the masked word.
- CycleRuns.NoReachableBlockIsFreed: pointers name the block they lead to (infix offsets are resolved), roots are darkened all at once at the start of a cycle as in the bytecode runtime, and the outcome of growing the mark stack is arbitrary.
- CycleSafety.ExpandKeeps: heap growth adds one chunk with one free block.
- MajorCollector.Major.CamlModify: the early return for slots of the minor heap, which lie outside this state.
- MajorCollector.Major.ArrayFill: arrays in the minor heap and float arrays, which need no barrier; the outcome of growing the mark stack is the same throughout one call.
- Marking.MarkStepKeeps: ephemerons and finalised values are not part of this model, so their branches of the loop do not occur; Phase_clean is empty.
- MinorCollector.Minor.EmptyMinorHeap: Forward_tag short-circuiting, ephemerons, custom blocks and finalisers are left out; caml_alloc_shr_for_minor_gc takes fresh addresses in order.
- MinorCollector.Minor.OldifyOne: blocks with Forward_tag.
- MinorCollector.Minor.OldifyMopup: the pass over the ephemeron table at its end, and its repetition.
- FirstFit.Policy.Allocate: requests that would fill the table, and the slow search after it, which does not promise exact first fit.
- FirstFitSweep.SweepChunk: the headers of the chunk are read from a map that the sweep does not change, so that blocks in use turn white is not part of it; two chunks do not touch.
- SweptHeap.NeighboursExactly: free blocks that follow each other with the first at or before the place where the sweep of the chunk began.
- FirstFit.Policy.MergeBlock: the sentinel is not adjacent to any block, as its definition arranges; finalisers of custom blocks are left out.
- Compactor.Compactor.DoCompaction: every pointer into the chunks leads to a block or an infix position, as the comment before the first pass demands; ephemerons, finalisable values and the memory profiler's table, which are inverted like further roots, are left out; so is what follows pass 4, freeing and splitting the chunks' unused ends.
- Marshal.Extern.ExternRec: no NO_SHARING, COMPAT_32 or CLOSURES flags; no custom, abstract, object or infix blocks and no code pointers; the stack has no limit.
- Unmarshal.HeaderIsExact: messages written with NO_SHARING, whose object count is zero.
- Unmarshal.Intern.InternRec: a back reference beyond the object table, which the code excludes by an assertion only, is rejected; integers keep their value beyond 63 bits; big-endian floats, OShift and OFreshOID do not occur.
- GlobalRoots.Lists.ScanYoungRoots: the scan of caml_global_roots, the list without generations, which changes neither of the two lists.
- GlobalRoots.RunKeeps: Forward_tag values, which a scan may replace by older ones, are excluded; caml_global_roots, the list without generations, is a SkipList.RootList by itself.
- Compare.DoCompareVal: no custom blocks, closures, objects, Forward_tag or pointers outside the heap; the stack has no limit.
- Hash.CamlHash: the 32-bit arithmetic of MIX and FINAL_MIX, which are parameters.
- Hash.HashMixString: the 32-bit arithmetic of MIX, which is a parameter.
- Hash.HashRespectsCompare: the mixing functions are parameters, on which the result does not depend; their bit operations, and blocks whose hash is their address or comes from a callback, are left out.
- HexFloat.FloatOfHex: ends with mantissa and exponent; the conversion to a double and ldexp, which rounds subnormal results, are left out, as is white space accepted by strtol.
- Machine.Interp.Grab: the closure is allocated as a value; stack growth and signals are not part of this model.
- FrameTable.Descriptors.Unregister: the linked list of frametables is a sequence.
- SkipList.RootList.Insert: nodes are named by their root, and the forward pointers are stored by level.
- next-fit allocation: a list without an index, which would only add easy members.
- caml_major_collection_slice and caml_set_major_window: pacing by floating-point heuristics.
- caml_new_lex_engine: its memory moves are repeated on re-entry, so refills are not transparent for arbitrary tables.
- page table, memory allocation failures, signals, input and output: not decided by the code modelled here.
