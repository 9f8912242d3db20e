# A verified model of a mark-and-copy garbage collector

The repository is a mostly precise, stop-the-world garbage collector for C++. Objects are created by
`gc_new` and referred to by `gc_ptr`; a collection marks what the registered roots and the pinned
objects reach, copies the survivors off every page that holds no pinned block, redirects all fields
and roots through forwarding pointers, and recycles the old pages. This project models that machinery
in Dafny and proves what it is for:

- after a collection the live heap is isomorphic to what was reachable before it, pinned objects have
  not moved, and every registered object is found at its present address;
- marking with a bounded stack that drops entries, followed by rescanning, marks exactly what is
  reachable, and both loops end;
- while a collector sweeps, every other thread is stopped, in every safe run of the handshake;
- the bookkeeping beside it (hash table of dereferenced roots, root list of a thread, thread list, AVL
  tree of fake roots, offset discovery in nested constructors) does what it promises for any sequence
  of operations;
- where the code as written falls short of this, the exact condition under which it does, and a heap or
  a run, built step by step, on which it shows.

## How the model is built

| file | what it holds |
|---|---|
| `Words.dfy` | flag and tag bits in 64-bit words, size rounding |
| `Objects.dfy` | blocks of words, shells, fields, object graphs, reachability |
| `Pages.dfy`, `Heap.dfy` | page arithmetic, page supply, allocation |
| `SizeTable.dfy`, `SweepPinned.dfy`, `Evacuate.dfy`, `FixUp.dfy`, `Sweep.dfy`, `Isomorphism.dfy` | `sweep`, pass by pass, then as a whole, then what it means for the graph |
| `GoSpec.dfy`, `Capacity.dfy`, `Loss.dfy` | `go` as a function, how large a stack it needs, and heaps on which any smaller stack overflows or loses an object |
| `Marking.dfy` | `go` as a loop over an array, and the recovery from overflow |
| `Chains.dfy`, `StackMap.dfy`, `DerefRoots.dfy`, `ThreadList.dfy` | linked lists in memory and the three structures made of them |
| `AvlTree.dfy`, `FakeRoots.dfy` | the AVL algorithms on values, and on nodes that are edited in place |
| `GcNew.dfy` | nested constructors and the making of shells |
| `Safepoint.dfy` | the stop-the-world handshake as a transition system |
| `DerefScan.dfy`, `MarkPhase.dfy`, `Collector.dfy` | a full collection and the operations between collections |
| `AsWritten.dfy` | heaps built by those operations on which the code as written goes wrong |

A block is named by the address of its size word; its data is a sequence of words. The three flag bits
of the size word are kept as membership in three sets: `Words.Says` is what 64-bit size words say of the
sets, and `Words.FlagSets` and `Words.FreshWord` that the macros on the word and the operations on the sets
agree. The linked lists of pages are sequences; the lists of root cells, of handlers and of
threads, and the AVL nodes, are kept as the contents of memory, address by address. A `gc_ptr` word is
an address and its two tag bits. `PAGE` is any page size that is a multiple of 8 and fits the size table.

Readings that were chosen where the code departs from what it is meant to do:

- `mark_after_overflow` hands `go` the block's data address, while `go` expects the object behind the
  meta (sources/malloc.cpp:111, sources/malloc.cpp:118, sources/go.cpp:62-64). Objects are identified
  by their block.
- `go`'s result is dropped in `mark_dereferenced_root` (sources/deref_roots.cpp:78).
  `Collectors.Collector.MarkPhase` has both readings: with `keep` the flag counts as an overflow. As
  written, the marks are right for every heap of n objects with at most f fields each if and only if the
  stack has more than (n-2)(f-1) entries: then `go` leaves no successor of a marked object unmarked,
  whatever it reports (`Capacity.OverflowHarmless`), and the heap after a full collection is right
  (`Collectors.Collector.FullGc`); with a smaller stack there is a heap, built by the operations of the
  collector, on which the marking leaves an object unmarked that the stack reaches
  (`AsWritten.DroppedFlagLosesObject`). With the stack of 10000 entries (sources/go.cpp:73) a single object
  with 10001 pointers is enough (`AsWritten.DroppedFlagLosesLeaves`).
- The fix-up pass visits pages only. The heap is a proper object graph after a collection if and only if, before
  it, no surviving big block had a field into a page without a pinned object: `Collectors.Collector.FullGc`
  states it of the heap, the survivors and the pins that the collection begins with, and after
  `Collectors.Collector.NewObject` the heap is a graph under the same condition.
  `AsWritten.BigArrayDangles` builds an ordinary heap on which it fails, an array of 2000 pointers and a small
  object.
- The waits on `gc_is_finished` are not repeated in the code, and `thread_join` leaves its safepoint
  unconditionally. `Safepoints` has both readings. A run is safe if it repeats the waits or if all its steps
  are harmless, and the results about runs hold for both kinds (`Safepoints.SafeRun`). Of the code as written,
  the runs in which no collection is disturbed are exactly those whose steps are harmless
  (`Safepoints.AsWrittenRun`): undisturbed means that while a collection goes on the list stays the same and
  no thread that was passed leaves its safepoint. There is a concrete run, with every wake-up signalled, in
  which sweep runs beside a thread that was never scanned.
- `mark_dereferenced_root` looks for a stack word in that word's own bucket only (sources/deref_roots.cpp:71),
  while an entry is in the bucket of its object's start. So a raw pointer pins its object from within the
  first eight bytes, and generally not from further on: `DerefScan.InteriorMisses` gives the case next to
  it, `Collectors.Collector.PinsAre` the exact condition for all words.
- `align` rounds strictly up, because `==` binds tighter than `&` (sources/malloc.cpp:47); it is modelled
  literally.
- `is_heap_pointer` on a word that go or fix_ptr is about to follow is modelled as the word naming a
  mapped block; on stack words it is the range test of the code.

## Model

| member | source | states |
|---|---|---|
| `Words.UnpackPack` | sources/malloc.cpp:49-64 | A size word is read back exactly as written if and only if the size is a multiple of 8 |
| `Words.FlagMacros` | sources/malloc.cpp:53-64 | Each flag macro changes its own flag and neither the others nor the size |
| `Words.FlagSets` | sources/malloc.cpp:53-64 | On 64-bit size words that say which blocks are marked, pinned and dead, each flag macro adds its block to one of the sets or takes it out, and leaves the other sets and all sizes alone |
| `Words.FreshWord` | sources/malloc.cpp:173-183 | A size written plain into a size word takes the block out of all three sets if and only if it is a multiple of 8 |
| `Words.MovedWord` | sources/go.cpp:31-38 | A moved address under the old tag bits splits into exactly those two if and only if it is aligned |
| `Words.SplitWord` | sources/gc_ptr.h:21-29 | A word is its cleared address and its tag bits, and for a pointer that is not composite clearing one flag clears both |
| `Words.WordParts` | sources/gc_ptr.h:21-29 | A pointer word and its split into address and tag bits determine each other, the composite and null tests read off the split, and move_ptr replaces the address part |
| `Pages.PageParses` | sources/malloc.cpp:68-69 | Walking next_block from first_block visits exactly the page's blocks and lands on free_block |
| `Pages.Carve` | sources/malloc.cpp:173-183 | Carving keeps a page parseable, and what is left is nothing or a positive multiple of 8 ending at the page's end |
| `Heaps.Heap.RequestNewPage` | sources/malloc.cpp:141-171 | A page leaves the free list, after mapping a batch if it was empty; in use, free list and counters stay disjoint and exact, with 32*(2^k-1) pages after k batches |
| `Heaps.Heap.Expand` | sources/malloc.cpp:150-163 | The mapping loop adds a batch of disjoint fresh pages and doubles the next batch |
| `Heaps.Heap.MallocInPage` | sources/malloc.cpp:173-183 | The block carved is zeroed, has clear flags and an address no block had, and the page header accounts for it |
| `Heaps.Heap.MallocInternal` | sources/malloc.cpp:185-205 | The block is new and zeroed, nothing else changes; it fails exactly for a size that is not big, without room on the last page, without a free page and without leave to expand. Room on the last page is used, at its free_block; without it exactly one page is appended, and the block is its first; a big block leaves pages and free list alone |
| `Heaps.Heap.Request` | sources/malloc.cpp:207-216 | One attempt of gcmalloc keeps the heap invariant and the object graph, the new block apart; it fails exactly where the block would need fresh pages and may not have them, and takes a page exactly if there is none yet or the last one has no room |
| `Heaps.RoomExactly` | sources/malloc.cpp:197 | A page has room for a block exactly if the block, with its size word, fits before the end of the page |
| `SizeTable.ListedOnce` | sources/malloc.cpp:335-342 | A page with room is listed at one size and there once |
| `SizeTable.AddToIndex` | sources/malloc.cpp:265-272 | A page is listed under its true room, and max_free_block bounds all keys |
| `SizeTable.TakeTightest` | sources/malloc.cpp:247-256 | The search returns, and unlists, a page of least sufficient room, or NULL if no page has enough |
| `SizeTable.ClearIndex` | sources/malloc.cpp:409-412 | When sweep ends every list of the table is empty |
| `SweepPinned.SweepBigBlocks` | sources/malloc.cpp:275-295 | Big blocks neither marked nor pinned are unlinked, the others keep their order and lose their flags |
| `SweepPinned.FindPinned` | sources/malloc.cpp:305-322 | The first walk finds a pinned block exactly if the page has one |
| `SweepPinned.SettlePage` | sources/malloc.cpp:326-334 | On a page that stays exactly the unmarked, unpinned blocks are flagged dead, and all marks and pins are cleared |
| `SweepPinned.SeparatePinned` | sources/malloc.cpp:300-345 | The page list is split: pages with a pin, reversed, become the alive list; the rest keep their order |
| `Evacuate.CopyBlock` | sources/malloc.cpp:247-273 | The copy goes to a tightest-fitting listed page, a new page is opened only if none fits, and the forwarding pointer overwrites the first word of the original |
| `Evacuate.OpenFirst` | sources/malloc.cpp:354-360 | With no page staying, the first marked block opens the alive list and lists it by hand |
| `Evacuate.EvacuatePage` | sources/malloc.cpp:347-366 | On one page exactly the marked blocks are copied, and both asserts of the pass hold |
| `Evacuate.EvacuateAll` | sources/malloc.cpp:347-366 | Every marked block of a page that goes has one copy at a new address with the same payload; nothing else changes |
| `Evacuate.PairwiseSum` | sources/malloc.cpp:247-261 | If any two of n >= 2 pages hold more than one page can, all of them hold more than n/2 times that |
| `Evacuate.ToSpaceBound` | sources/malloc.cpp:247-273 | If a sweep opens n >= 2 pages, n times the capacity is less than twice the bytes copied |
| `FixUp.FixPtr` | sources/malloc.cpp:233-245 | A pointer is redirected through the forwarding pointer exactly if its target moved, tag bits kept |
| `FixUp.FixObject` | sources/malloc.cpp:378-392 | Exactly the shell's fields of all elements are redirected, each once even if listed twice |
| `FixUp.FixPage` | sources/malloc.cpp:368-396 | On an alive page all but the dead blocks are fixed, and both asserts of the pass hold |
| `FixUp.FixRoots` | sources/go.cpp:310-319 | Every registered root word of every thread keeps its tag bits and stays null if it was; otherwise it names the new place of its own object |
| `Sweep.FirstPass` | sources/malloc.cpp:297-345 | What the first pass leaves: which pages go and stay, who is dead, and an exact size table |
| `Sweep.Recycle` | sources/malloc.cpp:399-407 | The pages left go to the free list, reversed, and the alive pages become the page list |
| `Sweep.SweepHeap` | sources/malloc.cpp:297-413 | For closed marks: the invariant is restored, the live blocks are the relocated marked ones, payload and fields follow, each root follows its own object, blocks move exactly off pages without a pin, to-space is bounded |
| `Isomorphism.RewrittenWords` | sources/malloc.cpp:378-392 | Word for word: what is no field stays; a field keeps its tag bits and its nullness, and names where its own object went |
| `Isomorphism.RewrittenSucc` | sources/malloc.cpp:378-392 | The edges of a redirected object are the relocated edges of the original |
| `Isomorphism.SweptGraph` | sources/malloc.cpp:368-396 | The heap afterwards is an object graph if and only if no surviving big block points to a block that moved |
| `Isomorphism.SweptRoots` | sources/go.cpp:310-319 | Roots after the sweep name survivors |
| `Isomorphism.PinnedStays` | sources/malloc.cpp:307-334 | A pinned block is not among those that move |
| `GoSpec.ScanIsPushes` | sources/go.cpp:137-147 | Reading fields one by one is pushing the objects they name, in their order, as long as the stack has room |
| `Capacity.ScansFields` | sources/go.cpp:137-147 | The words go reads are exactly the fields of the object |
| `Capacity.ScanOrder` | sources/go.cpp:137-147 | The words are read element by element, and in the shell's order within an element |
| `Capacity.PushesShape` | sources/go.cpp:137-147 | What a scan leaves on the stack: unmarked targets only, above what was there, all of them unless one was dropped, and dropped only on a full stack |
| `Capacity.TightRound` | sources/go.cpp:116-147 | With at most g+1 fields an object, every round keeps entries plus g for each unmarked object at most one more than g for each at the start, until at most one object is left to find |
| `Capacity.CapacitySuffices` | sources/go.cpp:70-82 | On n unmarked objects with at most f fields each, go never overflows if the stack has more than (n-1)(f-1) entries |
| `Capacity.OverflowHarmless` | sources/deref_roots.cpp:75-79 | If it has more than (n-2)(f-1), go leaves no successor of a marked object unmarked, whatever it reports |
| `Loss.LadderRun` | sources/go.cpp:100-151 | On objects that each point g times to one leaf and once to the next object, go overflows at the object where the copies fill the stack, and marks nothing beyond it |
| `Loss.StarRun` | sources/go.cpp:100-151 | Of an object with more pointers than the stack has entries go marks the first targets, as many as fit, and loses all others |
| `Loss.OverflowExactly` | sources/go.cpp:70-82 | Some heap of n unmarked objects with at most f fields each makes go overflow if and only if the stack has at most (n-1)(f-1) entries |
| `Loss.LossExactly` | sources/deref_roots.cpp:75-79 | Some such heap makes go leave a successor of a marked object unmarked if and only if the stack has at most (n-2)(f-1) entries |
| `Marking.Marker.Push` | sources/go.cpp:76-82 | A full stack is left alone and reported, otherwise the entry is on top |
| `Marking.Marker.Pop` | sources/go.cpp:84-89 | The top entry is taken off; NULL from an empty stack |
| `Marking.Marker.ScanObject` | sources/go.cpp:132-147 | The scan pushes unmarked successors only, covers all fields unless it dropped one, drops only on a full stack, and does exactly what the functional scan does |
| `Marking.Marker.Go` | sources/go.cpp:100-151 | For any capacity >= 1: only what the root reaches is marked, its marks are closed unless it reports overflow, an overflow has marked something, and the outcome is that of the functional go |
| `Marking.GoStep` | sources/go.cpp:116-147 | One round keeps the loop invariant, and a round on a marked block lowers the stack or leaves an unmarked block on top |
| `Marking.RescanMarked` | sources/malloc.cpp:108-125 | Traversing a marked block again keeps everything marked reachable and, if nothing is dropped, closes what was visited |
| `Marking.Marker.Round` | sources/go.cpp:116-147 | One round keeps the loop invariant, is one round of the functional go, and marks a block, lowers the stack or leaves an unmarked block on top |
| `Marking.Marker.MarkAfterOverflow` | sources/malloc.cpp:108-125 | A rescan that returns false leaves closed marks, one that returns true has marked a block |
| `Marking.Marker.MarkRoots` | sources/go.cpp:277-285 | All roots of a thread are traversed in order, exactly as the functional go does, and all flags kept |
| `Marking.Marker.Recover` | sources/go.cpp:290-300 | The recovery loop ends, with closed marks that hold nothing unreachable |
| `Objects.ClosedIsReached` | sources/go.cpp:92-99 | A closed set that holds the seeds and nothing unreached is exactly what the seeds reach |
| `Objects.FieldsInPayload` | sources/meta_information.h:27-43 | Every field index a shell gives lies in the payload behind the meta |
| `Objects.FieldsExactly` | sources/malloc.cpp:378-392 | A word is a field exactly if it lies at one of the shell's offsets in one of the elements, counted from behind the meta |
| `Chains.ChainUnique` | sources/stack.cpp:27-31 | A list in memory reads in one way only |
| `Chains.ChainCut` | sources/threading.cpp:58-62 | Unlinking a node leaves the list without it, in order |
| `StackMaps.StackMap.RegisterStackRoot` | sources/stack.cpp:17-32 | One address is added on top; root list and pool stay disjoint lists and lose no cell |
| `StackMaps.StackMap.DeleteStackRoot` | sources/stack.cpp:34-55 | The top cell goes, after its address has replaced the one deleted |
| `StackMaps.DeletedMultiset` | sources/stack.cpp:34-55 | Deleting takes away exactly one registration of the address if and only if it is registered, else the top one's |
| `DerefRoots.DerefTable.Register` | sources/deref_roots.cpp:28-65 | The entry goes to the front of its bucket, all else stays, counters and pool exact; a cleaning is asked for the expand_factor-th time that the pool is used up, after which the factor, 8 at first, is halved |
| `DerefRoots.DerefTable.MarkRoot` | sources/deref_roots.cpp:67-85 | Exactly the first entry of the word's bucket that holds the word is marked, and it is reported new exactly if it was not |
| `DerefRoots.DerefTable.SweepBucket` | sources/deref_roots.cpp:88-109 | A bucket becomes its marked entries in order, unmarked; the others go to the pool |
| `DerefRoots.DerefTable.Sweep` | sources/deref_roots.cpp:87-110 | So for every bucket, with count the number of entries and count plus pool what was mapped |
| `DerefRoots.CutBucket` | sources/deref_roots.cpp:93-102 | Unlinking an entry of one bucket and freeing it disturbs no other bucket |
| `AvlTrees.InsertOrdered` | sources/fake_roots.h:95-110 | insert adds exactly one occurrence of the key and keeps the order |
| `AvlTrees.RemoveMinOrdered` | sources/fake_roots.h:113-124 | removemin takes away one occurrence of the least key, which findmin returns |
| `AvlTrees.RemoveOrdered` | sources/fake_roots.h:127-144 | remove takes away exactly one occurrence if there is one, nothing otherwise, and keeps the order |
| `AvlTrees.BalanceAvl` | sources/fake_roots.h:77-92 | Rebalancing sides that differ by two gives exact heights and balance everywhere, at most one higher than the higher side |
| `AvlTrees.InsertAvl` | sources/fake_roots.h:95-110 | insert restores balance and exact heights, as high as before or one higher |
| `AvlTrees.RemoveMinAvl` | sources/fake_roots.h:118-124 | removemin restores balance and exact heights, as high as before or one lower |
| `AvlTrees.RemoveAvl` | sources/fake_roots.h:127-144 | remove restores balance and exact heights, as high as before or one lower |
| `AvlTrees.SizeBound` | sources/fake_roots.h:18-23 | The Fibonacci lower bound on the nodes of a balanced tree |
| `AvlTrees.HeightFitsByte` | sources/fake_roots.h:18-23 | With at most 2^64 nodes the byte height never wraps |
| `AvlTrees.InsertKeepsAll` | sources/fake_roots.h:95-110 | insert keeps balance, order and the sorted reading, adds exactly the key to the multiset of keys and one to the size, so all holds again for the next call if and only if fewer than 2^64 nodes were there |
| `AvlTrees.RemoveKeepsAll` | sources/fake_roots.h:127-144 | remove keeps balance, order, the sorted reading and the size bound, and takes exactly one occurrence of the key from the multiset of keys, if there is one |
| `FakeRoots.FakeRootSet.RotateNodeRight` | sources/fake_roots.h:57-64 | The rotation in place turns the nodes into the rotated tree and touches no others |
| `FakeRoots.FakeRootSet.BalanceNode` | sources/fake_roots.h:77-92 | Balancing in place turns the nodes into the balanced tree and touches no others |
| `FakeRoots.FakeRootSet.InsertNode` | sources/fake_roots.h:95-110 | Insertion in place makes the nodes represent the tree with the key inserted |
| `FakeRoots.FakeRootSet.RemoveMinNode` | sources/fake_roots.h:118-124 | The least node is left out of the tree, untouched |
| `FakeRoots.FakeRootSet.RemoveNode` | sources/fake_roots.h:127-144 | Removal in place makes the nodes represent the tree with the key removed |
| `FakeRoots.FakeRootSet.RegisterObject` | sources/fake_roots.h:153-155 | The tree in memory is always a balanced search tree with exact heights; it gains exactly the key |
| `FakeRoots.FakeRootSet.UnregisterObject` | sources/fake_roots.h:167-169 | So again, and it loses exactly one occurrence of the key if it has one |
| `ThreadLists.ThreadList.NewThreadHandler` | sources/threading.cpp:23-48 | A handler from the pool, refilled with the 32 static handlers first and with pages later; it is in neither list |
| `ThreadLists.ThreadList.CreateFirstHandler` | sources/threading.cpp:98-107 | The list starts with the calling thread alone, the flag down |
| `ThreadLists.ThreadList.ListThread` | sources/threading.cpp:87-89 | The thread goes to the front of the list and more_than_one is set |
| `ThreadLists.ThreadList.GetThreadHandler` | sources/threading.cpp:147-157 | The walk ends on the calling thread's handler |
| `ThreadLists.ThreadList.RemoveThread` | sources/threading.cpp:52-70 | Exactly that thread leaves the list, the handler unlinked goes to the front of the pool, more_than_one is exact |
| `ThreadLists.UnlinkedElems` | sources/threading.cpp:58-62 | Unlinking a thread loses that thread and no other |
| `GcNews.Constructing.GcNew` | sources/gc_new.h:43-97 | For any nesting and any constructors: offsets, flags, nesting level and current object are restored, but for the result's own offset; constructors run at a raised level, so that none of them takes a safepoint or collects, and the outermost gc_new takes exactly one safepoint; known shells stay, a new class gets the offsets of its first element, elements lie end to end, blocks do not overlap, and holders and blocks are exactly those of the functional account |
| `GcNews.Constructing.Gc` | sources/go.cpp:160-168 | gc starts a collection if and only if the nesting level is zero |
| `GcNews.ActionKeeps` | sources/gc_new.h:58-97 | No gc_new, however nested, changes a shell that a class has or the meta of a block made before |
| `GcNews.ShellsRight` | sources/gc_new.h:72-91 | If all objects of a class record their pointers in the same places, every block made carries the shell of its own class and the number of its objects, and every holder points to its class's shell, whatever the order and depth of first constructions |
| `GcNews.FitsExactly` | sources/gc_ptr.h:213-215 | Objects whose pointers lie where their class has them record exactly those places if and only if no constructor, at any depth, builds a field by move |
| `GcNews.FirstShellExactly` | sources/gc_new.h:72-91 | A class seen for the first time gets the shell that lists all its pointers if and only if its first object builds none of them by move |
| `GcNews.Constructing.Construct` | sources/gc_new.h:64-86 | A constructor run leaves exactly its own recorded offsets, in construction order, whatever it constructs inside, and exactly the holders and blocks of the functional account |
| `GcNews.Constructing.Discover` | sources/gc_new.h:72-91 | The first element's offsets become the shell of a new class, over whatever was made for it in between; those of an enclosing object are saved and restored |
| `GcNews.Constructing.ConstructRest` | sources/gc_new.h:85-86 | Further elements of an array record nothing, whatever they construct |
| `GcNews.Constructing.MakePtr` | sources/gc_ptr.h:119-207 | A gc_ptr on the stack registers itself, one in the heap records its offset exactly if recording is on |
| `GcNews.MinusWraps` | sources/gc_ptr.h:119-207 | A recorded offset is the difference of the two addresses modulo 2^64 |
| `GcNews.Constructing.CreateMeta` | sources/meta_information.h:27-43 | The holder points to size and offsets, copied in order |
| `GcNews.MovedFieldsMissing` | sources/gc_ptr.h:213-215 | A shell lists all pointer fields if no move constructor builds one, and misses one otherwise |
| `GcNews.OffsetsDistinct` | sources/gc_ptr.h:119-207 | A shell lists no offset twice if a constructor builds no two pointers in one place |
| `Safepoints.StepKeeps` | sources/threading.h:28-45 | Every step keeps the invariant and leaves a collection undisturbed: always if waits are repeated, as written if the step is harmless |
| `Safepoints.RunKeeps` | sources/threading.cpp:50-96 | So for every state of every safe run: one that repeats the waits, or one of the code as written with harmless steps |
| `Safepoints.StopTheWorld` | sources/go.cpp:269-306 | In every safe run, when sweep runs its thread is the only collector and all other listed threads are stopped in safepoints |
| `Safepoints.RunAwake` | sources/go.cpp:181 | In every run of either reading, nobody sleeps on gc_is_finished when no collection is under way |
| `Safepoints.CollectionFreezes` | sources/go.cpp:269-301 | In every safe run, during a collection the list does not change and every thread passed stays stopped |
| `Safepoints.ScanAdvances` | sources/go.cpp:270-300 | During a collection the collector only moves forward; the set of running threads grows exactly if, as written, a thread goes back to work that the collector has yet to reach |
| `Safepoints.NoLostWakeup` | sources/go.cpp:271-274 | In every safe run, a collector asleep without a signal waits for a thread that is not in a safepoint and can take the mutex |
| `Safepoints.NotStuck` | sources/go.cpp:269-301 | In every state of a collection in a safe run the holder of the mutex, the collector or the awaited thread can go on |
| `Safepoints.EveryoneGoesOn` | sources/go.cpp:269-306 | In every state of a safe run, which step of its own each thread can take: the holder of the mutex goes on, a sleeper sleeps only during a collection and can wake, and with the mutex free running, created and woken threads can take it, and a joining one whose thread has ended |
| `Safepoints.EntryWakes` | sources/threading.h:28-41 | Entering a safepoint during a collection removes one running thread and leaves no collector asleep |
| `Safepoints.AsWrittenExact` | sources/threading.cpp:132-134 | As written, a step disturbs a collection exactly if it resumes a thread the collector has passed, or changes the list |
| `Safepoints.AsWrittenRun` | sources/threading.h:33-39 | A run of the code as written is undisturbed if and only if all its steps are harmless |
| `Safepoints.SweepBesideARunningThread` | sources/threading.cpp:83-89 | A run of the code as written, every wake-up signalled, in which sweep runs beside a running, unscanned thread |
| `DerefScan.ScanWord` | sources/deref_roots.cpp:67-85 | After each stack word the marked entries and the pins are exactly those the words seen so far find |
| `DerefScan.StartAddressPins` | sources/deref_roots.cpp:67-85 | A registered start address among the words finds an entry for that address, if no other range of its bucket holds it |
| `DerefScan.FoundExactly` | sources/deref_roots.cpp:67-85 | A word marks an entry exactly if it is not null, even, hashes to the entry's bucket, lies in the entry's range, both ends included, and no entry for the same object precedes it |
| `DerefScan.PinsExactly` | sources/deref_roots.cpp:67-85 | A block is pinned exactly if some word touches one of its entries so |
| `DerefScan.InteriorMisses` | sources/deref_roots.cpp:67-85 | A raw pointer into an object pins it only from the bucket of the object's start: never from its second eight bytes, in a table of more than one bucket |
| `MarkPhases.RoomyGo` | sources/deref_roots.cpp:75-79 | On n objects with at most f fields each and a stack of more than (n-2)(f-1) entries, a traversal keeps closed marks closed, whatever it reports and whatever its caller does with that |
| `MarkPhases.PhaseThread` | sources/go.cpp:275-300 | One thread's stack and roots keep what the marking phase keeps: the table and pins of the words seen, sound marks that hold pins and roots, closed unless a flag was raised |
| `Collectors.RangesApart` | sources/gc_ptr.h:243-250 | The closed ranges of registered live objects overlap only if they are the same object's |
| `Collectors.BlocksApart` | sources/malloc.cpp:68-69 | No two blocks of a heap overlap, whether on one page, on two, or big |
| `Collectors.ObjectIsHeapPointer` | sources/malloc.cpp:94-106 | The address of every live object passes the range test for heap pointers |
| `Collectors.Collector.StartOnStackPins` | sources/go.cpp:226-240 | A registered start address on some stack pins its object |
| `Collectors.Collector.PinsAre` | sources/go.cpp:226-240 | The objects pinned by the stacks are exactly the registered ones that some word on some stack touches: an even word in the object's own bucket, anywhere in its range |
| `Collectors.Collector.EntriesFound` | sources/deref_roots.cpp:87-110 | The entries that a scan of the stacks keeps are exactly the touched ones that no entry for the same object precedes in their bucket |
| `Collectors.Collector.MarkStack` | sources/go.cpp:226-240 | Scanning a stack marks the entries its words find, pins their objects and traverses them in the order in which they are found first, exactly as the functional go does |
| `Collectors.Collector.MarkPhase` | sources/go.cpp:269-301 | Thread by thread the marks are exactly those of the traversals from its pinned objects and its roots, and closed by the recovery if a kept flag was raised; they hold roots and pins and nothing they do not reach, and are closed if all flags are kept, or as written if the stack is large enough |
| `Collectors.MarksReady` | sources/go.cpp:269-305 | Closed marks are exactly what roots and pins reach, and meet all that sweep relies on |
| `Collectors.Collector.FullGc` | sources/go.cpp:260-308 | A full collection end to end: survivors are exactly the reachable objects, those that move are exactly the survivors on pages without a pinned object, to addresses no survivor had, to-space is bounded, the heap is isomorphic, each root follows its own object, the pinned objects are exactly the registered ones that a stack word touches, and stay, entries name live objects, the table keeps exactly the entries found; all fields are right if and only if no surviving big block had a field into a page without a pinned object |
| `Collectors.EntriesKept` | sources/deref_roots.cpp:87-110 | What the surviving entries name has not moved, and has its extent still |
| `Collectors.BigKept` | sources/malloc.cpp:368-396 | Big blocks that point to big blocks only are left right by a collection, and stay so |
| `Collectors.Collector.CleanDerefRoots` | sources/go.cpp:242-254 | gc(false) keeps exactly the entries some stack word finds and does not touch the heap |
| `Collectors.Collector.Dereference` | sources/gc_ptr.h:243-250 | operator-> puts an entry with the object's address and extent at the front of its bucket; exactly when the pool is used up for the expand_factor-th time, and not inside constructors, a cleaning leaves exactly the entries found; an object whose address is on a stack stays registered |
| `Collectors.Collector.Gcmalloc` | sources/malloc.cpp:207-231 | Allocation always succeeds, with a big block exactly above the threshold; it collects exactly outside constructors and for a block that would need fresh pages; then exactly the reachable objects survive, exactly those on pages without a pinned object move, the table is cleaned, and objects registered and on a stack stay; otherwise all is untouched but for the new block |
| `Collectors.Collector.NewObject` | sources/gc_new.h:58-97 | So for gc_new: the new object has its shell and count and null fields, and the collector's invariant holds again, after a collection if no surviving big block had a field into a page without a pinned object |
| `Collectors.Collector.AddShell` | sources/meta_information.h:27-43 | A new shell leaves every object and every entry what it was, on any heap |
| `Collectors.Collector.AddThread` | sources/threading.cpp:87-89 | A listed thread starts without roots |
| `Collectors.Collector.SetField` | sources/gc_ptr.h:278-291 | Assigning a field a pointer to a live object changes that word only and keeps the invariant |
| `Collectors.Collector.SetRoots` | sources/gc_ptr.h:223-239 | Any change of a thread's registered roots to live objects keeps the invariant |
| `AsWritten.DroppedFlagLosesObject` | sources/deref_roots.cpp:75-79 | For every stack size and every n and f with size at most (n-2)(f-1): a heap of n objects with at most f fields each, one of them registered and on the stack, on which the marking of a collection, run as written, leaves an object unmarked that it reaches |
| `AsWritten.DroppedFlagLosesLeaves` | sources/deref_roots.cpp:75-79 | For every stack size and every larger number of pointers in one object, registered and on the stack: the marking of a collection, run as written, marks as many of its targets as the stack has entries, and no other |
| `AsWritten.BigArrayDangles` | sources/malloc.cpp:368-396 | A registered array of 2000 pointers, one of them to a small object: a full collection, even with every flag kept, moves the small object and leaves the pointer, which then names no live object |

## Left out

- Composite pointers, `attach` and their reference counts: their blocks carry no meta, although `sweep` reads one from every live block, and a moved one is not pointed to anew.
- `mark_node` and `mark_fake_roots` as part of a collection: they also mark the tree node itself, and `fix_roots` does not redirect fake roots. The tree is modelled by itself.
- `mmap`, `munmap`, `sysconf` and their failures, and the limit of 100 heap parts: fresh addresses come from a counter that only grows.
- Collectors.Collector.FullGc: asks that the overflow flags that sources/deref_roots.cpp:78 drops be kept or the stack have more than (n-2)(f-1) entries, since sweep is modelled for closed marks only; it takes as given that all other threads are stopped, which `Safepoints.StopTheWorld` shows of the handshake.
- Collectors.Collector.NewObject: the constructor's own run is in `GcNews`, where it has a raised nesting level, at which `GcNews.Constructing.Gc` refuses.
- GcNews.Constructing.GcNew: `gc_new` of zero objects is excluded for a class that had no shell when the outermost call began; the code then constructs one object outside its block and asks for 2^64 - 1 more, which throws.
- Safepoints.StepKeeps: the main thread never leaves the list, a thread removes only itself, and safepoints may be taken even while more_than_one is false, which allows more runs than the code has.
- ThreadLists.ThreadList.RemoveThread: removing the last listed thread is excluded; the code then reads through a null first_thread.
- FixUp.FixPtr: pointers into the middle of an object and composite pointers are excluded.
- Evacuate.CopyBlock: the linked page lists inside the size table are sequences.
- `thread_exit`, `thread_cancel`, thread attributes and the separate mutexes of the pools and tables: operations on one structure are atomic here.
- Raw pointers taken through `get`, `operator T*` or `operator*` are not registered, so no pinning is claimed for them.
- Destructors, the virtual functions of `meta`, `gc_delete`: never called by the collector.
- `taginfo`, `gc_ref`, debug output, timing, `tests/` and `evaluation/`: not part of the collector.
