# Verified model of the gperftools allocator and leak checker

This project models the core of the gperftools copy under `pprof/gperftools/src` in Dafny 4.11 and proves
properties of the model. `dafny verify dfyconfig.toml` checks all of it.

## What is modelled

**Page heap** (`Span`, `HeapState`, `HeapSteps`, `HeapAlloc`, `PageHeap`, `HeapWalk`, `AggressiveMode`). The class
`PageHeaps.PageHeap` has the fields of the original and its methods in the original's order of steps. Each
method is proved against a function or a step relation on the value of the whole heap, and the invariant is
proved on those values: live spans tile exactly the pages obtained from the system, the first and last page of
each live span map to it although interior entries go stale, each free span is on the one list or set for its
length and location, and the byte counters agree. The system calls may fail at any time; ghost fields record every
request for memory and count every refusal, and only the three methods that stand for the calls change them, so the
contracts say when an operation may fail and what it has tried. Span descriptors live
in a table keyed by their address, so looking up a deleted descriptor would not be well formed: no stale entry
is ever followed. Maximal coalescing is proved for runs with aggressive decommit off. With it on,
`AggressiveMode` gives a heap of three pages where a free loses it, and proves for every heap exactly when a
free, a release or a whole merge keeps it: when no normal neighbour of the span has a returned span at its far
end. `HeapWalk` runs any sequence of client operations, and walks the heap through the radix trees.

**Central free lists** (`Carving`, `CentralData`, `CentralProtocol`, `CentralInv`, `CentralMoves`, `CentralSpans`,
`CentralTheorems`, `CentralRemove`, `CentralInsert`). Threads inside InsertRange, RemoveRange and the fork handler are a state machine with one
step for each stretch of code under one lock; locks are dropped and taken again where the source does it. The
invariant says where every object is, and that the objects of a span are what the carving loop of Populate cuts
from its bytes, so that no two objects share a byte. What a call of RemoveRange gives and a call of InsertRange takes
is stated over whole runs. The theorems are about every state of every interleaving.

**Size classes** (`SizeClasses`, `SizeTable`, `NaturalAlignment`, `SizeMap`) for the default page size of 8 KB, **page maps** (`PageMap`) for any
leaf and node lengths, and the **packed size-class cache** (`Bits`, `PackedCache`, `SizeClassCache`): first the
bit-level encoding, then a state machine of spans that come and go while entries are written without a lock.

**Address map and heap profile** (`AddressMap`, `HeapProfile`, `HeapProfileTable`): the hash table of clusters of
blocks refines a map; the profile keeps totals, buckets and recorded objects balanced, with a ghost record of
entries that a second allocation at the same address has overwritten.

**Leak checker** (`LiveFlood`, `HeapChecker`): memory is any function from addresses to words, roots are any
regions. The flood marks exactly the reachable recorded objects, and the check reports exactly the others. What must
be reported is also said without flood, cap or address map (`ReportsLeaks`).

**CPU profile** (`ProfileFormat`, `ProfileData`, `ProfileRun`), up to whole runs of the collector, and the
**recursive lock** (`RecursiveLock`) of the memory region map as a state machine. Every acquire and release of the
lock is a step of its own. Three steps take several accesses at once; all but one of those are to variables that
only the holder of owner_lock_ touches, which is proved (`OwnerLockGuards`).

## Where code and comments differ

- `heap-profile-table.h` says that NonLiveSnapshot returns non-ignored objects; the code does not look at the
  ignore flag. The model follows the code: `IgnoredCollected` is a table of one object for which the comment is
  false, and `NonLiveSkipsIgnored` says exactly when it is true. In a leak check it is, because ignored objects
  are roots of the flood; that is proved for the whole check.
- Ensure of the page maps promises initialised entries or false. The flat map answers true above its end, and the
  trees answer true and do nothing when start + n passes 2^64; both conditions are exact (`FlatRightExactly`,
  `PageMap2.Ensure`, `PageMap3.Ensure`). GrowHeap never asks for such numbers.
- NewAligned tests addresses with a mask, which gives multiples of the alignment exactly for powers of two
  (`MaskAligns`).
- SizeMap::Init checks at its end that sizes below a page are naturally aligned. For a system page size of 40960
  (`TCMALLOC_OVERRIDE_PAGESIZE` can set it) the check stops the program, and for no other. (The page heap then
  refuses every smallest span size that is not a power of two.)
- FindInside compares distances with the last address of a block, so it can accept offsets slightly above
  `max_size`. The model states exactly which starts are in reach.
- LockIsHeld can be true for a thread that does not hold the lock; the model says exactly when.

## Conventions

Shifts and masks by constant powers of two are written as quotients and remainders, or as repeated halving where
the bits matter. Addresses, lengths and counters are unbounded unless a width is written out. Results of
system calls, allocators and the scavenging delay are arbitrary choices or parameters.

## Model

| member | source | states |
|---|---|---|
| `HeapState.SumPeel` | pprof/gperftools/src/page_heap.cc:502-548 | the summed length of spans of one location does not depend on the order in which they are added |
| `HeapState.NeighbourBefore` | pprof/gperftools/src/page_heap.cc:449-500 | the page map entry just below a live span names the live span that ends there, although interior entries may be stale |
| `HeapState.NeighbourAfter` | pprof/gperftools/src/page_heap.cc:449-500 | the same for the entry just above a live span |
| `HeapState.MergedBeforeLayout` | pprof/gperftools/src/page_heap.cc:479-488 | swallowing the left neighbour keeps spans disjoint, first and last pages mapped, and the covered pages the same |
| `HeapState.MergedAfterLayout` | pprof/gperftools/src/page_heap.cc:489-497 | the same for the right neighbour |
| `HeapState.DividedLayout` | pprof/gperftools/src/page_heap.cc:361-400 | cutting a span in two keeps the tiling and both anchors |
| `HeapState.RecordedLayout` | pprof/gperftools/src/page_heap.cc:771-786 | a span recorded on new pages extends the tiling by exactly those pages |
| `HeapState.UnlistedListing` | pprof/gperftools/src/page_heap.cc:529-548 | taking a span off its list leaves every other free span on its one list and the byte counters right |
| `HeapState.ListedListing` | pprof/gperftools/src/page_heap.cc:502-527 | putting a span on the list for its length and location keeps lists and counters right |
| `HeapSteps.JoinBefore` | pprof/gperftools/src/page_heap.cc:479-488 | a merge to the left restores the whole invariant of a span in hand |
| `HeapSteps.JoinAfter` | pprof/gperftools/src/page_heap.cc:489-497 | a merge to the right restores it as well |
| `HeapSteps.Settled` | pprof/gperftools/src/page_heap.cc:449-500 | settled borders on both sides of the merged span mean maximal coalescing of the whole heap |
| `HeapSteps.WholeMerge` | pprof/gperftools/src/page_heap.cc:449-500 | a whole merge restores the heap invariant, changes no span in use, only grows free spans, and with aggressive decommit off leaves no two equal neighbours |
| `HeapSteps.ReleasedOne` | pprof/gperftools/src/page_heap.cc:584-596 | releasing one span restores the invariant and moves exactly its pages from normal to returned when aggressive decommit is off |
| `HeapSteps.ByteCounters` | pprof/gperftools/src/page_heap.cc:339-359 | in every valid heap free_bytes and unmapped_bytes are the byte sums of normal and returned spans and committed + unmapped == system |
| `HeapSteps.ReleasedBytes` | pprof/gperftools/src/page_heap.cc:598-634 | what a release run says in pages is what the byte counters say |
| `HeapSteps.CleanAll` | pprof/gperftools/src/page_heap.cc:598-634 | a full round over all lists that released nothing has seen every normal list empty, so no normal byte is left |
| `HeapAlloc.CarvedInv` | pprof/gperftools/src/page_heap.cc:361-400 | carving keeps the whole invariant |
| `HeapAlloc.CarvedCoalesced` | pprof/gperftools/src/page_heap.cc:361-400 | the rest of a carved span needs no coalescing: no two neighbours become equal |
| `HeapAlloc.CarvedAllocates` | pprof/gperftools/src/page_heap.cc:361-400 | carving adds exactly one span in use, of the asked length, and touches no other |
| `HeapAlloc.FreedOne` | pprof/gperftools/src/page_heap.cc:407-425 | freeing a span restores the invariant and removes exactly it from the spans in use |
| `HeapAlloc.ShortBest` | pprof/gperftools/src/page_heap.cc:98-130 | the head of the first non-empty short list is a shortest fitting free span, normal before returned |
| `HeapAlloc.SplitInv` | pprof/gperftools/src/page_heap.cc:322-337 | splitting a span in use keeps the invariant |
| `HeapAlloc.TrimmedFront` | pprof/gperftools/src/page_heap.cc:248-259 | dropping the pages before the aligned start leaves the rest as the span allocated |
| `HeapAlloc.TrimmedBack` | pprof/gperftools/src/page_heap.cc:261-265 | dropping the pages behind leaves exactly the asked length |
| `HeapAlloc.RegisteredInv` | pprof/gperftools/src/page_heap.cc:660-669 | naming every page of a span in use keeps the invariant |
| `HeapAlloc.RoundUpSpec` | pprof/gperftools/src/page_heap.cc:134-143 | the masks give the least multiple of the smallest span size not below n, unless 64 bits cannot hold the sum; then the largest multiple there is |
| `HeapAlloc.SkipTo` | pprof/gperftools/src/page_heap.cc:248-253 | terminates within align pages at the first page whose address passes the mask align_bytes - 1, tested on bytes as the source does |
| `HeapAlloc.PassesIsAligned` | pprof/gperftools/src/page_heap.cc:248-253 | for a power of two, passing the mask is being a multiple of it |
| `Bits.MaskAligns` | pprof/gperftools/src/page_heap.cc:250-251 | whatever passes the mask a - 1 is a multiple of a if and only if a is a power of two |
| `Bits.MaskPasses` | pprof/gperftools/src/page_heap.cc:250-253 | from any page on, for any mask, at most mask steps lead to one that passes |
| `Bits.PowerTest` | pprof/gperftools/src/page_heap.cc:90-91 | x & (x - 1) is 0 exactly for powers of two |
| `Bits.MaskIsRemainder` | pprof/gperftools/src/page_heap.cc:134-135 | the mask of a power of two takes the remainder, so RoundUpSize rounds to multiples |
| `HeapAlloc.GrownInv` | pprof/gperftools/src/page_heap.cc:726-788 | a successful growth keeps the invariant with the system pages enlarged |
| `HeapAlloc.LostInv` | pprof/gperftools/src/page_heap.cc:726-788 | pages lost when the page map cannot grow are accounted for |
| `PageHeaps.PageHeap.DecommitSpan` | pprof/gperftools/src/page_heap.cc:348-359 | tries to release; on success the committed bytes fall by the span, on a refusal, which is counted, nothing changes |
| `PageHeaps.PageHeap.CommitSpan` | pprof/gperftools/src/page_heap.cc:339-346 | committed bytes rise by the span |
| `PageHeaps.PageHeap.PrependToFreeList` | pprof/gperftools/src/page_heap.cc:502-527 | first on the list for the length and location with the old list behind it in order, or in the set; counter raised |
| `PageHeaps.PageHeap.RemoveFromFreeList` | pprof/gperftools/src/page_heap.cc:529-548 | off its list, the others in order, or out of its set; counter lowered |
| `PageHeaps.PageHeap.CheckAndHandlePreMerge` | pprof/gperftools/src/page_heap.cc:429-447 | merges equal locations; with aggressive decommit a normal neighbour of a returned span unless the system refuses; nothing else |
| `PageHeaps.PageHeap.MergeIntoFreeList` | pprof/gperftools/src/page_heap.cc:449-500 | the whole merge as a run of the steps above; the refusals are exactly the decommits that the run lacks |
| `HeapSteps.AggressiveAbsorbs` | pprof/gperftools/src/page_heap.cc:449-500 | in aggressive mode without a refusal the span ends returned and has swallowed the free span on either side |
| `PageHeaps.PageHeap.ReleaseSpan` | pprof/gperftools/src/page_heap.cc:584-596 | the length, with the span returned, or 0 exactly when the system refuses; no normal span is new; coalescing is kept outside aggressive mode, and inside it for a span that is safe |
| `PageHeaps.PageHeap.SweepStep` | pprof/gperftools/src/page_heap.cc:605-631 | one list: the span there longest is returned, or the list is empty, or the system refused |
| `PageHeaps.PageHeap.Sweep` | pprof/gperftools/src/page_heap.cc:605-631 | one round visits all lists and releases something, reaches the target, is refused, or finds no normal byte |
| `PageHeaps.PageHeap.ReleaseAtLeastNPages` | pprof/gperftools/src/page_heap.cc:598-634 | without a refusal by the system, enough is released or no normal byte is left; it stops as soon as enough is; with aggressive decommit off the result is exactly the pages moved from normal to returned |
| `PageHeaps.PageHeap.EnsureLimit` | pprof/gperftools/src/page_heap.cc:636-658 | true when there is room; otherwise exactly when there is room after the release (aggressive mode may say no too often); no means that no normal byte is left or the system refused |
| `PageHeaps.PageHeap.Carve` | pprof/gperftools/src/page_heap.cc:361-400 | the new state is exactly the carved heap |
| `PageHeaps.PageHeap.CarveValid` | pprof/gperftools/src/page_heap.cc:361-400 | carving in a valid heap yields a valid heap with one more span in use |
| `PageHeaps.PageHeap.UpperBound` | pprof/gperftools/src/page_heap.cc:270-320 | the least element of a span set that is at least n long |
| `PageHeaps.PageHeap.AllocLarge` | pprof/gperftools/src/page_heap.cc:270-320 | unless the limit hinders, the best fit among large spans, or proof that none fits |
| `PageHeaps.PageHeap.SearchFreeAndLargeLists` | pprof/gperftools/src/page_heap.cc:98-130 | unless the limit hinders, a best-fit span cut to its first n pages, the rest kept where it was, or proof that no free span fits |
| `PageHeaps.PageHeap.IncrementalScavenge` | pprof/gperftools/src/page_heap.cc:550-582 | an optional release of one page or more, invariant kept |
| `PageHeaps.PageHeap.DeleteLocked` | pprof/gperftools/src/page_heap.cc:407-425 | exactly that span leaves the spans in use, invariant kept, coalescing kept outside aggressive mode, and inside it for a safe span when the scavenger releases nothing; then the freed span is first on its list |
| `HeapAlloc.LastFreedFirst` | pprof/gperftools/src/page_heap.cc:98-130 | a short normal span that is first on its list is what the next request gets when nothing that fits is shorter |
| `PageHeaps.PageHeap.GrowHeap` | pprof/gperftools/src/page_heap.cc:726-788 | without a limit the system is asked for the larger of n and 128 pages and, when that is refused, for n; what it grants becomes part of the heap or is counted as lost; with a limit it is not asked only when there is no room |
| `PageHeaps.PageHeap.CoalesceAndSearch` | pprof/gperftools/src/page_heap.cc:184-214 | without a refusal nothing normal is left when the second search fails |
| `PageHeaps.PageHeap.NewLocked` | pprof/gperftools/src/page_heap.cc:174-228 | a free span that fits is used, the best one, and the system not asked, unless the limit hinders; otherwise, without a limit, the request fails only when the system turns it down or the pages are lost, and free memory is given back first exactly when a quarter is free and a 128 MB boundary is crossed |
| `PageHeaps.PageHeap.Split` | pprof/gperftools/src/page_heap.cc:322-337 | two spans in use covering the same pages |
| `PageHeaps.PageHeap.NewAligned` | pprof/gperftools/src/page_heap.cc:230-268 | a span of exactly the rounded length whose start passes the mask, a multiple of the alignment when that is a power of two; everything else given back; none only on overflow or as NewLocked of the sum |
| `PageHeaps.PageHeap.RegisterSizeClass` | pprof/gperftools/src/page_heap.cc:660-669 | every page of the span names it |
| `PageHeaps.PageHeap.NewWithSizeClass` | pprof/gperftools/src/page_heap.cc:160-172 | a span of the rounded length with its class, the best fit if one fits; for small objects every page names it; coalescing kept; none as in NewLocked |
| `HeapWalk.NextOfTwoLevels` | pprof/gperftools/src/page_heap.cc:694-700 | Next of a two-level page map is the value at the first mapped page |
| `HeapWalk.NextOfThreeLevels` | pprof/gperftools/src/page_heap.cc:694-700 | the same for three levels |
| `HeapWalk.FirstIsStart` | pprof/gperftools/src/page_heap.cc:694-724 | from a span boundary the first mapped page starts the next live span; stale entries are never met |
| `HeapWalk.NextIsFirstSpan` | pprof/gperftools/src/page_heap.cc:694-724 | what Next finds from a boundary is the live span that starts first from there on |
| `HeapWalk.GetNextRange` | pprof/gperftools/src/page_heap.cc:694-724 | on a two-level page map: what the first mapped page names; from a boundary the next live span in address order, or proof that none is left |
| `HeapWalk.GetNextRangeDeep` | pprof/gperftools/src/page_heap.cc:694-724 | the same on a three-level page map |
| `HeapWalk.Walk` | pprof/gperftools/src/page_heap.cc:694-724 | restarting just past each range, on the radix tree, lists every live span exactly once in address order |
| `HeapWalk.Run` | pprof/gperftools/src/page_heap.cc:160-634 | for every run of client operations, size classes included: each operation changes what the client holds as it promises and nothing else; without a limit an allocation fails only when the system turned it down or its pages were lost; the spans in use are exactly those held, share no page and are named by the page map; coalescing is maximal unless aggressive decommit was switched on; committed + unmapped == system |
| `AggressiveMode.MergeCoalescesExactly` | pprof/gperftools/src/page_heap.cc:429-500 | in aggressive mode every outcome of a whole merge leaves the heap maximally coalesced if and only if no normal neighbour of the span has a returned span at its far end |
| `AggressiveMode.FreeCoalescesExactly` | pprof/gperftools/src/page_heap.cc:407-425 | the same for a free, on the heap before the call |
| `AggressiveMode.ReleaseCoalescesExactly` | pprof/gperftools/src/page_heap.cc:584-596 | the same for a release |
| `AggressiveMode.SafeMerge` | pprof/gperftools/src/page_heap.cc:449-500 | a merge of a safe span keeps coalescing in both modes, whatever decommits fail |
| `AggressiveMode.AggressiveLeavesNeighbours` | pprof/gperftools/src/page_heap.cc:429-500 | a concrete heap of three pages where a free in aggressive mode leaves two returned spans side by side |
| `Collections.WithoutSpec` | pprof/gperftools/src/span.cc:66-73 | removal from a list of distinct spans removes exactly that span |
| `Collections.WithoutCuts` | pprof/gperftools/src/span.cc:66-73 | the others stay in order |
| `CentralData.FetchedClassOk` | pprof/gperftools/src/central_freelist.cc:279-306 | taking objects keeps counter_ and the nonempty_/empty_ split exact |
| `CentralData.ReturnedClassOk` | pprof/gperftools/src/central_freelist.cc:96-138 | giving an object back keeps them exact |
| `CentralData.FetchUndoesReturn` | pprof/gperftools/src/central_freelist.cc:134-137 | the object that came back last goes out first and leaves the span as it was |
| `CentralData.FetchedNext` | pprof/gperftools/src/central_freelist.cc:102-106 | a span with a free object again, or a new one, is the next to be fetched from |
| `CentralData.DissolvedClassOk` | pprof/gperftools/src/central_freelist.cc:115-133 | a span whose last object came back leaves the lists and the counters exact, when it is charged as many objects as it has |
| `CentralData.LastOutstanding` | pprof/gperftools/src/central_freelist.cc:122-137 | with refcount one the object coming back is the only one outside the free list |
| `CentralData.InstalledClassOk` | pprof/gperftools/src/central_freelist.cc:371-377 | a new span is listed once and its objects counted |
| `CentralMoves.SlotPushed` | pprof/gperftools/src/central_freelist.cc:220-233 | storing a chain in a transfer slot keeps the invariant |
| `CentralMoves.SlotDelivered` | pprof/gperftools/src/central_freelist.cc:235-247 | handing out a slot keeps it |
| `CentralMoves.SlotStolen` | pprof/gperftools/src/central_freelist.cc:192-218 | shrinking another class by a full slot keeps it, the stolen slot counted as credit |
| `CentralMoves.RoomStolen` | pprof/gperftools/src/central_freelist.cc:192-218 | shrinking by an unused slot keeps it |
| `CentralSpans.Fetched` | pprof/gperftools/src/central_freelist.cc:279-306 | fetching from the first nonempty span keeps the global invariant |
| `CentralSpans.ObjectReturned` | pprof/gperftools/src/central_freelist.cc:96-138 | returning an object to its span keeps the global invariant |
| `CentralSpans.SpanDissolved` | pprof/gperftools/src/central_freelist.cc:122-133 | dissolving a span keeps it: no other thread, slot or client has an object of that span |
| `Carving.PiecesCount` | pprof/gperftools/src/central_freelist.cc:115-130 | the number of objects carved is the bytes divided by the object size |
| `Carving.PiecesApart` | pprof/gperftools/src/central_freelist.cc:329-368 | no two objects carved share a byte |
| `Carving.PieceInside` | pprof/gperftools/src/central_freelist.cc:329-368 | every object carved lies inside the span |
| `Carving.PiecesFill` | pprof/gperftools/src/central_freelist.cc:365-367 | what is left at the end is shorter than an object |
| `Carving.Carve` | pprof/gperftools/src/central_freelist.cc:329-368 | the loop, with its wrap-around test, carves exactly those objects in address order and counts them: bytes / size |
| `CentralSpans.CountIsLength` | pprof/gperftools/src/central_freelist.cc:122-130 | the division by which a span leaves counter_ gives the number of objects it was carved into |
| `CentralSpans.CutsSeparate` | pprof/gperftools/src/central_freelist.cc:329-368 | objects carved from spans that share no byte are different |
| `CentralSpans.SpanArrived` | pprof/gperftools/src/central_freelist.cc:309-368 | a span obtained while the class lock is dropped, on pages no live span has and carved into objects, keeps the invariant |
| `CentralSpans.SpanListed` | pprof/gperftools/src/central_freelist.cc:371-377 | listing that span keeps it |
| `CentralTheorems.NextKeepsInv` | pprof/gperftools/src/central_freelist.cc:88-377 | every step of every thread keeps the invariant |
| `CentralTheorems.ExecutionInv` | pprof/gperftools/src/central_freelist.cc:53-377 | it holds in every state of every interleaving from initialisation |
| `CentralTheorems.ObjectsConserved` | pprof/gperftools/src/central_freelist.cc:88-138 | each object of each span is in exactly one place, and free objects plus refcount make up the span |
| `CentralTheorems.ObjectsApart` | pprof/gperftools/src/central_freelist.cc:108-120 | in every state of every run a span has bytes / size objects, as the disabled check expects, each inside it, and no two objects anywhere share a byte |
| `CentralTheorems.NothingInvented` | pprof/gperftools/src/central_freelist.cc:220-306 | whatever is cached, in flight or with a client is an object of a live span |
| `CentralTheorems.ClassesConsistent` | pprof/gperftools/src/central_freelist.cc:140-247 | slot bounds, full chains, counter_ exact, nonempty_ and empty_ exact, cache sizes within their initial sum |
| `CentralTheorems.InitialSlots` | pprof/gperftools/src/central_freelist.cc:60-86 | a class may cache one chain, or as many up to 64 as make up a megabyte, and starts with 16 slots or those |
| `CentralRemove.RemoveReturns` | pprof/gperftools/src/central_freelist.cc:235-267 | the step that returns gives the client new objects of the class: n of them, or fewer and no span of the class has a free one |
| `CentralRemove.RemoveRangeGives` | pprof/gperftools/src/central_freelist.cc:235-277 | in every run each return of RemoveRange(c, n) belongs to a call, gives exactly n objects of class c unless no free one is left on a span, and gives none only after Populate during the call |
| `CentralRemove.PopulateServes` | pprof/gperftools/src/central_freelist.cc:254-377 | with nobody in the way a call that gets a new span returns with n of its objects or all it has |
| `CentralInsert.InsertMoves` | pprof/gperftools/src/central_freelist.cc:88-233 | every step inside InsertRange gives the client nothing and places one object, or returns with all placed or the chain stored |
| `CentralInsert.InsertRangeTakes` | pprof/gperftools/src/central_freelist.cc:88-233 | in every run a call takes exactly its chain from the client, gives nothing back, and at its return the chain is a transfer slot or each object went back to its span |
| `CentralInsert.SlotMoves` | pprof/gperftools/src/central_freelist.cc:140-218 | with nobody in the way a full class takes an unused slot from another and stores its chain in it |
| `CentralInsert.ForceTakesSlot` | pprof/gperftools/src/central_freelist.cc:140-218 | from a full class the second try, by force, takes the newest slot, whose chain goes back to the spans |
| `CentralTheorems.NeverStuck` | pprof/gperftools/src/central_freelist.cc:88-377 | a thread that holds its lock always has a step |
| `CentralTheorems.WaitsEmptyHanded` | pprof/gperftools/src/central_freelist.cc:179-218 | inside InsertRange and RemoveRange a thread waits only while it holds no lock |
| `CentralTheorems.WaitsAreShort` | pprof/gperftools/src/static_vars.cc:54-66 | whoever holds a lock and waits is a fork handler, and what it waits for is held by a thread that does not wait |
| `CentralTheorems.NoDeadlock` | pprof/gperftools/src/static_vars.cc:54-66 | the wait-for graph has no cycle in any reachable state |
| `AddressMaps.BlockOf` | pprof/gperftools/src/addressmap-inl.h:209-233 | cluster and block number together determine the block of an address |
| `AddressMaps.SetBlockSpec` | pprof/gperftools/src/addressmap-inl.h:304-333 | changing one block chain, making its cluster if needed, changes no other block |
| `AddressMaps.InsertedTable` | pprof/gperftools/src/addressmap-inl.h:304-333 | Insert refines map update |
| `AddressMaps.RemovedTable` | pprof/gperftools/src/addressmap-inl.h:336-352 | FindAndRemove refines map removal |
| `AddressMaps.InsideUnique` | pprof/gperftools/src/addressmap-inl.h:354-398 | among non-overlapping ranges at most one contains a key |
| `AddressMaps.OffsetInReach` | pprof/gperftools/src/addressmap-inl.h:381-391 | an offset of at most max_size is always in reach of the search |
| `AddressMaps.SmallerStart` | pprof/gperftools/src/addressmap-inl.h:366-379 | a smaller start that does not contain the key rules out everything before it |
| `AddressMaps.TableEntriesSpec` | pprof/gperftools/src/addressmap-inl.h:400-415 | the visit order has every key once with its value and nothing else |
| `AddressMaps.AddressMap.Find` | pprof/gperftools/src/addressmap-inl.h:284-301 | the value of the map at the key |
| `AddressMaps.AddressMap.Insert` | pprof/gperftools/src/addressmap-inl.h:303-333 | the map updated at the key |
| `AddressMaps.AddressMap.FindAndRemove` | pprof/gperftools/src/addressmap-inl.h:335-352 | the map without the key, and what was there |
| `AddressMaps.AddressMap.FindInside` | pprof/gperftools/src/addressmap-inl.h:354-398 | terminates; a result contains the key and is in reach; no result means no range in reach contains it, whatever the sizes |
| `AddressMaps.AddressMap.Iterate` | pprof/gperftools/src/addressmap-inl.h:400-415 | every entry exactly once |
| `HeapProfiles.PackedFaithful` | pprof/gperftools/src/heap-profile-table.h:190-219 | the packed word gives back bucket and flags, and setting a flag disturbs nothing else |
| `HeapProfiles.InUseExact` | pprof/gperftools/src/heap-profile-table.cc:208-232 | in-use counts equal the recorded objects if and only if nothing was recorded twice while live; then bytes and every bucket agree as well |
| `HeapProfiles.RecordedInv` | pprof/gperftools/src/heap-profile-table.cc:208-221 | recording keeps totals equal to bucket sums and allocations equal to freed + recorded + overwritten, in total and per bucket |
| `HeapProfiles.FreedInv` | pprof/gperftools/src/heap-profile-table.cc:223-232 | a free keeps them |
| `HeapProfiles.AddBucketInv` | pprof/gperftools/src/heap-profile-table.cc:186-200 | a new bucket keeps them |
| `HeapProfiles.ReflaggedInv` | pprof/gperftools/src/heap-profile-table.cc:261-275 | changing flags changes no count |
| `HeapProfiles.NonLiveSkipsIgnored` | pprof/gperftools/src/heap-profile-table.h:175-179 | a snapshot of non-live objects holds no ignored one if and only if every ignored object is marked live or in the base |
| `HeapProfiles.IgnoredCollected` | pprof/gperftools/src/heap-profile-table.cc:424-435 | a table of one ignored, unmarked object: the snapshot holds it |
| `HeapProfileTables.HeapProfileTable.FindBucket` | pprof/gperftools/src/heap-profile-table.cc:178-185 | the one bucket of a stack if there is one |
| `HeapProfileTables.HeapProfileTable.GetBucket` | pprof/gperftools/src/heap-profile-table.cc:165-200 | the bucket of the stack, made when missing, never a second one |
| `HeapProfileTables.HeapProfileTable.RecordAlloc` | pprof/gperftools/src/heap-profile-table.cc:208-221 | the whole new table: the bucket of the stack (made when missing) and the totals charged, the entry recorded, and what it overwrote |
| `HeapProfileTables.HeapProfileTable.RecordFree` | pprof/gperftools/src/heap-profile-table.cc:223-232 | the entry goes and its bucket and totals are charged; nothing for an unknown address |
| `HeapProfileTables.HeapProfileTable.FindAlloc` | pprof/gperftools/src/heap-profile-table.cc:234-238 | the recorded size, or nothing |
| `HeapProfileTables.HeapProfileTable.FindInsideAlloc` | pprof/gperftools/src/heap-profile-table.cc:251-259 | the recorded object in reach that contains the address, or proof that there is none |
| `HeapProfileTables.HeapProfileTable.MarkAsLive` | pprof/gperftools/src/heap-profile-table.cc:261-268 | sets the flag; true exactly when it was clear |
| `HeapProfileTables.HeapProfileTable.MarkAsIgnored` | pprof/gperftools/src/heap-profile-table.cc:270-275 | sets the ignore flag of a recorded object |
| `HeapProfileTables.HeapProfileTable.IterateAllocs` | pprof/gperftools/src/heap-profile-table.h:140-144 | every recorded object once |
| `HeapProfileTables.HeapProfileTable.TakeSnapshot` | pprof/gperftools/src/heap-profile-table.cc:482-497 | a snapshot with exactly the recorded objects and their totals |
| `HeapProfileTables.HeapProfileTable.AddIfNonLive` | pprof/gperftools/src/heap-profile-table.cc:424-435 | clears a live flag, or collects an object that the base does not hold |
| `HeapProfileTables.HeapProfileTable.NonLiveSnapshot` | pprof/gperftools/src/heap-profile-table.cc:499-514 | exactly the unmarked objects absent from the base, with every mark cleared |
| `HeapProfileTables.Snapshot.Add` | pprof/gperftools/src/heap-profile-table.h:382-388 | one more object counted |
| `HeapProfileTables.Snapshot.Empty` | pprof/gperftools/src/heap-profile-table.h:364-366 | true exactly when nothing was collected |
| `LiveFloods.ReachedHit` | pprof/gperftools/src/heap-checker.cc:1518-1550 | what a reachable object points to is reachable |
| `LiveFloods.FloodStep` | pprof/gperftools/src/heap-checker.cc:1451-1552 | handling one object keeps: marks are old or reachable, and every marked object or root is on the list or finished |
| `LiveFloods.FloodDone` | pprof/gperftools/src/heap-checker.cc:1446-1559 | with an empty list the marks are exactly the old ones and the reachable ones, and closed |
| `LiveFloods.ReachUnion` | pprof/gperftools/src/heap-checker.cc:1147-1193 | two floods in a row reach what one flood from all roots reaches |
| `LiveFloods.FinerReaches` | pprof/gperftools/src/heap-checker.cc:1844-1862 | looking at every position reaches no fewer objects |
| `LiveFloods.UncappedPoints` | pprof/gperftools/src/heap-checker.cc:1324-1333 | without a cap below the object size every pointer into an object counts, and only those |
| `LiveFloods.LiveReached` | pprof/gperftools/src/heap-checker.cc:1500-1549 | what is live by words at most an offset inside objects is reached when the cap covers the offset |
| `LiveFloods.ReachedLive` | pprof/gperftools/src/heap-checker.cc:1500-1549 | nothing is reached but by words inside objects, at most a block further in than the cap |
| `LiveFloods.ScanNext` | pprof/gperftools/src/heap-checker.cc:1499-1551 | one alignment step looks at exactly one more position |
| `HeapCheckers.FilterKeepsEdges` | pprof/gperftools/src/heap-checker.cc:1503-1518 | the quick test on minimum and maximum address drops no pointer that the full lookup would accept |
| `HeapCheckers.NoIgnoredLeaks` | pprof/gperftools/src/heap-checker.cc:799-808 | an object allocated while checking was disabled is never reported |
| `HeapCheckers.FinerLeaks` | pprof/gperftools/src/heap-checker.cc:1844-1862 | without alignment no more leaks are reported |
| `HeapCheckers.FirstPosition` | pprof/gperftools/src/heap-checker.cc:1465-1475 | the first aligned position of a region and what is left of its size |
| `HeapCheckers.HeapChecker.TryWord` | pprof/gperftools/src/heap-checker.cc:1500-1549 | marks the object a word points into and lists it when it was not marked |
| `HeapCheckers.HeapChecker.ScanRegion` | pprof/gperftools/src/heap-checker.cc:1465-1551 | marks exactly what the aligned positions of a region point into |
| `HeapCheckers.HeapChecker.IgnoreLiveObjects` | pprof/gperftools/src/heap-checker.cc:1446-1559 | terminates; from closed marks, the marks are exactly the old ones and the objects reachable from the roots |
| `HeapCheckers.HeapChecker.NewHook` | pprof/gperftools/src/heap-checker.cc:639-665 | bounds widened, object recorded with its stack and ignore flag while the checker is on |
| `HeapCheckers.HeapChecker.DeleteHook` | pprof/gperftools/src/heap-checker.cc:667-675 | exactly that object is forgotten |
| `HeapCheckers.HeapChecker.IgnoredRoots` | pprof/gperftools/src/heap-checker.cc:799-808 | the roots are exactly the objects with the ignore flag, with their sizes |
| `HeapCheckers.HeapChecker.IgnoreAllLiveObjects` | pprof/gperftools/src/heap-checker.cc:1147-1193 | after all phases the marks are exactly what is reachable from all roots together |
| `HeapCheckers.HeapChecker.CheckOnce` | pprof/gperftools/src/heap-checker.cc:1816-1822 | the leaks are exactly the recorded objects neither reachable nor in the base; all marks are gone afterwards |
| `HeapCheckers.HeapChecker.CheckUnaligned` | pprof/gperftools/src/heap-checker.cc:1844-1849 | the recheck without alignment reports a subset |
| `HeapCheckers.HeapChecker.DoNoLeaks` | pprof/gperftools/src/heap-checker.cc:1764-1862 | the whole check: nothing when off; when on, and no object is larger than the pointer offset, exactly the objects outside the base that no chain of words inside objects leads to; with a smaller offset, bounds from both sides; the subset recheck when asked for, nothing ignored reported, the table as before |
| `HeapCheckers.LeaksReported` | pprof/gperftools/src/heap-checker.cc:1330-1333 | what the flood with the capped size leaves is what a leak check must report |
| `ProfileFormats.ParseProfile` | pprof/gperftools/src/profiledata.cc:118-125 | header, records and end marker parse back, whatever text follows |
| `ProfileFormats.ProfileUnique` | pprof/gperftools/src/profiledata.cc:118-189 | no two different contents give the same slots |
| `ProfileFormats.ParseRecordsSound` | pprof/gperftools/src/profiledata.cc:66-78 | the parse accepts nothing but encoded records and an end marker |
| `ProfileDatas.SampledTotal` | pprof/gperftools/src/profiledata.cc:279-319 | one more sample is counted in its bucket; an entry that makes room leaves with its count |
| `ProfileDatas.WrittenAppend` | pprof/gperftools/src/profiledata.cc:66-78 | appending a whole record keeps file and buffer a header and whole records |
| `ProfileDatas.AddKeeps` | pprof/gperftools/src/profiledata.cc:261-320 | for every stack records and table together count its samples |
| `ProfileDatas.StoppedProfileParses` | pprof/gperftools/src/profiledata.cc:165-189 | the file of a finished profile parses to records whose counts add up to the samples of each stack |
| `ProfileDatas.ProfileData.FlushEvicted` | pprof/gperftools/src/profiledata.cc:324-332 | the file gets everything pending and the buffer is empty |
| `ProfileDatas.ProfileData.Evict` | pprof/gperftools/src/profiledata.cc:66-78 | the record goes behind what is pending, after a flush exactly when it does not fit; the buffer never overflows |
| `ProfileDatas.ProfileData.Start` | pprof/gperftools/src/profiledata.cc:92-129 | false when running or the file cannot be opened, for any frequency; otherwise an empty table and the header pending |
| `ProfileDatas.ProfileData.Choose` | pprof/gperftools/src/profiledata.cc:279-306 | the entry of the stack, or the first with the smallest count |
| `ProfileDatas.ProfileData.Add` | pprof/gperftools/src/profiledata.cc:261-320 | one sample of the stack, of its first 254 frames if it is longer |
| `ProfileDatas.ProfileData.FlushTable` | pprof/gperftools/src/profiledata.cc:240-259 | the file ends between records and counts every sample; the table is empty |
| `ProfileDatas.ProfileData.Stop` | pprof/gperftools/src/profiledata.cc:165-196 | header, records that count every sample, end marker |
| `ProfileDatas.ProfileData.Reset` | pprof/gperftools/src/profiledata.cc:199-218 | disabled, table and buffer given up, nothing written |
| `ProfileRuns.Run` | pprof/gperftools/src/profiledata.cc:82-320 | for every sequence of Start, Add, FlushTable, Stop and Reset: there is one finished file for each profile stopped, and it parses to counts equal to the samples taken between its Start and its Stop |
| `ProfileRuns.Step` | pprof/gperftools/src/profiledata.cc:82-320 | each operation moves the collector as the abstract session moves |
| `PackedCaches.PutGet` | pprof/gperftools/src/packed-cache-inl.h:179-183 | a value is found after Put; only other keys of the same slot lose theirs |
| `PackedCaches.InvalidateGet` | pprof/gperftools/src/packed-cache-inl.h:185-188 | after Invalidate nothing is found in that slot; other slots keep theirs |
| `PackedCaches.ClearGet` | pprof/gperftools/src/packed-cache-inl.h:174-177 | nothing is found in a cleared cache |
| `PackedCaches.UpperIs` | pprof/gperftools/src/packed-cache-inl.h:191-199 | KeyToUpper is the key with its hash bits cleared |
| `PackedCaches.PackedCache.TryGet` | pprof/gperftools/src/packed-cache-inl.h:157-172 | one exclusive or and one comparison decide whether the entry is the key and give its value |
| `PackedCaches.PackedCache.Put` | pprof/gperftools/src/packed-cache-inl.h:179-183 | exactly the entry of the key changes |
| `PackedCaches.PackedCache.Invalidate` | pprof/gperftools/src/packed-cache-inl.h:185-188 | exactly the entry of the key changes |
| `PackedCaches.PackedCache.Clear` | pprof/gperftools/src/packed-cache-inl.h:174-177 | every lookup misses |
| `SizeClassCache.StepInv` | pprof/gperftools/src/page_heap.cc:160-172 | every step keeps agreement of cache and span table |
| `SizeClassCache.StepCaches` | pprof/gperftools/src/central_freelist.cc:321-327 | what Populate or a free puts in the cache is found there |
| `SizeClassCache.FirstPageAgrees` | pprof/gperftools/src/page_heap.cc:160-172 | in every run a lookup of the first page of a span in use misses or gives its class |
| `SizeClassCache.EveryPageAgrees` | pprof/gperftools/src/central_freelist.cc:321-327 | once Populate has filled a span the same holds for all its pages |
| `SizeClassCache.FreeFindsClass` | pprof/gperftools/src/tcmalloc.cc:1499-1526 | free finds the right class from the cache or from the span |
| `RecursiveLocks.StepInv` | pprof/gperftools/src/memory_region_map.cc:278-325 | every step keeps the invariant of the two locks, the count and the owner id |
| `RecursiveLocks.MutualExclusion` | pprof/gperftools/src/memory_region_map.cc:278-308 | no two threads are inside in any reachable state |
| `RecursiveLocks.NestedOnlyInside` | pprof/gperftools/src/memory_region_map.cc:288-297 | the nested path is taken exactly by a thread inside, and aborts exactly at depth 5 |
| `RecursiveLocks.FreedAtOutermost` | pprof/gperftools/src/memory_region_map.cc:310-320 | lock_ is freed exactly at the outermost Unlock of the thread inside |
| `RecursiveLocks.UnlockChecks` | pprof/gperftools/src/memory_region_map.cc:310-316 | the other checks fail exactly for an Unlock by a thread not inside |
| `RecursiveLocks.HeldAnswer` | pprof/gperftools/src/memory_region_map.cc:322-325 | LockIsHeld is true for a thread inside, and for one outside exactly while another has lock_ with the old owner id still there |
| `RecursiveLocks.HeldOutside` | pprof/gperftools/src/memory_region_map.cc:322-325 | a run in which LockIsHeld is true for a thread outside |
| `RecursiveLocks.OwnerLockIsShort` | pprof/gperftools/src/memory_region_map.cc:285-325 | the holder of owner_lock_ never waits |
| `RecursiveLocks.OwnerLockGuards` | pprof/gperftools/src/memory_region_map.cc:278-284 | while a thread has owner_lock_ no step of another thread changes the count or the owner or depends on them |
| `PageMaps.PageMap1.Get` | pprof/gperftools/src/pagemap.h:87-92 | the value at the number; NULL outside and where no node is |
| `PageMaps.PageMap1.Set` | pprof/gperftools/src/pagemap.h:98-100 | changes exactly that number |
| `PageMaps.PageMap1.Ensure` | pprof/gperftools/src/pagemap.h:74-80 | true exactly when the numbers are in range, for x up to LENGTH; above it the subtraction wraps and the exact answer is stated |
| `PageMaps.PageMap1.Next` | pprof/gperftools/src/pagemap.h:104-110 | the value at the least number from k on that has one, or proof that none has |
| `PageMaps.PageMap2.Get` | pprof/gperftools/src/pagemap.h:140-147 | the value at the number; NULL outside and where no node is |
| `PageMaps.PageMap2.Set` | pprof/gperftools/src/pagemap.h:149-154 | changes exactly that number |
| `PageMaps.PageMap2.Ensure` | pprof/gperftools/src/pagemap.h:156-176 | no value changes; unless the allocator refuses, which is counted, the answer is right (true: every number has its leaf; false: the last is outside) if and only if 0 < start + n <= 2^64; when the sum wraps it is true and nothing is made |
| `PageMaps.PageMap2.Next` | pprof/gperftools/src/pagemap.h:185-201 | the value at the least number from k on that has one, or proof that none has |
| `PageMaps.PageMap3.Get` | pprof/gperftools/src/pagemap.h:246-255 | the value at the number; NULL outside and where no node is |
| `PageMaps.PageMap3.Set` | pprof/gperftools/src/pagemap.h:257-263 | changes exactly that number |
| `PageMaps.PageMap3.Ensure` | pprof/gperftools/src/pagemap.h:265-293 | no value changes; unless the allocator refuses, which is counted, the answer is right (true: every number has its leaf; false: the last is outside) if and only if 0 < start + n <= 2^64; when the sum wraps it is true and nothing is made |
| `PageMaps.PageMap3.Next` | pprof/gperftools/src/pagemap.h:298-318 | the value at the least number from k on that has one, or proof that none has |
| `PageMaps.FlatRightExactly` | pprof/gperftools/src/pagemap.h:74-80 | the answer of the flat map is right for every count if and only if x <= LENGTH |
| `PageMaps.FlatPastEnd` | pprof/gperftools/src/pagemap.h:74-80 | Ensure(LENGTH + 1, 1) is true although the number is out of range |
| `PageMaps.WrapsOnTwoLevels` | pprof/gperftools/src/pagemap.h:156-176 | Ensure(2^64 - 1, 2) is true and has made no leaf |
| `PageMaps.WrapsOnThreeLevels` | pprof/gperftools/src/pagemap.h:265-293 | the same for three levels |
| `PageMaps.SameCell` | pprof/gperftools/src/pagemap.h:140-147 | shift and mask together determine the number |
| `SizeClasses.LgFloor` | pprof/gperftools/src/common.cc:71-83 | the number of the highest bit |
| `SizeClasses.AlignmentForSize` | pprof/gperftools/src/common.cc:85-105 | the step of each size range, capped at a page; a page above the maximum size |
| `SizeClasses.NextTried` | pprof/gperftools/src/common.cc:168-174 | the next size tried is aligned for its own range and has the next rank, so there are few of them |
| `SizeClasses.NoneBetween` | pprof/gperftools/src/common.cc:168-174 | no size is tried between one and the next |
| `SizeClasses.IndexTop` | pprof/gperftools/src/common.h:182-215 | an index stands for exactly the sizes up to its top and above the tops below it |
| `SizeMaps.ChooseSpan` | pprof/gperftools/src/common.cc:176-189 | terminates at the least multiple of the granularity that wastes at most an eighth and holds enough objects |
| `SizeMaps.Granularity` | pprof/gperftools/src/common.cc:133-156 | the system page size when it is a larger multiple of ours, otherwise ours |
| `SizeTables.NumMoveSpec` | pprof/gperftools/src/common.cc:107-127 | about 64 KB move at once, at least two objects, never more than the flag |
| `SizeTables.ClassWaste` | pprof/gperftools/src/common.cc:176-189 | each class wastes at most an eighth of its span, a whole multiple of the granularity that holds at least one object |
| `SizeTables.LeastClassUnique` | pprof/gperftools/src/common.h:244-246 | the class found is no larger than any class that holds the size |
| `SizeMaps.SizeMap.AddSize` | pprof/gperftools/src/common.cc:189-208 | sizes stay strictly increasing; a size joins the last class exactly when span and object count agree |
| `SizeMaps.SizeMap.MakeClasses` | pprof/gperftools/src/common.cc:168-213 | terminates with at most 105 classes, the last one ending at the maximum size |
| `SizeMaps.SizeMap.MapSizes` | pprof/gperftools/src/common.cc:215-223 | every index holds the least class for its top size |
| `SizeMaps.SizeMap.Init` | pprof/gperftools/src/common.cc:130-266 | for every system page size and positive transfer count: good classes in order, few enough, every size mapped; the closing check stops the program exactly when the system page size is 40960 |
| `SizeMaps.SizeMap.CheckNatural` | pprof/gperftools/src/common.cc:248-261 | passes exactly when every multiple of each power of two from 16 to a page gets a class size that is a multiple of it |
| `NaturalAlignment.NaturalExactly` | pprof/gperftools/src/common.cc:248-261 | in every finished table the check passes if and only if the granularity is not five pages, whatever the transfer count |
| `NaturalAlignment.SharedClass` | pprof/gperftools/src/common.cc:189-203 | two sizes below a page share a class, the smaller an even number of steps, in three shapes only |
| `NaturalAlignment.OddEnd` | pprof/gperftools/src/common.cc:189-203 | with a granularity of five pages 6144 and 6656 share a class that ends there |
| `SizeMaps.SizeMap.SizeClass` | pprof/gperftools/src/common.h:244-246 | the least class that holds the size |

## Left out

- Wrap-around of 64-bit byte counters, of `int` counts and of the `extra` length in Split and Carve.
- The length cached next to the pointer in span sets; the sets are sets of spans with a least upper bound.
- Pointer-level intrusive lists (`span.cc`, `linked_list.h`): free lists and object chains are sequences, so aliasing of links is not captured.
- How the page heap and the central cache share one address space: a span that arrives at the central cache shares no byte with the live ones there, as the page heap's own model proves of spans in use.
- Thread caches, the transfer sizes chosen by clients, sampling and growth stacks.
- Commit, decommit, reserve and scavenge event counts, the scavenging delay and its floating-point arithmetic.
- What the system has taken so far for the heap limit: an arbitrary number after each request.
- The size-class cache calls inside PageHeap methods; the cache has its own model with the same steps.
- Weak memory: the size-class cache and the recursive lock are modelled with atomic, sequentially ordered steps.
- The table of transfer counts that SizeMap::Init fills last.
- Page sizes other than the default and the 8-byte minimum alignment build.
- Which numbers the hash functions of stacks and addresses give; they only decide where an entry is looked for.
- The free list of map entries and the memory management of the address map.
- The order of buckets in heap profiles, profile text, symbolisation and all file formats except the CPU profile slots.
- Finding roots: thread stacks, registers, `/proc/self/maps`, library regions and disabled code ranges are given to the leak check as regions.
- The skip of unreadable unnamed regions in the flood; its guard only holds for addresses below one page.
- The profiler's file name, start time, a negative sampling frequency, and the text after the end marker.
- The memory region map itself: only its lock is modelled, after thread initialisation.
- HeapCheckers.HeapChecker.IgnoreLiveObjects: requires marks that are closed under pointers and heap roots recorded with their size, which the callers establish (`heap-checker.cc:1171-1175`, `heap-checker.cc:803-804`).
- HeapCheckers.HeapChecker.NewHook: requires that a new block overlaps no recorded one, as the allocator guarantees.
- HeapProfileTables.HeapProfileTable.GetBucket: the room for a new bucket is a parameter, fresh and aligned to 4.
- ProfileDatas.ProfileData.Add: requires a non-empty stack while a profile is taken, where the source aborts otherwise.
- ProfileDatas.ProfileData.Start: requires a frequency other than 0 when a profile does start, where the source aborts otherwise.
- PageHeaps.PageHeap.NewWithSizeClass: the call that invalidates the cached size class is in the model of the cache, not here.
- PageHeaps.PageHeap.NewAligned: requires an alignment of at least one page; with none the source's loop looks for a page whose address is 0 on 64 bits.
- HeapWalk.GetNextRange: gives the span, not the range record made from its fields; the fraction in use is floating point.
- SizeMaps.SizeMap.Init: requires a positive transfer count.
