# Verified models of the job core libraries

This project models the parts of the `job` libraries whose correctness is hardest to see by reading, and proves
what their code and documentation promise. `dafny verify dfyconfig.toml` checks everything.

* **Transparency log** (`PowersOfTwo`, `MerkleTree`, `Inclusion`, `Consistency`, `TrustState`): the Merkle tree
  hash, audit paths and consistency proofs of sections 2.1, 2.1.1 and 2.1.2 of RFC 6962 are written down as
  specifications, and the C++ recursions and loops are proved against them, in both directions. The hash function
  is a parameter of every statement. Binding statements name an extractor: either the two objects are equal, or a
  given function returns two different inputs with the same hash.
* **Allocators and range sets** (`MemRanges`, `RangeSets`, `Tiling`, `RangePool`, `PageSpans`, `PagePool`,
  `SizePool`, `MemLock`, `Mmap`): classes with the fields of the C++ objects. Their methods are proved against sets
  of bytes or pages. `Valid()` (for the size pools: `System`) is established by the constructors and kept by every
  method, so what it says holds in every run of calls: free list and live blocks tile the memory, live objects of
  all pools are disjoint, locked bytes are mapped bytes.
* **Exact arithmetic** (`Bits`, `Bytes`, `SplitMix64`, `Crc32`): unbounded integers with the 32- and 64-bit wrap-around
  written out; bitwise operators are defined bit by bit and tied to arithmetic by lemmas.
* **Concurrency** (`SharedRing`, `Signal`, `SignalCalls`): state machines whose steps are the atomic loads, stores and single-byte
  copies of the C++ code; the main lemmas hold for every interleaving.
* **INI string lists** (`IniList`): printer, line lexer and list parser, with a round trip for whole documents.

Three promises turn out not to hold as stated; each has a concrete failing case and an exact condition.

* `JobAiPkgConsistency::verify` says at lines 49-51 that the old subroot is already validated when it returns
  `oldRoot` at line 52. It is not: unless the old size is a power of two or exceeds the split point of the new
  size, the verdict does not depend on the old root at all (`Consistency.OldRootFixedExactly`,
  `Consistency.ThreeToFiveAcceptsAnyOldRoot`).
* A single-shot slot can be called more than once when several threads emit, because `emit` loads the snapshot
  before the single-shot counter: through the claim path and then without a claim (`SignalCalls.SingleShotCalledTwice`),
  or without a claim and then through the claim path (`SignalCalls.ClaimedAfterUnclaimed`). The exact condition, for an
  emission about to load the counter in any reachable state, whatever was called before: it can call an entry of
  its snapshot if and only if the load finds zero or the entry is unclaimed (`SignalCalls.CallableExactly`). A run in
  which no load finds zero while the snapshot holds a single-shot entry repeats nothing
  (`SignalCalls.SingleShotsCalledOnce`), and on one thread no load ever does (`SignalCalls.SoloNoStaleLoad`).
* An empty string list does not survive printing and reading (`IniList.EmptyListReadsAsOneString`); a document
  does exactly when its keys and group are well formed and no list is empty (`IniList.DocumentRoundTrip`).

## Model

| member | source | states |
|---|---|---|
| `PowersOfTwo.LargestPowerOfTwoLessThan` | libs/job_aipkg/job_aipkg_utils.cpp:5-11 | the loop with its 64-bit doubling returns the split point, for every n up to 2^63 |
| `PowersOfTwo.SplitPointIsLargest` | libs/job_aipkg/job_aipkg_utils.cpp:5-11 | no power of two below n is larger than the split point |
| `PowersOfTwo.SplitPointUnique` | libs/job_aipkg/job_aipkg_utils.cpp:5-11 | the only power of two k with k < n <= 2k is the split point |
| `PowersOfTwo.LoopEndsExactly` | libs/job_aipkg/job_aipkg_utils.cpp:8-9 | for 64-bit n the loop ends if and only if n <= 2^63; above, the doubling wraps to zero |
| `MerkleTree.SubtreeRootIsTreeHash` | libs/job_aipkg/job_aipkg_merkle.cpp:34-43 | the (start, count) recursion computes the RFC tree hash of that slice of the leaves |
| `MerkleTree.RootIsMTH` | libs/job_aipkg/job_aipkg_merkle.cpp:7-55 | `computeRoot` over the leaf hashes of any list of entries, also the empty one, is MTH of section 2.1 of RFC 6962 |
| `MerkleTree.MthEquations` | libs/job_aipkg/job_aipkg_merkle.cpp:7-55 | the equations of section 2.1 of RFC 6962 with prefixes 0x00 and 0x01 and the argument order written out |
| `MerkleTree.ZeroHashBytes` | libs/job_aipkg/job_aipkg_consistency.cpp:34 | the value-initialised hash has 32 zero bytes |
| `MerkleTree.RootBinding` | libs/job_aipkg/job_aipkg_merkle.cpp:7-55 | two lists of entries of any lengths with equal roots are equal, or the extractor returns a hash collision |
| `Inclusion.ComputeRootFromPath` | libs/job_aipkg/job_aipkg_inclusion.cpp:5-23 | the loop returns the fold of the path from the leaf |
| `Inclusion.Verify` | libs/job_aipkg/job_aipkg_inclusion.cpp:25-29 | accepts if and only if the fold of the path is the trusted root |
| `Inclusion.PathReachesRoot` | libs/job_aipkg/job_aipkg_inclusion.cpp:5-23 | PATH(m, D) of section 2.1.1 of RFC 6962 folds from leaf m to the root, for every m and D |
| `Inclusion.PathEquations` | libs/job_aipkg/job_aipkg_inclusion.cpp:9-20 | the equations of section 2.1.1 of RFC 6962, each sibling with its is_right value |
| `Inclusion.FoldEquations` | libs/job_aipkg/job_aipkg_inclusion.cpp:10-19 | is_right 1 hashes the current value on the left of the sibling, every other value on the right |
| `Inclusion.PathHasSides` | libs/job_aipkg/job_aipkg_inclusion.cpp:9-20 | the directions of PATH(m, D) are those the index m and the size determine |
| `Inclusion.SidesGiveIndex` | libs/job_aipkg/job_aipkg_inclusion.cpp:9-20 | directions determine the leaf index |
| `Inclusion.IndexBinding` | libs/job_aipkg/job_aipkg_inclusion.cpp:25-29 | a path with the directions of index m that reaches the root carries leaf m and its siblings, or a collision is extracted |
| `Inclusion.EntryBinding` | libs/job_aipkg/job_aipkg_inclusion.cpp:25-29 | any accepted path for an entry, of any length and directions, is the RFC path of that entry in the log, or a collision is extracted |
| `Inclusion.EntryAccepted` | libs/job_aipkg/job_aipkg_inclusion.cpp:25-29 | conversely the RFC path of every entry is accepted and its directions give the entry's index |
| `Consistency.SubproofVerifier.VerifySubproof` | libs/job_aipkg/job_aipkg_consistency.cpp:22-68 | the recursion with the shared cursor returns the pair and the cursor of the reference reconstruction |
| `Consistency.Verify` | libs/job_aipkg/job_aipkg_consistency.cpp:7-76 | returns the verdict `Accepts`, for all inputs on which the split-point loop ends |
| `Consistency.SubproofBase` | libs/job_aipkg/job_aipkg_consistency.cpp:26-38 | SUBPROOF(m, D[m], b) of section 2.1.2 of RFC 6962 |
| `Consistency.SubproofLeft` | libs/job_aipkg/job_aipkg_consistency.cpp:42-55 | SUBPROOF for m <= k, with k the power of two k < n <= 2k |
| `Consistency.SubproofRight` | libs/job_aipkg/job_aipkg_consistency.cpp:56-67 | SUBPROOF for m > k |
| `Consistency.VerdictExact` | libs/job_aipkg/job_aipkg_consistency.cpp:11-75 | for all sizes: accepted if and only if 1 <= oldSize <= newSize and the proof has the exact node count and rebuilds both roots, or it is shorter and both roots are the zero hash |
| `Consistency.NodeCountBound` | libs/job_aipkg/job_aipkg_consistency.cpp:34-73 | the node count of (m, n) is at most ceil(log2 n) + 1 |
| `Consistency.CeilLog2Exact` | libs/job_aipkg/job_aipkg_consistency.cpp:34-73 | ceil(log2 n) is the least exponent whose power of two reaches n |
| `Consistency.AcceptedLength` | libs/job_aipkg/job_aipkg_consistency.cpp:11-75 | acceptance implies 1 <= oldSize <= newSize, an empty proof and equal roots between equal sizes, and exactly the node count otherwise, unless both roots are the zero hash |
| `Consistency.SubproofRebuilds` | libs/job_aipkg/job_aipkg_consistency.cpp:22-68 | SUBPROOF of section 2.1.2 of RFC 6962 rebuilds both subtree roots |
| `Consistency.Completeness` | libs/job_aipkg/job_aipkg_consistency.cpp:11-75 | PROOF(m, D) is accepted between the roots of the first m and of all entries, for all 1 <= m <= n |
| `Consistency.Soundness` | libs/job_aipkg/job_aipkg_consistency.cpp:26-75 | a proof accepted against a non-zero root of D is PROOF(m, D), and for checked size pairs the old root is the root of the prefix, or a collision is extracted |
| `Consistency.VerdictIgnoresOldRoot` | libs/job_aipkg/job_aipkg_consistency.cpp:52 | for unchecked size pairs the verdict is the same for all old roots |
| `Consistency.OldRootFixedExactly` | libs/job_aipkg/job_aipkg_consistency.cpp:42-55 | a wrong old root is accepted with the RFC proof if and only if the size pair is unchecked, up to an extracted collision |
| `Consistency.ThreeToFiveAcceptsAnyOldRoot` | libs/job_aipkg/job_aipkg_consistency.cpp:52 | growing from 3 to 5 leaves, every old root is accepted |
| `TrustState.JobAiPkgTrustState.BootstrapWith` | libs/job_aipkg/job_aipkg_trust_state.cpp:7-15 | succeeds exactly when nothing is trusted yet, and then the whole trusted head is the given one; refusal changes nothing |
| `TrustState.JobAiPkgTrustState.Advance` | libs/job_aipkg/job_aipkg_trust_state.cpp:17-38 | succeeds exactly when a head is trusted and the proof is accepted, and then the whole trusted head is the candidate; refusal changes nothing |
| `TrustState.RunMonotone` | libs/job_aipkg/job_aipkg_trust_state.cpp:7-38 | between any two moments of any run the trusted size does not decrease, and an equal size means an equal root |
| `TrustState.BootstrapOnce` | libs/job_aipkg/job_aipkg_trust_state.cpp:9-10 | bootstrap succeeds at most once in a run |
| `TrustState.NothingWithoutBootstrap` | libs/job_aipkg/job_aipkg_trust_state.cpp:19-20 | without a bootstrap call no run trusts anything |
| `TrustState.BootstrapTrusted` | libs/job_aipkg/job_aipkg_trust_state.cpp:7-38 | in every run the first bootstrap call succeeds, and its whole head is the trusted one until the next accepted advance |
| `TrustState.CandidateTrusted` | libs/job_aipkg/job_aipkg_trust_state.cpp:17-38 | in every run the whole candidate of an accepted advance is the trusted head until the next one |
| `TrustState.HonestTrustedHead` | libs/job_aipkg/job_aipkg_trust_state.cpp:17-38 | in a run fed from one append-only log the trusted root is always the root of the trusted prefix |
| `TrustState.HonestRun` | libs/job_aipkg/job_aipkg_trust_state.cpp:17-38 | in such a run an advance succeeds if and only if there is a trusted head and the size does not shrink |
| `TrustState.RunIsHistory` | libs/job_aipkg/job_aipkg_trust_state.cpp:17-38 | the heads a run passes through are linked by accepted proofs and end in the trusted head |
| `TrustState.HistoryIsOneLog` | libs/job_aipkg/job_aipkg_trust_state.cpp:27-37 | if the newest head of an accepted history is a head of a log, so is every earlier one, or a collision is extracted (checked size pairs) |
| `MemRanges.ValidAlignmentIsPow2` | libs/job_io/job_mem_range.h:161-164 | the bit test accepts exactly the powers of two |
| `MemRanges.AlignUpExact` | libs/job_io/job_range_pool.cpp:216-227 | the mask rounding with its overflow guard gives the least aligned address, and SIZE_MAX exactly when none exists below it |
| `MemRanges.AlignedInwardExact` | libs/job_io/job_mem_range.h:134-149 | inward rounding keeps exactly the aligned blocks inside the range |
| `MemRanges.AlignedOutwardExact` | libs/job_io/job_mem_range.h:151-159 | outward rounding is the least aligned range around the range |
| `RangeSets.MergedHas` | libs/job_io/job_mem_range.h:116-123 | merging mergeable ranges gives the union of their bytes |
| `RangeSets.CanonicalUnique` | libs/job_io/job_range_pool.cpp:330-360 | a set of bytes has only one sorted, non-empty, non-touching range list |
| `Tiling.FreeListCanonical` | libs/job_io/job_range_pool.cpp:287-360 | the free list is determined by the live blocks |
| `Tiling.NothingLive` | libs/job_io/job_range_pool.cpp:321-360 | when everything is freed, in whatever order, one whole range is left |
| `Tiling.AllocTiles` | libs/job_io/job_range_pool.cpp:287-319 | cutting a block out of a free range keeps free list and live blocks a tiling |
| `Tiling.FreeTiles` | libs/job_io/job_range_pool.cpp:321-360 | giving a block's bytes back keeps them a tiling |
| `Tiling.AllocThenFree` | libs/job_io/job_range_pool.cpp:287-360 | alloc then free restores the free list exactly |
| `Tiling.Conservation` | libs/job_io/job_range_pool.cpp:150-166 | free bytes and live bytes add up to the mapping |
| `RangePool.FirstRangeIsFirstFit` | libs/job_io/job_range_pool.cpp:229-285 | the first free range with an aligned fit holds the least fitting offset of all |
| `RangePool.FirstFitUnique` | libs/job_io/job_range_pool.cpp:71-102 | the allocated place is determined by the live blocks |
| `RangePool.JobRangePool.constructor` | libs/job_io/job_range_pool.cpp:438-460 | a mapping is taken over if and only if it is one whole range; then all of it is free |
| `RangePool.JobRangePool.Alloc` | libs/job_io/job_range_pool.cpp:71-102 | returns the least aligned offset with room and records it; null exactly on a bad request or when no offset fits, changing nothing |
| `RangePool.JobRangePool.Free` | libs/job_io/job_range_pool.cpp:104-132 | succeeds exactly on the start of a live block and removes that block; otherwise changes nothing |
| `RangePool.JobRangePool.Clear` | libs/job_io/job_range_pool.cpp:180-202 | leaves nothing live and one whole free range |
| `RangePool.JobRangePool.Available` | libs/job_io/job_range_pool.cpp:156-166 | the sum of the free sizes, which with the allocated bytes makes the mapping |
| `RangePool.JobRangePool.FindFreeRange` | libs/job_io/job_range_pool.cpp:229-285 | finds the first fit, or there is none at all |
| `RangePool.JobRangePool.PlaceIn` | libs/job_io/job_range_pool.cpp:244-281 | within one range: the least aligned offset that fits, or none fits; the guards reject nothing else |
| `RangePool.JobRangePool.SplitRange` | libs/job_io/job_range_pool.cpp:287-319 | the free list becomes the old one with the block cut out of that range |
| `RangePool.JobRangePool.InsertFreeRange` | libs/job_io/job_range_pool.cpp:321-328 | a canonical list of the old bytes and the new range |
| `RangePool.JobRangePool.CoalesceRanges` | libs/job_io/job_range_pool.cpp:330-360 | the in-place sweep gives the canonical list of the same bytes |
| `RangePool.JobRangePool.OffsetOf` | libs/job_io/job_range_pool.cpp:362-382 | the offset of exactly the addresses inside the mapping |
| `RangePool.JobRangePool.OwnsLocked` | libs/job_io/job_range_pool.cpp:475-499 | owned if and only if inside the mapping |
| `RangePool.AllocFreeRestores` | libs/job_io/job_range_pool.cpp:71-132 | calling alloc and then free leaves free list and live blocks as they were |
| `PageSpans.AdjacentByPages` | libs/job_io/job_mem_span.h:203-213 | for spans scaled from their extent, byte and page adjacency agree |
| `PagePool.BuildPages` | libs/job_io/job_page_pool.cpp:775-822 | page i has index i and byte range i scaled by the page size and shifted by the extent |
| `PagePool.RoundedToPage` | libs/job_io/job_page_pool.cpp:459-460 | for every power-of-two alignment, also above the page size, the page-boundary test never rejects |
| `PagePool.PlaceIn` | libs/job_io/job_page_pool.cpp:420-477 | within one span: the first aligned page with enough pages behind it, or there is none; the guards reject nothing else |
| `PagePool.PagesForSizeIsLeast` | libs/job_io/job_page_pool.cpp:365-371 | the least page count that holds the size |
| `PagePool.ValidPageGeometryExact` | libs/job_io/job_page_pool.cpp:373-400 | the tests accept exactly the power-of-two page sizes that divide the extent's size and address |
| `PagePool.FirstSpanIsFirstFit` | libs/job_io/job_page_pool.cpp:402-481 | the first span with an aligned fit holds the first fitting page of all |
| `PagePool.JobPagePool.constructor` | libs/job_io/job_page_pool.cpp:752-822 | takes the extent over if and only if its page geometry is valid; then all pages are free |
| `PagePool.JobPagePool.Alloc` | libs/job_io/job_page_pool.cpp:92-137 | takes the first aligned run of the least page count; null exactly on a bad request or when no run fits, changing nothing |
| `PagePool.JobPagePool.AllocPages` | libs/job_io/job_page_pool.cpp:139-182 | takes the first run of that many pages; null exactly when there is none, changing nothing |
| `PagePool.JobPagePool.Free` | libs/job_io/job_page_pool.cpp:184-226 | succeeds exactly on the address of a live run's first page and removes that run; otherwise changes nothing |
| `PagePool.JobPagePool.Clear` | libs/job_io/job_page_pool.cpp:274-293 | leaves nothing live and one span of all pages |
| `PagePool.JobPagePool.AvailablePages` | libs/job_io/job_page_pool.cpp:313-323 | free pages and allocated pages add up to all pages |
| `PagePool.JobPagePool.FindFreeSpan` | libs/job_io/job_page_pool.cpp:402-481 | finds the first fitting page run, or there is none at all |
| `PagePool.JobPagePool.SplitSpan` | libs/job_io/job_page_pool.cpp:483-536 | the page ranges become the old ones with the run cut out; every span's bytes stay its pages scaled |
| `PagePool.JobPagePool.MakeSpan` | libs/job_io/job_page_pool.cpp:584-609 | byte range and page range of the new span agree; it gets the next id |
| `PagePool.JobPagePool.CoalesceSpans` | libs/job_io/job_page_pool.cpp:544-582 | the in-place sweep, which merges adjacent spans only, gives the canonical list of the same pages |
| `SizePool.SpanLayout` | libs/job_io/job_mem_size.h:129-153 | objects and waste fill the span, at least one object fits, and the waste is smaller than an object |
| `SizePool.BoundaryIsObject` | libs/job_io/job_size_pool.cpp:346-377 | the distance and remainder tests accept exactly the object starts of a span |
| `SizePool.JobSizePool.ValidRequestExact` | libs/job_io/job_size_pool.cpp:297-315 | a request is valid exactly when it fits an object and its alignment is a power of two not above that of the class |
| `SizePool.JobSizePool.constructor` | libs/job_io/job_size_pool.cpp:432-454 | attaches if and only if the page pool is ready, has the class's page size, and the alignment divides it |
| `SizePool.JobSizePool.Alloc` | libs/job_io/job_size_pool.cpp:69-104 | pops the last free object, or the last of one newly taken span, and records it; it is aligned and the whole system of pools stays valid; the page pool is untouched while free objects remain and otherwise gains exactly that span's run; null only on a bad request, from a pool that could not attach, or when nothing is free and no span fits, changing nothing |
| `SizePool.JobSizePool.Grow` | libs/job_io/job_size_pool.cpp:237-278 | the page pool gains exactly one run, at a page where none was live, the pool that span and exactly its objects; fails only when no run of pages fits |
| `SizePool.JobSizePool.BuildFreeList` | libs/job_io/job_size_pool.cpp:280-295 | appends the object addresses of the span in order |
| `SizePool.JobSizePool.Free` | libs/job_io/job_size_pool.cpp:111-135 | succeeds exactly on a live object, so double and interior frees change nothing; the other pools stay valid |
| `SizePool.JobSizePool.Clear` | libs/job_io/job_size_pool.cpp:173-190 | the page pool loses exactly this pool's page runs, and the other pools stay valid |
| `SizePool.JobSizePool.OwnsLocked` | libs/job_io/job_size_pool.cpp:317-344 | owned if and only if inside one of the pool's spans |
| `SizePool.JobSizePool.IsObjectBoundaryLocked` | libs/job_io/job_size_pool.cpp:346-377 | true exactly for the object starts of all spans |
| `SizePool.LiveObjectsDisjoint` | libs/job_io/job_size_pool.cpp:69-104 | any two live objects of any two pools sharing a page pool are disjoint |
| `SizePool.LiveObjectPlaced` | libs/job_io/job_size_pool.cpp:69-104 | every live object lies inside one span of its own pool and is aligned |
| `MemLock.JobMemLock.AlignedRangeOnPages` | libs/job_io/job_mem_lock.cpp:209-219 | the clipped outward rounding is the least page-bounded range around the request |
| `MemLock.JobMemLock.Lock` | libs/job_io/job_mem_lock.cpp:99-121 | adds exactly the bytes of the rounded range; succeeds exactly when the system does or they are all locked; failure changes nothing |
| `MemLock.JobMemLock.Unlock` | libs/job_io/job_mem_lock.cpp:131-161 | removes exactly those bytes; succeeds exactly when the system does or none is locked; failure changes nothing |
| `MemLock.JobMemLock.AddLockedRange` | libs/job_io/job_mem_lock.cpp:221-251 | the erase and insert loop keeps the list canonical and adds exactly the range |
| `MemLock.JobMemLock.RemoveLockedRange` | libs/job_io/job_mem_lock.cpp:253-281 | keeps the list canonical and removes exactly the range |
| `MemLock.JobMemLock.IsLocked` | libs/job_io/job_mem_lock.cpp:181-192 | true if and only if the range is in bounds and every byte of it is locked |
| `MemLock.JobMemLock.Release` | libs/job_io/job_mem_lock.cpp:283-309 | keeps exactly the ranges the system refuses to unlock |
| `MemLock.Subtracted` | libs/job_io/job_mem_lock.cpp:253-281 | the rebuilt vector is canonical and covers exactly the bytes outside the range |
| `Mmap.NormalizeRanges` | libs/job_io/job_mmap.cpp:674-702 | the canonical list of the same bytes |
| `Mmap.JobMmap.MappedRange` | libs/job_io/job_mmap.cpp:627-638 | true if and only if the range is in bounds and every byte of it is mapped |
| `Mmap.JobMmap.LockStaysMapped` | libs/job_io/job_mmap.cpp:475-481 | outward rounding of a mapped range never leaves the mapped bytes |
| `Mmap.JobMmap.Lock` | libs/job_io/job_mmap.cpp:475-481 | locks only mapped bytes, exactly the rounded range; fails only if the range is not mapped or the system refuses |
| `Mmap.JobMmap.LockAll` | libs/job_io/job_mmap.cpp:458-473 | succeeds exactly on a complete mapping the system locks, and then everything is locked |
| `Mmap.JobMmap.Unlock` | libs/job_io/job_mmap.cpp:488-491 | unlocks exactly the rounded range; succeeds exactly when the range is in bounds and the system unlocks it or none of it is locked |
| `Mmap.JobMmap.Unmap` | libs/job_io/job_mmap.cpp:291-320 | removes exactly the whole pages inside the range from the mapped and the locked bytes; each failure says what was already unlocked |
| `Mmap.JobMmap.SubtractMapped` | libs/job_io/job_mmap.cpp:640-702 | removes exactly the range from the mapped bytes, keeping boundaries on pages |
| `Mmap.JobMmap.Grow` | libs/job_io/job_mmap.cpp:341-395 | grows exactly a complete unlocked mapping when the system does; otherwise changes nothing |
| `Mmap.JobMmap.IsLocked` | libs/job_io/job_mem_lock.cpp:181-192 | true if and only if every byte of the range is locked, and then every byte is mapped |
| `SplitMix64.MixBijective` | libs/job_core/split_mix64.h:26-32 | the finalizer has an inverse on 64-bit words, in both directions |
| `SplitMix64.MixConstants` | libs/job_core/split_mix64.h:26-32 | the output function with its shifts and multipliers written out |
| `SplitMix64.EveryWordDrawn` | libs/job_core/split_mix64.h:26-32 | from every seed every word is drawn within 2^64 draws |
| `SplitMix64.DrawInjective` | libs/job_core/split_mix64.h:26-32 | no word is drawn twice within 2^64 draws |
| `SplitMix64.ThresholdIsRemainder` | libs/job_core/split_mix64.h:76 | the wrapped expression is 2^64 mod s |
| `SplitMix64.EarlyAcceptAgrees` | libs/job_core/split_mix64.h:75-77 | a draw accepted early passes the full test |
| `SplitMix64.LemireMeaning` | libs/job_core/split_mix64.h:69-84 | acceptance and output in plain arithmetic: with x·s = r·2^64 + l, accepted means l >= 2^64 mod s, and the output is r |
| `SplitMix64.LemireUniform` | libs/job_core/split_mix64.h:69-84 | for every s every output in [0, s) has exactly floor(2^64 / s) accepted words |
| `SplitMix64.PortableUniform` | libs/job_core/split_mix64.h:85-96 | the modulo branch has the same counts |
| `SplitMix64.PeriodUniform` | libs/job_core/split_mix64.h:64-97 | over one period from any seed every output occurs exactly floor(2^64 / s) times in either branch |
| `SplitMix64.AcceptedWithinPeriod` | libs/job_core/split_mix64.h:75-95 | for every seed and bound an accepted draw appears within 2^64 draws |
| `SplitMix64.Generator.Next` | libs/job_core/split_mix64.h:26-32 | advances the state by the odd increment and returns its mix |
| `SplitMix64.Generator.RangeIndex` | libs/job_core/split_mix64.h:64-84 | terminates, and returns the high word of the first accepted draw, which is below the bound |
| `SplitMix64.Generator.RangeIndexPortable` | libs/job_core/split_mix64.h:85-96 | terminates, and returns the remainder of the first accepted draw |
| `SplitMix64.Generator.Range` | libs/job_core/split_mix64.h:100-112 | result in [min, max], from the first accepted draw; the full range and the reversed range as documented |
| `Crc32.GenerateTable` | libs/job_core/crc32.h:8-24 | entry i is eight division steps of i |
| `Crc32.TableUpdate` | libs/job_core/crc32.h:33-34 | one table update is eight bit steps |
| `Crc32.Compute` | libs/job_core/crc32.h:29-37 | the table form returns the bit-serial checksum |
| `Crc32.CrcIsDivision` | libs/job_core/crc32.h:29-37 | the register is that of the bit-by-bit division of the whole message |
| `Crc32.ReflectedPolynomial` | libs/job_core/crc32.h:11 | the source's constant is the generator polynomial of RFC 1952 without its leading term, reflected |
| `Crc32.DivisionEquation` | libs/job_core/crc32.h:29-37 | in GF(2)[x], for every starting register and bit string: message times x^32 plus start times x^length equals quotient times generator plus final register |
| `Crc32.CrcIsRemainder` | libs/job_core/crc32.h:29-37 | the checksum, with its complement undone, is a remainder of degree below 32 of the conditioned message by the generator |
| `Crc32.CrcIsComplementedRemainder` | libs/job_core/crc32.h:29-37 | the complemented bits of the checksum are the remainder, by the generator, of the message bits followed by 32 zero bits with the first 32 bits flipped |
| `Crc32.AllBitsAt` | libs/job_core/crc32.h:32-33 | message bits are taken byte by byte, each from its lowest bit up |
| `Crc32.RemainderUnique` | libs/job_core/crc32.h:29-37 | quotient and remainder by the generator are unique |
| `Crc32.StepLinear` | libs/job_core/crc32.h:15-19 | the division step is linear over exclusive or |
| `Crc32.StepInjective` | libs/job_core/crc32.h:15-19 | the division step is injective on 32-bit registers |
| `Crc32.BurstDetected` | libs/job_core/crc32.h:29-37 | different strings of equal length whose bits differ only within 32 consecutive positions, at any bit offset, have different checksums |
| `Crc32.OneByteDetected` | libs/job_core/crc32.h:29-37 | changing one byte always changes the checksum |
| `SharedRing.CopyCellIsCell` | libs/job_io/job_shared_memory.cpp:334-348 | contiguous or split, byte i of a copy touches the cell of position + i |
| `SharedRing.StepKeepsInv` | libs/job_io/job_shared_memory.cpp:306-404 | every step of writer or reader keeps the ring invariant |
| `SharedRing.RingIsFifo` | libs/job_io/job_shared_memory.cpp:280-404 | in every interleaving delivered bytes are a prefix of accepted bytes, and readPos <= writePos <= readPos + capacity |
| `SharedRing.CopiesNeverMeet` | libs/job_io/job_shared_memory.cpp:334-394 | in every interleaving no cell is touched by both copies in progress |
| `SharedRing.CopyStepsProceed` | libs/job_io/job_shared_memory.cpp:334-394 | in every interleaving every copy stays inside the ring |
| `SharedRing.PendingIsUnread` | libs/job_io/job_shared_memory.cpp:280-304 | in every interleaving the cells between the positions hold the accepted bytes not yet delivered |
| `SharedRing.WriteGoesThrough` | libs/job_io/job_shared_memory.cpp:373-397 | whatever the reader is doing, a write that fits is accepted whole, and one that does not changes nothing |
| `SharedRing.ReadGoesThrough` | libs/job_io/job_shared_memory.cpp:314-351 | whatever the writer is doing, a read with something pending delivers the next min(maxlen, available) accepted bytes |
| `SharedRing.NothingToRead` | libs/job_io/job_shared_memory.cpp:314-330 | with nothing pending the reader's load changes nothing |
| `SharedRing.JobSharedMemory.constructor` | libs/job_io/job_shared_memory_header.h:47-57 | a new ring is empty |
| `SharedRing.JobSharedMemory.Write` | libs/job_io/job_shared_memory.cpp:356-404 | appends all the bytes, or none when they do not fit |
| `SharedRing.JobSharedMemory.Read` | libs/job_io/job_shared_memory.cpp:306-354 | delivers and removes the oldest min(maxlen, available) bytes; with nothing pending it changes nothing and fails, with EAGAIN or a failed wait |
| `Signal.AdvanceKeepsShared` | libs/job_core/job_signal.h:143-295 | each atomic operation under the mutex keeps list, counters and connected flags in step |
| `Signal.StepCompletes` | libs/job_core/job_signal.h:143-295 | while the mutex is held only the holder changes list, counters and flags, and they end as the completed operation |
| `Signal.ConnectEffect` | libs/job_core/job_signal.h:143-186 | connect appends one entry with the next id exactly when the signal lives and, if unique, both identities are set and no entry has the same two; otherwise nothing changes |
| `Signal.DisconnectEffect` | libs/job_core/job_signal.h:194-229 | disconnect removes exactly the entry with the id and keeps the others in order |
| `Signal.DisconnectAbsent` | libs/job_core/job_signal.h:198-208 | disconnecting an id that is not published changes nothing |
| `Signal.DisconnectAllEffect` | libs/job_core/job_signal.h:231-251 | disconnectAll empties the list of a living signal |
| `Signal.InvalidateEffect` | libs/job_core/job_signal.h:279-295 | destroying the signal empties the list and ends its life |
| `Signal.StepKeepsInv` | libs/job_core/job_signal.h:100-295 | every step of every thread keeps the invariant |
| `Signal.CountersCoverList` | libs/job_core/job_signal.h:179-183 | in every interleaving singleShotCount covers the published list; with the mutex free both counters and the connected flags are exact |
| `Signal.PublishedEntriesDiffer` | libs/job_core/job_signal.h:155-177 | in every interleaving published ids are distinct and a Unique entry follows no entry of its receiver and slot |
| `Signal.ClaimedCallsDiffer` | libs/job_core/job_signal.h:253-277 | in every interleaving no connection is called twice through the claim path |
| `Signal.ClaimedCallUnpublished` | libs/job_core/job_signal.h:272-275 | a connection called through the claim path is off the published list and never returns to it |
| `Signal.DisconnectRemoves` | libs/job_core/job_signal.h:194-229 | when a disconnect releases the mutex its entry is not published |
| `SignalCalls.SingleShotsCalledOnce` | libs/job_core/job_signal.h:100-120 | if no counter load is stale, every single-shot call by any thread is claimed and none is repeated |
| `SignalCalls.OrdinarySoFar` | libs/job_core/job_signal.h:111-114 | in every interleaving the ordinary slots an emission has called, followed by those ahead of it, are those of its snapshot, each once and in order |
| `SignalCalls.OrdinaryDelivered` | libs/job_core/job_signal.h:110-119 | when an emission returns, on either path and in every interleaving, it has called exactly the callable ordinary slots of its snapshot, each once and in list order |
| `SignalCalls.EmissionStarts` | libs/job_core/job_signal.h:102-108 | an emission that is not blocked, begun with something connected and the mutex free, takes its snapshot from the published list |
| `SignalCalls.EmissionSkipped` | libs/job_core/job_signal.h:102-106 | a blocked emission, or one that finds nothing connected, returns without calling anything |
| `SignalCalls.StaleLoadFollowsRemoval` | libs/job_core/job_signal.h:108-117 | a load is stale only after every single-shot entry has left the published list |
| `SignalCalls.StaleLoadCalls` | libs/job_core/job_signal.h:110-117 | a stale load leads to an unclaimed single-shot call if its thread goes on |
| `SignalCalls.GuardedNeverCalls` | libs/job_core/job_signal.h:253-277 | whatever all threads do, an emission on the claim path never calls an entry that is claimed already |
| `SignalCalls.WaitingCanCall` | libs/job_core/job_signal.h:253-277 | an emission on the claim path can reach and call every unclaimed single-shot entry ahead, whoever holds the mutex now |
| `SignalCalls.CallableExactly` | libs/job_core/job_signal.h:108-119 | in every reachable state, an emission before its counter load can call a callable single-shot entry of its snapshot, called before or not, if and only if the load finds zero or the entry is unclaimed |
| `SignalCalls.RepeatedExactly` | libs/job_core/job_signal.h:108-119 | an emission before its counter load, with a callable single-shot entry already called through the claim path, can call it again if and only if the load finds zero; then it does so by itself |
| `SignalCalls.SoloNoStaleLoad` | libs/job_core/job_signal.h:100-120 | on one thread, however emissions nest, no load is stale |
| `SignalCalls.SingleShotCalledTwice` | libs/job_core/job_signal.h:108-117 | a run of two threads in which a single-shot slot is called through the claim path and then without a claim |
| `SignalCalls.ClaimedAfterUnclaimed` | libs/job_core/job_signal.h:108-119 | a run of three threads in which a single-shot slot is called without a claim and then, with a non-zero counter, through the claim path |
| `IniList.AppendEscaped` | libs/job_io/job_ini.h:728-768 | appends the escaped text |
| `IniList.SerializeList` | libs/job_io/job_ini.h:694-708 | appends the printed entry line |
| `IniList.ToIni` | libs/job_io/job_ini.h:115-137 | the printed document: group header, then the entries in order |
| `IniList.TrimView` | libs/job_io/job_ini.h:339-354 | returns the trimmed text |
| `IniList.TrimFacts` | libs/job_io/job_ini.h:339-354 | trimming leaves no blank at either end, invents nothing and is the identity on trimmed text |
| `IniList.NextLineView` | libs/job_io/job_ini.h:297-319 | there is a line exactly before the end; it is the next line without its line end, and the cursor moves behind it |
| `IniList.DeserializeList` | libs/job_io/job_ini.h:558-631 | returns the parse of the value |
| `IniList.FromIni` | libs/job_io/job_ini.h:140-184 | returns the entries of the document in order, or nothing if a line is malformed |
| `IniList.EntryLine` | libs/job_io/job_ini.h:376-389 | a line printed with a well-formed key is an entry line with that key and value |
| `IniList.SkippedLine` | libs/job_io/job_ini.h:326-329 | a line that is blank, or starts with # or ; after any blanks, is skipped |
| `IniList.HandWrittenEntry` | libs/job_io/job_ini.h:376-389 | an entry is read with any blanks around its key and its value |
| `IniList.HandWrittenGroup` | libs/job_io/job_ini.h:356-374 | a group line is read with any blanks around and inside the brackets |
| `IniList.MalformedEntry` | libs/job_io/job_ini.h:376-389 | a line without =, or with nothing before it, is an error |
| `IniList.MalformedGroup` | libs/job_io/job_ini.h:356-374 | a line that starts with [ but is no well-formed group is an error |
| `IniList.ReturnIgnored` | libs/job_io/job_ini.h:315-316 | a line ending in a carriage return and line feed reads like one ending in a line feed |
| `IniList.LastLineEndOptional` | libs/job_io/job_ini.h:306-308 | the last line needs no line end |
| `IniList.UnknownEscapeKept` | libs/job_io/job_ini.h:597-600 | an unknown escape is kept with its backslash |
| `IniList.LastSeparatorOptional` | libs/job_io/job_ini.h:627-628 | a last item that is not empty needs no separator behind it |
| `IniList.LastBackslash` | libs/job_io/job_ini.h:624-628 | a backslash at the end is kept, except directly behind a separator, where it is dropped |
| `IniList.EscapeFormat` | libs/job_io/job_ini.h:728-768 | the escape of every character, written out |
| `IniList.EntryFormat` | libs/job_io/job_ini.h:694-708 | the entry line, written out |
| `IniList.DocumentFormat` | libs/job_io/job_ini.h:119-124 | the group header and the order of the entries, written out |
| `IniList.ParsePrinted` | libs/job_io/job_ini.h:558-631 | from any parser state between items, the printed items are read back, whatever characters they hold |
| `IniList.ListRoundTrip` | libs/job_io/job_ini.h:558-708 | a list survives printing and parsing if and only if it is not empty |
| `IniList.ReprintStable` | libs/job_io/job_ini.h:558-708 | printing what was parsed from any text and parsing again changes nothing |
| `IniList.DocumentReadsBack` | libs/job_io/job_ini.h:115-184 | a printed document with well-formed keys reads back entry by entry, an empty list as one empty string |
| `IniList.ReadGivesReadable` | libs/job_io/job_ini.h:140-184 | whatever the document, every entry read has a well-formed key and group and a non-empty list |
| `IniList.DocumentRoundTrip` | libs/job_io/job_ini.h:115-184 | a non-empty document reads back as printed if and only if group and keys are well formed and no list is empty |
| `IniList.EmptyListReadsAsOneString` | libs/job_io/job_ini.h:694-708 | an empty list reads back as a list of one empty string |

## Left out

- Consistency.Verify: sizes above 2^63 that reach the recursion are outside its precondition, because the split-point loop never ends there.
- TrustState.JobAiPkgTrustState.Advance: the same sizes are outside its precondition.
- PowersOfTwo.LargestPowerOfTwoLessThan: requires n <= 2^63 for the same reason.
- RangePool.JobRangePool.constructor: takes base + length below 2^64, and the mapping as fixed while the pool lives.
- PagePool.JobPagePool.MakeSpan: span ids are unbounded, so their wrap-around after 2^64 spans is not modelled.
- SharedRing.JobSharedMemory.Read: positions are taken to stay below 2^64; a wait that succeeds is the state machine's load step tried again, and the checks for attachment and mode are not modelled.
- Signal.AdvanceKeepsShared: connection ids are unbounded, so their wrap-around after 2^64 connections is not modelled.
- Mmap.JobMmap.Grow: a successful remap is taken to leave base and length below 2^64.
- MemLock.JobMemLock.Lock: a lock object without an address or size is not modelled.
- Mmap.JobMmap.Unmap: only the range form; the full `unmap()` and its failure paths are not modelled.
- IniList.ToIni: prints the string-list members; members of other types are not modelled.
- IniList.FromIni: delivers the entries; dispatch to reflected members and the entries assigned before a malformed line are not modelled.
- Operating-system calls (mmap, mremap, mlock, shared memory, semaphores): their success or failure is a parameter.
- Weak memory orders: the state machines are sequentially consistent.
- Mutexes, exceptions and move operations of the pools: each public method is one step.
- `std::sort` is modelled by a concrete sort; only that it sorts and permutes is used.
- Changing the mapping under a live pool, using `memLock()` directly, or clearing a page pool that backs size pools.
- IniList.AppendEscaped: text is a sequence of characters; the bytes of a multi-byte character are passed through like any others.
- INI numbers, enums, plain and localized strings, and `localizedKeyView`.
- Floating-point draws of SplitMix64.
- Metrics of the pools, prefetching and NUMA hints.
- Signing, certificates, package chains, manifests and the revocation index of `job_aipkg`.
- `JobArenaPool`, the packed stream readers, XDG catalogs and container wrappers: easier members.
- ANSI screen code, `JobProcess`, SipHash and the GGML wrappers.
