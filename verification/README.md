# A verified model of the elf-loader heap and dynamic loader

elf-loader is a small run-time loader for x86-64 ELF programs with its own
`malloc`. This project models its two cores in Dafny and proves what they
promise.

**The heap** (`elf-loader/malloc`). Free memory is a sorted, doubly linked list
of areas; each descriptor (size, next, prev) is stored at the end of the very
memory it describes. The model has three layers, each refining the next:

1. `Links`, `Heap`: a word memory in which the descriptors live. The methods of
   class `Heap` are the functions of `heap.h`, `heap_free.c`, `heap_alloc.c`,
   `heap_alloc_at.c` and `heap_debug.c`, writing single words.
2. `FreeList`: the list as a sequence of address intervals, with the set of free
   bytes as its meaning. Two well-formed lists with the same free bytes are
   equal, which is what makes the order of calls invisible.
3. `Blocks`, `Allocation`, `Runs`: the whole allocator as a state machine over
   free areas, live blocks and mapped bytes, with one invariant (`Inv`: free
   areas and live blocks are disjoint and together are exactly the static area
   plus all mapped bytes) for every run of `malloc`, `free`, `realloc` and
   `memalign`.

Class `Allocator` carries the operations out in memory: descriptors, block
headers and user data share it, and no operation changes a word of a live block
it was not given. `Program` extends this to whole executions, the client's own
stores included. `Returnable` says which live blocks can be freed at any later
time, `MemalignLimit` for which arguments `memalign` always returns one, and
`Outcomes` what each call does in a caller's words: when it succeeds, where its
block lies, how large it is, and what goes back to the system. `Layout` holds the constants (granularity 8,
descriptor 24, smallest free area 56, header 8) and the rounding macros; the
page size is any power of two from 4096 up.

**The loader** (`elf-loader/rtld`). `Segments` maps PT_LOAD segments by pages
and proves the byte-wise image; `Dependencies` and `BreadthFirstOrder` load
libraries and characterise the order; `ElfHash` and `SymbolLookup` compare the
hash function and the hash tables with the "Hash Table" section of chapter 5 of
the System V ABI and with a linear scan; `Relocation` covers relocation in
reverse load order, compared with section 4.4.1 of the AMD64 psABI, and
`LazyBinding` the calls that follow, from what relocation leaves in memory;
`Format`, `Numerals` and `Rendering` cover `dvsprintf`. `Basics` holds definitions that
several modules use.

Where the code and its comments disagree, the model follows the code:

- `__heap_alloc_at` leaves its loop at the first area that starts at or below
  the wanted address, so on an ascending list only the first area can ever be
  used. `realloc` therefore grows in place only into the first free area.
- The branch of `__heap_free` that merges with the predecessor is never taken:
  the search has already stopped at an area that ends at the freed block.
- `__heap_is_empty (heap)` in `free` looks at the address of the list head, so
  the reserve of two pages is never made. `Blocks.GiveBackKeeps` covers both
  outcomes of the test.
- `memalign` with an alignment of 8 or more can return a block too small to
  hold a descriptor when at most 8 bytes are asked for. It can still be freed
  while it borders on a free area, but not after every run; `MemalignLimit`
  proves that these arguments, up to the largest alignment an address space can
  satisfy, are exactly the unsafe ones.
- For ET_DYN objects the first segment is always read from the start of the
  file.
- R_X86_64_64 ignores the addend, and all but COPY add to the word in place.
- `%u` divides a signed number.

## Model

| member | source | states |
|---|---|---|
| `FreeList.Canonical` | elf-loader/malloc/heap_debug.c:94-144 | Two lists that meet the conditions of `__heap_check` (aligned, ascending, strict gaps) and have the same free bytes are the same list. |
| `FreeList.AreaIsMaximal` | elf-loader/malloc/heap_debug.c:124-142 | In a well-formed list the bytes just before and just after an area are not free: there are no unmerged neighbours. |
| `FreeList.InsertIsUnion` | elf-loader/malloc/heap_free.c:35-84 | Freeing [m, m+n) keeps the list well-formed and makes exactly those bytes free in addition, in all coalescing cases. |
| `FreeList.InsertKeepsOthers` | elf-loader/malloc/heap_free.c:35-84 | An area that does not border on the freed block stays in the list unchanged. |
| `FreeList.InsertReturnsMaximal` | elf-loader/malloc/heap_free.c:39-88 | The area that free reports contains the block and is bounded by bytes that are not free. |
| `FreeList.InsertAllIsUnion` | elf-loader/malloc/heap_free.c:21-89 | Freeing any sequence of disjoint blocks makes exactly their bytes free. |
| `FreeList.InsertOrderIrrelevant` | elf-loader/malloc/heap_free.c:21-89 | Freeing the same disjoint blocks in any two orders gives the same list. |
| `FreeList.TakeIsDifference` | elf-loader/malloc/heap.h:194-213 | Allocating from an area removes exactly the bytes handed out, which exceed the request by less than the smallest free area, and keeps the list well-formed. |
| `FreeList.FirstFitIsLowest` | elf-loader/malloc/heap_alloc.c:38-46 | The search finds the lowest-addressed area that is large enough whenever there is one. |
| `FreeList.TakeThenInsertRestores` | elf-loader/malloc/heap_alloc.c:23-51 | Allocating from any area and freeing the same bytes restores the identical list. |
| `Links.ReplaceLinked` | elf-loader/malloc/heap.h:141-155 | Writing four link words turns a doubly linked list into the one where a run of nodes is replaced by one node, even when the new node overlaps the old ones. |
| `Links.RemoveLinked` | elf-loader/malloc/heap.h:126-135 | Writing the two neighbour links unlinks a node, in both directions. |
| `Heap.Heap.Delete` | elf-loader/malloc/heap.h:126-135 | Unlinks one descriptor; all other links, forwards and backwards, are kept, and only neighbour link words are written. |
| `Heap.Heap.LinkFreeArea` | elf-loader/malloc/heap.h:141-155 | Links a descriptor between two neighbours in place of the nodes between them, writing only its links and the neighbour links. |
| `Heap.Heap.LinkFreeAreaAfter` | elf-loader/malloc/heap.h:160-170 | Links an existing descriptor directly behind another, dropping the nodes between. |
| `Heap.Heap.AddFreeArea` | elf-loader/malloc/heap.h:176-189 | Places a descriptor at the end of the new area, with its size, and links it in. |
| `Heap.Heap.Search` | elf-loader/malloc/heap_free.c:35-37 | The search loop stops at the first area that ends at or after the freed block, with its predecessor. |
| `Heap.Heap.Merge` | elf-loader/malloc/heap_free.c:39-81 | With a neighbour to merge with, the descriptor ends up at the end of the union, holding its size; the predecessor branch is unreachable. |
| `Heap.Heap.HeapFree` | elf-loader/malloc/heap_free.c:21-89 | The descriptors in memory represent the list with the block inserted, only free words were written, and the result is the descriptor of the area that holds the block. |
| `Heap.Heap.FreeAreaAlloc` | elf-loader/malloc/heap.h:194-213 | Takes the front of an area, or all of it when less than 56 bytes would remain, and reports the amount. |
| `Heap.Heap.HeapAlloc` | elf-loader/malloc/heap_alloc.c:23-51 | First fit for the adjusted size: which area, how much, and the new list; null, with no word written, only if no area fits. |
| `Heap.Heap.HeapAllocAt` | elf-loader/malloc/heap_alloc_at.c:22-47 | Succeeds exactly when the first area starts at the address and is large enough; otherwise nothing is written. |
| `Heap.Heap.HeapCheck` | elf-loader/malloc/heap_debug.c:94-144 | On any chain of nodes, finds nothing to report if and only if all nodes are aligned, mirrored and strictly separated. |
| `Heap.CheckedIffRepresents` | elf-loader/malloc/heap_debug.c:94-144 | On areas that can hold their descriptors, `__heap_check` passes exactly on the memories that represent a well-formed list. |
| `Heap.RepresentedIsChecked` | elf-loader/malloc/heap_debug.c:94-144 | `__heap_check` passes on every heap in a valid state, hence in every reachable one. |
| `Blocks.GrantKeeps` | elf-loader/malloc/malloc.c:75-76 | Moving the front of an area to a new live block keeps exact tiling and all of the invariant. |
| `Blocks.ReleaseKeeps` | elf-loader/malloc/free.c:47-53 | A live block of at least one descriptor can be freed, and freeing it keeps the invariant. |
| `Blocks.ExtendKeeps` | elf-loader/malloc/malloc.c:119-145 | Pages from mmap can be put into the heap, and the invariant then holds with them as mapped. |
| `Blocks.UnmapRange` | elf-loader/malloc/free.c:230-251 | From six pages up, the range to unmap is page-aligned and at least a page long, and each end left over is absent or at least 56 bytes. |
| `Blocks.FreePagesAreMapped` | elf-loader/malloc/free.c:232-258 | A page all of whose bytes are free came from mmap and is still mapped, even where areas have merged with the static area. |
| `Blocks.GiveBackKeeps` | elf-loader/malloc/free.c:101-258 | Unmapping from an area of eight pages or more removes exactly a non-empty, page-aligned, mapped range from the free bytes and keeps the invariant, whether or not two pages are reserved. |
| `Allocation.BlockLengthSuffices` | elf-loader/malloc/malloc.c:87-90 | Unless the page rounding wraps, the block asked from mmap holds the adjusted request. |
| `Allocation.WrappedLength` | elf-loader/malloc/malloc.c:87-90 | When the page rounding wraps at 2^64, the block asked for is empty. |
| `Allocation.SecondTrySucceeds` | elf-loader/malloc/malloc.c:145-150 | Once mmap has delivered, the second search always finds an area, for every size the guard admits. |
| `Allocation.MallocKeeps` | elf-loader/malloc/malloc.c:59-238 | malloc keeps the invariant, adds one block that holds the request or changes nothing, and fails exactly for size 0, for sizes above the guard, or when no area fits and mmap fails. |
| `Outcomes.MallocOutcome` | elf-loader/malloc/malloc.c:59-193 | The new block lies at the lowest area that holds the adjusted request and leaves behind it nothing or at least 56 bytes; the system is asked exactly if no area holds it, and then the mapped bytes grow by what it delivered. |
| `Outcomes.RequestSizeLeast` | elf-loader/malloc/heap_alloc.c:29-34 | The adjusted request is the least multiple of 8 that holds the request and a descriptor. |
| `Allocation.FreeKeeps` | elf-loader/malloc/free.c:28-272 | free keeps the invariant, removes exactly the given block, and maps nothing new. |
| `Outcomes.FreeOutcome` | elf-loader/malloc/free.c:47-258 | The block goes back to the list; if the free area it ends up in is below eight pages nothing is unmapped, otherwise exactly the largest range of whole pages in it whose ends are empty or at least 56 bytes. |
| `Outcomes.UnmapLargest` | elf-loader/malloc/free.c:230-251 | No range of whole pages with acceptable ends reaches further down or up than the one that is unmapped. |
| `Allocation.ReallocKeeps` | elf-loader/malloc/realloc.c:23-100 | realloc keeps the invariant on all its paths; on success the new block holds the request and all other blocks are as before, on failure nothing has changed. |
| `Outcomes.ReallocOutcome` | elf-loader/malloc/realloc.c:37-99 | Null exactly for a size above the guard, or if the block is too small, the first free area does not extend it far enough, no area holds the request and mmap fails; the same pointer if the block suffices or can be extended; otherwise the block at the lowest area with room, or from the system. A block kept or shrunk is less than 40 bytes above the request, and on failure the state is unchanged. |
| `Outcomes.MovedBlock` | elf-loader/malloc/realloc.c:71-82 | Allocating, copying and freeing succeeds exactly if some area holds the request or mmap delivers. |
| `Allocation.CarveFits` | elf-loader/malloc/memalign.c:64-92 | With 2 * alignment of slack, the aligned address and size bytes fit the over-allocation, and the front and the tail are absent or can hold a descriptor. |
| `Allocation.CarveKeeps` | elf-loader/malloc/memalign.c:69-94 | Cutting the front and the tail off keeps exact tiling; every live block can still hold a descriptor if and only if the middle piece is at least 24 bytes. |
| `Outcomes.CarveAddrLeast` | elf-loader/malloc/memalign.c:64-84 | The aligned address is the lowest with nothing, or at least 24 bytes, before it. |
| `Outcomes.CarveEndTight` | elf-loader/malloc/memalign.c:86-92 | At most 40 bytes stay in the block behind the request, and none if more were there. |
| `Allocation.MemalignKeeps` | elf-loader/malloc/memalign.c:34-95 | memalign keeps exact tiling for all sizes, returns an aligned block that holds the request or changes nothing, and for alignments below 8 and for more than 8 bytes leaves a block that can hold a descriptor. |
| `Allocation.MemalignFreeable` | elf-loader/malloc/memalign.c:41-94 | Exactly when the result can hold a descriptor, from the state before the call: which area first fit takes, how much of it malloc hands out, and that between the header and the returned tail at least 24 of these bytes remain. |
| `Outcomes.MemalignOutcome` | elf-loader/malloc/memalign.c:44-53 | For every alignment and size memalign returns null exactly if no area holds the over-allocation and mmap fails. |
| `Returnable.ReturnableForever` | elf-loader/malloc/free.c:47-53 | Among blocks that can hold a descriptor, a live block can be freed after every further run that leaves it alone if and only if it can hold one too. |
| `Returnable.Drain` | elf-loader/malloc/heap_free.c:82-84 | From any state there is a run of mallocs that empties the free list, after which a block smaller than a descriptor cannot be freed. |
| `Returnable.DescriptorOutside` | elf-loader/malloc/heap.h:176-189 | Freeing a block that is too small and borders on no area would place a descriptor that starts below the block, over a byte that is not free. |
| `MemalignLimit.AlwaysFreeable` | elf-loader/malloc/memalign.c:48-94 | In every reachable state, whatever mmap answers, what memalign returns can be freed after every further run that leaves it alone, if and only if the alignment is below 8, or more than 8 bytes are asked for, or the alignment exceeds what 47 address bits can hold twice. |
| `MemalignLimit.SpoilsIffSmall` | elf-loader/malloc/memalign.c:86-94 | What memalign returns can be freed at any later time exactly if it can hold a descriptor. |
| `MemalignLimit.Spoiler` | elf-loader/malloc/memalign.c:87-94 | For each other pair of arguments, a run from malloc_init and an answer of mmap after which the call leaves a block that cannot hold a descriptor. |
| `MemalignLimit.NoRoom` | elf-loader/malloc/malloc.c:80-90 | An over-allocation beyond the address space fails and changes nothing, in every reachable state. |
| `Runs.InitHolds` | elf-loader/malloc/malloc.c:22-26 | The state after malloc_init meets the invariant. |
| `Runs.StepKeeps` | elf-loader/malloc/malloc.c:200-238 | Each legal call keeps the invariant and every block it does not free or resize; a realloc that fails does neither. |
| `Runs.RunKeeps` | elf-loader/malloc/malloc.c:59-198 | After every legal run, free areas and live blocks are pairwise disjoint and exactly tile the static area plus what was mapped and not unmapped. |
| `Runs.BlockSurvives` | elf-loader/malloc/realloc.c:43-91 | A block that no call of a run frees or resizes, a realloc that fails included, is there at the end, with the same size. |
| `Runs.NoHistory` | elf-loader/malloc/heap_free.c:21-89 | Two runs that end with the same live blocks and the same mapped bytes end with the same free list. |
| `Runs.MallocThenFree` | elf-loader/malloc/free.c:53-64 | malloc from an existing area followed by free restores the whole state if and only if that area is below the unmap threshold. |
| `Runs.MemalignTooSmall` | elf-loader/malloc/memalign.c:87-94 | The very first call memalign (64, 8) leaves a block too small for a descriptor. |
| `Allocator.Allocator.constructor` | elf-loader/malloc/malloc.c:195-198 | The static area with its initialised descriptor is a valid heap in the initial state. |
| `Allocator.Allocator.TakeBlock` | elf-loader/malloc/malloc.c:71-76 | First fit plus the header store: the state moves as the transfer says, and no word of a live block changes. |
| `Allocator.Allocator.ExtendHeap` | elf-loader/malloc/malloc.c:119-145 | New pages join the heap without touching a word of any live block. |
| `Allocator.Allocator.Malloc` | elf-loader/malloc/malloc.c:59-238 | Carries the state from old to new exactly as the state machine says, in memory, and changes no word of any live block. |
| `Allocator.Allocator.GiveBackArea` | elf-loader/malloc/free.c:63-258 | Unlinks the area, returns its ends, unmaps the pages between, with no live word changed. |
| `Allocator.Allocator.ReturnEnds` | elf-loader/malloc/free.c:230-251 | Both unmap bounds and the list after both ends were returned; only words that were free before are written. |
| `Allocator.Allocator.Free` | elf-loader/malloc/free.c:28-272 | The state machine step in memory; no word of any remaining block changes. |
| `Allocator.Allocator.Copy` | elf-loader/malloc/realloc.c:78-78 | The user words of one block arrive in the other, and no other live word changes. |
| `Allocator.Allocator.GrowInPlace` | elf-loader/malloc/realloc.c:59-70 | Succeeds exactly when the first free area adjoins and suffices; user words of all blocks are kept. |
| `Allocator.Allocator.Move` | elf-loader/malloc/realloc.c:71-82 | Allocate, copy, free: the new block starts with the old user words and other blocks are untouched; on failure no word of any block, the old one included, has changed. |
| `Allocator.Allocator.ShrinkInPlace` | elf-loader/malloc/realloc.c:84-91 | Frees the tail; the words that remain in the block, and all other blocks, are kept. |
| `Allocator.Allocator.Realloc` | elf-loader/malloc/realloc.c:23-100 | The state machine step in memory; on success the first min(old, new) user bytes are those of the old block on every path and no other live word changes; on failure no live word at all changes. |
| `Allocator.Allocator.Memalign` | elf-loader/malloc/memalign.c:34-95 | The state machine step in memory, for every size: list, headers and tiling hold, no word of any older block changes, and all blocks can still be freed for alignments below 8 and for more than 8 bytes. |
| `Allocator.Allocator.FreeFront` | elf-loader/malloc/memalign.c:64-84 | Finds the aligned address and returns the piece before its header to the list. |
| `Allocator.Allocator.FreeBack` | elf-loader/malloc/memalign.c:86-92 | Returns the tail, unless it is small, and finds where the block ends. |
| `Program.Perform` | elf-loader/malloc/malloc.c:200-238 | Any one call: memory follows the state machine, and every block it does not free or resize keeps its place, its size and its words, under a realloc that fails too. |
| `Program.TraceRuns` | elf-loader/malloc/malloc.c:59-198 | The calls of an execution form a legal run: the client's stores do not matter for who owns what. |
| `Program.Execute` | elf-loader/malloc/malloc.c:59-198 | Any execution of calls and client stores: memory ends in the state the machine ends in, and a block that no call frees or resizes is private memory, also across failing reallocs: each word holds what the client stored there last, or what it held at first. |
| `Segments.Mapper.MapExec` | elf-loader/rtld/load.c:245-333 | For every PT_LOAD header, memory holds file[p_offset + k] at byte k below p_filesz and zero from there to p_memsz, with the access of the bits PF_R, PF_W and PF_X; only pages of segments change; with a misaligned header nothing is mapped. |
| `Segments.Mapper.MapDyn` | elf-loader/rtld/load.c:364-391 | The same at the address the system chose, the first PT_LOAD read from the start of the file; the pages between segments allow no access, and nothing beside the range changes. |
| `Segments.LoadAt` | elf-loader/rtld/load.c:197-224 | Every PT_LOAD header is among the segments with its own fields, the first one first. |
| `Segments.HolesProtected` | elf-loader/rtld/load.c:378-382 | The one mprotect call closes every page that no segment covers, and without a gap between commands there is no such page. |
| `Segments.FilePages` | elf-loader/rtld/load.c:203-209 | The pages mapped for the file part are pages of the file, so that reading them never faults. |
| `Segments.FirstSegmentRight` | elf-loader/rtld/load.c:372-387 | For ET_DYN the first segment has the right bytes for every file that holds it if and only if its page offset in the file is 0 or it has no file bytes. |
| `Segments.Mapper.MapLoadCmds` | elf-loader/rtld/load.c:245-333 | Mapping the load commands one after the other images every segment; a later one never disturbs an earlier one, and no page outside them is touched. |
| `Segments.Mapper.ZeroFill` | elf-loader/rtld/load.c:290-330 | memset, the two mprotect calls and the anonymous mapping together give the zero part, with the protection of the segment finally in force everywhere. |
| `Segments.Mapper.ClearTail` | elf-loader/rtld/load.c:304-320 | The rest of the last file page becomes zero and writable only in between. |
| `Segments.ParsePhdr` | elf-loader/rtld/load.c:186-242 | Dies exactly when a PT_LOAD entry violates an alignment assertion; otherwise every PT_LOAD entry has a command with the page-rounded bounds of its file data, the end of its memory and its access, holes are reported exactly when neighbouring commands do not meet, and the last PT_DYNAMIC and PT_PHDR entries are found. |
| `Segments.LoadsValid` | elf-loader/rtld/load.c:200-201 | Headers that pass the two assertions have file offsets congruent to their addresses modulo the page size. |
| `Segments.PageAlignedIsAccepted` | elf-loader/rtld/load.c:200-201 | Page-aligned headers at offsets congruent modulo the page pass both assertions. |
| `Segments.CommandBounds` | elf-loader/rtld/load.c:203-209 | Page rounding of a command stays inside the pages of its segment and preserves the distance between file and memory. |
| `Dependencies.ResolveStable` | elf-loader/rtld/load.c:18-36 | A library that is found is found as the same file after the search path has grown at its end. |
| `Dependencies.OpenPath` | elf-loader/rtld/load.c:18-36 | The file in the first directory of the path that has it, or none. |
| `Dependencies.AddPaths` | elf-loader/rtld/load.c:126-140 | The path grows at its end by exactly the directories it lacked, each once, in the order of their first mention. |
| `Dependencies.Loader.MapObject` | elf-loader/rtld/load.c:410-430 | Finds the object as the path stood; exactly if it is found and not in the namespace, the directories it names and the path lacks go to the end of the path. |
| `Dependencies.Loader.AppendToNamespace` | elf-loader/rtld/load.c:432-444 | Afterwards the object is in the namespace; what was there is a prefix, unchanged if the object was there already, at most this object is new, and no object is listed twice. |
| `Dependencies.Loader.LoadNeeded` | elf-loader/rtld/load.c:466-484 | Loads the needed libraries of one object in order, or stops at one that no directory has. |
| `Dependencies.Loader.MapObjectDeps` | elf-loader/rtld/load.c:446-501 | Ends on every finite set of files, cycles included; the run list is the breadth-first list of the root, the namespace is its seed followed by the new objects in that order, each once, and it dies only at an object in that order that needs a library no directory has. Loaded or dead, the search path is the old one followed by exactly the missing directories of the root and of each new object, in load order. |
| `Dependencies.MissingTwice` | elf-loader/rtld/load.c:126-140 | Adding the missing directories of two lists one after the other adds those of both lists together. |
| `Dependencies.PathFits` | elf-loader/rtld/load.c:126-140 | The search path never outgrows the directories that the path and the objects name to begin with. |
| `Dependencies.Loader.FillSearchList` | elf-loader/rtld/load.c:486-497 | The search list is the run list without the root. |
| `BreadthFirstOrder.MentionedIffNeeded` | elf-loader/rtld/load.c:466-484 | What a list of objects mentions is exactly what one of them needs. |
| `BreadthFirstOrder.ListedIsReached` | elf-loader/rtld/load.c:446-485 | Every listed object is reached from the root by a chain of needs as long as its depth. |
| `BreadthFirstOrder.ReachedIsListed` | elf-loader/rtld/load.c:446-485 | Every object reached by a chain of needs is listed, no deeper than the chain is long: depth is distance. |
| `BreadthFirstOrder.DepthOrdered` | elf-loader/rtld/load.c:446-485 | The list is in order of distance from the root, as "Shared Object Dependencies" of the System V ABI asks. |
| `BreadthFirstOrder.StuckIsReached` | elf-loader/rtld/load.c:410-419 | When loading dies, the object with the missing library is itself reached from the root. |
| `BreadthFirstOrder.OneList` | elf-loader/rtld/load.c:446-485 | There is only one breadth-first list. |
| `BreadthFirstOrder.RootMentioned` | elf-loader/rtld/load.c:466-484 | The listed objects mention the root exactly when a chain of needs leads from the root back to it. |
| `BreadthFirstOrder.SearchListFilled` | elf-loader/rtld/load.c:486-497 | The search list has exactly the length that was counted for it if and only if no chain of needs leads from the root back to it. |
| `ElfHash.RoundAgrees` | elf-loader/rtld/lookup.c:15-30 | One round on the 64-bit accumulator agrees in its low 32 bits with one round of the ABI function, also when the sum has carried past bit 31. |
| `ElfHash.Hash` | elf-loader/rtld/lookup.c:7-33 | For every name the truncated result is the "Hash Table" function of the System V ABI, below 2^28. |
| `ElfHash.FoldedDigits` | elf-loader/rtld/lookup.c:18-30 | A fold moves the top hexadecimal digit onto the second lowest by exclusive or, clears it, and changes nothing else. |
| `ElfHash.KnownHash` | elf-loader/rtld/lookup.c:7-33 | The hash of "syscall" is 0xb09985c, with a fold in its last round. |
| `SymbolLookup.FirstDefiner` | elf-loader/rtld/lookup.c:47-91 | The first object, in namespace order and other than the skipped one, with a matching symbol anywhere in its table. |
| `SymbolLookup.FindInObject` | elf-loader/rtld/lookup.c:57-89 | With acyclic chains and every definition that can match on its bucket's chain, walking one chain finds a match exactly when a scan of the whole symbol table would. |
| `SymbolLookup.Lookup` | elf-loader/rtld/lookup.c:36-92 | Gives the answer of the linear scan: a matching definition from the first defining object, or not found exactly when there is none. |
| `SymbolLookup.AnswerIsDefinition` | elf-loader/rtld/lookup.c:57-78 | Whatever is found is a defined symbol of the name with a value, of no type, an object, a function or common. |
| `SymbolLookup.SoleSymbolIsAnswer` | elf-loader/rtld/lookup.c:57-92 | Any such symbol is found wherever it is the only one of its name. |
| `SymbolLookup.NoSymbolNoAnswer` | elf-loader/rtld/lookup.c:47-91 | Nothing is found exactly when no object but the skipped one has such a symbol. |
| `Relocation.SomeAnswers` | elf-loader/rtld/reloc.c:73-78 | For any objects there is a lookup that gives the answers of the linear scan, as relocation assumes. |
| `Relocation.Relocator.RelocEntry` | elf-loader/rtld/reloc.c:79-160 | One entry has the effect its type describes on one word, or dies exactly for an unknown type or a symbol that no object of the namespace defines. |
| `Relocation.Relocator.RelocRela` | elf-loader/rtld/reloc.c:61-161 | A table is the composition of its entries, ended by the first that dies. |
| `Relocation.Relocator.RelocateObject` | elf-loader/rtld/reloc.c:164-214 | Both tables and the two reserved GOT words, at most once per object. |
| `Relocation.Relocator.RelocAll` | elf-loader/rtld/reloc.c:216-228 | Every object once, from the last of the namespace to the first; it dies if and only if some entry of some object has an unknown type or a symbol that no object defines. |
| `Relocation.ScheduleFails` | elf-loader/rtld/reloc.c:73-78 | The whole schedule of updates contains a failing one exactly when an entry of an unknown type or without a definition exists. |
| `Relocation.UpdateActsOnce` | elf-loader/rtld/reloc.c:164-228 | With distinct targets every update of every object sees its word as the file has it, and its effect is final. |
| `Relocation.IncrementedOnce` | elf-loader/rtld/reloc.c:79-128 | In any sequence of updates with distinct targets, an increment is added to its word exactly once. |
| `Relocation.EntryAppliedOnce` | elf-loader/rtld/reloc.c:79-145 | With distinct targets, every incrementing entry of every object changes its word by its increment exactly once over the whole of relocation. |
| `Relocation.EntrySettled` | elf-loader/rtld/reloc.c:79-160 | For every entry of every object, with distinct targets: after relocation the word of a RELATIVE entry has grown by load address and addend, of a JUMP_SLOT entry by the load address, of a 64 or GLOB_DAT entry by the address of a matching symbol of the first defining object, and that of a COPY is the word found there when all earlier updates had been made; no entry of another type survives. |
| `Relocation.CopySettled` | elf-loader/rtld/reloc.c:129-146 | A COPY of any object finds its definition in another object and equals the value its source has after all relocation, provided the objects relocated from then on leave the source alone. |
| `Relocation.HeadCopy` | elf-loader/rtld/reloc.c:129-146 | In particular in the first object, where only its own entries could disturb the source. |
| `Relocation.PsAbiMet` | elf-loader/rtld/reloc.c:87-128 | For every RELATIVE, 64 and GLOB_DAT entry of every object: after relocation its word has the value that section 4.4.1 of the AMD64 psABI prescribes if and only if the file held 0 there, or for R_X86_64_64 the addend. |
| `LazyBinding.RelocationPrepares` | elf-loader/rtld/reloc.c:164-214 | After relocation with distinct targets every PLT slot holds its stub, moved to the load address, and every global offset table holds its object and the resolver. |
| `LazyBinding.SlotsNeverMeet` | elf-loader/rtld/reloc.c:164-214 | With distinct targets no two PLT entries share a slot, and no slot is one of the two words of the loader. |
| `LazyBinding.BindingKeeps` | elf-loader/rtld/reloc.c:55-58 | Storing the address of a symbol into its slot keeps every other slot bound and every table leading to the resolver. |
| `LazyBinding.Process.constructor` | elf-loader/rtld/rtld.c:237-254 | What relocation leaves in memory is a state from which lazy binding works. |
| `LazyBinding.Process.GotFixup` | elf-loader/rtld/reloc.c:10-59 | For the object behind the given link map: stores the address of a definition from the first object that has one in exactly the slot of the entry, or dies exactly when no object defines the symbol. |
| `LazyBinding.Process.Call` | elf-loader/rtld/reloc.c:10-59 | A call reaches a definition from the first defining object whether or not its slot is bound: the words of the table lead the stub to the resolver and got_fixup to the right object, never astray; it ends the program exactly when there is no definition, and only slots change. |
| `LazyBinding.Process.CallAll` | elf-loader/rtld/reloc.c:10-59 | The same for any sequence of calls, up to the first whose symbol no object defines. |
| `LazyBinding.Launch` | elf-loader/rtld/reloc.c:10-228 | From the program files on: relocation dies exactly for an unresolvable entry, and otherwise every call of any sequence reaches its definition. |
| `Format.Buffer.ReverseFrom` | elf-loader/rtld/lib.c:132-140 | Reverses the end of the text in place and leaves the rest of the buffer alone. |
| `Format.Buffer.PrintUnsigned` | elf-loader/rtld/lib.c:292-303 | Emit, pad and reverse put the piece that the rendering asks for, as far as it fits. |
| `Format.Buffer.PrintHex` | elf-loader/rtld/lib.c:304-326 | The same for hexadecimal, with its prefix outside the reversed part. |
| `Format.Buffer.PrintDecimal` | elf-loader/rtld/lib.c:327-346 | The same for signed decimal, with the sign inside the reversed part. |
| `Format.ReadFlags` | elf-loader/rtld/lib.c:234-264 | The flag loop ends at the conversion character with the flags, width and remaining arguments that the scan of the format defines. |
| `Format.LaidIsWhole` | elf-loader/rtld/lib.c:219-227 | The text has the length of the whole rendering cut to the buffer, and is the whole rendering when that fits. |
| `Rendering.ForwardCut` | elf-loader/rtld/lib.c:219-227 | Text put forwards into a buffer that is too small is cut at the end of the buffer and nowhere else. |
| `Format.Dvsprintf` | elf-loader/rtld/lib.c:209-369 | Writes only inside the buffer, stores a zero at the returned length, and leaves the whole rendering of the format there when it fits. |
| `Numerals.DecimalReadsBack` | elf-loader/rtld/lib.c:327-346 | The rendering of a number by %d, with any padding, reads back to the number. |
| `Numerals.UnsignedReadsBack` | elf-loader/rtld/lib.c:292-303 | The rendering by %u reads back to the signed number that was taken if and only if it is not negative. |
| `Numerals.HexReadsBack` | elf-loader/rtld/lib.c:304-326 | After its prefix, the rendering by %x reads back to the low 8 * size bits, with blanks or zeros as padding. |
| `Numerals.DecimalDirective` | elf-loader/rtld/lib.c:229-346 | A format of one %d directive, with whatever flags and width, renders a text that reads back to its argument. |
| `Numerals.HexDirective` | elf-loader/rtld/lib.c:229-326 | A format of one %x directive renders a text that reads back to its argument as an unsigned number of its type. |
| `Rendering.Concatenation` | elf-loader/rtld/lib.c:229-365 | Formats one after the other, with their arguments one after the other, render as their texts one after the other. |
| `Rendering.Literal` | elf-loader/rtld/lib.c:229-233 | A format without % renders as itself and takes no argument. |
| `Rendering.StringDirective` | elf-loader/rtld/lib.c:350-359 | %s renders its string, or (NULL) for a null pointer, and blanks up to the width. |
| `Rendering.CharacterDirective` | elf-loader/rtld/lib.c:347-349 | %c renders its character. |
| `Rendering.OtherDirective` | elf-loader/rtld/lib.c:360-362 | A conversion that is none renders as its own character, %% as %. |
| `Rendering.UnsignedDirective` | elf-loader/rtld/lib.c:292-303 | %u reads back to every number that is not negative, with any flags and width. |
| `Rendering.PointerDirective` | elf-loader/rtld/lib.c:265-276 | %p and %P render 0x and digits that read back to all 64 bits, with %P exactly sixteen of them. |
| `Rendering.DirectiveScanned` | elf-loader/rtld/lib.c:234-264 | A directive written with #, 0, a width and l has exactly these flags and this width. |
| `Rendering.ScanStar` | elf-loader/rtld/lib.c:243-246 | With * the width is the next argument. |
| `Rendering.WidthsKept` | elf-loader/rtld/lib.c:292-346 | %d and %u render exactly as many characters as the width asks for or the digits need, not counting the sign. |
| `Rendering.HexWidthKept` | elf-loader/rtld/lib.c:304-326 | So does %x, not counting the prefix. |
| `Rendering.HexShape` | elf-loader/rtld/lib.c:304-326 | In reading order %x is its prefix, then zeros with the flag 0 or blanks without, then the digits. |
| `Rendering.DecimalShape` | elf-loader/rtld/lib.c:327-346 | In reading order %d is blanks, the sign, and the digits. |
| `Rendering.NoLeadingZero` | elf-loader/rtld/lib.c:335-339 | The digits of a number do not begin with a zero, except for zero itself. |
| `Rendering.LibraryName` | elf-loader/rtld/load.c:25-28 | The format %s/%s of open_path renders the name that the model looks up. |

## Left out

- Allocator.Allocator.Memalign: requires a power-of-two alignment and no wrap-around of the over-allocation; runs (`Runs.Legal`) use memalign only with arguments for which `MemalignLimit.AlwaysFreeable` promises freeable blocks.
- Program.Execute: client stores are of aligned 8-byte words, into blocks the client holds.
- Blocks.GiveBackKeeps: the reserve of two pages is proved safe at the level of areas only, since the code never makes it.
- Relocation.CopySettled: a COPY whose source is relocated later takes the value of its turn, which is all that can be said of it.
- Relocation.Relocator.RelocAll: lookup is any function that answers as `SymbolLookup.Lookup` is proved to; among several matching symbols of one object it may pick any.
- LazyBinding.Launch: takes the targets of all relocation entries to be distinct words and the link maps of the objects to be at distinct addresses; the assembly trampoline between stub and got_fixup is one step, and the program's own stores between calls are not modelled.
- Segments.Mapper.MapExec: takes segments to lie within the file, to share no page and to ascend, and p_align to be zero or a power of two, as the System V ABI has them; pages wholly beyond the end of a file have no bytes in the model.
- Dependencies.Loader.MapObjectDeps: objects are identified by the file name they were opened under, which is never cut at the 1024 bytes of its buffer; the code does not check the capacity of the path array, and what happens beyond ten directories is not modelled.
- Format.Dvsprintf: requires a buffer of at least one byte, a format that does not end inside a directive, arguments of the types the directives name, and not the most negative number for %d; int overflow of the width is not modelled.
- System calls are answers given to the model: mmap either fails with -1, the value the code tests for, or returns fresh page-aligned addresses below 2^47; munmap, mprotect and fixed mappings succeed; open succeeds on the files that exist.
- Memory of the allocator is modelled by aligned 8-byte words, which is how all its stores happen; memcpy in realloc copies by words.
- Masking with a power of two is written as the remainder it clears; shifts and exclusive-or in the hash function are written on hexadecimal digits.
- The sbrk, uClinux and locking configurations, and debug printing, which are not compiled in.
- calloc and the string and memory helpers of lib.c, which would only add easy members.
- The search for the program header inside a segment, the end of the text segment, and reading the ELF header from the file.
- Boot parameters, the auxiliary vector and start-up assembly of the loader; the pointer list of list.h, which is a sequence here.
- Thread-local storage, GNU hash tables, symbol versions, weak symbols and constructors, which the loader does not implement.
- elf-clack, elf-info, look-into-got and the sample programs.
