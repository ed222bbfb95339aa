# The memory management of BambooOS, modelled and proved

This project models the memory-management stack of the kernel as one connected
system, and two small parts of it besides: how a number is printed, and where the
text cursor goes. `dafny verify dfyconfig.toml` checks all of it.

| file | what it models |
|---|---|
| `PageTables.dfy` | four-level page tables as values (4-level paging, section 4.5 of the Intel SDM, Volume 3A), the walk that gives them their meaning, the tree shape every page map keeps, and what each kind of entry write does to both |
| `EntryBits.dfy` | the 64-bit words of the entries and the machine words of addresses: shifts, masks, sums and ORs are the divisions and entry updates the other files use |
| `MemoryMap.dfy`, `FrameAllocator.dfy` | the numbering of the usable pages, and the bitmap allocator that keeps its bitmap inside the first pages it manages |
| `VirtualMemory.dfy` | the VMM with its allocator: walking, mapping, unmapping, splitting, allocating and freeing |
| `Ownership.dfy` | runs of client requests and who owns which frame in them |
| `RangePlan.dfy`, `RangeMapping.dfy`, `MemoryInit.dfy` | which leaves a range of pages takes, the range mapper with its four-digit counter in base 512 that makes them, and the boot code that builds the direct map with it |
| `Segments.dfy`, `KernelHeap.dfy`, `HeapRuns.dfy`, `HeapPages.dfy` | the first-fit heap: its segments as a sequence, the headers linked in memory, runs of calls, and the pages under it |
| `KernelMemory.dfy` | all of it as one machine: heap calls and page requests in any order, down to the physical byte behind each byte of the heap |
| `Vectors.dfy` | the growable array that moves its block through `realloc` |
| `NumberPrinter.dfy`, `TextCursor.dfy` | the digit loop with its 30-byte buffer, and the cursor that fills two half-screen columns |

## Conventions

- **Pages and frames.** Translation is stated page by page. A virtual page is bits 12
  to 47 of an address, a frame is a physical address divided by 0x1000. The 4 KiB path
  of the walk drops the low 12 bits of the address (src/mem/vmm.c:74-75), the large
  paths keep them (src/mem/vmm.c:48, 63); the contract of `Vmm.VirtToPhys` says so.
- **Tables** are known by the frame that holds them, as a map from frames to 512
  entries. A walk that follows a link to a frame that is not in use as a table reads
  data, and its result is `Stray`.
- **Leaves.** Behind the translation stands the leaf a walk ends in: how many pages it
  covers and from which frame on. What splitting, mapping and range mapping do is stated
  about leaves where that says more than the translation.
- **Access.** A page is open when every entry on its walk has no attribute bit set and is
  writable if present: then the page can be written, if it is mapped. `SameMeaning`,
  `SameLeaves`, `LeafUpdate` and `PointUpdate` say of access what they say of translation,
  that no page loses any.
- **Shape.** A ghost map from tree positions to frames shows that no table is shared.
- **Address conversion.** Both mapping calls first translate their physical argument
  through the map in use (src/mem/vmm.c:89-90, 196-197). `Convert` and `Vmm.Target`
  are that conversion, and every contract is stated with it.
- **Failures are outcomes.** Where the code as it stands goes wrong, an operation
  returns `ok` or `fault`, and its contract says exactly when.

## Where the code falls short of its purpose

Each of these is kept as the code has it, with the exact condition under which it meets
its purpose and, but for the points about boot, about freeing a table and about setting
a bit, a concrete failure. The first four have a repair in the model, under its own name; for the others
none is modelled.

- **Splitting a 1 GiB page** (src/mem/vmm.c:124-129, 368-373). The comment says that
  everything is "set-up the same as it was before" (src/mem/vmm.c:131), but the 512
  new PD entries are not marked as large pages, so the mapped memory itself is linked
  as page tables. `SplitIsSoundIff`, `FlaglessSplitFails` and `FlaglessSplitReadsData`
  say what happens; `keepFlag` stands for the repair. The 2 MiB split is right as it is.
  Both splits also forget the attributes of the page, with no repair in the model:
  `SplitKeepsAccessIff`.
- **Merging heap segments** (src/mem/heap.c:177-179) clears the header behind the
  absorbed one, because `next` was already changed: `MergeBreaks`, `MergeExampleBreaks`.
- **`free`** (src/mem/heap.c:112) reads `next` of the last segment through NULL:
  `Heap.Free` comes back with a whole heap exactly when `SafeToFree` holds, and
  `FreeExamplesUnsafe` has two blocks for which it does not, the second being the first
  block that malloc gives out.
- **Splitting and merging** (src/mem/heap.c:160-171, 175-177) leave the `prev` of the
  following segment behind: `SplitKeepsPrevIff`, `SplitExampleBreaks`. `repaired` stands
  for the repair of this and of the two points above.
- **Extending** (src/mem/heap.c:67-77) does not ask whether the last segment is free,
  and then hands out a block that a client holds: `MallocFreshIff`, `MallocClashes`.
- **Remapping on `pmm_free`** (src/mem/pmm.c:189-192) is meant to put the page "where
  it should be"; it does so exactly when the frame's number, read as a virtual page,
  is not mapped elsewhere: `RemapIsRightIff`, `RemapExampleFails`.
- **Freeing a page table** is not refused (src/mem/pmm.c:180-194): `Vmm.Free` leaves a
  page map behind exactly when the frame is no table of it, apart from the split above.
- **Large leaves** of the range mapper (src/mem/vmm.c:243-264) start at aligned frames
  exactly when the first page and the first frame of the range agree modulo the largest
  span the range uses: `LargeBaseAligned`, `MisalignedLeaf`. The kernel's range is mapped
  with unrelated starts (src/mem/memory.c:56-63).
- **After boot** the page map has 1 GiB pages exactly when a test on the memory map says
  so (`BootGigabytes`), and then, as the code stands, it is no state from which splitting
  is safe: `MemoryInit`.
- **Setting a bit** past the usable pages (src/mem/pmm.c:125-150) writes into some other
  byte and makes the counter wrong exactly when that bit changes: `SetAllocated`.
- **Number printing** in base 2 overruns the buffer from 2^30 on: `DrawNumber` says
  for every base exactly when it stays inside, `BinaryOverflows` gives the number.

## Model

| member | source | states |
|---|---|---|
| PageTables.SplitKeepsMeaning | src/mem/vmm.c:111-133 | replacing a 2 MiB leaf, or a 1 GiB leaf with the flag kept, by a table of 512 pieces leaves every translation as it was, no page loses access, and the map is a tree; the result can be split again |
| PageTables.SplitKeepsAccessIff | src/mem/vmm.c:124-129 | the pieces of a split page have its writable flag and its attributes if and only if it was writable and had none |
| PageTables.SplitIsSoundIff | src/mem/vmm.c:111-168 | a split gives a page map of the VMM's own tables if and only if the page was 2 MiB or the flag is kept |
| PageTables.FlaglessSplitReadsData | src/mem/vmm.c:124-132 | after the 1 GiB split as it stands, the walk of every page of the gigabyte reads the first frame of its 2 MiB piece as if that were a page table |
| PageTables.FlaglessSplitFails | src/mem/vmm.c:368-376 | a concrete map and page for which the 1 GiB split loses the translation, and the repaired one does not |
| PageTables.NewTableKeepsMeaning | src/mem/vmm.c:94-98 | filling an absent entry with a new zeroed table keeps the tree and changes no translation |
| PageTables.LeafWrite | src/mem/vmm.c:173-182 | writing one page-table entry changes the translation of that page, takes access from no other, and opens that page if the entry is open |
| PageTables.PruneMeaning | src/mem/vmm.c:249-250 | turning a link into a large leaf maps exactly the pages below it, in order, and no page loses access |
| PageTables.EndsLargeIff | src/mem/vmm.c:44-63 | a walk takes one of the large paths exactly when its leaf covers more than a page |
| PageTables.ShapeUnique | src/mem/vmm.h:10-14 | the tables of a page map determine its shape: two trees over the same tables agree wherever both have a node |
| PageTables.RootLeadsTo | src/mem/vmm.h:10-14 | following links from the root reaches the tables of the shape and no other frame |
| PageTables.IndexOfAddress | src/mem/vmm.h:28-31 | the index of an address at each level is the base-512 digit of its page number |
| PageTables.LargeOffset | src/mem/vmm.c:48-63 | the offset of an address in a large page is the page's offset in it and the low 12 bits |
| EntryBits.IndexMacros | src/mem/vmm.h:28-31 | the shifts and masks of the index macros on a 64-bit word give those digits |
| EntryBits.SetAddressUnpacked | src/mem/vmm.c:429-433 | setting the address of an entry word changes the frame, and keeps every flag and every other bit |
| EntryBits.AddressIsFrame | src/mem/vmm.c:435-437 | the address field is bits 12 to 51, a multiple of the page size |
| EntryBits.FlagsUnpacked | src/mem/vmm.c:179-180 | OR-ing a flag byte into the word sets those flags of the entry and nothing else |
| EntryBits.UnpackInjective | src/mem/vmm.h:42-58 | an entry determines its word: decoding loses nothing |
| EntryBits.ZeroUnpacked | src/mem/vmm.c:419 | the zero word is the zero entry |
| EntryBits.LinkUnpacked | src/mem/vmm.c:94-98 | the three writes that point an entry at a table, on words, are the entry that the page maps are built of |
| EntryBits.MappedUnpacked | src/mem/vmm.c:177-182 | so are the writes of a mapping request, whatever flags it asks for |
| EntryBits.LargeUnpacked | src/mem/vmm.c:249-250 | so are the two writes that make a large leaf |
| EntryBits.SumIsSum | src/mem/vmm.c:124-126 | adding words adds their numbers as long as both are below 2^63 |
| EntryBits.PieceUnpacked | src/mem/vmm.c:124-129 | the word written for piece i of a large page, its address computed in machine words, is piece i of the split, with the flag and without |
| MemoryMap.PagesAre | src/mem/pmm.c:27-32 | each entry of type 0 adds its whole pages to the number of usable pages, and no other entry does |
| MemoryMap.PageNumbers | src/mem/pmm.c:64-83 | pages are numbered in the order of the entries and upwards in each: page j of usable entry k has number (pages before the entry) + j, and address base + 0x1000 j |
| MemoryMap.ByteNumbers | src/mem/pmm.c:86-104 | every byte of that page has that number |
| MemoryMap.IdxOfAddr | src/mem/pmm.c:64-104 | the index of the address of page i is i |
| MemoryMap.AddrOfIdx | src/mem/pmm.c:64-104 | the address of the index of a is a rounded down to its page |
| MemoryMap.AddrDefined | src/mem/pmm.c:64-83 | exactly the indices below the number of usable pages have an address |
| MemoryMap.IdxDefined | src/mem/pmm.c:86-104 | exactly the addresses inside usable entries have an index |
| MemoryMap.AddrInjective | src/mem/pmm.c:64-83 | no two page numbers share a page |
| FrameAllocator.MaskIsShift | src/mem/pmm.c:121-141 | the mask of a bit is 1 shifted to it |
| FrameAllocator.BitOfByte | src/mem/pmm.c:138-149 | setting or clearing one bit of a byte reads back, touches no other bit, and changes the byte exactly when the bit changes |
| FrameAllocator.Pmm.BitPlace | src/mem/pmm.c:107-121 | bit c of byte b of page j of usable entry k, page number i, stands for page number 32768 i + 8 b + c |
| FrameAllocator.Pmm.NoAliasing | src/mem/pmm.c:107-136 | distinct pages never have the same byte and bit |
| FrameAllocator.Pmm.Start | src/mem/pmm.c:20-49 | there are pages / 32768 + 1 bitmap pages; their bits, all of them, say that exactly those pages are allocated, and no other byte of memory changes; the code goes wrong exactly when no page number has an address |
| FrameAllocator.Pmm.GetAddressByIndex | src/mem/pmm.c:64-83 | the loop finds the entry the number falls in, counting pages entry by entry, and the page that many pages up from its base; UINT64_MAX past the last one |
| FrameAllocator.Pmm.GetIndexByAddress | src/mem/pmm.c:86-104 | the loop finds the usable entry that holds the address and counts the pages before it and below it; UINT64_MAX when no entry does |
| FrameAllocator.Pmm.IsAllocated | src/mem/pmm.c:107-122 | reads the stored bit of that page, true past the end |
| FrameAllocator.Pmm.SetAllocated | src/mem/pmm.c:125-150 | for any index: rewrites that one bit of memory and no other; a usable page's membership in the free frames follows and no other's; the counter stays the number of set bits if and only if the index is a usable page's, or past every bitmap page, or the bit was set that way before |
| FrameAllocator.Pmm.AllocPhys | src/mem/pmm.c:153-166 | gives out the free page that comes first in the memory map, lowest in its entry and in no later entry, sets its bit and no other; 0 exactly when none is free |
| FrameAllocator.ClearCount | src/mem/pmm.c:200-202 | allocated and free pages add up to the usable ones |
| FrameAllocator.Pmm.CurrentFreeMemory | src/mem/pmm.c:200-202 | free memory is one page for every free frame |
| VirtualMemory.Vmm.VirtToPhys | src/mem/vmm.c:31-76 | the nested walk computes the abstraction function, with the low 12 bits for large pages only, and UINT64_MAX exactly for unmapped pages |
| VirtualMemory.Vmm.SplitLeaf | src/mem/vmm.c:146-168 | the splitting loop builds the table of the 512 pieces |
| VirtualMemory.Vmm.Descend | src/mem/vmm.c:92-170 | going down to the page table of a page changes no translation, whatever is missing or large; it takes exactly the missing tables, and fails exactly for a 1 GiB page without the flag |
| VirtualMemory.Vmm.MapPage | src/mem/vmm.c:86-187 | a point update: the page goes to the frame behind the physical argument, read as a virtual address, or to that of the argument itself when it is not mapped, with the flags asked for and no old bit; no other page changes its translation or loses access, a request for a writable page gives one; exactly the missing tables are taken from the free frames, another page map sharing no table is untouched |
| VirtualMemory.Vmm.UnmapPage | src/mem/vmm.c:335-423 | a point deletion, also inside large pages and where no table existed: the entry is zero |
| VirtualMemory.Vmm.MapThenUnmap | src/mem/vmm.c:86-423 | unmapping undoes mapping an unmapped page: the whole translation is restored |
| VirtualMemory.Vmm.Alloc | src/mem/pmm.c:169-172 | the direct-map address of the free frame that comes first in the memory map, or that of physical address 0 when none is free |
| VirtualMemory.Vmm.PmmVirtToPhys | src/mem/pmm.c:55-61 | the frame behind an address, before and after the VMM is started |
| VirtualMemory.Vmm.Free | src/mem/pmm.c:180-194 | clears the bit of the frame behind the address unless it holds the bitmap, and remaps its direct-map page, writable, and no other, for exactly the tables that takes; an address with no frame changes nothing; goes wrong exactly when the remapping has to split a 1 GiB page without the flag, or the frame is a table of the map in use, which is then free under the map |
| VirtualMemory.Vmm.SetPml4 | src/mem/vmm.c:443-446 | another page map comes into use |
| Ownership.RemapIsRightIff | src/mem/pmm.c:189-192 | freeing puts the frame back at its direct-map page if and only if its number, as a virtual page, is not mapped to another frame |
| Ownership.RemapExampleFails | src/mem/pmm.c:189-192 | a concrete map in which freeing frame 5 leaves frame 9 at its direct-map page |
| Ownership.RemapChangesNothing | src/mem/pmm.c:189-192 | while the direct map is in order, freeing changes no translation |
| Ownership.StepFree | src/mem/pmm.c:180-194 | freeing by any address, wherever the frame is mapped, keeps the ownership partition: the frame goes from its holder to the free ones, its direct-map page is remapped, and no other page is affected |
| Ownership.StepMap | src/mem/vmm.c:78-84 | mapping any address keeps the partition: exactly the missing tables come from the free frames |
| Ownership.StepUnmap | src/mem/vmm.c:335-423 | so does unmapping any address |
| Ownership.Serve | src/mem/pmm.c:153-194 | each request keeps the invariant and does to the flat view what its specification says, whatever address it names |
| Ownership.Run | src/mem/vmm.c:86-427 | over every run of alloc, and of free, map and unmap at any address, every usable frame is in exactly one of bitmap, free, table, held, abandoned; the map is a tree, and the run refines the flat machine step by step, the number of frames each request takes included |
| Ownership.TameKeeps | src/mem/pmm.c:180-194 | a request that names no page of the direct map keeps the direct map exact and writable, and a free by whatever address then changes no translation |
| Ownership.TameRun | src/mem/pmm.c:51-61 | so after every such run the direct map shows every usable page, writable if it was so before |
| RangePlan.ChoiceIsPlan | src/mem/vmm.c:243-269 | what the loop chooses at the start of a leaf is, for every page of that leaf, what the closed form says of the whole range |
| RangePlan.SpanIff | src/mem/vmm.c:243-255 | a page of the range gets a 1 GiB leaf if and only if the gigabyte around it lies in the range with more than a page behind it, or else a 2 MiB leaf on the same terms |
| RangePlan.AlignedIff | src/mem/vmm.c:243-264 | the planned leaves of a range all start at multiples of their spans if and only if first page and first frame agree modulo the largest span used |
| RangeMapping.LargeBaseAligned | src/mem/vmm.c:243-264 | so do all large entries of the built page map, at whatever node, under the same condition |
| RangeMapping.MisalignedLeaf | src/mem/vmm.c:255-264 | a concrete range after which page 512 is in a 2 MiB leaf that starts at frame 1 |
| RangeMapping.PlaceTwoMegabytes | src/mem/vmm.c:255-264 | frees the page table and maps the 512 pages in its place |
| RangeMapping.PlaceGigabyte | src/mem/vmm.c:243-254 | frees the page table and directory and maps the 262144 pages in their place |
| RangeMapping.NextTables | src/mem/vmm.c:277-321 | the four indices stay the base-512 digits of the current page, and the table pointers those of its path |
| RangeMapping.MapPages | src/mem/vmm.c:189-332 | every page of the range goes to its frame by the leaf planned for it, every other page keeps its leaf, and no page loses access: a page whose way was open can be written; the map in use keeps its meaning; every frame is accounted for as free, a table, handed to a leaf or lost, these apart from each other; one frame is handed out for each leaf begun, and only tables of the map before are lost |
| RangeMapping.LargeLeafIff | src/mem/vmm.c:243-269 | in the built map a page of the range is in a 1 GiB leaf, or else in a 2 MiB leaf, exactly when such a block around it fits, and the leaf starts at the right frame |
| RangeMapping.MappedShows | src/mem/vmm.c:189-332 | so page v+k goes to frame P+k for every k below n, every other page as before |
| MemoryInit.MapEntries | src/mem/memory.c:37-53 | after the loop, page (base / 0x1000 + j) above the offset shows frame base / 0x1000 + j for every page j of every entry of the types 0 to 7, no other page is mapped, and every page can be written; no idle table, and its frames accounted for |
| MemoryInit.NothingIdle | src/mem/vmm.c:277-321 | range mapping into a map whose page tables all translate some page keeps it so, and loses no table |
| MemoryInit.BootLeavesShow | src/mem/memory.c:37-63 | a map with those leaves is exactly the direct map and the kernel |
| MemoryInit.BootGigabytes | src/mem/memory.c:37-63 | the map after boot has a 1 GiB page if and only if a test on the memory map and the kernel's pages says so |
| MemoryInit.MemoryInit | src/mem/memory.c:8-69 | after boot the map in use shows exactly every page of every entry of the types 0 to 7 in the direct map and the pages of the kernel's bytes at the frames the loader had them, all writable; it has the leaves planned for them; every usable frame has one owner, the abandoned ones being one for each leaf begun and the tables that the loader's map grew by; the run invariant holds if and only if the flag is kept or no 1 GiB leaf was needed |
| MemoryInit.RoundTrip | src/mem/pmm.c:51-61 | physical to virtual and back is the identity on every usable page, before the VMM is started and while its map shows the direct map, as it does after boot and in every run |
| HeapPages.GrowHeap | src/mem/heap.c:183-191 | the pages added to the heap get distinct frames that were free, only the heap holds them, and no other translation changes |
| KernelMemory.HeapInit | src/mem/heap.c:19-35 | the heap starts with one free segment over one page of zeros, shown, writable, by a frame that was free |
| KernelMemory.KernelHeapAddress | src/kernel.c:23 | the kernel's heap address has room for a heap of 4 GiB apart from the direct map |
| KernelMemory.HeapByteHeld | src/mem/heap.c:183-191 | every byte of the heap can be written and has a physical byte, in a frame that is held, not free and no page table |
| KernelMemory.HeapBytesApart | src/mem/heap.c:183-191 | no two bytes of the heap have the same |
| KernelMemory.HeldBlocksShareNoByte | src/mem/heap.c:37-191 | so no two blocks that clients hold share a byte of physical memory |
| KernelMemory.ServeHeap | src/mem/heap.c:37-191 | a heap call follows its specification while the pages it adds are mapped to free frames under it, and no other translation changes |
| KernelMemory.ServePage | src/mem/vmm.c:86-427 | a page request that stays off the heap's pages and the direct map follows its specification and leaves the heap and its pages alone |
| KernelMemory.Run | src/mem/heap.c:37-191 | over every run of both kinds of request the heap is whole, its blocks known, every page of it can be written and has a frame of its own, every frame one owner, and the direct map is exact; each request follows its specification |
| Segments.LiveBlocksApart | src/mem/heap.c:37-80 | held blocks lie inside the heap, apart from each other and from all headers |
| Segments.MallocKeeps | src/mem/heap.c:37-80 | malloc keeps the segments tiling the heap, its end moved by the pages it added |
| Segments.MallocAllocates | src/mem/heap.c:37-80 | malloc takes the first free segment with room, or the last one with just enough pages added; it cuts it down to the size asked for exactly when more than a header is left over, which is then a free segment behind it; no other segment changes |
| Segments.MallocGives | src/mem/heap.c:69-79 | the block has at least the size asked for; the NULL return is never reached |
| Segments.MallocFreshIff | src/mem/heap.c:67-77 | the block is a new one if and only if a free segment fits or the last segment is free |
| Segments.MallocLive | src/mem/heap.c:37-80 | then malloc adds that block to the held ones and disturbs no other |
| Segments.MallocClashes | src/mem/heap.c:67-77 | a concrete heap whose held block is handed out again |
| Segments.FreeLive | src/mem/heap.c:100-114 | freeing takes that block from the held ones and disturbs no other |
| Segments.FreeKeeps | src/mem/heap.c:82-115 | freeing with both merges keeps the tiling |
| Segments.FreeMerges | src/mem/heap.c:100-114 | the freed segment and its free neighbours become one free segment from the first header to the last byte; no other segment changes |
| Segments.FreeNoTwoFree | src/mem/heap.c:105-114 | freeing coalesces fully: no two neighbours are free |
| Segments.MallocNoTwoFree | src/mem/heap.c:37-80 | malloc keeps neighbours from being both free |
| KernelHeap.SplitLinked | src/mem/heap.c:152-172 | splitting, as it stands or repaired, keeps the headers linked as the list of the segments |
| KernelHeap.SplitKeepsPrevIff | src/mem/heap.c:160-171 | as it stands, splitting keeps `prev` the inverse of `next` if and only if nothing is split or the last segment is |
| KernelHeap.SplitPrevExact | src/mem/heap.c:160-171 | repaired, it always does |
| KernelHeap.SplitExampleBreaks | src/mem/heap.c:160-171 | a concrete heap of three segments whose middle one is split: exact before, not after, exact with the repair |
| KernelHeap.MergeRepairedKeeps | src/mem/heap.c:175-180 | the repaired merge keeps the list, and `prev` the inverse of `next` |
| KernelHeap.MergeBreaks | src/mem/heap.c:175-180 | as it stands, a merge in front of another segment leaves headers that describe no heap up to the end |
| KernelHeap.MergeExampleBreaks | src/mem/heap.c:175-180 | a concrete heap of three segments that the merge breaks |
| KernelHeap.Heap.constructor | src/mem/heap.c:19-35 | one page, one free segment |
| KernelHeap.Heap.SplitSegment | src/mem/heap.c:152-172 | the header writes of a split |
| KernelHeap.Heap.HeapExtend | src/mem/heap.c:183-191 | the last segment and the heap grow by the pages; no byte of the old pages changes, those of the new ones are 0 |
| KernelHeap.Heap.Search | src/mem/heap.c:42-60 | the search stops at the first free segment that is large enough, or at the last one |
| KernelHeap.Heap.Malloc | src/mem/heap.c:37-80 | malloc over linked headers does to the segments what `Allocated` asks, splitting included, and refines malloc on the sequence; old bytes stay, new pages are zero, and no `prev` changes but that of the new segment, which points back at the block |
| KernelHeap.Heap.Find | src/mem/heap.c:84-96 | the ordered walk finds the header exactly when the pointer is a segment's, and stops safely otherwise |
| KernelHeap.Heap.MergeForward | src/mem/heap.c:175-180 | the header writes of a merge, and when it writes through NULL |
| KernelHeap.Heap.Free | src/mem/heap.c:82-115 | free as it stands comes back with a whole heap if and only if SafeToFree held, and then it has set the one flag and nothing else; a pointer that is no segment's changes nothing |
| KernelHeap.FreeExamplesUnsafe | src/mem/heap.c:112 | two concrete blocks for which free does not come back with a whole heap: the only segment, and the first block of malloc(16) |
| KernelHeap.Heap.FreeRepaired | src/mem/heap.c:82-115 | the repaired free refines free with full coalescing on the sequence |
| KernelHeap.Heap.Realloc | src/mem/heap.c:117-146 | a new block with the bytes of the segment at the pointer, held or not, as many as fit; every byte outside the new block is as it was; the old block stays allocated |
| HeapRuns.NothingHeld | src/mem/heap.c:19-35 | in a new heap no block is held |
| HeapRuns.HeldBlocksApart | src/mem/heap.c:37-191 | in every reachable heap, held blocks are inside it, disjoint from each other and from the headers |
| HeapRuns.Run | src/mem/heap.c:37-146 | over every run of malloc, free and realloc, the heap stays whole, each block is cut to its size, with the repairs `prev` inverts `next` and no two neighbours are free, the held blocks are known exactly, and each call follows its specification, bytes included |
| Vectors.Vector.Init | src/inc/vector.c:11-18 | an empty vector with two new blocks of the heap, one its own and one for its items |
| Vectors.Vector.Get | src/inc/vector.c:36-41 | the item at the index, or NULL past the end |
| Vectors.Vector.Add | src/inc/vector.c:30-34 | appends, although the block moves; every other byte of the heap is intact |
| Vectors.Vector.Insert | src/inc/vector.c:43-52 | inserts before the index, nothing past the end; every other byte of the heap is intact |
| Vectors.Vector.DeleteAt | src/inc/vector.c:67-75 | removes the item at the index, or the last one for an index past the end; an empty vector is none afterwards, and index UINT64_MAX writes over the block's header, each exactly then |
| Vectors.WordsStored | src/inc/vector.c:33-51 | storing one item reads back and changes no other item |
| NumberPrinter.DigitTable | src/rendering/renderer.c:128-136 | the characters of the digits: 0 to 9, then A to J with capitalise and a to j without |
| NumberPrinter.DigitCount | src/rendering/renderer.c:122-139 | a number has at most k digits if and only if it is below the k-th power of the base |
| NumberPrinter.TwentyEightDigits | src/rendering/renderer.c:106 | 28 digits are enough for every 64-bit number in every base from 5 on |
| NumberPrinter.NoLeadingZero | src/rendering/renderer.c:122-139 | no number but 0 starts with the digit 0 |
| NumberPrinter.EmittedParses | src/rendering/renderer.c:103-147 | sign, prefix and digits read back as the number, the most negative one included |
| NumberPrinter.DrawNumber | src/rendering/renderer.c:103-147 | what is emitted: the minus sign of a negative number, 0x or 0b, then digits in the case asked for that read back as the number; and exactly when the digit loop stays inside its buffer |
| NumberPrinter.BinaryOverflows | src/rendering/renderer.c:106-142 | 2^30 in base 2 has more digits than the buffer has bytes |
| TextCursor.Cursor.DrawChar | src/rendering/renderer.c:52-74 | one glyph is drawn where the specification says, and overlaps none drawn since the last clear |
| TextCursor.Cursor.CharacterAt | src/rendering/renderer.c:41-75 | where every character of a text with newlines goes: to the row that the lines above it and its own line leave it, in either column; the first one that finds no row left goes to the top of the other column, on a cleared screen after the second one |
| TextCursor.Cursor.NewLineAt | src/rendering/renderer.c:42-50 | a newline goes down one glyph height, to 0 in the first column and to half the width and a glyph in the second |
| TextCursor.Cursor.AfterBoth | src/rendering/renderer.c:41-75 | drawing a text in two parts is drawing it: so the law above goes on behind each column change |
| TextCursor.Cursor.RowMajor | src/rendering/renderer.c:52-74 | character k of a text without newlines that starts an empty column is the one at row k / n, place k % n |
| TextCursor.Cursor.Run | src/rendering/renderer.c:41-75 | over any text, the glyph rectangles between two clears are disjoint, and each ends above the last screen line exactly when the screen is taller than a glyph |

## Left out

- CR3 loads, `invlpg`, the TLB and the thread-safety remarks: inline assembly with no state the model could show; `vmm_set_pml4` changes the root only.
- That the kernel reads its own tables through the direct map: tables are addressed by their frame, and their bytes are kept apart from the bitmap's bytes; the ownership partition shows that they never share a frame.
- Zeroing of pages that clients get from `pmm_allocz`: the contents of client pages are not modelled, only those of tables and of the bitmap.
- Page attributes other than present, writable and large: the remaining bits are carried along, and that none of them is set is part of an open page; what a set bit does is not modelled.
- VirtualMemory.Vmm.MapPage: asks for as many free frames as tables are missing on the way (`Needs`), because with none left `pmm_alloc_phys` returns 0 and the code would use physical page 0 as a table.
- VirtualMemory.Vmm.UnmapPage: asks for the same.
- VirtualMemory.Vmm.Descend: asks for the same.
- VirtualMemory.Vmm.Free: asks for the frames its remapping takes, counting the one given back. When it frees a table of the map in use the model stops before the remapping.
- FrameAllocator.Pmm.constructor: asks for a usable page; `Pmm.Start` is `pmm_init` without that, and says when there is none.
- RangeMapping.MapPages: asks for a target range with nothing mapped, a page map that shares no table with the one in use, and 4 + 8 free frames for each leaf, which is more than it takes. The code is called with `num_pages` 0 for an entry shorter than a page: the contract says what it then does.
- MemoryInit.MemoryInit: asks that usable entries are page-aligned, disjoint and not based at 0, that there is at least one usable page, that no mapped entry is shorter than a page, that the boot loader's page map shows the direct map with its tables outside usable memory and, as the code stands, has no 1 GiB page, and that there are frames enough.
- Ownership.Run: passes over frees of frames that another owner has, and requests for which there are not frames enough.
- KernelMemory.Run: passes over page requests for pages of the heap or of the direct map, and heap calls that would add pages when there are not four frames for each.
- KernelMemory.HeapInit: asks for four free frames, that the heap's pages are open, as all pages are after boot, and that the heap's 4 GiB of addresses are none of the direct map's.
- HeapRuns.Run: passes over calls of malloc and realloc that would extend a held segment or the heap past 4 GiB, and over calls of `free`, as it stands, that would not come back.
- KernelHeap.Heap.Malloc: asks that the heap stays below 2^32 bytes, as the 32-bit size field does.
- KernelHeap.Heap.Realloc: the headers and the payload bytes are two fields of the model; `LiveBlocksApart` shows that they never overlap in memory.
- The heap's headers and bytes are kept apart from physical memory: `KernelMemory` maps every byte of the heap to its physical byte, and `GrowHeap` maps the pages of a call before the call's header writes, where the code writes the last header's size after each page.
- Vectors.Vector.Add: asks that the block can grow, as realloc does; `Vector.Init` asks the same for its two blocks. `vector_free`, `vector_free_all` and `vector_delete_all` are single heap calls and are not modelled.
- NumberPrinter.DrawNumber: bases 0 and 1 divide by zero or never end and are excluded; where the code would write past the buffer the model stops and says so.
- TextCursor.Cursor.Run: the cursor's coordinates do not wrap at 2^64; glyph pixels, `renderer_draw_string`'s word wrap and `printf` are left out.
- The other helpers of src/inc/string.c: `memcpy` and `memset` appear as the loops of `Heap.Copy` and `Pmm.ClearPage`; `memmove` is not used by the core.
- ACPI, PCI, AHCI, NVMe, interrupts, fonts, the framebuffer and the boot entry: device and firmware code with little state to prove things about.
