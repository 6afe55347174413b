# DiyOS in Dafny

A model of the parts of the DiyOS kernel that carry state and invariants, with proofs about
whole runs, in four stacks:

- **Memory**: the bitmap frame allocator (`Frames.dfy`), the two-level page map it feeds
  (`Paging.dfy`), stores through that map (`Access.dfy`), the map at boot (`Boot.dfy`), the block list
  of the heap (`Heap.dfy`), its headers as bytes in that memory (`Headers.dfy`), `malloc` over all
  of them (`Mm.dfy`) and the heap from boot on (`BootHeap.dfy`).
- **RAM disk**: path splitting (`Path.dfy`), the ustar archive (`Tar.dfy`), the directory tree
  (`RamTree.dfy`) and mounting, lookup, reading and listing (`RamFs.dfy`), with directories kept as
  linked lists (`List.dfy`).
- **Tasks**: the circular queue (`Queue.dfy`), tasks, messages, wait queues and scheduling as a
  transition system (`Tasks.dfy`), the kernel calls that perform its steps on circular queues
  (`Kernel.dfy`) and the timer's arithmetic (`Timer.dfy`).
- **ELF**: symbol search (`Elf.dfy`) and a writer of images to search in (`ElfWriter.dfy`).

`Machine.dfy` holds the machine words. Code that updates globals is modelled by classes and methods
with loops; each method is tied to a function on values, and the laws are lemmas about those
functions. `dafny verify dfyconfig.toml` checks everything.

The model follows the code where the code is narrower than its evident intent. What that leads to,
each time with the exact condition:

- The frame scan tests a whole bitmap byte, so a group of eight frames serves one. From
  `frame_setup` of [0, r) exactly (count + 7) / 8 - (r + 7) / 8 gets return a frame; then `frame_get`
  calls itself for ever, unless those gets used up every unreserved frame (`GetReturnsIff`,
  `GetsExactly`, `HangExample`).
- A new page table is not cleared: mapping a page moves no page that is mapped, but makes unmapped
  ones appear exactly when the frame taken held a present entry (`WriteMovesNone`, `MapIsolatedIff`,
  `DirtyTableExample`).
- `frame_setup` marks what it is told to, within the bitmap for every pair of bounds; its counter wraps
  when that is more than there is, and its loop never stops exactly when the end lies past the last
  page that the variable reaches (`SetupEndsIff`).
- The boot code maps 4 MB of kernel area to frames [0x100, 0x500) while only the frames [0, r) below
  the heap are reserved. Growing past that map gives out a frame that is mapped already, for a page
  or a table, exactly when 8 * ((r + 7) / 8) < 0x500; and otherwise no new table can be reached,
  because tables are written through their physical address and only the first 4 MB are mapped there
  (`BootGrowthAliasesIff`, `UnaliasedTablesUnreachable`).
- For the heap that means: from `mm` on, every run of `malloc` that ends at or below 0xC0400000 gets
  through, adds no page and takes no frame (`RunFromBoot`). The first request with malloc_top + size at
  or past 0xC0400000 makes two bytes of the heap one, exactly when 8 * ((r + 7) / 8) < 0x500: the first
  frame given out lies under a page of the heap, and what is stored in the new block is read in an older
  one (`ExpandFromBoot`, `OverlaidBytes`, `SharedInUse`). With the heap at 0xC0100000 it is the root
  block's own header (`RootOverwritten`).
- Stores go through the same memory as the map. A store of any word through a frame leaves the map
  sound, the free frames clear and every page in place exactly when the frame is taken and is neither
  frame 0, the directory nor a table (`StoresHarmlessIff`). On such pages `malloc` leaves every byte in
  use as it was and the headers of the new list in memory (`Malloc`, `MallocRun`).
- `malloc` asks for pages up to malloc_top + size and leaves the 20 bytes of the header out, so storing
  the header faults exactly when it crosses into a later page than that and the pages end there
  (`HeaderPassesIff`, `HeaderPassesExample`, `FitsIff`).
- The remainder test of `_split_hole` is unsigned and a split of the tail does not move `last_block`:
  the block list survives a request exactly when it is `Safe` (`SplitServes`, `SplitBreaks`).
- `mm` has a local `heap` that shadows the global one, which stays 0 until the first append; and the
  limit asked for leaves the block header out, so up to 19 bytes can lie past the mapped pages
  (`AppendPassesIff`, `AppendsBounded`, `AppendReaches19`).
- The timeout is unsigned: a sleep ends exactly if its length is even and not zero, and on time if it is
  a multiple of 10 ms (`SleepEndsIff`, `SleepIsExact`, `SleepTwo`).
- `elf32_get_sections` is documented to count sections of a type with given flags; it returns 0 as
  soon as one of the type has others (`SectionsAsDocumentedIff`). A typed symbol search gives a table
  up at the first symbol of the name (`SearchTypedIff`).
- `path` writes its final NULL into the word behind its array, where the next `malloc` puts a header
  (`NextBlockBehind`). So when a directory on the way to a member is missing, making it turns the
  member's last segment into a directory as well, with the member inside it under the string that the
  magic number leads to. `ramfs` builds the tree of the members' paths exactly when every directory on
  the way to each member is the path of an earlier member or leads to one (`RawBuildIff`,
  `StrayExample`). What resolves after the loop is read off the members (`RawHasIff`), and a regular
  member is found under its name exactly when its own way was there and nothing had its path before
  (`RawFindsIff`, `BesideStray`).
- `sleep_on` blocks the caller before `queue_add` drops it from a full queue: `wake_up` can reach it
  exactly when fewer than eight stood in the queue or it stood there itself, and a run from boot
  reaches the other case (`SleeperWokenIff`, `NinthSleeperLost`).
- `ramfs_read` copies from the start of the file whatever the offset (`ReadHonoursOffsetIff`), and
  past its end exactly when offset plus size wraps (`ReadStaysInFileIff`).

## Model

| member | source | states |
|---|---|---|
| Frames.GetReturnsIff | kernel/memory/frame.c:100-129 | frame_get returns, at some depth of its self-restart, exactly when the free counter is 0 or some group of eight with a frame below the count is wholly free; one restart then suffices |
| Frames.GetHangs | kernel/memory/frame.c:125-128 | otherwise no number of restarts ever returns |
| Frames.GetKeeps | kernel/memory/frame.c:100-129 | a frame handed out was neither held nor reserved, and the allocator invariant (bytes, one held frame a group, conserved counter) still holds |
| Frames.GetZeroMeansNone | kernel/memory/frame.c:107-109 | with frame 0 reserved, a 0 result means exactly that the counter was 0 |
| Frames.TakeKeeps | kernel/memory/frame.c:9-13 | marking a frame of a free group by assigning its byte keeps the invariant, with the frame added to the held set |
| Frames.ReleaseKeeps | kernel/memory/frame.c:35-46 | freeing a held frame empties exactly its group and gives the counter one back |
| Frames.RunKeeps | kernel/memory/frame.c:9-62 | every run of gets and of frees of held frames keeps the invariant: frames_free = frames_count - reserved - held, each unreserved group holds at most one frame and its byte is that bit |
| Frames.ExhaustionHangs | kernel/memory/frame.c:100-129 | with frames [0, r) reserved and two or more unreserved, the counter never reaches 0, and once no group is free frame_get never returns |
| Frames.GetsAsManyAsLeft | kernel/memory/frame.c:100-129 | from any state with a free frame for each free group, exactly as many gets in a row return a frame as there are wholly free groups |
| Frames.GetsExactly | kernel/memory/frame.c:48-129 | from frame_setup of [0, r) exactly (count + 7) / 8 - (r + 7) / 8 gets return a frame; the next one never returns, or finds the counter 0 if they used up every unreserved frame |
| Frames.HangExample | kernel/memory/frame.c:111-128 | 16 frames, [0, 8) reserved, frame 8 held: seven frames are counted free and frame_get never returns |
| Frames.HeldAbove | kernel/memory/frame.c:111-123 | with [0, r) reserved, no frame below 8 * ((r + 7) / 8) is ever held |
| Frames.FirstGet | kernel/memory/frame.c:48-123 | after frame_setup of [0, r) the first get returns frame 8 * ((r + 7) / 8) |
| Frames.NthGet | kernel/memory/frame.c:48-123 | for n below (count + 7) / 8 - (r + 7) / 8, get number n from frame_setup of [0, r), counted from 0, returns frame 8 * ((r + 7) / 8 + n), and the index is then r + n + 1 |
| Frames.GetAnswers | kernel/memory/frame.c:107-128 | with the counter above 0, a call that returns gives the least frame at or above the index whose group byte is zero and leaves the index one up; where there is none, the least frame of all, and leaves 1 |
| Frames.ThirdGetExample | kernel/memory/frame.c:111-123 | with [0, 8) reserved: get, get, free of frame 8, get returns frame 10 |
| Frames.BitIsShift | kernel/memory/frame.c:11 | the mark of a frame is 1 shifted by its place in the group |
| Frames.ReleaseCounts | kernel/memory/frame.c:35-46 | freeing clears the frame's bit and counts up exactly for frames up to and including the one behind the last |
| Frames.AtMostOnePerGroup | kernel/memory/frame.c:111-117 | the pigeonhole behind it: held frames are no more than the groups they lie in |
| Frames.FrameAllocator.constructor | kernel/memory/frame.c:48-62 | frame_setup from the zeroed bitmap marks exactly the frames from start to end, for every memory size and every pair of bounds for which the loop stops; the counter is count minus frames modulo 2^32; where all of them exist they are the reserved frames and the invariant holds |
| Frames.SetupEndsIff | kernel/memory/frame.c:57-61 | the loop of frame_setup ever stops exactly when start is at or past end, or end is at most 0xFFFFF000 plus start modulo 0x1000 |
| Frames.FrameAllocator.MarkAll | kernel/memory/frame.c:57-61 | the loop itself: one frame a page, the index counted up, the counter down with wrap-around |
| Frames.FrameAllocator.FrameSetAddress | kernel/memory/frame.c:15-23 | the byte of the frame's group is assigned, within the bitmap for every address, and the counter falls by one modulo 2^32 |
| Frames.FrameAllocator.FrameSet | kernel/memory/frame.c:9-13 | a frame of a free group joins the held set |
| Frames.FrameAllocator.Scan | kernel/memory/frame.c:111-123 | the loop finds the first frame from the index up whose group byte is zero |
| Frames.FrameAllocator.FrameGet | kernel/memory/frame.c:100-129 | the least frame at or above frame_idx of a group whose byte is zero, with frame_idx raised by one; else the least of all, with frame_idx at 1; 0 when the counter is 0; None exactly where the call never returns; the frame is new to held and reserved |
| Frames.FrameAllocator.FrameFree | kernel/memory/frame.c:35-46 | the masked byte and the counter for any frame, also one past the count; a held frame leaves the held set, the invariant holds and the counter rises by one |
| Paging.IndicesNamePage | kernel/x86/page.c:10-18 | (v >> 22, (v >> 12) & 0x3FF) determines the page |
| Paging.WriteMaps | kernel/x86/page.c:15-19 | after the two writes the page translates to the frame of the physical address |
| Paging.WriteElsewhere | kernel/x86/page.c:12-19 | pages under other directory slots keep their translation, because tables lie in frames of their own |
| Paging.WriteBeside | kernel/x86/page.c:12-19 | another page under the slot keeps its translation exactly when the table was there or its word in the new frame was not present |
| Paging.WriteMovesNone | kernel/x86/page.c:3-21 | page_map moves no other page that is mapped, whatever the frame taken for a table holds |
| Paging.MapIsolatedIff | kernel/x86/page.c:3-21 | page_map changes the translation of no other page exactly when the table existed or the frame taken for it holds no present entry |
| Paging.DirtyTableExample | kernel/x86/page.c:12-13 | a concrete memory in which mapping one page moves another |
| Paging.WriteKeeps | kernel/x86/page.c:3-21 | with free frames clear, page_map moves no other page and keeps the directory and tables sound |
| Paging.WriteWritable | kernel/x86/page.c:12-19 | the two writes leave their two words in place, make the page writable (bit 1 at both levels) and take that from no other page |
| Paging.NonZeroMeansMapped | kernel/x86/page.c:80-87 | in a sound map the word page_upper tests is non-zero exactly for mapped pages |
| Paging.RawTopIsTop | kernel/x86/page.c:78-92 | in a sound map the first page with a zero word is the first page that is not mapped |
| Paging.GrownStep | kernel/x86/page.c:101-112 | one more page on a fresh frame keeps all that page_map_until promises: frames of their own, no mapped page moved, every slot with its old table or a new one |
| Paging.GrownMaps | kernel/x86/page.c:94-115 | if the kernel area was mapped up to the first page added, it is mapped up to the last |
| Paging.ShrinkUndoesGrow | kernel/x86/page.c:94-132 | growing and then freeing what was added restores every translation; only frames of new page tables stay held |
| Paging.AddressSpace.TableFor | kernel/x86/page.c:10-15 | the directory word names the slot's table, or a fresh frame, or frame 0 when none is left; bits 0 and 1 are set and the other flag bits are as they were |
| Paging.AddressSpace.PageMap | kernel/x86/page.c:3-21 | the page translates to the frame and no mapped page moves, whatever free frames hold; the directory word is the table's frame with the slot's own flags and bits 0 and 1, the table word is the frame with flags 3, the page is writable and no page that was loses it; where free frames are clear no other page moves at all and the map stays sound |
| Paging.ClearedUnmaps | kernel/x86/page.c:46-64 | clearing the entry of a page mapped to a held frame that is no table unmaps that page alone, and the map stays sound without the frame |
| Paging.AddressSpace.PageUnmap | kernel/x86/page.c:46-64 | the entry is cleared and the frame it names freed, whatever they are; for a page mapped to a held frame that is no table the page has no translation any more, its frame is free again and no other page moves |
| Paging.AddressSpace.PageUpper | kernel/x86/page.c:66-92 | the page before the first one of the kernel area whose word is zero, with physical frame 0 read for an absent table, whatever it holds |
| Paging.AddressSpace.MapNext | kernel/x86/page.c:101-112 | one turn of the loop: a frame, a table if needed, or the two ways of getting none |
| Paging.AddressSpace.PageMapUntil | kernel/x86/page.c:94-115 | the pages added have distinct frames that nobody had and that are no tables; no mapped page moves; the counter falls by pages plus tables; the limit falls short only when no frame is left; the first page gets the frame of the first get; where the limit's page is mapped already nothing changes at all; and from a clean map no other page moves and the map is clean again |
| Paging.AddressSpace.PageFreeAbove | kernel/x86/page.c:117-132 | exactly the pages above the limit are unmapped and exactly their frames returned |
| Paging.AddressSpace.GrowThenShrink | kernel/x86/page.c:94-132 | the round trip of both on the real state: every translation as before, frames_free lower only by the new tables |
| Access.StoresHarmlessIff | kernel/memory/mm.c:107-112 | storing through a frame keeps the map sound, the free frames clear and every translation, whatever is stored, exactly when the frame is taken and is neither frame 0, the directory nor a table |
| Access.StoreThenLoad | kernel/memory/mm.c:107-112 | on a stretch of data pages a store is read back at its place and at no other, and the stretch stays one |
| Access.GrowthKeepsData | kernel/x86/page.c:94-115 | page_map_until keeps a stretch of data pages one: mapped to taken frames that are no tables, each page to its own |
| Access.StoreBytesRead | kernel/memory/mm.c:107-112 | bytes stored on data pages are read back where they are mapped, and no other byte of those pages changes |
| Access.ByteOrder | kernel/x86/page.c:19 | the four bytes of a word, low one first, are the frame above the twelve flag bits |
| Access.ReachesIff | kernel/memory/mm.c:107-112 | on data pages a store gets through without a fault exactly when all its bytes are mapped beforehand |
| Access.GrowthKeepsByte | kernel/x86/page.c:94-115 | page_map_until changes no byte that was mapped on data pages |
| Access.GrowthKeepsPrefix | kernel/x86/page.c:94-115 | the kernel area stays mapped from below without gaps |
| Boot.BootTranslates | kernel/x86/start.asm:46-86 | the boot map takes pages below 0x400 to themselves, page 0xC0000 + i to frame 0x100 + i for i < 0x400, and no other page anywhere |
| Boot.RemapChangesNothing | kernel/memory/mm.c:167-168 | one turn of the loop of mm within the boot map leaves memory word for word as it was |
| Boot.MapKernel | kernel/memory/mm.c:160-168 | the whole loop of mm that maps the kernel's pages again leaves memory and allocator as they were exactly when heap < 0xC0400000 |
| Boot.RemapTurn | kernel/memory/mm.c:167-168 | each turn of it, within the boot map and past it |
| Boot.BootSound | kernel/x86/start.asm:76-92 | it is a sound map once frame 0 is clear and its own frames are taken |
| Boot.BootMapExists | kernel/x86/start.asm:46-92 | such a memory exists |
| Boot.BootGrowthAliasesIff | kernel/memory/mm.c:150-162 | growing past the boot map with [0, r) reserved, r >= 0x100, gives out a frame that a kernel page is mapped to already, for a page or for a table, exactly when 8 * ((r + 7) / 8) < 0x500 |
| Boot.UnaliasedTablesUnreachable | kernel/x86/page.c:12-19 | when it does not, no new table is mapped at its own address, through which page_map writes it |
| Boot.BootAliasExample | kernel/memory/mm.c:150-162 | with 2 MB of 16 reserved the first frame given out is the one under page 0xC0100 |
| Boot.BootDataIff | kernel/memory/mm.c:150-172 | the pages from the heap's start on are data pages at boot exactly when they lie behind the boot map's kernel pages or all those pages' frames are reserved |
| Boot.BootTidyIff | kernel/memory/mm.c:150-172 | with the free frames clear, all that malloc asks of the map holds at boot under exactly that condition |
| Boot.GrowFromBoot | kernel/x86/page.c:94-115 | both results on the real state: what page_map_until does from boot |
| BootHeap.BootState | kernel/memory/mm.c:158 | a state of the kind that mm runs in: 16 MB, and a kernel that ends at 0xC0100000 |
| BootHeap.MmFromBoot | kernel/memory/mm.c:160-181 | mm on the boot map, for a heap that starts within it: memory holds the root block, and map and allocator are as they were |
| BootHeap.RunFromBoot | kernel/memory/mm.c:84-181 | from boot, every run of malloc that ends at or below 0xC0400000, whatever is requested, gets through: the list is that of the run, memory holds its headers, the payloads are apart, no frame is taken, and the boot map stands |
| BootHeap.ExpandFromBoot | kernel/memory/mm.c:9-12 | growing for a request from there, with a frame to be had: two bytes of the heap become one byte of memory exactly when malloc_top + size >= 0xC0400000 and 8 * ((r + 7) / 8) < 0x500 |
| BootHeap.OverlaidBytes | kernel/memory/mm.c:97-112 | every byte of the page that the first frame given out lies under is then the byte at the same place of page 0xC0400: a store to one is read at the other |
| BootHeap.SharedInUse | kernel/memory/mm.c:107-117 | both bytes are in use: every byte from the root to the end of the new block lies in a header or payload of the list |
| BootHeap.RootOverwritten | kernel/memory/mm.c:158-181 | with the heap at 0xC0100000 and 16 MB, a request of 3 MB after mm puts the new block's bytes from 0xC0400000 on over the root block's header |
| Heap.ServeTiles | kernel/memory/mm.c:33-121 | a safe request keeps the blocks tiling the heap from root to malloc_top |
| Heap.ServeFresh | kernel/memory/mm.c:61-121 | the bytes returned met no header and no live payload; the live payloads are the old ones and this one |
| Heap.InOrder | kernel/memory/mm.c:107-117 | in a tiled heap every block ends at or before the header of each later one |
| Heap.TotalIsExtent | kernel/memory/mm.c:107-117 | headers and payloads add up to malloc_top minus root |
| Heap.RunTiles | kernel/memory/mm.c:84-121 | every run of safe requests keeps the tiling and the sum, never moves, shrinks or drops a live payload, and adds one for each request |
| Heap.LiveDisjoint | kernel/memory/mm.c:84-121 | in a tiled heap no two live payloads overlap |
| Heap.NewPayload | kernel/memory/mm.c:84-121 | what a request returns overlaps nothing owned before, and all of that is still owned |
| Heap.SplitServes | kernel/memory/mm.c:33-59 | for a safe request the uint32_t header writes of the split give exactly the list the specification gives |
| Heap.SplitBreaks | kernel/memory/mm.c:40-57 | for an unsafe one no list in the resulting memory tiles the heap with last_block at its end |
| Heap.ServeAddsIff | kernel/memory/mm.c:40-57 | a request adds a block exactly when it appends one or the hole is 40 bytes or more larger than asked for |
| Heap.UnsafeExample | kernel/memory/mm.c:40 | such a heap and request exist |
| Heap.AppendPassesIff | kernel/memory/mm.c:97-117 | an appended block passes the mapped limit exactly when the heap had to grow and its last 20 bytes cross the page of malloc_top + size; never by 20 or more |
| Heap.AppendsBounded | kernel/memory/mm.c:84-121 | after every run of appends malloc_top < heap + 20 |
| Heap.AppendReaches19 | kernel/memory/mm.c:9-12 | the bound of 19 bytes is reached |
| Heap.HeaderPassesIff | kernel/memory/mm.c:97-112 | the new header itself passes the limit exactly when the heap had to grow and the header crosses into a later page than malloc_top + size |
| Heap.HeaderPassesExample | kernel/memory/mm.c:97-112 | a request of 12 bytes at 0xC0400FF0 below a limit of 0xC0401000 |
| Heap.FitsIff | kernel/memory/mm.c:97-112 | the same in terms of the first page that is not mapped |
| Heap.RunInside | kernel/memory/mm.c:84-121 | a run that ends on pages mapped at its start grows nothing and all its headers fit |
| Headers.RootStored | kernel/memory/mm.c:175-180 | after mm memory holds the header of the root block, and the map is as it was |
| Headers.HeaderExample | include/kernel/mm.h:16-24 | the twenty bytes of one header, written out: magic, hole, size, addr, next, each low byte first |
| Headers.BytesAre | include/kernel/mm.h:18-24 | a word lies in memory low byte first |
| Headers.HeaderReads | kernel/memory/mm.c:68-71 | reading a header's five words from memory undoes storing them |
| Headers.AppendReachesIff | kernel/memory/mm.c:107-115 | the stores of an append get through exactly when the place of the new header is mapped |
| Headers.SplitReachesIff | kernel/memory/mm.c:40-57 | the stores of a split get through exactly when the hole is used whole or the place of the second header is mapped |
| Headers.SafeReaches | kernel/memory/mm.c:40-57 | on a safe request they always do |
| Headers.AppendStored | kernel/memory/mm.c:107-115 | if memory holds the headers of the list, and the new one's place is mapped, then after the stores of an append it holds those of the list with the block added |
| Headers.AppendLive | kernel/memory/mm.c:107-115 | those stores change no byte of a payload in use |
| Headers.SplitStored | kernel/memory/mm.c:40-57 | on a safe request memory holds, after the stores of the split, the headers of the served list |
| Headers.SplitLive | kernel/memory/mm.c:40-57 | and no byte of a payload in use has changed |
| Headers.SplitTidy | kernel/memory/mm.c:33-59 | even an unsafe split leaves the page map as it was |
| Headers.MagicBehind | kernel/memory/mm.c:107-112 | the four bytes at malloc_top become those of MBLOCK_MAGIC and the next four zero |
| Mm.KernelHeap.constructor | kernel/memory/mm.c:170-181 | the root block of one byte is a tiled list and its header is stored; the global heap is 0 |
| Mm.KernelHeap.Store | kernel/memory/mm.c:107-115 | a store of bytes through the page map, one by one, into the memory that holds the page tables; it stops at the first byte that is not mapped, and gets through exactly when there is none |
| Mm.KernelHeap.SplitHole | kernel/memory/mm.c:33-59 | the headers after the call, read from memory and stored in uint32_t arithmetic, and when a store faults |
| Mm.KernelHeap.FindHole | kernel/memory/mm.c:61-82 | the walk along the links in memory serves the first hole that fits |
| Mm.KernelHeap.Malloc | kernel/memory/mm.c:84-121 | NULL exactly for size 0; the list afterwards is the served list exactly when the request was safe; malloc_top and heap move as in Append; it faults exactly when the new header does not fit the pages mapped by then; while frames last no byte in use changes, memory holds the headers of the new list and the heap stays on data pages; and a request that stays on mapped pages takes no frame, whatever frames lie under them |
| Mm.KernelHeap.AppendBlock | kernel/memory/mm.c:107-117 | the header at malloc_top linked behind the last one, in the list and in memory, and when a store faults |
| Mm.KernelHeap.Expand | kernel/memory/mm.c:9-12 | nothing changes where the page of malloc_top + size is mapped; else pages are added up to it, no byte of the heap's pages changes, and they are still data pages of a clean map |
| Mm.KernelHeap.MallocAtTop | kernel/memory/mm.c:95-121 | the part of malloc behind _find_hole: expand if needed, then append |
| Mm.KernelHeap.MallocRun | kernel/memory/mm.c:84-121 | a whole run on the real state: the list is that of the run, memory holds its headers, the payloads returned overlap neither each other nor any live one, no byte in use at the start changes, malloc_top < heap + 20 once a block was appended; with frames left it gets through exactly when every header fits; and a run that ends on the pages mapped at its start always gets through and takes no frame |
| Heap.NoHolesAppends | kernel/memory/mm.c:123-134 | free makes no holes, so every request appends at malloc_top |
| Heap.NextBlockBehind | kernel/memory/mm.c:107-117 | behind an array of n words that malloc returned last, the next request of any size puts MBLOCK_MAGIC at index n and 0 at index n + 1 |
| List.ListAdd | lib/list.c:4-36 | the value goes to the end of the same list |
| List.ListGet | lib/list.c:38-56 | the node at the index, NULL beyond the end and for the empty list |
| List.ListForeach | lib/list.c:58-87 | the first node the iterator stops at |
| Queue.Queue.constructor | lib/queue.c:3-10 | an empty queue, for every size including 0 |
| Queue.Queue.QueueAdd | lib/queue.c:26-37 | the contents gain the value at the end, or nothing when full, from the rear of 65535 on |
| Queue.Queue.QueueRemove | lib/queue.c:39-55 | the oldest value leaves; NULL and no change when empty |
| Queue.Queue.QueuePeek | lib/queue.c:12-19 | the oldest value, NULL when empty |
| Queue.Queue.Run | lib/queue.c:3-55 | every run of operations on the array returns and leaves what a bounded FIFO does |
| Path.SplitOfJoin | kernel/filesystem/path.c:5-46 | splitting undoes joining for slash-free segments |
| Path.JoinOfSplit | kernel/filesystem/path.c:5-46 | joining undoes splitting for every name |
| Path.SegmentsRoundTrip | kernel/filesystem/path.c:14-29 | every non-empty list of slash-free segments comes back from "/" + join + "/" |
| Path.EndSlashesIgnored | kernel/filesystem/path.c:14-29 | one leading or one trailing slash never matters between non-empty end segments |
| Path.SegmentsComplete | kernel/filesystem/path.c:5-46 | the segments determine the name up to the two end slashes |
| Path.SplitCount | kernel/filesystem/path.c:20-29 | the slashes counted in pass one are the segments walked in pass two |
| Path.CutPass | kernel/filesystem/path.c:20-29 | pass one cuts every slash of the copy to NUL and counts the segments |
| Path.WalkPass | kernel/filesystem/path.c:33-38 | pass two walks exactly the segments |
| Path.PathOf | kernel/filesystem/path.c:5-46 | the segments of the name and a NULL in the word just behind the block allocated for them; NULL for NULL |
| Tar.TarGetSize | kernel/filesystem/ramfs.c:285-296 | the value of the eleven octal digits modulo 2^32, for any bytes |
| Tar.OctalRoundTrip | kernel/filesystem/ramfs.c:285-296 | reading undoes octal printing at every width |
| Tar.SizeRoundTrip | kernel/filesystem/ramfs.c:285-296 | tar_getsize inverts printing for every size below 2^32 |
| Tar.HeaderReads | kernel/filesystem/ramfs.c:22-42 | name, size and type read from a written header are those written |
| Tar.WalkIs | kernel/filesystem/ramfs.c:298-332 | on any memory: the first header lies at the address, each further one behind the padded member before it and not past the end, and the walk stops at nothing but the end or an empty name |
| Tar.TarParse | kernel/filesystem/ramfs.c:298-332 | headers[] holds the addresses of the walk in order; a walk that runs past the end does not count its last header |
| Tar.ParseUndoesWriter | kernel/filesystem/ramfs.c:298-332 | on what a ustar writer wrote, the walk finds every header in order and stops at the zero block |
| Tar.MemberAt | kernel/filesystem/ramfs.c:311-316 | each address found holds that entry's header, with its payload 512 bytes on |
| RamTree.WalkIsFirst | kernel/filesystem/fs_root.c:48-58 | walking the tree segment by segment is searching the list of full paths for the first match |
| RamTree.ChildIsFirst | kernel/filesystem/ramfs.c:211-228 | the first child of a name is the first node with that path |
| RamTree.AddKeepsTree | kernel/filesystem/ramfs.c:113-115 | appending a node to a directory's list adds one path and keeps the tree |
| RamTree.LookupGrows | kernel/filesystem/ramfs.c:145-200 | an insertion never changes a lookup that succeeded |
| RamTree.CreateDirsHas | kernel/filesystem/ramfs.c:94-119 | making the missing directories up to length k makes resolvable exactly the missing prefixes |
| RamTree.RawHasIff | kernel/filesystem/ramfs.c:145-200 | after the loop a path resolves exactly when it is empty, a prefix of some member's path, or the stray path of a member whose way was not all there, all read off the members |
| RamTree.RawFiles | kernel/filesystem/ramfs.c:157-172 | every file node is a regular member, under its own path or its stray one, and carries its index |
| RamTree.RawRecords | kernel/filesystem/ramfs.c:94-200 | every node below the root is a directory made on the way to a member whose way was not all there, or the node of a member: a directory for a '5' entry, else a file with the member's index |
| RamTree.RawFileIff | kernel/filesystem/ramfs.c:145-200 | looking a path up gives a file with index j exactly when regular member j ended up there and nothing resolved there before its turn |
| RamTree.DirNotFile | kernel/filesystem/ramfs.c:175-198 | where a directory entry has a path that nothing resolved under before, the path resolves, and to no file |
| RamTree.RawFindsIff | kernel/filesystem/ramfs.c:145-200 | in every archive a regular member's path leads to its own node exactly when nothing resolved under that path before its turn and its way was all there |
| RamTree.GroundedFindable | kernel/filesystem/ramfs.c:145-200 | where no directory is missing anywhere that means: no earlier member has the path or lies under it |
| RamTree.BesideStray | kernel/filesystem/ramfs.c:94-116 | a missing directory hides that member alone: "c" is found beside "a/b" |
| RamTree.ClearSuffices | kernel/filesystem/ramfs.c:94-119 | when no regular member's path, own or stray, leads to a later member, creating a path never walks through a file |
| RamTree.RawTurnIff | kernel/filesystem/ramfs.c:145-200 | one turn of the loop, with the overwritten NULL, adds what the tree of paths needs exactly when no directory on the way is missing |
| RamTree.RawBuildIff | kernel/filesystem/ramfs.c:145-200 | after every member the loop has built the tree of the paths so far exactly when each proper non-empty prefix of each member's path is the path of an earlier member or leads to one |
| RamTree.RawInsertHas | kernel/filesystem/ramfs.c:148-198 | what one turn makes resolvable: the member's path and all on the way, and the stray path when a directory was missing |
| RamTree.StrayExample | kernel/filesystem/ramfs.c:94-116 | the archive with the one member "a/b": the name leads to a directory |
| RamTree.ChildrenAreKids | kernel/filesystem/ramfs.c:230-248 | the list of the first node with a path holds exactly the nodes directly under that path, in order of creation |
| RamFs.RamDisk.Adopt | lib/list.c:4-36 | list_add of a node to one directory's linked list: the tree gains that child last, and every other list is as it was |
| RamFs.Extend | lib/list.c:4-36 | list_add to one of many linked lists leaves the others as they were |
| RamFs.RamDisk.FindName | kernel/filesystem/ramfs.c:63-69 | list_foreach along the directory's linked list finds the first child with the name |
| RamFs.RamDisk.Enter | kernel/filesystem/ramfs.c:94-119 | the child directory, made if missing, and then the NULL behind the path array is overwritten |
| RamFs.RamDisk.CreatePath | kernel/filesystem/ramfs.c:76-122 | where no directory is missing, nothing changes and the parent directory is returned; where one is, the missing prefixes and the whole path become directories, the NULL is overwritten and the directory of the whole path is returned |
| RamFs.RamDisk.ParentFor | kernel/filesystem/ramfs.c:148-177 | the second call for a directory entry changes nothing more |
| RamFs.RamDisk.LastName | kernel/filesystem/ramfs.c:152-162 | the name read for the new node: the last segment, or the stray string once the NULL is overwritten |
| RamFs.RamDisk.AddMember | kernel/filesystem/ramfs.c:145-200 | one header turned into one node, as RawInsert says |
| RamFs.RamDisk.AddMembers | kernel/filesystem/ramfs.c:145-200 | the loop over all headers grows the tree that RawBuild gives of them |
| RamFs.RamDisk.Ramfs | kernel/filesystem/ramfs.c:124-209 | the tree is the one RawBuild gives for the names in the headers, in order; RawBuildIff says when that is the tree of the names |
| RamFs.RamDisk.FindDirFs | kernel/filesystem/fs.c:52-61 | only a directory finds, and it finds its first child of that name |
| RamFs.RamDisk.RootFindDir | kernel/filesystem/fs_root.c:16-66 | NULL for NULL; the root for "/"; NULL when no registered node has the first segment's name; another mount when the first such node is one; and on the disk a node exactly when some record has the rest of the segments as its path, the first one |
| RamFs.RamDisk.Descend | kernel/filesystem/fs_root.c:48-58 | the loop up to the NULL behind the array is the walk along the segments |
| RamFs.RamDisk.RamfsRead | kernel/filesystem/ramfs.c:266-283 | the first bytes of the file, as many as the uint32_t test lets through |
| RamFs.ReadStaysInFileIff | kernel/filesystem/ramfs.c:272-276 | the copy stays within the file exactly when offset plus size does not wrap |
| RamFs.ReadHonoursOffsetIff | kernel/filesystem/ramfs.c:272-278 | those are the bytes asked for, whatever the content, exactly at offset 0 or when none is copied |
| RamFs.ReadCountIs | kernel/filesystem/ramfs.c:266-283 | without wrap-around the count is the length asked for or what is left of the file behind the offset, whichever is less |
| RamFs.ReadCountWraps | kernel/filesystem/ramfs.c:272-276 | with wrap-around every length is let through |
| RamFs.RamDisk.RamfsReaddir | kernel/filesystem/ramfs.c:230-264 | the walk along the linked list ends at the index-th node directly under the directory's path, in order of creation, and the entry has that record's own name, inode and directory flag; NULL beyond the last |
| RamFs.EntryTells | kernel/filesystem/ramfs.c:250-262 | there is an entry at an index exactly below the number of children, with the name, inode and directory flag of that child's record |
| RamFs.ListedLookup | kernel/filesystem/ramfs.c:211-264 | the first entry of a name has the inode and directory flag of the node that looking the name up finds |
| RamFs.RootFs.FsRegister | kernel/filesystem/fs_root.c:98-105 | the node goes to the end of the linked list, and root_files is still the list's length |
| RamFs.RootFs.FsFind | kernel/filesystem/fs_root.c:8-14 | list_foreach finds the first registered node of the name |
| RamFs.RootFs.RootReaddir | kernel/filesystem/fs_root.c:68-96 | the walk by index ends at the index-th registered node, never at NULL below root_files, where the code reads it without a test |
| RamFs.RegisteredLast | kernel/filesystem/fs_root.c:98-105 | a node registered last is reached by its name exactly when no earlier one has the name |
| RamFs.RamDisk.Readdir | lib/system/readdir.c:4-28 | the path is resolved on each call; the entry at the cursor of what it leads to, with the cursor moved on by one |
| RamFs.RamDisk.ListDirectory | lib/system/readdir.c:4-28 | iterating from NULL by path lists each node directly under the path once, in order of creation, with its own inode and directory flag; a name is listed exactly when the path and it together resolve, and its first entry tells what looking that up gives |
| RamFs.RamDisk.ListRoot | kernel/do_it_yourself.c:31-32 | iterating readdir on "/" lists every registered node once, in order, with its address; a name leads somewhere exactly when it is listed |
| RamFs.HeadersAreEntries | kernel/filesystem/ramfs.c:145-156 | the headers found have the names and types of the entries written |
| RamFs.RamDisk.Mount | kernel/filesystem/ramfs.c:124-209 | mounting a written archive of up to 64 entries gives the tree that the loop builds of the entries' own names, and registers it; "ram" leads to it exactly when nothing of that name was registered before |
| RamFs.RamDisk.FindMounted | kernel/filesystem/fs_root.c:16-66 | on a mounted archive, read off its entries: a name under the disk's leads to a node exactly when the rest of its segments resolves, the disk's own name to its root node, to a file exactly where a regular entry ended up first, and to a directory where a directory entry came first |
| RamFs.RamDisk.ListMounted | kernel/filesystem/ramfs.c:230-264 | listing on a mounted archive, read off its entries: the names listed are those that resolve, and the first of a name is a file with entry j's index exactly where regular entry j ended up first, else a directory |
| RamFs.UnderRam | kernel/filesystem/fs_root.c:35-40 | "/ram/" + name has the segment "ram" and then the segments of the relative name |
| RamFs.DistinctNamesSuffice | kernel/filesystem/ramfs.c:145-200 | with every directory entered before what it holds, a regular name that is no prefix of another member's is findable |
| RamFs.RamDisk.LookupRead | kernel/filesystem/fs_root.c:16-66 | end to end, for every mounted archive: "/ram/" + the name of regular entry i leads from the root to a file node with inode i exactly when the entry is findable, and reading n bytes at offset 0 then returns its first min(n, size) payload bytes |
| Elf.GetSections | kernel/elf.c:110-131 | the number of sections of the type, or 0 if flags are asked for and some section of the type has others |
| Elf.SectionsAsDocumentedIff | kernel/elf.c:106-131 | this is the documented count exactly when no section of the type has other flags, or none has these |
| Elf.GetSectionsI | kernel/elf.c:137-162 | the section of that rank among those of the type, unless flags are asked for and one of the type up to it has others; none past the last |
| Elf.EntriesFollow | kernel/elf.c:172-187 | section headers and symbols lie one entry size apart |
| Elf.NamedIff | lib/string/strcmp.c:2-15 | a symbol has a name exactly when its bytes up to the first zero are that name, no more and no less |
| Elf.StrCmp | lib/string/strcmp.c:2-15 | the loop finds two strings equal exactly then |
| Elf.GetSymbolByName | kernel/elf.c:191-219 | the first symbol in the table whose string, up to its zero, is the name, unless a type is asked for and differs |
| Elf.NthNext | kernel/elf.c:143-158 | the section of the next rank is the first of the type after this one |
| Elf.ScanSkips | kernel/elf.c:230-236 | sections that are no symbol tables never matter to the search |
| Elf.SearchSymbol | kernel/elf.c:225-238 | the count-and-rank loop, comparing by strcmp, returns what one pass over the sections returns, for every name that a C string can hold |
| Elf.SearchFindsFirst | kernel/elf.c:225-238 | with no type asked for, the search succeeds exactly when some symbol table with a string table holds the name |
| Elf.TypedHitIff | kernel/elf.c:206-215 | a table yields its first symbol of the name, unless a type is asked for and that symbol has another |
| Elf.SearchTypedIff | kernel/elf.c:225-238 | whatever type is asked for, the whole search succeeds exactly when the first symbol of the name in some table has it, and returns that of the first such table |
| ElfWriter.FileHeaderReads | include/kernel/elf.h:50-71 | the section table and count read from a file header written byte by byte |
| ElfWriter.SectHeaderReads | include/kernel/elf.h:73-86 | so for the type, flags, offset, size, link and entry size of a section header |
| ElfWriter.SymEntryReads | include/kernel/elf.h:99-109 | and for the name and type of a symbol |
| ElfWriter.SectReads | kernel/elf.c:164-177 | in a written image of any number of symbol tables, each with its string table, every section header reads as written |
| ElfWriter.TableReads | kernel/elf.c:197-207 | and every table has its symbols, their types, and exactly their names |
| ElfWriter.DefinesWritten | kernel/elf.c:203-207 | the image defines a name at the places where it was written with exactly that name, and nowhere else |
| ElfWriter.SearchFindsWritten | kernel/elf.c:225-238 | searching a written image succeeds exactly when in some table the first symbol written with exactly that name has the type asked for, if any, and returns the entry of that symbol in the first such table |
| Tasks.PickIff | kernel/schedule.c:8-45 | schedule finds a task exactly when some READY task has priority -127 or more; it is the first in list order among the READY tasks of greatest priority |
| Tasks.ReschedKeeps | kernel/schedule.c:28-45 | with idle READY it always finds one, and the task switched to is READY |
| Tasks.StepSched | kernel/task.c:38-42 | every kernel call leaves idle READY and a READY task running |
| Tasks.StepPids | kernel/task.c:76-79 | PIDs stay pairwise distinct, 4 or 8 where forced, else 1001 plus the task's place in order of creation, until the counter would wrap |
| Tasks.StepTask | kernel/schedule.c:28-45 | no call changes a task's PID or priority, and only messages change its mail |
| Tasks.StepRunning | kernel/schedule.c:28-45 | spawning, sending, receiving and wake_up leave the caller running; the other calls and a tick end with the best READY task running |
| Tasks.StepSpawn | kernel/thread.c:6-43 | a new task is READY, last in the list, with the priority asked for, its PID, no message, and whatever timeout the memory held |
| Tasks.StepSent | kernel/message.c:4-26 | a message is logged exactly by a send to a PID that exists: from the caller's PID, to that PID, with that data |
| Tasks.StepMail | kernel/message.c:4-40 | a task's own receive takes its oldest message, a send to its PID adds the newest or drops it with 32 pending, and nothing else touches its mail |
| Tasks.StepWaits | kernel/thread.c:45-87 | sleep_on puts the caller behind the others unless there are eight, wake_up takes the first, and nothing else touches a wait queue |
| Tasks.StepTimeout | drivers/timer.c:7-18 | a task's timeout is set by its own sleep and sleep_on, falls by 10 modulo 2^32 at each tick unless it is 0, and is touched by nothing else |
| Tasks.ConservedDeliver | kernel/message.c:4-26 | a message becomes the newest pending one, or is dropped, and dropped only with 32 pending |
| Tasks.ConservedReceive | kernel/message.c:28-40 | the oldest pending message becomes the newest received one |
| Tasks.StepKeeps | kernel/thread.c:45-87 | every call keeps all invariants: scheduling, PIDs, messages, and wait queues that hold at most eight tasks |
| Tasks.RunKeeps | kernel/do_it_yourself.c:41-59 | so does every interleaving of calls |
| Tasks.ScheduleAlwaysFinds | kernel/schedule.c:28-45 | in every state reachable from boot schedule finds a task and it is the best one |
| Tasks.MailConserved | kernel/message.c:4-40 | in every reachable state a task's received messages, then its pending ones, are in sending order without repetition, and with the dropped ones are exactly those sent to its PID, which names it alone |
| Tasks.LogGrows | kernel/message.c:4-26 | over every run what was sent stays as it was sent |
| Tasks.DropOnlyWhenFull | lib/queue.c:26-37 | the only step that drops a message for a task is a send to it with 32 pending, and it drops that message |
| Tasks.WakeUpsDrain | kernel/thread.c:77-87 | n wake_ups take the first n tasks off the queue and make READY exactly those that stood there |
| Tasks.WokenIffQueued | kernel/thread.c:77-87 | some number of wake_ups makes a BLOCKED task READY exactly when it stands in the queue |
| Tasks.SleeperWokenIff | kernel/thread.c:45-87 | after sleep_on the caller is BLOCKED, and some number of wake_ups on that queue makes it READY exactly when fewer than eight stood there or it stood there already |
| Tasks.NinthSleeperLost | kernel/thread.c:51-53 | a run from boot to a sleep_on after which no number of wake_ups makes the caller READY |
| Tasks.PlaceInQueue | lib/queue.c:26-55 | over every run a task in a wait queue moves up one place at each wake_up on it and at nothing else |
| Tasks.NthWakeUpWakes | kernel/thread.c:77-87 | over every run the wake_up after i others on a queue makes the task that stood at place i READY |
| Tasks.StepStatus | kernel/thread.c:45-87 | what every call does to every task's status |
| Tasks.StatusIff | kernel/task.c:38-42 | a BLOCKED task becomes READY exactly by a message to it, its turn in a wait queue or a timeout at 10; a READY one is taken out of READY exactly by its own sleep_on, sleep or task_block |
| Timer.Counting | drivers/timer.c:7-18 | until it reaches zero the timeout after n ticks is (T - 10 n) modulo 2^32 |
| Timer.TurnsIsZero | drivers/timer.c:9-14 | an even timeout reaches zero at tick Turns(T), below 2^31 |
| Timer.ZerosApart | drivers/timer.c:9-14 | two ticks with a zero countdown are a multiple of 2^31 apart |
| Timer.SleepWakesAtTurns | drivers/timer.c:7-18 | the task is BLOCKED before that tick and READY at it |
| Timer.SleepEndsIff | drivers/timer.c:7-24 | some tick ever makes the task READY exactly when the timeout is even and not zero |
| Timer.SleepIsExact | drivers/timer.c:20-29 | a multiple of 10 ms ends at exactly its tick |
| Timer.SleepTwo | drivers/timer.c:11 | two milliseconds last 1288490189 ticks |
| Timer.TicksInSystem | drivers/timer.c:20-29 | a run of ticks in the whole system does to each task what the countdown says |
| Timer.SleepInSystem | lib/system/sleep.c:3-13 | a running task that sleeps T ms is, with nothing but ticks after it, READY after n <= Turns(T) of them exactly when n = Turns(T) for an even T above 0, and never for an odd one or for 0 |
| Timer.SleepOnUntimed | kernel/thread.c:55-59 | a task that calls sleep_on without a timeout is made READY by no number of ticks |
| Kernel.Kernel.constructor | kernel/task.c:32-36 | tasking() gives the boot state, which meets every invariant, over freshly initialised queues |
| Kernel.Kernel.FindHigherPriority | kernel/schedule.c:8-16 | the greatest priority of a READY task, at least -127 |
| Kernel.Kernel.HigherTask | kernel/schedule.c:18-26 | the first READY task of that priority |
| Kernel.Kernel.Schedule | kernel/schedule.c:28-45 | the running task becomes the best READY one |
| Kernel.Kernel.TaskFromPid | kernel/task.c:64-74 | the first task with the PID |
| Kernel.Bank.Init | lib/queue.c:3-10 | one more empty circular queue beside the others |
| Kernel.Bank.Add | lib/queue.c:26-37 | queue_add to one circular array of many: that FIFO gains the value or drops it, the others are as they were |
| Kernel.Bank.Remove | lib/queue.c:39-55 | queue_remove from one of many |
| Kernel.Kernel.Spawn | kernel/thread.c:6-43 | thread_create with its queue_init, and task_add, do on control blocks and circular arrays what the spawn step does |
| Kernel.Kernel.MessageTo | kernel/message.c:4-26 | task_from_pid, queue_add to the target's circular array and TS_READY do what the send step does on the FIFO: the message pending, or dropped with 32 pending |
| Kernel.Kernel.ReceiveMessage | kernel/message.c:28-40 | queue_remove from the running task's circular array does what the receive step does and returns the oldest pending message |
| Kernel.Kernel.SleepOnQueue | kernel/thread.c:45-75 | TS_BLOCKED, queue_add to the wait queue's circular array and schedule do what the sleep-on step does, and the best READY task runs |
| Kernel.Kernel.WakeUpQueue | kernel/thread.c:77-87 | queue_remove from the wait queue's circular array and TS_READY do what the wake-up step does |
| Kernel.Kernel.SleepFor | lib/system/sleep.c:3-13 | the control block's two fields and the traversals of schedule do what the sleep step does, and the best READY task runs |
| Kernel.Kernel.TaskBlock | kernel/task.c:38-42 | the control block's status and the traversals of schedule do what the block step does, and the best READY task runs |
| Kernel.Kernel.UpdateTimeouts | drivers/timer.c:7-24 | every task of the list is ticked once |
| Kernel.Kernel.TimerHandler | drivers/timer.c:20-29 | the tick step, ending with the best READY task running |

## Left out

- Hardware and foreign code: drivers, port I/O, PCI, ACPI, PIC, descriptor tables, assembly files; switch_to is setting the running task.
- GUI, graphics, fonts, console, terminal, printf and string helpers: shallow or textbook code that would only add easy members.
- Interrupts inside a kernel call: each call is one atomic step.
- task_exit, waiting for a dead child and timed sleep_on: message_to, wake_up and the timer set TS_READY without looking at the status, so no clean claim about whole runs holds there.
- lib/ring.c, queue_foreach and frame_get_blk: another form of the queue, and functions without callers.
- elf32_reloc_apply, load_elf_exec, aspace.c, module.c, free, constrict: field updates one at a time, or bodies that are commented out or not called; since free does nothing, holes enter as an arbitrary tiled list.
- devfs: a mount other than the RAM disk is known by its name, type and address, and what it finds or lists is not modelled.
- Magic numbers, out-of-memory results of malloc inside other functions and addresses that wrap past 2^32: preconditions where they matter.
- Access to a page table or the directory by its physical address: the model reads and writes physical memory directly, while the kernel can do so only where that memory is identity-mapped; Boot.UnaliasedTablesUnreachable says what that means for growing from boot.
- What follows a fault: malloc ends in Fault there, and the kernel's fault handler is not modelled; the string at MBLOCK_MAGIC, taken for an address, is a parameter of the RAM disk, as if it could be read.
- Frames.FrameAllocator.constructor: requires bounds for which the loop stops, as SetupEndsIff decides.
- Paging.AddressSpace.PageMapUntil: requires the tables to lie in taken frames of their own, and the limit to stay below 0xFFFFF000 so that the address does not wrap.
- Paging.AddressSpace.GrowThenShrink: requires the free frames and physical frame 0 to be clear, because otherwise pages appear that neither call looks at.
- Mm.KernelHeap.Malloc: requires the list to be in memory, the heap below KERNEL_LIMIT, and frames under its pages that the allocator cannot give out if the heap is to grow; from boot, BootHeap.ExpandFromBoot says what growing does without that.
- BootHeap.ExpandFromBoot: speaks of memory before the header is stored, because the store can hit the new page table.
- Tar.TarParse: requires at most 64 headers on the walk, because headers[] has 64 slots and the code does not check.
- RamFs.RamDisk.CreatePath: requires the directories on the way not to be files, because the code would take a file's index for a list.
- RamFs.RamDisk.Ramfs: requires every member to be a regular file or a directory, no file in the way of a later member and the archive to end with an empty name, because the default case adds an uninitialised node.
- RamFs.RamDisk.RamfsReaddir: the inode of an entry for a directory is 0, where the code copies the address of its list.
- List.ListGet: for the empty list the code reads the magic number at address 0, which is taken not to be LIST_MAGIC.
- RamFs.RamDisk.LookupRead: names of up to 99 bytes, because a name of 100 has no terminating NUL and runs into the next field.
- ElfWriter.SearchFindsWritten: images below 4 GB with entries of 16 bytes, headers of 40 and the string table right behind its symbol table; Elf.SearchTypedIff speaks of every layout.
- Elf.SearchTypedIff: requires that no symbol table links to the section one past the last, which elf32_get_section_i lets through.
- Tasks.ScheduleAlwaysFinds: over runs in which idle makes no blocking call, because idle() (kernel/task.c:11-18) only halts.
- Tasks.StepPids: a spawn is not considered once the counter would wrap, because PIDs repeat from then on.
