# Two small kernels: allocator, printf, tasks, boot loader, console, page tables

This project models the state-changing parts of two hobby kernels, `cOS` (C and assembly)
and `rustOS` (Rust and assembly), and proves what they keep true.

* **Physical pages (cOS).** `init_memory` turns an E820 map into zones, page structs and a
  bitmap; `alloc_pages` searches the bitmap a word at a time with a two-word funnel shift;
  `page_init` and `page_clean` move reference counts and zone counters. `PageAllocator` is
  that code over arrays updated in place. `PageAccounting`, `PageMarking` and `RunSearch` hold
  the value functions it is proved against; `RunSearch` also says exactly when the pages
  handed out are the pages that were tested. `PageRuns` and `KernelProtection` are about runs
  of the three calls with the effect the code gives them. `BootRequests` goes from the map in
  memory to the zones a request is served from. The bitmap, the page structs and
  the zone counters stay in step over every run. A page whose bit is set is handed out only
  by an allocation that has it in reach, which the map of zones and pages decides before the
  run (`PageRuns.Reached`); `ZoneLayout` shows that this condition, and the one for whole
  blocks, is exact. The kernel's pages are out of reach over all runs if and only if the first
  zone starts at page 1. `AllocatorExamples` and `BootExample` have concrete states.
* **printf (cOS).** `FormatPrinter` and `NumberPrinter` move a pointer through a buffer as
  `__vsprintf`, `__number` and `__skip_atoi` do. `FormatString` and `NumberFormat` say what a
  format prints, independently of that code: a parse into literals and directives, rendered
  one by one, with a separate reader that gets the number back. `FormatLaws` says what each
  flag and each conversion letter stands for.
* **Tasks (cOS).** `RingList` is the intrusive list over real nodes, with runs of list
  operations against a plain sequence. `TaskSwitch` runs
  `switch_to`, `do_fork`, `kernel_thread` and `kernel_thread_func` instruction by
  instruction, with PCBs, `thread_struct`s and stacks in one memory; `ContextSwitch` proves over all runs that a task comes back with what it left
  with, and that a new thread reaches its function.
* **FAT12 (cOS).** `Fat12` describes the floppy; `FatLoader` is the two boot programs over a
  memory array: sector reads, 12-bit entries, directory search, cluster chains. `FatImage`
  writes a disk with a file, which they load.
* **VGA text (rustOS).** `VgaWriter` scrolls a 25 x 80 array in place; `TextLog` is an
  unbounded log of rows of which the screen always shows the last 25.
* **Frames and page tables (both).** `FrameAllocator` is the lazily re-enumerated list of
  usable frames; `PageTables` holds the processor's walk (section 4.5 of the Intel SDM
  Volume 3A), the tables both kernels boot with, and rustOS's own software walk.

## Where the code differs from its intent

The model follows the code. These differences are proved, not repaired.

* `alloc_pages` tests the run that starts at page `j - shift + k` but hands out the pages
  from `j + k - 1` (memory.c:170). A hit is a block of clear bits in every bitmap if and only
  if `j % 64 == 1` (`PositionServesClearIff`). So, in all states with a given map of zones and
  pages, a zone is served clear blocks if and only if every position at which there can be a
  hit is page 1 of a word (`MapServesClearIff`). A zone in one bitmap word, from page 1 of it
  on or from its upper half, where it is not searched at all, is such a zone for every map
  (`OneWord`), and so is one that fills its word if the next word stands for no page
  (`FullWordIsInStep`).
* For other zones, a request can take page x from its holder if and only if some position at
  which there can be a hit has x in its block and not among its tested bits (`ReachedIff`).
  Pages in the same word as the start of a zone from page 1, its last page excepted, are never
  in reach, however long the zone is (`LowPageIsNotReached`).
* From such positions the same page can be given out twice. A request made again right away is
  given the same pages if and only if the block misses the tested bits (`SameBlockAgainIff`);
  for one page that is every hit with `j % 64 != 1`. Once the pages that a zone from page 1
  can be served from its first word are taken, every further one-page request to it is given a
  page that the next one is given too (`LargeZoneRepeats`). `ExampleTakesUsedPage` is a
  four-page zone from address 0.
* A kernel that ends below page 62 of the first zone is protected in all runs if and only if
  that zone starts at page 1 (`KernelIsHeldIff`). If it starts at page 0, the very first
  one-page request is given the last page of the kernel (`FirstRequestTakesKernelPageIff`).
  `KernelIsHeldExample` and `FirstRequestExample` are two machines of 256 MiB.
* On a machine with RAM from 4 GiB on, `ZONE_UNMAPPED` is served from a zone that starts at a
  multiple of 64 pages. The first request to it is given the page below the zone, and where
  there is no RAM, follows a wild pointer (`UnmappedRequestStraysIff`).
* A zone whose start page lies in the upper half of a word never has its first word searched
  (memory.c:161, `FirstWordExaminedIff`).
* For `k == 0` the second word is shifted by 64 (memory.c:167), which C leaves undefined. The
  model takes shift counts modulo 64 as x86 does, so both words are or-ed in full.
* The funnel reads `*(p + 1)`, which lies behind the bitmap for its last word. The model puts
  two words of arbitrary content there. A hit that involves them may make `alloc_pages` run
  past the page structs, which is the outcome `Stray`.
* `page_clean` does not clear the bit of a shared page whose last link it drops
  (memory.c:82-90): `CleanKeepsExactIff`, `ExampleLosesExactness`. Such a page stays out of
  use exactly until some hit's block contains it (`LeakLastsIff`), which can happen
  (`ExampleHandsOutLeakedPage`); if no allocation has it in reach, it is lost for good
  (`DroppedPageIsLost`).
* `page_init` with flags 0 on an unused page breaks the accounting (`PageInitKeepsIff`).
* Page 0 is charged to zone 0 even where it lies outside it (memory.c:362-363), so tallies go
  by the `zone_struct` pointer, and a zone's free count can fall below 0 and wrap; its test
  then always passes (`EnoughIff`).
* The boot sector's load offset is the 16-bit register `bx` (boot.asm:221), so a loader of
  more than 128 clusters overwrites its own start (`FileIsIntactIff`, `LongFileExample`).
* `__number` overruns its 50-character buffer exactly for numbers of 2^50 and more in base 2
  (`MoreThan50DigitsIff`); no caller passes that base.
* rustOS's `translate_addr_inner` panics exactly when it meets an entry with bit 7 set, at
  any level (`TranslateAddr`).
* The E820 copy loop tests the entry after the one it copied, so the first entry is taken
  unseen (memory.c:221-226).

## Assumptions

* Counters and reference counts are integers without an end. The one comparison that depends
  on wrap-around, `page_free_cnt < number`, is taken modulo 2^64.
* The E820 map is sorted and disjoint and ends a page below 2^64, at least one entry holds a
  whole page, and RAM lies under every page that is reserved except perhaps page 0
  (`Bootable`). The code relies on all of this without checking.
* `alloc_pages` is called with 0 to 64 pages, as its comment demands.
* The output buffer of `__vsprintf` is large enough, and its strings and format do not lie in
  it. Variable arguments are an endless run of 64-bit slots.
* Between switches nobody writes to the live stacks of other tasks, or to the flags, thread
  pointer or `thread_struct` of any task (`ContextSwitch.Works`), and each task has room below
  its stack pointer for the frames of a switch.
* The chain of a file ends in 0xfff on the disk and stays on it. Without that the loading
  loops of the boot programs need not end.

## Model

| member | source | states |
|---|---|---|
| `Bits.MinusOneSubtractsOne` | cOS/kernel/src/memory.c:168 | The bit-by-bit decrement takes one off the unsigned integer the bits spell, for every non-zero word |
| `Bits.MaskBit` | cOS/kernel/src/memory.c:168 | The mask has exactly its low `number` bits set, 64 included |
| `Bits.FunnelTest` | cOS/kernel/src/memory.c:167-168 | The masked funnel is zero if and only if `number` consecutive bits from bit k of the two words are clear, and for k = 0 exactly when the low bits of both words are |
| `Bits.UpdateBit` | cOS/kernel/src/memory.c:55-57 | Changing one bit of one word changes one entry of the bitmap read bit by bit |
| `PageAccounting.TallyUpdate` | cOS/kernel/src/memory.c:59-62 | Replacing one page struct moves a zone's sums by the difference of that page's shares |
| `PageAccounting.ZonesStayOk` | cOS/kernel/src/memory.c:60-62 | A page and its zone changed in step leave every zone's counters equal to the tallies of its pages |
| `PageAccounting.PageInitKeeps` | cOS/kernel/src/memory.c:53-78 | Initialising an owned page keeps bitmap, page structs and zone counters consistent |
| `PageAccounting.PageCleanKeeps` | cOS/kernel/src/memory.c:80-102 | Cleaning an owned page keeps them consistent |
| `PageMarking.PageInitKeepsIff` | cOS/kernel/src/memory.c:53-78 | page_init keeps the accounting if and only if the flags are not 0 or the page is already in use |
| `PageMarking.CleanSubtractsOneLink` | cOS/kernel/src/memory.c:80-102 | page_clean takes exactly one link off a page in use, and takes it out of use exactly when that was its only one |
| `PageMarking.LinkIsAddedIff` | cOS/kernel/src/memory.c:64-75 | page_init of a page in use adds a link if and only if bit 2 or bit 8 is set in its attribute or in the flags |
| `PageMarking.CleanUndoesInit` | cOS/kernel/src/memory.c:53-102 | With neither bit in the flags page_clean after page_init of a free page gives back the whole earlier state: bitmap, page structs, zone counters |
| `PageMarking.SharedPageKeepsBit` | cOS/kernel/src/memory.c:53-102 | With one of them, n page_init calls give an unused page n links, and n page_clean calls give back the earlier state but for the page's bit, which stays set |
| `PageMarking.OperationsAreLocal` | cOS/kernel/src/memory.c:53-102 | Neither operation touches another page's bit, another page struct, or another zone |
| `PageMarking.InitKeepsExact` | cOS/kernel/src/memory.c:53-78 | page_init keeps "bit set if and only if page in use" |
| `PageMarking.CleanKeepsExactIff` | cOS/kernel/src/memory.c:82-97 | page_clean keeps it if and only if it does not drop the last link of a shared page |
| `PageRuns.RunKeepsExact` | cOS/kernel/src/memory.c:53-187 | Over any run that drops no shared page the bitmap says exactly which pages are in use |
| `PageRuns.RunKeepsAccounts` | cOS/kernel/src/memory.c:53-187 | In every state of a run of page_init, page_clean and alloc_pages calls each zone's page_using_cnt and total_page_lnk are the tallies of its pages, using + free is page_len, and a page in use has its bit set |
| `PageRuns.RunKeepsPlaces` | cOS/kernel/src/memory.c:53-187 | No call of a run moves a zone, resizes the bitmap or changes which pages have an owner |
| `PageMarking.UnusedPagesComeFresh` | cOS/kernel/src/memory.c:171-175 | The marking loop over unused pages sets exactly their bits, gives each ref_cnt 1 and the flags, and leaves all else alone |
| `PageMarking.FreePagesComeFresh` | cOS/kernel/src/memory.c:171-175 | The same for any pages whose bits are clear in a consistent state |
| `PageMarking.MarkingMarks` | cOS/kernel/src/memory.c:171-175 | Whatever state the pages were in, the marking loop leaves them in use with their bits set and touches no other bit and no other page |
| `PageRuns.OnlyCleanClearsABit` | cOS/kernel/src/memory.c:92-94 | Of all calls only page_clean of that very page clears a bit |
| `PageRuns.InStepTakesClear` | cOS/kernel/src/memory.c:157-175 | What alloc_pages finds at page 1 of a word are pages whose bits were clear |
| `PageRuns.HandedOutIsInUse` | cOS/kernel/src/memory.c:171-175 | Every page alloc_pages hands out is in use afterwards with its bit set |
| `PageRuns.OutOfReachTakesClear` | cOS/kernel/src/memory.c:157-175 | A page that an allocation hands out without having it in reach had a clear bit |
| `PageRuns.HeldUntilCleaned` | cOS/kernel/src/memory.c:109-187 | Over any run of the three calls a page whose bit is set is handed out only after it was cleaned, or by an allocation that has it in reach on the map before the run, and then at a hit away from page 1 of a word |
| `PageRuns.NoDoubleAllocation` | cOS/kernel/src/memory.c:109-187 | Over any run a page handed out twice was cleaned in between, or the second allocation has it in reach and found it away from page 1 of a word |
| `PageRuns.TidyReachesNothing` | cOS/kernel/src/memory.c:147-161 | If the zones searched can have hits at page 1 of a word only, no allocation has any page in reach |
| `PageRuns.LowPageIsNotReached` | cOS/kernel/src/memory.c:147-175 | A page that is not the last of its word is out of reach if every zone, of any length, starts at page 1 of that word or above the page |
| `PageRuns.RepeatedRequest` | cOS/kernel/src/memory.c:161-180 | A request whose block misses the tested bits, made twice in a row, is given the same pages both times |
| `PageRuns.LargeZoneRepeats` | cOS/kernel/src/memory.c:156-175 | For a zone from page 1 of a word whose first 62 pages are taken and that counts two free pages: whatever page a one-page request is given, the next such request is given too, and it is not one of those pages |
| `PageRuns.LeakLastsIff` | cOS/kernel/src/memory.c:82-90 | Over a run of alloc_pages and page_clean calls a page with its bit set and no attribute stays that way if and only if no allocation has it in its block |
| `PageRuns.DroppedPageIsLost` | cOS/kernel/src/memory.c:82-90 | A shared page dropped to zero is lost for good over every run whose allocations do not have it in reach |
| `RunSearch.TestIsClear` | cOS/kernel/src/memory.c:157-168 | The test on words j/64 and j/64+1 reads the right bits of the bitmap, for every k and number |
| `RunSearch.EnoughIff` | cOS/kernel/src/memory.c:144-145 | A zone passes the unsigned free-count test exactly when enough pages are left or its count has wrapped |
| `RunSearch.TestedRunIsFree` | cOS/kernel/src/memory.c:161-170 | The pages from j - shift + k on, which the test looked at, are owned and free |
| `RunSearch.FirstWindowIsFresh` | cOS/kernel/src/memory.c:167-175 | A hit with j % 64 = 1 hands out the tested pages, which were free and come fresh, and nothing else moves; at no other j is the block the tested run |
| `RunSearch.PositionServesClearIff` | cOS/kernel/src/memory.c:161-170 | For every loop position: in every bitmap a hit there means a clear block, if and only if j % 64 = 1 |
| `RunSearch.OneWordIff` | cOS/kernel/src/memory.c:147-161 | All loop positions of a zone are at page 1 of a word if and only if it lies in one word, from page 1 or from the upper half on |
| `RunSearch.ServesClearIff` | cOS/kernel/src/memory.c:147-180 | For every zone and arbitrary bitmaps: the first hit of the search is a clear block in all of them, if and only if the zone lies so |
| `ZoneLayout.MapServesClearIff` | cOS/kernel/src/memory.c:147-180 | For every zone and the bitmaps the code can be in: in every consistent state with a given map of zones and pages the first hit is a clear block, if and only if all positions at which there can be a hit are page 1 of a word |
| `RunSearch.OneWordIsInStep` | cOS/kernel/src/memory.c:147-161 | A zone in one word, from page 1 or from the upper half on, meets this for every map |
| `RunSearch.FullWordIsInStep` | cOS/kernel/src/memory.c:147-161 | So does a zone that fills its word from page 1 on, if no page of the next word exists |
| `ZoneLayout.ReachedIff` | cOS/kernel/src/memory.c:147-180 | In some consistent state with the map a request to the zone hands out a page whose bit is set, if and only if it has that page in reach |
| `RunSearch.InStepZonesAreFresh` | cOS/kernel/src/memory.c:138-187 | If every zone searched can have hits at page 1 of a word only, any request of up to 64 pages that is served is given free pages and they come fresh; only where every bit of the bitmap stands for a page must the request fit behind the zone |
| `RunSearch.AlignedBlockIsClearIff` | cOS/kernel/src/memory.c:161-170 | At a 64-aligned j the block is clear if and only if the page before the tested run is, for every k |
| `RunSearch.AlignedWindowTakesUsedPage` | cOS/kernel/src/memory.c:161-170 | And at a first hit that page is always taken for k at least 2, and for k = 0 if the search has passed the last bit of the word before |
| `RunSearch.SameBlockAgainIff` | cOS/kernel/src/memory.c:138-187 | With pages to spare, the same request made again finds the same run if and only if the block misses the tested bits; for one page, if and only if j % 64 is not 1 |
| `RunSearch.FirstWordExaminedIff` | cOS/kernel/src/memory.c:156-161 | A zone's first word is searched at all if and only if its start page lies in the lower half of the word |
| `AllocatorExamples.ExampleTakesUsedPage` | cOS/kernel/src/memory.c:170 | In a consistent state of four pages a request is given page 1, which is in use; nothing at all changes |
| `AllocatorExamples.ExampleLosesExactness` | cOS/kernel/src/memory.c:82-90 | Dropping the one link of its shared page 1 leaves a bit set for a page that is not in use |
| `AllocatorExamples.ExampleHandsOutLeakedPage` | cOS/kernel/src/memory.c:170 | And that leaked page is handed out by the next request |
| `PageAllocator.NoPositionBetween` | cOS/kernel/src/memory.c:154-156 | The uneven stride of j skips no multiple of 64 |
| `PageAllocator.Allocator.PageInit` | cOS/kernel/src/memory.c:53-78 | In place, page_init makes exactly the new state the accounting theorems are about |
| `PageAllocator.Allocator.PageClean` | cOS/kernel/src/memory.c:80-102 | In place, page_clean does |
| `PageAllocator.Allocator.ScanWord` | cOS/kernel/src/memory.c:161-181 | The first k in [shift, 64 - shift) whose run is clear, or none exactly if there is none |
| `PageAllocator.Allocator.ScanZone` | cOS/kernel/src/memory.c:147-182 | The first hit of a zone in the order of the loops, or none if no position hits |
| `PageAllocator.Allocator.SelectZones` | cOS/kernel/src/memory.c:117-134 | Selector 1 stands for zones 0 to g_zone_dma, 2 for g_zone_dma to g_zone_normal, 4 for g_zone_unmapped to the last one, and any other for zone 0 alone |
| `PageAllocator.Allocator.FindRun` | cOS/kernel/src/memory.c:138-183 | The first hit over the given zones with enough pages; no result means that every position of every such zone fails |
| `PageAllocator.Allocator.InitPages` | cOS/kernel/src/memory.c:171-175 | The marking loop marks the pages in turn, exactly up to the first that is not owned |
| `PageAllocator.Allocator.AllocPages` | cOS/kernel/src/memory.c:109-187 | In place, alloc_pages makes exactly the step of the runs above, over the zones of its selector by number, and can be called again |
| `BootMap.CopyMap` | cOS/kernel/src/memory.c:197-227 | The copied map is a prefix of 1 to 32 entries; entry a from 1 on is kept if and only if every entry from 1 to a has a kind from 1 to 4 and a length that is not 0 |
| `BootMap.InsideIff` | cOS/kernel/src/memory.c:305-311 | Aligning an entry inwards leaves exactly the pages that lie wholly inside it, and nothing if there are none |
| `BootMap.CoveredOnce` | cOS/kernel/src/memory.c:338-348 | No page lies inside two entries, so each bit is flipped at most once |
| `BootMap.BitsLenCovers` | cOS/kernel/src/memory.c:262-265 | The bitmap has a bit for every page and less than one word too many |
| `BootMap.LayoutIsOrdered` | cOS/kernel/src/memory.c:256-296 | Bitmap, page structs and zone structs are 4 KiB aligned, above the kernel image, in order and disjoint, and end below end_of_struct |
| `BootMap.KernelLiesInReservedPages` | cOS/kernel/src/memory.c:408-425 | Every byte from the link base to end_of_struct lies in one of pages 0 to i |
| `BootState.ZonesOf` | cOS/kernel/src/memory.c:300-334 | Each usable entry makes one zone with nothing in use, all its pages free, and no end above the last page |
| `BootState.BuiltNext` | cOS/kernel/src/memory.c:300-359 | One turn of the zone loop extends "bit clear if and only if the page lies inside an entry so far" and the owner and address of every such page |
| `BootState.BuiltIsConsistent` | cOS/kernel/src/memory.c:300-367 | After the zone loop and page 0 the three views agree |
| `BootState.ReservedAreUnused` | cOS/kernel/src/memory.c:420-425 | The pages about to be reserved are owned and unused |
| `BootState.ReservationCompletesBoot` | cOS/kernel/src/memory.c:408-425 | After the reservation bit n is clear if and only if page n lies wholly inside some RAM entry and n > i; pages 0 to i have one link and the kernel's flags |
| `BootState.BootedIsExact` | cOS/kernel/src/memory.c:189-442 | After boot the bitmap says exactly which pages are in use |
| `BootState.ReservedAttribute` | cOS/kernel/src/memory.c:422-425 | After boot each reserved page has one link and the attribute bits 0, 1, 4 and 7, no others |
| `PageAllocator.Allocator.AddZone` | cOS/kernel/src/memory.c:313-358 | One usable entry adds its zone, gives it its pages with their addresses, and flips exactly their bits |
| `PageAllocator.Allocator.ClearStructs` | cOS/kernel/src/memory.c:256-298 | All bitmap words ones, all page structs zero, no zones |
| `PageAllocator.Allocator.BuildZones` | cOS/kernel/src/memory.c:300-359 | After the loop a bit is clear exactly for the pages wholly inside a RAM entry |
| `PageAllocator.Allocator.FindUnmappedZone` | cOS/kernel/src/memory.c:395-406 | If some zone starts at 4 GiB, g_zone_unmapped is one |
| `PageAllocator.Allocator.Reserve` | cOS/kernel/src/memory.c:361-425 | Page 0's owner and the reservation loop complete the booted state |
| `PageAllocator.Allocator.InitMemory` | cOS/kernel/src/memory.c:189-442 | For every bootable map init_memory leaves the booted state, consistent and ready to be searched, with g_zone_dma and g_zone_normal 0 and g_zone_unmapped at the zone from 4 GiB on if there is one |
| `BootRequests.CopiedRam` | cOS/kernel/src/memory.c:197-227 | A page lies inside a RAM entry of the copied map if and only if it lies inside one of the map in memory in front of the first invalid entry |
| `BootRequests.BootFromMap` | cOS/kernel/src/memory.c:189-442 | From the map in memory to the bitmap: a bit is clear exactly for the pages inside a RAM entry in front of the first invalid one and above the kernel |
| `RunSearch.SearchFindsIff` | cOS/kernel/src/memory.c:138-184 | There is a first hit if and only if some position of some zone hits |
| `BootRequests.BootAndRequest` | cOS/kernel/src/memory.c:109-442 | After boot the selectors 1 and 2 serve from zone 0, and 4 from the zone at 4 GiB and later ones if there is RAM there; NULL if and only if these have no hit |
| `BootRequests.UnmappedRequestStraysIff` | cOS/kernel/src/memory.c:156-175 | The first request to the zone at 4 GiB is given page 2047, below the zone, if there is RAM under it, and otherwise runs into a page struct of no page |
| `KernelProtection.KernelIsNotHandedOut` | cOS/kernel/src/memory.c:408-425 | In any run after boot a page with a byte of the kernel image, bitmap, page structs or zone structs is handed out only if it was cleaned before, or by an allocation that has it in reach |
| `KernelProtection.HeldByLayout` | cOS/kernel/src/memory.c:109-187 | Taken pages below page 63 are held over all runs if every zone, of any length, starts at page 1 or above them |
| `KernelProtection.KernelIsHeld` | cOS/kernel/src/memory.c:408-425 | So is the kernel if it ends below page 63 of a first zone that starts at page 1 |
| `KernelProtection.KernelIsHeldIff` | cOS/kernel/src/memory.c:408-425 | For a kernel that ends below page 62 of the first zone, with the page above it free: no run hands out a kernel page that was not cleaned, if and only if that zone starts at page 1 |
| `KernelProtection.FirstRequestTakesKernelPageIff` | cOS/kernel/src/memory.c:147-187 | The first one-page request to zone 0 after boot is given the kernel's last page if and only if the zone starts at page 0, and the page above it if and only if it starts at page 1 |
| `BootExample.MapIsBootable` | cOS/kernel/src/memory.c:256-296 | RAM up to 256 MiB, from address 0 or from 1 MiB, under a kernel of 4 MiB meets everything that is asked of a map |
| `BootExample.FirstRequestExample` | cOS/kernel/src/memory.c:147-187 | After boot with RAM from address 0 the first one-page request is given page 2, the kernel's last |
| `BootExample.KernelIsHeldExample` | cOS/kernel/src/memory.c:408-425 | After boot with RAM from 1 MiB, in a zone of two words, the kernel is held over all runs |
| `NumberFormat.DigitRoundTrip` | cOS/kernel/src/printk.c:82-85 | A digit character has the value it was made from, in either case |
| `NumberFormat.DigitCountIff` | cOS/kernel/src/printk.c:102-105 | A number has at most k digits if and only if it is below base^k |
| `NumberFormat.AtMost22Digits` | cOS/kernel/src/printk.c:81-105 | In base 8 and above a 64-bit number has at most 22 digits, so tmp is large enough |
| `NumberFormat.MoreThan50DigitsIff` | cOS/kernel/src/printk.c:81-105 | tmp is too short if and only if the base is 2 and the number at least 2^50 |
| `NumberFormat.NumberLength` | cOS/kernel/src/printk.c:79-125 | The output has length max(width, sign + prefix + max(precision, digits)) |
| `NumberFormat.LeftJustified` | cOS/kernel/src/printk.c:118-123 | Left-justified output is the bare text and spaces after it |
| `NumberFormat.RightJustified` | cOS/kernel/src/printk.c:108-109 | Plain output is spaces and the bare text after them |
| `NumberFormat.ZeroPaddingIsPrecision` | cOS/kernel/src/printk.c:118-121 | Zero padding is the precision that fills the field |
| `NumberFormat.NumberReadsBack` | cOS/kernel/src/printk.c:79-125 | An independent reader gets the number back for every base, flags, width and precision: signed with SIGN, else its unsigned reading |
| `NumberPrinter.CollectOne` | cOS/kernel/include/lib.h:371-378 | A division by the base takes exactly the last digit off a number and leaves the others |
| `NumberPrinter.CollectDigits` | cOS/kernel/src/printk.c:101-105 | tmp holds the digits, last one first, unless they are more than it has room for |
| `NumberPrinter.SignAndSize` | cOS/kernel/src/printk.c:89-100 | The sign, the magnitude with wrap-around negation, and the field less sign and prefix |
| `NumberPrinter.Sink.PutField` | cOS/kernel/src/printk.c:108-123 | The five padding and copying loops write exactly one field |
| `NumberPrinter.Sink.Number` | cOS/kernel/src/printk.c:79-125 | __number appends exactly the number's text; a base outside 2 to 36 appends nothing and yields no pointer; and tmp overruns exactly in base 2 from 2^50 on |
| `FormatString.ScanShrinks` | cOS/kernel/src/printk.c:142-196 | Scanning a directive never goes back |
| `FormatString.ScanAppend` | cOS/kernel/src/printk.c:142-196 | Text after a complete directive does not change it |
| `FormatString.PiecesAppend` | cOS/kernel/src/printk.c:136-284 | A format that is not cut off inside a directive parses the same whatever follows it |
| `FormatString.RenderConcat` | cOS/kernel/src/printk.c:127-287 | Rendering is compositional: the rest of a format prints on its own, from the next argument on |
| `FormatString.EscapedTextPrintsAsIs` | cOS/kernel/src/printk.c:270-273 | Any text with its percent signs doubled prints as itself, whatever the arguments |
| `FormatLaws.FlagsAreThoseGiven` | cOS/kernel/src/printk.c:141-160 | A string of flag characters sets the flags whose characters are in it, in any order and any number of times |
| `FormatLaws.ParseInvertsWritten` | cOS/kernel/src/printk.c:141-196 | A directive written out, with any flags, width, precision, stars and known conversion, is read as itself, and the text behind it is left over |
| `FormatLaws.StarsTakeArguments` | cOS/kernel/src/printk.c:164-188 | A star in the width takes the first argument, whose sign justifies to the left, a star in the precision the next one, and the value is behind them |
| `FormatLaws.ReadsBackInItsBase` | cOS/kernel/src/printk.c:221-268 | Read back, o gives its value in base 8, p, x and X in base 16, d, i and u in base 10, only d and i with a sign, long or from 32 bits |
| `FormatLaws.NumericText` | cOS/kernel/src/printk.c:221-268 | What a numeric directive prints character by character: sign, prefix, zeros and digits of the right alphabet and case, and how they stand in the field |
| `FormatLaws.StringText` | cOS/kernel/src/printk.c:205-219 | %s prints as many first characters as the precision says, with blanks before or behind them |
| `FormatLaws.CharText` | cOS/kernel/src/printk.c:197-203 | %c prints the low byte of its argument, with blanks before or behind it |
| `FormatLaws.UnknownPrintsAsIs` | cOS/kernel/src/printk.c:275-282 | A conversion that is none prints as it is written |
| `FormatLaws.PercentAtEndPrintsAsIs` | cOS/kernel/src/printk.c:275-282 | So does a '%' at the end of the format |
| `FormatString.DecimalOfDigits` | cOS/kernel/src/printk.c:72-77 | Decimal output consists of digits whose value is the number |
| `FormatString.WidthInvertsDecimal` | cOS/kernel/src/printk.c:72-77 | A decimal number below 2^31 in a format is read as itself, and the text after it is left over |
| `FormatPrinter.Int32Step` | cOS/kernel/src/printk.c:75 | The three wrapping 32-bit operations of a digit step agree with one wrap of the exact value |
| `FormatPrinter.SkipAtoi` | cOS/kernel/src/printk.c:72-77 | The value of the digits wrapped to 32 bits, and the pointer just past them |
| `FormatPrinter.ScanFlags` | cOS/kernel/src/printk.c:141-160 | The flag loop leaves the pointer and flags where the parse has them |
| `FormatPrinter.ScanWidth` | cOS/kernel/src/printk.c:162-174 | Width, justification and argument as parsed, a star included |
| `FormatPrinter.ScanPrecision` | cOS/kernel/src/printk.c:176-188 | Precision and argument as parsed, a negative one being 0 |
| `FormatPrinter.ScanQualifier` | cOS/kernel/src/printk.c:190-194 | Whether the argument is long |
| `FormatPrinter.ScanDirective` | cOS/kernel/src/printk.c:141-196 | The whole directive as parsed, with the pointer never beyond the NUL |
| `FormatPrinter.PutChar` | cOS/kernel/src/printk.c:197-203 | One character justified in its field |
| `FormatPrinter.PutString` | cOS/kernel/src/printk.c:205-219 | The string cut to the precision and justified in its field |
| `FormatPrinter.PutNumeric` | cOS/kernel/src/printk.c:221-268 | The number's text for the conversion, long or sign-extended from 32 bits |
| `FormatPrinter.PutConversion` | cOS/kernel/src/printk.c:196-283 | Exactly the directive's output is appended and exactly its arguments are taken |
| `FormatPrinter.PutPiece` | cOS/kernel/src/printk.c:136-284 | Each turn moves the pointer on, never past the NUL, and output so far plus what remains to be rendered is unchanged |
| `FormatPrinter.VSprintf` | cOS/kernel/src/printk.c:127-287 | For every format and arguments the buffer holds the rendered text and a NUL, and the result is its length |
| `Fat12.SplitAddressIsExact` | cOS/boot/loader.asm:582-606 | Cylinder, head and sector name the sector that was meant, on a track and head the floppy has, for every LBA below 2880 |
| `Fat12.UnpackInvertsPack` | cOS/boot/loader.asm:610-647 | The 12-bit decode recovers every entry of a packed table |
| `Fat12.EntriesAreRecovered` | cOS/boot/loader.asm:610-647 | Also from the disk, where entries straddle sectors |
| `Fat12.ChainVisitsOnce` | cOS/boot/loader.asm:197-255 | A chain that reaches the end mark visits no cluster twice |
| `Fat12.ChainIsUnique` | cOS/boot/loader.asm:197-255 | A first cluster leads to the end mark along one chain only |
| `Fat12.ChainIsShort` | cOS/boot/loader.asm:197-255 | The loading loop takes at most one turn for every data cluster |
| `Fat12.ChainOfLength` | cOS/boot/loader.asm:610-647 | For every length the floppy has room for, some disk has a chain of that many clusters |
| `Fat12.ByteOfFile` | cOS/boot/loader.asm:227-239 | Byte n of a file is byte n mod 512 of its cluster number n / 512 |
| `FatLoader.TableBytes` | cOS/boot/loader.asm:617-644 | The 16-bit word read across the sectors, shifted if odd and masked, is the entry |
| `FatLoader.Loader.ReadSectors` | cOS/boot/loader.asm:582-606 | The bytes of the sectors at the destination, and nothing else changed |
| `FatLoader.Loader.GetFatEntry` | cOS/boot/loader.asm:610-647 | The table's entry for the cluster; memory changes only in the buffer |
| `FatLoader.Loader.MoveSector` | cOS/boot/loader.asm:227-234 | The sector in the buffer is copied to its place and nothing else changes |
| `FatLoader.Loader.LoadCluster` | cOS/boot/loader.asm:197-246 | One turn appends the cluster's sector to the file |
| `FatLoader.Loader.LoadFile` | cOS/boot/loader.asm:183-257 | For every chain ending in 0xfff the loop ends, memory from OffsetOfKernelFile on holds the clusters' sectors in chain order, and besides it only the buffers change |
| `FatLoader.Loader.CompareName` | cOS/boot/loader.asm:142-159 | Succeeds if and only if all 11 bytes match |
| `FatLoader.Loader.BufferedName` | cOS/boot/loader.asm:131-148 | The bytes compared in the buffer are the name of the directory entry |
| `FatLoader.Loader.SearchSector` | cOS/boot/loader.asm:136-159 | The first matching entry of the sector, or none exactly if none matches |
| `FatLoader.Loader.ReadFirstCluster` | cOS/boot/loader.asm:183-189 | From the pointer inside the name, the first-cluster word of that entry |
| `FatLoader.Loader.FindFile` | cOS/boot/loader.asm:118-163 | The first cluster of the first of the 224 entries with that name, or failure exactly if there is none |
| `FatLoader.Loader.FindAndLoad` | cOS/boot/loader.asm:118-257 | Search and loading together: failure exactly if no entry has the name, and otherwise the file of the first such entry lies at OffsetOfKernelFile |
| `FatImage.NameInImage` | cOS/boot/loader.asm:131-159 | The name of a directory entry is at 0x2600 + 32 times its number on the disk |
| `FatImage.FirstClusterInImage` | cOS/boot/loader.asm:183-189 | And its first cluster the little-endian word 26 bytes on |
| `FatImage.ClusterInImage` | cOS/boot/loader.asm:197-212 | Cluster c has the 512 bytes from 0x4200 + 512 (c - 2) on |
| `FatImage.LoadsWhatWasWritten` | cOS/boot/loader.asm:118-257 | Whatever file is written to a floppy in that layout, of any number of clusters that fit, is found by its name and loaded to 1 MiB byte for byte |
| `FatImage.LoadsLoaderThatWasWritten` | cOS/boot/boot.asm:101-225 | And the boot sector loads such a file of up to 128 clusters to 0x10000 byte for byte |
| `FatLoader.LastTurnIsUnique` | cOS/boot/boot.asm:221 | For each sector of the segment, which turn wrote it last |
| `FatLoader.Loader.LoadLoader` | cOS/boot/boot.asm:188-225 | Each sector of the 64 KiB segment holds the last cluster read to it, for chains of any length, and besides it only the table buffer changes |
| `FatLoader.FileIsIntactIff` | cOS/boot/boot.asm:201-222 | Every sector of the loader keeps its cluster if and only if it has at most 128 clusters |
| `FatLoader.LongFileExample` | cOS/boot/boot.asm:221 | On some disk a chain of 129 clusters leaves its last cluster where its first one was read to |
| `FatLoader.ShortFileIsLoaded` | cOS/boot/boot.asm:201-222 | Up to that size the segment holds the file byte for byte |
| `RingList.LinksAreInverse` | cOS/kernel/include/lib.h:37-40 | prev and next undo each other and stay in the ring |
| `RingList.RingRotates` | cOS/kernel/include/lib.h:37-40 | A ring may be read from any member |
| `RingList.SameRing` | cOS/kernel/include/lib.h:37-40 | The sequence read from a node is determined by the pointers |
| `RingList.Init` | cOS/kernel/include/lib.h:44-47 | A ring of one |
| `RingList.AddBehind` | cOS/kernel/include/lib.h:49-54 | The sequence with the node inserted after its entry |
| `RingList.AddBefore` | cOS/kernel/include/lib.h:56-61 | The sequence with the node inserted before its entry; before the head it is appended |
| `RingList.Del` | cOS/kernel/include/lib.h:63-66 | The sequence without the node; a lone node stays a ring; the node's own pointers stay |
| `RingList.IsEmpty` | cOS/kernel/include/lib.h:68-73 | True if and only if the node is alone |
| `RingList.PerformAll` | cOS/kernel/include/lib.h:49-66 | Any run of insertions and deletions does to the ring what it does to a plain sequence |
| `RingList.ForksKeepOrder` | cOS/kernel/src/task.c:190-191 | Adding tasks before the init task in turn makes the ring the init task and then every one of them once, in fork order |
| `ContextSwitch.RunKeepsSane` | cOS/kernel/src/task.c:128-135 | In every reachable state the TSS rsp0 is the running task's, task areas are apart, every forked task's thread_struct is in its own area, and every other task has room below its stack pointer |
| `ContextSwitch.ThreadsAreOwn` | cOS/kernel/src/task.c:194-196 | In every reachable state the thread pointer at offset 40 of a forked task's PCB is that PCB's address plus 88, and no two tasks share a thread_struct |
| `ContextSwitch.AlignedAreaIsVacant` | cOS/kernel/src/task.c:65-70 | Areas at different multiples of 32 KiB are apart, so a fresh one belongs to no task |
| `ContextSwitch.StepKeepsSuspended` | cOS/kernel/src/task.c:100-141 | No step between other tasks touches a suspended task's thread_struct or stack |
| `ContextSwitch.SuspendedIsKept` | cOS/kernel/src/task.c:100-141 | Nor does any run in which it does not run |
| `ContextSwitch.SwitchOutSaves` | cOS/kernel/src/task.c:103-113 | Switching out leaves rax and rbp on the task's own stack and rsp, label 1, fs and gs in its thread_struct |
| `ContextSwitch.SwitchInRestores` | cOS/kernel/src/task.c:103-113 | Switching in disturbs nothing of what the next task had left |
| `ContextSwitch.SwitchedBackInResumes` | cOS/kernel/src/task.c:100-141 | For any run, a task switched out and later back in goes on at label 1 with the rsp, rbp, rax, fs and gs it had |
| `ContextSwitch.ThreadReachesItsFunction` | cOS/kernel/src/task.c:222-268 | For any run between fork and first switch, a kernel thread reaches fn with rdi = arg, kernel ds and es, and rsp = rsp0 just before the call |
| `ContextSwitch.PtRegsEnter` | cOS/kernel/src/task.c:222-248 | kernel_thread_func finds each register in its word of struct pt_regs |
| `ContextSwitch.ThreadRegsInMemory` | cOS/kernel/src/task.c:253-264 | kernel_thread's pt_regs in memory word by word: fn, arg, segments 8 and 0x10, flags 0x200, kernel_thread_func, and zeros |
| `ContextSwitch.GetCurrentIff` | cOS/kernel/src/task.c:71-77 | get_current finds the task if and only if rsp lies in its 32 KiB, the empty stack's rsp not included |
| `TaskSwitch.Cpu.SwitchFrames` | cOS/kernel/src/task.c:128-158 | __switch_to sets the TSS, saves and loads fs and gs through the thread pointers in the PCBs, and leaves memory besides its frames and prev's thread_struct alone |
| `TaskSwitch.ThreadStored` | cOS/kernel/src/task.c:104-108 | A store through a task's thread pointer changes that word of that task and no other task |
| `TaskSwitch.Cpu.SwitchTo` | cOS/kernel/src/task.c:100-118 | Instruction by instruction, with all loads and stores through the PCBs in memory, switch_to is the switch step of the runs above |
| `TaskSwitch.Cpu.ThreadFunc` | cOS/kernel/src/task.c:222-249 | The pops of pt_regs and the call put every register where the launch theorem has it |
| `TaskSwitch.Cpu.DoFork` | cOS/kernel/src/task.c:167-212 | do_fork is the fork step: the given registers on the new stack; in the new PCB the state is 1, the thread pointer its own address plus 88, the pid the parent's plus 1 and every other word the parent's; the task at the end of the ring, all other tasks untouched; a user task's start address goes back to the caller |
| `TaskSwitch.Cpu.KernelThread` | cOS/kernel/src/task.c:251-268 | The forked task has such a PCB, and its stack holds the pt_regs of a thread for fn and arg |
| `TextLog.WriteAllConcat` | rustOS/src/vga_buffer.rs:74-81 | Writing two strings is writing their concatenation |
| `TextLog.LayoutSnoc` | rustOS/src/vga_buffer.rs:56-72 | One more character extends the last row, or starts one after a newline or 80 characters |
| `TextLog.WriteAllIsLayout` | rustOS/src/vga_buffer.rs:55-102 | From a fresh row on, the log gains exactly the lines of the text cut at 80 |
| `TextLog.LineIsOnRow23` | rustOS/src/vga_buffer.rs:163-176 | Any line of up to 80 characters written between newlines is on row 23, blanks after it, whatever was there before |
| `TextLog.PrintableIsClean` | rustOS/src/vga_buffer.rs:74-81 | Printable text and newlines are written unchanged |
| `TextLog.CleanedByte` | rustOS/src/vga_buffer.rs:74-81 | Byte by byte, printable ones and newlines stay and every other byte becomes 0xfe |
| `VgaWriter.Writer.ClearRow` | rustOS/src/vga_buffer.rs:94-101 | That row blank in the writer's colour, the others as they were |
| `VgaWriter.Writer.Scroll` | rustOS/src/vga_buffer.rs:84-89 | In place, every row moves up by one |
| `VgaWriter.Writer.NewLine` | rustOS/src/vga_buffer.rs:83-92 | The screen shows the last 25 rows of the log with a blank row appended |
| `VgaWriter.Writer.WriteByte` | rustOS/src/vga_buffer.rs:56-72 | The screen keeps showing the last 25 rows of the log with the byte written |
| `VgaWriter.Writer.WriteString` | rustOS/src/vga_buffer.rs:74-81 | For every starting screen and string it shows the last 25 rows of the log, unprintable bytes as 0xfe, and col_pos is at most 80 |
| `VgaWriter.Writer.WriteLine` | rustOS/src/vga_buffer.rs:163-176 | After a newline, any printable line of up to 80 characters and a newline, the buffer holds the line and blanks in row 23 |
| `PageTables.BootMemory.SetUpPageTables` | rustOS/boot/boot.asm:152-177 | Over zeroed tables, 4-byte stores make all 1536 entries: two links and 512 large pages that start at 2 MiB times their index |
| `PageTables.IdentityMapsFirstGiB` | rustOS/boot/boot.asm:152-177 | The processor's walk over them maps every address below 1 GiB to itself and no other canonical address |
| `PageTables.StaticTablesMapExactly` | cOS/kernel/src/head.sx:181-212 | The static tables map PAGE_OFFSET + a to a for all a below 10 MiB, the frame buffer above that, the low half the same while it is there, and nothing else |
| `PageTables.CanonicalIff` | rustOS/src/memory.rs:81-111 | The addresses these are about are those whose bits 63 to 47 are equal |
| `PageTables.ClearLowEntries` | cOS/kernel/src/memory.c:437-439 | Zeroing entries 0 to 9 removes the low half alone |
| `PageTables.MapsPage` | rustOS/src/memory.rs:81-111 | Four linked entries picked by bits 47 to 12 of the address map its 4 KiB page, whatever bits 63 to 52 of the entries are |
| `PageTables.TranslateAddr` | rustOS/src/memory.rs:81-111 | A frame found is the processor's; nothing found is nothing mapped; and it panics if and only if it meets bit 7 |
| `FrameAllocator.SteppedFrames` | rustOS/src/memory.rs:38-40 | Stepping through a region by 0x1000 gives each of its frames once, in order |
| `FrameAllocator.BootInfoFrameAllocator.Nth` | rustOS/src/memory.rs:48 | Enumerating lazily and counting off gives the n-th frame of the flattened regions |
| `FrameAllocator.BootInfoFrameAllocator.AllocateFrame` | rustOS/src/memory.rs:46-52 | The n-th call returns the n-th usable frame |
| `FrameAllocator.ReturnedIffUsable` | rustOS/src/memory.rs:34-52 | A frame is returned by some call if and only if it lies in a usable region |
| `FrameAllocator.FrameOfRegion` | rustOS/src/memory.rs:34-52 | Frame k of a usable region is returned after all frames of the regions before it and k of its own |
| `FrameAllocator.NeverTwiceIff` | rustOS/src/memory.rs:34-52 | No frame is returned twice if and only if no two usable regions share one |
| `FrameAllocator.NothingStaysNothing` | rustOS/src/memory.rs:46-52 | After the first None all later calls return None |

## Left out

- cOS/kernel/src/printk.c:289-340, `__print_char`, `__putchar` and `color_printk`: pixels, fonts and a cursor that mixes pixel and character units at `'\b'`.
- Signed overflow of width and size in `__number` and `__vsprintf`, which C leaves undefined: width, size and precision count down as integers without an end; only the digit loop of `__skip_atoi` and the negated star width wrap to 32 bits.
- A NULL argument for `%s`, and strings of 2 GiB and more.
- NumberPrinter.Sink.Number: what an overrun of `tmp` destroys is not modelled; the call ends with the outcome `Overrun`.
- PageAllocator.Allocator.AllocPages: where the C program would call page_init on memory that is no owned page struct, the model stops with the outcome `Stray` and says nothing further.
- PageAllocator.Allocator.InitMemory: takes the copied map, so the additions into the zeroed e820 array are not modelled; bitmap, page structs and zone structs are separate arrays, so the reads of the two words behind the bitmap do not follow the first page structs when the bitmap fills its last 4 KiB; and g_zone_unmapped starts at 0, as it does at boot.
- Page ages, zone attributes and back pointers, debug output, CR3 and the TLB: written and never read, or hardware effects.
- ContextSwitch.SwitchedBackInResumes: makes no claim about rbx and r12 to r15, which `switch_to` does not save. rip stands for label 1 with its two pops done.
- TaskSwitch.Cpu.DoFork: memory is modelled by 8-byte words; list nodes are objects beside it, so the two list words of a PCB are not claimed; and a failed allocation is not handled by the code.
- `do_exit`, `init`, `task_init` and the interrupt return path: nothing to state beyond what they call.
- FatLoader.Loader.ReadSectors: a sector read is an array read that succeeds; the retry loop of the BIOS call may never end. Segment registers are folded into linear addresses.
- FatLoader.Loader.LoadFile: cluster numbers whose sector lies outside the floppy, and end marks other than 0xfff, do not occur in a `Chain`, so nothing is said about disks with them.
- The rest of loader.asm and boot.asm: screen output, video modes, the E820 query, protected and long mode.
- VgaWriter.Writer.WriteString: the `Volatile` wrapper, the lock and the formatting machinery around it are not modelled.
- FrameAllocator.BootInfoFrameAllocator.AllocateFrame: `next` does not overflow, and addresses of 2^52 and above, on which `PhysAddr::new` panics, are treated like others.
- PageTables.TranslateAddr: physical memory is read directly rather than through the offset mapping; `entry.frame()` of the x86_64 crate, which is not part of this model, is taken as "not present", "bit 7 set" or the frame.
- PageTables.IdentityMapsFirstGiB: access rights are not modelled; writes and execution are not told apart.
- rustOS/src/memory.rs:119-138, `map_to` and `OffsetPageTable`, and keyboard input: behaviour of crates that are not part of this model.
- Exception handlers, descriptor tables, port I/O, 8259A, serial and keyboard code of both kernels: wrappers and hardware effects.
