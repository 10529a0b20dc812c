# AdventOS: models and proofs of the kernel's stateful parts

Dafny models of the parts of AdventOS that keep state over unbounded runs, each proved against something
simple that it must agree with.

| component | source | files |
|---|---|---|
| block cache: a slot array with a recency list, dirty bits, eviction, sync | kernel/bcache.c | CacheModel, CacheTheorems, CacheRuns, SlotTable, BlockCache |
| AHCI command slots: tasks, interrupt handler and host adapter over four bit masks | kernel/ahci.c | AhciProtocol, AhciSafety, AhciProgress, AhciCommand |
| program loading: image builder, ELF loader, page ownership, library, stack, argv | kernel/elf.c, kernel/dyld.c, kernel/paging.c, kernel/pmm.c, mkfs.py | ElfFormat, PageSpace, LoadImage, Loader, LoaderTheorems, LoaderVerdict, ArgvFrame, ArgvReader, StackArgs, LoadedArgs |
| framebuffer console: pixels over bytes against a grid of cells | kernel/fbcon.c | Framebuffer, ConsoleModel, ConsoleText, FbCon, EraseLimits |
| DNS: name encoder, answer walk, TTL cache | kernel/dns.c | DnsName, DnsMessage, DnsTheorems, DnsAnyBytes, DnsCacheModel, DnsCache |
| network receive ring shared with the device | kernel/e1000.c | RxRing |
| USB transfer descriptors and toggles | kernel/ehci.c | Ehci |
| filesystem image | mkfs.py, kernel/fs.h, kernel/fs.c | FsImage, FsTheorems, FsInputs, FsPaths, PathLaws |
| from the image to the process | mkfs.py, kernel/fs.c, kernel/elf.c | ImageToProcess |

How it is built:

- Code that updates state in place is a class or a method over arrays, with its loops. Its contract ties
  the new state to a function of the old one, and the theorems are about that function and about runs of it.
- The AHCI protocol and the receive ring are transition systems in which every register access and
  every update of a mask or a ring entry is a step of its own, so that the device can act between any two. An
  action that is not possible leaves the state alone; every list of actions is then a run, and the theorems
  hold for all lists.
- The theorems do not rest on the functions they are about: what an operation yields is said with an
  independent definition (a plain memory, the paper a text is printed on, a decoder, the calls of a run) and
  with the source's numbers written out.
- Whatever can fail outside (disk reads and writes, unreadable sectors, the network) is a parameter of the
  call. Clocks are parameters too.
- A pointer into a static array is its index, and NULL is -1. A bit mask is the set of its bits.
- Some statements say exactly when the code meets its purpose, each beside an input on which it does not:
  `ReadIsTransparentIff` and `WriteIsTransparentIff` with `FailedWritebackLosesWrite` (a failing eviction
  writeback drops the sector, kernel/bcache.c:116-122, although the comment at lines 99-100 says the slot is
  kept); `PageSpace.Memory.Destroy` and `ElfLoad` with `LapicSegmentIsMirrored` (a segment over a table the
  kernel mirrors into every directory, which kernel/paging.c:155-159 says no user directory modifies);
  `SegmentIsMappedIff` with `TopSegmentIsMissing` (segments ending near 4 GiB); `CopyStaysIff` with
  `WrappedSegmentCopy` (segments running round the end of the address space); `StaysInPageIff` with
  `LongArgumentOverflows`, and `RecoversIff` with `SparseMemoryLoses` (argv larger than the page; where the
  stack pages are physical neighbours the process finds it all the same, `UnbrokenMemoryRecovers`);
  `EolRendersIff` with `NarrowScreenKeepsStroke` (screens that are no whole number of glyphs); `FetchKeepsIff`
  with `FetchedTwiceIsTwice` (names of 64 characters and more); `TogglesAgreeIff` with `ShortPacketSlips` (short
  packets); `PathOpensIff` (names that are empty, hold a slash or come twice in a directory);
  `EntryRoundTripIff`, `TokenFields` and `LimitIff`.

`dafny verify dfyconfig.toml` checks everything.

## Model

| member | source | states |
|---|---|---|
| `BlockCache.BlockCache.Init` | kernel/bcache.c:34-50 | After `bcache_init` every slot is empty, the list visits the slots in array order, and all counters are zero, whatever the state was before. |
| `BlockCache.BlockCache.Touch` | kernel/bcache.c:52-68 | The pointer surgery is move-to-front: afterwards `next` from the head and `prev` from the tail are again mirror images that visit every slot once, and the list is the old one with that entry first. |
| `SlotTable.SplicedLinked` | kernel/bcache.c:57-67 | Unlinking an entry that is not the head and splicing it in at the head keeps both chains mirror images covering all slots, with the new head and tail. |
| `SlotTable.SplicedSlots` | kernel/bcache.c:57-67 | The pointer assignments of `touch` change no slot's contents. |
| `BlockCache.BlockCache.Lookup` | kernel/bcache.c:70-75 | Finds the one valid slot that holds the sector, or reports that there is none. |
| `BlockCache.BlockCache.ReserveLru` | kernel/bcache.c:110-124 | Empties the last slot of the list. A dirty sector is written first; if that write fails it is dropped (lines 116-122), although the comment at lines 99-100 says the slot's state is kept. |
| `BlockCache.BlockCache.Read` | kernel/bcache.c:126-155 | The linked-list read equals `CacheModel.Read`: new list, disk, counters and reply, including a failing disk read, which leaves an empty slot at the tail. |
| `BlockCache.BlockCache.Write` | kernel/bcache.c:157-183 | The linked-list write equals `CacheModel.Write` for hits and misses, with any failing eviction writeback. |
| `BlockCache.BlockCache.FlushSlot` | kernel/bcache.c:191-220 | One turn of the sync loop: the dirty bit is claimed, the sector written, and the bit put back if the write fails. |
| `BlockCache.BlockCache.Sync` | kernel/bcache.c:185-223 | The sync loop, in array order and under the big kernel lock, equals `CacheModel.Sync` for every pattern of failing writes, and returns the number of sectors written. |
| `SlotTable.FlushRunIsSync` | kernel/bcache.c:190-222 | Because no sector is cached twice, flushing slot by slot in array order puts on the disk exactly what flushing the set of dirty sectors would, and writes one sector for each. |
| `BlockCache.BlockCache.CountDirty` | kernel/bcache.c:230-236 | `bcache_dirty` is the number of sectors that exist only in the cache. |
| `CacheTheorems.ReadReturnsView` | kernel/bcache.c:126-155 | A read returns what a reader is meant to see (the cached data, else the disk's), and fails exactly when the sector is not cached and its disk read fails. |
| `CacheTheorems.ReadIsTransparentIff` | kernel/bcache.c:110-155 | A read, failed or not, changes no sector's view if and only if it does not evict a dirty sector whose writeback fails; that sector's view then falls back to the disk. |
| `CacheTheorems.WriteIsTransparentIff` | kernel/bcache.c:110-183 | A write sets the view of its own sector, and leaves every other view alone if and only if it does not evict a dirty sector whose writeback fails. |
| `CacheTheorems.EvictView` | kernel/bcache.c:113-123 | Eviction changes at most one view, and says which and to what. |
| `CacheTheorems.SyncKeepsViews` | kernel/bcache.c:185-223 | For every pattern of failing writes a sync changes no view, keeps the invariant, puts exactly the other dirty sectors on the disk, returns how many those were, and leaves dirty exactly the sectors whose writes failed. |
| `CacheTheorems.SyncIsDurable` | kernel/bcache.c:185-223 | If no dirty sector's write fails, the disk then equals the view everywhere and a second sync writes nothing. |
| `CacheRuns.RunValid` | kernel/bcache.c:34-223 | In every state a run reaches, whatever fails: no two slots hold one sector, empty slots form a suffix of the list, clean slots equal the disk, and disk writes plus dirty slots do not exceed the writes asked for. |
| `CacheRuns.LruTheorem` | kernel/bcache.c:54-183 | Over any run from an empty cache the cached sectors, head to tail, are a prefix of the distinct sectors used, most recent first; and if no disk read failed, as many of them as there are slots. |
| `CacheRuns.HitIff` | kernel/bcache.c:54-183 | After any run without failed disk reads, a sector is cached if and only if it was used before and fewer than the number of slots other sectors were used since. |
| `CacheRuns.RankIsDistinctSince` | kernel/bcache.c:52-68 | The place of a sector in the recency order is the number of distinct sectors used since its last use. |
| `CacheRuns.ViewIsMemory` | kernel/bcache.c:126-223 | The cache is a plain memory: after any run that loses no sector, every view is the last write to that sector. |
| `CacheRuns.ReadReturnsLastWrite` | kernel/bcache.c:126-183 | In any run that loses no sector, every successful read returns the last write. |
| `CacheRuns.FailedWritebackLosesWrite` | kernel/bcache.c:113-123 | One slot, a write, and a read or write of another sector while the first cannot be written: the call succeeds and a later read returns the old sector. |
| `CacheRuns.SyncedDiskIsMemory` | kernel/bcache.c:185-223 | After such a run, a sync without failures puts the last write to every sector on the disk. |
| `CacheRuns.CountersTieUp` | kernel/bcache.c:225-236 | After any run, whatever failed: hits are the reads of cached sectors, misses the reads of others that the disk delivered; and every write asked for is counted as on the disk, or is still dirty, or was overwritten while dirty, or was dropped by an eviction the disk did not take. |
| `CacheRuns.ReadsInsideSyncSeeStaleData` | kernel/bcache.c:196-206 | Why the syncer holds the big kernel lock (lines 250-252): between claiming the dirty bit and writing, two reads can bring the old sector back from the disk. |
| `AhciCommand.Port.AllocSlot` | kernel/ahci.c:341-351 | Takes the lowest free slot out of the mask, or returns -1 and changes nothing when all are busy. |
| `AhciCommand.BuildH2dFis` | kernel/ahci.c:357-386 | Every byte of the command FIS, for queued and other commands. |
| `AhciCommand.FisDecodes` | kernel/ahci.c:353-386 | A device decodes the FIS to the same command, the low 48 bits of the LBA, the count, and, for 0x60 and 0x61 only, the slot as tag. |
| `AhciProtocol.FirstFree` | kernel/ahci.c:343-350 | The slot taken is the lowest free one. |
| `AhciSafety.RunKeeps` | kernel/ahci.c:268-441 | The protocol invariant holds in every state reachable by any interleaving of submit, wait, interrupt and HBA steps, each a single register access or a single update of a mask. |
| `AhciSafety.HeldSlots` | kernel/ahci.c:343-351 | In every reachable state the slots of the tasks inside a transfer are pairwise distinct and are exactly those missing from `free_mask`. |
| `AhciSafety.CompletionBits` | kernel/ahci.c:292-302 | A bit of `completed_mask` is only ever set for a held slot that is in neither CI nor SACT and whose command the HBA has finished. |
| `AhciSafety.MarkedFinished` | kernel/ahci.c:292-302 | Every slot the interrupt handler is about to mark from its two register reads belongs to a task whose command is finished, although the HBA acted in between. |
| `AhciSafety.SuccessMeansFinished` | kernel/ahci.c:393-441 | No command is finished twice; a transfer that returned success was finished exactly once, as the very command the caller passed in (the list `Submitted` is read off the calls of the run); nothing else is ever finished; one refused for lack of a slot never reached the HBA. |
| `AhciSafety.RequestsAreSubmitted` | kernel/ahci.c:393-441 | The commands the driver works on are those the callers passed in, in order. |
| `AhciSafety.FinishedIsSeen` | kernel/ahci.c:328-334 | A halted task whose command is finished, once it runs, is out of the wait loop within its next two register reads, its completion bit set, with or without the interrupt. |
| `AhciSafety.UngatedReturnsTooEarly` | kernel/ahci.c:292-324 | Interrupts must stay out of the section between `alloc_slot` and the issue: otherwise a run exists in which a transfer returns success and the HBA never saw it. |
| `AhciSafety.WrongOrderHangs` | kernel/ahci.c:424-430 | SACT must be written before CI: otherwise a run exists after which the finished transfer never returns, whatever happens. |
| `AhciProgress.RefusedIff` | kernel/ahci.c:343-351 | In every reachable state a transfer is refused with -1 if and only if each of the 32 slots is held; any other takes a slot nobody held. |
| `AhciProgress.IssueWrites` | kernel/ahci.c:418-430 | Opcodes 0x60 and 0x61 set the SACT bit and then the CI bit of the slot, all others the CI bit alone. |
| `AhciProgress.HandlerMarks` | kernel/ahci.c:268-306 | One run of the interrupt handler marks every held slot whose bits were clear when it began, whatever the HBA does between its accesses, and marks only held slots whose bits are clear when it ends. |
| `AhciProgress.MarkedReturns` | kernel/ahci.c:319-339 | A task that finds its bit set clears it, frees the slot and returns 0, in three accesses that change nothing else. |
| `StackArgs.SetupArgs` | kernel/elf.c:172-217 | On all of physical memory, with 32-bit offsets that wrap: the exact bytes written, whether or not the page has room, and the stack pointer, on a word boundary. A process that reads through its page tables recovers all of up to 128 arguments, or the first 128 of more, and the NULL wherever its stack lies physically as it does virtually, as far as the frame reaches; on sixteen fresh pages in rising order, exactly when the page argc is due on does. A frame over sixteen pages leaves the stack pointer below the stack. |
| `StackArgs.PushStrings` | kernel/elf.c:184-193 | The string loop stores the strings in order with the last one highest, on past the start of the page if need be, and records each one's user address. |
| `StackArgs.PushTable` | kernel/elf.c:199-214 | NULL, the argv pointers and argc, from the top down, leaving the strings above and everything below untouched. |
| `ArgvReader.FrameIsRead` | kernel/elf.c:172-217 | A process that sees such a frame at its stack pointer, through its page tables, reads back argc, argv and the NULL terminator. |
| `ArgvReader.RecoversInPlace` | kernel/elf.c:172-217 | For every memory, page table and argument list: if each stack page the frame reaches lies physically right below the one above it, the process recovers its arguments, however many pages that takes. |
| `ArgvReader.LostOnBlankPage` | kernel/elf.c:172-217 | If argc is due on a zeroed stack page that the kernel did not write, the process reads argc 0. |
| `ArgvReader.RecoversIff` | kernel/elf.c:145-217 | On sixteen zeroed pages in rising physical order and for frames of up to sixteen pages, the process recovers its arguments if and only if the page argc is due on is physically as far below the top stack page as virtually. A frame that fits the top page always is. |
| `ArgvReader.LongArgumentIff` | kernel/elf.c:184-214 | An argument of 4096 characters: recovered if and only if the second stack page is the physical page right below the top one. |
| `ArgvFrame.StaysInPageIff` | kernel/elf.c:175-214 | The kernel does not check the fit: for every memory no byte outside the page changes if and only if the frame fits. |
| `ArgvFrame.LongArgumentOverflows` | kernel/elf.c:184-214 | An argument of 4096 characters: argc is written 16 bytes below the page. |
| `ArgvFrame.FootprintIs` | kernel/elf.c:184-214 | The frame has no slack: the characters with their NULs, less than four bytes of padding, and a word for each argument, for NULL and for argc. |
| `LoadedArgs.ArgsAfterLoad` | kernel/elf.c:145-217 | After any successful `elf_load`, for frames of up to sixteen pages: if the page argc is due on is physically as far below the top stack page as virtually, the arguments are recovered and nothing but stack pages is written; otherwise they are not recovered. |
| `LoadedArgs.UnbrokenMemoryRecovers` | kernel/elf.c:145-217 | If the free pages had no gap before the load, frames of up to fifteen pages are recovered: `alloc_page` hands out the lowest page (kernel/pmm.c:95-114), so the stack pages but the lowest are neighbours. |
| `LoadedArgs.SparseMemoryLoses` | kernel/elf.c:145-217 | If no two pages free before the load were neighbours, an argument of 4096 characters is not recovered. |
| `PageSpace.Memory.AllocPage` | kernel/pmm.c:95-114 | Hands out the lowest free page, and fails exactly when there is none. |
| `PageSpace.Memory.FreePage` | kernel/pmm.c:137-147 | Gives a page back; one that is free already, or outside the bitmap, is ignored. |
| `PageSpace.Memory.CreateDir` | kernel/paging.c:146-166 | A directory on one fresh page, with no pages of its own and the kernel's mirrored tables untouched, or a failure when no page is free. |
| `PageSpace.Memory.EnsureTable` | kernel/paging.c:46-54 | The page table for a directory index exists afterwards, at the cost of at most one page; a mirrored table is there already and is opened to the process; it fails only when no page is free. |
| `PageSpace.Memory.MapIn` | kernel/paging.c:42-60 | The process sees the page at its address and everything else as before; a mapping of its own that was there is overwritten and that page is owned by nobody any more; an entry in a mirrored table is written into the kernel's own table, for every directory to see. |
| `PageSpace.Memory.Destroy` | kernel/paging.c:261-308 | With no mirrored table exposed, every page of the directory, its tables and itself is freed, each once; a table of the kernel behind an exposed entry is freed as well. All pages are free afterwards if and only if no page was mapped twice and none in a mirrored table. |
| `PageSpace.CleanIff` | kernel/paging.c:285-306 | The same on values: which pages a tear-down gives back, from the list of page numbers mapped. |
| `LoadImage.SpanCoversIff` | kernel/elf.c:68-75 | The rounded end of a segment is at or above its real end if and only if vaddr + memsz <= 0xFFFFF000; beyond that it wraps. |
| `LoadImage.CopyStaysIff` | kernel/elf.c:91-107 | Every copy of file bytes stays in the page it is for if and only if the segment maps no page or vaddr + filesz does not wrap past its first page. |
| `LoadImage.WrappedSegmentCopy` | kernel/elf.c:91-107 | 0xFFFFFFF8 bytes for 0x40000010: the checks pass, one page is mapped, and the length read into it is 0xFFFFFFF8; the sum in `fs_iread_inst` (kernel/fs.c:322-332) wraps too, so the read is not cut to the file. |
| `Loader.LoadPage` | kernel/elf.c:75-114 | One page of a segment: a fresh page, zeros, and the file bytes of its overlap with the file-backed part; -104 exactly when no page is free, -105 exactly when one is and a page table is needed too; every failure tears the address space down. |
| `Loader.CopyMakesPage` | kernel/elf.c:96-107 | The overlap arithmetic copies exactly the bytes that belong on the page, to the right offset. |
| `Loader.NextOffset` | kernel/elf.c:101 | If the file read for one page delivers, the 32-bit file offset of the next page does not wrap. |
| `Loader.LoadSegment` | kernel/elf.c:68-114 | The page loop adds exactly the segment's pages to the address space, and stops with -106 only if a file read falls short. |
| `Loader.LoadSegments` | kernel/elf.c:44-115 | The loop over the program headers, with the error code of the first header that is refused, and the page numbers mapped until then. |
| `Loader.MapLibc` | kernel/dyld.c:70-101 | Each process gets its own copy of the cached library image, padded with zeros to whole pages; nothing is unwound on failure, and nothing is lost. |
| `Loader.MapStack` | kernel/elf.c:145-162 | Sixteen zeroed, writable pages up to USER_STACK_VA + PAGE_SIZE, in rising physical order; neighbours from the second on when the free pages had no gap; -300 when no page was left, -301 when one was but no page for its table. |
| `Loader.ElfLoad` | kernel/elf.c:27-170 | With enough memory the code is `LoadImage.Verdict`. Success means the address space is exactly `LoadImage.FullImage`; every page taken is mapped once if and only if no two windows share a page, and the kernel's tables are as before if and only if no page lies in a mirrored one. On failure the pages mapped so far are a prefix of the plan, and every page taken is free again, each freed once, if and only if that prefix names no page twice and none in a mirrored table. |
| `LoaderTheorems.SegmentIsSeen` | kernel/elf.c:44-115 | After a successful load every byte of a page a segment touches, if nothing is loaded over the page later, is the file's byte at offset + (address - vaddr) inside the file-backed part and zero outside; the process may write there if and only if bit 1 of the flags (PF_W) is set; and the address is at least 0x40000000. |
| `LoaderTheorems.ApartIsLast` | kernel/elf.c:44-162 | When no two windows share a page, no page of a segment is loaded over. |
| `LoaderTheorems.SegmentIsMappedIff` | kernel/elf.c:68-75 | After a successful load all of vaddr to vaddr + memsz is on pages mapped for the segment if and only if vaddr + memsz <= 0xFFFFF000. |
| `LoaderTheorems.SegmentPagesIff` | kernel/elf.c:68-75 | The pages mapped for a segment that ends at or below 0xFFFFF000 are exactly those with a byte of it; for one that ends later there are none. |
| `LoaderTheorems.TopSegmentIsMissing` | kernel/elf.c:68-75 | A binary of 6 KiB for 0xFFFFE000 loads with code 0, and nothing is mapped there. |
| `LoaderTheorems.UnmirroredIff` | kernel/paging.c:146-166 | Whether a load leaves the kernel's tables alone can be read off the program headers: no segment, and not the library or the stack, has a page in a mirrored table. |
| `LoaderTheorems.LapicSegmentIsMirrored` | kernel/lapic.c:52-53 | A binary for 0xFEE00000 loads with code 0, and its first page is in the table the kernel maps its interrupt controller with. |
| `LoaderTheorems.LibcIsSeen` | kernel/dyld.c:80-99 | The window at 0x70000000 shows the cached image, then zeros to the end of its last page, and may be written. |
| `LoaderTheorems.StackIsSeen` | kernel/elf.c:145-162 | The 64 KiB below 0x40101000 are zero and may be written. |
| `LoaderTheorems.MappedIff` | kernel/elf.c:44-162 | A process has exactly the pages of its PT_LOAD segments, of the library and of the stack. |
| `ElfFormat.EhdrUnpacks` | kernel/elf.h:18-33 | The loader finds every field of an ELF header where the format has it, for all values. |
| `ElfFormat.PhdrUnpacks` | kernel/elf.h:35-44 | And every field of a program header. |
| `ElfFormat.ValidateIff` | kernel/elf.c:12-23 | A header passes if and only if it is that of a little-endian 32-bit executable for the 386 with a program header of at least 32 bytes; otherwise the code names the first field that is wrong. |
| `LoaderVerdict.HeaderIsRead` | kernel/elf.c:32-37 | The header is the first 52 bytes of the file; there is none if and only if they are not all there, on sectors that can be read. |
| `LoaderVerdict.PhdrIsRead` | kernel/elf.c:49-57 | Program header i is the 32 bytes at phoff + i * phentsize, in 32 bits; it is missing if and only if they cannot be read. |
| `LoaderVerdict.ChunksReadIff` | kernel/elf.c:95-113 | The reads for the pages of a segment all deliver if and only if its file-backed part is in the file, on sectors that can be read. |
| `LoaderVerdict.VerdictIs` | kernel/elf.c:27-115 | The code of every file, if memory does not run out: -100, what the header check says, or that of the first program header that is missing (-101), below 0x40000000 (-102), larger in the file than in memory (-103) or not readable (-106); 0 exactly when there is none such. |
| `LoaderVerdict.CodeAndDataLoad` | kernel/elf.c:44-115 | A file with a code segment (flags 5) and a data segment (flags 6) loads; the code is there and cannot be written, the data is there, with zeros behind it, and can. |
| `ElfFormat.EhdrParses` | mkfs.py:409-420 | The header `make_elf` packs is that of a 386 executable with one program header right behind it. |
| `ElfFormat.PhdrParses` | mkfs.py:421-425 | Its program header loads the binary, from offset 84, readable, writable and executable. |
| `LoaderTheorems.LoadedAt` | mkfs.py:409-426 | A non-empty flat binary wrapped by `make_elf` for any address at or above USER_MIN_VA from which it reaches neither another window nor the end of the address space loads (`kernel/elf.c:12-115`), starts there, and lies there byte for byte. |
| `LoaderTheorems.LoaderUndoesBuilder` | mkfs.py:409-426 | At the address the builder uses, 0x40000000, that is every non-empty flat binary that ends below the stack window. |
| `Framebuffer.PutPixel` | kernel/fbcon.c:56-69 | Sets one pixel in 16, 24 or 32 bits and no other; a pixel off the screen is dropped. |
| `Framebuffer.PixelsApart` | kernel/fbcon.c:58-68 | No two pixels share a byte, for any pitch that holds a scanline. |
| `Framebuffer.PixelBytes` | kernel/fbcon.c:58-68 | A pixel's bytes are at y * pitch + x * (bpp / 8), lowest first. |
| `Framebuffer.ChannelsReadBack` | kernel/fbcon.c:30-48 | Red, green and blue read back from a packed colour: whole in 24 and 32 bits, the top 5, 6 and 5 bits in 16. |
| `Framebuffer.FillRect` | kernel/fbcon.c:71-83 | Sets exactly the pixels of the rectangle that are on the screen. |
| `Framebuffer.DrawGlyph` | kernel/fbcon.c:87-105 | Sets exactly the 64 pixels of one glyph cell from its bit rows. |
| `Framebuffer.CopyLine` | kernel/fbcon.c:116-120 | One memcpy moves all pixels of a scanline up by a glyph's height and no other pixel. |
| `Framebuffer.ShiftLines` | kernel/fbcon.c:111-120 | The copying loop of `scroll_up_one`, in place, moves every scanline up by a glyph's height. |
| `FbCon.FbConsole.constructor` | kernel/fbcon.c:233-253 | After `fbcon_init` the text area renders the blank grid with the cursor at home. |
| `FbCon.FbConsole.Erase` | kernel/fbcon.c:168-172 | `fbcon_clear`: every cell blank in the current colours, cursor at home. |
| `FbCon.FbConsole.DrawChar` | kernel/fbcon.c:87-105 | `draw_glyph` renders the grid with that one cell replaced. |
| `FbCon.FbConsole.ScrollUpOne` | kernel/fbcon.c:111-124 | In-place scrolling renders the grid without its first row and with a blank row appended. |
| `FbCon.FbConsole.BreakLine` | kernel/fbcon.c:126-133 | `newline`: next line, or a scroll on the last one. |
| `FbCon.FbConsole.Putc` | kernel/fbcon.c:135-162 | After any character the text area is the rendering of `ConsoleModel.Put`; what that is, `ControlsAct` and `WriteShowsTail` say. |
| `FbCon.FbConsole.Puts` | kernel/fbcon.c:164-166 | And after any string, of `ConsoleModel.Write`. |
| `FbCon.FbConsole.SetColors` | kernel/fbcon.c:174-177 | The two colours are set, and nothing on the screen changes. |
| `FbCon.FbConsole.PlaceCursor` | kernel/fbcon.c:183-191 | The cursor goes to the nearest cell of the grid. |
| `FbCon.FbConsole.EraseToEol` | kernel/fbcon.c:204-224 | The rectangle painted; and if it is exact, the text area renders the grid with the rest of the line blank. |
| `FbCon.FbConsole.PerformAll` | kernel/fbcon.c:135-224 | After any sequence of calls the text area is the rendering of `ConsoleModel.Run` and the cursor is inside the grid; where the sequence clears to the end of a line, width mod 8 < columns and height mod 8 < rows are required. |
| `FbCon.NarrowScreenKeepsStroke` | kernel/fbcon.c:204-224 | On a screen 20 pixels wide, clearing from column 1 leaves a stroke in the first pixel column of that cell. |
| `FbCon.EolExactIff` | kernel/fbcon.c:204-224 | The rectangle covers exactly the cells from the cursor to the end of the line if and only if (the cursor is in column 0 or width mod 8 < columns) and (there is one row or height mod 8 < rows). |
| `EraseLimits.EolRendersIff` | kernel/fbcon.c:204-224 | Clearing to the end of a line renders the cleared grid for every font and every grid if and only if (the cursor is in column 0 or width mod 8 < columns) and (there is one row or height mod 8 < rows). |
| `FbCon.GlyphSizeIff` | kernel/fbcon.c:217-224 | The glyph size derived from the screen size is 8 if and only if the remainder is smaller than the number of cells. |
| `FbCon.DrawRenders` | kernel/fbcon.c:87-105 | Drawing a glyph on a rendering of a grid gives a rendering of the updated grid. |
| `FbCon.CellIsSeen` | kernel/fbcon.c:87-105 | The pixel at (8k + x, 8r + y) of a rendering is the foreground colour if bit x, from the lowest, of byte y of the glyph in row r, column k is set, and the background colour otherwise. |
| `FbCon.ScrollRenders` | kernel/fbcon.c:111-124 | Shifting the scanlines of a rendering and blanking the bottom strip gives a rendering of the scrolled grid. |
| `ConsoleModel.Put` | kernel/fbcon.c:135-162 | Every character keeps the grid's shape, the colours, and the cursor inside the grid; where the cursor goes, for each kind of character. |
| `ConsoleText.WriteShowsTail` | kernel/fbcon.c:111-166 | Text of any number of lines on a cleared console, each wrapped at the right edge: the screen is the window on the last rows, every cell shows the character due there on its own text line (32 to 127 as in the font, others as a question mark) or is blank, in the current colours, and the cursor stands right behind the last character. |
| `ConsoleText.ControlsAct` | kernel/fbcon.c:135-162 | For every console: return (13), backspace (8), tab (9), newline (10) and the codes without effect, each with the cells it changes and the cursor. |
| `ConsoleText.ErasedAgain` | kernel/fbcon.c:145-160 | A backspace takes back a character typed before the last column: the cursor is where it was, the cell blank, all else as before. |
| `ConsoleText.LineIsCleared` | kernel/fbcon.c:204-224 | The grid cleared to the end of the line: which cells are blank, and that nothing else changes. |
| `DnsName.EncodeName` | kernel/dns.c:206-226 | Succeeds if and only if every label (allowing one trailing dot) has 1 to 63 bytes and the wire form fits `cap`; then it writes exactly the wire form, and in any case nothing outside the `cap` bytes. |
| `DnsTheorems.EncodesIff` | kernel/dns.c:206-226 | The condition in the name's own terms: every stretch between dots has 1 to 63 characters, and the name and two bytes more fit, or one more after a trailing dot or for the empty name. |
| `DnsTheorems.NameRoundTrip` | kernel/dns.c:206-226 | The wire form, inside any message, decodes to the labels, and the labels spell the name up to a trailing dot. |
| `DnsTheorems.SkipsName` | kernel/dns.c:228-241 | `skip_name` returns the length of any name of labels that ends with the root or a compression pointer, wherever it stands. |
| `DnsTheorems.SkipUndoesEncode` | kernel/dns.c:206-241 | In any message that contains an encoded name, `skip_name` at its position returns exactly its encoded length. |
| `DnsMessage.SkipName` | kernel/dns.c:231-241 | The loop equals `SkipFrom` on arbitrary bytes; every index is inside the message. |
| `DnsMessage.SkipFrom` | kernel/dns.c:231-241 | The position moves forward and at most one byte past the end. |
| `DnsAnyBytes.SkipIff` | kernel/dns.c:231-241 | On arbitrary bytes: which sequences are skipped as a name, and where it ends. Length bytes of 64 to 191 count as lengths. |
| `DnsMessage.ParseResponse` | kernel/dns.c:298-337 | The walk over arbitrary received bytes terminates, indexes only inside them and equals `Parse`. |
| `DnsAnyBytes.ParseIff` | kernel/dns.c:298-337 | On arbitrary bytes: an address is returned if and only if there are a header, a name and a question, and within the count answers that lie inside the message, the last of which is the first address; it is that one, with its TTL. |
| `DnsTheorems.RecordFields` | kernel/dns.c:316-327 | The fields of a record are where the walk looks for them. |
| `DnsTheorems.ParseIsFirstAddress` | kernel/dns.c:298-337 | For every well-formed response with one question, the walk returns data and TTL of the first answer with TYPE 1 and RDLENGTH 4, or nothing when there is none. |
| `DnsCache.NameEq` | kernel/dns.c:149-156 | Exactly string equality. |
| `DnsCache.Resolver.CacheLookup` | kernel/dns.c:158-168 | The first live entry of that name. |
| `DnsCache.Resolver.CopyName` | kernel/dns.c:179-183 | The name as stored: cut after 63 characters. |
| `DnsCache.Resolver.CacheStore` | kernel/dns.c:170-191 | The first unused or expired slot is overwritten, with the first 63 characters of the name and an expiry after the TTL, but not before 30 and not after 3600 seconds; a full table drops the answer. |
| `DnsCache.Resolver.DnsResolve` | kernel/dns.c:243-253 | A lookup counts as a hit or a miss, and only a miss asks the network and stores its answer. |
| `DnsCacheModel.RunSound` | kernel/dns.c:149-191 | In every state reached by a run in which the network answered only for names under 64 characters, a live entry holds the address and expiry of the last network answer for its name, and no two live entries have one name. |
| `DnsCacheModel.HitIsFreshAndLast` | kernel/dns.c:158-168 | A hit returns the address of the most recent successful network lookup of that name, which is younger than 30 seconds, or than both its own TTL and an hour; and there is no second live entry of the name. |
| `DnsCacheModel.HitIff` | kernel/dns.c:149-191 | After any run a lookup hits if and only if some earlier call stored an answer for a name with these first 63 characters that is still that young; and it returns such an answer. |
| `DnsCacheModel.MissIsFetched` | kernel/dns.c:243-337 | A lookup that misses returns what the network says. |
| `DnsCacheModel.StoredAnswersAgain` | kernel/dns.c:149-191 | Once an answer is stored, the same name is answered from the cache, with the same address, if and only if it has at most 63 characters. |
| `DnsCacheModel.CountersTieUp` | kernel/dns.c:243-253 | Every call is a lookup; those that hit are counted as hits, and exactly the others as misses. |
| `DnsCacheModel.FetchKeepsIff` | kernel/dns.c:170-191 | Storing a fetched answer keeps that so if and only if the name is shorter than 64 characters, or the table is full and nothing is stored, or by coincidence the cut name's own last answer, dropped before, was the same. |
| `DnsCacheModel.FetchedTwiceIsTwice` | kernel/dns.c:170-191 | A name of 64 characters or more that is fetched twice leaves two live entries of one name. |
| `DnsCacheModel.LongNamesMiss` | kernel/dns.c:158-168 | After any run a lookup of such a name misses. |
| `DnsCacheModel.FirstFetchAnswersCut` | kernel/dns.c:149-191 | The entry the first fetch of a run makes answers exactly the lookups for the first 63 characters of its name, with an address that is the longer name's. |
| `RxRing.Nic.constructor` | kernel/e1000.c:286-306 | The ring after set-up: no descriptor done, RDH 0, RDT 15, rx_idx 0. |
| `RxRing.Nic.Poll` | kernel/e1000.c:177-185 | One turn of the drain loop: nothing if DD is clear, else the five accesses, keeping the ring invariant. |
| `RxRing.Nic.Drain` | kernel/e1000.c:174-187 | With frames arriving between turns, the loop ends with every received frame handled: what went to `net_rx_frame` is the received frames of the right size, in order. |
| `RxRing.RunInv` | kernel/e1000.c:167-187 | The ring invariant holds in every interleaving of single device and driver accesses. |
| `RxRing.ExactlyOnceInOrder` | kernel/e1000.c:167-187 | In every reachable state the frames passed on followed by those waiting in the ring are the received frames of 14 to 1518 bytes, in order, each once, and the waiting ones are intact in their buffers. |
| `RxRing.RingPositions` | kernel/e1000.c:177-185 | Between turns RDT is rx_idx - 1 modulo 16 and DD is set exactly from rx_idx up to RDH. |
| `RxRing.FullIff` | kernel/e1000.c:302-304 | The device stops exactly when 15 frames wait. |
| `Ehci.Qtd.SetBuffer` | kernel/ehci.c:468-479 | The five page pointers: the start address, then the four following pages. |
| `Ehci.Qtd.Build` | kernel/ehci.c:484-496 | Next and alternate pointer, token and buffer pointers of a transfer descriptor. |
| `Ehci.TokenFields` | kernel/ehci.c:489-490 | The length, in bits 30 to 16, reads back if and only if it has 15 bits; then so does the toggle, in bit 31; the PID code is in bits 9 and 8, Active is the only status bit set, and three errors are allowed (section 3.5.3 of the EHCI 1.0 specification). |
| `Ehci.EveryByteReached` | kernel/ehci.c:468-479 | For every alignment and every accepted length, byte j is reached through the five pointers at address buf + j (section 3.5.4 of the EHCI 1.0 specification). |
| `Ehci.FivePagesIff` | kernel/ehci.c:471-478 | Five pointers suffice if and only if the offset in the first page plus the length is at most 20480. |
| `Ehci.LimitIff` | kernel/ehci.c:600 | A length is safe for every alignment if and only if it is at most 16385, so the driver's limit of 16384 is. |
| `Ehci.AcceptedReadsBack` | kernel/ehci.c:600-607 | Everything an accepted transfer asks for reads back from its descriptor. |
| `Ehci.ChunksArePackets` | kernel/ehci.c:617 | The rounded-up quotient is the number of packets of at most `ep_max` bytes. |
| `Ehci.Endpoint.Bulk` | kernel/ehci.c:596-622 | A length outside 1 to 16384, or a failed transfer, returns -1 and leaves the toggle alone; any other flips it once per packet asked for and returns the bytes moved. |
| `Ehci.PacketsCounted` | kernel/ehci.c:612-618 | How many packets a transfer that ended well moved, from its length and the bytes left over: full packets, or a shorter one at the end (section 5.8.3 of the USB 2.0 specification). |
| `Ehci.InStepIff` | kernel/ehci.c:612-618 | One call keeps the driver's toggle equal to the device's if and only if the packets asked for and the packets moved have the same parity (for a failed call: an even number moved). |
| `Ehci.TogglesAgreeIff` | kernel/ehci.c:596-622 | After any sequence of transfers the two toggles are equal if and only if an even number of them were out of step. |
| `Ehci.FullLengthAgrees` | kernel/ehci.c:596-622 | Over any sequence of refused and full-length transfers they stay equal. |
| `Ehci.ShortPacketSlips` | kernel/ehci.c:612-618 | 1024 bytes asked for in packets of 512, and the device sends 100: the toggles differ afterwards. |
| `FsImage.PadToSector` | mkfs.py:429-433 | Whole sectors, as few as hold the data, which comes first, then zeros. |
| `FsTheorems.EntryReadsBack` | mkfs.py:436-446 | The kernel's entry layout (`kernel/fs.h:93-105`) decodes an encoded entry to the same start, size, type, parent and mode, owner and group 0, and to the first 16 characters of the name, up to a NUL. |
| `FsTheorems.EntryRoundTripIff` | mkfs.py:436-446 | The entry survives unchanged if and only if its name has at most 16 characters and no NUL. |
| `FsImage.Builder.PutDir` | mkfs.py:466-480 | The directory loop's body: a KeyError for an unknown parent, else one more entry and an index for its name. |
| `FsImage.Builder.PutFile` | mkfs.py:482-490 | `add_file`: a KeyError for an unknown parent, else the entry, the padded blob and the next free sector. |
| `FsImage.BuildImage` | mkfs.py:449-536 | From directories, programs (wrapped by `make_elf`), raw files and data files: the image, or the first of: unknown parent, a program of 4 GiB or more, more than 256 entries, a value that cannot be packed. |
| `FsTheorems.TableIsThere` | mkfs.py:525-535 | Decoding slot i of the image gives back entry i, the count is right, and the parent links form a tree. |
| `FsTheorems.TableRoundTrip` | mkfs.py:525-535 | The used slots decode to the entries and all others are zero, that is, free. |
| `FsTheorems.FilesAreThere` | mkfs.py:482-490 | The k-th file's entry says where it is, and the image holds exactly its bytes there. |
| `FsTheorems.StartGrows` | mkfs.py:487-490 | Files follow each other from sector 17 on without overlap. |
| `FsInputs.OutcomeIff` | mkfs.py:449-536 | A build fails because a parent is not a directory listed before, else because of more than 256 entries, else because a name is not ASCII or a size or place has more than 32 bits; and for no other reason. |
| `FsInputs.EntriesHang` | mkfs.py:466-486 | Every directory of the list is an entry of type 2 with mode 0755; every entry hangs at the root (255) or under the last directory of the parent name given for it, among those before it. |
| `FsInputs.InputsAreThere` | mkfs.py:492-519 | Every program (wrapped for 0x40000000, mode 0755), raw file (mode 0755) and data file (mode as given or 0644) is in the image: its entry, in the order of the lists, its parent, and its bytes. |
| `FsTheorems.ReachesRoot` | mkfs.py:466-486 | Parent links lead to earlier entries, so following them from any entry reaches the root. |
| `FsPaths.OpenPath` | kernel/fs.c:262-319 | The loop over the path string, from the root or the current directory, with its lookups in the table, equals `FsPaths.Open`. |
| `FsPaths.PathOpensIff` | kernel/fs.c:262-319 | In every table whose parent links form a tree, and whatever the current directory, opening the path string of an entry finds that entry if and only if it and each directory above it has a name that is not empty and holds no slash, and is the first of that name in its directory. |
| `PathLaws.OpenUnder` | kernel/fs.c:283-319 | For every path: a name behind a path and a slash is looked up in the directory that path opens, or in the root behind slashes only; behind anything else it opens nothing. |
| `PathLaws.OpenName` | kernel/fs.c:283-319 | A name alone is looked up in the current directory. |
| `PathLaws.OpenTrailing` | kernel/fs.c:283-319 | A slash behind a path changes nothing if the path opens a directory; otherwise nothing is opened. |
| `PathLaws.OpenNothing` | kernel/fs.c:283-319 | The empty path, and one of slashes only, opens nothing. |
| `ImageToProcess.ProgramRuns` | mkfs.py:449-536 | End to end: a program in a built image whose path leads to it (`PathOpensIff`), opened by that path from any current directory and read from its extent, is accepted by the loader, starts at 0x40000000 and lies there byte for byte. |

## Left out

- Block cache: a sector is copied as one value; the lazy `g_inited` test, the always false test for an empty list (`if (!g_tail)`) and the print of a failed writeback are not modelled; a failing disk write leaves the old sector in place. Counters are unbounded, where the kernel's wrap at 2^32.
- Block cache: the interrupt lock is not modelled; calls are atomic because callers hold the big kernel lock. What would happen without it is shown by one run (`ReadsInsideSyncSeeStaleData`).
- kernel/ata.c is a disk whose reads and writes may fail; its polling is not modelled.
- AHCI: timeouts, task-file errors and interrupts on another CPU, after which the code does not keep the slot invariant; the PRD and command header words; several ports.
- AHCI: writing a command table is one step, so a command half written into it is not visible; it is written before the slot is issued. An update of a mask is one step as well; interrupts are off outside the hlt window, so on one processor nothing else of the driver runs between its read and its write.
- Loader: the directory entries 0 to 7, which every directory shares with the kernel and no call here touches; the accessed and dirty bits the processor sets in entries, although a set accessed bit alone makes an entry differ from the kernel's (kernel/paging.c:290); framebuffer pages, which `paging_destroy_user_pd` skips, lie outside the allocator's bitmap here, where freeing them does nothing.
- Loader: before `ElfLoad` the kernel's mirrored tables are as the kernel made them, that is, no earlier program was loaded over one.
- Loader.LoadPage: a segment that runs round the end of the address space past the page it starts in, and a file of 4 GiB or more, are outside `ElfLoad`'s requirements (`LoadImage.InRange`). What the loader does with such a segment, and which ones they are, is said by `CopyStaysIff` and `WrappedSegmentCopy`; what a copy beyond its page destroys is not modelled. A segment that merely ends near 4 GiB is inside (`TopSegmentIsMissing`).
- Loader: `dyld_init`, the exec system call and `paging_clone_user_pd` are not modelled.
- Loader.MapLibc: the image cached at boot is a parameter of 1 byte to 1 MiB, as `dyld_init` admits.
- StackArgs.SetupArgs: a negative argc, and a frame so large that it runs below physical address 0 (memory has at most the allocator's 256 MiB, kernel/pmm.c:16); of a frame over the sixteen stack pages, only the bytes written and the stack pointer. `PushStrings`, `PushTable` and `StaysInPageIff` have the same bound.
- LoadedArgs.ArgsAfterLoad: that arguments are not recovered is said where the write spares the process's directory and page tables (`TablesSpared`); a frame that lands on those changes what any address means.
- Console: the font's bit rows are a parameter (the space glyph is blank); `fbcon_set_enabled`, that is, a window manager taking the screen over.
- Framebuffer.FillRect: rectangles whose right or bottom edge exceeds 32 bits; the console, its only caller, draws none.
- FbCon.FbConsole.constructor: a framebuffer without room for one cell.
- DNS: sending, waiting and retrying over several servers; the response's question count is not looked at because the code reads it from its own query (kernel/dns.c:305); resolv.conf parsing.
- DnsCacheModel.RunSound: a clock that does not go back and stays 3600 seconds away from wrapping; what answers for longer names do is the subject of `FetchKeepsIff`.
- Receive ring: frames fit one 2048-byte buffer; transmit is not modelled, because a full ring overwrites a slot (kernel/e1000.c:206-210).
- Ehci.Endpoint.Bulk: what becomes of a transfer between device and controller is a parameter; the asynchronous list, the polling loops and the allocation of descriptors are not modelled.
- FsImage.BuildImage: reading the input files, the log lines and the generated password and picture files are not modelled; a mode is 16 bits and uid and gid are 0.
- FsPaths: free table slots between used ones, which an image fresh from the builder does not have.
- Small tables and wrappers (kernel/arp.c, kernel/clipboard.c, kernel/blkdev.c, kernel/gdt.c, kernel/ac97.c, kernel/dhcp.c, kernel/bkl.c, kernel/icmp.c, kernel/eth.c) would add only easy members.
