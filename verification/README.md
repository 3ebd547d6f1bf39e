# Rost: a verified model of its storage, memory, loading and network code

Rost is a microkernel with ring-3 servers. This project models the parts of it where caches, free
lists, chunked messages, shared page tables and asynchronous requests must agree with something
simple, and proves that they do:

* the C library's heap: a size-class allocator whose free lists run through the freed blocks, over raw
  byte-addressed memory, with clients writing any live payload between calls;
* the storage stack: `read`/`write`/`lseek` of the C library, 40-byte packed messages, the file server's
  descriptor table, overlay, FAT32 reader and compiled-in tree, its directory listings, the sector
  client and the asynchronous block driver;
* the two ELF loaders and the in-place merge of kernel page tables into a user's;
* the network server: the virtqueues, the ping and TCP-connect machines, the TCP receive stream, and the
  Internet checksum with the packets that carry it;
* the VT100 parser of the terminal.

Code that updates state in place is modelled by classes whose methods are proved against functions of
the old state; the laws are lemmas about those functions and about whole runs. Memory is a map from
addresses to bytes, a disk a function from sector numbers to 512 bytes, a run a sequence of events.
What comes from outside is given beforehand: which page mappings the kernel grants, which requests the disk
finishes with success. Formats are read back from an independent writer: program headers, FAT32 boot sector, FAT,
clusters and directory slots, IPv4, ICMP and TCP headers, terminal text.
Conditions written `P(x) == true` mean `P(x)`; the form keeps a proof obligation in one piece.

| file | models |
|---|---|
| `HeapState`, `HeapRuns`, `HeapAllocator` | `servers/libc/src/malloc.rs` |
| `PageTables`, `PageMerge` | `merge_kernel_into_user_pml4` of `crates/kernel/src/elf.rs`; the page walk follows section 4.5 of the Intel SDM, volume 3A |
| `ElfImage` | the segment loops of `crates/kernel/src/elf.rs` and `servers/exec/src/elf.rs` |
| `Packing` | the message packing helpers of the C library, the file server and the block driver |
| `BlockDriver` | `servers/block-drv/src/main.rs`, `servers/vfs/src/blk.rs` |
| `Fat32Names`, `Fat32Volume`, `Fat32` | `servers/vfs/src/fat32.rs` |
| `Fat32Layout` | where boot sector, FAT, clusters and directory entries lie on the disk, and that the reader finds them |
| `FdTable`, `Overlay`, `StaticTree`, `Vfs`, `Readdir` | `fd.rs`, `mutable.rs`, `fs.rs` and `main.rs` of `servers/vfs/src` |
| `ListedRead` | that listings and reads by path agree |
| `FileRuns` | runs of the file server's requests, from any processes |
| `Libc`, `FileRoundTrip` | `unistd.rs`, `fcntl.rs`, `vfs.rs` of `servers/libc/src`, and the laws from end to end |
| `Checksum`, `Packets` | `ipv4.rs`, `icmp.rs`, `tcp.rs` of `servers/net/src` |
| `Virtqueue` | `servers/net/src/virtio.rs` |
| `NetServer`, `TcpStream` | `servers/net/src/main.rs`, `servers/net/src/tcp.rs` |
| `Vt100` | `servers/gop/src/vt100.rs` |

## What the proofs found

Each of these is a lemma or method contract below; the code is modelled as it is.

* `malloc` of 1 to 8 bytes never reuses a block: a freed one is filed under class 1 while the request
  looks on list 0 (`EightByteChurn`). The other small classes grow exactly to their peak, class 1 only
  without such requests (`CarvedIsPeak`).
* A block of 4 GB or more loses its size as it is carved: the header has 32 bits for it
  (`HeaderExactly`).
* The merge of kernel page tables never looks at the page-size bit. If the kernel maps its first gigabyte
  by one page, the page's first frame is read as a page directory and the process does not see that
  gigabyte (`FirstGigabyteLost`). From 2 MB up, empty slots resolve as the kernel's exactly when there is
  no such page on the way and no frame is missing (`MergeSharesKernel`, `PlainExactly`).
* Kernel entries are merged verbatim; the comment says "without `PTE_USER`". `MergeUserAccess` says
  exactly what ring 3 gains: wherever the deciding slot was empty, the user's own upper entries carry the
  user bit, and the kernel's entries from that slot down carry it too. The kernel's own upper entries
  do not count, so an address the kernel denies by its PML4 entry can be opened (`DeniedByKernelOpened`).
* The loaders build the same image but not the same rights: the exec server makes every segment without
  execute permission writable (`RightsAgree`). The page count of a segment overflows near 2^64, and then
  the pages do not cover it (`SegmentCovered`).
* The block driver answers a finished request exactly when the device reported status 0. After any other
  status the request stays pending for ever and every later miss is refused; the branch that would
  report EIO is never reached (`IrqRepliesExactly`, `EioNeverSent`, `StuckForever`).
* A sector is read in 13 calls. With one client that is all or nothing, since the later chunks hit the
  driver's cache (`ReadSector`, `AnsweredAtOnce`). With a second client it can fail midway
  (`SecondClientSplits`), and the cache then holds a mixture under its old tag (`HalfFilled`).
* A read of a FAT32 file claims its end too early exactly when the FAT could not be read, and that there is
  no such file exactly when the data could not (`ReadAt`). The server then answers DONE, or from the
  compiled-in file of the same path, so a reader can be given parts of two files (`ChainLostEndsFile`,
  `StaticShowsThrough`, `TwoFilesJoined`). Nothing else can go wrong (`AnswersWithin`).
* The offset of a path read has 64 bits, but FAT32 is given its lower 32: a file of FAT32 starts over at
  2^32 (`FatReadWraps`). `ReplyContinues` says exactly which offsets are answered rightly.
* Long names keep the low byte of any character; the file's header says that non-ASCII becomes `_`.
  That is so exactly when the low byte is not printable ASCII itself (`HighByteIgnored`).
* A path ending in a double slash is stored under a key it is not looked up by, so it can be created
  twice and its new descriptor cannot reach it (`AllocThenFind`, `DoubleSlashDuplicates`,
  `RewriteReachesExactly`).
* Descriptors opened under another spelling of a path survive its unlinking (`UnlinkSparesAliases`,
  `UnlinkSparesTrailingSlash`).
* A file only FAT32 holds can be read by path but not opened (`FatFilesOpenNot`).
* The C library's `read` can make the next one skip bytes. From the overlay and the compiled-in tree it does
  not exactly when the count is a multiple of 40 or reaches the end (`ContiguousExactly`). From FAT32, whose
  answers also stop at sector ends, it does not exactly when the read ends where an answer does
  (`ContiguousFromFat`): at 480 in a file of 1000 bytes a read of 40 skips, one of 32 does not
  (`FatReadSkips`). A path that both FAT32 and the compiled-in tree hold is opened on behalf of the tree and
  read from FAT32 (`OpenedStaticReadFat`).
* An unlink that is refused because there is no such file still closes every process's descriptors on that
  path (`HandleUnlink`).
* A listing does not always show a name from the highest layer holding it. If the overlay holds `foo` and
  both FAT32 and the compiled-in tree hold `Foo`, the compiled-in one is listed (`LowestShowsThrough`),
  though a read of that path passes the overlay by and serves FAT32's (`ReplyIsPiece`). It goes wrong
  exactly for compiled-in names whose FAT32 twin is hidden by an overlay name that differs only in case
  (`ListingIsHighest`).
* Listing a directory under a path with a trailing slash lists a name twice exactly when the overlay and
  the compiled-in tree both hold it and the overlay has no node under the double slash
  (`TrailingSlashExactly`, `TrailingSlashListsTwice`).
* The "shouldn't happen" answer to an unexpected SYN-ACK happens when it comes before the address is
  resolved (`FallbackReached`, `FallbackHappens`). Closing during a connect drops the connection but not
  the waiting request, which can then only fail (`CloseLeavesMachine`, `OrphanFails`).
* Received TCP data is lost exactly when a segment does not fit the 512-byte buffer or a read finds more than the
  forty bytes one message holds; either way all of it has been acknowledged (`StreamExactly`, `LongReadDrops`).
  Sequence numbers are not looked at, so a segment that arrives twice is in the stream twice
  (`RetransmitDoubles`).
* All sends share one transmit buffer. A second send accepted before the first is on the wire spoils it exactly
  unless the two frames agree as far as both go (`DeviceSends`, `OverwrittenExactly`).
* On a reversed screen setting a colour draws it in the wrong place, and leaving bold does not dim the text;
  `DrawnExactly` says exactly when the screen shows what the attributes call for (`ReversedColourWrong`).
* A file that can be read by path is missing from its directory's listing when the overlay holds its name in
  another case (`ReadIsListed`).
* An empty first CSI parameter is dropped (`LeadingEmptyDropped`). From the ninth parameter on, digits are
  appended to the eighth (`KeptIs`, `NinthSpoilsEighth`); the excess is harmless exactly when the eighth is at
  its limit, or it and all that follows is 0 (`ExcessIgnored`).

## Model

| member | source | states |
|---|---|---|
| HeapState.SizeClass | servers/libc/src/malloc.rs:124-129 | the smallest class whose limit holds the size; none above 2048 bytes |
| HeapState.CarveKeeps | servers/libc/src/malloc.rs:189-195 | carving a block at the bump pointer keeps the whole heap invariant: blocks tile the heap, headers agree, every free small block is on exactly one acyclic list of a class it satisfies |
| HeapState.PopKeeps | servers/libc/src/malloc.rs:177-187 | taking the head of a free list, whose successor is read from the block's own payload, keeps the invariant |
| HeapState.PushKeeps | servers/libc/src/malloc.rs:203-213 | freeing a live small block onto its list, overwriting its payload with the link, keeps the invariant |
| HeapState.RetireKeeps | servers/libc/src/malloc.rs:205-214 | freeing a large block, which is never recycled, keeps the invariant |
| HeapState.ClientWriteKeeps | servers/libc/src/malloc.rs:165-169 | a client writing anywhere inside a live payload keeps the invariant: no header and no link lies there |
| HeapState.MapKeeps | servers/libc/src/malloc.rs:139-150 | mapping another page keeps the invariant |
| HeapState.HeaderExactly | servers/libc/src/malloc.rs:192-194 | a fresh header says what its block is iff the block's total fits 32 bits |
| HeapRuns.StepKeeps | servers/libc/src/malloc.rs:139-215 | every step of the allocator or a client keeps the invariant |
| HeapRuns.EveryRunKeepsInv | servers/libc/src/malloc.rs:124-215 | in every state of every run, blocks tile the heap up to the bump pointer inside mapped memory and the free lists are finite, acyclic, complete and of the right class |
| HeapRuns.LiveBlocksApart | servers/libc/src/malloc.rs:154-196 | no two blocks share a byte; payloads are 16-aligned and mapped |
| HeapRuns.StepSparesPayload | servers/libc/src/malloc.rs:170-215 | no step but its owner's own write changes a byte of a live payload |
| HeapRuns.RunSparesPayload | servers/libc/src/malloc.rs:170-256 | a payload keeps its bytes over any stretch of a run in which its block stays live and unwritten by its owner |
| HeapRuns.TopClimbs | servers/libc/src/malloc.rs:139-150 | the mapped top never falls |
| HeapRuns.PagesMappedOnce | servers/libc/src/malloc.rs:139-150 | two successful page mappings of a run never name the same page, also after refused ones |
| HeapRuns.SpanNamesClass | servers/libc/src/malloc.rs:124-135 | from 16 bytes up, a block's total names the class of the requests it serves, but for the smallest span, which requests of at most 8 bytes share |
| HeapRuns.CarvedIsPeak | servers/libc/src/malloc.rs:170-215 | for payload classes 16 to 2048, the number of blocks ever carved equals the peak number live together; for class 16 in runs without requests of at most 8 bytes |
| HeapAllocator.AskedExactly | servers/libc/src/malloc.rs:139-150 | the range is reached iff the kernel grants every page on the way; the calls name the successive pages, none that is not needed, and all are granted but the last, which is refused iff the range is not reached |
| HeapAllocator.Allocator.EnsureMapped | servers/libc/src/malloc.rs:139-150 | asks the kernel for page after page from the old top on, each once, until the range is mapped or one is refused, and returns whether it is; what was mapped stays so and keeps its bytes |
| HeapAllocator.Allocator.BumpAlloc | servers/libc/src/malloc.rs:154-161 | null iff a page up to the end of the block is refused, the bump pointer then unmoved; the calls made are those |
| HeapAllocator.Allocator.Malloc | servers/libc/src/malloc.rs:170-196 | null iff the size is 0, or no block is listed for it and a page up to the end of a new one is refused, nothing changed then; else a block of enough room is handed out and every other live payload kept; a listed block is used without asking the kernel, except for at most 8 bytes |
| HeapAllocator.Allocator.Free | servers/libc/src/malloc.rs:201-215 | exactly that block becomes free and every other live payload is kept; null and double frees change nothing |
| HeapAllocator.Allocator.Calloc | servers/libc/src/malloc.rs:220-230 | null iff the product overflows or malloc of it would be; otherwise all requested bytes are zero, also on a recycled block |
| HeapAllocator.Allocator.Realloc | servers/libc/src/malloc.rs:243-256 | growing moves the whole old payload to the new block and frees the old one, or leaves everything untouched on failure; a size that fits returns the same block unchanged |
| HeapAllocator.Allocator.EightByteChurn | servers/libc/src/malloc.rs:132-135 | n rounds of allocating and freeing eight bytes carve n blocks of 32 bytes, and succeed iff the kernel grants the pages for all of them |
| PageTables.PathKept | crates/kernel/src/elf.rs:271-325 | a walk that succeeds takes the same entries in any memory that keeps the present entries |
| PageTables.PathFramed | crates/kernel/src/elf.rs:271-325 | a walk that stays outside a set of tables does not see writes to them |
| PageMerge.MergeKeepsTranslations | crates/kernel/src/elf.rs:271-325 | the merge changes no translation that existed, from any root |
| PageMerge.MergedPath | crates/kernel/src/elf.rs:282-323 | after the merge every address of the user's space, mapped or not, walks exactly the expected entries at each of the three levels, also when frames run out on the way |
| PageMerge.MergeSharesKernel | crates/kernel/src/elf.rs:282-323 | from 2 MB up, where the user's slot at the merged level was empty, the address resolves to the kernel's leaf and page size iff no 1 GB page stands where a table is expected and no frame is missing, or the kernel maps nothing there |
| PageMerge.MergeAllows | crates/kernel/src/elf.rs:291-316 | where the merge makes a kernel mapping appear, writing, executing and user access are allowed iff the kernel's entries from the deciding level down allow it and so do the user's that already stood above: a table the merge made restricts nothing |
| PageMerge.PlainExactly | crates/kernel/src/elf.rs:308-309 | such a page stands in the way iff the address is below 1 GB and the kernel's first PDPT entry is present with the page-size bit |
| PageMerge.FirstGigabyteLost | crates/kernel/src/elf.rs:308-322 | a kernel with such a page: it maps 2 MB, the process after the merge does not |
| PageMerge.MergeUserAccess | crates/kernel/src/elf.rs:269-325 | an address is user-accessible after the merge iff it was before, or its deciding slot was empty and the user's entries above and the kernel's from there down all carry the user bit |
| PageMerge.MergeAddsNoUserAccess | crates/kernel/src/elf.rs:269-325 | if the kernel's entries that can be copied lack the user bit, an address is user-accessible after the merge iff it was before |
| PageMerge.DeniedByKernelOpened | crates/kernel/src/elf.rs:284-305 | a kernel that denies an address by its PML4 entry and a process that lacks it: after the merge ring 3 has it |
| PageMerge.MergeIdempotent | crates/kernel/src/elf.rs:271-325 | merging twice is merging once, down to the page pool, however many frames there were |
| PageMerge.Kernel.CopyLoop | crates/kernel/src/elf.rs:283-287 | the slot loop fills exactly the empty slots 1 to 511 whose kernel entry is present |
| PageMerge.Kernel.EnsureTableAt | crates/kernel/src/elf.rs:293-298 | slot 0 gets a zeroed table iff it had none and a frame is left |
| PageMerge.Kernel.MergeKernelIntoUserPml4 | crates/kernel/src/elf.rs:271-325 | the in-place merge computes the function the laws are about |
| ElfImage.CopyIsPage | crates/kernel/src/elf.rs:216-237 | zeroing a page and copying the chosen slice to the chosen offset gives the segment's bytes at that page, for any alignment and any page of the segment |
| ElfImage.SegmentCovered | crates/kernel/src/elf.rs:205-209 | for any alignment, the pages of a segment cover its whole memory range iff their number was computed without overflowing 64 bits |
| ElfImage.SegmentImage | crates/kernel/src/elf.rs:188-243 | byte i of a built segment reads as the file's byte below the file size and zero up to the memory size, where the count did not overflow |
| ElfImage.BuiltReads | crates/kernel/src/elf.rs:209-243 | every address of a segment's pages reads as the segment, zero before and after it |
| ElfImage.SameImage | servers/exec/src/elf.rs:148-190 | both loaders' images read the same at every address of a segment's pages |
| ElfImage.RightsAgree | servers/exec/src/elf.rs:141-146 | the loaders give a segment the same rights iff it is executable or writable |
| ElfImage.FlagBits | servers/exec/src/elf.rs:141-146 | flag 1 is execute and 2 is write; the exec server adds write to what is not executable |
| ElfImage.HeaderRead | crates/kernel/src/elf.rs:63-75 | a 56-byte program header with any field values is read as it was written: refused iff its file range lies outside the file, nothing iff it is not PT_LOAD or takes no memory, else the segment with its address, sizes, bytes and flags |
| ElfImage.SegmentsAre | crates/kernel/src/elf.rs:180-199 | so for a whole table: the loaders go by exactly the segments its headers ask for, and refuse it iff one is out of bounds |
| ElfImage.TableDecodes | crates/kernel/src/elf.rs:63-75 | any bytes in the place of a table are such a table |
| ElfImage.KernelLoader.LoadPage | crates/kernel/src/elf.rs:209-243 | one page is built and mapped iff there is a frame and the mapping is granted; frames in use and other pages are untouched |
| ElfImage.KernelLoader.Load | crates/kernel/src/elf.rs:180-244 | succeeds iff every header is in bounds, there are frames for all pages and every mapping is granted; when the segments share no page with each other or with what was mapped, every one of their pages is then built; the page count is taken modulo 2^64 |
| ElfImage.ExecLoader.LoadPage | servers/exec/src/elf.rs:152-196 | the same, written through a staging page, whose mapping is asked for as well, and mapped with the exec server's rights |
| ElfImage.ExecLoader.Load | servers/exec/src/elf.rs:125-197 | the same for the exec server's loop |
| ElfImage.LoadBoth | servers/exec/src/elf.rs:111-197 | any file is accepted by both loaders iff its table and segments lie in it and each has the frames and mappings, one or two a page; if its segments share no page with each other or with what the two spaces already map, byte i at a header's address is then the file's at its offset + i below its file size, and zero up to its size in memory, in both |
| Packing.PackDataCarries | servers/libc/src/vfs.rs:89-97 | five words packed by reinterpreting memory carry exactly the source bytes, zero padded |
| Packing.UnpackData | servers/libc/src/vfs.rs:101-108 | the first min(count, 40, room) bytes of the words land in the buffer, nothing else changes |
| Packing.PackBytesInto | servers/vfs/src/main.rs:812-820 | words packed by shifting and or-ing carry exactly the source bytes |
| Packing.UnpackShift | servers/vfs/src/main.rs:834-842 | each byte is read by its shift |
| Packing.CastOfCarried | servers/libc/src/vfs.rs:101-108 | what a server packs by shifts, the client reads back by reinterpreting memory |
| Packing.ShiftOfCarried | servers/vfs/src/main.rs:834-842 | what a client packs in memory, a server reads back by shifts |
| Packing.ShiftOfOr | servers/vfs/src/main.rs:817-817 | or-ing a shifted byte into a word changes that byte only |
| BlockDriver.RunKeepsInv | servers/block-drv/src/main.rs:362-438 | in every run, at most one request is at the device, a valid cache equals its sector, and what is pending was asked for |
| BlockDriver.RepliesAnswer | servers/block-drv/src/main.rs:343-438 | every data reply of every run answers a request of its receiver with the bytes it asked for |
| BlockDriver.RepliesConserved | servers/block-drv/src/main.rs:362-438 | requests and replies balance: none is answered twice, only the pending one is unanswered |
| BlockDriver.IrqRepliesExactly | servers/block-drv/src/main.rs:413-438 | a finished request is answered iff the device reported status 0, and then rightly; otherwise the driver is stuck |
| BlockDriver.EioNeverSent | servers/block-drv/src/main.rs:423-437 | the branch that reports EIO is dead: an error status ends the handler before it |
| BlockDriver.StuckForever | servers/block-drv/src/main.rs:386-394 | from then on nothing is ever submitted again |
| BlockDriver.AnsweredAtOnce | servers/block-drv/src/main.rs:362-407 | a request is answered at once iff it asks beyond the sector, hits the cache or finds another pending, with error 1, the bytes or EBUSY; otherwise it goes to the device and is the pending one |
| BlockDriver.SecondClientSplits | servers/vfs/src/blk.rs:69-93 | a run in which a second client's miss and then a device error make a sector read fail between two chunks |
| BlockDriver.Driver.OnRequest | servers/block-drv/src/main.rs:362-407 | a bad offset is refused, a cache hit answered at once, a miss submitted when nothing is pending and refused otherwise; the invariant of every run is kept |
| BlockDriver.Driver.OnIrq | servers/block-drv/src/main.rs:413-438 | only a completion with good status answers the pending request and refills the cache; the invariant is kept |
| BlockDriver.ReadSector | servers/vfs/src/blk.rs:69-93 | with one client: true iff the sector is cached, or nothing is pending and the device succeeds, for at most one request to it; the buffer is then the sector, otherwise untouched; it fails only once the device has failed |
| BlockDriver.UnpackInto | servers/vfs/src/blk.rs:98-106 | the chunk lands at its place |
| Fat32Names.ScanNameSlots | servers/vfs/src/fat32.rs:209-242 | descending long-name slots of any printable name rebuild it in the accumulator |
| Fat32Names.LongNameReported | servers/vfs/src/fat32.rs:198-271 | a name of 1 to 255 printable ASCII characters written as long-name slots is reported as exactly that name, whatever the scan met before |
| Fat32.LongNameListed | servers/vfs/src/fat32.rs:174-302 | so a file written with its long name anywhere in a directory's slots, before the end marker, is among the entries the scan reports |
| Fat32Names.ScanAppend | servers/vfs/src/fat32.rs:184-301 | a scan goes on over sector and cluster boundaries as over one sequence of slots |
| Fat32Names.HighByteIgnored | servers/vfs/src/fat32.rs:229-236 | a character becomes an underscore iff its low byte is not printable ASCII (or is one); it comes out as documented iff its high byte is zero or its low byte already makes it one |
| Fat32Volume.SectorIsSlice | servers/vfs/src/fat32.rs:426-437 | the bytes copied from one sector are the slice of the file at the offset |
| Fat32Volume.SectorInCluster | servers/vfs/src/fat32.rs:413-428 | the sector chosen belongs to the cluster the chain walk arrives at |
| Fat32.HalfFilled | servers/vfs/src/fat32.rs:120-130 | a fill that stopped after n bytes leaves the cache true to its old tag iff both sectors agree in them |
| Fat32.Reader.BlkRead | servers/vfs/src/fat32.rs:120-130 | the cache buffer ends up as the sector iff the driver can serve it, else as it was and the failure is counted |
| Fat32.Reader.ReadSec | servers/vfs/src/fat32.rs:120-130 | true iff the sector is cached or the driver can serve it, and then the cache is the sector |
| Fat32.Reader.NothingFails | servers/vfs/src/fat32.rs:120-130 | as long as the device fails nothing, no read of the volume does |
| Fat32.Reader.FatNext | servers/vfs/src/fat32.rs:133-157 | the FAT entry, from cache or disk; u32::MAX iff the read failed |
| Fat32.Reader.ScanDir | servers/vfs/src/fat32.rs:174-302 | terminates on every directory whose chain ends or holds the end marker; without failures it reports exactly the directory's entries, with failures a prefix of them |
| Fat32.Reader.LookupPath | servers/vfs/src/fat32.rs:335-377 | without failures, exactly what the path names on the volume; a failure can only make it look absent |
| Fat32.Reader.ReadDir | servers/vfs/src/fat32.rs:381-398 | without failures, the entries of the directory the path names, or none if it names none |
| Fat32.Reader.ReadAt | servers/vfs/src/fat32.rs:408-440 | without failures the piece at the offset; the end of the file is claimed too early iff the FAT could not be read, and no file iff the data could not |
| Fat32.Reader.ReadFile | servers/vfs/src/fat32.rs:405-440 | from any cache state: the size and min(40, rest of file, rest of sector) bytes at the offset of the concatenated cluster chain, or, after failures only and for files only, an empty piece or nothing, as what was lost says |
| Fat32Volume.LookupSize | servers/vfs/src/fat32.rs:254-259 | no file the volume holds is larger than 32 bits say |
| Fat32.Reader.ReadWhole | servers/vfs/src/fat32.rs:405-440 | reading on until an empty chunk terminates and yields the whole file |
| Fat32.NextPiece | servers/vfs/src/fat32.rs:405-440 | each piece continues the file and only its end yields nothing |
| Fat32Layout.MountedExactly | servers/vfs/src/fat32.rs:75-113 | a disk written as boot sector, reserved sectors, FAT copies and clusters is accepted iff its geometry is supported, and then the reader finds the FAT and the clusters where they lie |
| Fat32Layout.ContentsAre | servers/vfs/src/fat32.rs:159-166 | where clusters 2, 3, 4, ... follow each other in the data area, a file is what the clusters of its chain hold, joined and cut to its size |
| Fat32Layout.DirEntriesAre | servers/vfs/src/fat32.rs:174-302 | a directory's slots are those of its own clusters |
| Fat32Layout.FatEntryIs | servers/vfs/src/fat32.rs:133-157 | in a table of 32-bit entries, the walk goes from cluster c to what entry c says in its lower 28 bits |
| Fat32Layout.WalkIsLinked | servers/vfs/src/fat32.rs:133-157 | so a chain the reader follows is the one the FAT links |
| Fat32Layout.EntryRead | servers/vfs/src/fat32.rs:244-296 | a short entry with any 8.3 name, attribute, cluster and size is read as it was written |
| Fat32Layout.ScanInvertsWrite | servers/vfs/src/fat32.rs:184-301 | any directory written as long-name and short entries with deleted and skipped ones between is listed exactly so, whatever lies behind its end marker |
| Fat32Layout.DirectoryListed | servers/vfs/src/fat32.rs:174-302 | so wherever its slots fall in clusters |
| Fat32Volume.EqCiExactly | servers/vfs/src/fat32.rs:325-328 | names match iff they have the same length and each pair of letters is the same up to case |
| Fat32Volume.LookupIs | servers/vfs/src/fat32.rs:335-377 | a path names what its components lead to from the root, directory by directory, with or without a slash in front |
| FdTable.EightPerProcess | servers/vfs/src/fd.rs:18-19 | no process holds more than eight descriptors |
| FdTable.FullTable | servers/vfs/src/fd.rs:121-136 | all slots are used iff 256 descriptors are open |
| FdTable.Table.Alloc | servers/vfs/src/fd.rs:93-137 | succeeds iff the path fits, the process has a free number and the table a free slot; grants the lowest number at offset 0 and changes nothing else |
| FdTable.Table.Get | servers/vfs/src/fd.rs:141-151 | the open file of (pid, fd) iff there is one |
| FdTable.Table.Advance | servers/vfs/src/fd.rs:154-164 | moves that descriptor only, saturating at u32::MAX |
| FdTable.Table.Seek | servers/vfs/src/fd.rs:167-177 | sets that descriptor's offset only |
| FdTable.Table.Free | servers/vfs/src/fd.rs:181-192 | removes exactly (pid, fd), true iff it was open |
| FdTable.Table.FreeAll | servers/vfs/src/fd.rs:197-206 | removes a process's descriptors and no other's |
| FdTable.Table.FreeAllPath | servers/vfs/src/fd.rs:212-221 | removes the descriptors on exactly that path, of every process |
| Overlay.StableExactly | servers/vfs/src/mutable.rs:203-205 | one slash is stripped, so only paths of three bytes or more ending in a double slash are not stable |
| Overlay.ExecRefines | servers/vfs/src/mutable.rs:73-148 | one operation on a stable path does to the table what it does to a map from canonical path to flags and bytes, on which a write is said byte by byte |
| Overlay.RunRefines | servers/vfs/src/mutable.rs:73-148 | every sequence of operations over stable paths answers exactly as the map |
| Overlay.FullExactly | servers/vfs/src/mutable.rs:99-112 | no slot is free iff the map has 32 entries |
| Overlay.AllocThenFind | servers/vfs/src/mutable.rs:86-112 | a newly allocated path is found again iff it is stable |
| Overlay.DoubleSlashDuplicates | servers/vfs/src/mutable.rs:86-112 | `/a//` is not found after it was created, answers to `/a`, and can be created twice |
| Overlay.TruncateKeepsBytes | servers/vfs/src/mutable.rs:143-148 | a write past the end after a truncation brings the old bytes back |
| Overlay.WrittenExactly | servers/vfs/src/mutable.rs:129-141 | an accepted write leaves src in its range, every other byte as it was, and a length that only grows |
| Overlay.SpliceIs | servers/vfs/src/mutable.rs:129-141 | inside a file or at its end: what stood before the write, what was written, what stood behind it |
| Overlay.Table.Find | servers/vfs/src/mutable.rs:73-84 | the first used node whose canonical path is the canonical request path |
| Overlay.Table.Alloc | servers/vfs/src/mutable.rs:91-112 | reuses the node of that path, or fills the first free one, or fails, as the modelled function |
| Overlay.Table.Remove | servers/vfs/src/mutable.rs:116-123 | frees the found node, true iff there was one |
| Overlay.Table.WriteChunk | servers/vfs/src/mutable.rs:129-141 | succeeds iff the write ends within 4096 bytes; then byte i is src[i - offset] inside the range and the old one elsewhere, and the length the greater of the old one and the end |
| Overlay.Table.Truncate | servers/vfs/src/mutable.rs:144-148 | sets the length to zero and keeps everything else |
| Vfs.SaysOnce | servers/vfs/src/main.rs:762-781 | a reply message means one thing only |
| StaticTree.ResolveDescends | servers/vfs/src/fs.rs:222-248 | a path of the compiled-in tree names what its components lead to, child by child |
| Vfs.Server.NothingFails | servers/vfs/src/main.rs:82-142 | as long as the disk fails nothing, no request of any client meets a failure |
| Vfs.Server.ReplyIsPiece | servers/vfs/src/main.rs:301-361 | whichever layer holds a file, the answer is that layer's piece of it at the offset, for FAT32 at the offset modulo 2^32 |
| Vfs.Server.ReplyContinues | servers/vfs/src/main.rs:301-361 | the answer at any 64-bit offset is the chunk that continues the file there, DONE exactly at its end, iff the offset fits 32 bits, FAT32 does not hold the file, or the offset modulo 2^32 lies behind its end |
| Vfs.Server.FatReadWraps | servers/vfs/src/main.rs:326-328 | a non-empty file of FAT32 is answered at 2^32 as at 0 |
| Vfs.Server.FileServed | servers/vfs/src/main.rs:301-361 | a path that names a file in any layer serves exactly that file at every 32-bit offset, and at every offset unless FAT32 holds it |
| Vfs.Server.OpenedStaticReadFat | servers/vfs/src/main.rs:541-552 | a path that FAT32 and the compiled-in tree both hold opens, and reads of it are answered by FAT32 |
| Vfs.Server.AnswersWithin | servers/vfs/src/main.rs:324-341 | whatever fails, the answer is the right one unless FAT32 holds the file, and then the right one, DONE or the compiled-in tree's |
| Vfs.Server.StaticShowsThrough | servers/vfs/src/main.rs:341-361 | if the way or the data was lost the answer is the compiled-in file's piece, wrong wherever the files differ |
| Vfs.Server.TwoFilesJoined | servers/vfs/src/main.rs:625-666 | two files of which one reader gets 40 bytes each |
| Vfs.Server.ChainLostEndsFile | servers/vfs/src/main.rs:628-629 | if the chain was lost the answer is DONE, however much is left |
| Vfs.Server.HandleRead | servers/vfs/src/main.rs:301-361 | the message carries the answer of the highest layer that holds the path, or after disk failures what the laws on failing reads say |
| Vfs.Server.HandleReadFd | servers/vfs/src/main.rs:590-666 | the same answer at the descriptor's offset, which moves by exactly what was carried; errors for unknown and unreadable descriptors change nothing |
| Vfs.Server.HandleOpen | servers/vfs/src/main.rs:512-576 | creates, truncates or refuses as the flags and layers say, then grants the lowest descriptor or EMFILE |
| Vfs.Server.HandleWriteFd | servers/vfs/src/main.rs:670-702 | writes at the offset, or at the end when appending, all or nothing, and moves that descriptor only |
| Vfs.Server.HandleSeek | servers/vfs/src/main.rs:706-713 | sets the offset of an open descriptor, EBADF otherwise |
| Vfs.Server.HandleClose | servers/vfs/src/main.rs:580-586 | closes exactly that descriptor |
| Vfs.Server.HandleUnlink | servers/vfs/src/main.rs:486-508 | removes the node and the descriptors opened under the same spelling |
| Vfs.UnlinkSparesAliases | servers/vfs/src/main.rs:497-501 | a descriptor of the removed file survives iff it was opened under another spelling |
| Vfs.UnlinkSparesTrailingSlash | servers/vfs/src/main.rs:497-501 | such a descriptor: opened as `/a/`, unlinked as `/a` |
| Vfs.Server.FatFilesOpenNot | servers/vfs/src/main.rs:541-552 | a path only FAT32 holds is refused by open while its bytes are served by path |
| Vfs.Server.ServeWriteFd | servers/vfs/src/main.rs:131-137 | the dispatcher hands the handler exactly the bytes the client packed |
| Libc.PathTravels | servers/libc/src/vfs.rs:77-86 | the server unpacks the first 47 bytes of the path up to a zero |
| Libc.Process.VfsReadChunk | servers/libc/src/vfs.rs:147-165 | copies min(chunk, room) bytes of the server's answer to their place; 0 at the end, -1 on errors |
| Libc.Process.VfsWriteChunk | servers/libc/src/vfs.rs:168-184 | the server writes exactly the packed bytes; their count iff it agreed |
| Libc.Process.ReadLoop | servers/libc/src/unistd.rs:66-77 | from any layer, one read returns exactly min(count, rest) bytes at the offset, unless the disk failed under a file of FAT32; the descriptor ends behind the last whole answer of its layer; a descriptor not open for reading on a file gives -1 and changes nothing |
| Libc.Process.WriteLoop | servers/libc/src/unistd.rs:101-109 | the file is as after one write of what was accepted: everything if it fits, else the whole chunks that fit, -1 when not even the first |
| Libc.Process.Read | servers/libc/src/unistd.rs:52-78 | the loop behind a POSIX descriptor; -1 for one that is not open |
| Libc.Process.Write | servers/libc/src/unistd.rs:89-110 | likewise for writing |
| Libc.Process.Lseek | servers/libc/src/unistd.rs:120-127 | succeeds iff SEEK_SET, a 32-bit offset and an open descriptor; moves that descriptor only |
| Libc.Process.Open | servers/libc/src/fcntl.rs:81-98 | succeeds iff the layers allow it, the server has a descriptor left and so has the process; the lowest free POSIX descriptor then stands for the server's; without one the server's is closed again |
| Libc.WrittenTwice | servers/vfs/src/mutable.rs:129-141 | two adjacent writes are one write of both |
| Libc.ContiguousExactly | servers/libc/src/unistd.rs:66-77 | from the overlay and the compiled-in tree, the next read continues where this one stopped iff the count was a multiple of 40 or reached the end |
| Libc.ContiguousFromFat | servers/libc/src/unistd.rs:66-77 | from FAT32, iff it reached the end of the file or of a sector, or a multiple of 40 from where the answers in its last sector start |
| Libc.FatReadSkips | servers/libc/src/unistd.rs:66-77 | a file and an offset at which a read of 40 bytes makes the next skip and one of 32 does not |
| FileRoundTrip.RoundTrip | servers/libc/src/unistd.rs:52-127 | open for rewriting, which succeeds iff there are descriptors and a node for it, write up to 4096 bytes, seek to 0, read n: the first min(n, len) bytes come back, through packing, descriptors and overlay |
| FileRoundTrip.WriteInside | servers/libc/src/unistd.rs:52-127 | seek, write inside a longer file, seek to 0, read: the spliced bytes, the file as it was before and behind them; with O_APPEND the data is at the end |
| FileRoundTrip.FlagsMean | servers/vfs/src/fd.rs:23-76 | 1 and 2 make a descriptor writable, 0 and 2 readable, 4 creates, 8 truncates, 16 appends |
| FileRoundTrip.OpenRefines | servers/vfs/src/main.rs:512-552 | an open does to the map of files exactly this: for writing, empty the file if asked, create it if asked and there is room; a file that only lies below gives EACCES, a directory EISDIR, nothing ENOENT; for reading, nothing |
| FileRoundTrip.StartsAt | servers/vfs/src/main.rs:554-562 | a descriptor opened for appending starts at the end of the file, any other at 0 |
| FileRoundTrip.RewriteReachesExactly | servers/vfs/src/main.rs:518-540 | a newly created file is reachable through its descriptor's path iff the path is stable |
| FileRoundTrip.OpenTruncates | servers/vfs/src/main.rs:518-540 | such an open leaves an empty file, unless the path was a directory |
| FileRoundTrip.ReadTwice | servers/libc/src/unistd.rs:52-78 | the second of two reads starts where the whole chunks of the first ended |
| FileRuns.Serve | servers/vfs/src/main.rs:82-142 | each request changes descriptors and overlay and is answered as the state machine of the run laws says |
| FileRuns.UnconcernedSpares | servers/vfs/src/main.rs:486-713 | reads of any path, reads, seeks and closes of other descriptors, opens that neither create nor truncate the file, and opens, writes and unlinks of other paths leave a descriptor and every read of its file as they were |
| FileRuns.ReadsAreStateless | servers/vfs/src/main.rs:590-666 | in every run in which other requests, of these kinds or any, spare a descriptor and its file, each read of it answers as a stateless read at the sum of the earlier lengths; the chunks join to the file, and DONE comes within size + 1 reads and stays |
| Readdir.ShadowTest | servers/vfs/src/main.rs:264-267 | for a canonical directory, the path lookup finds a node iff the overlay lists a child of that name |
| Readdir.ListingExactly | servers/vfs/src/main.rs:232-294 | an entry is listed iff it is an overlay child, a FAT32 entry whose name the overlay holds in no case, or a compiled-in one the overlay does not hold and FAT32 does not show |
| Readdir.ListingIsHighest | servers/vfs/src/main.rs:244-282 | the listing is exactly the entries from the highest layer holding their name iff no compiled-in name has a FAT32 twin hidden by an overlay name differing only in case |
| Readdir.LowestShowsThrough | servers/vfs/src/main.rs:247-282 | a directory in which the compiled-in entry is listed although FAT32 holds its name |
| Readdir.DistinctExactly | servers/vfs/src/main.rs:157-297 | under any spelling of the directory, no name is listed twice iff the shadow test finds every compiled-in name the overlay holds |
| Readdir.ListingDistinct | servers/vfs/src/main.rs:157-297 | so under its canonical path none is |
| Readdir.TrailingSlashExactly | servers/vfs/src/main.rs:264-267 | with one trailing slash, none is iff every compiled-in name the overlay holds also has an overlay node under the double slash |
| Readdir.TrailingSlashListsTwice | servers/vfs/src/main.rs:264-267 | an overlay just created in which one is |
| Readdir.ChildrenOf | servers/vfs/src/mutable.rs:169-192 | every direct child of the directory, in node order, under its stored name |
| Readdir.HandleReaddir | servers/vfs/src/main.rs:194-297 | without disk failures: refuses exactly paths that are a directory in no layer, with the right error, and otherwise emits the listing the laws are about, of what the volume holds there |
| Readdir.EntryMsg | servers/vfs/src/main.rs:250-254 | an entry message carries flags, size and up to 40 bytes of the name |
| ListedRead.DecidedExactly | servers/vfs/src/main.rs:194-230 | a path is listed iff the tree or the overlay holds a directory there, or neither holds anything and FAT32 a directory, then with the tree's children; error 1 iff no layer holds it, error 2 otherwise |
| ListedRead.ListedIsRead | servers/vfs/src/main.rs:244-294 | every file listed can be read by the path of its name and has the size listed, unless a hidden twin lets the lowest layer show through |
| ListedRead.ReadIsListed | servers/vfs/src/main.rs:244-294 | every file that can be read by path is listed with its directory at its size, unless the overlay holds its name in another case or FAT32 a directory of that name |
| ListedRead.FatChild | servers/vfs/src/fat32.rs:335-398 | the volume finds below a directory exactly what it lists there |
| Checksum.FoldResidue | servers/net/src/ipv4.rs:131-134 | the fold preserves the sum modulo 65535 |
| Checksum.FoldQuotient | servers/net/src/ipv4.rs:131-134 | it removes multiples of 65535 only and reaches zero only from zero |
| Checksum.ChecksumIsOnesComplement | servers/net/src/ipv4.rs:117-137 | summing first and folding later is the one's complement sum of RFC 1071, odd lengths included |
| Checksum.FilledVerifies | servers/net/src/ipv4.rs:106-108 | a message whose cleared, even-placed field receives its checksum sums to zero |
| Checksum.IpChecksum | servers/net/src/ipv4.rs:117-137 | the loops compute that checksum and terminate |
| Packets.HeaderVerifies | servers/net/src/ipv4.rs:93-108 | every built IPv4 header sums to zero |
| Packets.ParseBuilt | servers/net/src/ipv4.rs:74-113 | parsing a built packet returns its fields and payload iff its length fits 16 bits |
| Packets.Ipv4.Build | servers/net/src/ipv4.rs:74-113 | writes exactly the header, its checksum and the payload, or nothing when the buffer is too small |
| Packets.BuildIcmpEcho | servers/net/src/icmp.rs:38-61 | every built echo message sums to zero |
| Packets.EchoFields | servers/net/src/icmp.rs:38-61 | a built echo read byte by byte: type, code 0, checksum, identifier, sequence number, data |
| Packets.TcpChecksum | servers/net/src/tcp.rs:245-268 | the checksum over pseudo-header and segment, 0 beyond the scratch buffer |
| Packets.FillTcpChecksum | servers/net/src/tcp.rs:271-281 | the filled segment with its pseudo-header sums to zero, and no other byte changes |
| Packets.SegmentVerifies | servers/net/src/tcp.rs:245-281 | so for every segment with a cleared field |
| Packets.PseudoIs | servers/net/src/tcp.rs:259-264 | the pseudo-header byte by byte: both addresses, 0, 6, the length |
| Packets.BuildTcp | servers/net/src/tcp.rs:212-240 | writes exactly the 20-byte header and the payload, or nothing when the buffer is too small |
| TcpStream.SegmentRead | servers/net/src/tcp.rs:135-145 | any segment of RFC 9293, with options or without, is read with its ports, numbers, flags and data |
| TcpStream.BuiltIsSegment | servers/net/src/tcp.rs:225-237 | what is built is such a segment |
| Virtqueue.WrapDistance | servers/net/src/virtio.rs:337-337 | the wrapped difference of the 16-bit indices is the true number in flight |
| Virtqueue.ChainsDisjoint | servers/net/src/virtio.rs:360-375 | sends less than 128 apart use disjoint descriptor pairs |
| Virtqueue.CursorStep | servers/net/src/virtio.rs:382-395 | the descriptor cursor is twice the send count modulo 256, through 16-bit wrap |
| Virtqueue.TxQueue.SendPacket | servers/net/src/virtio.rs:326-400 | accepted iff the packet fits and fewer than 128 are in flight; the buffer then begins with it, its chain has its length, and no chain in flight is touched |
| Virtqueue.TxQueue.ReclaimTx | servers/net/src/virtio.rs:314-321 | takes over the device's index and nothing else |
| Virtqueue.TxQueue.DeviceSends | servers/net/src/virtio.rs:345-375 | the device, following ring and chain, puts exactly the oldest accepted frame on the wire iff the shared buffer still begins with it, which is so when no other send is in flight |
| Virtqueue.OverwrittenExactly | servers/net/src/virtio.rs:351-355 | after a second send it does iff the two frames agree as far as both go |
| Virtqueue.RxQueue.RecvPacketInto | servers/net/src/virtio.rs:407-447 | hands out the oldest unread frame without its header, in order, and posts its buffer again |
| Virtqueue.RxQueue.Recycle | servers/net/src/virtio.rs:461-473 | all eight buffers stay posted, held or reported, each once; posts minus reads stays 8 |
| Virtqueue.RecycleConserves | servers/net/src/virtio.rs:461-473 | re-enqueueing conserves the eight buffers |
| Virtqueue.PostsKept | servers/net/src/virtio.rs:462-469 | announcing one more buffer overwrites no slot the device has yet to read |
| NetServer.EveryRequestAnsweredOnce | servers/net/src/main.rs:293-371 | over every run and for every process, pings and connects asked equal replies sent to it plus the single waiting one if it is its own |
| NetServer.AllAnsweredInTime | servers/net/src/main.rs:354-371 | with a clock that never runs back, a deadline check five seconds after the last event leaves no request unanswered |
| NetServer.RunTimely | servers/net/src/main.rs:304-304 | nothing ever waits beyond two (ping) or five (connect) seconds from the last clock reading |
| NetServer.PingHistory | servers/net/src/main.rs:293-371 | in every run a waiting ping was asked for, its deadline is two seconds after that request and has not been struck, and its echo has left iff the address was known |
| NetServer.ConnectHistory | servers/net/src/main.rs:478-527 | likewise a waiting connect, with five seconds |
| NetServer.NoEarlyFailure | servers/net/src/main.rs:354-371 | the clock fails a request only two (ping) or five (connect) seconds after it was made |
| NetServer.LateExactly | servers/net/src/main.rs:354-371 | a deadline check answers exactly the waiting requests whose time is up, each with its failure code |
| NetServer.PingTakenOn | servers/net/src/main.rs:293-341 | a ping is taken on iff none waits and its packet, if due at once, could be sent; else the sender is told which it was |
| NetServer.ConnectTakenOn | servers/net/src/main.rs:478-527 | a connect is taken on iff none waits, no connection is in use and its SYN, if due at once, could be sent |
| NetServer.ArpExactly | servers/net/src/main.rs:692-746 | each machine whose address is now known goes on to wait for its answer, or is told of failure iff its packet could not be sent |
| NetServer.EchoAnswersExactly | servers/net/src/main.rs:804-818 | an echo reply is the answer iff one is awaited and it has the awaited identifier and sequence number; the reply is the whole milliseconds since the request left |
| NetServer.PingTimed | servers/net/src/main.rs:804-818 | so in every run an answered ping was asked for, and the time told is that since its echo left |
| NetServer.SeqCounts | servers/net/src/main.rs:345-352 | in every run the sequence number counts the echo requests built, in 16 bits, and the identifier never changes |
| NetServer.StaleEchoIgnored | servers/net/src/main.rs:804-818 | so the answer to one echo is not taken for that to another built up to 65535 echoes later |
| NetServer.RunKeepsInv | servers/net/src/main.rs:478-594 | in every run the connection is seen only Closed, SynSent or Established, SynSent has a waiting machine, and while one waits an open connection is the one it asked for |
| NetServer.ConnectReplies | servers/net/src/main.rs:569-594 | success goes to the owner exactly as the connection opens; failure of the waiting request leaves no connection |
| NetServer.OnlySynAckOpens | servers/net/src/tcp.rs:155-168 | a connection opens only on a SYN-ACK from its peer |
| NetServer.PingTimesAreReal | servers/net/src/main.rs:804-818 | any reply to a ping but busy and failed is sent for an echo reply with the awaited id and sequence, to the asker |
| NetServer.CloseLeavesMachine | servers/net/src/main.rs:643-671 | a close closes the connection and leaves the machine as it was, so the next connect is taken on iff none was waiting and its packet could be sent |
| NetServer.OrphanFails | servers/net/src/main.rs:643-671 | once its connection is closed a waiting connect is never answered with success: only a deadline or a failed send answers it, with failure |
| NetServer.FallbackReached | servers/net/src/main.rs:833-851 | the SYN-ACK answer without a waiting machine is sent iff the address was unresolved |
| NetServer.FallbackHappens | servers/net/src/main.rs:840-851 | a run in which it is sent: the connection opens silently, and at the deadline the requester is told of failure and the connection dropped |
| NetServer.Server.HandlePing | servers/net/src/main.rs:293-341 | busy reply while a ping waits; else waits for the address or the echo until two seconds from now, or fails at once; the connect machine is untouched |
| NetServer.Server.HandleTcpConnect | servers/net/src/main.rs:478-527 | refused while a connect waits or a connection is open; else opens SynSent and waits for the address or the SYN-ACK until five seconds from now, or closes and fails at once |
| NetServer.Server.HandleArp | servers/net/src/main.rs:692-746 | each machine waiting for an address now cached goes on to wait for its answer, or fails with a reply to its own sender; the other is untouched |
| NetServer.Server.HandleIcmp | servers/net/src/main.rs:804-818 | only an echo reply with the awaited id and sequence ends the ping, with the elapsed milliseconds |
| NetServer.Server.HandleTcp | servers/net/src/tcp.rs:129-206 | updates the connection in place as the modelled function |
| NetServer.Server.HandleTcpIncoming | servers/net/src/main.rs:830-877 | an opening or reset answers the waiting connect; a reset or FIN leaves the connection zeroed |
| NetServer.Server.HandleTcpClose | servers/net/src/main.rs:643-671 | whatever its state, the connection ends zeroed and the closer gets its reply |
| NetServer.Server.HandleTcpRecv | servers/net/src/main.rs:260-274 | hands out the first forty bytes received and empties the buffer, or says that there are none |
| NetServer.Server.CheckPendingDeadlines | servers/net/src/main.rs:354-371 | each machine past its deadline becomes idle with one failure reply to its sender; an expired connect also closes the connection |
| NetServer.Serve | servers/net/src/main.rs:150-182 | the server driven by any events reaches the modelled state, has sent the modelled replies and keeps the invariant |
| TcpStream.AnswerToSyn | servers/net/src/tcp.rs:155-168 | while a connect awaits its answer, a segment of the peer opens the connection iff it has SYN and ACK, with the numbers it carries, and tells the requester; else fails it iff it has RST; any other changes nothing |
| TcpStream.OnOpen | servers/net/src/tcp.rs:169-191 | on an open connection a segment of the peer with RST or FIN drops it, any other is data, whatever its sequence number |
| TcpStream.StreamExactly | servers/net/src/main.rs:260-274 | over any events while the connection stays open, what was handed out and what is buffered is exactly what was buffered and what arrived, in order, iff no segment overran the buffer and no read found more than forty bytes; the acknowledgement counts all of it either way |
| TcpStream.RetransmitDoubles | servers/net/src/tcp.rs:178-188 | a segment that arrives twice is received twice |
| TcpStream.LongReadDrops | servers/net/src/main.rs:260-274 | a read of a fuller buffer hands out forty bytes and drops the rest |
| Vt100.FeedAll | servers/gop/src/vt100.rs:85-279 | over any byte stream at most 8 parameters are kept and both colours stay at most 15 |
| Vt100.FeedToken | servers/gop/src/vt100.rs:141-216 | one printed character, or CSI command with any number of parameters, is read back, the parameters as they are kept |
| Vt100.FeedInvertsPrint | servers/gop/src/vt100.rs:85-279 | any printed list of them yields exactly its events and ends in Normal |
| Vt100.EventsRoundTrip | servers/gop/src/vt100.rs:85-279 | printing any list of cursor, erase, scroll and character events and feeding the bytes gives the same events |
| Vt100.FeedParams | servers/gop/src/vt100.rs:143-156 | any number of decimal parameters of any size is read as they are kept |
| Vt100.KeptIs | servers/gop/src/vt100.rs:143-156 | kept are the first seven, up to 32 bits, and the eighth with the digits of all later ones behind it |
| Vt100.KeptExactly | servers/gop/src/vt100.rs:143-156 | they are kept as they are iff there are at most eight, of 32 bits each |
| Vt100.ExcessIgnored | servers/gop/src/vt100.rs:152-156 | more than eight are kept as the first eight iff the eighth is at its limit, or it and all later ones are 0 |
| Vt100.NinthSpoilsEighth | servers/gop/src/vt100.rs:152-156 | of 1 to 9, 8 and 9 are kept as 89 |
| Vt100.LeadingEmptyDropped | servers/gop/src/vt100.rs:152-156 | with an empty parameter in front, one or more parameters mean what they mean without it |
| Vt100.DefaultsApply | servers/gop/src/vt100.rs:173-200 | a parameter left out means 0, and 0 means 1 except for erasing and SGR |
| Vt100.SgrSets | servers/gop/src/vt100.rs:218-279 | which colour, bold and reversal every SGR code sets |
| Vt100.PaletteIs | servers/gop/src/vt100.rs:22-39 | palette entry i has the red, green and blue of its lowest bits, dark below 8 and bright from 8 on, with the greys between |
| Vt100.DrawnExactly | servers/gop/src/vt100.rs:218-279 | a screen that shows what the attributes call for still does after a code iff it sets a colour while not reversed (or shows only that), or changes bold or reversal while bold makes no difference |
| Vt100.ColoursDrawn | servers/gop/src/vt100.rs:218-279 | so colours without bold and reversal are drawn right, however many and in whatever order |
| Vt100.ColoursShown | servers/gop/src/vt100.rs:141-279 | any pair of palette colours is shown, from whatever came before, by one printed command |
| Vt100.ReversedColourWrong | servers/gop/src/vt100.rs:236-250 | a reversed screen on which a colour is drawn in the wrong place |
| Vt100.Parser.FeedByte | servers/gop/src/vt100.rs:85-137 | one byte changes the parser's fields and emits events exactly as the function whose stream laws are proved |
| Vt100.Parser.Collect | servers/gop/src/vt100.rs:141-169 | digits saturate, separators stop at eight parameters, final bytes dispatch, as that function |
| Vt100.Parser.Act | servers/gop/src/vt100.rs:177-279 | the SGR loop over all parameters equals its fold, every other final byte its one event |

## Left out

- The scheduler, the kernel's message queue, paging and physical allocators and the process table: their sources are not part of this model; page mapping and frame allocation appear only as operations that may fail.
- Naked assembly, MSRs, descriptor tables, APIC, PCI scanning, UEFI and boot printing: hardware plumbing.
- IPC timeouts: a call is matched with its own reply; a call that gets no reply is reported as such.
- `OP_STAT`, `OP_FSTAT`, `OP_MOUNT`, `OP_MKDIR` and the legacy write session of the file server: each is one lookup or one overlay operation of the kinds modelled here.
- `available` parses the boot sector on the first request: the model takes what it finds there, `Fat32Layout.Mounted`, as given.
- errno values of the C library, stdin and the UART: results are -1, 0 or a count.
- ELF identification bytes and header checks of the loaders, and the user stack: the model starts at the program headers.
- `OP_NET_TCP_SEND` and `OP_NET_GET_IP`: they neither ask for nor change a pending request.
- UDP sockets, the ARP cache, GOP drawing, crash log, service and IRQ registries: small tables, rings or user interface.
- Frame tracking for reclaim in the loaders: it silently caps at 64 or 128 frames.
- 64-bit wrap-around of header offsets and of page addresses in the loaders: the model computes them with unbounded numbers, which agrees for files and segments that fit the address space.
- Ethernet framing: what a packet's payload is given to, and taken from, is the model's boundary.
- HeapAllocator.Allocator.Malloc: block totals must fit the 32 bits the header has for them; HeapState.HeaderExactly says that they are lost otherwise.
- HeapAllocator.Allocator.Calloc: the same for the product, unless it overflows 64 bits and is refused.
- HeapAllocator.Allocator.Realloc: the same for the new size.
- PageMerge.MergedPath: what the merge takes for kernel tables leads to no table it writes; that is so of real tables apart from the process's own, and only a 1 GB page read as a table can hold anything else.
- PageMerge.MergeUserAccess: the same.
- BlockDriver.RunKeepsInv: senders are not 0; the kernel numbers processes from 1 and stamps the sender itself.
- BlockDriver.RepliesConserved: counts replies; it does not claim that one comes, since after a device error none does.
- BlockDriver.ReadSector: the reader is the driver's only client while it reads; SecondClientSplits shows what a second one can do.
- Fat32.Reader.ReadFile: only the chains and sectors the call walks must be in order, the file's own and those of the directories on its way.
- Libc.Process.ReadLoop: files of less than 2^32 bytes, as the descriptor's offset has 32 bits; only compiled-in files could be larger.
- Checksum.IpChecksum: data up to the length whose sum fits the 32-bit accumulator, 131074 bytes.
- Packets.BuildIcmpEcho: messages up to the length whose sum fits the 32-bit accumulator.
- FileRoundTrip.RoundTrip: the path is stable and not an overlay directory, and the open succeeded; the contents beyond the data written are not described, since truncation keeps old bytes.
- Readdir.DistinctExactly: names of at most 40 bytes, at most 32 FAT32 entries, names distinct within each layer; beyond these limits the tables overflow silently.
- ListedRead.ListedIsRead: the same limits, and FAT32 names without slash or zero byte.
- ListedRead.ReadIsListed: the same.
- NetServer.EveryRequestAnsweredOnce: whether an address is cached, a packet could be sent and what the clock says are inputs of each event.
