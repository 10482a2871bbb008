# Sapphire OS cores in Dafny

A model of the storage, memory, networking and arithmetic cores of the Sapphire operating system, with proofs of the
properties the rest of the system leans on. Widths are those of the AVR target; where a counter could wrap, the wrap
is written out or a proof shows that it cannot happen.

- **Flash file system** (`bytes`, `ffs_layout`, `ffs_flash`, `ffs_file`, `ffs_lists`, `ffs_disk`, `ffs_block`,
  `ffs_page`, `ffs_gc`, `ffs_cost`, `flash_fs`, `ffs_mount`). Flash is a row of 4096-byte block images in which
  programming can only clear bits and erasing sets a whole block to 0xff; a ghost journal lists what was programmed
  since a block was last erased. One `next_block` array threads a free list, a dirty list and one list
  per file. The abstract state maps each file id to a byte string; every operation is proved to change that map as its
  name says, or to fail for lack of a free block and leave it alone. Mounting rebuilds everything from flash.
- **Handle heap and collector** (`heap_layout`, `heap`, `heap_slide`, `heap_collector`). An 8192-byte array tiled by
  blocks whose headers are parsed from the bytes; a collector slides live blocks down with an overlapping byte copy.
- **Lists** (`list_nodes`, `list`, `list_queue`). Doubly linked lists of handles, stored in the moving blocks of that
  heap, and the queues made of them.
- **Route discovery** (`routing_messages`, `routing`, `routing_network`, `routing_reach`). The handlers of one node,
  and a network of nodes in which copies of messages are delivered in any order, delayed or lost.
- **Parameter store** (`config_blocks`, `config`, `config_stale`). Chained 12-byte EEPROM blocks. A ghost log records the
  row of blocks after every byte write, so that statements about power cuts range over every prefix of byte writes.
- **IPv4 fragments** (`ipv4_fragments`, `ipv4_delivery`, `ipv4`). The packed header, the slicer, and the reassembler
  facing a channel that may lose, duplicate, reorder and interleave.
- **Radio frames** (`mac_frames`, `mac`). Building and parsing frames with variable address fields and authentication.
- **CRC and calendar** (`crc`, `datetime`, `datetime_text`). The table CRC against its bit-serial definition; calendar
  conversion, counting on, printing and parsing.

Code that works by updating state is modelled by classes and methods over arrays and proved against functions on
values; the laws are lemmas about those functions. `dafny verify dfyconfig.toml` checks the whole project.

Where the code differs from what its comments or neighbours suggest, the model follows the code:

- The EOF test of the page layer is one page looser than "no holes" (`FfsFile.EofTestLooseness`); the byte layer never
  uses the extra page, and the page write contract asks for no hole.
- Reading or writing past the end of a file that fills the device looks up a page in a block the device does not have,
  and an assertion stops the system (`FlashFs.Read`, `FlashFs.Write`, `FlashFs.FullDeviceHalts`). The model has this as
  an outcome, `HALTED`.
- `write_to_media` clamps a write to the free blocks times the data of a block, but what a write takes depends on the
  slots left in the blocks it goes to: overwriting a block can take seven (`FfsCost.SevenForOne`). A write within that
  estimate can stop short, and its caller is then told that nothing was written (`FlashFs.EstimateFails`);
  `FlashFs.Write` has the exact condition.
- A clean-up of mistyped parameter blocks that is itself cut short can end differently when run again
  (`ConfigBlocks.ResumesDifferently`); `ConfigBlocks.CleanResumes` says exactly when.
- The flag word of the parameter clean-up has 16 bits, so duplicates of piece 16 and up are not found
  (`ConfigBlocks.DuplicatesLeft`), and a value of more than 128 bytes need not read back after it was set
  (`ConfigBlocks.GetAfterSet`, `ConfigStale.StaleRead`). Piece 16 of a 128-byte value holds nothing.
- Printing a year of fewer or more than four digits does not parse back, except for 57223 (`DateTimeText.PrintParse`);
  the comment in the code warns of the short ones only.
- Receivers keep four bits of a protocol number, so numbers from 16 on do not come back, and an unsecured frame whose
  number has its top bit set is taken for a secured one (`MacFrames.FrameRoundTrip`).
- The 8-bit list count of a list of 256 nodes is zero (`HandleList.List.Count`).
- A parameter of unknown type has size 65535, whose block count is 8192 and becomes 0 in eight bits; writing it does
  nothing (`Config.ConfigStore.WriteParam`).

## Model

| member | source | states |
|---|---|---|
| Bytes.ProgramBits | src/ffs_block.c:438-467 | programming NOR flash never sets a bit: in the target range a bit survives exactly if the data has it set, elsewhere nothing changes |
| Bytes.ProgramErased | src/ffs_page.c:556-583 | over erased bytes, programming stores exactly the data, so the read-back compare succeeds |
| Bytes.ProgramFrame | src/ffs_page.c:43-53 | programming one region leaves every disjoint region unchanged |
| FfsLayout.DecodeEncode | src/ffs_page.c:746-785 | a stored page record reads back as the same page and its stored checksum matches, for any checksum function |
| FfsLayout.RegionsDisjoint | src/ffs_block.h:31-54 | the two headers, 2 x 59 index entries and 59 page slots are pairwise disjoint and fit in 4096 bytes |
| FfsLayout.FileBytes | src/ffs_block.h:31-54 | byte by byte what a block of a file holds: file id, flags and block number in both headers, the index entries, and length, data and checksum of each page |
| FfsFlash.Flash.ProgrammedOnce | src/ffs_block.c:438-633 | between two erases of a block each meta header, index entry and page slot is programmed at most once, flag bytes are the only ones programmed again, every program finds all bits it wants set, and the image is exactly what these programs leave |
| FfsFlash.StaysProgrammed | src/ffs_block.c:616-633 | no program makes a programmed region look erased again |
| FfsFlash.RegionsApart | src/ffs_block.h:31-54 | all regions a program may cover are disjoint, but for a flag byte and the meta header around it |
| FfsFlash.Flash.Put | src/ffs_page.c:556-583 | programming an erased region, or clearing flag bits: the region holds the data, every other region is as before, and the journal of the block grows by one legal entry |
| FfsFlash.Flash.EraseBlock | src/ffs_block.c:474-489 | the block is all 0xff and its journal empty |
| FfsLayout.IndexStored | src/ffs_block.c:616-633 | writing the next index entry shows in both copies and changes no other entry, page or header |
| FfsLayout.PageStored | src/ffs_page.c:788-842 | writing a page into an erased slot stores it and changes no other page, entry or header |
| FfsLayout.AppendStored | src/ffs_page.c:788-842 | index entry plus page together append exactly one entry to the log a block stores |
| FfsLayout.MetaStored | src/ffs_block.c:558-571 | writing both meta copies over erased ones stores them and leaves the log alone |
| FfsLayout.SealBlock | src/ffs_page.c:556-583 | writing the meta last turns a copied block into block k of file f with the log already in it |
| FfsLayout.FlagsStored | src/ffs_block.c:438-467 | clearing the dirty bit is a legal program whatever the flags say, and both copies take it |
| FfsFile.LastSlot | src/ffs_page.c:700-744 | the slot found names the page and no later slot does |
| FfsFile.LatestAppend | src/ffs_page.c:700-744 | appending a page write makes it the newest version of that page and no other |
| FfsFile.BlockPutShows | src/ffs_page.c:788-842 | a page write appended to the log of its block moves that block from the old contents to the contents with the page put |
| FfsFile.CompactShows | src/ffs_page.c:523-586 | copying the newest version of each page up to the first missing one keeps every byte of the block, because files have no holes |
| FfsFile.OverlayIsSplice | src/flash_fs.c:344-434 | overlaying a chunk on one page is splicing the chunk into the whole file |
| FfsFile.SpliceSplice | src/flash_fs.c:344-434 | two adjacent splices are one splice of both pieces |
| FfsFile.EofTestLooseness | src/ffs_page.c:602-613 | the page layer EOF test admits exactly one page too many: the one a page past the first missing page |
| FfsLists.PopOk | src/ffs_block.c:294-330 | taking the head block off a list keeps all lists chained, duplicate-free, disjoint and owned |
| FfsLists.PushOk | src/ffs_block.c:217-263 | appending an unowned block keeps all lists chained, duplicate-free, disjoint and owned |
| FfsLists.SwapOk | src/ffs_block.c:265-292 | replacing a block in the middle of a list keeps all lists consistent and leaves only the old block unowned |
| FfsLists.AllFreeOk | src/ffs_block.c:50-126 | a fresh device is one consistent free list holding every block |
| FfsLists.Conservation | src/ffs_block.c:173-330 | the lengths of all lists add up to the number of blocks |
| FfsLists.ExactlyOnce | src/ffs_block.c:173-330 | each block sits at exactly one position of exactly one list |
| FfsBlock.BlockDriver.constructor | src/ffs_block.c:50-126 | a freshly erased device has every block on the free list |
| FfsBlock.BlockDriver.AddToList | src/ffs_block.c:217-263 | the walk to the end of the list and the link update give the list with the block appended, counters included |
| FfsBlock.BlockDriver.AllocBlock | src/ffs_block.c:175-193 | returns the first free block and unlinks it, or an error exactly when none is free |
| FfsBlock.BlockDriver.GetDirty | src/ffs_block.c:195-213 | returns the first dirty block and unlinks it, or -1 exactly when none is dirty |
| FfsBlock.BlockDriver.ReplaceInList | src/ffs_block.c:265-292 | the link arrays become those of the list with one block replaced at its place |
| FfsBlock.BlockDriver.GetBlock | src/ffs_block.c:387-403 | the block at a position of a list, or -1 past its end |
| FfsBlock.BlockDriver.ListSize | src/ffs_block.c:368-385 | the loop counts the length of the list |
| FfsBlock.BlockDriver.IsInList | src/ffs_block.c:342-365 | true exactly for members of the list |
| FfsBlock.BlockDriver.SetDirty | src/ffs_block.c:438-467 | whatever the flags say, both copies end up dirty and the block is queued at the end of the dirty list; index, pages and all other images are unchanged |
| FfsBlock.BlockDriver.Erase | src/ffs_block.c:474-489 | the block becomes all 0xff and goes to the end of the free list; no other image changes |
| FfsBlock.BlockDriver.ReadMeta | src/ffs_block.c:506-556 | the meta header is delivered exactly when its two copies agree and name a possible file block |
| FfsBlock.BlockDriver.WriteMeta | src/ffs_block.c:558-571 | both copies of an erased header hold the meta, index and pages are unchanged, and it reads back unless the block number is none of this device |
| FfsBlock.BlockDriver.SetIndexEntry | src/ffs_block.c:616-633 | an erased index entry shows the page in both copies, always reads back, and no other region of the block changes |
| FfsBlock.BlockDriver.GetIndexInfo | src/ffs_block.c:635-678 | for any index the scan reports free entries, next free slot, and the largest page after the last entry that wraps in eight bits with a sign, or nothing when the copies differ |
| FfsBlock.InfoOfBody | src/ffs_block.c:635-678 | for a block storing a log, the scan finds the end of the log, the number of free entries, and the largest page written |
| FfsDisk.PageShows | src/ffs_page.c:746-785 | in a consistent file system the newest copy of every page shows exactly that page of the file contents |
| FfsDisk.PutOk | src/ffs_page.c:788-842 | a completed page write gives a consistent file system with that page put and all other files intact |
| FfsDisk.GrownOk | src/ffs_page.c:419-471 | giving a file a fresh block keeps the file system consistent and every content unchanged |
| FfsDisk.ReplacedOk | src/ffs_page.c:473-521 | moving a block, compacted, to a free one keeps every file and leaks no block |
| FfsDisk.DroppedOk | src/ffs_page.c:387-409 | retiring the first block of a file leaves all other files intact |
| FfsDisk.DeletedOk | src/ffs_page.c:387-409 | forgetting a file without blocks leaves a consistent file system without that file |
| FfsDisk.ErasedOk | src/ffs_gc.c:83-90 | turning a dirty block into a free one keeps the file system consistent |
| FfsPage.FileSystem.Format | src/ffs_page.c:55-63 | a formatted device is consistent, has no files, and all its blocks free |
| FfsPage.FileSystem.SeekPage | src/ffs_page.c:700-744 | the backward index scan finds the newest slot of the page, or reports EOF exactly when the page does not exist; exactly for pages outside the device an assertion stops the system |
| FfsPage.FileSystem.ReadPage | src/ffs_page.c:746-785 | delivers the newest copy of a page, whose checksum always matches, or EOF exactly when there is none |
| FfsPage.FileSystem.AllocBlock | src/ffs_page.c:419-471 | adds one block to the file, or changes nothing exactly when none is free |
| FfsPage.FileSystem.CreateFile | src/ffs_page.c:348-385 | the first unused file id gets one empty block; fails exactly when no id or no block is free, changing nothing |
| FfsPage.FileSystem.DeleteFile | src/ffs_page.c:387-409 | the file is gone, as many blocks as it had are now dirty, and all other files are unchanged |
| FfsPage.FileSystem.WriteSlot | src/ffs_page.c:805-826 | an erased slot holds the page and its checksum, always reads back, and no other region of the block changes |
| FfsPage.FileSystem.CopyPage | src/ffs_page.c:523-586 | copies the newest version of a page into the next slot, or stops at EOF without touching the target |
| FfsPage.FileSystem.BlockCopy | src/ffs_page.c:523-586 | the target block holds, in page order, the newest version of every page of the source; the source is untouched |
| FfsPage.FileSystem.ReplaceBlock | src/ffs_page.c:473-521 | every file keeps its contents; the block is relinked to a fresh one, whose sequence number is one higher in eight bits, and the old one is dirty; nothing changes exactly when no block is free |
| FfsPage.FileSystem.AllocPage | src/ffs_page.c:589-698 | reserves the slot of the next version of a page, adding or replacing a block when needed; fails exactly past the EOF test or without a free block |
| FfsPage.FileSystem.WritePage | src/ffs_page.c:788-842 | the file becomes the old file with the page put and other files are unchanged; the exact condition of failure, which changes nothing |
| FlashFs.FileSize | src/flash_fs.c:121-148 | the size of the user data, negative exactly for a missing file or one without its 128-byte header |
| FlashFs.Read | src/flash_fs.c:251-342 | the exact stored slice, EOF at or past the end, and when the request runs past the end an error, or an assertion exactly if the file fills the device |
| FlashFs.TrapsAtTheEnd | src/ffs_block.c:387-389 | looking up the page of a position trips an assertion exactly at the end of a file that fills the device |
| FlashFs.FullDeviceHalts | src/ffs_block.c:387-389 | a run that stops the system: a one-block device, a file that fills it, one byte more to write or read |
| FlashFs.ReadFromMedia | src/fs.c:800-818 | the clamped read: exactly the stored bytes from the position to the end of the request or of the file |
| FlashFs.Write | src/flash_fs.c:344-434 | the file becomes old[..p] + d + old[p+|d|..] for all the data, exactly if the pages of the write cost no more blocks than are free, and else for the whole pages that could be paid; the free blocks left are exact; no other file changes; positions past the end are refused; an assertion stops the system exactly if the data goes past the end of the device and all pages up to there can be paid |
| FfsCost.MeasureStep | src/ffs_page.c:589-698 | a page write takes as many free blocks, and leaves each block of its file with as many used slots, as the plan made beforehand says |
| FfsCost.CostInBlock | src/ffs_page.c:629-698 | pages written into a block with enough slots left cost nothing |
| FfsCost.CostOfNewBlock | src/ffs_page.c:614-628 | a new block at the end of a file costs one |
| FfsCost.CostOverwrite | src/ffs_page.c:473-660 | overwriting pages of a block costs one block for each compacted copy it takes, each copy having one used slot per page of the file in it |
| FfsCost.SevenForOne | src/ffs_page.c:473-660 | overwriting all 51 pages of a block without a free slot takes seven free blocks |
| FfsCost.AtTheEnd | src/ffs_block.c:387-389 | a file that fills the device owns every block, so a page more could not be paid |
| FlashFs.WriteChunk | src/flash_fs.c:359-434 | one page worth of the write is spliced in exactly if the page costs no block or one is free; otherwise nothing changes, and the result is an assertion exactly at the end of a full device |
| FlashFs.WriteToMedia | src/fs.c:774-798 | the write clamped to the estimate of free space: how much of it gets in, and that the caller is told all or nothing |
| FlashFs.EstimateFails | src/flash_fs.c:105-108 | a run in which the estimate is 3264 bytes, a write of 128 stops after 64, and its caller is told none got in |
| FlashFs.CreateFile | src/flash_fs.c:177-234 | a new file holds the characters of its name up to a zero, zeros up to byte 64 and 0xff up to byte 128, and is empty; no other file changes; fails exactly without an id or block |
| FlashFs.NameReadsBack | src/flash_fs.c:150-175 | a client that creates a file gets its name of up to 64 characters back |
| FlashFs.NamesDiffer | src/flash_fs.c:195-200 | two names have the same name page exactly if their first 64 characters agree |
| FlashFs.ReadFilename | src/flash_fs.c:150-175 | the stored 64-byte name page |
| FfsGc.CollectOne | src/ffs_gc.c:83-90 | one dirty block becomes free and no file notices |
| FfsGc.CollectAll | src/ffs_gc.c:53-118 | a whole pass leaves no dirty block, adds them all to the free ones, and keeps every file |
| FfsGc.FindLeastWorn | src/ffs_gc.c:121-208 | the first block with the lowest erase count, and the spread of the counts, for all 32-bit counts |
| FfsGc.LevelWear | src/ffs_gc.c:121-208 | the least worn block goes to the dirty list exactly when wear is uneven, it holds file data and a block is free; otherwise nothing changes; every file keeps its contents |
| FfsMount.ScanFreeAndDirty | src/ffs_block.c:85-125 | the flag scan lists exactly the free and the dirty blocks |
| FfsMount.ScanFiles | src/ffs_page.c:65-209 | the meta scan lists exactly the blocks of each file |
| FfsMount.MapBlocks | src/ffs_page.c:65-209 | the block map holds the k-th block of the file at k and -1 elsewhere, whatever order the list was in |
| FfsMount.Rebuild | src/ffs_page.c:65-209 | the list of a file is rebuilt in block order |
| FfsMount.ScanFileSize | src/ffs_page.c:279-345 | last block index and last page length give exactly the size of the contents, empty files included |
| FfsMount.FileScan | src/ffs_page.c:231-276 | every page of a file reads back and all but the last are full |
| FfsMount.Mount | src/ffs_page.c:65-209 | whatever RAM held, mounting brings back the same ordered block list, size and contents of every file |
| FfsMount.PowerCycle | src/ffs_page.c:65-209 | losing all of RAM between two operations loses nothing, counters included |
| FfsMount.BlocksAccounted | src/ffs_block.c:173-330 | in every consistent state each block is on exactly one list, both counters are list lengths, and the k-th block of file f says so in both copies of its meta |
| HeapLayout.HeaderOf | src/memory.c:102-110 | size, dirty flag, handle and canary read from the bytes of a block are the ones encoded there |
| HeapLayout.BlockInNumbers | src/memory.c:102-110 | the bytes of a block: size, dirty flag, handle, data and canary |
| HeapLayout.BlockAt | src/memory.c:102-110 | in a tiled heap the i-th block sits at its offset and the next one right behind it |
| HeapLayout.UsedIsData | src/memory.c:310-420 | space of the live blocks is user data plus five bytes per live handle |
| HandleHeap.Heap.constructor | src/memory.c:203-223 | an empty heap: all 8192 bytes free, no handle in use |
| HandleHeap.Heap.Bookkeeping | src/memory.c:203-217 | in every reachable state free + used + dirty = 8192 and used = data + 5 * handles |
| HandleHeap.Heap.Alloc | src/memory.c:290-370 | succeeds exactly when a handle is unused and free >= size + 5; the lowest unused handle gets a block of that size, everything else is unchanged |
| HandleHeap.Heap.FindHandle | src/memory.c:302-318 | the first unused handle, or none |
| HandleHeap.Heap.VerifyHandle | src/memory.c:247-286 | true exactly for live handles |
| HandleHeap.Heap.Located | src/memory.c:470-480 | a live handle points at its own intact, clean block below the free pointer |
| HandleHeap.Heap.GetSize | src/memory.c:434-447 | the size asked for at allocation |
| HandleHeap.Heap.ReadBytes | src/memory.c:470-480 | what is read through a handle is the owner's data |
| HandleHeap.Heap.WriteBytes | src/memory.c:470-480 | what is written through a handle changes that object only |
| HandleHeap.Heap.Free | src/memory.c:385-421 | the handle is gone, every other object keeps size and contents, and the block counts as dirty |
| HeapCollector.FindDirty | src/memory.c:554-559 | the first dirty block |
| HeapCollector.CopyDown | src/memory.c:602-603 | the forward byte copy of overlapping ranges leaves the source bytes at the lower place |
| HeapCollector.MoveBlock | src/memory.c:583-609 | one clean block slides down and its handle follows; the pass invariant holds on |
| HeapCollector.Pass | src/memory.c:538-624 | contents and size behind every live handle survive, blocks keep their order, blocks before the first dirty one stay in place, and the free pointer ends at used space |
| HeapCollector.Collect | src/memory.c:538-624 | below the threshold nothing happens, otherwise a full pass runs |
| HeapSlide.SlideStart | src/memory.c:554-565 | at the first dirty block the pass invariant holds |
| HeapSlide.SlideDirty | src/memory.c:569-581 | skipping a dirty block keeps the pass invariant |
| HeapSlide.SlideClean | src/memory.c:583-609 | moving a clean block keeps the pass invariant |
| HeapSlide.SlideEnd | src/memory.c:612-624 | after the pass every live handle points at its block |
| HeapSlide.SlidPayloads | src/memory.c:538-624 | compaction keeps what every handle means |
| HeapSlide.PrefixStays | src/memory.c:554-565 | handles of blocks before the first dirty one are not changed |
| ListNodes.LinkRoundTrip | src/list.h:23-27 | 16-bit signed links survive being stored in two bytes |
| ListNodes.NodeBytes | src/list.h:23-27 | the bytes of a node: two links, low byte first, and the data |
| ListNodes.InsertAfterOk | src/list.c:107-128 | the three link updates of an insertion give exactly the list with the node inserted |
| ListNodes.InsertFirstOk | src/list.c:150-176 | head insertion gives exactly the list with the node in front |
| ListNodes.RemoveOk | src/list.c:178-206 | joining the neighbours gives exactly the list without the node |
| ListNodes.OtherList | src/list.c:107-218 | operations on one list leave every list that shares no node with it unchanged |
| ListNodes.SameBodies | src/list.c:107-218 | inserting and removing keep what every node carries |
| ListQueue.Serve | src/list.c:150-218 | any run of insertions at the head, removals from the tail and collector passes on a list in the heap is a run of a queue of byte strings |
| ListQueue.Fifo | src/list.c:150-218 | what came out followed by what still waits is what waited before followed by what went in |
| ListQueue.Put | src/list.c:150-176 | the data arrives last, exactly if the heap has a handle and room |
| ListQueue.Get | src/list.c:208-218 | the data that arrived first leaves, its object is released, the rest stays |
| HandleList.CreateNode | src/list.c:29-54 | a fresh handle with empty links and the given data, or -1 exactly when the heap cannot hold it |
| HandleList.List.InsertAfter | src/list.c:107-128 | prev, next, head and tail spell the old list with the node inserted; only links of the list nodes change |
| HandleList.List.InsertTail | src/list.c:130-148 | the node becomes the last one |
| HandleList.List.InsertHead | src/list.c:150-176 | the node becomes the first one |
| HandleList.List.Remove | src/list.c:178-206 | the list without that node; nothing but links of remaining nodes changes |
| HandleList.List.RemoveTail | src/list.c:208-218 | returns and removes the last node, -1 from an empty list |
| HandleList.List.Count | src/list.c:63-77 | the number of nodes modulo 256: a list of 256 nodes counts as zero |
| HandleList.List.Size | src/list.c:79-93 | the total length of the data, which always fits 16 bits |
| HandleList.ListFits | src/list.c:275-311 | the data of a list is at most the data space of the heap, so position counters never wrap |
| HandleList.List.Flatten | src/list.c:275-311 | copies exactly the requested slice of the concatenated data, cut off at its end, and no other byte of the buffer |
| HandleList.List.Destroy | src/list.c:259-273 | every node of the list is released and nothing else |
| HandleList.List.CollectGarbage | src/memory.c:586-603 | a collector pass leaves nodes, order and data of a list unchanged |
| Routing.Router.AddToReplayCache | src/routing2.c:64-91 | true exactly for a key in the cache; a new key replaces the oldest of eight |
| RouteMessages.RememberRecent | src/routing2.c:64-91 | seen by age, the ring drops the oldest key and appends the new one |
| RouteMessages.ReplayWindow | src/routing2.c:64-91 | up to seven further requests never push a key out of the cache |
| Routing.Router.HandleRreq | src/routing2.c:914-985 | the decision, field by field: a node answers a request new to it exactly if the address or short address asked for is its own, both are gateways, or it has a proxy; the extended path and cost, and when the replay cache is touched |
| Routing.Router.HandleRrep | src/routing2.c:1050-1111 | the decision on fields, the accumulated forward cost and the moved index |
| Routing.CheckForLoops | src/routing2.c:572-586 | accepts exactly the hop lists without repetition |
| RouteNetwork.AskKeeps | src/routing2.c:610-625 | a new request is well formed in every copy and keeps the network invariant |
| RouteNetwork.RequestKeeps | src/routing2.c:989-1044 | delivering a request keeps the invariant: paths simple and real, costs exact, replies answer the query |
| RouteNetwork.ReplyKeeps | src/routing2.c:1114-1182 | delivering a reply keeps the invariant, with the broadcast fallback |
| RouteNetwork.StepKeeps | src/routing2.c:989-1182 | every enabled step keeps the invariant, and no message ever indexes outside its hop table |
| RouteNetwork.LearnedRoutes | src/routing2.c:1050-1138 | in every run each route an origin learns is a usable path for a query it asked: simple, 2 to 8 nodes, links that work both ways, relays that cannot answer, an answer at the end; forward and reverse cost are the sums in the two directions |
| RouteNetwork.RoutesAnswer | src/routing2.c:173-194 | every route learned ends at the first node on it that is asked for or has a proxy, with the addresses and flags of that node, or those of a proxy route |
| RouteNetwork.ShortAddressFound | src/routing2.c:628-668 | with distinct short addresses and no proxies, every route learned for a short address ends at the node that has it |
| RouteNetwork.ReplyGetsThrough | src/routing2.c:1050-1111 | a genuine reply is forwarded by exactly the hop it is meant for, and accepted by the origin unless the answer is its neighbour |
| RouteNetwork.StepShrinks | src/routing2.c:937-984 | every delivery and every loss lowers an explicit weight of the messages in flight |
| RouteNetwork.RunsEnd | src/routing2.c:1099-1110 | without further requests a run has at most as many steps as that weight |
| RouteNetwork.OneRequestEnds | src/routing2.c:1034-1043 | one request on n nodes causes a number of message steps bounded in n alone |
| RouteNetwork.FloodsOnce | src/routing2.c:914-985 | during one discovery no node forwards or answers more than once |
| RouteReach.EveryUsablePathIsFound | src/routing2.c:914-1138 | completeness: from any consistent state a node that asks can learn every usable path whose nodes have not seen its tag, whatever else is in flight |
| RouteReach.FindsExactlyTheUsable | src/routing2.c:914-1138 | some run from a start state ends with a path among the learned routes if and only if the path is usable |
| RouteReach.OutboundStep | src/routing2.c:989-1044 | a request copy moves one hop along such a path |
| RouteReach.InboundStep | src/routing2.c:1114-1182 | a reply moves one hop back along it, by unicast or broadcast |
| ConfigBlocks.ByteChanges | src/config.c:189-223 | one byte write changes one byte of one block |
| ConfigBlocks.First | src/config.c:225-263 | the first block holding a piece, and none before it |
| ConfigBlocks.CutPiece | src/config.c:356-431 | cut at any point while one piece is stored, every piece of every parameter is wholly old, or this one wholly new; if it was stored twice, the second copy below the new block may surface |
| ConfigBlocks.StoredPiece | src/config.c:356-431 | where a stored piece is found: in its new block, or in a second copy below it; a piece stored at most once stays so |
| ConfigBlocks.ReadsBack | src/config.c:225-263 | a piece reads back new exactly when no second copy lies below its new block, or that copy says the same |
| ConfigBlocks.StoredElsewhere | src/config.c:356-431 | storing a piece changes no other piece of any parameter |
| ConfigBlocks.CutTorn | src/config.c:356-431 | a cut during any piece leaves a first part of the pieces settled, one in between old, new or settled, the rest old |
| ConfigBlocks.BootAfterCut | src/config.c:265-334 | after any cut and the boot clean-up other parameters read as before, every piece is wholly old or settled (new unless a second copy shadows it), settled ones first, and no piece below 16 is stored twice |
| ConfigBlocks.CleanPreserves | src/config.c:292-334 | clean-up never changes what a well-typed store says |
| ConfigBlocks.CleanUnique | src/config.c:292-334 | after clean-up no piece with a flag bit is stored twice, whatever was there before |
| ConfigBlocks.DuplicatesLeft | src/config.c:322-332 | of two blocks for one piece clean-up keeps both exactly when the piece number is 16 or more |
| ConfigBlocks.CleanResumes | src/config.c:292-334 | a clean-up cut short before block k and run again ends in the same store exactly if each well-typed block from k on whose piece has a flag bit has a well-typed first block or an earlier block from k on of the same piece |
| ConfigBlocks.TypedResumes | src/config.c:292-334 | so it does for every store without mistyped blocks |
| ConfigBlocks.ResumesDifferently | src/config.c:292-334 | a store in which it does not: a mistyped block in front of a good one of the same piece |
| ConfigBlocks.GetAfterSet | src/config.c:356-498 | once all pieces of a setting are in, the value reads back exactly if every piece survives: no second copy lies below its block, or that copy says the same |
| ConfigBlocks.ShortSurvives | src/config.c:322-332 | values of up to 128 bytes always survive |
| ConfigBlocks.UniqueSettles | src/config.c:356-431 | a piece stored at most once settles as the new one |
| ConfigStale.StaleRead | src/config.c:265-431 | from a blank store: a 512-byte value is set, set again with a cut in piece 16, and then set whole up to sixteen times; each reads back, except that piece 16 of the sixteenth reads as that of the first of all |
| ConfigStale.SetTurns | src/config.c:356-431 | setting a long value moves each piece to where the one before it was, and the first one to the free block |
| Config.IndexAfterStore | src/config.c:206-263 | after a piece is stored every RAM index slot still names the block the full scan would find |
| Config.ConfigStore.constructor | src/config.c:791-797 | power-up: empty index, cleaned-up blocks; also lists every row a cut during clean-up can leave |
| Config.ConfigStore.CleanBlocks | src/config.c:292-334 | erases exactly the unknown, mistyped and flagged duplicate blocks |
| Config.ConfigStore.WriteBlock | src/config.c:265-275 | the block is stored; before its id byte, written last, the block stays free |
| Config.ConfigStore.EraseBlock | src/config.c:206-218 | the block is free and no index slot names it |
| Config.ConfigStore.SeekBlock | src/config.c:225-263 | through the index or by scan, the first block of the piece, or -1 |
| Config.ConfigStore.GetFreeBlock | src/config.c:277-288 | the first free block, or -1 exactly when there is none |
| Config.ConfigStore.StorePiece | src/config.c:386-427 | fails exactly without a free block, changing nothing; otherwise the piece goes to the first free block and its first old copy is erased |
| Config.ConfigStore.WriteParam | src/config.c:356-431 | the exact row afterwards, which pieces are new, that all get in exactly if more blocks are free than pieces missing before the last, the exact free count, that an overwrite needs one free block and conserves the count, and that every intermediate row is a legal cut; unknown types write nothing |
| Config.ConfigStore.SetThenGet | src/config.c:356-498 | a client that sets and gets: if the pieces get in, the value comes back exactly if every piece survives, always up to 128 bytes; every other parameter is unchanged |
| Config.SetThenGetEach | src/types.c:21-77 | for each type of the system, how many bytes come back after a set and a get, and that no others are touched |
| ConfigBlocks.StoredBytes | src/config.c:356-431 | the bytes in memory of a stored piece: parameter, type, number, eight bytes of the value or zeros behind its end |
| Config.ConfigStore.ReadParam | src/config.c:433-498 | succeeds exactly when all pieces are there and then delivers the value; zeros when the first piece is missing; the rest of the buffer is untouched |
| Ipv4Fragments.ParseBuild | src/wcom_ipv4.c:83-104 | parsing a built header gives the fields back exactly when they fit 4, 8, 10 and 10 bits |
| Ipv4Fragments.HeaderBits | src/wcom_ipv4.c:93-104 | which bits of the four bytes hold flags, tag, size and offset |
| Ipv4Fragments.BuildParse | src/wcom_ipv4.c:83-104 | every four header bytes are rebuilt from what they parse to |
| Ipv4.Outgoing.GetMacFrame | src/wcom_ipv4.c:1074-1105 | the next frame, bit by bit: header, and as much data from the offset as fits; the offset moves on by that |
| Ipv4.SendAll | src/wcom_ipv4.c:1202-1309 | the frames of a message carry all of its data, once and in order |
| Ipv4.Reassembler.GetMsg | src/wcom_ipv4.c:622-647 | the first stream of a sender and tag, or none |
| Ipv4.Reassembler.AppendData | src/wcom_ipv4.c:537-559 | data is appended up to the announced size |
| Ipv4.Reassembler.ProcessFragment | src/wcom_ipv4.c:650-742 | which fragments are ignored, start a stream, continue or complete one, by the bits of the header; the same as in the channel model |
| Ipv4.Reassembler.TimeoutTick | src/wcom_ipv4.c:984-1021 | of the streams that have reached age 10 the first one goes, those in front of it are one older and those behind it wait |
| Ipv4Fragments.StepKeeps | src/wcom_ipv4.c:650-742 | every event keeps each half-received stream a beginning of one live message |
| Ipv4Fragments.OnlySentMessages | src/wcom_ipv4.c:650-742 | under loss, duplication, reordering, interleaving and timeouts every completed message is one that was sent, when sender and tag name one live message |
| Ipv4Fragments.InOrderDelivery | src/wcom_ipv4.c:650-742 | lossless in-order delivery completes the message with its last frame and leaves other streams alone |
| Ipv4Delivery.CompletedWhenArrived | src/wcom_ipv4.c:622-742 | in a run with any other frames, copies and ticks in between, an event completes a message exactly if it brings the last of its frames missing in order |
| Ipv4Delivery.InterleavedDelivery | src/wcom_ipv4.c:622-742 | if the frames of a message arrive in order and no timeout drops its stream, it is completed whatever else comes in between |
| Ipv4Delivery.Delivers | src/wcom_ipv4.c:622-742 | every message can be delivered: a run from the empty system that completes it |
| Ipv4Delivery.TickOthers | src/wcom_ipv4.c:984-1013 | a tick that does not drop a stream only ages it |
| Ipv4Delivery.TimesOut | src/wcom_ipv4.c:984-1021 | in a run in which nothing more comes in for a stream, and none in front of it is about to expire, it is there up to its tenth tick and gone from the eleventh on |
| Ipv4Fragments.OtherStreams | src/wcom_ipv4.c:622-742 | a frame of another sender or tag does not disturb a stream |
| Crc.TableIsSerial | src/crc.c:37-84 | each of the 256 table entries is eight serial steps of its index |
| Crc.BitsLinear | src/crc.c:177-203 | any number of serial steps is linear in state and data |
| Crc.TableStep | src/crc.c:152-203 | the table step equals eight bit-serial steps for every state and byte |
| Crc.PartialIsSerial | src/crc.c:126-203 | the table CRC of a buffer equals the bit-serial one |
| Crc.Chunks | src/crc.c:126-148 | a buffer may be fed in chunks |
| Crc.PartialBlock | src/crc.c:126-148 | the loop computes the partial CRC of the buffer |
| Crc.BlockCrc | src/crc.c:96-122 | start value, buffer and two zero bytes |
| Crc.KnownAnswers | src/crc.c:96-122 | the CRC of the empty buffer is 0x1d0f, that of the nine digits 0xe5cc |
| Crc.FirmwareCrc | src/ffs_fw.c:87-118 | an image read page by page has the CRC of the whole image |
| Crc.Residue | src/crc.c:96-122 | a message followed by its big-endian CRC has CRC zero |
| Crc.StepInjective | src/crc.c:152-169 | a step never merges two states |
| Crc.BurstsDetected | src/crc.c:96-169 | equal-length messages that differ only inside two adjacent bytes have different CRCs |
| DateTime.SecondsDetermineDate | src/datetime.c:187-253 | a valid date is determined by its second count since 1900 |
| DateTime.NextSecond | src/datetime.c:255-307 | one second later is a valid date with a second count one higher |
| DateTime.ConvertNext | src/datetime.c:187-307 | converting s + 1 is converting s and counting one second on |
| DateTime.CivilMeaning | src/datetime.c:30-43 | valid dates and their second count are those of calendar arithmetic without a table |
| DateTime.Clock.FromSeconds | src/datetime.c:187-253 | every 32-bit count gives the valid date whose count it is by calendar arithmetic, no later than 2036, without overflowing the 16-bit day counter |
| DateTime.Clock.FindYear | src/datetime.c:189-216 | the year containing a day number, by arithmetic on leap years |
| DateTime.Clock.FindMonth | src/datetime.c:218-241 | month and day of a day of the year, by arithmetic on months |
| DateTime.Clock.IncrementSeconds | src/datetime.c:255-307 | the date one second later, by the same arithmetic |
| DateTimeText.ToIso8601 | src/datetime.c:92-158 | the buffer after printing, byte for byte |
| DateTimeText.PrintedPlaces | src/datetime.c:92-158 | which digit or separator stands at each of the twenty places |
| DateTimeText.ParseIso8601 | src/datetime.c:61-88 | the date read from the digits, in 8- and 16-bit arithmetic: for a text of digits the date it says, for one shorter than twenty characters the epoch |
| DateTimeText.FieldsRoundTrip | src/datetime.c:61-158 | month, day and time survive printing and parsing whatever the year is |
| DateTimeText.PrintParse | src/datetime.c:61-158 | for all 16-bit years, printing then parsing is the identity exactly for years 1000 to 9999 and for 57223, which prints as a negative number |
| MacFrames.FrameLength | src/wcom_mac.c:388-420 | a built frame is as long as the precomputed header length plus the payload |
| MacFrames.ControlRoundTrip | src/wcom_mac.c:135-207 | both address modes are read back from the control field |
| MacFrames.AddressRoundTrip | src/wcom_mac.c:135-207 | the parser finds every address field where the builder put it, for all nine mode pairs |
| MacFrames.FrameRoundTrip | src/wcom_mac.c:209-334 | a built frame parses to its addresses, protocol, payload, signed bytes and tag exactly if the protocol number is below 16; from 16 on only upper bits of it are lost, unless the frame is unsecured and the number 128 or more; the addresses are those given exactly if the fields not carried are zero |
| Mac.Builder.BuildFrame | src/wcom_mac.c:454-606 | the buffer holds exactly the frame, its control bits set as asked, sequence number incremented, length as precomputed |
| MacFrames.ShortFrame | src/wcom_mac.c:480-606 | the bytes of a frame with short addresses |
| MacFrames.ForeignFrame | src/wcom_mac.c:135-207 | how a frame that names a source network is parsed |
| Mac.DecodeAddress | src/wcom_mac.c:135-207 | the address fields and where they end |
| Mac.RxHandler | src/wcom_mac.c:209-334 | which frames are accepted, and what is taken from them |

## Left out

- Flash, EEPROM and radio hardware: storage is reliable byte arrays, so the retry loops and error branches that follow a
  failed read-back or a failed checksum cannot be taken and are not modelled; that they are never taken is proved.
- The checksum in file system pages is a parameter (any function of the page bytes); that the real one is the table CRC
  is not used.
- FfsPage.FileSystem.WritePage: the page that the loose EOF test lets through and that would make a hole is excluded,
  and so is a short page in the middle of a file; the byte layer never asks for either.
- FfsPage.FileSystem.AllocPage: that page is excluded here too.
- FfsMount.Mount: flash left by an interrupted operation, or holding duplicate logical blocks, is excluded; the repair of
  duplicates and of bad free blocks walks a list while relinking it.
- The firmware partition, the erase-count file, file system statistics and the virtual files.
- The heap's peak usage and stack checks, and the final canary scan of a pass; `HandleHeap.Heap.Located` says what the
  scan would find.
- HeapCollector.CopyDown: `memcpy` on overlapping ranges, which C leaves undefined, is modelled as a forward byte copy.
- HandleHeap.Heap.VerifyHandle: handle 0, whose table index is negative, is excluded.
- HandleHeap.Heap.Free: handles that are positive but not live are excluded; the code stops on them with an assertion.
- HandleList.CreateNode: sizes whose sum with the link fields exceeds 16 bits are excluded.
- Length of a list beyond counting, indexed access, and the plain next and prev accessors, which would only add easy
  members.
- The route table (insertion, ageing, duplicate destinations), route errors, the optimizer and discovery retries. Costs,
  neighbour membership and known addresses are fixed functions of a node; their upkeep is not modelled.
- Messages between routing nodes are values rather than buffers; duplicated delivery by the radio is not modelled, loss,
  delay and reordering are.
- Config.ConfigStore.SeekBlock: the reserved parameter id 255 is excluded.
- Parameters that live in RAM, the security keys, the error log and the restore of defaults, which wipes EEPROM without
  clearing the index.
- Ipv4.Reassembler.ProcessFragment: frames shorter than the fragment header are excluded, and message buffers are
  modelled as the bytes received so far.
- Replay caches of the IPv4 and MAC layers (the MAC one is the same ring as the routing one; here its answer is an
  input), routing of received packets, and signing of whole IPv4 messages.
- Mac.DecodeAddress: frames too short for the fields they announce are excluded, since the code reads past their end.
- Mac.RxHandler: data frames too short for the fields they announce are excluded. Authentication tags are any function
  of the signed bytes.
- The protothread scheduler: threads run in atomic steps between their waits.
