# Pintos demand paging, modelled in Dafny

This project models the virtual-memory core of a Pintos kernel and proves
properties of it. The core has three parts:

- **The supplemental page table** (`src/vm/page.c`). It is a hash of
  entries keyed by page-aligned user address. Each entry says where the
  page's bytes come from: a file range (`DISK`), zeros (`ZERO`), a swap
  slot (`SWAP`), or a frame that is already loaded (`FRAME`). This part
  also covers:
  - insert, delete and lookup;
  - loading a page into a frame;
  - the stack-growth test and `grow_stack`;
  - the mmap list and the munmap write-back loop `mmap_remove`.
- **The frame table** (`src/vm/frame.c`). It is a list of frame records
  (kpage, upage, owner, pinned), with allocate (push to the front), free,
  find, pin and unpin.
- **The swap manager** (`src/vm/swap.c`). It is a bitmap over page-sized
  slots of the swap disk, with `swap_out` (claim the lowest free slot and
  write 8 sectors) and `swap_in` (check that the slot is used, free it and
  read the sectors back).

In the kernel the three tables are globals. Here they are fields of one
class, `Vm.VmContext`. The kernel services the tables call are fields too,
kept abstract:

- the user pool palloc hands pages out of;
- the bytes of physical memory;
- the current process's page directory (user page to kpage, writable bit
  and dirty bit);
- the open files (bytes, position, closed flag);
- the sectors of the swap disk;
- the current thread;
- a flag that `abnormal_exit` sets.

The pure parts are modules of functions and lemmas:

- `VmBase`: constants, `pg_round_down`, `memset`;
- `SupplementalPages`: the page table as a map;
- `FrameList`: the frame list;
- `Bitmap`: the slot bitmap, and any sequence of swap operations;
- `SwapLayout`: the slot and sector byte layout, and the swap round trip;
- `Stack`: `is_stack_access` on 32-bit pointers;
- `Munmap`: what `mmap_remove`'s loop does to the file and to the table;
- `FileModel`: `file_read` and `file_write` on a byte sequence.

The methods of `VmContext` that compute with the tables are proved against
these functions; the others state their new field directly. Every method
that changes state also keeps `Valid()`, the invariant that ties the tables
together:

- kpages are unique in the frame table;
- a page in the user pool is not tracked in the frame table;
- every entry sits under its own aligned key;
- the bitmap has `disk_size / SECTOR_PER_PAGE` slots;
- every mapping points at a page-sized frame.

Constants are the Pintos values:

| constant | value |
|---|---|
| `PGSIZE` | 4096 |
| `DISK_SECTOR_SIZE` | 512 |
| `SECTOR_PER_PAGE` | `PGSIZE / DISK_SECTOR_SIZE` = 8 |
| `PHYS_BASE` | 0xC0000000 |
| `MAX_STACK_SIZE` | 0x800000 |

Pointers in the stack test are 32-bit, so `esp - 4` wraps below 0.

`swap_in` reads the sectors through the user address. The processor marks
a page dirty when it is written through its user mapping, so the model sets
the mapping's dirty bit when `swap_in` fills the page.

## Model

| member | source | states |
|---|---|---|
| VmBase.PgRoundDown | src/vm/page.c:242 | the key is page-aligned and the address lies in the page that starts at the key |
| VmBase.RoundDownIff | src/vm/page.c:242-244 | an aligned p is the rounded-down key of exactly the addresses p .. p + PGSIZE - 1 |
| VmBase.AlignedApart | src/vm/page.c:255-266 | two different page keys are at least a page apart |
| VmBase.Zeros | src/vm/page.c:204 | memset (kpage, 0, PGSIZE) leaves n bytes, all zero |
| VmBase.Memset | src/vm/page.c:183 | n zeros from index `at`; every other byte is unchanged |
| VmBase.SectorsPerPage | src/vm/swap.c:6 | DISK_SECTOR_SIZE divides PGSIZE, so SECTOR_PER_PAGE sectors hold exactly one page |
| SupplementalPages.FileEntry | src/vm/page.c:35-42 | a DISK entry at the rounded-down address, with exactly the given file, ofs, read_bytes, zero_bytes and writable |
| SupplementalPages.ZeroEntry | src/vm/page.c:59-61 | a ZERO entry at the rounded-down address, always writable |
| SupplementalPages.SwapEntry | src/vm/page.c:77-80 | a SWAP entry at the rounded-down address, with the given writable and swap_idx |
| SupplementalPages.Lookup | src/vm/page.c:237-245 | finds an entry iff the rounded-down address is a key, and then it is that key's entry |
| SupplementalPages.Insert | src/vm/page.c:44 | hash_insert; what it means is stated by InsertResult and InsertThenLookup |
| SupplementalPages.Delete | src/vm/page.c:92 | removes exactly the given key; every other entry is kept unchanged |
| SupplementalPages.InsertResult | src/vm/page.c:44 | an insert succeeds iff no entry has the key; a failed insert leaves the table unchanged; a successful one adds only that key, holding the given entry |
| SupplementalPages.InsertThenLookup | src/vm/page.c:242-244 | after an insert, every address of the page finds the new entry, and every other address finds what it found before |
| SupplementalPages.InsertKeepsWellKeyed | src/vm/page.c:35 | inserting an aligned entry keeps every entry under its own aligned key |
| SupplementalPages.DeleteKeepsWellKeyed | src/vm/page.c:92 | deleting keeps every entry under its own aligned key |
| SupplementalPages.LookupContains | src/vm/page.c:242-244 | the entry lookup finds is the one whose page holds the address |
| SupplementalPages.LookupSamePage | src/vm/page.c:242-244 | all addresses of one page find the same entry, or all find none |
| SupplementalPages.AtMostOneEntry | src/vm/page.c:255-266 | at most one entry covers an address, and lookup finds it |
| FrameList.FirstMatch | src/vm/frame.c:97-110 | the first index in list order whose kpage matches; None iff no record matches |
| FrameList.RemoveAt | src/vm/frame.c:41 | list_remove: the records before i are kept, the ones after i shift down by one |
| FrameList.SetPinned | src/vm/frame.c:78-95 | the pin/unpin loop as a function; what it means is stated by SetPinnedEffect and SetPinnedUnique |
| FrameList.SetPinnedEffect | src/vm/frame.c:78-95 | only the first matching record's pinned flag changes; with no match the table is unchanged |
| FrameList.SetPinnedUnique | src/vm/frame.c:78-95 | pinning keeps kpages unique, and the record of kpage ends with pinned == b |
| FrameList.RemoveUntracks | src/vm/frame.c:35-46 | with unique kpages, a freed kpage is no longer tracked, and every other kpage stays tracked exactly as before |
| FrameList.PushKeepsUnique | src/vm/frame.c:15-33 | pushing an untracked kpage on the front keeps kpages unique, and frame_find then finds it at index 0 |
| Bitmap.LowestFree | src/vm/swap.c:43 | the lowest free slot: free, with every lower slot used; None iff every slot is used |
| Bitmap.ScanAndFlip | src/vm/swap.c:43 | bitmap_scan_and_flip (swap_table, 0, 1, 0); what it means is stated by ScanAndFlipEffect |
| Bitmap.TestAndClear | src/vm/swap.c:20-24 | the result is whether the slot was used; afterwards the slot is free and every other slot is unchanged |
| Bitmap.ScanAndFlipEffect | src/vm/swap.c:43-46 | a claim takes the lowest free slot and marks only it used; it fails, changing nothing, only when every slot is used |
| Bitmap.StaysUsed | src/vm/swap.c:20-24 | a used slot stays used through any run of swap operations that has no swap_in of that slot |
| Bitmap.NoDoubleClaim | src/vm/swap.c:43 | a slot claimed by a swap_out is not claimed by a later swap_out unless a swap_in of that slot comes in between |
| SwapLayout.SlotCount | src/vm/swap.c:11 | disk_size / SECTOR_PER_PAGE; what it means is stated by SlotFits |
| SwapLayout.StartSector | src/vm/swap.c:25 | swap_idx * SECTOR_PER_PAGE; what it means is stated by SlotFits and SlotsDisjoint |
| SwapLayout.SlotFits | src/vm/swap.c:11 | slot idx is counted by the bitmap iff its 8 sectors lie wholly on the disk |
| SwapLayout.SlotsDisjoint | src/vm/swap.c:25 | two different slots use disjoint runs of sectors |
| SwapLayout.Chunk | src/vm/swap.c:53-56 | chunk i is bytes [i * 512, (i + 1) * 512) of the page |
| SwapLayout.WriteSlot | src/vm/swap.c:50-56 | sector idx * 8 + i gets chunk i of the page, and every sector outside the slot is untouched |
| SwapLayout.SectorsFrom | src/vm/swap.c:28-31 | reading n sectors yields n * DISK_SECTOR_SIZE bytes |
| SwapLayout.ReadSlot | src/vm/swap.c:25-31 | the page read back from a slot is PGSIZE bytes |
| SwapLayout.RoundTrip | src/vm/swap.c:25-56 | reading a slot after writing a page to it yields that page, byte for byte |
| SwapLayout.OtherSlotUnchanged | src/vm/swap.c:50-56 | writing a slot leaves what every other slot reads back unchanged |
| SwapLayout.PutChunk | src/vm/swap.c:29-30 | one disk_read keeps the page size |
| SwapLayout.PutChunkStep | src/vm/swap.c:28-31 | after i reads the page is the slot's first i sectors followed by its old tail, and one more read extends that by one sector |
| Stack.PtrSub | src/vm/page.c:270 | esp - n on 32-bit pointers: the plain difference when n <= esp, wrapped modulo 2^32 otherwise |
| Stack.IsStackAccess | src/vm/page.c:268-271 | is_stack_access; what it means is stated by NearStackPointer and BelowStackPointerRefused |
| Stack.StackAccessPage | src/vm/page.c:269-277 | the page of a stack access lies in the stack region below PHYS_BASE and holds the address |
| Stack.NearStackPointer | src/vm/page.c:269-271 | without wrap-around, is_stack_access holds iff the address is in the stack region and is at or above esp, or exactly esp - 4, or exactly esp - 32 |
| Stack.BelowStackPointerRefused | src/vm/page.c:269-271 | any other address below esp is refused, wrap-around included |
| Munmap.VisitedPages | src/vm/page.c:123-133 | the loop as written runs iteration k iff k is below this count |
| Munmap.SpannedPages | src/vm/page.c:120 | the file's bytes lie exactly on the pages below this count |
| Munmap.MunmapSkipsPages | src/vm/page.c:123-133 | the loop as written never visits more pages than the file spans; it visits all of them iff the file fits in one page; for 10000 bytes it visits 2 of 3 |
| Munmap.WriteBytes | src/vm/page.c:125 | write_bytes is between 1 and PGSIZE and never reaches past the end of the file |
| Munmap.PageAt | src/vm/page.c:124 | page_buffer of iteration k; what it means is stated by PageAtAligned and WriteBackAt |
| Munmap.PageAtAligned | src/vm/page.c:124 | the pages of an aligned mapping are aligned |
| Munmap.WriteBack | src/vm/page.c:123-134 | after k iterations the file keeps its length |
| Munmap.WriteBackAt | src/vm/page.c:123-134 | byte b after k iterations is the page's byte if its page was visited and is dirty, and the old byte otherwise |
| Munmap.FullWriteBack | src/vm/page.c:123-134 | when every page is visited, each byte of the file is its page's byte if that page is dirty, and the old byte otherwise |
| Munmap.Unmapped | src/vm/page.c:132 | deleting the visited pages keeps every other entry unchanged |
| Munmap.UnmappedAt | src/vm/page.c:132-133 | n iterations remove exactly the aligned keys in [addr, addr + n * PGSIZE) |
| FileModel.ReadBytes | src/vm/page.c:177 | file_read returns the file's bytes from pos: min (size, length - pos) of them, and none when pos is at or past the end |
| FileModel.WriteCount | src/vm/page.c:129 | file_write writes at most size bytes, all of them iff they fit before the end of the file |
| FileModel.Written | src/vm/page.c:129 | the written bytes replace the file's bytes at pos; the length stays the same |
| Vm.FileFill | src/vm/page.c:174-183 | the loaded frame keeps the page size |
| Vm.FileFillLoaded | src/vm/page.c:177-183 | a full read leaves read_bytes file bytes from ofs, then zero_bytes zeros, then the old bytes; a full page is exactly file bytes then zeros |
| Vm.ReadThenZero | src/vm/page.c:177-183 | file_read then memset on a full read gives FileFill |
| Vm.DirtyPages | src/vm/page.c:127 | exactly the mapped pages whose dirty bit is set, with their current bytes |
| Vm.VmContext.constructor | src/vm/swap.c:8-13 | empty page table, mmap list and frame table; a bitmap of disk_size / SECTOR_PER_PAGE slots, all free |
| Vm.VmContext.FrameFind | src/vm/frame.c:97-110 | the cursor loop returns the first matching record in list order, or none |
| Vm.VmContext.IsFrameAllocated | src/vm/frame.c:112-116 | true iff some record holds kpage |
| Vm.VmContext.FrameAlloc | src/vm/frame.c:15-33 | fails iff the pool is empty, and then nothing changes; otherwise it pushes a record for the pool's first page on the front, with the given upage, the current thread as owner and pinned false |
| Vm.VmContext.FrameFree | src/vm/frame.c:35-46 | a tracked kpage loses its record and goes back to the pool; an untracked one ends the process and changes nothing; afterwards kpage is untracked |
| Vm.VmContext.FramePin | src/vm/frame.c:78-85 | the matching record becomes pinned; nothing else changes |
| Vm.VmContext.FrameUnpin | src/vm/frame.c:88-95 | the matching record becomes unpinned; nothing else changes |
| Vm.VmContext.FileSeek | src/vm/page.c:174 | the file's position becomes pos |
| Vm.VmContext.FileRead | src/vm/page.c:177 | the bytes read land at the start of the frame, and the position advances by their count |
| Vm.VmContext.FileWrite | src/vm/page.c:128-129 | the file's bytes at the position are replaced, and the position advances by the count written |
| Vm.VmContext.FileLength | src/vm/page.c:120 | the file's length |
| Vm.VmContext.FileClose | src/vm/page.c:136 | the file becomes closed |
| Vm.VmContext.HashInsert | src/vm/page.c:44 | the table becomes Insert's result, and success is whether the entry went in |
| Vm.VmContext.SPageInsertFile | src/vm/page.c:25-47 | inserts the DISK entry unless that page has an entry; on failure the table is unchanged |
| Vm.VmContext.SPageInsertZero | src/vm/page.c:49-66 | inserts the writable ZERO entry unless that page has an entry |
| Vm.VmContext.SPageInsertSwap | src/vm/page.c:68-85 | inserts the SWAP entry unless that page has an entry |
| Vm.VmContext.SPageDelete | src/vm/page.c:87-95 | removes exactly the entry of the address's page and returns true |
| Vm.VmContext.MmapAdd | src/vm/page.c:97-105 | a record (addr, file) goes on the front of the mmap list |
| Vm.VmContext.InstallSPage | src/vm/page.c:247-253 | fails iff upage is already mapped; otherwise it maps upage to kpage with the given writable bit, clean |
| Vm.VmContext.BitmapScan | src/vm/swap.c:43 | the lowest free slot, or none |
| Vm.VmContext.ReadSlotSectors | src/vm/swap.c:25-31 | after the 8 disk_reads the frame holds ReadSlot of the slot; no other frame changes |
| Vm.VmContext.WriteSlotSectors | src/vm/swap.c:50-56 | after the 8 disk_writes the disk is WriteSlot of the page |
| Vm.VmContext.SwapIn | src/vm/swap.c:15-34 | a free slot fails and changes nothing; a used slot becomes free and its sectors fill the page mapped at uaddr, which becomes dirty |
| Vm.VmContext.SwapOut | src/vm/swap.c:36-64 | no free slot: fails, and the bitmap, the disk and the table are unchanged; otherwise it claims the lowest free slot, writes the page there, and replaces the page's entry by a SWAP entry with the same writable bit |
| Vm.VmContext.SwapOutThenIn | src/vm/swap.c:25-56 | a page swapped out and then swapped into dst arrives byte for byte; it fails only when no slot is free |
| Vm.VmContext.UndoAlloc | src/vm/page.c:187-190 | frame_free right after frame_alloc restores the frame table and the pool |
| Vm.VmContext.SPageLoadZero | src/vm/page.c:196-214 | succeeds iff a frame is free and the page is unmapped; the frame is zeroed and mapped writable; on failure the frame table, pool and page directory are unchanged |
| Vm.VmContext.FillFromFile | src/vm/page.c:173-185 | the frame becomes FileFill of the file; the position ends after the bytes read; the result says whether all read_bytes arrived |
| Vm.VmContext.SPageLoadFile | src/vm/page.c:159-194 | succeeds iff a frame is free, the read is full and the page is unmapped; the frame holds the file bytes then zeros, mapped with the entry's writable bit; a short read or a mapped page releases the frame |
| Vm.VmContext.SPageLoadSwap | src/vm/page.c:216-235 | the frame is mapped writable, then swap_in fills it from the slot; it succeeds iff the slot was used; a free slot leaves the frame allocated and mapped |
| Vm.VmContext.SPageLoad | src/vm/page.c:140-157 | a FRAME entry returns true with no effect; any other entry succeeds exactly when its loader does, and the frame bytes, file position, bitmap and mapping are what that loader states, including a SWAP entry with a free slot, whose frame stays allocated and mapped |
| Vm.VmContext.GrowStack | src/vm/page.c:273-281 | no change when the page is mapped. When the page has no entry, a new ZERO entry is inserted and loaded: if a frame was free, the page ends mapped writable to it and it is zeroed; otherwise the frame table, pool, page directory and memory are unchanged. Files and the bitmap are untouched. When the page already has an entry, the insert fails and that entry is loaded with its loader's outcome: FRAME returns true with no change, ZERO succeeds iff a frame is free, DISK iff a frame is free and the read is full, SWAP iff a frame is free and the slot is used. Memory, files, bitmap and mapping are then what the loader states |
| Vm.VmContext.FlushPage | src/vm/page.c:127-130 | a dirty page k is written to the file at k * PGSIZE, a clean one is skipped; no other file changes |
| Vm.VmContext.UnmapPage | src/vm/page.c:124-133 | one iteration writes back the page if it is dirty and deletes its entry |
| Vm.VmContext.MmapRemove | src/vm/page.c:107-138 | as written: the file gets the dirty pages of the first VisitedPages (len) iterations written back; those pages' entries are deleted; the file is closed |
| Vm.VmContext.MmapRemoveAllPages | src/vm/page.c:107-138 | with the guard ofs < len: every page of the file is visited, written back if dirty and deleted; the file is closed |

## Left out

- `malloc` failure in the inserts, `mmap_add` and `frame_alloc` is not modelled: allocation always succeeds. Leaked records have no observable effect.
- `pagedir_set_page` failing to allocate a page table is not modelled. `install_s_page` fails only when the page is already mapped.
- Locks (`filesys_lock`, `swap_lock`, `frame_lock`) and concurrency are not modelled. That includes the bitmap flip done outside `swap_lock`. The model is sequential.
- `frame_evict` and `find_victim` (src/vm/frame.c:48-75) are not modelled. They are unfinished: `find_victim` returns the list's end sentinel, and `frame_evict` passes an entry to `swap_in`. Nothing calls `frame_evict`, `find_victim` is called only from `frame_evict` (src/vm/frame.c:54), and `frame_alloc` never evicts.
- src/userprog/syscall.c is not part of this model. It is syscall plumbing and has no mmap or munmap call. src/filesys/cache.c is a stub.
- src/vm/page.h and src/vm/frame.h declare structures without `writable`, `file_info`, `swap_idx` and `pinned`. The model follows the fields the .c files use.
- `hash_func` and `less_func` become a map keyed by uaddr. It is the same container, since both compare only uaddr.
- `palloc_get_page (PAL_USER)` is modelled as taking the head of a list of free user pages. `palloc_free_page` puts the page back on the front. Which page the real allocator picks is not modelled.
- The file system is a byte sequence per open file. Files never grow. `file_read` and `file_write` stop at the end of the file, and inodes shared between handles are not modelled.
- Process switches are not modelled. The model has one address space: `current` is a constant and there is a single page directory. In the kernel, `s_page_table` (src/vm/page.h:10) and `frame_table` (src/vm/frame.h:3) are globals shared by all processes, while each thread has its own page directory. The model therefore does not show entries of different processes at the same uaddr colliding in the one table.
- `printf` output is left out. `abnormal_exit ()` only sets the `exited` flag.
- PGSIZE and DISK_SECTOR_SIZE are fixed at the Pintos values rather than parameters, because the kernel fixes them at build time. The slot layout proofs depend only on DISK_SECTOR_SIZE dividing PGSIZE, which `VmBase.SectorsPerPage` records. SECTOR_PER_PAGE is derived from them, as in src/vm/swap.c:6.
- MmapRemove: `ofs` and `remaining` are unbounded integers, not C `int`. Files of 2^31 bytes or more are not modelled.
- MmapRemove: it requires a page-aligned `addr`. It also requires an entry for every visited page, because `s_page_delete` dereferences what `page_lookup` returns. mmap_remove neither unlinks nor frees its list record.
- SwapIn: it requires `uaddr` to be mapped. The kernel write through an unmapped address would fault.
- SwapOut: it requires `page->uaddr` to be mapped, for the same reason on the read side.
- InstallSPage, the loaders and Loadable require a page-aligned user address below PHYS_BASE, and GrowStack an address below PHYS_BASE. This mirrors the assertions in `pagedir_set_page` and `pagedir_get_page`. Loadable asks it even of a FRAME entry, which `s_page_load` never touches.
- Loaders: a DISK entry needs `read_bytes + zero_bytes <= PGSIZE` and an open file. A SWAP entry's slot must lie in the bitmap, because `bitmap_test` asserts it.

## Findings

| source | as written | input that shows it | evidently intended | confidence | as-written member | corrected member |
|---|---|---|---|---|---|---|
| src/vm/page.c:123-133 | the loop in `mmap_remove` keeps running while `ofs < remaining`, but it adds PGSIZE to `ofs` and subtracts PGSIZE from `remaining` on every iteration, so it stops half-way through the file | a 10000-byte mapping spans 3 pages, and the loop visits only 2; the third page is never written back and its entry stays in the table | visit every page of the file: loop while `ofs < file_length`, with `remaining` used only for write_bytes | not executed | Munmap.MunmapSkipsPages | Vm.VmContext.MmapRemoveAllPages |
