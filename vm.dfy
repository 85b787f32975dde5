/*
 * The demand-paging core as one VM context: the supplemental page table
 * (src/vm/page.c), the frame table (src/vm/frame.c) and the swap manager
 * (src/vm/swap.c), which are globals in the kernel, are fields of
 * VmContext. The kernel services they call are fields too, kept abstract:
 *   - userPool: the user pages palloc can still hand out (palloc_get_page
 *     returns the first, or NULL when none is left; palloc_free_page puts
 *     a page back in front);
 *   - pmem: the bytes of every physical page;
 *   - pagedir: the current process's page directory, user page to mapping;
 *   - files: the open files;
 *   - disk: the sectors of the swap disk;
 *   - current: thread_current (), exited: set by abnormal_exit ().
 */
module Vm {
  import opened VmBase
  import opened SupplementalPages
  import opened FrameList
  import opened Bitmap
  import opened SwapLayout
  import opened Munmap
  import opened FileModel

  /** A page-directory entry: the frame, the writable bit and the dirty bit the processor sets on writes. */
  datatype Mapping = Mapping(kpage: nat, writable: bool, dirty: bool)

  /** struct mmap_info: a mapped file and the user address it is mapped at. */
  datatype MmapInfo = MmapInfo(addr: nat, file: FileId)

  /** The frame after s_page_load_file's file_read and memset: the bytes read from ofs, then, when all
      read_bytes arrived, zero_bytes zeros; bytes past that keep what the frame held. */
  function FileFill(frame: seq<byte>, data: seq<byte>, ofs: nat, readBytes: nat, zeroBytes: nat): (r: seq<byte>)
    requires |frame| == PGSIZE && readBytes + zeroBytes <= PGSIZE
    ensures |r| == PGSIZE
  {
    var got := ReadBytes(data, ofs, readBytes);
    if |got| == readBytes then got + Zeros(zeroBytes) + frame[readBytes + zeroBytes..]
    else got + frame[|got|..]
  }

  /** A file page that loads holds read_bytes bytes of the file from ofs followed by zero_bytes zeros;
      a full page (read_bytes + zero_bytes == PGSIZE) is exactly that. */
  lemma FileFillLoaded(frame: seq<byte>, data: seq<byte>, ofs: nat, readBytes: nat, zeroBytes: nat)
    requires |frame| == PGSIZE && readBytes + zeroBytes <= PGSIZE
    requires ofs + readBytes <= |data|
    ensures FileFill(frame, data, ofs, readBytes, zeroBytes)[..readBytes] == data[ofs..ofs + readBytes]
    ensures forall b :: readBytes <= b < readBytes + zeroBytes ==> FileFill(frame, data, ofs, readBytes, zeroBytes)[b] == 0
    ensures forall b :: readBytes + zeroBytes <= b < PGSIZE ==> FileFill(frame, data, ofs, readBytes, zeroBytes)[b] == frame[b]
    ensures readBytes + zeroBytes == PGSIZE ==>
      FileFill(frame, data, ofs, readBytes, zeroBytes) == data[ofs..ofs + readBytes] + Zeros(zeroBytes)
  {
    var got := ReadBytes(data, ofs, readBytes);
    assert got == data[ofs..ofs + readBytes];
    var r := FileFill(frame, data, ofs, readBytes, zeroBytes);
    assert r == got + Zeros(zeroBytes) + frame[readBytes + zeroBytes..];
    forall b | readBytes <= b < readBytes + zeroBytes
      ensures r[b] == 0
    {
      assert r[b] == Zeros(zeroBytes)[b - readBytes];
    }
  }

  /** On a full read, the memset after it turns the frame into FileFill's first case. */
  lemma ReadThenZero(frame: seq<byte>, data: seq<byte>, ofs: nat, readBytes: nat, zeroBytes: nat)
    requires |frame| == PGSIZE && readBytes + zeroBytes <= PGSIZE
    requires |ReadBytes(data, ofs, readBytes)| == readBytes
    ensures Memset(ReadBytes(data, ofs, readBytes) + frame[readBytes..], readBytes, zeroBytes)
      == FileFill(frame, data, ofs, readBytes, zeroBytes)
  {
    var got := ReadBytes(data, ofs, readBytes);
    var x := got + frame[readBytes..];
    assert x[..readBytes] == got;
    assert x[readBytes + zeroBytes..] == frame[readBytes + zeroBytes..];
  }

  /** Every mapping points at a page-sized frame. */
  ghost predicate MappedFrames(pd: map<nat, Mapping>, mem: map<nat, seq<byte>>) {
    forall u :: u in pd ==> pd[u].kpage in mem && |mem[pd[u].kpage]| == PGSIZE
  }

  /** The user pages whose dirty bit is set, with the bytes they hold. */
  function DirtyPages(pd: map<nat, Mapping>, mem: map<nat, seq<byte>>): (d: map<nat, seq<byte>>)
    requires MappedFrames(pd, mem)
    ensures PageSized(d)
    ensures forall u :: u in d <==> u in pd && pd[u].dirty
    ensures forall u :: u in d ==> d[u] == mem[pd[u].kpage]
  {
    map u | u in pd && pd[u].dirty :: mem[pd[u].kpage]
  }

  class VmContext {
    /** src/vm/page.c: s_page_table and mmap_list. */
    var sPageTable: Table
    var mmapList: seq<MmapInfo>
    /** src/vm/frame.c: frame_table, in list order. */
    var frameTable: seq<FrameRecord>
    /** src/vm/swap.c: swap_table, one bit per slot, true = used. */
    const swapTable: array<bool>

    var userPool: seq<nat>
    var pmem: map<nat, seq<byte>>
    var pagedir: map<nat, Mapping>
    var files: map<FileId, OpenFile>
    var disk: seq<Sector>
    const current: nat
    var exited: bool

    /** The invariant every operation keeps. */
    ghost predicate Valid()
      reads this, swapTable
    {
      && WellFormed(disk)
      && swapTable.Length == SlotCount(|disk|)
      && WellKeyed(sPageTable)
      && UniqueKpages(frameTable)
      && (forall i, j :: 0 <= i < j < |userPool| ==> userPool[i] != userPool[j])
      && (forall i :: 0 <= i < |userPool| ==> userPool[i] in pmem && !Tracked(frameTable, userPool[i]))
      && (forall i :: 0 <= i < |frameTable| ==> frameTable[i].kpage in pmem)
      && (forall k :: k in pmem ==> |pmem[k]| == PGSIZE)
      && (forall u :: u in pagedir ==> u % PGSIZE == 0 && pagedir[u].kpage in pmem)
    }

    ghost predicate FileOpen(f: FileId)
      reads this
    {
      f in files && !files[f].closed
    }

    /** frame_alloc succeeded for upage: the first pool page went to a new record at the front. */
    ghost predicate Allocated(oldFrames: seq<FrameRecord>, oldPool: seq<nat>, upage: nat)
      reads this
    {
      |oldPool| > 0
      && frameTable == [FrameRecord(oldPool[0], upage, current, false)] + oldFrames
      && userPool == oldPool[1..]
    }

    /** s_page_init, frame_init and swap_init: empty tables and a bitmap of
        disk_size / SECTOR_PER_PAGE free slots. */
    constructor (swapDisk: seq<Sector>, pool: seq<nat>, mem: map<nat, seq<byte>>,
                 pd: map<nat, Mapping>, openFiles: map<FileId, OpenFile>, thread: nat)
      requires WellFormed(swapDisk)
      requires forall i, j :: 0 <= i < j < |pool| ==> pool[i] != pool[j]
      requires forall i :: 0 <= i < |pool| ==> pool[i] in mem
      requires forall k :: k in mem ==> |mem[k]| == PGSIZE
      requires forall u :: u in pd ==> u % PGSIZE == 0 && pd[u].kpage in mem
      ensures Valid() && fresh(swapTable)
      ensures sPageTable == map[] && mmapList == [] && frameTable == []
      ensures swapTable.Length == SlotCount(|swapDisk|)
      ensures forall i :: 0 <= i < swapTable.Length ==> !swapTable[i]
      ensures disk == swapDisk && userPool == pool && pmem == mem && pagedir == pd
      ensures files == openFiles && current == thread && !exited
    {
      sPageTable := map[];
      mmapList := [];
      frameTable := [];
      swapTable := new bool[SlotCount(|swapDisk|)](_ => false);
      userPool := pool;
      pmem := mem;
      pagedir := pd;
      files := openFiles;
      disk := swapDisk;
      current := thread;
      exited := false;
    }

    // ---------------------------------------------------------------- frame.c

    /** frame_find: the first record in list order whose kpage matches, or none. */
    method FrameFind(kpage: nat) returns (r: Option<nat>)
      ensures r == FirstMatch(frameTable, kpage)
    {
      var i := 0;
      while i < |frameTable|
        invariant 0 <= i <= |frameTable|
        invariant forall j :: 0 <= j < i ==> frameTable[j].kpage != kpage
      {
        if frameTable[i].kpage == kpage {
          return Some(i);
        }
        i := i + 1;
      }
      return None;
    }

    /** is_frame_allocated: some record holds kpage. */
    method IsFrameAllocated(kpage: nat) returns (b: bool)
      ensures b <==> Tracked(frameTable, kpage)
    {
      var f := FrameFind(kpage);
      b := f.Some?;
    }

    /** frame_alloc: take a user page; on success push a record for it on the front of the table. */
    method FrameAlloc(upage: nat) returns (kpage: Option<nat>)
      requires Valid()
      modifies this`frameTable, this`userPool
      ensures Valid()
      ensures kpage.None? <==> |old(userPool)| == 0
      ensures kpage.None? ==> frameTable == old(frameTable) && userPool == old(userPool)
      ensures kpage.Some? ==> kpage.value == old(userPool)[0] && !Tracked(old(frameTable), kpage.value)
      ensures kpage.Some? ==> Allocated(old(frameTable), old(userPool), upage)
      ensures kpage.Some? ==> FirstMatch(frameTable, kpage.value) == Some(0)
    {
      if |userPool| == 0 {
        return None;
      }
      var k := userPool[0];
      userPool := userPool[1..];
      var f := FrameRecord(k, upage, current, false);
      PushKeepsUnique(frameTable, f);
      frameTable := [f] + frameTable;
      return Some(k);
    }

    /** frame_free: release a tracked frame and drop its record; an untracked kpage ends the process. */
    method FrameFree(kpage: nat)
      requires Valid()
      modifies this`frameTable, this`userPool, this`exited
      ensures Valid()
      ensures !Tracked(frameTable, kpage)
      ensures Tracked(old(frameTable), kpage) ==>
        frameTable == RemoveAt(old(frameTable), FirstMatch(old(frameTable), kpage).value)
        && userPool == [kpage] + old(userPool) && exited == old(exited)
      ensures !Tracked(old(frameTable), kpage) ==>
        frameTable == old(frameTable) && userPool == old(userPool) && exited
    {
      var f := FrameFind(kpage);
      if f.Some? {
        RemoveUntracks(frameTable, kpage);
        userPool := [kpage] + userPool;
        frameTable := RemoveAt(frameTable, f.value);
      } else {
        exited := true;
      }
    }

    /** frame_pin: the matching record becomes pinned; nothing else changes. */
    method FramePin(kpage: nat)
      requires Valid()
      modifies this`frameTable
      ensures Valid()
      ensures frameTable == SetPinned(old(frameTable), kpage, true)
    {
      var f := FrameFind(kpage);
      SetPinnedUnique(frameTable, kpage, true);
      SetPinnedEffect(frameTable, kpage, true);
      if f.Some? {
        frameTable := frameTable[f.value := frameTable[f.value].(pinned := true)];
      }
    }

    /** frame_unpin: the matching record becomes unpinned; nothing else changes. */
    method FrameUnpin(kpage: nat)
      requires Valid()
      modifies this`frameTable
      ensures Valid()
      ensures frameTable == SetPinned(old(frameTable), kpage, false)
    {
      var f := FrameFind(kpage);
      SetPinnedUnique(frameTable, kpage, false);
      SetPinnedEffect(frameTable, kpage, false);
      if f.Some? {
        frameTable := frameTable[f.value := frameTable[f.value].(pinned := false)];
      }
    }

    // ----------------------------------------------------------- file services

    /** file_seek. */
    method FileSeek(f: FileId, pos: nat)
      requires Valid() && FileOpen(f)
      modifies this`files
      ensures Valid()
      ensures files == old(files)[f := old(files)[f].(pos := pos)]
    {
      files := files[f := files[f].(pos := pos)];
    }

    /** file_read into the frame kpage: the bytes read land at the start of the frame. */
    method FileRead(f: FileId, kpage: nat, size: nat) returns (n: nat)
      requires Valid() && FileOpen(f) && kpage in pmem && size <= PGSIZE
      modifies this`files, this`pmem
      ensures Valid()
      ensures var got := ReadBytes(old(files)[f].data, old(files)[f].pos, size);
        n == |got|
        && files == old(files)[f := old(files)[f].(pos := old(files)[f].pos + n)]
        && pmem == old(pmem)[kpage := got + old(pmem)[kpage][n..]]
    {
      var got := ReadBytes(files[f].data, files[f].pos, size);
      n := |got|;
      pmem := pmem[kpage := got + pmem[kpage][n..]];
      files := files[f := files[f].(pos := files[f].pos + n)];
    }

    /** file_write of size bytes of src at the file's position. */
    method FileWrite(f: FileId, src: seq<byte>, size: nat) returns (n: nat)
      requires Valid() && FileOpen(f) && size <= |src|
      modifies this`files
      ensures Valid()
      ensures var file := old(files)[f];
        n == WriteCount(|file.data|, file.pos, size)
        && files == old(files)[f := OpenFile(Written(file.data, file.pos, src, size), file.pos + n, false)]
    {
      var file := files[f];
      n := WriteCount(|file.data|, file.pos, size);
      files := files[f := OpenFile(Written(file.data, file.pos, src, size), file.pos + n, false)];
    }

    /** file_length. */
    method FileLength(f: FileId) returns (len: nat)
      requires FileOpen(f)
      ensures len == |files[f].data|
    {
      len := |files[f].data|;
    }

    /** file_close. */
    method FileClose(f: FileId)
      requires Valid() && FileOpen(f)
      modifies this`files
      ensures Valid()
      ensures files == old(files)[f := old(files)[f].(closed := true)]
    {
      files := files[f := files[f].(closed := true)];
    }

    // ----------------------------------------------------------------- page.c

    /** hash_insert of a page-aligned entry. */
    method HashInsert(page: SPage) returns (success: bool)
      requires Valid() && page.uaddr % PGSIZE == 0
      modifies this`sPageTable
      ensures Valid()
      ensures (success, sPageTable) == Insert(old(sPageTable), page)
    {
      InsertKeepsWellKeyed(sPageTable, page);
      var r := Insert(sPageTable, page);
      success, sPageTable := r.0, r.1;
    }

    /** s_page_insert_file: a DISK entry for the page of uaddr, unless that page already has one. */
    method SPageInsertFile(uaddr: nat, file: FileId, ofs: nat, readBytes: nat, zeroBytes: nat, writable: bool)
      returns (success: bool)
      requires Valid()
      modifies this`sPageTable
      ensures Valid()
      ensures (success, sPageTable) == Insert(old(sPageTable), FileEntry(uaddr, file, ofs, readBytes, zeroBytes, writable))
    {
      success := HashInsert(FileEntry(uaddr, file, ofs, readBytes, zeroBytes, writable));
    }

    /** s_page_insert_zero: a writable ZERO entry for the page of uaddr, unless that page already has one. */
    method SPageInsertZero(uaddr: nat) returns (success: bool)
      requires Valid()
      modifies this`sPageTable
      ensures Valid()
      ensures (success, sPageTable) == Insert(old(sPageTable), ZeroEntry(uaddr))
    {
      success := HashInsert(ZeroEntry(uaddr));
    }

    /** s_page_insert_swap: a SWAP entry for the page of uaddr, unless that page already has one. */
    method SPageInsertSwap(uaddr: nat, writable: bool, swapIdx: nat) returns (success: bool)
      requires Valid()
      modifies this`sPageTable
      ensures Valid()
      ensures (success, sPageTable) == Insert(old(sPageTable), SwapEntry(uaddr, writable, swapIdx))
    {
      success := HashInsert(SwapEntry(uaddr, writable, swapIdx));
    }

    /** s_page_delete: removes the entry of the page of uaddr, which must exist (the C code
        dereferences what page_lookup returns). */
    method SPageDelete(uaddr: nat) returns (success: bool)
      requires Valid() && Lookup(sPageTable, uaddr).Some?
      modifies this`sPageTable
      ensures Valid() && success
      ensures sPageTable == Delete(old(sPageTable), PgRoundDown(uaddr))
    {
      var page := Lookup(sPageTable, uaddr).value;
      DeleteKeepsWellKeyed(sPageTable, page.uaddr);
      sPageTable := Delete(sPageTable, page.uaddr);
      success := true;
    }

    /** mmap_add: a record for the mapping goes on the front of mmap_list. */
    method MmapAdd(addr: nat, f: FileId)
      requires Valid()
      modifies this`mmapList
      ensures Valid()
      ensures mmapList == [MmapInfo(addr, f)] + old(mmapList)
    {
      mmapList := [MmapInfo(addr, f)] + mmapList;
    }

    /** install_s_page: map upage to kpage unless upage is already mapped. */
    method InstallSPage(upage: nat, kpage: nat, writable: bool) returns (success: bool)
      requires Valid() && upage % PGSIZE == 0 && upage < PHYS_BASE && kpage in pmem
      modifies this`pagedir
      ensures Valid()
      ensures success <==> upage !in old(pagedir)
      ensures pagedir == if success then old(pagedir)[upage := Mapping(kpage, writable, false)] else old(pagedir)
    {
      if upage in pagedir {
        return false;
      }
      pagedir := pagedir[upage := Mapping(kpage, writable, false)];
      return true;
    }

    // ----------------------------------------------------------------- swap.c

    /** bitmap_scan (swap_table, 0, 1, false): the lowest free slot, or none. */
    method BitmapScan() returns (r: Option<nat>)
      ensures r == LowestFree(swapTable[..])
    {
      var i := 0;
      while i < swapTable.Length
        invariant 0 <= i <= swapTable.Length
        invariant forall j :: 0 <= j < i ==> swapTable[j]
      {
        if !swapTable[i] {
          return Some(i);
        }
        i := i + 1;
      }
      return None;
    }

    /** swap_in's loop: disk_read of the slot's sectors, one by one, into the frame kpage. */
    method ReadSlotSectors(swapIdx: nat, kpage: nat)
      requires Valid() && swapIdx < swapTable.Length && kpage in pmem
      modifies this`pmem
      ensures Valid()
      ensures pmem == old(pmem)[kpage := ReadSlot(disk, swapIdx)]
    {
      var start := StartSector(swapIdx);
      SlotFits(|disk|, swapIdx);
      ghost var orig := pmem[kpage];
      var i := 0;
      while i < SECTOR_PER_PAGE
        invariant 0 <= i <= SECTOR_PER_PAGE
        invariant kpage in pmem && pmem == old(pmem)[kpage := pmem[kpage]]
        invariant pmem[kpage] == SectorsFrom(disk, start, i) + orig[i * DISK_SECTOR_SIZE..]
      {
        PutChunkStep(SectorsFrom(disk, start, i), orig, i, disk[start + i]);
        pmem := pmem[kpage := PutChunk(pmem[kpage], i, disk[start + i])];
        i := i + 1;
      }
      assert i == SECTOR_PER_PAGE && |orig| == SECTOR_PER_PAGE * DISK_SECTOR_SIZE;
      assert orig[i * DISK_SECTOR_SIZE..] == [];
      assert pmem[kpage] == SectorsFrom(disk, start, SECTOR_PER_PAGE);
      assert pmem[kpage] == ReadSlot(disk, swapIdx);
    }

    /** swap_out's loop: disk_write of the page's chunks, one by one, to the slot's sectors. */
    method WriteSlotSectors(swapIdx: nat, page: seq<byte>)
      requires Valid() && swapIdx < swapTable.Length && |page| == PGSIZE
      modifies this`disk
      ensures Valid()
      ensures StartSector(swapIdx) + SECTOR_PER_PAGE <= |old(disk)|
      ensures disk == WriteSlot(old(disk), swapIdx, page)
    {
      var start := StartSector(swapIdx);
      SlotFits(|disk|, swapIdx);
      var i := 0;
      while i < SECTOR_PER_PAGE
        invariant 0 <= i <= SECTOR_PER_PAGE
        invariant |disk| == |old(disk)| && WellFormed(disk)
        invariant forall j :: 0 <= j < |disk| && !(start <= j < start + i) ==> disk[j] == old(disk)[j]
        invariant forall c :: 0 <= c < i ==> disk[start + c] == Chunk(page, c)
      {
        disk := disk[start + i := Chunk(page, i)];
        i := i + 1;
      }
      assert disk == WriteSlot(old(disk), swapIdx, page);
    }

    /** swap_in: a slot that is not in use is refused; otherwise the slot is freed and its
        sectors are read into the page mapped at uaddr. Those writes go through the user
        mapping, so the processor marks it dirty. */
    method SwapIn(swapIdx: nat, uaddr: nat) returns (success: bool)
      requires Valid() && swapIdx < swapTable.Length && uaddr in pagedir
      modifies swapTable, this`pmem, this`pagedir
      ensures Valid() && StartSector(swapIdx) + SECTOR_PER_PAGE <= |disk|
      ensures (success, swapTable[..]) == TestAndClear(old(swapTable[..]), swapIdx)
      ensures success ==>
        pmem == old(pmem)[old(pagedir)[uaddr].kpage := ReadSlot(disk, swapIdx)]
        && pagedir == old(pagedir)[uaddr := old(pagedir)[uaddr].(dirty := true)]
      ensures !success ==> pmem == old(pmem) && pagedir == old(pagedir)
    {
      ghost var bits := swapTable[..];
      if !swapTable[swapIdx] {
        return false;
      }
      swapTable[swapIdx] := false;
      assert swapTable[..] == bits[swapIdx := false];
      ReadSlotSectors(swapIdx, pagedir[uaddr].kpage);
      pagedir := pagedir[uaddr := pagedir[uaddr].(dirty := true)];
      success := true;
    }

    /** swap_out: claim the lowest free slot (none free: fail and change nothing), write the page mapped
        at page.uaddr to its sectors, and replace the page's entry by a SWAP entry that keeps
        writable and records the slot. */
    method SwapOut(page: SPage) returns (success: bool)
      requires Valid() && page.uaddr in pagedir
      modifies swapTable, this`disk, this`sPageTable
      ensures Valid()
      ensures success == ScanAndFlip(old(swapTable[..])).0.Some?
      ensures swapTable[..] == ScanAndFlip(old(swapTable[..])).1
      ensures success ==>
        var idx := ScanAndFlip(old(swapTable[..])).0.value;
        StartSector(idx) + SECTOR_PER_PAGE <= |old(disk)|
        && disk == WriteSlot(old(disk), idx, pmem[pagedir[page.uaddr].kpage])
        && sPageTable == old(sPageTable)[page.uaddr := SwapEntry(page.uaddr, page.writable, idx)]
      ensures !success ==> disk == old(disk) && sPageTable == old(sPageTable)
    {
      ghost var bits := swapTable[..];
      var found := BitmapScan();
      if found.None? {
        return false;
      }
      var idx := found.value;
      swapTable[idx] := true;
      assert swapTable[..] == bits[idx := true];
      WriteSlotSectors(idx, pmem[pagedir[page.uaddr].kpage]);
      DeleteKeepsWellKeyed(sPageTable, page.uaddr);
      sPageTable := Delete(sPageTable, page.uaddr);
      var inserted := SPageInsertSwap(page.uaddr, page.writable, idx);
      success := true;
    }

    // ------------------------------------------------- page.c: loading pages

    /** frame_free of the frame a frame_alloc just handed out: both tables are as before the allocation. */
    method UndoAlloc(kpage: nat, ghost frames0: seq<FrameRecord>, ghost pool0: seq<nat>, ghost upage: nat)
      requires Valid() && Allocated(frames0, pool0, upage) && kpage == pool0[0]
      modifies this`frameTable, this`userPool, this`exited
      ensures Valid()
      ensures frameTable == frames0 && userPool == pool0 && exited == old(exited)
    {
      assert frameTable[0].kpage == kpage;
      FrameFree(kpage);
      assert RemoveAt([FrameRecord(kpage, upage, current, false)] + frames0, 0) == frames0;
      assert [pool0[0]] + pool0[1..] == pool0;
    }

    /** s_page_load_zero: a fresh frame, zeroed and mapped writable at the page's address;
        when the address is already mapped the frame is released again. */
    method SPageLoadZero(page: SPage) returns (success: bool)
      requires Valid() && page.uaddr % PGSIZE == 0 && page.uaddr < PHYS_BASE
      modifies this`frameTable, this`userPool, this`pmem, this`pagedir, this`exited
      ensures Valid() && exited == old(exited)
      ensures success <==> |old(userPool)| > 0 && page.uaddr !in old(pagedir)
      ensures |old(userPool)| == 0 ==> pmem == old(pmem)
      ensures |old(userPool)| > 0 ==> pmem == old(pmem)[old(userPool)[0] := Zeros(PGSIZE)]
      ensures success ==>
        Allocated(old(frameTable), old(userPool), page.uaddr)
        && pagedir == old(pagedir)[page.uaddr := Mapping(old(userPool)[0], true, false)]
      ensures !success ==> frameTable == old(frameTable) && userPool == old(userPool) && pagedir == old(pagedir)
    {
      ghost var frames0, pool0 := frameTable, userPool;
      var kpage := FrameAlloc(page.uaddr);
      if kpage.None? {
        return false;
      }
      var k := kpage.value;
      pmem := pmem[k := Zeros(PGSIZE)];
      success := InstallSPage(page.uaddr, k, true);
      if !success {
        UndoAlloc(k, frames0, pool0, page.uaddr);
      }
    }

    /** The middle of s_page_load_file: file_seek to ofs, file_read of read_bytes into the
        frame, and on a full read the memset of zero_bytes zeros after them. */
    method FillFromFile(info: FileInfo, kpage: nat) returns (full: bool)
      requires Valid() && FileOpen(info.file) && kpage in pmem && info.readBytes + info.zeroBytes <= PGSIZE
      modifies this`files, this`pmem
      ensures Valid()
      ensures var file := old(files)[info.file];
        var got := ReadBytes(file.data, info.ofs, info.readBytes);
        (full <==> |got| == info.readBytes)
        && pmem == old(pmem)[kpage := FileFill(old(pmem)[kpage], file.data, info.ofs, info.readBytes, info.zeroBytes)]
        && files == old(files)[info.file := file.(pos := info.ofs + |got|)]
    {
      FileSeek(info.file, info.ofs);
      var n := FileRead(info.file, kpage, info.readBytes);
      full := n == info.readBytes;
      if full {
        ReadThenZero(old(pmem)[kpage], old(files)[info.file].data, info.ofs, info.readBytes, info.zeroBytes);
        pmem := pmem[kpage := Memset(pmem[kpage], info.readBytes, info.zeroBytes)];
      }
    }

    /** s_page_load_file: a fresh frame gets read_bytes bytes of the file from ofs and zero_bytes
        zeros after them, and is mapped with the entry's writable bit. A short read, or an address
        that is already mapped, releases the frame again. */
    method SPageLoadFile(page: SPage) returns (success: bool)
      requires Valid() && page.uaddr % PGSIZE == 0 && page.uaddr < PHYS_BASE && page.location.Disk?
      requires FileOpen(page.location.info.file)
      requires page.location.info.readBytes + page.location.info.zeroBytes <= PGSIZE
      modifies this`frameTable, this`userPool, this`pmem, this`pagedir, this`exited, this`files
      ensures Valid() && exited == old(exited)
      ensures var info := page.location.info;
        success <==> (|old(userPool)| > 0
          && |ReadBytes(old(files)[info.file].data, info.ofs, info.readBytes)| == info.readBytes
          && page.uaddr !in old(pagedir))
      ensures |old(userPool)| == 0 ==> pmem == old(pmem) && files == old(files)
      ensures |old(userPool)| > 0 ==>
        var info := page.location.info;
        var file := old(files)[info.file];
        var k := old(userPool)[0];
        pmem == old(pmem)[k := FileFill(old(pmem)[k], file.data, info.ofs, info.readBytes, info.zeroBytes)]
        && files == old(files)[info.file := file.(pos := info.ofs + |ReadBytes(file.data, info.ofs, info.readBytes)|)]
      ensures success ==>
        Allocated(old(frameTable), old(userPool), page.uaddr)
        && pagedir == old(pagedir)[page.uaddr := Mapping(old(userPool)[0], page.writable, false)]
      ensures !success ==> frameTable == old(frameTable) && userPool == old(userPool) && pagedir == old(pagedir)
    {
      var info := page.location.info;
      ghost var frames0, pool0 := frameTable, userPool;
      var kpage := FrameAlloc(page.uaddr);
      if kpage.None? {
        return false;
      }
      var k := kpage.value;
      var full := FillFromFile(info, k);
      if !full {
        UndoAlloc(k, frames0, pool0, page.uaddr);
        return false;
      }
      success := InstallSPage(page.uaddr, k, page.writable);
      if !success {
        UndoAlloc(k, frames0, pool0, page.uaddr);
      }
    }

    /** s_page_load_swap: a fresh frame is mapped writable at the page's address (already mapped:
        released again, nothing else changes), then swap_in fills it from the entry's slot. A slot
        that is not in use fails the load but leaves the frame allocated and mapped. */
    method SPageLoadSwap(page: SPage) returns (success: bool)
      requires Valid() && page.uaddr % PGSIZE == 0 && page.uaddr < PHYS_BASE
      requires page.location.Swap? && page.location.swapIdx < swapTable.Length
      modifies swapTable, this`frameTable, this`userPool, this`pmem, this`pagedir, this`exited
      ensures Valid() && exited == old(exited)
      ensures success <==> |old(userPool)| > 0 && page.uaddr !in old(pagedir) && old(swapTable[page.location.swapIdx])
      ensures |old(userPool)| > 0 && page.uaddr !in old(pagedir) ==>
        var idx := page.location.swapIdx;
        var k := old(userPool)[0];
        Allocated(old(frameTable), old(userPool), page.uaddr)
        && StartSector(idx) + SECTOR_PER_PAGE <= |disk|
        && swapTable[..] == TestAndClear(old(swapTable[..]), idx).1
        && (old(swapTable[idx]) ==>
              pmem == old(pmem)[k := ReadSlot(disk, idx)] && pagedir == old(pagedir)[page.uaddr := Mapping(k, true, true)])
        && (!old(swapTable[idx]) ==>
              pmem == old(pmem) && pagedir == old(pagedir)[page.uaddr := Mapping(k, true, false)])
      ensures !(|old(userPool)| > 0 && page.uaddr !in old(pagedir)) ==>
        frameTable == old(frameTable) && userPool == old(userPool) && pagedir == old(pagedir)
        && pmem == old(pmem) && swapTable[..] == old(swapTable[..])
    {
      ghost var frames0, pool0 := frameTable, userPool;
      var kpage := FrameAlloc(page.uaddr);
      if kpage.None? {
        return false;
      }
      var k := kpage.value;
      success := InstallSPage(page.uaddr, k, true);
      if !success {
        UndoAlloc(k, frames0, pool0, page.uaddr);
        return false;
      }
      success := SwapIn(page.location.swapIdx, page.uaddr);
    }

    /** What s_page_load needs of an entry: an aligned user address, and for a file page an open
        file and at most a page of bytes, for a swap page a slot of the bitmap. */
    ghost predicate Loadable(page: SPage)
      reads this
    {
      && page.uaddr % PGSIZE == 0 && page.uaddr < PHYS_BASE
      && match page.location
         case Disk(info) => FileOpen(info.file) && info.readBytes + info.zeroBytes <= PGSIZE
         case Swap(idx) => idx < swapTable.Length
         case _ => true
    }

    /** s_page_load: dispatch on the entry's location; a FRAME entry is already loaded and
        yields true with no effect. */
    method SPageLoad(page: SPage) returns (success: bool)
      requires Valid() && Loadable(page)
      modifies swapTable, this`frameTable, this`userPool, this`pmem, this`pagedir, this`exited, this`files
      ensures Valid() && exited == old(exited)
      ensures page.location.Frame? ==>
        success && frameTable == old(frameTable) && userPool == old(userPool) && pmem == old(pmem)
        && pagedir == old(pagedir) && files == old(files) && swapTable[..] == old(swapTable[..])
      ensures !page.location.Disk? ==> files == old(files)
      ensures !page.location.Swap? ==> swapTable[..] == old(swapTable[..])
      ensures page.location.Zero? ==> (success <==> |old(userPool)| > 0 && page.uaddr !in old(pagedir))
      ensures page.location.Zero? ==>
        (|old(userPool)| == 0 ==> pmem == old(pmem))
        && (|old(userPool)| > 0 ==> pmem == old(pmem)[old(userPool)[0] := Zeros(PGSIZE)])
      ensures page.location.Disk? ==>
        var info := page.location.info;
        success <==> (|old(userPool)| > 0
          && |ReadBytes(old(files)[info.file].data, info.ofs, info.readBytes)| == info.readBytes
          && page.uaddr !in old(pagedir))
      ensures page.location.Disk? ==>
        var info := page.location.info;
        var file := old(files)[info.file];
        (|old(userPool)| == 0 ==> pmem == old(pmem) && files == old(files))
        && (|old(userPool)| > 0 ==>
              var k := old(userPool)[0];
              pmem == old(pmem)[k := FileFill(old(pmem)[k], file.data, info.ofs, info.readBytes, info.zeroBytes)]
              && files == old(files)[info.file := file.(pos := info.ofs + |ReadBytes(file.data, info.ofs, info.readBytes)|)])
      ensures success && page.location.Disk? ==>
        pagedir == old(pagedir)[page.uaddr := Mapping(old(userPool)[0], page.writable, false)]
      ensures page.location.Swap? ==>
        (success <==> |old(userPool)| > 0 && page.uaddr !in old(pagedir) && old(swapTable[page.location.swapIdx]))
      ensures page.location.Swap? && |old(userPool)| > 0 && page.uaddr !in old(pagedir) ==>
        var idx := page.location.swapIdx;
        var k := old(userPool)[0];
        Allocated(old(frameTable), old(userPool), page.uaddr)
        && StartSector(idx) + SECTOR_PER_PAGE <= |disk|
        && swapTable[..] == TestAndClear(old(swapTable[..]), idx).1
        && (old(swapTable[idx]) ==>
              pmem == old(pmem)[k := ReadSlot(disk, idx)] && pagedir == old(pagedir)[page.uaddr := Mapping(k, true, true)])
        && (!old(swapTable[idx]) ==>
              pmem == old(pmem) && pagedir == old(pagedir)[page.uaddr := Mapping(k, true, false)])
      ensures page.location.Swap? && !(|old(userPool)| > 0 && page.uaddr !in old(pagedir)) ==>
        frameTable == old(frameTable) && userPool == old(userPool) && pagedir == old(pagedir)
        && pmem == old(pmem) && swapTable[..] == old(swapTable[..])
      ensures success && !page.location.Frame? ==>
        Allocated(old(frameTable), old(userPool), page.uaddr)
        && page.uaddr in pagedir && pagedir[page.uaddr].kpage == old(userPool)[0]
        && pagedir == old(pagedir)[page.uaddr := pagedir[page.uaddr]]
      ensures success && page.location.Zero? ==>
        pmem[old(userPool)[0]] == Zeros(PGSIZE) && pagedir[page.uaddr] == Mapping(old(userPool)[0], true, false)
      ensures !success && !page.location.Swap? ==>
        frameTable == old(frameTable) && userPool == old(userPool) && pagedir == old(pagedir)
    {
      match page.location
      case Disk(_) =>
        success := SPageLoadFile(page);
      case Zero =>
        success := SPageLoadZero(page);
      case Swap(_) =>
        success := SPageLoadSwap(page);
      case Frame =>
        success := true;
    }

    /** grow_stack: if the page of addr is mapped there is nothing to do; otherwise a ZERO entry is
        inserted for it (kept out when the page already has an entry) and that page's entry is loaded. */
    method GrowStack(addr: nat) returns (success: bool)
      requires Valid() && addr < PHYS_BASE
      requires PgRoundDown(addr) !in pagedir && PgRoundDown(addr) in sPageTable ==> Loadable(sPageTable[PgRoundDown(addr)])
      modifies swapTable, this`sPageTable, this`frameTable, this`userPool, this`pmem, this`pagedir
      modifies this`exited, this`files
      ensures Valid() && exited == old(exited)
      ensures PgRoundDown(addr) in old(pagedir) ==>
        success && sPageTable == old(sPageTable) && frameTable == old(frameTable) && userPool == old(userPool)
        && pmem == old(pmem) && pagedir == old(pagedir) && files == old(files)
        && swapTable[..] == old(swapTable[..])
      ensures PgRoundDown(addr) in old(sPageTable) ==> sPageTable == old(sPageTable)
      ensures PgRoundDown(addr) !in old(pagedir) && PgRoundDown(addr) !in old(sPageTable) ==>
        sPageTable == old(sPageTable)[PgRoundDown(addr) := ZeroEntry(addr)]
        && (success <==> |old(userPool)| > 0)
        && (success ==>
              Allocated(old(frameTable), old(userPool), PgRoundDown(addr))
              && pagedir == old(pagedir)[PgRoundDown(addr) := Mapping(old(userPool)[0], true, false)]
              && old(userPool)[0] in pmem && pmem[old(userPool)[0]] == Zeros(PGSIZE))
      ensures PgRoundDown(addr) !in old(pagedir) && PgRoundDown(addr) !in old(sPageTable) ==>
        files == old(files) && swapTable[..] == old(swapTable[..])
        && (success ==> pmem == old(pmem)[old(userPool)[0] := Zeros(PGSIZE)])
        && (!success ==>
              frameTable == old(frameTable) && userPool == old(userPool) && pagedir == old(pagedir)
              && pmem == old(pmem))
      ensures PgRoundDown(addr) !in old(pagedir) && PgRoundDown(addr) in old(sPageTable) ==>
        var e := old(sPageTable)[PgRoundDown(addr)];
        e.location.Frame? ==>
          success && frameTable == old(frameTable) && userPool == old(userPool) && pmem == old(pmem)
          && pagedir == old(pagedir) && files == old(files) && swapTable[..] == old(swapTable[..])
      ensures PgRoundDown(addr) !in old(pagedir) && PgRoundDown(addr) in old(sPageTable) ==>
        var e := old(sPageTable)[PgRoundDown(addr)];
        (!e.location.Disk? ==> files == old(files))
        && (!e.location.Swap? ==> swapTable[..] == old(swapTable[..]))
      ensures PgRoundDown(addr) !in old(pagedir) && PgRoundDown(addr) in old(sPageTable) ==>
        var e := old(sPageTable)[PgRoundDown(addr)];
        e.location.Zero? ==>
          (success <==> |old(userPool)| > 0)
          && (success ==> pmem == old(pmem)[old(userPool)[0] := Zeros(PGSIZE)])
          && (!success ==> pmem == old(pmem))
      ensures PgRoundDown(addr) !in old(pagedir) && PgRoundDown(addr) in old(sPageTable) ==>
        var e := old(sPageTable)[PgRoundDown(addr)];
        e.location.Disk? ==>
          var info := e.location.info;
          success <==> (|old(userPool)| > 0
            && |ReadBytes(old(files)[info.file].data, info.ofs, info.readBytes)| == info.readBytes)
      ensures PgRoundDown(addr) !in old(pagedir) && PgRoundDown(addr) in old(sPageTable) ==>
        var e := old(sPageTable)[PgRoundDown(addr)];
        e.location.Disk? ==>
          var info := e.location.info;
          var file := old(files)[info.file];
          (|old(userPool)| == 0 ==> pmem == old(pmem) && files == old(files))
          && (|old(userPool)| > 0 ==>
                var k := old(userPool)[0];
                pmem == old(pmem)[k := FileFill(old(pmem)[k], file.data, info.ofs, info.readBytes, info.zeroBytes)]
                && files == old(files)[info.file := file.(pos := info.ofs + |ReadBytes(file.data, info.ofs, info.readBytes)|)])
          && (success ==> pagedir == old(pagedir)[PgRoundDown(addr) := Mapping(old(userPool)[0], e.writable, false)])
      ensures PgRoundDown(addr) !in old(pagedir) && PgRoundDown(addr) in old(sPageTable) ==>
        var e := old(sPageTable)[PgRoundDown(addr)];
        e.location.Swap? ==> (success <==> |old(userPool)| > 0 && old(swapTable[e.location.swapIdx]))
      ensures PgRoundDown(addr) !in old(pagedir) && PgRoundDown(addr) in old(sPageTable) ==>
        var e := old(sPageTable)[PgRoundDown(addr)];
        e.location.Swap? && |old(userPool)| > 0 ==>
          var idx := e.location.swapIdx;
          var k := old(userPool)[0];
          Allocated(old(frameTable), old(userPool), PgRoundDown(addr))
          && StartSector(idx) + SECTOR_PER_PAGE <= |disk|
          && swapTable[..] == TestAndClear(old(swapTable[..]), idx).1
          && (old(swapTable[idx]) ==>
                pmem == old(pmem)[k := ReadSlot(disk, idx)]
                && pagedir == old(pagedir)[PgRoundDown(addr) := Mapping(k, true, true)])
          && (!old(swapTable[idx]) ==>
                pmem == old(pmem) && pagedir == old(pagedir)[PgRoundDown(addr) := Mapping(k, true, false)])
      ensures PgRoundDown(addr) !in old(pagedir) && PgRoundDown(addr) in old(sPageTable) ==>
        var e := old(sPageTable)[PgRoundDown(addr)];
        e.location.Swap? && |old(userPool)| == 0 ==>
          frameTable == old(frameTable) && userPool == old(userPool) && pagedir == old(pagedir)
          && pmem == old(pmem) && swapTable[..] == old(swapTable[..])
      ensures PgRoundDown(addr) !in old(pagedir) && PgRoundDown(addr) in old(sPageTable) ==>
        var e := old(sPageTable)[PgRoundDown(addr)];
        success && !e.location.Frame? ==>
          Allocated(old(frameTable), old(userPool), PgRoundDown(addr))
          && PgRoundDown(addr) in pagedir && pagedir[PgRoundDown(addr)].kpage == old(userPool)[0]
          && pagedir == old(pagedir)[PgRoundDown(addr) := pagedir[PgRoundDown(addr)]]
      ensures PgRoundDown(addr) !in old(pagedir) && PgRoundDown(addr) in old(sPageTable) ==>
        var e := old(sPageTable)[PgRoundDown(addr)];
        success && e.location.Zero? ==>
          pagedir == old(pagedir)[PgRoundDown(addr) := Mapping(old(userPool)[0], true, false)]
          && old(userPool)[0] in pmem && pmem[old(userPool)[0]] == Zeros(PGSIZE)
      ensures PgRoundDown(addr) !in old(pagedir) && PgRoundDown(addr) in old(sPageTable) ==>
        var e := old(sPageTable)[PgRoundDown(addr)];
        !success && !e.location.Swap? ==>
          frameTable == old(frameTable) && userPool == old(userPool) && pagedir == old(pagedir)
    {
      var key := PgRoundDown(addr);
      if key in pagedir {
        return true;
      }
      var _ := SPageInsertZero(key);
      var page := Lookup(sPageTable, addr).value;
      success := SPageLoad(page);
    }

    // ------------------------------------------------------ page.c: munmap

    /** The write-back half of one iteration of mmap_remove's loop body: page k of the mapping is
        written to the file at offset k * PGSIZE when its dirty bit is set. */
    method FlushPage(f: FileId, addr: nat, ghost k: nat, pageBuffer: nat, ofs: nat, writeBytes: nat,
                     ghost data0: seq<byte>, ghost files0: map<FileId, OpenFile>)
      requires Valid() && MappedFrames(pagedir, pmem) && FileOpen(f) && Covers(|data0|, k)
      requires files == files0[f := files[f]]
      requires pageBuffer == PageAt(addr, k) && ofs == k * PGSIZE && writeBytes == WriteBytes(|data0|, k)
      requires files[f].data == WriteBack(data0, addr, DirtyPages(pagedir, pmem), k)
      modifies this`files
      ensures Valid()
      ensures FileOpen(f) && files == files0[f := files[f]]
      ensures files[f].data == WriteBack(data0, addr, DirtyPages(pagedir, pmem), k + 1)
    {
      if pageBuffer in pagedir && pagedir[pageBuffer].dirty {
        FileSeek(f, ofs);
        var _ := FileWrite(f, pmem[pagedir[pageBuffer].kpage], writeBytes);
      }
    }

    /** One iteration of mmap_remove's loop body: page k of the mapping is written back to the file
        when its dirty bit is set, and its entry is deleted. */
    method UnmapPage(f: FileId, addr: nat, ghost k: nat, pageBuffer: nat, ofs: nat, writeBytes: nat,
                     ghost data0: seq<byte>, ghost t0: Table, ghost files0: map<FileId, OpenFile>)
      requires Valid() && MappedFrames(pagedir, pmem) && FileOpen(f) && addr % PGSIZE == 0 && Covers(|data0|, k)
      requires files == files0[f := files[f]]
      requires pageBuffer == PageAt(addr, k) && ofs == k * PGSIZE && writeBytes == WriteBytes(|data0|, k)
      requires files[f].data == WriteBack(data0, addr, DirtyPages(pagedir, pmem), k)
      requires sPageTable == Unmapped(t0, addr, k) && pageBuffer in t0
      modifies this`files, this`sPageTable
      ensures Valid()
      ensures FileOpen(f) && files == files0[f := files[f]]
      ensures files[f].data == WriteBack(data0, addr, DirtyPages(pagedir, pmem), k + 1)
      ensures sPageTable == Unmapped(t0, addr, k + 1)
    {
      FlushPage(f, addr, k, pageBuffer, ofs, writeBytes, data0, files0);
      PageAtAligned(addr, k);
      UnmappedAt(t0, addr, k, pageBuffer);
      var _ := SPageDelete(pageBuffer);
    }

    /** mmap_remove as written: the loop `ofs < remaining` with `remaining -= PGSIZE` makes
        VisitedPages (len) iterations; each writes back its page if dirty (at most a page, never past
        the end of the file) and deletes the page's entry. Then the file is closed. */
    method MmapRemove(m: MmapInfo)
      requires Valid() && FileOpen(m.file) && m.addr % PGSIZE == 0
      requires forall k: nat :: Visits(|files[m.file].data|, k) ==> PageAt(m.addr, k) in sPageTable
      modifies this`files, this`sPageTable
      ensures Valid() && MappedFrames(pagedir, pmem)
      ensures var file := old(files)[m.file];
        var n := VisitedPages(|file.data|);
        (n == 0 || Covers(|file.data|, n - 1))
        && m.file in files && files == old(files)[m.file := files[m.file]] && files[m.file].closed
        && files[m.file].data == WriteBack(file.data, m.addr, DirtyPages(pagedir, pmem), n)
        && sPageTable == Unmapped(old(sPageTable), m.addr, n)
    {
      var f, addr := m.file, m.addr;
      ghost var data0, t0 := files[f].data, sPageTable;
      var remaining: int := FileLength(f);
      ghost var len := remaining;
      var ofs: int := 0;
      ghost var k: nat := 0;
      while ofs < remaining
        invariant ofs == k * PGSIZE && remaining == len - k * PGSIZE
        invariant k == 0 || (Visits(len, k - 1) && Covers(len, k - 1))
        invariant Valid() && MappedFrames(pagedir, pmem)
        invariant FileOpen(f) && files == old(files)[f := files[f]]
        invariant files[f].data == WriteBack(data0, addr, DirtyPages(pagedir, pmem), k)
        invariant sPageTable == Unmapped(t0, addr, k)
        decreases remaining - ofs
      {
        assert Visits(len, k);
        var pageBuffer := addr + ofs;
        var writeBytes := if remaining > PGSIZE then PGSIZE else remaining;
        assert pageBuffer == PageAt(addr, k) && writeBytes == WriteBytes(len, k);
        UnmapPage(f, addr, k, pageBuffer, ofs, writeBytes, data0, t0, old(files));
        remaining := remaining - PGSIZE;
        ofs := ofs + PGSIZE;
        k := k + 1;
      }
      assert !Visits(len, k) && k == VisitedPages(len);
      ghost var flushed := files[f];
      FileClose(f);
      assert files[f] == flushed.(closed := true);
      assert files[f].data == WriteBack(data0, addr, DirtyPages(pagedir, pmem), k);
    }

    /** mmap_remove with the loop guard `ofs < length`: all SpannedPages (len) pages are visited,
        so every dirty page of the mapping is written back and every page's entry is deleted. */
    method MmapRemoveAllPages(m: MmapInfo)
      requires Valid() && FileOpen(m.file) && m.addr % PGSIZE == 0
      requires forall k: nat :: Covers(|files[m.file].data|, k) ==> PageAt(m.addr, k) in sPageTable
      modifies this`files, this`sPageTable
      ensures Valid() && MappedFrames(pagedir, pmem)
      ensures var file := old(files)[m.file];
        var n := SpannedPages(|file.data|);
        (n == 0 || Covers(|file.data|, n - 1))
        && m.file in files && files == old(files)[m.file := files[m.file]] && files[m.file].closed
        && files[m.file].data == WriteBack(file.data, m.addr, DirtyPages(pagedir, pmem), n)
        && sPageTable == Unmapped(old(sPageTable), m.addr, n)
    {
      var f, addr := m.file, m.addr;
      ghost var data0, t0 := files[f].data, sPageTable;
      var len: int := FileLength(f);
      var remaining: int := len;
      var ofs: int := 0;
      ghost var k: nat := 0;
      while ofs < len
        invariant ofs == k * PGSIZE && remaining == len - k * PGSIZE
        invariant k == 0 || Covers(len, k - 1)
        invariant Valid() && MappedFrames(pagedir, pmem)
        invariant FileOpen(f) && files == old(files)[f := files[f]]
        invariant files[f].data == WriteBack(data0, addr, DirtyPages(pagedir, pmem), k)
        invariant sPageTable == Unmapped(t0, addr, k)
        decreases len - ofs
      {
        assert Covers(len, k);
        var pageBuffer := addr + ofs;
        var writeBytes := if remaining > PGSIZE then PGSIZE else remaining;
        assert pageBuffer == PageAt(addr, k) && writeBytes == WriteBytes(len, k);
        UnmapPage(f, addr, k, pageBuffer, ofs, writeBytes, data0, t0, old(files));
        remaining := remaining - PGSIZE;
        ofs := ofs + PGSIZE;
        k := k + 1;
      }
      assert !Covers(len, k) && k == SpannedPages(len);
      ghost var flushed := files[f];
      FileClose(f);
      assert files[f] == flushed.(closed := true);
      assert files[f].data == WriteBack(data0, addr, DirtyPages(pagedir, pmem), k);
    }

    /** A page swapped out and swapped straight back in comes back byte for byte. */
    method SwapOutThenIn(page: SPage, dst: nat) returns (success: bool)
      requires Valid() && page.uaddr in pagedir && dst in pagedir
      modifies swapTable, this`disk, this`sPageTable, this`pmem, this`pagedir
      ensures Valid()
      ensures success <==> exists j :: 0 <= j < swapTable.Length && !old(swapTable[j])
      ensures success ==> dst in pagedir && pmem[pagedir[dst].kpage] == old(pmem[pagedir[page.uaddr].kpage])
    {
      ghost var bytes := pmem[pagedir[page.uaddr].kpage];
      success := SwapOut(page);
      if success {
        var idx := sPageTable[page.uaddr].location.swapIdx;
        RoundTrip(old(disk), idx, bytes);
        var ok := SwapIn(idx, dst);
      }
    }
  }
}
