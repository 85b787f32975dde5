/*
 * The byte layout of the swap disk: slot idx occupies the SECTOR_PER_PAGE
 * consecutive sectors starting at idx * SECTOR_PER_PAGE, and chunk i of the
 * page (bytes [i * DISK_SECTOR_SIZE, (i + 1) * DISK_SECTOR_SIZE)) goes to the
 * slot's sector i.
 */
module SwapLayout {
  import opened VmBase

  type Sector = seq<byte>

  /** Every sector of the disk holds exactly DISK_SECTOR_SIZE bytes. */
  ghost predicate WellFormed(disk: seq<Sector>) {
    forall j :: 0 <= j < |disk| ==> |disk[j]| == DISK_SECTOR_SIZE
  }

  /** swap_init sizes the bitmap at disk_size / SECTOR_PER_PAGE slots. */
  function SlotCount(diskSectors: nat): nat {
    diskSectors / SECTOR_PER_PAGE
  }

  /** The first sector of slot idx (start_sector in swap_in and swap_out). */
  function StartSector(idx: nat): nat {
    idx * SECTOR_PER_PAGE
  }

  /** Every slot the bitmap counts lies wholly on the disk, and no whole slot is left uncounted. */
  lemma SlotFits(diskSectors: nat, idx: nat)
    ensures idx < SlotCount(diskSectors) <==> StartSector(idx) + SECTOR_PER_PAGE <= diskSectors
  {
    var n := SlotCount(diskSectors);
    assert diskSectors == n * SECTOR_PER_PAGE + diskSectors % SECTOR_PER_PAGE;
    if idx < n {
      assert idx + 1 <= n;
      assert (idx + 1) * SECTOR_PER_PAGE <= n * SECTOR_PER_PAGE;
    } else {
      assert idx * SECTOR_PER_PAGE >= n * SECTOR_PER_PAGE;
    }
  }

  /** Two different slots use disjoint runs of sectors. */
  lemma SlotsDisjoint(i: nat, j: nat, s: nat)
    requires i != j
    requires StartSector(i) <= s < StartSector(i) + SECTOR_PER_PAGE
    ensures !(StartSector(j) <= s < StartSector(j) + SECTOR_PER_PAGE)
  {
    if i < j {
      assert StartSector(j) - StartSector(i) == (j - i) * SECTOR_PER_PAGE;
      assert (j - i) * SECTOR_PER_PAGE >= SECTOR_PER_PAGE;
    } else {
      assert StartSector(i) - StartSector(j) == (i - j) * SECTOR_PER_PAGE;
      assert (i - j) * SECTOR_PER_PAGE >= SECTOR_PER_PAGE;
    }
  }

  /** Chunk i of a page: the bytes one disk_write sends to the slot's sector i. */
  function Chunk(page: seq<byte>, i: nat): (c: Sector)
    requires |page| == PGSIZE && i < SECTOR_PER_PAGE
    ensures |c| == DISK_SECTOR_SIZE
    ensures forall b :: 0 <= b < DISK_SECTOR_SIZE ==> c[b] == page[i * DISK_SECTOR_SIZE + b]
  {
    page[i * DISK_SECTOR_SIZE..(i + 1) * DISK_SECTOR_SIZE]
  }

  /** The disk after swap_out's loop wrote page to slot idx. */
  function WriteSlot(disk: seq<Sector>, idx: nat, page: seq<byte>): (d: seq<Sector>)
    requires |page| == PGSIZE && StartSector(idx) + SECTOR_PER_PAGE <= |disk|
    ensures |d| == |disk|
    ensures forall j :: 0 <= j < |disk| && !(StartSector(idx) <= j < StartSector(idx) + SECTOR_PER_PAGE) ==> d[j] == disk[j]
    ensures forall i :: 0 <= i < SECTOR_PER_PAGE ==> d[StartSector(idx) + i] == Chunk(page, i)
  {
    seq(|disk|, j requires 0 <= j < |disk| =>
      if StartSector(idx) <= j < StartSector(idx) + SECTOR_PER_PAGE then Chunk(page, j - StartSector(idx)) else disk[j])
  }

  /** The concatenation of n sectors from start: what reading them one by one into a buffer yields. */
  function SectorsFrom(disk: seq<Sector>, start: nat, n: nat): (r: seq<byte>)
    requires start + n <= |disk|
    ensures WellFormed(disk) ==> |r| == n * DISK_SECTOR_SIZE
  {
    if n == 0 then [] else SectorsFrom(disk, start, n - 1) + disk[start + n - 1]
  }

  /** The page swap_in's loop reads back from slot idx. */
  function ReadSlot(disk: seq<Sector>, idx: nat): (p: seq<byte>)
    requires WellFormed(disk) && StartSector(idx) + SECTOR_PER_PAGE <= |disk|
    ensures |p| == PGSIZE
  {
    SectorsFrom(disk, StartSector(idx), SECTOR_PER_PAGE)
  }

  lemma {:induction false} ReadBackPrefix(d: seq<Sector>, start: nat, page: seq<byte>, n: nat)
    requires |page| == PGSIZE && start + n <= |d| && n <= SECTOR_PER_PAGE
    requires forall i :: 0 <= i < n ==> d[start + i] == Chunk(page, i)
    ensures SectorsFrom(d, start, n) == page[..n * DISK_SECTOR_SIZE]
  {
    if n > 0 {
      ReadBackPrefix(d, start, page, n - 1);
      var m := (n - 1) * DISK_SECTOR_SIZE;
      assert n * DISK_SECTOR_SIZE == m + DISK_SECTOR_SIZE;
      assert d[start + (n - 1)] == Chunk(page, n - 1);
      assert d[start + n - 1] == page[m..m + DISK_SECTOR_SIZE];
      assert page[..m + DISK_SECTOR_SIZE] == page[..m] + page[m..m + DISK_SECTOR_SIZE];
    }
  }

  /** Round trip: reading slot idx after writing page to it yields page, byte for byte. */
  lemma RoundTrip(disk: seq<Sector>, idx: nat, page: seq<byte>)
    requires WellFormed(disk) && |page| == PGSIZE && StartSector(idx) + SECTOR_PER_PAGE <= |disk|
    ensures WellFormed(WriteSlot(disk, idx, page))
    ensures ReadSlot(WriteSlot(disk, idx, page), idx) == page
  {
    SectorsPerPage();
    ReadBackPrefix(WriteSlot(disk, idx, page), StartSector(idx), page, SECTOR_PER_PAGE);
    assert page[..SECTOR_PER_PAGE * DISK_SECTOR_SIZE] == page;
  }

  lemma {:induction false} SectorsFromUnchanged(d1: seq<Sector>, d2: seq<Sector>, start: nat, n: nat)
    requires start + n <= |d1| == |d2|
    requires forall j :: start <= j < start + n ==> d1[j] == d2[j]
    ensures SectorsFrom(d1, start, n) == SectorsFrom(d2, start, n)
  {
    if n > 0 {
      SectorsFromUnchanged(d1, d2, start, n - 1);
    }
  }

  /** Writing slot idx leaves what every other slot reads back unchanged. */
  lemma OtherSlotUnchanged(disk: seq<Sector>, idx: nat, page: seq<byte>, other: nat)
    requires WellFormed(disk) && |page| == PGSIZE && StartSector(idx) + SECTOR_PER_PAGE <= |disk|
    requires other != idx && StartSector(other) + SECTOR_PER_PAGE <= |disk|
    ensures WellFormed(WriteSlot(disk, idx, page))
    ensures ReadSlot(WriteSlot(disk, idx, page), other) == ReadSlot(disk, other)
  {
    forall s | StartSector(other) <= s < StartSector(other) + SECTOR_PER_PAGE
      ensures WriteSlot(disk, idx, page)[s] == disk[s]
    {
      SlotsDisjoint(other, idx, s);
    }
    SectorsFromUnchanged(WriteSlot(disk, idx, page), disk, StartSector(other), SECTOR_PER_PAGE);
  }

  /** One disk_read of swap_in's loop: sector s lands as chunk i of the page being filled. */
  function PutChunk(page: seq<byte>, i: nat, s: Sector): (r: seq<byte>)
    requires |page| == PGSIZE && i < SECTOR_PER_PAGE && |s| == DISK_SECTOR_SIZE
    ensures |r| == PGSIZE
  {
    page[..i * DISK_SECTOR_SIZE] + s + page[(i + 1) * DISK_SECTOR_SIZE..]
  }

  /** After i reads the page is the first i sectors of the slot followed by its old tail;
      one more read extends the slot part by a sector. */
  lemma PutChunkStep(head: seq<byte>, page: seq<byte>, i: nat, s: Sector)
    requires |page| == PGSIZE && i < SECTOR_PER_PAGE && |s| == DISK_SECTOR_SIZE
    requires |head| == i * DISK_SECTOR_SIZE
    ensures |head + page[i * DISK_SECTOR_SIZE..]| == PGSIZE
    ensures PutChunk(head + page[i * DISK_SECTOR_SIZE..], i, s) == (head + s) + page[(i + 1) * DISK_SECTOR_SIZE..]
  {
    var p := head + page[i * DISK_SECTOR_SIZE..];
    var m := i * DISK_SECTOR_SIZE;
    assert p[..m] == head;
    assert p[m + DISK_SECTOR_SIZE..] == page[m + DISK_SECTOR_SIZE..];
  }
}
