/*
 * Constants and basic types shared by the demand-paging model: the page and
 * sector sizes of Pintos, the top of user space, bytes, pages and an Option
 * type standing for the C code's NULL returns.
 */
module VmBase {

  /** Size of a virtual page and of a physical frame, in bytes. */
  const PGSIZE: nat := 4096
  /** Size of one sector of the swap disk, in bytes. */
  const DISK_SECTOR_SIZE: nat := 512
  /** Number of disk sectors that hold one page. */
  const SECTOR_PER_PAGE: nat := PGSIZE / DISK_SECTOR_SIZE
  /** First kernel virtual address; user space is [0, PHYS_BASE). */
  const PHYS_BASE: nat := 0xC000_0000
  /** The stack may grow to this many bytes below PHYS_BASE. */
  const MAX_STACK_SIZE: nat := 0x80_0000
  /** Pointers are 32 bits wide. */
  const PTR_LIMIT: nat := 0x1_0000_0000

  newtype byte = x: int | 0 <= x < 256

  type Ptr = p: nat | p < PTR_LIMIT

  datatype Option<T> = None | Some(value: T)

  /** The sector size divides the page size, so SECTOR_PER_PAGE sectors hold exactly one page. */
  lemma SectorsPerPage()
    ensures PGSIZE % DISK_SECTOR_SIZE == 0
    ensures SECTOR_PER_PAGE * DISK_SECTOR_SIZE == PGSIZE
  {
  }

  /** n zero bytes, what memset (p, 0, n) leaves behind. */
  function Zeros(n: nat): (z: seq<byte>)
    ensures |z| == n
    ensures forall i :: 0 <= i < n ==> z[i] == 0
  {
    seq(n, _ => 0)
  }

  /** memset (buf + at, 0, n): n zeros from index at, every other byte kept. */
  function Memset(buf: seq<byte>, at: nat, n: nat): (r: seq<byte>)
    requires at + n <= |buf|
    ensures |r| == |buf|
    ensures forall b :: 0 <= b < |buf| ==> r[b] == if at <= b < at + n then 0 else buf[b]
  {
    buf[..at] + Zeros(n) + buf[at + n..]
  }

  /** pg_round_down: the start of the page that holds address a. */
  function PgRoundDown(a: nat): (r: nat)
    ensures r % PGSIZE == 0
    ensures r <= a < r + PGSIZE
  {
    a - a % PGSIZE
  }

  /** A page-aligned address p is the round-down of exactly the addresses of its page. */
  lemma RoundDownIff(a: nat, p: nat)
    requires p % PGSIZE == 0
    ensures PgRoundDown(a) == p <==> p <= a < p + PGSIZE
  {
    var r := PgRoundDown(a);
    if p <= a < p + PGSIZE && r != p {
      AlignedApart(r, p);
    }
  }

  /** Two different page-aligned addresses are at least a page apart. */
  lemma AlignedApart(p: nat, q: nat)
    requires p % PGSIZE == 0 && q % PGSIZE == 0 && p != q
    ensures p + PGSIZE <= q || q + PGSIZE <= p
  {
    var i, j := p / PGSIZE, q / PGSIZE;
    assert p == i * PGSIZE && q == j * PGSIZE;
    if i < j {
      assert (j - i) * PGSIZE >= PGSIZE;
    } else {
      assert i != j;
      assert (i - j) * PGSIZE >= PGSIZE;
    }
  }
}
