/*
 * The supplemental page table as a value: a map from page-aligned user
 * addresses to entries that say where each page's contents come from.
 * The C table is a hash keyed by the entry's uaddr (hash_func and less_func
 * compare only uaddr), so a map keyed by uaddr is the same container.
 */
module SupplementalPages {
  import opened VmBase

  /** An open file handle, compared by identity as the C pointer is. */
  type FileId = nat

  /** Where a file-backed page's bytes are: read_bytes from ofs, then zero_bytes zeros. */
  datatype FileInfo = FileInfo(file: FileId, ofs: nat, readBytes: nat, zeroBytes: nat)

  /** enum page_location together with the fields each location uses. */
  datatype Location =
    | Frame
    | Disk(info: FileInfo)
    | Swap(swapIdx: nat)
    | Zero

  /** struct s_page. */
  datatype SPage = SPage(uaddr: nat, writable: bool, location: Location)

  type Table = map<nat, SPage>

  /** Every entry sits under its own page-aligned uaddr. */
  ghost predicate WellKeyed(t: Table) {
    forall k :: k in t ==> k % PGSIZE == 0 && t[k].uaddr == k
  }

  /** The entries s_page_insert_file, s_page_insert_zero and s_page_insert_swap build. */
  function FileEntry(uaddr: nat, file: FileId, ofs: nat, readBytes: nat, zeroBytes: nat, writable: bool): (e: SPage)
    ensures e.uaddr == PgRoundDown(uaddr) && e.writable == writable
    ensures e.location == Disk(FileInfo(file, ofs, readBytes, zeroBytes))
  {
    SPage(PgRoundDown(uaddr), writable, Disk(FileInfo(file, ofs, readBytes, zeroBytes)))
  }

  function ZeroEntry(uaddr: nat): (e: SPage)
    ensures e.uaddr == PgRoundDown(uaddr) && e.writable && e.location == Zero
  {
    SPage(PgRoundDown(uaddr), true, Zero)
  }

  function SwapEntry(uaddr: nat, writable: bool, swapIdx: nat): (e: SPage)
    ensures e.uaddr == PgRoundDown(uaddr) && e.writable == writable
    ensures e.location == Swap(swapIdx)
  {
    SPage(PgRoundDown(uaddr), writable, Swap(swapIdx))
  }

  /** page_lookup: round the address down, then find the entry with that key. */
  function Lookup(t: Table, uaddr: nat): (r: Option<SPage>)
    ensures r.Some? <==> PgRoundDown(uaddr) in t
    ensures r.Some? ==> r.value == t[PgRoundDown(uaddr)]
  {
    var key := PgRoundDown(uaddr);
    if key in t then Some(t[key]) else None
  }

  /** hash_insert: stores e unless an entry with the same key exists; true iff it stored e. */
  function Insert(t: Table, e: SPage): (r: (bool, Table))
  {
    if e.uaddr in t then (false, t) else (true, t[e.uaddr := e])
  }

  /** hash_delete of the entry under key. */
  function Delete(t: Table, key: nat): (r: Table)
    ensures key !in r
    ensures forall k :: k in r <==> k in t && k != key
    ensures forall k :: k in r ==> r[k] == t[k]
  {
    t - {key}
  }

  /** An insert succeeds iff no entry holds the key; a failed insert changes nothing;
      a successful one adds exactly that entry. */
  lemma InsertResult(t: Table, e: SPage)
    ensures Insert(t, e).0 <==> e.uaddr !in t
    ensures !Insert(t, e).0 ==> Insert(t, e).1 == t
    ensures Insert(t, e).0 ==> Insert(t, e).1.Keys == t.Keys + {e.uaddr}
    ensures Insert(t, e).0 ==> forall k :: k in t ==> Insert(t, e).1[k] == t[k]
    ensures Insert(t, e).0 ==> Insert(t, e).1[e.uaddr] == e
    ensures e.uaddr in Insert(t, e).1
  {
  }

  /** After a successful insert of an aligned entry, every address of its page finds it,
      and every address of any other page finds what it found before. */
  lemma InsertThenLookup(t: Table, e: SPage, a: nat)
    requires e.uaddr % PGSIZE == 0
    requires Insert(t, e).0
    ensures e.uaddr <= a < e.uaddr + PGSIZE ==> Lookup(Insert(t, e).1, a) == Some(e)
    ensures !(e.uaddr <= a < e.uaddr + PGSIZE) ==> Lookup(Insert(t, e).1, a) == Lookup(t, a)
  {
    RoundDownIff(a, e.uaddr);
  }

  /** Inserting or deleting keeps every entry under its own aligned key. */
  lemma InsertKeepsWellKeyed(t: Table, e: SPage)
    requires WellKeyed(t) && e.uaddr % PGSIZE == 0
    ensures WellKeyed(Insert(t, e).1)
  {
  }

  lemma DeleteKeepsWellKeyed(t: Table, key: nat)
    requires WellKeyed(t)
    ensures WellKeyed(Delete(t, key))
  {
  }

  /** What lookup finds is the entry of the very page that holds the address. */
  lemma LookupContains(t: Table, a: nat)
    requires WellKeyed(t)
    ensures Lookup(t, a).Some? ==> Lookup(t, a).value.uaddr <= a < Lookup(t, a).value.uaddr + PGSIZE
  {
  }

  /** All addresses of one page find the same entry, or all find none. */
  lemma LookupSamePage(t: Table, a: nat, b: nat)
    requires a / PGSIZE == b / PGSIZE
    ensures Lookup(t, a) == Lookup(t, b)
  {
    assert PgRoundDown(a) == a / PGSIZE * PGSIZE;
    assert PgRoundDown(b) == b / PGSIZE * PGSIZE;
  }

  /** At most one entry of a well-keyed table covers any address. */
  lemma AtMostOneEntry(t: Table, a: nat, k1: nat, k2: nat)
    requires WellKeyed(t)
    requires k1 in t && t[k1].uaddr <= a < t[k1].uaddr + PGSIZE
    requires k2 in t && t[k2].uaddr <= a < t[k2].uaddr + PGSIZE
    ensures k1 == k2 && Lookup(t, a) == Some(t[k1])
  {
    RoundDownIff(a, k1);
    RoundDownIff(a, k2);
  }
}
