/*
 * What the write-back loop of mmap_remove does to the mapped file.
 *
 * The loop runs `for (ofs = 0; ofs < remaining; ofs += PGSIZE)` while it also
 * does `remaining -= PGSIZE`, so iteration k (ofs = k * PGSIZE) runs only
 * when k * PGSIZE < len - k * PGSIZE: it stops half-way through the file.
 * A 10000-byte file spans 3 pages and the loop visits 2 of them. The model
 * keeps that loop as written (MmapRemove) and also states the loop with the
 * evident intent, `ofs < len` (MmapRemoveAllPages).
 */
module Munmap {
  import opened VmBase
  import opened SupplementalPages
  import opened FileModel

  /** Iteration k of the loop as written runs: ofs < remaining with ofs = k * PGSIZE. */
  predicate Visits(len: nat, k: nat) {
    k * PGSIZE < len - k * PGSIZE
  }

  /** Iteration k of the loop with guard ofs < len runs. */
  predicate Covers(len: nat, k: nat) {
    k * PGSIZE < len
  }

  /** How many iterations the loop as written makes: it visits exactly the pages below this count. */
  function VisitedPages(len: nat): (n: nat)
    ensures forall k: nat :: Visits(len, k) <==> k < n
  {
    var n := (len + 2 * PGSIZE - 1) / (2 * PGSIZE);
    forall k: nat ensures Visits(len, k) <==> k < n {
      VisitsBelow(len, k, n);
    }
    n
  }

  lemma VisitsBelow(len: nat, k: nat, n: nat)
    requires n == (len + 2 * PGSIZE - 1) / (2 * PGSIZE)
    ensures Visits(len, k) <==> k < n
  {
    var q := 2 * PGSIZE;
    assert n * q <= len + q - 1 < n * q + q;
    if k < n {
      assert (k + 1) * q <= n * q;
    } else {
      assert k * q >= n * q;
    }
  }

  /** How many pages a file of len bytes spans: the pages below this count hold its bytes. */
  function SpannedPages(len: nat): (n: nat)
    ensures forall k: nat :: Covers(len, k) <==> k < n
  {
    var n := (len + PGSIZE - 1) / PGSIZE;
    forall k: nat ensures Covers(len, k) <==> k < n {
      CoversBelow(len, k, n);
    }
    n
  }

  lemma CoversBelow(len: nat, k: nat, n: nat)
    requires n == (len + PGSIZE - 1) / PGSIZE
    ensures Covers(len, k) <==> k < n
  {
    assert n * PGSIZE <= len + PGSIZE - 1 < n * PGSIZE + PGSIZE;
    if k < n {
      assert (k + 1) * PGSIZE <= n * PGSIZE;
    } else {
      assert k * PGSIZE >= n * PGSIZE;
    }
  }

  /** The loop as written visits every page of the file only when the file fits in one page:
      any longer file keeps some of its pages mapped. */
  lemma MunmapSkipsPages(len: nat)
    ensures VisitedPages(len) <= SpannedPages(len)
    ensures VisitedPages(len) == SpannedPages(len) <==> len <= PGSIZE
    ensures VisitedPages(10000) == 2 && SpannedPages(10000) == 3
  {
    var v, s := VisitedPages(len), SpannedPages(len);
    if len > PGSIZE {
      assert Covers(len, 1);
      assert (s - 1) * PGSIZE >= PGSIZE;
    } else if len > 0 {
      assert Visits(len, 0) && !Covers(len, 1) && !Visits(len, 1);
    }
    assert Visits(10000, 1) && !Visits(10000, 2);
    assert Covers(10000, 2) && !Covers(10000, 3);
  }

  /** write_bytes of iteration k: the rest of the file, at most one page. */
  function WriteBytes(len: nat, k: nat): (n: nat)
    requires Covers(len, k)
    ensures 0 < n <= PGSIZE && k * PGSIZE + n <= len
  {
    var remaining := len - k * PGSIZE;
    if remaining > PGSIZE then PGSIZE else remaining
  }

  /** The user page iteration k flushes: addr + ofs. */
  function PageAt(addr: nat, k: nat): nat {
    addr + k * PGSIZE
  }

  /** The pages of an aligned mapping are aligned. */
  lemma PageAtAligned(addr: nat, k: nat)
    requires addr % PGSIZE == 0
    ensures PageAt(addr, k) % PGSIZE == 0
  {
    assert PageAt(addr, k) == (addr / PGSIZE + k) * PGSIZE;
  }

  /** Pages of this size are what dirty maps user page addresses to. */
  ghost predicate PageSized(dirty: map<nat, seq<byte>>) {
    forall u :: u in dirty ==> |dirty[u]| == PGSIZE
  }

  /** The file after iterations 0 .. k - 1: each page whose address is in dirty (the dirty user pages
      and their current bytes) is written back at its offset; clean pages are skipped. */
  function WriteBack(data: seq<byte>, addr: nat, dirty: map<nat, seq<byte>>, k: nat): (r: seq<byte>)
    requires PageSized(dirty)
    requires k == 0 || Covers(|data|, k - 1)
    ensures |r| == |data|
    decreases k
  {
    if k == 0 then data
    else
      var j := k - 1;
      assert j == 0 || Covers(|data|, j - 1);
      var prev := WriteBack(data, addr, dirty, j);
      if PageAt(addr, j) in dirty then Written(prev, j * PGSIZE, dirty[PageAt(addr, j)], WriteBytes(|data|, j))
      else prev
  }

  /** Byte b of the file after k iterations: the page's byte if its page was visited and dirty,
      the old byte otherwise. Nothing beyond write_bytes is written, and clean pages stay as they were. */
  lemma {:induction false} WriteBackAt(data: seq<byte>, addr: nat, dirty: map<nat, seq<byte>>, k: nat, b: nat)
    requires PageSized(dirty)
    requires k == 0 || Covers(|data|, k - 1)
    requires b < |data|
    ensures var j := b / PGSIZE;
      WriteBack(data, addr, dirty, k)[b] ==
        if j < k && PageAt(addr, j) in dirty then dirty[PageAt(addr, j)][b - j * PGSIZE] else data[b]
    decreases k
  {
    var j := b / PGSIZE;
    assert j * PGSIZE <= b < j * PGSIZE + PGSIZE;
    if k > 0 {
      var i := k - 1;
      assert i == 0 || Covers(|data|, i - 1);
      WriteBackAt(data, addr, dirty, i, b);
      if i != j {
        if i < j {
          assert (i + 1) * PGSIZE <= j * PGSIZE;
        } else {
          assert (j + 1) * PGSIZE <= i * PGSIZE;
        }
      }
    }
  }

  /** With the loop guard ofs < len every page of the file is visited, so every byte of the file
      ends up as its page's byte when that page is dirty, and as it was when it is clean. */
  lemma FullWriteBack(data: seq<byte>, addr: nat, dirty: map<nat, seq<byte>>, b: nat)
    requires PageSized(dirty) && b < |data|
    ensures var n := SpannedPages(|data|);
      (n == 0 || Covers(|data|, n - 1))
      && WriteBack(data, addr, dirty, n)[b] ==
        if PageAt(addr, b / PGSIZE) in dirty then dirty[PageAt(addr, b / PGSIZE)][b % PGSIZE] else data[b]
  {
    var n := SpannedPages(|data|);
    assert n > 0 ==> Covers(|data|, n - 1);
    var j := b / PGSIZE;
    assert j * PGSIZE <= b;
    assert Covers(|data|, j);
    WriteBackAt(data, addr, dirty, n, b);
  }

  /** The table after s_page_delete of the pages addr, addr + PGSIZE, ..., of the first n iterations. */
  function Unmapped(t: Table, addr: nat, n: nat): (r: Table)
    ensures forall u :: u in r ==> u in t && r[u] == t[u]
  {
    if n == 0 then t else Delete(Unmapped(t, addr, n - 1), PageAt(addr, n - 1))
  }

  /** For an aligned mapping, n iterations remove exactly the aligned keys in [addr, addr + n * PGSIZE). */
  lemma {:induction false} UnmappedAt(t: Table, addr: nat, n: nat, u: nat)
    requires addr % PGSIZE == 0 && u % PGSIZE == 0
    ensures u in Unmapped(t, addr, n) <==> u in t && !(addr <= u < PageAt(addr, n))
  {
    if n > 0 {
      UnmappedAt(t, addr, n - 1, u);
      var p := PageAt(addr, n - 1);
      assert PageAt(addr, n) == p + PGSIZE;
    }
  }
}
