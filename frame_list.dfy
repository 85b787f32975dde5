/*
 * The frame table as a value: the list of frame records in list order
 * (list_push_front puts a new record at index 0).
 */
module FrameList {
  import opened VmBase

  /** struct frame: the physical page, the user page it backs, its owner thread and the pin flag. */
  datatype FrameRecord = FrameRecord(kpage: nat, upage: nat, owner: nat, pinned: bool)

  /** Some record of the table holds kpage k. */
  ghost predicate Tracked(table: seq<FrameRecord>, k: nat) {
    exists i :: 0 <= i < |table| && table[i].kpage == k
  }

  /** No two records hold the same kpage. */
  ghost predicate UniqueKpages(table: seq<FrameRecord>) {
    forall i, j :: 0 <= i < j < |table| ==> table[i].kpage != table[j].kpage
  }

  /** The index frame_find stops at: the first record in list order holding kpage k. */
  function FirstMatch(table: seq<FrameRecord>, k: nat): (r: Option<nat>)
    ensures r.Some? ==> r.value < |table| && table[r.value].kpage == k
    ensures r.Some? ==> forall j :: 0 <= j < r.value ==> table[j].kpage != k
    ensures r.None? <==> forall j :: 0 <= j < |table| ==> table[j].kpage != k
  {
    if |table| == 0 then None
    else if table[0].kpage == k then Some(0)
    else match FirstMatch(table[1..], k)
      case None => None
      case Some(i) => Some(i + 1)
  }

  /** list_remove of the record at index i. */
  function RemoveAt(table: seq<FrameRecord>, i: nat): (r: seq<FrameRecord>)
    requires i < |table|
    ensures |r| == |table| - 1
    ensures forall j :: 0 <= j < i ==> r[j] == table[j]
    ensures forall j :: i <= j < |r| ==> r[j] == table[j + 1]
  {
    table[..i] + table[i + 1..]
  }

  /** frame_pin / frame_unpin: the first record holding k gets pinned := b; no record holding k, no change. */
  function SetPinned(table: seq<FrameRecord>, k: nat, b: bool): (r: seq<FrameRecord>)
  {
    match FirstMatch(table, k)
    case None => table
    case Some(i) => table[i := table[i].(pinned := b)]
  }

  /** Pinning changes only the pin flag of the matching record. */
  lemma SetPinnedEffect(table: seq<FrameRecord>, k: nat, b: bool)
    ensures |SetPinned(table, k, b)| == |table|
    ensures forall j :: 0 <= j < |table| ==>
      SetPinned(table, k, b)[j] == (if FirstMatch(table, k) == Some(j) then table[j].(pinned := b) else table[j])
    ensures !Tracked(table, k) ==> SetPinned(table, k, b) == table
    ensures Tracked(table, k) ==> exists j :: 0 <= j < |table| && SetPinned(table, k, b)[j] == table[j].(pinned := b) && table[j].kpage == k
  {
    match FirstMatch(table, k)
    case None =>
    case Some(i) =>
      assert SetPinned(table, k, b)[i] == table[i].(pinned := b);
  }

  /** Pinning keeps kpages unique, and with unique kpages the record of k ends up with pinned == b. */
  lemma SetPinnedUnique(table: seq<FrameRecord>, k: nat, b: bool)
    requires UniqueKpages(table)
    ensures UniqueKpages(SetPinned(table, k, b))
    ensures forall j :: 0 <= j < |table| && table[j].kpage == k ==> SetPinned(table, k, b)[j].pinned == b
  {
    SetPinnedEffect(table, k, b);
  }

  /** Freeing the record of a tracked kpage: with unique kpages, k is no longer tracked, and
      every other kpage stays tracked exactly as before. */
  lemma RemoveUntracks(table: seq<FrameRecord>, k: nat)
    requires UniqueKpages(table) && Tracked(table, k)
    ensures FirstMatch(table, k).Some?
    ensures !Tracked(RemoveAt(table, FirstMatch(table, k).value), k)
    ensures UniqueKpages(RemoveAt(table, FirstMatch(table, k).value))
    ensures forall k' :: k' != k ==> (Tracked(RemoveAt(table, FirstMatch(table, k).value), k') <==> Tracked(table, k'))
  {
    var i := FirstMatch(table, k).value;
    var r := RemoveAt(table, i);
    forall k' | k' != k && Tracked(table, k')
      ensures Tracked(r, k')
    {
      var j :| 0 <= j < |table| && table[j].kpage == k';
      if j < i {
        assert r[j].kpage == k';
      } else {
        assert j != i;
        assert r[j - 1].kpage == k';
      }
    }
  }

  /** Pushing a record with an untracked kpage on the front keeps kpages unique. */
  lemma PushKeepsUnique(table: seq<FrameRecord>, f: FrameRecord)
    requires UniqueKpages(table) && !Tracked(table, f.kpage)
    ensures UniqueKpages([f] + table)
    ensures FirstMatch([f] + table, f.kpage) == Some(0)
  {
    var t := [f] + table;
    forall i, j | 0 <= i < j < |t| ensures t[i].kpage != t[j].kpage {
      if i == 0 {
        assert t[j] == table[j - 1];
      } else {
        assert t[i] == table[i - 1] && t[j] == table[j - 1];
      }
    }
  }
}
