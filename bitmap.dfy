/*
 * The swap slot bitmap as a value (true = slot used), with the two bitmap
 * operations the swap manager applies to it, and the slot-reuse property
 * over any sequence of swap_out and swap_in calls.
 */
module Bitmap {
  import opened VmBase

  /** The lowest-indexed free slot, the one bitmap_scan_and_flip (b, 0, 1, false) finds. */
  function LowestFree(bits: seq<bool>): (r: Option<nat>)
    ensures r.Some? ==> r.value < |bits| && !bits[r.value]
    ensures r.Some? ==> forall j :: 0 <= j < r.value ==> bits[j]
    ensures r.None? <==> forall j :: 0 <= j < |bits| ==> bits[j]
  {
    if |bits| == 0 then None
    else if !bits[0] then Some(0)
    else match LowestFree(bits[1..])
      case None => None
      case Some(i) => Some(i + 1)
  }

  /** bitmap_scan_and_flip: claim the lowest free slot, or report BITMAP_ERROR (None). */
  function ScanAndFlip(bits: seq<bool>): (r: (Option<nat>, seq<bool>))
  {
    match LowestFree(bits)
    case None => (None, bits)
    case Some(i) => (Some(i), bits[i := true])
  }

  /** swap_in's bitmap step: a used slot is flipped to free; a free one is reported. */
  function TestAndClear(bits: seq<bool>, idx: nat): (r: (bool, seq<bool>))
    requires idx < |bits|
    ensures r.0 <==> bits[idx]
    ensures |r.1| == |bits| && !r.1[idx]
    ensures forall j :: 0 <= j < |bits| && j != idx ==> r.1[j] == bits[j]
  {
    if bits[idx] then (true, bits[idx := false]) else (false, bits)
  }

  /** A claim takes a free slot, marks only it used, and fails only when every slot is used. */
  lemma ScanAndFlipEffect(bits: seq<bool>)
    ensures ScanAndFlip(bits).0.None? <==> forall j :: 0 <= j < |bits| ==> bits[j]
    ensures ScanAndFlip(bits).0.None? ==> ScanAndFlip(bits).1 == bits
    ensures ScanAndFlip(bits).0.Some? ==>
      var i := ScanAndFlip(bits).0.value;
      i < |bits| && !bits[i] && ScanAndFlip(bits).1 == bits[i := true]
      && forall j :: 0 <= j < i ==> bits[j]
  {
  }

  /** One call on the swap manager, as seen by the bitmap. */
  datatype SwapOp = Out | In(idx: nat)

  ghost predicate InRange(ops: seq<SwapOp>, n: nat) {
    forall c :: 0 <= c < |ops| && ops[c].In? ==> ops[c].idx < n
  }

  function Step(bits: seq<bool>, op: SwapOp): (r: seq<bool>)
    requires op.In? ==> op.idx < |bits|
    ensures |r| == |bits|
  {
    match op
    case Out => ScanAndFlip(bits).1
    case In(idx) => TestAndClear(bits, idx).1
  }

  /** The bitmap after running ops from bits, in order. */
  function Run(bits: seq<bool>, ops: seq<SwapOp>): (r: seq<bool>)
    requires InRange(ops, |bits|)
    ensures |r| == |bits|
  {
    if |ops| == 0 then bits
    else
      assert InRange(ops[..|ops| - 1], |bits|);
      Step(Run(bits, ops[..|ops| - 1]), ops[|ops| - 1])
  }

  lemma {:induction false} RunPrefix(bits: seq<bool>, ops: seq<SwapOp>, c: nat)
    requires InRange(ops, |bits|) && c < |ops|
    ensures InRange(ops[..c], |bits|) && InRange(ops[..c + 1], |bits|)
    ensures Run(bits, ops[..c + 1]) == Step(Run(bits, ops[..c]), ops[c])
  {
    assert ops[..c + 1][..c] == ops[..c];
  }

  /** A slot claimed by a swap_out is not claimed by any later swap_out unless a swap_in of
      that slot comes in between. */
  lemma {:induction false} NoDoubleClaim(bits: seq<bool>, ops: seq<SwapOp>, a: nat, b: nat, idx: nat)
    requires InRange(ops, |bits|) && a < b < |ops|
    requires ops[a] == Out && ops[b] == Out
    requires ScanAndFlip(Run(bits, ops[..a])).0 == Some(idx)
    requires forall c :: a < c < b ==> ops[c] != In(idx)
    ensures ScanAndFlip(Run(bits, ops[..b])).0 != Some(idx)
  {
    RunPrefix(bits, ops, a);
    StaysUsed(bits, ops, a + 1, b, idx);
  }

  /** Once slot idx is used it stays used until a swap_in of idx. */
  lemma {:induction false} StaysUsed(bits: seq<bool>, ops: seq<SwapOp>, a: nat, b: nat, idx: nat)
    requires InRange(ops, |bits|) && a <= b <= |ops|
    requires InRange(ops[..a], |bits|)
    requires idx < |bits| && Run(bits, ops[..a])[idx]
    requires forall c :: a <= c < b ==> ops[c] != In(idx)
    ensures InRange(ops[..b], |bits|) && Run(bits, ops[..b])[idx]
  {
    if a < b {
      StaysUsed(bits, ops, a, b - 1, idx);
      RunPrefix(bits, ops, b - 1);
    }
  }
}
