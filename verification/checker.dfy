/** The oracle of `check_memset`: after a fill routine has been called on
    `buffer + unaligned` with length `BUFFER_LEN - 2*unaligned`, scan the
    buffer for the first byte that differs from the fill value. */
module Checker {
  import opened Memory

  const BufferLen: nat := 4096

  /** The inner scan of the checker: walking up from `lo`, the first index
      whose byte differs from `v`, plus one, or 0 when every byte of
      `[lo, hi)` equals `v`. */
  function FirstMismatch(buf: seq<bv8>, v: bv8, lo: nat, hi: int): (r: nat)
    requires hi <= |buf|
    ensures r == 0 <==> forall i :: lo <= i < hi ==> buf[i] == v
    ensures r != 0 ==> lo < r <= hi && buf[r - 1] != v
    ensures r != 0 ==> forall i :: lo <= i < r - 1 ==> buf[i] == v
    decreases hi - lo
  {
    if lo >= hi then 0
    else if buf[lo] != v then lo + 1
    else FirstMismatch(buf, v, lo + 1, hi)
  }

  /** One fill value of `check_memset` as written: the scan covers
      `[unaligned, BUFFER_LEN - 2*unaligned)`. */
  function CheckMemset(buf: seq<bv8>, v: bv8, unaligned: nat): (r: nat)
    requires |buf| == BufferLen
    ensures r == 0 <==> forall i :: unaligned <= i < BufferLen - 2 * unaligned ==> buf[i] == v
    ensures r != 0 ==> unaligned < r <= BufferLen - 2 * unaligned && buf[r - 1] != v
    ensures r != 0 ==> forall i :: unaligned <= i < r - 1 ==> buf[i] == v
  {
    FirstMismatch(buf, v, unaligned, BufferLen - 2 * unaligned)
  }

  /** The scan over the whole filled range `[unaligned, BUFFER_LEN - unaligned)`. */
  function CheckMemsetFull(buf: seq<bv8>, v: bv8, unaligned: nat): (r: nat)
    requires |buf| == BufferLen
    ensures r == 0 <==> forall i :: unaligned <= i < BufferLen - unaligned ==> buf[i] == v
    ensures r != 0 ==> unaligned < r <= BufferLen - unaligned && buf[r - 1] != v
    ensures r != 0 ==> forall i :: unaligned <= i < r - 1 ==> buf[i] == v
  {
    FirstMismatch(buf, v, unaligned, BufferLen - unaligned)
  }

  /** A fill that meets the shared contract passes both scans. */
  lemma CorrectFillPasses(before: seq<bv8>, after: seq<bv8>, v: bv8, unaligned: nat)
    requires |before| == BufferLen && 2 * unaligned <= BufferLen
    requires FilledExactly(before, after, unaligned, BufferLen - 2 * unaligned, v)
    ensures CheckMemset(after, v, unaligned) == 0
    ensures CheckMemsetFull(after, v, unaligned) == 0
  {
  }

  /** For a fill that writes nothing outside its range, the full scan passes
      exactly when the whole range holds the fill value. */
  lemma FullCheckIsExact(before: seq<bv8>, after: seq<bv8>, v: bv8, unaligned: nat)
    requires |before| == BufferLen && 2 * unaligned <= BufferLen && |after| == BufferLen
    requires forall k :: 0 <= k < BufferLen && !(unaligned <= k < BufferLen - unaligned) ==> after[k] == before[k]
    ensures CheckMemsetFull(after, v, unaligned) == 0 <==>
      FilledExactly(before, after, unaligned, BufferLen - 2 * unaligned, v)
  {
  }

  /** With `unaligned == 1` the scan as written stops at index 4093, so a fill
      that gets the last byte of its range (index 4094) wrong still passes it;
      the full scan reports that byte. */
  lemma CheckMemsetMissesLastByte(before: seq<bv8>, v: bv8)
    requires |before| == BufferLen
    ensures var bad := Fill(before, 1, BufferLen - 2, v)[BufferLen - 2 := v + 1];
      && !FilledExactly(before, bad, 1, BufferLen - 2, v)
      && CheckMemset(bad, v, 1) == 0
      && CheckMemsetFull(bad, v, 1) == BufferLen - 1
  {
    var bad := Fill(before, 1, BufferLen - 2, v)[BufferLen - 2 := v + 1];
    assert bad[BufferLen - 2] != v;
    assert forall i :: 1 <= i < BufferLen - 2 ==> bad[i] == v;
  }
}
