/** How the unaligned fills split a range into a byte prologue up to the next
    word boundary, whole words, and a byte epilogue, with `size_t` arithmetic
    modelled as arithmetic modulo 2^64. */
module Partition {
  import opened Pattern

  /** `size_t` on a 64-bit target. */
  const SizeModulus: nat := 0x1_0000_0000_0000_0000
  const SizeMax: nat := SizeModulus - 1

  /** `(addr & (bytes_per_word-1)) == 0`: for a power-of-two word size the
      mask keeps the remainder modulo the word size. */
  predicate Aligned(addr: nat, bytesPerWord: nat)
    requires ValidWordBytes(bytesPerWord)
  {
    addr % bytesPerWord == 0
  }

  /** Bytes from `addr` up to the next multiple of `bytesPerWord` (0 when
      `addr` is already aligned). */
  function Dist(addr: nat, bytesPerWord: nat): (d: nat)
    requires ValidWordBytes(bytesPerWord)
    ensures d < bytesPerWord
    ensures Aligned(addr + d, bytesPerWord)
  {
    if Aligned(addr, bytesPerWord) then 0 else bytesPerWord - addr % bytesPerWord
  }

  /** Moving one byte forward from an unaligned address brings the next
      boundary one byte closer. */
  lemma DistStep(addr: nat, bytesPerWord: nat)
    requires ValidWordBytes(bytesPerWord)
    requires !Aligned(addr, bytesPerWord)
    ensures Dist(addr + 1, bytesPerWord) == Dist(addr, bytesPerWord) - 1
  {
    if bytesPerWord == 2 {
      assert addr == 2 * (addr / 2) + 1;
    } else if bytesPerWord == 4 {
      assert addr == 4 * (addr / 4) + addr % 4;
    } else if bytesPerWord == 8 {
      assert addr == 8 * (addr / 8) + addr % 8;
    }
  }

  /** `Dist` is the distance to the NEXT boundary: no address before it is
      aligned. */
  lemma {:induction false} DistIsNextBoundary(addr: nat, a: nat, bytesPerWord: nat)
    requires ValidWordBytes(bytesPerWord)
    requires addr <= a < addr + Dist(addr, bytesPerWord)
    ensures !Aligned(a, bytesPerWord)
    decreases a - addr
  {
    if a > addr {
      DistStep(addr, bytesPerWord);
      DistIsNextBoundary(addr + 1, a, bytesPerWord);
    }
  }

  /** The prologue loop as written, returning the number of bytes stored and
      `sz` after the loop. Its condition checks alignment and then tests `sz`
      with a post-decrement; the decrement also runs when `sz` is already 0,
      and then `sz` wraps to SIZE_MAX. */
  function PrologueAsWritten(addr: nat, sz: nat, bytesPerWord: nat): (nat, nat)
    requires ValidWordBytes(bytesPerWord)
    requires sz < SizeModulus
    decreases sz
  {
    if Aligned(addr, bytesPerWord) then (0, sz)
    else if sz == 0 then (0, (sz - 1) % SizeModulus)
    else
      var (n, rest) := PrologueAsWritten(addr + 1, sz - 1, bytesPerWord);
      (n + 1, rest)
  }

  /** The as-written prologue stops at the next boundary when the length
      reaches it; otherwise it stores every byte of the range and leaves
      `sz` at SIZE_MAX. */
  lemma {:induction false} PrologueAsWrittenResult(addr: nat, sz: nat, bytesPerWord: nat)
    requires ValidWordBytes(bytesPerWord)
    requires sz < SizeModulus
    ensures Aligned(addr, bytesPerWord) || sz >= Dist(addr, bytesPerWord) ==>
      PrologueAsWritten(addr, sz, bytesPerWord) == (Dist(addr, bytesPerWord), sz - Dist(addr, bytesPerWord))
    ensures !(Aligned(addr, bytesPerWord) || sz >= Dist(addr, bytesPerWord)) ==>
      PrologueAsWritten(addr, sz, bytesPerWord) == (sz, SizeMax)
    decreases sz
  {
    if !Aligned(addr, bytesPerWord) && sz > 0 {
      DistStep(addr, bytesPerWord);
      PrologueAsWrittenResult(addr + 1, sz - 1, bytesPerWord);
    }
  }

  /** The prologue as evidently intended: `sz` is decremented only when a
      byte is stored. */
  function PrologueFixed(addr: nat, sz: nat, bytesPerWord: nat): (nat, nat)
    requires ValidWordBytes(bytesPerWord)
    decreases sz
  {
    if Aligned(addr, bytesPerWord) || sz == 0 then (0, sz)
    else
      var (n, rest) := PrologueFixed(addr + 1, sz - 1, bytesPerWord);
      (n + 1, rest)
  }

  /** The corrected prologue stores the distance to the next boundary, or the
      whole length if that is shorter, and leaves the rest of the length. */
  lemma {:induction false} PrologueFixedResult(addr: nat, sz: nat, bytesPerWord: nat)
    requires ValidWordBytes(bytesPerWord)
    ensures PrologueFixed(addr, sz, bytesPerWord).0 ==
      if sz < Dist(addr, bytesPerWord) then sz else Dist(addr, bytesPerWord)
    ensures PrologueFixed(addr, sz, bytesPerWord).0 + PrologueFixed(addr, sz, bytesPerWord).1 == sz
    decreases sz
  {
    if !Aligned(addr, bytesPerWord) && sz > 0 {
      DistStep(addr, bytesPerWord);
      PrologueFixedResult(addr + 1, sz - 1, bytesPerWord);
    }
  }

  /** Bytes stored by the prologue, whole words stored by the main loop, and
      bytes stored by the epilogue. */
  datatype Phases = Phases(prologue: nat, words: nat, tail: nat) {
    /** Total bytes written. */
    function Length(bytesPerWord: nat): nat {
      prologue + words * bytesPerWord + tail
    }
  }

  /** On `size_t` values the masks and shifts of the source are remainders
      and quotients by the power-of-two word size, and `0 - 1` wraps to
      SIZE_MAX; the model writes them as `%`, `/` and `% SizeModulus`. */
  lemma SizeArithmetic(sz: bv64)
    ensures sz & 1 == sz % 2 && sz >> 1 == sz / 2
    ensures sz & 3 == sz % 4 && sz >> 2 == sz / 4
    ensures sz & 7 == sz % 8 && sz >> 3 == sz / 8
    ensures (0 as bv64) - 1 == 0xFFFF_FFFF_FFFF_FFFF
  {
  }

  /** Dividing a length into whole words and a remainder loses nothing. */
  lemma DivModSplit(sz: nat, bytesPerWord: nat)
    requires ValidWordBytes(bytesPerWord)
    ensures (sz / bytesPerWord) * bytesPerWord + sz % bytesPerWord == sz
  {
    if bytesPerWord == 2 {
      assert (sz / 2) * 2 + sz % 2 == sz;
    } else if bytesPerWord == 4 {
      assert (sz / 4) * 4 + sz % 4 == sz;
    } else if bytesPerWord == 8 {
      assert (sz / 8) * 8 + sz % 8 == sz;
    }
  }

  /** A split that divides the length left after the prologue into words
      and a tail covers the prologue plus that length. */
  lemma DivModLength(n: nat, rest: nat, bytesPerWord: nat)
    requires ValidWordBytes(bytesPerWord)
    ensures Phases(n, rest / bytesPerWord, rest % bytesPerWord).Length(bytesPerWord) == n + rest
  {
  }

  /** The split the unaligned routines compute: the prologue, then
      the tail (length modulo the word size) taken before the length is
      divided down to a word count. */
  function PhasesAsWritten(addr: nat, sz: nat, bytesPerWord: nat): Phases
    requires ValidWordBytes(bytesPerWord)
    requires sz < SizeModulus
  {
    var (n, rest) := PrologueAsWritten(addr, sz, bytesPerWord);
    Phases(n, rest / bytesPerWord, rest % bytesPerWord)
  }

  /** The same split with the corrected prologue. It partitions the range
      exactly: the prologue is shorter than a word and ends on a boundary
      unless it used up the whole length, and the epilogue is shorter than a
      word. */
  function PhasesFixed(addr: nat, sz: nat, bytesPerWord: nat): (p: Phases)
    requires ValidWordBytes(bytesPerWord)
    ensures p.Length(bytesPerWord) == sz
    ensures p.prologue < bytesPerWord && p.tail < bytesPerWord
    ensures p.prologue == sz || Aligned(addr + p.prologue, bytesPerWord)
    ensures p.words > 0 || p.tail > 0 ==> Aligned(addr + p.prologue, bytesPerWord)
  {
    PrologueFixedResult(addr, sz, bytesPerWord);
    var (n, rest) := PrologueFixed(addr, sz, bytesPerWord);
    Phases(n, rest / bytesPerWord, rest % bytesPerWord)
  }

  /** `PhasesFixed` is the corrected prologue followed by the division of
      what it leaves. */
  lemma PhasesFixedOf(addr: nat, sz: nat, bytesPerWord: nat, n: nat, rest: nat)
    requires ValidWordBytes(bytesPerWord)
    requires PrologueFixed(addr, sz, bytesPerWord) == (n, rest)
    ensures PhasesFixed(addr, sz, bytesPerWord) == Phases(n, rest / bytesPerWord, rest % bytesPerWord)
  {
  }

  /** The code as written splits the range exactly as intended if and only if
      the start is aligned or the length reaches the next boundary. */
  lemma AsWrittenMatchesFixed(addr: nat, sz: nat, bytesPerWord: nat)
    requires ValidWordBytes(bytesPerWord)
    requires sz < SizeModulus
    ensures (Aligned(addr, bytesPerWord) || sz >= Dist(addr, bytesPerWord)) <==>
      PhasesAsWritten(addr, sz, bytesPerWord) == PhasesFixed(addr, sz, bytesPerWord)
  {
    PrologueAsWrittenResult(addr, sz, bytesPerWord);
    PrologueFixedResult(addr, sz, bytesPerWord);
    if !(Aligned(addr, bytesPerWord) || sz >= Dist(addr, bytesPerWord)) {
      assert PhasesAsWritten(addr, sz, bytesPerWord).words == SizeMax / bytesPerWord > 0;
      assert PhasesFixed(addr, sz, bytesPerWord).words == 0;
    }
  }

  /** Otherwise `sz` wraps to SIZE_MAX in the prologue, and the main loop and
      epilogue write SIZE_MAX bytes past the prologue: far beyond the range. */
  lemma AsWrittenOverrun(addr: nat, sz: nat, bytesPerWord: nat)
    requires ValidWordBytes(bytesPerWord)
    requires sz < SizeModulus
    requires !Aligned(addr, bytesPerWord) && sz < Dist(addr, bytesPerWord)
    ensures PhasesAsWritten(addr, sz, bytesPerWord).Length(bytesPerWord) == sz + SizeMax
  {
    PrologueAsWrittenResult(addr, sz, bytesPerWord);
  }

  /** The smallest instance: a zero-length fill from address 1 with 4-byte
      words stores 2^62 - 1 words and 3 trailing bytes. */
  lemma ZeroLengthMisalignedOverrun()
    ensures PhasesAsWritten(1, 0, 4) == Phases(0, 0x3FFF_FFFF_FFFF_FFFF, 3)
  {
  }

  /** The worked example of the source comment: start 2, length 7, 4-byte
      words gives prologue bytes 2 and 3, one word at 4..7 and the epilogue
      byte 8. */
  lemma WorkedExample()
    ensures PhasesAsWritten(2, 7, 4) == PhasesFixed(2, 7, 4) == Phases(2, 1, 1)
  {
  }
}
