/** The fill routines of memset.c. Each takes the memory, the start address
    `s`, the fill value `c` and the length `sz`, and returns the memory after
    the call together with the routine's return value, which is always `s`. */
module Memset {
  import opened Pattern
  import opened Memory
  import opened Partition

  /** Result of a routine that begins with an `assert` on its arguments: the
      program aborts, or the routine returns. */
  datatype Outcome = Aborted | Returned(mem: seq<bv8>, ret: nat)

  /** `bytewise_memset`: one byte store per byte of the range. */
  method BytewiseMemset(mem: seq<bv8>, s: nat, c: int, sz: nat) returns (m: seq<bv8>, r: nat)
    requires s + sz <= |mem|
    ensures r == s
    ensures FilledExactly(mem, m, s, sz, FillByte(c))
  {
    var x := FillByte(c);
    var p;
    m, p := StoreBytes(mem, s, x, sz);
    r := s;
  }

  /** `wordwise_32_memset`: asserts that `sz` is a multiple of 4, then performs
      `sz / 4` stores of the 32-bit pattern. The start need not be aligned. */
  method Wordwise32Memset(mem: seq<bv8>, s: nat, c: int, sz: nat) returns (res: Outcome, stores: nat)
    requires s + sz <= |mem|
    ensures res.Aborted? <==> sz % 4 != 0
    ensures res.Returned? ==> res.ret == s && FilledExactly(mem, res.mem, s, sz, FillByte(c))
    ensures res.Returned? ==> stores * 4 == sz
  {
    var x := Pattern32(c);
    if sz % 4 != 0 {
      return Aborted, 0;
    }
    stores := sz / 4;
    var m, p := StoreWords(mem, s, x as bv64, FillByte(c), 4, stores);
    res := Returned(m, s);
  }

  /** `wordwise_memset`: builds the pattern with the doubling loop, asserts that
      `sz` is a multiple of the bytes per word, then performs `sz / bytes_per_word`
      word stores. */
  method WordwiseMemset(mem: seq<bv8>, s: nat, c: int, sz: nat, wordBits: nat)
    returns (res: Outcome, stores: nat)
    requires ValidWordBits(wordBits)
    requires s + sz <= |mem|
    ensures res.Aborted? <==> sz % (wordBits / 8) != 0
    ensures res.Returned? ==> res.ret == s && FilledExactly(mem, res.mem, s, sz, FillByte(c))
    ensures res.Returned? ==> stores * (wordBits / 8) == sz
  {
    var x, i, bytesPerWord := BuildPattern(c, wordBits);
    if sz % bytesPerWord != 0 {
      return Aborted, 0;
    }
    stores := sz / bytesPerWord;
    var m, p := StoreWords(mem, s, x, FillByte(c), bytesPerWord, stores);
    res := Returned(m, s);
  }

  /** The prologue loop as written: its condition tests the alignment, then
      tests `sz` with a post-decrement, which decrements it even when it is
      already 0. */
  method PrologueLoopAsWritten(mem: seq<bv8>, s: nat, b: bv8, sz: nat, bytesPerWord: nat)
    returns (m: seq<bv8>, pp: nat, rest: nat)
    requires ValidWordBytes(bytesPerWord)
    requires sz < SizeModulus
    requires s + sz <= |mem|
    ensures s <= pp && (pp - s, rest) == PrologueAsWritten(s, sz, bytesPerWord)
    ensures FilledExactly(mem, m, s, pp - s, b)
  {
    m, pp, rest := mem, s, sz;
    while !Aligned(pp, bytesPerWord)
      invariant s <= pp && pp - s + rest == sz
      invariant PrologueAsWritten(s, sz, bytesPerWord) ==
        (pp - s + PrologueAsWritten(pp, rest, bytesPerWord).0, PrologueAsWritten(pp, rest, bytesPerWord).1)
      invariant FilledExactly(mem, m, s, pp - s, b)
      decreases rest
    {
      var tested := rest;
      rest := (rest - 1) % SizeModulus;
      if tested == 0 {
        break;
      }
      m := m[pp := b];
      pp := pp + 1;
    }
  }

  /** The prologue loop with the decrement moved from the condition into the
      body, so it runs only when a byte is stored. */
  method PrologueLoopFixed(mem: seq<bv8>, s: nat, b: bv8, sz: nat, bytesPerWord: nat)
    returns (m: seq<bv8>, pp: nat, rest: nat)
    requires ValidWordBytes(bytesPerWord)
    requires s + sz <= |mem|
    ensures s <= pp && (pp - s, rest) == PrologueFixed(s, sz, bytesPerWord)
    ensures FilledExactly(mem, m, s, pp - s, b)
  {
    m, pp, rest := mem, s, sz;
    while !Aligned(pp, bytesPerWord) && rest != 0
      invariant s <= pp && pp - s + rest == sz
      invariant PrologueFixed(s, sz, bytesPerWord) ==
        (pp - s + PrologueFixed(pp, rest, bytesPerWord).0, PrologueFixed(pp, rest, bytesPerWord).1)
      invariant FilledExactly(mem, m, s, pp - s, b)
    {
      m := m[pp := b];
      pp := pp + 1;
      rest := rest - 1;
    }
  }

  /** What follows the prologue in both unaligned routines: the tail is the
      remaining length modulo the word size, the remaining length is then
      divided by the word size, the word loop runs, then the byte epilogue. */
  method BulkAndEpilogue(mem: seq<bv8>, pp: nat, x: bv64, b: bv8, bytesPerWord: nat, sz: nat)
    returns (m: seq<bv8>, words: nat, tail: nat)
    requires ValidWordBytes(bytesPerWord)
    requires Replicated(x, b, bytesPerWord)
    requires pp + sz <= |mem|
    ensures words == sz / bytesPerWord && tail == sz % bytesPerWord
    ensures words * bytesPerWord + tail == sz
    ensures FilledExactly(mem, m, pp, sz, b)
  {
    tail := sz % bytesPerWord;
    words := sz / bytesPerWord;
    DivModSplit(sz, bytesPerWord);
    var wordBytes := words * bytesPerWord;
    assert wordBytes + tail == sz;
    var p;
    m, p := StoreWords(mem, pp, x, b, bytesPerWord, words);
    var m', q := StoreBytes(m, p, b, tail);
    FillConcat(mem, m, m', pp, wordBytes, tail, b);
    m := m';
  }

  /** The length an as-written split covers is never less than the request. */
  lemma AsWrittenCoversRequest(addr: nat, sz: nat, bytesPerWord: nat)
    requires ValidWordBytes(bytesPerWord)
    requires sz < SizeModulus
    ensures PhasesAsWritten(addr, sz, bytesPerWord).Length(bytesPerWord) >= sz
    ensures Aligned(addr, bytesPerWord) || sz >= Dist(addr, bytesPerWord) ==>
      PhasesAsWritten(addr, sz, bytesPerWord).Length(bytesPerWord) == sz
  {
    AsWrittenMatchesFixed(addr, sz, bytesPerWord);
    if !(Aligned(addr, bytesPerWord) || sz >= Dist(addr, bytesPerWord)) {
      AsWrittenOverrun(addr, sz, bytesPerWord);
    }
  }

  /** The three phases as written, shared by both unaligned routines. The
      bytes written are `[s, s + n)` where `n` is the length of the
      as-written split: `sz` when the start is aligned or the range reaches
      the next boundary, and `sz + SIZE_MAX` otherwise. */
  method SplicedFillAsWritten(mem: seq<bv8>, s: nat, x: bv64, b: bv8, bytesPerWord: nat, sz: nat)
    returns (m: seq<bv8>, phases: Phases)
    requires ValidWordBytes(bytesPerWord)
    requires Replicated(x, b, bytesPerWord)
    requires sz < SizeModulus
    requires s + PhasesAsWritten(s, sz, bytesPerWord).Length(bytesPerWord) <= |mem|
    ensures phases == PhasesAsWritten(s, sz, bytesPerWord)
    ensures FilledExactly(mem, m, s, phases.Length(bytesPerWord), b)
  {
    AsWrittenCoversRequest(s, sz, bytesPerWord);
    var pp, rest;
    m, pp, rest := PrologueLoopAsWritten(mem, s, b, sz, bytesPerWord);
    DivModLength(pp - s, rest, bytesPerWord);
    assert pp + rest <= |m|;
    var m', words, tail := BulkAndEpilogue(m, pp, x, b, bytesPerWord, rest);
    FillConcat(mem, m, m', s, pp - s, rest, b);
    m := m';
    phases := Phases(pp - s, words, tail);
  }

  /** `wordwise_32_unaligned_memset` as written. */
  method Wordwise32UnalignedMemset(mem: seq<bv8>, s: nat, c: int, sz: nat)
    returns (m: seq<bv8>, r: nat, phases: Phases)
    requires sz < SizeModulus
    requires s + PhasesAsWritten(s, sz, 4).Length(4) <= |mem|
    ensures r == s && phases == PhasesAsWritten(s, sz, 4)
    ensures FilledExactly(mem, m, s, phases.Length(4), FillByte(c))
    ensures Aligned(s, 4) || sz >= Dist(s, 4) ==> FilledExactly(mem, m, s, sz, FillByte(c))
    ensures !(Aligned(s, 4) || sz >= Dist(s, 4)) ==> phases.Length(4) == sz + SizeMax
  {
    AsWrittenCoversRequest(s, sz, 4);
    if !(Aligned(s, 4) || sz >= Dist(s, 4)) {
      AsWrittenOverrun(s, sz, 4);
    }
    var x := Pattern32(c);
    m, phases := SplicedFillAsWritten(mem, s, x as bv64, FillByte(c), 4, sz);
    r := s;
  }

  /** `wordwise_unaligned_memset` as written, for a word width of `wordBits`. */
  method WordwiseUnalignedMemset(mem: seq<bv8>, s: nat, c: int, sz: nat, wordBits: nat)
    returns (m: seq<bv8>, r: nat, phases: Phases)
    requires ValidWordBits(wordBits)
    requires sz < SizeModulus
    requires s + PhasesAsWritten(s, sz, wordBits / 8).Length(wordBits / 8) <= |mem|
    ensures r == s && phases == PhasesAsWritten(s, sz, wordBits / 8)
    ensures FilledExactly(mem, m, s, phases.Length(wordBits / 8), FillByte(c))
    ensures Aligned(s, wordBits / 8) || sz >= Dist(s, wordBits / 8) ==>
      FilledExactly(mem, m, s, sz, FillByte(c))
    ensures !(Aligned(s, wordBits / 8) || sz >= Dist(s, wordBits / 8)) ==>
      phases.Length(wordBits / 8) == sz + SizeMax
  {
    var x, i, bytesPerWord := BuildPattern(c, wordBits);
    AsWrittenCoversRequest(s, sz, bytesPerWord);
    if !(Aligned(s, bytesPerWord) || sz >= Dist(s, bytesPerWord)) {
      AsWrittenOverrun(s, sz, bytesPerWord);
    }
    m, phases := SplicedFillAsWritten(mem, s, x, FillByte(c), bytesPerWord, sz);
    r := s;
  }

  /** The unaligned fill with the corrected prologue: for every start and
      length it fills exactly `[s, s + sz)`, split as the partition says. */
  method UnalignedMemsetFixed(mem: seq<bv8>, s: nat, c: int, sz: nat, wordBits: nat)
    returns (m: seq<bv8>, r: nat, phases: Phases)
    requires ValidWordBits(wordBits)
    requires s + sz <= |mem|
    ensures r == s && phases == PhasesFixed(s, sz, wordBits / 8)
    ensures FilledExactly(mem, m, s, sz, FillByte(c))
  {
    var x, i, bytesPerWord := BuildPattern(c, wordBits);
    var b := FillByte(c);
    var pp, rest;
    m, pp, rest := PrologueLoopFixed(mem, s, b, sz, bytesPerWord);
    PrologueFixedResult(s, sz, bytesPerWord);
    assert pp - s + rest == sz;
    var m', words, tail := BulkAndEpilogue(m, pp, x, b, bytesPerWord, rest);
    FillConcat(mem, m, m', s, pp - s, rest, b);
    m := m';
    phases := Phases(pp - s, words, tail);
    PhasesFixedOf(s, sz, bytesPerWord, pp - s, rest);
    r := s;
  }
}
