/** Word-pattern construction: the fill byte, the byte lanes of a machine word,
    and the two ways memset.c replicates the byte across a word (the unrolled
    32-bit version and the doubling loop bounded by the word size). */
module Pattern {

  /** `c & 0xff` for a C `int` in two's complement: the low eight bits. Dafny's
      `%` is Euclidean, so this is also right for negative `c`. */
  function FillByte(c: int): bv8 {
    (c % 256) as bv8
  }

  /** Byte lane `j` of a word, lane 0 being the least significant byte. A word
      store writes lane `j` to the `j`-th byte from the pointer. */
  function Lane(x: bv64, j: nat): bv8
    requires j < 8
  {
    match j
    case 0 => (x & 0xFF) as bv8
    case 1 => ((x >> 8) & 0xFF) as bv8
    case 2 => ((x >> 16) & 0xFF) as bv8
    case 3 => ((x >> 24) & 0xFF) as bv8
    case 4 => ((x >> 32) & 0xFF) as bv8
    case 5 => ((x >> 40) & 0xFF) as bv8
    case 6 => ((x >> 48) & 0xFF) as bv8
    case _ => ((x >> 56) & 0xFF) as bv8
  }

  /** The low `n` lanes of `x` hold `b` and every higher lane is zero, so `x`
      fits in `8 * n` bits. */
  ghost predicate Replicated(x: bv64, b: bv8, n: nat) {
    forall j :: 0 <= j < 8 ==> Lane(x, j) == if j < n then b else 0
  }

  /** The word widths a platform may report: powers of two from 8 to 64. */
  predicate ValidWordBits(wordBits: nat) {
    wordBits == 8 || wordBits == 16 || wordBits == 32 || wordBits == 64
  }

  /** Bytes per word for a valid word width: 1, 2, 4 or 8. */
  predicate ValidWordBytes(bytesPerWord: nat) {
    bytesPerWord == 1 || bytesPerWord == 2 || bytesPerWord == 4 || bytesPerWord == 8
  }

  /** `1 << n` */
  function Pow2(n: nat): nat {
    if n == 0 then 1 else 2 * Pow2(n - 1)
  }

  /** An explicit OR of `n` shifted copies of `b`; only used to carry the lane
      proofs. */
  function Spread(b: bv8, n: nat): bv64
    requires n == 1 || n == 2 || n == 4 || n == 8
  {
    var y := b as bv64;
    if n == 1 then y
    else if n == 2 then y | (y << 8)
    else if n == 4 then y | (y << 8) | (y << 16) | (y << 24)
    else y | (y << 8) | (y << 16) | (y << 24) | (y << 32) | (y << 40) | (y << 48) | (y << 56)
  }

  /** Lanes determine the word: a replicated word is the spread of its byte. */
  lemma ReplicatedIsSpread(x: bv64, b: bv8, n: nat)
    requires n == 1 || n == 2 || n == 4 || n == 8
    requires Replicated(x, b, n)
    ensures x == Spread(b, n)
  {
    assert Lane(x, 0) == b;
    assert Lane(x, 1) == if 1 < n then b else 0;
    assert Lane(x, 2) == if 2 < n then b else 0;
    assert Lane(x, 3) == if 3 < n then b else 0;
    assert Lane(x, 4) == if 4 < n then b else 0;
    assert Lane(x, 5) == if 5 < n then b else 0;
    assert Lane(x, 6) == if 6 < n then b else 0;
    assert Lane(x, 7) == if 7 < n then b else 0;
  }

  lemma SpreadIsReplicated(b: bv8, n: nat)
    requires n == 1 || n == 2 || n == 4 || n == 8
    ensures Replicated(Spread(b, n), b, n)
  {
    var x := Spread(b, n);
    forall j | 0 <= j < 8
      ensures Lane(x, j) == if j < n then b else 0
    {
    }
  }

  /** One step of the doubling construction: OR-ing a word
      whose low `n` lanes hold `b` with itself shifted up by `n` lanes gives a
      word whose low `2 * n` lanes hold `b`. */
  lemma DoubleStep(x: bv64, b: bv8, n: nat, shift: nat)
    requires n == 1 || n == 2 || n == 4
    requires shift == 8 * n
    requires x == Spread(b, n)
    ensures x | (x << shift) == Spread(b, 2 * n)
  {
    if n == 1 {
      assert shift == 8;
    } else if n == 2 {
      assert shift == 16;
    } else {
      assert shift == 32;
    }
  }

  lemma PowersOfTwo(i: nat)
    requires 3 <= i <= 6
    ensures Pow2(i - 3) == if i == 3 then 1 else if i == 4 then 2 else if i == 5 then 4 else 8
    ensures Pow2(i) == 8 * Pow2(i - 3)
  {
  }

  /** The unrolled 32-bit pattern: the fill byte, OR-ed with itself shifted
      by 8 and then by 16, computed in a 32-bit unsigned word. */
  function Pattern32(c: int): (x: bv32)
    ensures Replicated(x as bv64, FillByte(c), 4)
  {
    var x0 := FillByte(c) as bv32;
    var x1 := x0 | (x0 << 8);
    var x2 := x1 | (x1 << 16);
    SpreadIsReplicated(FillByte(c), 4);
    assert x2 as bv64 == Spread(FillByte(c), 4);
    x2
  }

  /** The 32-bit pattern of 0xAB is 0xABABABAB, and a 16-bit word whose two
      lanes hold 0xFF (what the doubling loop yields for a 16-bit word) is
      0xFFFF. */
  lemma PatternExamples(x: bv64)
    requires Replicated(x, 0xFF, 2)
    ensures Pattern32(0xAB) == 0xABAB_ABAB
    ensures x == 0xFFFF
  {
    ReplicatedIsSpread(x, 0xFF, 2);
  }

  /** The generic doubling loop: from `i = 3`, while `1 << i` is below the
      word size, OR the word with itself shifted by `1 << i` and increment
      `i`; then bytes per word is `1 << (i - 3)`. It stops with `1 << i` equal
      to the word size, every lane of the word holding the fill byte, and
      nothing above the word. */
  method BuildPattern(c: int, wordBits: nat) returns (x: bv64, i: nat, bytesPerWord: nat)
    requires ValidWordBits(wordBits)
    ensures i >= 3 && Pow2(i) == wordBits
    ensures bytesPerWord == Pow2(i - 3) == wordBits / 8
    ensures ValidWordBytes(bytesPerWord)
    ensures Replicated(x, FillByte(c), bytesPerWord)
  {
    var b := FillByte(c);
    x := b as bv64;
    i := 3;
    while Pow2(i) < wordBits
      invariant i == 3 || i == 4 || i == 5 || i == 6
      invariant Pow2(i) <= wordBits
      invariant x == Spread(b, Pow2(i - 3))
      decreases wordBits - Pow2(i)
    {
      PowersOfTwo(i);
      var shift := Pow2(i);
      DoubleStep(x, b, Pow2(i - 3), shift);
      x := x | (x << shift);
      i := i + 1;
    }
    bytesPerWord := Pow2(i - 3);
    SpreadIsReplicated(b, bytesPerWord);
  }
}
