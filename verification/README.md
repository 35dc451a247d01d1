# memset variants, modelled in Dafny

This project models `memset.c`, a graded series of byte-fill routines. All of
them share the contract of the C library's `memset`: set the bytes
`[s, s + sz)` to `c & 0xff` and return `s`. The routines are:

- `bytewise_memset`: one byte store per byte.
- `wordwise_32_memset`: stores a 32-bit pattern; asserts that `sz` is a multiple of 4.
- `wordwise_memset`: builds the pattern with a doubling loop bounded by the word size,
  and asserts that `sz` is a multiple of the word size.
- `wordwise_32_unaligned_memset` and `wordwise_unaligned_memset`: split the range into a
  byte prologue up to the next word boundary, whole words, and a byte epilogue.

The project also models `check_memset`, the oracle that reports the first
byte that differs from the fill value.

Memory is a `seq<bv8>` indexed by address. A routine takes the memory and
returns the memory after the call, so "aligned" means `address % bytesPerWord == 0`.
A word store writes lane `j` of the word, `(x >> 8*j) & 0xff`, to address `p + j`.
Every word pattern is proved to hold the fill byte in every lane, so the
choice of byte order does not affect any result. In the unaligned routines,
where the prologue's decrement can wrap, `size_t` is a natural number below
2^64 and the wrap-around is written out. The byte-wise and aligned word-wise
routines take the length as an unbounded natural number. Their loops only
count down to zero, so they never wrap.

Modules:

- `pattern.dfy` (`Pattern`): the fill byte, the byte lanes of a word, and the
  32-bit and doubling pattern builders.
- `memory.dfy` (`Memory`): the shared fill contract `FilledExactly`, its
  reference definition `Fill`, a word store, and the byte and word store loops.
- `partition.dfy` (`Partition`): the prologue/words/epilogue split. It holds
  the prologue loop as written, with the `size_t` wrap, and the corrected one.
- `memset.dfy` (`Memset`): the five routines, plus the corrected unaligned fill.
- `checker.dfy` (`Checker`): the per-value scan of `check_memset`.

## Model

| member | source | states |
|---|---|---|
| `Pattern.Pattern32` | memset.c:57-61 | After `x = c & 0xff; x \|= x << 8; x \|= x << 16` in a 32-bit word, each of the four byte lanes holds `c & 0xff`. Nothing is set above bit 31. |
| `Pattern.DoubleStep` | memset.c:93-94 | One step `x \|= x << (1<<i)` turns a word whose low `n` lanes hold the byte into one whose low `2n` lanes hold it, for `1<<i == 8n`. |
| `Pattern.BuildPattern` | memset.c:92-100 | The doubling loop stops with `1<<i == __WORDSIZE` and `bytes_per_word == 1<<(i-3) == __WORDSIZE/8`. Every lane of the word then holds the fill byte and nothing lies above the word. |
| `Pattern.PatternExamples` | memset.c:57-61 | The 32-bit pattern of 0xAB is 0xABABABAB. A word whose two low lanes hold 0xFF, with nothing above them, is 0xFFFF. |
| `Memory.Fill` | memset.c:1-4 | Reference definition of the memset contract: the result satisfies `FilledExactly`. The range holds the byte, every other byte is unchanged, and the length is kept. |
| `Memory.FilledExactlyIsFill` | memset.c:1-4 | Any memory that meets the contract is the reference fill, so the contract determines the result. |
| `Memory.FillIdempotent` | memset.c:1-4 | Filling the same range with the same byte twice gives the same memory as filling it once. |
| `Memory.ZeroLengthFill` | memset.c:43-44 | A fill of length 0 leaves the memory unchanged. |
| `Memory.StoreWord` | memset.c:75 | A word store at `p` writes lane `j` of the word to byte `p + j` for each of its bytes and changes nothing else. |
| `Memory.StoreReplicatedWord` | memset.c:75 | Storing a word whose lanes all hold `b` is the same as filling that word's bytes with `b`. |
| `Memory.StoreBytes` | memset.c:43-44 | `while (n--) *p++ = x;` fills exactly `[p, p + n)` with `x` and ends with the pointer at `p + n`. |
| `Memory.StoreWords` | memset.c:74-75 | `n` stores of a word whose lanes all hold `b` fill exactly `[p, p + n * bytes_per_word)` with `b`. The pointer ends one past the last word. |
| `Partition.Dist` | memset.c:150 | The distance to the next boundary is less than a word and lands on an aligned address. |
| `Partition.DistIsNextBoundary` | memset.c:150 | No address between the start and that distance is aligned, so the boundary reached is the next one. |
| `Partition.PrologueAsWrittenResult` | memset.c:197-198 | The prologue as written stores the distance to the boundary and leaves `sz - distance` when the start is aligned or `sz` reaches the boundary. Otherwise it stores all `sz` bytes and leaves `sz` at SIZE_MAX. |
| `Partition.PrologueFixedResult` | memset.c:197-198 | With the decrement moved into the loop body, the prologue stores the smaller of `sz` and the distance to the boundary. Stored plus remaining equals `sz`. |
| `Partition.PhasesFixed` | memset.c:115-139 | Prologue + words × bytes_per_word + tail equals `sz`, with the prologue and the tail both shorter than a word. The words start on a boundary, and the prologue stops early only when it has used up the length. |
| `Partition.AsWrittenMatchesFixed` | memset.c:197-199 | The as-written split equals the intended split if and only if the start is aligned or `sz` reaches the next boundary. |
| `Partition.AsWrittenOverrun` | memset.c:197-205 | On a misaligned start with `sz` short of the boundary, the three loops as written cover `sz + SIZE_MAX` bytes. |
| `Partition.ZeroLengthMisalignedOverrun` | memset.c:150-168 | With 4-byte words, a zero-length fill from address 1 runs the word loop 2^62 - 1 times and then stores 3 epilogue bytes. |
| `Partition.WorkedExample` | memset.c:115-139 | Start 2, length 7, 4-byte words: prologue 2 bytes (2, 3), one word (4..7), epilogue 1 byte (8), as written and as intended. |
| `Partition.SizeArithmetic` | memset.c:157-165 | On 64-bit values, `sz & (2^k - 1)` is `sz % 2^k` and `sz >> k` is `sz / 2^k` for k = 1, 2, 3. `0 - 1` wraps to SIZE_MAX. |
| `Memset.BytewiseMemset` | memset.c:35-46 | Fills exactly `[s, s + sz)` with `c & 0xff`, writes nothing else, and returns `s`. |
| `Memset.Wordwise32Memset` | memset.c:53-77 | Aborts if and only if `sz` is not a multiple of 4. Otherwise it makes `sz / 4` word stores, fills exactly `[s, s + sz)` and returns `s`. |
| `Memset.WordwiseMemset` | memset.c:86-109 | Aborts if and only if `sz` is not a multiple of `__WORDSIZE/8`. Otherwise it makes `sz / bytes_per_word` word stores, fills exactly `[s, s + sz)` and returns `s`. |
| `Memset.PrologueLoopAsWritten` | memset.c:197-198 | The prologue loop, with its post-decrement in the condition, agrees with `PrologueAsWritten`. It fills exactly the bytes it stored. |
| `Memset.PrologueLoopFixed` | memset.c:197-198 | The corrected prologue loop agrees with `PrologueFixed` and fills exactly the bytes it stored. |
| `Memset.BulkAndEpilogue` | memset.c:199-210 | `tail` is the length modulo the word size, taken before the shift. The word loop plus the epilogue fill exactly the remaining length. |
| `Memset.AsWrittenCoversRequest` | memset.c:197-210 | The as-written split never covers fewer than `sz` bytes. It covers exactly `sz` when the start is aligned or `sz` reaches the boundary. |
| `Memset.SplicedFillAsWritten` | memset.c:196-210 | The three phases as written split as `PhasesAsWritten` and fill exactly the bytes that split covers. |
| `Memset.Wordwise32UnalignedMemset` | memset.c:140-176 | Returns `s`. When the start is aligned or `sz` reaches the boundary it fills exactly `[s, s + sz)`. Otherwise it writes `sz + SIZE_MAX` bytes from `s`. |
| `Memset.WordwiseUnalignedMemset` | memset.c:183-213 | The same as the 32-bit routine, for any word width from 8 to 64 bits. |
| `Memset.UnalignedMemsetFixed` | memset.c:183-213 | With the corrected prologue, every start and length fills exactly `[s, s + sz)`, split as `PhasesFixed`. |
| `Checker.FirstMismatch` | memset.c:243-245 | The scan returns 0 if and only if every byte in the range equals the value. Otherwise it returns the first mismatching index plus 1. |
| `Checker.CheckMemset` | memset.c:236-249 | For one fill value, returns 0 exactly when every byte in `[unaligned, BUFFER_LEN - 2*unaligned)` equals it. Otherwise it returns the first mismatching index in that range plus 1. |
| `Checker.CheckMemsetFull` | memset.c:242-245 | The same scan over the whole filled range `[unaligned, BUFFER_LEN - unaligned)`: 0 exactly when every byte in it equals the value, otherwise the first mismatching index plus 1. |
| `Checker.CorrectFillPasses` | memset.c:227-249 | A fill that meets the memset contract on the checker's range passes both scans. |
| `Checker.FullCheckIsExact` | memset.c:227-230 | For a fill that writes nothing outside its range, the full scan passes if and only if the fill meets the contract. |
| `Checker.CheckMemsetMissesLastByte` | memset.c:242-243 | With `unaligned == 1`, a fill whose byte 4094 is wrong breaks the contract but passes the scan as written. The full scan reports it as 4095. |

## Left out

- `main` and the `CHECK` macro: console output and an unconditional exit status.
- The platform `memset` that `main` uses to validate the checker: a library call whose code is not part of this model.
- The loop over fill values in `check_memset`. Its `char` loop variable gives 0..127 and stops when `char` is signed, and never ends when `char` is unsigned. The model gives the scan for one fill value, applied to the buffer the fill produced.
- Pointer casts, strict aliasing and alignment traps: addresses are indices into the memory sequence. `(unsigned int)pp & mask` is written `pp % bytesPerWord`. Truncating the address to 32 bits keeps its low bits, so the mask value is unchanged.
- The conversion of `c & 0xff` to a possibly signed `char`: the stored byte is a `bv8`. `FillByte` takes `c` modulo 256, which equals `c & 0xff` on a two's complement `int`.
- The `&` and `>>` on `size_t` are written `%` and `/`. `Partition.SizeArithmetic` shows they agree on 64-bit values; it is not linked to the integer form by proof.
- `size_t` is fixed at 64 bits. On a target with a 32-bit `size_t`, SIZE_MAX is 2^32 - 1 and the overrun has that length instead.
- Byte order: a word store is modelled little-endian. Every pattern has equal lanes, so no result depends on it.
- `assert` under `NDEBUG`: the model always checks it and aborts. Without the check, the aligned word-wise routines would silently leave the last `sz % bytes_per_word` bytes unwritten.
- Performance claims (word stores being faster, compiler optimisation of the loops).
- Memset.Wordwise32UnalignedMemset and Memset.WordwiseUnalignedMemset require the memory to extend as far as the code as written actually writes: `s + sz` in the good case, `s + sz + SIZE_MAX` otherwise. The code does not degrade to a byte-wise fill for a tiny misaligned request. Instead it overruns, as the Findings below record.

## Findings

| source | as written | input that shows it | evidently intended | confidence | as-written member | corrected member |
|---|---|---|---|---|---|---|
| memset.c:150 | `while (((unsigned int)pp & 3) && sz--)` decrements `sz` even when it is already 0 | `wordwise_32_unaligned_memset(1, c, 0)`: `sz` wraps to SIZE_MAX and the word loop stores 2^62 - 1 words | decrement only when a byte is stored, so the prologue stops when the length is used up | high (not executed) | `Partition.ZeroLengthMisalignedOverrun` | `Memset.UnalignedMemsetFixed` |
| memset.c:197 | `while (((unsigned int)pp & (bytes_per_word-1)) && sz--)` has the same post-decrement | any misaligned start with `sz` below the distance to the next boundary, such as start 1 and length 2 with 8-byte words | as above | high (not executed) | `Partition.AsWrittenOverrun` | `Memset.UnalignedMemsetFixed` |
| memset.c:243 | the scan stops at `i < BUFFER_LEN - 2*unaligned` | `unaligned == 1` and a fill that gets byte 4094 wrong: the filled range is `[1, 4095)` but the scan ends at 4093 | scan `[unaligned, BUFFER_LEN - unaligned)` | high (not executed) | `Checker.CheckMemsetMissesLastByte` | `Checker.CheckMemsetFull` |
