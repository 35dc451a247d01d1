/** Memory as a sequence of bytes indexed by address, the shared contract of
    every fill routine, and the two store loops the routines are built from. */
module Memory {
  import opened Pattern

  /** `after` is `before` with exactly the bytes `[s, s + n)` set to `b`. */
  ghost predicate FilledExactly(before: seq<bv8>, after: seq<bv8>, s: nat, n: nat, b: bv8) {
    && |after| == |before|
    && s + n <= |before|
    && (forall k :: s <= k < s + n ==> after[k] == b)
    && (forall k :: 0 <= k < |before| && !(s <= k < s + n) ==> after[k] == before[k])
  }

  /** Reference definition of a fill: the untouched prefix, `n` copies of the
      byte, the untouched suffix. */
  function Fill(mem: seq<bv8>, s: nat, n: nat, b: bv8): (r: seq<bv8>)
    requires s + n <= |mem|
    ensures FilledExactly(mem, r, s, n, b)
  {
    mem[..s] + seq(n, _ => b) + mem[s + n..]
  }

  /** The shared contract pins the result down: any memory that satisfies it
      is the reference fill. */
  lemma FilledExactlyIsFill(before: seq<bv8>, after: seq<bv8>, s: nat, n: nat, b: bv8)
    requires FilledExactly(before, after, s, n, b)
    ensures after == Fill(before, s, n, b)
  {
    var f := Fill(before, s, n, b);
    assert |after| == |f|;
    forall k | 0 <= k < |after|
      ensures after[k] == f[k]
    {
    }
  }

  /** Filling the same range with the same byte twice leaves the memory as one
      fill does. */
  lemma FillIdempotent(mem: seq<bv8>, s: nat, n: nat, b: bv8)
    requires s + n <= |mem|
    ensures Fill(Fill(mem, s, n, b), s, n, b) == Fill(mem, s, n, b)
  {
    var once := Fill(mem, s, n, b);
    var twice := Fill(once, s, n, b);
    assert |twice| == |once|;
    forall k | 0 <= k < |once|
      ensures twice[k] == once[k]
    {
    }
  }

  /** A zero-length fill writes nothing. */
  lemma ZeroLengthFill(before: seq<bv8>, after: seq<bv8>, s: nat, b: bv8)
    requires FilledExactly(before, after, s, 0, b)
    ensures after == before
  {
    assert |after| == |before|;
    forall k | 0 <= k < |after|
      ensures after[k] == before[k]
    {
    }
  }

  /** Two adjacent fills with the same byte make one fill of the joined range. */
  lemma FillConcat(a: seq<bv8>, m: seq<bv8>, z: seq<bv8>, s: nat, n1: nat, n2: nat, b: bv8)
    requires FilledExactly(a, m, s, n1, b)
    requires FilledExactly(m, z, s + n1, n2, b)
    ensures FilledExactly(a, z, s, n1 + n2, b)
  {
  }

  /** A store of a `bytesPerWord`-byte word at address `p`:
      byte `p + j` receives lane `j` of `x`. */
  function StoreWord(mem: seq<bv8>, p: nat, x: bv64, bytesPerWord: nat): (r: seq<bv8>)
    requires 1 <= bytesPerWord <= 8
    requires p + bytesPerWord <= |mem|
    ensures |r| == |mem|
    ensures forall j :: 0 <= j < bytesPerWord ==> r[p + j] == Lane(x, j)
    ensures forall k :: 0 <= k < |mem| && !(p <= k < p + bytesPerWord) ==> r[k] == mem[k]
  {
    seq(|mem|, k requires 0 <= k < |mem| =>
      if p <= k < p + bytesPerWord then Lane(x, k - p) else mem[k])
  }

  /** Storing a word whose low lanes all hold `b` is a fill of one word's
      worth of bytes with `b`. */
  lemma StoreReplicatedWord(mem: seq<bv8>, p: nat, x: bv64, b: bv8, bytesPerWord: nat)
    requires 1 <= bytesPerWord <= 8
    requires p + bytesPerWord <= |mem|
    requires Replicated(x, b, bytesPerWord)
    ensures FilledExactly(mem, StoreWord(mem, p, x, bytesPerWord), p, bytesPerWord, b)
    ensures StoreWord(mem, p, x, bytesPerWord) == Fill(mem, p, bytesPerWord, b)
  {
    var r := StoreWord(mem, p, x, bytesPerWord);
    forall k | p <= k < p + bytesPerWord
      ensures r[k] == b
    {
      assert r[p + (k - p)] == Lane(x, k - p);
    }
    FilledExactlyIsFill(mem, r, p, bytesPerWord, b);
  }

  /** The byte loop: `n` single-byte stores of `b` at increasing addresses.
      Returns the memory and the pointer after the loop. */
  method StoreBytes(mem: seq<bv8>, p: nat, b: bv8, n: nat) returns (m: seq<bv8>, q: nat)
    requires p + n <= |mem|
    ensures q == p + n
    ensures FilledExactly(mem, m, p, n, b)
  {
    m, q := mem, p;
    var left := n;
    while left > 0
      invariant q + left == p + n
      invariant FilledExactly(mem, m, p, q - p, b)
    {
      m := m[q := b];
      q := q + 1;
      left := left - 1;
    }
  }

  /** The word loop: `n` stores of the word `x` through a pointer to
      `bytesPerWord`-byte words. When every lane of `x` is `b`, the `n` stores
      fill exactly `n * bytesPerWord` bytes with `b`. */
  method StoreWords(mem: seq<bv8>, p: nat, x: bv64, b: bv8, bytesPerWord: nat, n: nat)
    returns (m: seq<bv8>, q: nat)
    requires 1 <= bytesPerWord <= 8
    requires Replicated(x, b, bytesPerWord)
    requires p + n * bytesPerWord <= |mem|
    ensures q == p + n * bytesPerWord
    ensures FilledExactly(mem, m, p, n * bytesPerWord, b)
  {
    m, q := mem, p;
    var done := 0;
    while done < n
      invariant done <= n
      invariant q == p + done * bytesPerWord
      invariant FilledExactly(mem, m, p, q - p, b)
    {
      assert q + bytesPerWord <= p + n * bytesPerWord by {
        assert (done + 1) * bytesPerWord <= n * bytesPerWord;
      }
      var m' := StoreWord(m, q, x, bytesPerWord);
      StoreReplicatedWord(m, q, x, b, bytesPerWord);
      FillConcat(mem, m, m', p, q - p, bytesPerWord, b);
      m := m';
      q := q + bytesPerWord;
      done := done + 1;
    }
  }
}
