/** Chunk sizes of files whose content is not in the image, in 64-bit arithmetic. */
module Chunking {
  import opened Common
  import opened Bytes

  function Pow2(k: nat): (p: nat)
    ensures p > 0
  {
    if k == 0 then 1 else 2 * Pow2(k - 1)
  }

  function Log2(n: nat): nat {
    if n < 2 then 0 else 1 + Log2(n / 2)
  }

  lemma {:induction false} Log2Bounds(n: nat)
    ensures n < Pow2(Log2(n) + 1) && (n > 0 ==> Pow2(Log2(n)) <= n)
  {
    if n >= 2 { Log2Bounds(n / 2); }
  }

  lemma {:induction false} Pow2Monotone(j: nat, k: nat)
    requires j <= k
    ensures Pow2(j) <= Pow2(k)
  {
    if j < k { Pow2Monotone(j, k - 1); }
  }

  lemma {:induction false} Pow2Values()
    ensures Pow2(12) == 4096 && Pow2(43) == 0x800_0000_0000
  {
    assert Pow2(8) == 256;
    assert Pow2(16) == 0x1_0000;
    assert Pow2(24) == 0x100_0000;
    assert Pow2(32) == 0x1_0000_0000;
    assert Pow2(40) == 0x100_0000_0000;
  }

  const TWO64: nat := 0x1_0000_0000_0000_0000
  const MAX_CHUNKS: nat := 1024

  /** At least a block, and no more than the inode can express. */
  function ChunkBits(size: nat): (bits: nat)
    requires size > 0
    ensures 12 <= bits <= 43
  {
    Min(Max(Log2(size - 1) + 1, 12), 43)
  }

  /** The sum of the rounding division wraps around. */
  function CountIn(size: nat, chunk: nat): nat
    requires chunk > 0
  {
    (size + chunk - 1) % TWO64 / chunk
  }

  function ChunkCount(size: nat): nat
    requires size > 0
  {
    CountIn(size, Pow2(ChunkBits(size)))
  }

  lemma {:induction false} OneChunk(size: nat)
    requires 0 < size <= 0x800_0000_0000
    ensures size <= Pow2(ChunkBits(size)) <= 0x800_0000_0000
  {
    Pow2Values();
    Log2Bounds(size - 1);
    if Log2(size - 1) >= 43 { Pow2Monotone(43, Log2(size - 1)); }
    Pow2Monotone(Log2(size - 1) + 1, Max(Log2(size - 1) + 1, 12));
    Pow2Monotone(ChunkBits(size), 43);
  }

  lemma {:induction false} ManyChunks(size: nat)
    requires 0x800_0000_0000 < size
    ensures ChunkBits(size) == 43
  {
    Pow2Values();
    Log2Bounds(size - 1);
    if Log2(size - 1) < 43 { Pow2Monotone(Log2(size - 1) + 1, 43); }
  }

  lemma {:induction false} CountOne(size: nat, chunk: nat)
    requires 0 < size <= chunk <= 0x800_0000_0000
    ensures CountIn(size, chunk) == 1
  {
    DivModUnique(size + chunk - 1, chunk, 1, size - 1);
  }

  lemma {:induction false} CountMany(size: nat)
    requires 0x800_0000_0000 < size < TWO64
    ensures CountIn(size, 0x800_0000_0000) <= MAX_CHUNKS <==>
              size <= 0x20_0000_0000_0000 || TWO64 - 0x800_0000_0000 < size
    ensures size <= 0x20_0000_0000_0000 ==> CountIn(size, 0x800_0000_0000) >= 1
  {
  }

  /**
   The limit of 1024 chunks is a limit of 2^53 bytes, but for the last sizes before 2^64: there the sum wraps
   around and no chunk at all is counted.
   */
  lemma {:induction false} ChunkLimit(size: nat)
    requires 0 < size < TWO64
    ensures ChunkCount(size) <= MAX_CHUNKS <==> size <= 0x20_0000_0000_0000 || TWO64 - 0x800_0000_0000 < size
    ensures size <= 0x20_0000_0000_0000 ==> ChunkCount(size) >= 1
  {
    Pow2Values();
    if size <= 0x800_0000_0000 {
      OneChunk(size);
      CountOne(size, Pow2(ChunkBits(size)));
    } else {
      ManyChunks(size);
      CountMany(size);
    }
  }

  lemma {:induction false} WrappedCount()
    ensures ChunkCount(TWO64 - 1) == 0
  {
    Pow2Values();
    ManyChunks(TWO64 - 1);
  }
}
