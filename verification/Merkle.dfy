/**
 The fs-verity file digest, as the Linux kernel documentation of fs-verity defines it in the section
 "File digest computation": 4096-byte blocks, SHA-256, no salt.  The hash itself stays arbitrary.
 */
module Merkle {
  import opened Common
  import opened Bytes

  const BLOCK: int := 4096
  const DIGEST: int := 32

  type Digest = d: seq<byte> | |d| == DIGEST witness seq(DIGEST, _ => 0)

  type Hash = seq<byte> -> Digest

  /** A partial block is filled up with zeros. */
  function Pad(s: seq<byte>): (r: seq<byte>)
    requires |s| <= BLOCK
    ensures |r| == BLOCK
  {
    s + Zeros(BLOCK - |s|)
  }

  /** The next level of the tree: the digests of all blocks of `s`, in order. */
  function HashBlocks(sha: Hash, s: seq<byte>): (r: seq<byte>)
    ensures |r| == DIGEST * ((|s| + BLOCK - 1) / BLOCK)
  {
    if |s| == 0 then [] else
    if |s| <= BLOCK then sha(Pad(s)) else sha(s[..BLOCK]) + HashBlocks(sha, s[BLOCK..])
  }

  /** Levels are hashed until one block is left; its digest is the root. */
  function MerkleRoot(sha: Hash, s: seq<byte>): Digest
    decreases |s|
  {
    if |s| <= BLOCK then sha(Pad(s)) else MerkleRoot(sha, HashBlocks(sha, s))
  }

  /** The 256-byte fsverity_descriptor without salt, for block size 2^12 and SHA-256. */
  function Descriptor(root: Digest, size: nat): (d: seq<byte>)
    ensures |d| == 256
  {
    [1, 1, 12, 0] + Zeros(4) + LE(size, 8) + root + Zeros(32) + Zeros(32) + Zeros(144)
  }

  /**
   The fields of the descriptor by offset: version, hash algorithm, block size and salt size, the size of the file at
   8, the root hash in a field of 64 bytes at 16; everything else is zero.
   */
  ghost predicate IsDescriptor(d: seq<byte>, root: Digest, size: nat) {
    && |d| == 256 && d[0] == 1 && d[1] == 1 && d[2] == 12 && d[3] == 0 && Num(d, 8, 8) == size
    && (forall i {:trigger d[i]} :: 16 <= i < 48 ==> d[i] == root[i - 16])
    && (forall i {:trigger d[i]} :: 4 <= i < 8 || 48 <= i < 256 ==> d[i] == 0)
  }

  lemma {:induction false} DescriptorFields(root: Digest, size: nat)
    requires size < 0x1_0000_0000_0000_0000
    ensures IsDescriptor(Descriptor(root, size), root, size)
  {
    var d := Descriptor(root, size);
    Widths();
    assert d[8..16] == LE(size, 8);
    AtNum(d, 8, size, 8);
  }

  /** Different sizes or roots have different descriptors, and the fields leave no choice. */
  lemma {:induction false} DescriptorUnique(d: seq<byte>, root: Digest, size: nat, root': Digest, size': nat)
    requires size < 0x1_0000_0000_0000_0000 && IsDescriptor(d, root, size)
    ensures d == Descriptor(root, size)
    ensures IsDescriptor(d, root', size') ==> root == root' && size == size'
  {
    var e := Descriptor(root, size);
    DescriptorFields(root, size);
    NumInjective(d, e, 8, 8);
    forall i | 0 <= i < 256
      ensures d[i] == e[i]
    {
    }
    if IsDescriptor(d, root', size') {
      forall i | 0 <= i < 32
        ensures root[i] == root'[i]
      {
        assert d[16 + i] == root[i];
      }
    }
  }

  lemma {:induction false} NumInjective(a: seq<byte>, b: seq<byte>, o: nat, w: nat)
    requires o + w <= |a| && o + w <= |b| && Num(a, o, w) == Num(b, o, w)
    ensures forall i {:trigger a[i]} :: o <= i < o + w ==> a[i] == b[i]
    decreases w
  {
    if w > 0 {
      assert a[o] == Num(a, o, w) % 256 && b[o] == Num(b, o, w) % 256;
      NumInjective(a, b, o + 1, w - 1);
    }
  }

  /** The root hash of a file; an empty file has no tree and an all-zero root. */
  function RootHash(sha: Hash, data: seq<byte>): Digest {
    if data == [] then Zeros(DIGEST) else MerkleRoot(sha, data)
  }

  function FileDigest(sha: Hash, data: seq<byte>): Digest {
    sha(Descriptor(RootHash(sha, data), |data|))
  }

  // ---------- the lazy view: what has left a level and what is still buffered ----------

  /** Digests of the blocks that have more data behind them. */
  ghost function Up(sha: Hash, s: seq<byte>): (r: seq<byte>) {
    if |s| <= BLOCK then [] else sha(s[..BLOCK]) + Up(sha, s[BLOCK..])
  }

  /** The bytes of the last block, which stay in the buffer. */
  ghost function Rest(s: seq<byte>): (r: seq<byte>)
    ensures |r| <= BLOCK
    ensures |r| == 0 <==> |s| == 0
  {
    if |s| <= BLOCK then s else Rest(s[BLOCK..])
  }

  /** Number of bytes that have gone up after `n` bytes. */
  function UpSize(n: nat): nat {
    if n == 0 then 0 else DIGEST * ((n - 1) / BLOCK)
  }

  lemma {:induction false} UpLength(sha: Hash, s: seq<byte>)
    ensures |Up(sha, s)| == UpSize(|s|)
  {
    if BLOCK < |s| {
      UpLength(sha, s[BLOCK..]);
      assert (|s| - 1) / BLOCK == (|s| - BLOCK - 1) / BLOCK + 1;
    }
  }

  lemma {:induction false} AppendWithin(sha: Hash, s: seq<byte>, c: seq<byte>)
    requires |Rest(s)| + |c| <= BLOCK
    ensures Up(sha, s + c) == Up(sha, s) && Rest(s + c) == Rest(s) + c
  {
    if BLOCK < |s| {
      assert (s + c)[..BLOCK] == s[..BLOCK] && (s + c)[BLOCK..] == s[BLOCK..] + c;
      AppendWithin(sha, s[BLOCK..], c);
    }
  }

  lemma {:induction false} AppendBehindFull(sha: Hash, s: seq<byte>, c: seq<byte>)
    requires |Rest(s)| == BLOCK && 0 < |c| <= BLOCK
    ensures Up(sha, s + c) == Up(sha, s) + sha(Rest(s)) && Rest(s + c) == c
  {
    if |s| == BLOCK {
      assert (s + c)[..BLOCK] == s && (s + c)[BLOCK..] == c;
    } else {
      assert (s + c)[..BLOCK] == s[..BLOCK] && (s + c)[BLOCK..] == s[BLOCK..] + c;
      AppendBehindFull(sha, s[BLOCK..], c);
    }
  }

  /** Flushing the last, padded block completes the next level. */
  lemma {:induction false} FlushCompletes(sha: Hash, s: seq<byte>)
    requires s != []
    ensures HashBlocks(sha, s) == Up(sha, s) + sha(Pad(Rest(s)))
  {
    if BLOCK < |s| {
      FlushCompletes(sha, s[BLOCK..]);
    }
  }

  lemma {:induction false} RestFull(s: seq<byte>)
    requires |Rest(s)| == BLOCK
    ensures |s| > 0 && UpSize(|s| + 1) == UpSize(|s|) + DIGEST
  {
    RestLength(s);
    assert |s| % BLOCK == 0;
    assert (|s| - 1) / BLOCK + 1 == |s| / BLOCK;
  }

  lemma {:induction false} RestLength(s: seq<byte>)
    ensures |s| > 0 ==> |Rest(s)| == (|s| - 1) % BLOCK + 1
  {
    if BLOCK < |s| { RestLength(s[BLOCK..]); }
  }
}
