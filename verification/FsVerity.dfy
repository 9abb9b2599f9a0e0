/**
 The streaming digest of libcomposefs/lcfs-fsverity.c: one lazily flushed block buffer per level of
 the Merkle tree.  A failing level assertion, which ends the C program, is the result `ok == false`.
 */
module FsVerity {
  import opened Common
  import opened Bytes
  import opened Merkle

  const MAX_LEVELS: nat := 8

  /** The most data `level` can be fed before the final flush. */
  function Limit(level: nat): (n: nat)
    decreases MAX_LEVELS - level
  {
    if level >= MAX_LEVELS then 0 else BLOCK * (Limit(level + 1) / DIGEST + 1)
  }

  /** A level is within its limit exactly when what it passes on is. */
  lemma {:induction false} LimitStep(level: nat, n: nat)
    requires level < MAX_LEVELS
    ensures n <= Limit(level) <==> UpSize(n) <= Limit(level + 1)
  {
    var m := Limit(level + 1);
    if 0 < n {
      var q := (n - 1) / BLOCK;
      assert DIGEST * q <= m <==> q <= m / DIGEST;
      assert q <= m / DIGEST <==> n - 1 < BLOCK * (m / DIGEST + 1);
    }
  }

  /** One byte more than a full block sends one digest up. */
  lemma {:induction false} FullStep(level: nat, sha: Hash, t: seq<byte>)
    requires level < MAX_LEVELS && |Rest(t)| == BLOCK
    ensures t != [] && (|t| + 1 <= Limit(level) <==> |Up(sha, t)| + DIGEST <= Limit(level + 1))
  {
    RestFull(t);
    UpLength(sha, t);
    LimitStep(level, |t| + 1);
  }

  /** The most data at `level` for which the final flush succeeds. */
  function Capacity(level: nat): (c: nat)
    requires level < MAX_LEVELS
    ensures c % DIGEST == 0 && BLOCK <= c
    decreases MAX_LEVELS - level
  {
    if level == MAX_LEVELS - 1 then BLOCK else 128 * Capacity(level + 1)
  }

  lemma {:induction false} CapacityWithinLimit(level: nat)
    requires level < MAX_LEVELS
    ensures Capacity(level) <= Limit(level)
    decreases MAX_LEVELS - level
  {
    if level < MAX_LEVELS - 1 {
      CapacityWithinLimit(level + 1);
      assert BLOCK * (Limit(level + 1) / DIGEST + 1) >= 128 * Limit(level + 1);
    }
  }

  /** What flushing a level that has more than one block comes to. */
  /** The digests `up` of the blocks of `s` fit the next level just when `s` fits this one, and have the same root. */
  ghost predicate Carries(level: nat, sha: Hash, s: seq<byte>, up: seq<byte>)
    requires level + 1 < MAX_LEVELS
  {
    up != [] && (|s| <= Capacity(level) <==> |up| <= Capacity(level + 1)) && MerkleRoot(sha, s) == MerkleRoot(sha, up)
  }

  lemma {:induction false} FlushStep(level: nat, sha: Hash, s: seq<byte>)
    requires level + 1 < MAX_LEVELS && BLOCK < |s|
    ensures HashBlocks(sha, s) == Up(sha, s) + sha(Pad(Rest(s)))
    ensures Carries(level, sha, s, HashBlocks(sha, s))
    ensures |s| <= Capacity(level) ==> |Up(sha, s)| + DIGEST <= Limit(level + 1)
  {
    FlushCompletes(sha, s);
    CapacityWithinLimit(level + 1);
    var q, c := (|s| + BLOCK - 1) / BLOCK, Capacity(level + 1) / DIGEST;
    assert Capacity(level + 1) == DIGEST * c;
    assert q <= c <==> |s| <= BLOCK * c;
  }

  /** 2^61 bytes can be digested; updates alone could take a little more. */
  lemma {:induction false} LimitValues()
    ensures Capacity(0) == 0x2000_0000_0000_0000
    ensures Limit(0) == 0x2040_8102_0408_1000
  {
    assert Capacity(7) == 0x1000 && Capacity(6) == 0x8_0000 && Capacity(5) == 0x400_0000;
    assert Capacity(4) == 0x2_0000_0000 && Capacity(3) == 0x100_0000_0000 && Capacity(2) == 0x8000_0000_0000;
    assert Capacity(1) == 0x40_0000_0000_0000;
    assert Limit(8) == 0 && Limit(7) == 0x1000 && Limit(6) == 0x8_1000 && Limit(5) == 0x408_1000;
    assert Limit(4) == 0x2_0408_1000 && Limit(3) == 0x102_0408_1000 && Limit(2) == 0x8102_0408_1000;
    assert Limit(1) == 0x40_8102_0408_1000;
  }

  lemma {:induction false} Regroup(t: seq<byte>, rest: seq<byte>, n: nat)
    requires n <= |rest|
    ensures (t + rest[..n]) + rest[n..] == t + rest
  {
  }

  /** Arithmetic on uint64_t. */
  function Wrap64(n: nat): (r: nat)
    ensures n < 0x1_0000_0000_0000_0000 ==> r == n
  {
    n % 0x1_0000_0000_0000_0000
  }

  /** The first `n` elements agree. */
  ghost predicate Agree<T>(n: nat, a: seq<T>, b: seq<T>) {
    |a| == |b| && forall l {:trigger b[l]} :: 0 <= l < n && l < |a| ==> b[l] == a[l]
  }

  ghost predicate ChainedIn(sha: Hash, fed: seq<seq<byte>>, level: nat)
    requires |fed| == MAX_LEVELS
  {
    && (forall l {:trigger fed[l]} :: level < l < MAX_LEVELS ==> fed[l] == Up(sha, fed[l - 1]))
    && (level < MAX_LEVELS ==> Up(sha, fed[MAX_LEVELS - 1]) == [])
  }

  /** What a level passes up is as it should be when it takes `chunk`; a full block was flushed before. */
  lemma {:induction false} TakeChains(sha: Hash, fed: seq<seq<byte>>, level: nat, chunk: seq<byte>, flushed: bool)
    requires |fed| == MAX_LEVELS && level < MAX_LEVELS && ChainedIn(sha, fed, level + 1)
    requires flushed ==> fed[level] != [] && |Rest(fed[level])| == BLOCK && level + 1 < MAX_LEVELS
    requires 0 < |chunk| <= BLOCK && (!flushed ==> |Rest(fed[level])| + |chunk| <= BLOCK)
    requires level + 1 < MAX_LEVELS ==>
               fed[level + 1] == Up(sha, fed[level]) + (if flushed then sha(Rest(fed[level])) else [])
    requires level + 1 == MAX_LEVELS ==> Up(sha, fed[level]) == []
    ensures ChainedIn(sha, fed[level := fed[level] + chunk], level)
    ensures Rest(fed[level] + chunk) == (if flushed then [] else Rest(fed[level])) + chunk
  {
    if flushed { AppendBehindFull(sha, fed[level], chunk); } else { AppendWithin(sha, fed[level], chunk); }
  }

  class FsVerityContext {
    const sha: Hash
    const buffer: seq<array<byte>>
    const bufferPos: array<int>
    var maxLevel: nat
    var fileSize: nat
    ghost var fed: seq<seq<byte>>  // per level, everything ever appended to it

    ghost predicate Shaped()
      reads this`fed
    {
      && |buffer| == bufferPos.Length == |fed| == MAX_LEVELS
      && (forall l {:trigger buffer[l]} :: 0 <= l < MAX_LEVELS ==> buffer[l].Length == BLOCK)
      && (forall i, j {:trigger buffer[i], buffer[j]} :: 0 <= i < j < MAX_LEVELS ==> buffer[i] != buffer[j])
    }

    /** The buffer of level `l` holds the last block of what was fed to it. */
    ghost predicate Buffered(l: nat)
      requires Shaped() && l < MAX_LEVELS
      reads this`fed, bufferPos, buffer[l]
    {
      bufferPos[l] == |Rest(fed[l])| && buffer[l][..bufferPos[l]] == Rest(fed[l])
    }

    /** From `level` on, each level has received one digest per block flushed from the level below it. */
    ghost predicate Chained(level: nat)
      requires Shaped()
      reads this`fed
    {
      ChainedIn(sha, fed, level)
    }

    ghost predicate From(level: nat)
      requires Shaped()
      reads this`fed, bufferPos, buffer
    {
      Chained(level) && forall l :: level <= l < MAX_LEVELS ==> Buffered(l)
    }

    /** `maxLevel` is the highest level that holds data. */
    ghost predicate Topped()
      requires Shaped()
      reads this`fed, this`maxLevel
    {
      && maxLevel < MAX_LEVELS
      && (0 < maxLevel ==> fed[maxLevel] != [])
      && forall l {:trigger fed[l]} :: maxLevel < l < MAX_LEVELS ==> fed[l] == []
    }

    ghost predicate Valid()
      reads this, bufferPos, buffer
    {
      Shaped() && From(0) && Topped() && fileSize == |fed[0]|
    }

    constructor (sha: Hash)
      ensures Valid() && fed[0] == [] && fresh(bufferPos) && this.sha == sha
      ensures forall l {:trigger buffer[l]} :: 0 <= l < |buffer| ==> fresh(buffer[l])
    {
      var b: seq<array<byte>> := [];
      while |b| < MAX_LEVELS
        invariant |b| <= MAX_LEVELS
        invariant forall l {:trigger b[l]} :: 0 <= l < |b| ==> fresh(b[l]) && b[l].Length == BLOCK
        invariant forall i, j {:trigger b[i], b[j]} :: 0 <= i < j < |b| ==> b[i] != b[j]
      {
        var block := new byte[BLOCK](_ => 0);
        b := b + [block];
      }
      this.sha, this.buffer, this.bufferPos := sha, b, new int[MAX_LEVELS](_ => 0);
      maxLevel, fileSize := 0, 0;
      fed := seq(MAX_LEVELS, _ => []);
    }

    /** Appends `chunk`, which fits behind what the buffer of `level` holds. */
    method CopyIn(level: nat, chunk: seq<byte>)
      requires Shaped() && level < MAX_LEVELS && 0 <= bufferPos[level] && bufferPos[level] + |chunk| <= BLOCK
      modifies bufferPos, buffer[level]
      ensures bufferPos[..] == old(bufferPos[..])[level := old(bufferPos[level]) + |chunk|]
      ensures buffer[level][..bufferPos[level]] == old(buffer[level][..bufferPos[level]]) + chunk
    {
      var pos := bufferPos[level];
      var block := buffer[level];
      forall j | 0 <= j < |chunk| {
        block[pos + j] := chunk[j];
      }
      bufferPos[level] := pos + |chunk|;
    }

    /** `level` is about to take `chunk`: its full block, if any, has been flushed upwards. */
    ghost predicate Open(level: nat)
      requires Shaped() && level < MAX_LEVELS
      reads this`fed, bufferPos, buffer
    {
      && From(level + 1)
      && (level + 1 < MAX_LEVELS ==>
            fed[level + 1] == Up(sha, fed[level])
              + (if bufferPos[level] == 0 && fed[level] != [] then sha(Rest(fed[level])) else []))
      && (level + 1 == MAX_LEVELS ==> Up(sha, fed[level]) == [])
      && (if bufferPos[level] == 0 && fed[level] != []
          then |Rest(fed[level])| == BLOCK && level + 1 < MAX_LEVELS
          else Buffered(level))
    }

    /** Appends `chunk` to an opened level. */
    method Take(level: nat, chunk: seq<byte>)
      requires Shaped() && level < MAX_LEVELS && Open(level)
      requires 0 < |chunk| && bufferPos[level] + |chunk| <= BLOCK
      modifies this`fed, bufferPos, buffer[level]
      ensures Shaped() && From(level)
      ensures fed == old(fed)[level := old(fed)[level] + chunk]
      ensures Agree(level, old(bufferPos[..]), bufferPos[..])
    {
      ghost var t := fed[level];
      TakeChains(sha, fed, level, chunk, bufferPos[level] == 0 && t != []);
      CopyIn(level, chunk);
      fed := fed[level := t + chunk];
      forall l | level < l < MAX_LEVELS
        ensures Buffered(l)
      {
        assert old(Buffered(l));
        assert bufferPos[l] == bufferPos[..][l] == old(bufferPos[l]);
      }
    }

    /** A consistent state never needed more levels than there are. */
    lemma {:induction false} StateFits(level: nat)
      requires Shaped() && level < MAX_LEVELS && Chained(level)
      ensures |fed[level]| <= Limit(level)
      decreases MAX_LEVELS - level
    {
      UpLength(sha, fed[level]);
      LimitStep(level, |fed[level]|);
      if level + 1 < MAX_LEVELS {
        assert fed[level + 1] == Up(sha, fed[level]);
        StateFits(level + 1);
      }
    }

    /** A level holds at most one block exactly when no level above it holds data. */
    lemma {:induction false} TopIsShort(level: nat)
      requires Shaped() && level <= maxLevel && Chained(level) && Topped()
      ensures level == maxLevel ==> |fed[level]| <= BLOCK
      ensures level < maxLevel ==> |fed[level]| > BLOCK && fed[level + 1] == Up(sha, fed[level]) != []
    {
      UpLength(sha, fed[level]);
      if level < maxLevel {
        assert fed[level + 1] == Up(sha, fed[level]);
        NothingAbove(level + 1);
      } else if level + 1 < MAX_LEVELS {
        assert fed[level + 1] == [];
      }
    }

    /** Above an empty level there is nothing. */
    lemma {:induction false} NothingAbove(level: nat)
      requires Shaped() && 0 < level <= maxLevel && Chained(level) && Topped()
      ensures fed[level] != []
      decreases maxLevel - level
    {
      if level < maxLevel {
        NothingAbove(level + 1);
        assert fed[level + 1] == Up(sha, fed[level]);
      }
    }

    /** All that is known of the levels while `level` is being fed. */
    ghost predicate Feeding(level: nat)
      requires Shaped()
      reads this`fed, this`maxLevel
    {
      && level <= maxLevel < MAX_LEVELS
      && (level < maxLevel ==> fed[maxLevel] != [])
      && forall l {:trigger fed[l]} :: maxLevel < l < MAX_LEVELS ==> fed[l] == []
    }

    /** Starts a new block at `level`, whose full block has gone up. */
    method Restart(level: nat)
      requires Shaped() && level + 1 < MAX_LEVELS && From(level + 1) && |Rest(fed[level])| == BLOCK
      requires fed[level + 1] == Up(sha, fed[level]) + sha(Rest(fed[level]))
      modifies bufferPos
      ensures Open(level) && bufferPos[level] == 0 && Agree(level, old(bufferPos[..]), bufferPos[..])
    {
      bufferPos[level] := 0;
      forall l | level < l < MAX_LEVELS
        ensures Buffered(l)
      {
        assert old(Buffered(l));
      }
    }

    /** Sends the digest of the full block of `level` upwards and empties its buffer. */
    method FlushFull(level: nat) returns (ok: bool)
      requires Shaped() && level < MAX_LEVELS && From(level) && Feeding(level) && bufferPos[level] == BLOCK
      modifies this`maxLevel, this`fed, bufferPos, buffer[level..]
      ensures Shaped()
      ensures ok <==> |old(fed)[level]| + 1 <= Limit(level)
      ensures ok ==> Open(level) && Feeding(level) && bufferPos[level] == 0
      ensures ok ==> Agree(level + 1, old(fed), fed) && Agree(level, old(bufferPos[..]), bufferPos[..])
      decreases MAX_LEVELS - level, 0
    {
      ghost var t := fed[level];
      assert Buffered(level);
      FullStep(level, sha, t);
      assert buffer[level][..] == Rest(t);
      var digest := sha(buffer[level][..]);
      ok := UpdateLevel(level + 1, digest);
      if ok {
        Restart(level);
      }
    }

    /** A full block is hashed upwards before more is copied. */
    method MakeRoom(level: nat) returns (ok: bool)
      requires Shaped() && level < MAX_LEVELS && From(level) && Feeding(level)
      modifies this`maxLevel, this`fed, bufferPos, buffer[level..]
      ensures Shaped()
      ensures !ok ==> |old(fed)[level]| + 1 > Limit(level)
      ensures ok ==> Open(level) && Feeding(level) && bufferPos[level] < BLOCK
      ensures ok ==> Agree(level + 1, old(fed), fed) && Agree(level, old(bufferPos[..]), bufferPos[..])
      decreases MAX_LEVELS - level, 1
    {
      ok := true;
      assert Buffered(level);
      if bufferPos[level] == BLOCK { ok := FlushFull(level); }
    }

    /** One round of the copy loop: makes room if the block is full, then copies what fits. */
    method FeedSome(level: nat, data: seq<byte>) returns (ok: bool, n: nat)
      requires Shaped() && level < MAX_LEVELS && From(level) && Feeding(level) && data != []
      modifies this`maxLevel, this`fed, bufferPos, buffer[level..]
      ensures Shaped()
      ensures !ok ==> |old(fed)[level]| + 1 > Limit(level)
      ensures ok ==> From(level) && Feeding(level) && 0 < n <= |data|
      ensures ok ==> Agree(level, old(fed), fed) && fed[level] == old(fed)[level] + data[..n]
      ensures ok ==> Agree(level, old(bufferPos[..]), bufferPos[..])
      decreases MAX_LEVELS - level, 2
    {
      n := 0;
      ok := MakeRoom(level);
      if !ok { return; }
      n := Min(BLOCK - bufferPos[level], |data|);
      Take(level, data[..n]);
    }

    /** The copy loop. */
    method FeedAll(level: nat, data: seq<byte>) returns (ok: bool)
      requires Shaped() && level < MAX_LEVELS && From(level) && Feeding(level)
      modifies this`maxLevel, this`fed, bufferPos, buffer[level..]
      ensures Shaped()
      ensures !ok ==> |old(fed)[level]| + |data| > Limit(level)
      ensures ok ==> From(level) && Feeding(level)
      ensures ok ==> Agree(level, old(fed), fed) && fed[level] == old(fed)[level] + data
      ensures ok ==> Agree(level, old(bufferPos[..]), bufferPos[..])
      decreases MAX_LEVELS - level, 3
    {
      ghost var all, total := fed[level] + data, |fed[level]| + |data|;
      var rest := data;
      while |rest| > 0
        invariant Shaped() && From(level) && Feeding(level)
        invariant Agree(level, old(fed), fed) && fed[level] + rest == all && |fed[level]| + |rest| == total
        invariant Agree(level, old(bufferPos[..]), bufferPos[..])
        decreases |rest|
      {
        ghost var t := fed[level];
        var n;
        ok, n := FeedSome(level, rest);
        if !ok { return; }
        Regroup(t, rest, n);
        rest := rest[n..];
      }
      ok := true;
    }

    /** Feeds `data` to `level`, flushing full blocks upwards only when more data follows. */
    method UpdateLevel(level: nat, data: seq<byte>) returns (ok: bool)
      requires Shaped() && level <= MAX_LEVELS && From(level) && Topped()
      requires level <= maxLevel + 1 && (0 < level ==> data != [])
      modifies this`maxLevel, this`fed, bufferPos, buffer[level..]
      ensures Shaped()
      ensures ok <==> (if level < MAX_LEVELS then |old(fed)[level]| else 0) + |data| <= Limit(level)
      ensures ok ==> level < MAX_LEVELS && From(level) && Topped()
      ensures ok ==> Agree(level, old(fed), fed) && fed[level] == old(fed)[level] + data
      ensures ok ==> Agree(level, old(bufferPos[..]), bufferPos[..])
      decreases MAX_LEVELS - level, 4
    {
      if level >= MAX_LEVELS { return false; }
      if level > maxLevel { maxLevel := level; }
      ok := FeedAll(level, data);
      if ok { StateFits(level); }
    }

    /** Appends `data` to the file; `fileSize` is a 64-bit counter. */
    method Update(data: seq<byte>) returns (ok: bool)
      requires Valid()
      modifies this`maxLevel, this`fileSize, this`fed, bufferPos, buffer
      ensures ok <==> |old(fed)[0]| + |data| <= Limit(0)
      ensures ok ==> Valid() && fed[0] == old(fed)[0] + data
    {
      LimitValues();
      ok := UpdateLevel(0, data);
      if ok {
        fileSize := Wrap64(fileSize + |data|);
      }
    }

    /** Fills the block of `level` up with zeros. */
    method PadBlock(level: nat)
      requires Shaped() && level < MAX_LEVELS && From(level)
      modifies bufferPos, buffer[level]
      ensures buffer[level][..] == Pad(Rest(fed[level])) && From(level + 1)
    {
      assert Buffered(level);
      var pos, block := bufferPos[level], buffer[level];
      if pos < BLOCK {
        forall j | pos <= j < BLOCK {
          block[j] := 0;
        }
        bufferPos[level] := BLOCK;
      }
      assert block[..] == Rest(fed[level]) + Zeros(BLOCK - pos);
      forall l | level < l < MAX_LEVELS
        ensures Buffered(l)
      {
        assert old(Buffered(l));
      }
    }

    /** Sends the digest of the padded last block of `level` to a level that already has data. */
    method SendLast(level: nat) returns (ok: bool)
      requires Shaped() && level < maxLevel && From(level + 1) && Topped()
      requires buffer[level][..] == Pad(Rest(fed[level])) && fed[level + 1] == Up(sha, fed[level])
      modifies this`maxLevel, this`fed, bufferPos, buffer[level + 1..]
      ensures Shaped()
      ensures ok <==> |Up(sha, old(fed)[level])| + DIGEST <= Limit(level + 1)
      ensures ok ==> From(level + 1) && Topped() && level < maxLevel
      ensures ok ==> fed[level + 1] == Up(sha, old(fed)[level]) + sha(Pad(Rest(old(fed)[level])))
    {
      var digest := sha(buffer[level][..]);
      ok := UpdateLevel(level + 1, digest);
    }

    /** Pads the last block of `level` and sends its digest: the level above then stands for this one. */
    method PassUp(level: nat) returns (ok: bool)
      requires Shaped() && level < maxLevel && From(level) && Topped() && |fed[level]| > BLOCK
      requires fed[level + 1] == Up(sha, fed[level])
      modifies this`maxLevel, this`fed, bufferPos, buffer[level..]
      ensures ok ==> Shaped() && level < maxLevel && From(level + 1) && Topped()
      ensures ok ==> Carries(level, sha, old(fed)[level], fed[level + 1])
      ensures |old(fed)[level]| <= Capacity(level) ==> ok
    {
      ghost var s := fed[level];
      PadBlock(level);
      FlushStep(level, sha, s);
      ok := SendLast(level);
    }

    /** The one block of the top level is what the root is computed from. */
    method FlushTop(level: nat)
      requires Shaped() && level == maxLevel < MAX_LEVELS && From(level) && |fed[level]| <= BLOCK
      modifies bufferPos, buffer[level]
      ensures |fed[level]| <= Capacity(level) && sha(buffer[maxLevel][..]) == MerkleRoot(sha, fed[level])
    {
      PadBlock(level);
    }

    /** The final flush: pads every level in turn and sends its digest upwards. */
    method FlushLevel(level: nat) returns (ok: bool)
      requires Shaped() && level <= maxLevel && From(level) && Topped() && (0 < level ==> fed[level] != [])
      modifies this`maxLevel, this`fed, bufferPos, buffer[level..]
      ensures ok <==> |old(fed)[level]| <= Capacity(level)
      ensures ok ==> maxLevel < MAX_LEVELS == |buffer| && sha(buffer[maxLevel][..]) == MerkleRoot(sha, old(fed)[level])
      decreases MAX_LEVELS - level
    {
      TopIsShort(level);
      if level == maxLevel {
        FlushTop(level);
        return true;
      }
      ok := PassUp(level);
      if ok {
        ok := FlushLevel(level + 1);
      }
    }

    /** Flushes all levels and hashes the descriptor; the context is used up afterwards. */
    method GetDigest() returns (ok: bool, digest: Digest)
      requires Valid()
      modifies this`maxLevel, this`fed, bufferPos, buffer
      ensures ok <==> |old(fed)[0]| <= Capacity(0)
      ensures ok ==> exists d :: IsDescriptor(d, MerkleRoot(sha, old(fed)[0]), |old(fed)[0]|) && digest == sha(d)
    {
      digest := Zeros(DIGEST);
      LimitValues();
      assert buffer[0..] == buffer;
      ok := FlushLevel(0);
      if ok {
        digest := sha(Descriptor(sha(buffer[maxLevel][..]), fileSize));
        DescriptorFields(MerkleRoot(sha, old(fed)[0]), |old(fed)[0]|);
      }
    }
  }

  ghost function Concat(chunks: seq<seq<byte>>): seq<byte> {
    if chunks == [] then [] else Concat(chunks[..|chunks| - 1]) + chunks[|chunks| - 1]
  }

  lemma {:induction false} ConcatPrefix(chunks: seq<seq<byte>>, i: nat)
    requires i <= |chunks|
    ensures |Concat(chunks[..i])| <= |Concat(chunks)|
  {
    if i < |chunks| {
      var init := chunks[..|chunks| - 1];
      ConcatPrefix(init, i);
      assert init[..i] == chunks[..i];
    } else {
      assert chunks[..i] == chunks;
    }
  }

  /** The digest of a file read piece by piece, as lcfs_compute_fsverity_from_content does. */
  method DigestOf(sha: Hash, chunks: seq<seq<byte>>) returns (ok: bool, digest: Digest)
    ensures ok <==> |Concat(chunks)| <= 0x2000_0000_0000_0000
    ensures ok ==> exists d :: IsDescriptor(d, MerkleRoot(sha, Concat(chunks)), |Concat(chunks)|) && digest == sha(d)
    ensures ok && Concat(chunks) != [] ==> digest == FileDigest(sha, Concat(chunks))
  {
    digest := Zeros(DIGEST);
    var ctx := new FsVerityContext(sha);
    CapacityWithinLimit(0);
    LimitValues();
    var i := 0;
    while i < |chunks|
      invariant 0 <= i <= |chunks| && ctx.Valid() && ctx.fed[0] == Concat(chunks[..i])
      invariant fresh(ctx) && fresh(ctx.bufferPos)
      invariant forall l {:trigger ctx.buffer[l]} :: 0 <= l < |ctx.buffer| ==> fresh(ctx.buffer[l])
    {
      assert chunks[..i + 1][..i] == chunks[..i];
      ConcatPrefix(chunks, i + 1);
      ok := ctx.Update(chunks[i]);
      if !ok { return; }
      i := i + 1;
    }
    assert chunks[..i] == chunks;
    LimitValues();
    ok, digest := ctx.GetDigest();
    if ok && Concat(chunks) != [] {
      ghost var root, size := MerkleRoot(sha, Concat(chunks)), |Concat(chunks)|;
      ghost var d :| IsDescriptor(d, root, size) && digest == sha(d);
      DescriptorUnique(d, root, size, root, size);
    }
  }

  /** The one difference to the standard: for an empty file a zero block is hashed instead of using a zero root. */
  lemma {:induction false} EmptyFile(sha: Hash)
    ensures Descriptor(MerkleRoot(sha, []), 0) == Descriptor(RootHash(sha, []), 0) <==>
              sha(Zeros(BLOCK)) == Zeros(DIGEST)
  {
    var a, b := Descriptor(MerkleRoot(sha, []), 0), Descriptor(RootHash(sha, []), 0);
    assert Pad([]) == Zeros(BLOCK);
    assert a[16..48] == sha(Zeros(BLOCK)) && b[16..48] == Zeros(DIGEST);
  }

  /** So the digest of an empty file differs, unless that hash is zero or the two descriptors have the same digest. */
  lemma {:induction false} EmptyDigest(sha: Hash)
    ensures var ours := sha(Descriptor(MerkleRoot(sha, []), 0));
            ours == FileDigest(sha, []) <==>
            sha(Zeros(BLOCK)) == Zeros(DIGEST) ||
            sha(Descriptor(sha(Zeros(BLOCK)), 0)) == sha(Descriptor(Zeros(DIGEST), 0))
  {
    assert Pad([]) == Zeros(BLOCK);
    EmptyFile(sha);
  }
}
