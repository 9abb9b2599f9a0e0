/**
 How a directory is cut into blocks: entries fill a block until the next one no longer fits.  The sizing
 pass counts the blocks, the writing pass fills them and the reader walks them, all along the same cuts.
 */
module DirBlocks {
  import opened Common
  import opened Bytes
  import opened DirCodec

  ghost predicate NamesOk(names: seq<bytes>) {
    forall i {:trigger names[i]} :: 0 <= i < |names| ==> NameOk(names[i])
  }

  /** Adding `x` closes the last chunk when `x` does not fit in it. */
  ghost function Next(front: seq<bytes>, x: bytes, c: seq<nat>): (c': seq<nat>)
    requires c != [] && c[|c| - 1] <= |front|
  {
    if Space(front[c[|c| - 1]..]) + 12 + |x| > 4096 then c + [|front|] else c
  }

  /** Where chunks start. */
  ghost function Starts(names: seq<bytes>): (c: seq<nat>)
    ensures c != [] && c[|c| - 1] <= |names|
  {
    if names == [] then [0] else
    Next(names[..|names| - 1], names[|names| - 1], Starts(names[..|names| - 1]))
  }

  lemma {:induction false} StartsAppend(front: seq<bytes>, x: bytes)
    ensures Starts(front + [x]) == Next(front, x, Starts(front))
  {
    assert (front + [x])[..|front|] == front;
  }

  /** Space of the last chunk. */
  ghost function Open(names: seq<bytes>, c: seq<nat>): nat
    requires c != [] && c[|c| - 1] <= |names|
  {
    Space(names[c[|c| - 1]..])
  }

  lemma {:induction false} SpaceAppend(names: seq<bytes>, x: bytes)
    ensures Space(names + [x]) == Space(names) + 12 + |x|
  {
    FlatAppend(names, x);
  }

  /** Chunks are non-empty, follow each other, and each fits a block; only the empty directory has an empty last one. */
  ghost predicate CutOk(names: seq<bytes>, c: seq<nat>) {
    && c != [] && c[0] == 0
    && (forall k {:trigger c[k]} :: 0 <= k < |c| ==> c[k] <= |names| && (names == [] || c[k] < |names|))
    && (forall k {:trigger c[k + 1]} :: 0 <= k < |c| - 1 ==> c[k] < c[k + 1] && Space(names[c[k]..c[k + 1]]) <= 4096)
    && Space(names[c[|c| - 1]..]) <= 4096
  }

  lemma {:induction false} StartsCut(names: seq<bytes>)
    requires NamesOk(names)
    ensures CutOk(names, Starts(names))
  {
    if names == [] {
      assert names[0..] == [];
    } else {
      var n := |names| - 1;
      StartsCut(names[..n]);
      CutExtend(names[..n], names[n], Starts(names[..n]));
      assert names[..n] + [names[n]] == names;
    }
  }

  lemma {:induction false} FrontSlice<T>(front: seq<T>, x: T, a: nat, b: nat)
    requires a <= b <= |front|
    ensures (front + [x])[a..b] == front[a..b]
  {
  }

  lemma {:induction false} CutSame(front: seq<bytes>, x: bytes, c: seq<nat>)
    requires CutOk(front, c) && Space(front[c[|c| - 1]..]) + 12 + |x| <= 4096
    ensures CutOk(front + [x], c)
  {
    var names, o := front + [x], c[|c| - 1];
    assert names[o..] == front[o..] + [x];
    SpaceAppend(front[o..], x);
    forall k | 0 <= k < |c| - 1
      ensures Space(names[c[k]..c[k + 1]]) <= 4096
    {
      FrontSlice(front, x, c[k], c[k + 1]);
    }
  }

  lemma {:induction false} CutMore(front: seq<bytes>, x: bytes, c: seq<nat>)
    requires CutOk(front, c) && front != [] && 12 + |x| <= 4096
    ensures CutOk(front + [x], c + [|front|])
  {
    var names, c' := front + [x], c + [|front|];
    LastCut(front, x, c);
    forall k | 0 <= k < |c| - 1
      ensures c'[k] < c'[k + 1] && Space(names[c'[k]..c'[k + 1]]) <= 4096
    {
      assert c'[k] == c[k] && c'[k + 1] == c[k + 1];
      FrontSlice(front, x, c[k], c[k + 1]);
    }
  }

  lemma {:induction false} LastCut(front: seq<bytes>, x: bytes, c: seq<nat>)
    requires c != [] && c[|c| - 1] <= |front| && Space(front[c[|c| - 1]..]) <= 4096
    ensures Space((front + [x])[c[|c| - 1]..|front|]) <= 4096 && Space((front + [x])[|front|..]) == 12 + |x|
  {
    var o := c[|c| - 1];
    assert (front + [x])[|front|..] == [] + [x];
    SpaceAppend([], x);
    FrontSlice(front, x, o, |front|);
    assert front[o..|front|] == front[o..];
  }

  lemma {:induction false} CutExtend(front: seq<bytes>, x: bytes, c: seq<nat>)
    requires CutOk(front, c) && NameOk(x)
    ensures CutOk(front + [x], Next(front, x, c))
  {
    var o := c[|c| - 1];
    if front == [] {
      assert front[o..] == [];
      CutSame(front, x, c);
    } else if Space(front[o..]) + 12 + |x| > 4096 {
      CutMore(front, x, c);
    } else {
      CutSame(front, x, c);
    }
  }

  lemma {:induction false} OpenStep(front: seq<bytes>, x: bytes, c: seq<nat>)
    requires c != [] && c[|c| - 1] <= |front|
    ensures Open(front + [x], Next(front, x, c))
         == if Open(front, c) + 12 + |x| > 4096 then 12 + |x| else Open(front, c) + 12 + |x|
  {
    var names, o := front + [x], c[|c| - 1];
    assert names[o..] == front[o..] + [x];
    SpaceAppend(front[o..], x);
    assert names[|front|..] == [] + [x];
    SpaceAppend([], x);
  }

  // ---------- sizing ----------

  /** Blocks and tail of a directory; more than half a block is not kept as a tail. */
  ghost function DirBlocks(names: seq<bytes>): nat {
    |Starts(names)| - 1 + if Open(names, Starts(names)) > 2048 then 1 else 0
  }

  ghost function DirTail(names: seq<bytes>): nat {
    if Open(names, Starts(names)) > 2048 then 0 else Open(names, Starts(names))
  }

  /** The sizing pass only keeps a block count and the fill of the current block. */
  method ComputeDirSize(names: seq<bytes>) returns (nBlocks: nat, tailSize: nat)
    ensures nBlocks == DirBlocks(names) && tailSize == DirTail(names)
  {
    nBlocks, tailSize := 0, 0;
    ghost var front: seq<bytes>, c: seq<nat> := [], [0];
    for i := 0 to |names|
      invariant front == names[..i] && c == Starts(front)
      invariant nBlocks == |c| - 1 && tailSize == Open(front, c)
    {
      StartsAppend(front, names[i]);
      OpenStep(front, names[i], c);
      front, c := front + [names[i]], Next(front, names[i], c);
      var len := 12 + |names[i]|;
      if tailSize + len > 4096 {
        nBlocks, tailSize := nBlocks + 1, 0;
      }
      tailSize := tailSize + len;
    }
    assert front == names;
    if tailSize > 2048 {
      nBlocks, tailSize := nBlocks + 1, 0;
    }
  }

  // ---------- the only cut ----------

  /** The name that starts the next chunk would not have fit into chunk `k`. */
  ghost predicate NoRoom(names: seq<bytes>, c: seq<nat>, k: nat)
    requires k + 1 < |c|
  {
    c[k] <= c[k + 1] < |names| && Space(names[c[k]..c[k + 1] + 1]) > 4096
  }

  /** Chunks that fit into blocks, none of which could have been longer. */
  ghost predicate IsCut(names: seq<bytes>, c: seq<nat>) {
    CutOk(names, c) && forall k: nat {:trigger NoRoom(names, c, k)} :: k + 1 < |c| ==> NoRoom(names, c, k)
  }

  lemma {:induction false} NoRoomStays(front: seq<bytes>, x: bytes, c: seq<nat>, c': seq<nat>, k: nat)
    requires k + 1 < |c| && c <= c' && NoRoom(front, c, k)
    ensures NoRoom(front + [x], c', k)
  {
    FrontSlice(front, x, c[k], c[k + 1] + 1);
  }

  lemma {:induction false} NoRoomLast(front: seq<bytes>, x: bytes, c: seq<nat>)
    requires c != [] && c[|c| - 1] <= |front| && Space(front[c[|c| - 1]..]) + 12 + |x| > 4096
    ensures NoRoom(front + [x], c + [|front|], |c| - 1)
  {
    var o := c[|c| - 1];
    assert (front + [x])[o..|front| + 1] == front[o..] + [x];
    SpaceAppend(front[o..], x);
  }

  lemma {:induction false} StartsFill(names: seq<bytes>)
    ensures forall k: nat {:trigger NoRoom(names, Starts(names), k)} :: k + 1 < |Starts(names)| ==>
              NoRoom(names, Starts(names), k)
  {
    if names != [] {
      var n := |names| - 1;
      var front, x, c, c' := names[..n], names[n], Starts(names[..n]), Starts(names);
      StartsFill(front);
      assert front + [x] == names;
      forall k: nat | k + 1 < |c'|
        ensures NoRoom(names, c', k)
      {
        if k + 1 < |c| {
          assert NoRoom(front, c, k);
          NoRoomStays(front, x, c, c', k);
        } else {
          NoRoomLast(front, x, c);
        }
      }
    }
  }

  lemma {:induction false} StartsIsCut(names: seq<bytes>)
    requires NamesOk(names)
    ensures IsCut(names, Starts(names))
  {
    StartsCut(names);
    StartsFill(names);
  }

  lemma {:induction false} SpaceGrows(names: seq<bytes>, a: nat, b: nat, d: nat)
    requires a <= b <= d <= |names|
    ensures Space(names[a..b]) <= Space(names[a..d])
    decreases d
  {
    if b < d {
      SpaceGrows(names, a, b, d - 1);
      assert names[a..d] == names[a..d - 1] + [names[d - 1]];
      SpaceAppend(names[a..d - 1], names[d - 1]);
    }
  }

  lemma {:induction false} SameNext(names: seq<bytes>, c: seq<nat>, c': seq<nat>, k: nat)
    requires IsCut(names, c) && IsCut(names, c') && k + 1 < |c| && k < |c'| && c[k] == c'[k]
    ensures k + 1 < |c'| && c'[k + 1] <= c[k + 1]
  {
    assert NoRoom(names, c, k) && c[k] < c[k + 1];
    if k + 1 == |c'| {
      assert names[c'[k]..|names|] == names[c'[k]..];
      SpaceGrows(names, c[k], c[k + 1] + 1, |names|);
      assert false;
    } else if c[k + 1] < c'[k + 1] {
      SpaceGrows(names, c[k], c[k + 1] + 1, c'[k + 1]);
      assert false;
    }
  }

  /** There is one such cut, so sizing and writing cannot but agree. */
  lemma {:induction false} CutUnique(names: seq<bytes>, c: seq<nat>, c': seq<nat>, k: nat)
    requires IsCut(names, c) && IsCut(names, c') && k < |c|
    ensures k < |c'| && c[k] == c'[k]
    decreases k
  {
    if k > 0 {
      CutUnique(names, c, c', k - 1);
      SameNext(names, c, c', k - 1);
      SameNext(names, c', c, k - 1);
    }
  }

  /** Blocks and tail by the only cut: a last chunk over half a block is a block of its own. */
  lemma {:induction false} DirSizeMeans(names: seq<bytes>, c: seq<nat>)
    requires NamesOk(names) && IsCut(names, c)
    ensures var last := Space(names[c[|c| - 1]..]);
            && DirBlocks(names) == (if last > 2048 then |c| else |c| - 1)
            && DirTail(names) == (if last > 2048 then 0 else last)
  {
    var s := Starts(names);
    StartsIsCut(names);
    CutUnique(names, c, s, |c| - 1);
    CutUnique(names, s, c, |s| - 1);
  }

  // ---------- contents ----------

  /** Chunk `k` of the directory; the last one reaches to the end. */
  ghost function Chunk(ds: seq<Dirent>, c: seq<nat>, k: nat): seq<Dirent>
    requires k < |c| && CutOk(Names(ds), c)
  {
    if k + 1 < |c| then assert c[k] < c[k + 1] <= |ds|; ds[c[k]..c[k + 1]] else ds[c[k]..]
  }

  lemma {:induction false} ChunkOk(ds: seq<Dirent>, c: seq<nat>, k: nat)
    requires k < |c| && CutOk(Names(ds), c) && ds != [] && EntriesOk(ds)
    ensures Chunk(ds, c, k) != [] && ChunkSize(Chunk(ds, c, k)) <= 4096 && EntriesOk(Chunk(ds, c, k))
    ensures k + 1 == |c| ==> ChunkSize(Chunk(ds, c, k)) == Open(Names(ds), c)
  {
    if k + 1 < |c| {
      assert c[k] < c[k + 1] <= |ds|;
      assert Names(Chunk(ds, c, k)) == Names(ds)[c[k]..c[k + 1]];
    } else {
      assert Names(Chunk(ds, c, k)) == Names(ds)[c[k]..];
    }
  }

  ghost function PadBlock(x: bytes): (b: bytes)
    ensures |x| <= 4096 ==> |b| == 4096
  {
    x + if |x| <= 4096 then Zeros(4096 - |x|) else []
  }

  /** The first `nb` chunks, each in a block of its own. */
  ghost function BlocksOf(ds: seq<Dirent>, c: seq<nat>, nb: nat): (p: seq<bytes>)
    requires nb <= |c| && CutOk(Names(ds), c)
    ensures |p| == nb
  {
    seq(nb, k requires 0 <= k < nb => PadBlock(EncodeChunk(Chunk(ds, c, k))))
  }

  lemma {:induction false} BlocksOfSizes(ds: seq<Dirent>, c: seq<nat>, nb: nat)
    requires nb <= |c| && CutOk(Names(ds), c) && EntriesOk(ds) && (ds == [] ==> nb == 0)
    ensures forall k {:trigger BlocksOf(ds, c, nb)[k]} :: 0 <= k < nb ==> |BlocksOf(ds, c, nb)[k]| == 4096
    ensures |Flat(BlocksOf(ds, c, nb))| == 4096 * nb
  {
    forall k | 0 <= k < nb
      ensures |BlocksOf(ds, c, nb)[k]| == 4096
    {
      ChunkOk(ds, c, k);
      ChunkLength(Chunk(ds, c, k));
    }
    FlatUniform(BlocksOf(ds, c, nb), 4096);
  }

  /** The out-of-line blocks of the directory. */
  ghost function DirData(ds: seq<Dirent>): (p: seq<bytes>)
    requires EntriesOk(ds)
    ensures |p| == DirBlocks(Names(ds))
  {
    StartsCut(Names(ds));
    BlocksOf(ds, Starts(Names(ds)), DirBlocks(Names(ds)))
  }

  /** What is stored behind the inode. */
  ghost function DirTailData(ds: seq<Dirent>): (b: bytes)
    requires EntriesOk(ds)
  {
    StartsCut(Names(ds));
    var c := Starts(Names(ds));
    if DirBlocks(Names(ds)) == |c| then [] else EncodeChunk(Chunk(ds, c, |c| - 1))
  }

  lemma {:induction false} OpenEmpty(c: seq<nat>)
    requires CutOk([], c)
    ensures Open([], c) == 0
  {
    var names: seq<bytes> := [];
    assert names[0..] == [];
  }

  lemma {:induction false} DirDataSizes(ds: seq<Dirent>)
    requires EntriesOk(ds)
    ensures |Flat(DirData(ds))| == 4096 * DirBlocks(Names(ds))
    ensures |DirTailData(ds)| == DirTail(Names(ds)) <= 2048
  {
    StartsCut(Names(ds));
    var c := Starts(Names(ds));
    var last := Chunk(ds, c, |c| - 1);
    ChunkLength(last);
    if ds == [] {
      assert last == [] && Names(ds) == [] && Names(last) == [];
      OpenEmpty(c);
    } else {
      ChunkOk(ds, c, |c| - 1);
    }
    BlocksOfSizes(ds, c, DirBlocks(Names(ds)));
  }

  // ---------- reading ----------

  /** Reads one block; DirCodec.DecodeBlock is the one the format needs. */
  type Decoder = bytes -> Result<seq<Dirent>, DecodeError>

  function BlockAt(dec: Decoder, img: bytes, o: nat, n: nat): (r: Result<seq<Dirent>, DecodeError>) {
    if o + n <= |img| then dec(img[o..o + n]) else Err(OutOfBounds)
  }

  function Then(a: Result<seq<Dirent>, DecodeError>,
                b: Result<seq<Dirent>, DecodeError>): (r: Result<seq<Dirent>, DecodeError>) {
    if a.Err? then a else if b.Err? then b else Ok(a.value + b.value)
  }

  /** Without a tail the last block ends where the directory does. */
  function OobSize(size: nat, tailpacked: bool, m: nat, k: nat): nat {
    if !tailpacked && k + 1 == m && size % 4096 != 0 then size % 4096 else 4096
  }

  /** The first `k` of `m` out-of-line blocks, stored from `base` on. */
  function DecodeOob(dec: Decoder, img: bytes, base: nat, size: nat, tailpacked: bool, m: nat,
                     k: nat): (r: Result<seq<Dirent>, DecodeError>) {
    if k == 0 then Ok([]) else
    Then(DecodeOob(dec, img, base, size, tailpacked, m, k - 1),
         BlockAt(dec, img, base + 4096 * (k - 1), OobSize(size, tailpacked, m, k - 1)))
  }

  /** A directory of `size` bytes: the out-of-line blocks, then the tail stored at `tailAt`. */
  function DecodeDir(dec: Decoder, img: bytes, base: nat, tailAt: nat, size: nat,
                     tailpacked: bool): (r: Result<seq<Dirent>, DecodeError>) {
    var n := RoundUp(size, 4096) / 4096;
    if !tailpacked then DecodeOob(dec, img, base, size, tailpacked, n, n) else
    if n == 0 then Err(OutOfBounds) else
    Then(DecodeOob(dec, img, base, size, tailpacked, n - 1, n - 1), BlockAt(dec, img, tailAt, size % 4096))
  }

  lemma {:induction false} OobErrorStays(dec: Decoder, img: bytes, base: nat, size: nat, tailpacked: bool, m: nat,
        j: nat, k: nat)
    requires j <= k && DecodeOob(dec, img, base, size, tailpacked, m, j).Err?
    ensures DecodeOob(dec, img, base, size, tailpacked, m, k) == DecodeOob(dec, img, base, size, tailpacked, m, j)
    decreases k
  {
    if j < k { OobErrorStays(dec, img, base, size, tailpacked, m, j, k - 1); }
  }

  method ReadDir(dec: Decoder, img: bytes, base: nat, tailAt: nat, size: nat, tailpacked: bool)
    returns (r: Result<seq<Dirent>, DecodeError>)
    ensures r == DecodeDir(dec, img, base, tailAt, size, tailpacked)
  {
    var n := RoundUp(size, 4096) / 4096;
    if tailpacked && n == 0 { return Err(OutOfBounds); }
    var m := if tailpacked then n - 1 else n;
    var ds := [];
    for k := 0 to m
      invariant DecodeOob(dec, img, base, size, tailpacked, m, k) == Ok(ds)
    {
      r := BlockAt(dec, img, base + 4096 * k, OobSize(size, tailpacked, m, k));
      if r.Err? {
        OobErrorStays(dec, img, base, size, tailpacked, m, k + 1, m);
        return;
      }
      ds := ds + r.value;
    }
    if tailpacked {
      r := BlockAt(dec, img, tailAt, size % 4096);
      if r.Err? { return; }
      ds := ds + r.value;
    }
    return Ok(ds);
  }

  // ---------- reading back ----------

  /** `dec` gives back what EncodeChunk put into a block. */
  ghost predicate Inverts(dec: Decoder) {
    forall b, ds {:trigger Holds(b, ds)} :: Holds(b, ds) && EntriesOk(ds) && ds != [] && ChunkSize(ds) <= 4096 ==>
      dec(b) == Ok(ds)
  }

  lemma {:induction false} DecodeBlockInverts()
    ensures Inverts(DecodeBlock)
  {
    forall b, ds | Holds(b, ds) && EntriesOk(ds) && ds != [] && ChunkSize(ds) <= 4096
      ensures DecodeBlock(b) == Ok(ds)
    {
      BlockRoundTrip(b, ds);
    }
  }

  lemma {:induction false} PadHolds(ds: seq<Dirent>)
    requires ChunkSize(ds) <= 4096
    ensures Holds(PadBlock(EncodeChunk(ds)), ds) && |PadBlock(EncodeChunk(ds))| == 4096
  {
    ChunkLength(ds);
  }

  /** The bytes of block `k` are found where the block address says. */
  lemma {:induction false} OobAt(img: bytes, base: nat, parts: seq<bytes>, k: nat)
    requires At(img, base, Flat(parts)) && k < |parts|
    requires forall i {:trigger parts[i]} :: 0 <= i < |parts| ==> |parts[i]| == 4096
    ensures At(img, base + 4096 * k, parts[k])
  {
    AtFlat(parts, k);
    FlatUniform(parts[..k], 4096);
    AtInside(img, base, Flat(parts), 4096 * k, parts[k]);
  }

  lemma {:induction false} BlockIs(dec: Decoder, img: bytes, o: nat, x: bytes, ds: seq<Dirent>)
    requires Inverts(dec) && At(img, o, x) && Holds(x, ds) && EntriesOk(ds) && ds != [] && ChunkSize(ds) <= 4096
    ensures BlockAt(dec, img, o, |x|) == Ok(ds)
  {
  }

  lemma {:induction false} OobBlockIs(dec: Decoder, img: bytes, o: nat, ds: seq<Dirent>)
    requires Inverts(dec) && At(img, o, PadBlock(EncodeChunk(ds))) && EntriesOk(ds) && ds != [] && ChunkSize(ds) <= 4096
    ensures BlockAt(dec, img, o, 4096) == Ok(ds)
  {
    PadHolds(ds);
    BlockIs(dec, img, o, PadBlock(EncodeChunk(ds)), ds);
  }

  lemma {:induction false} OobBlock(dec: Decoder, img: bytes, base: nat, ds: seq<Dirent>, c: seq<nat>, nb: nat, k: nat)
    requires k < nb <= |c| && CutOk(Names(ds), c) && EntriesOk(ds) && ds != []
    requires Inverts(dec) && At(img, base, Flat(BlocksOf(ds, c, nb)))
    ensures BlockAt(dec, img, base + 4096 * k, 4096) == Ok(Chunk(ds, c, k))
  {
    BlocksOfSizes(ds, c, nb);
    var parts, chunk := BlocksOf(ds, c, nb), Chunk(ds, c, k);
    OobAt(img, base, parts, k);
    ChunkOk(ds, c, k);
    OobBlockIs(dec, img, base + 4096 * k, chunk);
  }

  /** Entries in the first `k` chunks. */
  ghost function Upto(c: seq<nat>, n: nat, k: nat): nat {
    if k < |c| then c[k] else n
  }

  lemma {:induction false} ChunkJoins(ds: seq<Dirent>, c: seq<nat>, k: nat)
    requires k < |c| && CutOk(Names(ds), c)
    ensures c[k] <= |ds| && Upto(c, |ds|, k + 1) <= |ds|
    ensures ds[..c[k]] + Chunk(ds, c, k) == ds[..Upto(c, |ds|, k + 1)]
  {
    if k + 1 < |c| { assert c[k] < c[k + 1] <= |ds|; }
  }

  /** Block `j` holds chunk `j`. */
  ghost predicate ChunkRead(dec: Decoder, img: bytes, base: nat, ds: seq<Dirent>, c: seq<nat>, j: nat)
    requires j < |c| && CutOk(Names(ds), c)
  {
    BlockAt(dec, img, base + 4096 * j, 4096) == Ok(Chunk(ds, c, j))
  }

  lemma {:induction false} OobStep(dec: Decoder, img: bytes, base: nat, size: nat, tailpacked: bool, m: nat, k: nat,
                                   front: seq<Dirent>, chunk: seq<Dirent>)
    requires k > 0 && (!tailpacked ==> size % 4096 == 0)
    requires DecodeOob(dec, img, base, size, tailpacked, m, k - 1) == Ok(front)
    requires BlockAt(dec, img, base + 4096 * (k - 1), 4096) == Ok(chunk)
    ensures DecodeOob(dec, img, base, size, tailpacked, m, k) == Ok(front + chunk)
  {
  }

  lemma {:induction false} OobRoundTrip(dec: Decoder, img: bytes, base: nat, ds: seq<Dirent>, c: seq<nat>, size: nat,
                                    tailpacked: bool, m: nat, k: nat)
    requires k <= m <= |c| && CutOk(Names(ds), c) && (!tailpacked ==> size % 4096 == 0)
    requires forall j: nat {:trigger ChunkRead(dec, img, base, ds, c, j)} :: j < m ==>
               ChunkRead(dec, img, base, ds, c, j)
    ensures Upto(c, |ds|, k) <= |ds|
    ensures DecodeOob(dec, img, base, size, tailpacked, m, k) == Ok(ds[..Upto(c, |ds|, k)])
    decreases k
  {
    if k > 0 {
      OobRoundTrip(dec, img, base, ds, c, size, tailpacked, m, k - 1);
      ChunkJoins(ds, c, k - 1);
      assert ChunkRead(dec, img, base, ds, c, k - 1);
      OobStep(dec, img, base, size, tailpacked, m, k, ds[..Upto(c, |ds|, k - 1)], Chunk(ds, c, k - 1));
    }
  }

  lemma {:induction false} BlocksIn(nb: nat, tail: nat)
    requires tail < 4096
    ensures var size := 4096 * nb + tail;
            size % 4096 == tail && RoundUp(size, 4096) / 4096 == nb + if tail > 0 then 1 else 0
  {
  }

  lemma {:induction false} DirIs(dec: Decoder, img: bytes, base: nat, tailAt: nat, size: nat, nb: nat, tail: nat,
                                 front: seq<Dirent>, last: seq<Dirent>)
    requires tail < 4096 && size == 4096 * nb + tail
    requires DecodeOob(dec, img, base, size, tail > 0, nb, nb) == Ok(front)
    requires tail > 0 ==> BlockAt(dec, img, tailAt, tail) == Ok(last)
    requires tail == 0 ==> last == []
    ensures DecodeDir(dec, img, base, tailAt, size, tail > 0) == Ok(front + last)
  {
    BlocksIn(nb, tail);
    assert tail == 0 ==> front + last == front;
  }

  lemma {:induction false} ChunksOob(dec: Decoder, img: bytes, base: nat, ds: seq<Dirent>, c: seq<nat>, nb: nat,
                                    size: nat, tailpacked: bool)
    requires Inverts(dec) && EntriesOk(ds) && ds != [] && CutOk(Names(ds), c) && nb <= |c|
    requires At(img, base, Flat(BlocksOf(ds, c, nb))) && (!tailpacked ==> size % 4096 == 0)
    ensures Upto(c, |ds|, nb) <= |ds|
    ensures DecodeOob(dec, img, base, size, tailpacked, nb, nb) == Ok(ds[..Upto(c, |ds|, nb)])
  {
    forall j: nat | j < nb
      ensures ChunkRead(dec, img, base, ds, c, j)
    {
      OobBlock(dec, img, base, ds, c, nb, j);
    }
    OobRoundTrip(dec, img, base, ds, c, size, tailpacked, nb, nb);
  }

  lemma {:induction false} TailBlock(dec: Decoder, img: bytes, tailAt: nat, last: seq<Dirent>)
    requires Inverts(dec) && EntriesOk(last) && last != [] && ChunkSize(last) <= 4096
    requires At(img, tailAt, EncodeChunk(last))
    ensures BlockAt(dec, img, tailAt, ChunkSize(last)) == Ok(last)
  {
    ChunkLength(last);
    assert Holds(EncodeChunk(last), last);
    BlockIs(dec, img, tailAt, EncodeChunk(last), last);
  }

  /** With all chunks in blocks. */
  lemma {:induction false} BlocksRoundTrip(dec: Decoder, img: bytes, base: nat, tailAt: nat, size: nat, ds: seq<Dirent>,
        c: seq<nat>)
    requires Inverts(dec) && EntriesOk(ds) && ds != [] && CutOk(Names(ds), c) && size == 4096 * |c|
    requires At(img, base, Flat(BlocksOf(ds, c, |c|)))
    ensures DecodeDir(dec, img, base, tailAt, size, false) == Ok(ds)
  {
    BlocksIn(|c|, 0);
    ChunksOob(dec, img, base, ds, c, |c|, size, false);
    assert ds[..|ds|] == ds && ds + [] == ds;
    DirIs(dec, img, base, tailAt, size, |c|, 0, ds, []);
  }

  /** With the last chunk behind the inode. */
  lemma {:induction false} TailRoundTrip(dec: Decoder, img: bytes, base: nat, tailAt: nat, size: nat, ds: seq<Dirent>,
        c: seq<nat>, nb: nat, tail: nat)
    requires Inverts(dec) && EntriesOk(ds) && ds != [] && CutOk(Names(ds), c) && nb + 1 == |c|
    requires size == 4096 * nb + tail
    requires At(img, base, Flat(BlocksOf(ds, c, nb)))
    requires At(img, tailAt, EncodeChunk(Chunk(ds, c, nb))) && tail == ChunkSize(Chunk(ds, c, nb)) && 0 < tail < 4096
    ensures DecodeDir(dec, img, base, tailAt, size, true) == Ok(ds)
  {
    var last := Chunk(ds, c, nb);
    assert BlockAt(dec, img, tailAt, tail) == Ok(last) by {
      ChunkOk(ds, c, nb);
      TailBlock(dec, img, tailAt, last);
    }
    ChunksOob(dec, img, base, ds, c, nb, size, true);
    var front := ds[..c[nb]];
    assert front + last == ds by { ChunkJoins(ds, c, nb); }
    DirIs(dec, img, base, tailAt, size, nb, tail, front, last);
  }

  /** Reading a directory back gives exactly the entries written, in order. */
  lemma {:induction false} DirRoundTrip(dec: Decoder, img: bytes, base: nat, tailAt: nat, size: nat, ds: seq<Dirent>)
    requires Inverts(dec) && EntriesOk(ds) && size == 4096 * DirBlocks(Names(ds)) + DirTail(Names(ds))
    requires At(img, base, Flat(DirData(ds))) && At(img, tailAt, DirTailData(ds))
    ensures DecodeDir(dec, img, base, tailAt, size, DirTail(Names(ds)) > 0) == Ok(ds)
  {
    StartsCut(Names(ds));
    var c, nb, tail := Starts(Names(ds)), DirBlocks(Names(ds)), DirTail(Names(ds));
    if ds == [] {
      assert Names(ds) == [];
      OpenEmpty(c);
      DirIs(dec, img, base, tailAt, size, nb, tail, [], []);
    } else {
      ChunkOk(ds, c, |c| - 1);
      if nb == |c| {
        BlocksRoundTrip(dec, img, base, tailAt, size, ds, c);
      } else {
        assert Open(Names(ds), c) > 0;
        TailRoundTrip(dec, img, base, tailAt, size, ds, c, nb, tail);
      }
    }
  }
}
