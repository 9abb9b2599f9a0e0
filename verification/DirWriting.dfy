/** How the blocks of a directory grow while its entries are walked. */
module DirWriting {
  import opened Bytes
  import opened DirCodec
  import opened DirBlocks

  /** The blocks closed so far, when chunks start at `c`. */
  ghost function Closed(ds: seq<Dirent>, c: seq<nat>): bytes
    requires CutOk(Names(ds), c)
  {
    Flat(BlocksOf(ds, c, |c| - 1))
  }

  lemma {:induction false} NamesAppend(front: seq<Dirent>, d: Dirent)
    ensures Names(front + [d]) == Names(front) + [d.name]
  {
  }

  /** Blocks are not touched by entries that come later. */
  lemma {:induction false} BlocksKept(front: seq<Dirent>, d: Dirent, c: seq<nat>, c': seq<nat>)
    requires CutOk(Names(front), c) && CutOk(Names(front + [d]), c') && c <= c'
    ensures BlocksOf(front + [d], c', |c| - 1) == BlocksOf(front, c, |c| - 1)
  {
    var n := |c| - 1;
    forall k | 0 <= k < n
      ensures BlocksOf(front + [d], c', n)[k] == BlocksOf(front, c, n)[k]
    {
      assert c[k] < c[k + 1] <= |front| && c'[k] == c[k] && c'[k + 1] == c[k + 1];
      assert (front + [d])[c[k]..c[k + 1]] == front[c[k]..c[k + 1]];
    }
  }

  lemma {:induction false} BlocksPlusOne(ds: seq<Dirent>, c: seq<nat>, n: nat)
    requires n < |c| && CutOk(Names(ds), c)
    ensures Flat(BlocksOf(ds, c, n + 1)) == Flat(BlocksOf(ds, c, n)) + PadBlock(EncodeChunk(Chunk(ds, c, n)))
  {
    var b := BlocksOf(ds, c, n + 1);
    assert b[..n] == BlocksOf(ds, c, n);
    FlatPrefix(b, n);
    assert b[..n + 1] == b;
  }

  /** An entry that does not fit closes the chunk before it. */
  lemma {:induction false} CloseChunk(front: seq<Dirent>, d: Dirent, c: seq<nat>, c': seq<nat>)
    requires CutOk(Names(front), c) && CutOk(Names(front + [d]), c') && c' == c + [|front|]
    ensures c[|c| - 1] <= |front|
    ensures Closed(front + [d], c') == Closed(front, c) + PadBlock(EncodeChunk(front[c[|c| - 1]..]))
  {
    var n := |c| - 1;
    BlocksKept(front, d, c, c');
    BlocksPlusOne(front + [d], c', n);
    assert (front + [d])[c[n]..|front|] == front[c[n]..];
  }

  /** One more entry: the next cut, and what it means for the blocks closed so far. */
  lemma {:induction false} WalkStep(front: seq<Dirent>, d: Dirent, c: seq<nat>, fill: nat, c': seq<nat>)
    requires CutOk(Names(front), c) && NameOk(d.name) && fill == Open(Names(front), c)
    requires c' == Next(Names(front), d.name, c)
    ensures CutOk(Names(front + [d]), c') && c[|c| - 1] <= |front|
    ensures fill + 12 + |d.name| > 4096 ==>
              && c' == c + [|front|] && Open(Names(front + [d]), c') == 12 + |d.name|
              && Closed(front + [d], c') == Closed(front, c) + PadBlock(EncodeChunk(front[c[|c| - 1]..]))
    ensures fill + 12 + |d.name| <= 4096 ==>
              c' == c && Open(Names(front + [d]), c') ==
                fill + 12 + |d.name| && Closed(front + [d], c') == Closed(front, c)
  {
    var names := Names(front);
    NamesAppend(front, d);
    CutExtend(names, d.name, c);
    OpenStep(names, d.name, c);
    if fill + 12 + |d.name| > 4096 { CloseChunk(front, d, c, c'); } else { BlocksKept(front, d, c, c'); }
  }

  /** What is left to write when all entries have been walked. */
  lemma {:induction false} CloseEnd(ds: seq<Dirent>, c: seq<nat>, nb: nat)
    requires EntriesOk(ds) && c == Starts(Names(ds)) && nb == DirBlocks.DirBlocks(Names(ds)) && CutOk(Names(ds), c)
    ensures c[|c| - 1] <= |ds| && |c| - 1 <= nb <= |c|
    ensures nb == |c| ==>
              Flat(DirData(ds)) == Closed(ds, c) + PadBlock(EncodeChunk(ds[c[|c| - 1]..])) && DirTailData(ds) == []
    ensures nb < |c| ==> Flat(DirData(ds)) == Closed(ds, c) && DirTailData(ds) == EncodeChunk(ds[c[|c| - 1]..])
  {
    BlocksPlusOne(ds, c, |c| - 1);
  }

  lemma {:induction false} OpenChunk(ds: seq<Dirent>, c: seq<nat>)
    requires CutOk(Names(ds), c)
    ensures c[|c| - 1] <= |ds| && ChunkSize(ds[c[|c| - 1]..]) == Open(Names(ds), c) <= 4096
  {
    assert Names(ds[c[|c| - 1]..]) == Names(ds)[c[|c| - 1]..];
  }

  /** The counters of the walk after the entries `front`, and the blocks closed until then. */
  ghost predicate Walked(front: seq<Dirent>, c: seq<nat>, closed: bytes, written: nat, fill: nat, first: nat) {
    && CutOk(Names(front), c) && c == Starts(Names(front)) && closed == Closed(front, c)
    && written == |c| - 1 && fill == Open(Names(front), c) && first == c[|c| - 1] <= |front|
  }

  lemma {:induction false} WalkStart(ds: seq<Dirent>) returns (c: seq<nat>, closed: bytes)
    ensures closed == [] && Walked(ds[..0], c, closed, 0, 0, 0)
  {
    c, closed := [0], [];
    assert ds[..0] == [] && Names([]) == [] && Names([])[0..] == [];
    assert BlocksOf([], [0], 0) == [];
  }

  lemma {:induction false} WalkAll(ds: seq<Dirent>, c: seq<nat>, closed: bytes, written: nat, fill: nat, first: nat)
    requires Walked(ds[..|ds|], c, closed, written, fill, first)
    ensures Walked(ds, c, closed, written, fill, first)
  {
    assert ds[..|ds|] == ds;
  }

  lemma {:induction false} WalkNext(front: seq<Dirent>, d: Dirent, c: seq<nat>, closed: bytes, written: nat, fill: nat,
                                    first: nat, len: nat)
    requires Walked(front, c, closed, written, fill, first) && NameOk(d.name) && len == 12 + |d.name|
    ensures fill + len > 4096 ==>
              && 0 < ChunkSize(front[first..]) <= 4096
              && Walked(front + [d], c + [|front|], closed + PadBlock(EncodeChunk(front[first..])), written + 1, len,
                        |front|)
    ensures fill + len <= 4096 ==> Walked(front + [d], c, closed, written, fill + len, first)
  {
    WalkStep(front, d, c, fill, Next(Names(front), d.name, c));
    NamesAppend(front, d);
    StartsAppend(Names(front), d.name);
    OpenChunk(front, c);
  }

  lemma {:induction false} Parts<T>(s: seq<T>, i: nat, first: nat)
    requires first <= i < |s|
    ensures s[..i + 1] == s[..i] + [s[i]] && s[..i][first..] == s[first..i]
  {
  }

  /** The same for entry `i` of a directory. */
  lemma {:induction false} WalkOn(ds: seq<Dirent>, i: nat, c: seq<nat>, closed: bytes, written: nat, fill: nat,
                                  first: nat, len: nat)
    requires i < |ds| && Walked(ds[..i], c, closed, written, fill, first) && NameOk(ds[i].name)
    requires len == 12 + |ds[i].name|
    ensures first <= i
    ensures fill + len > 4096 ==>
              && 0 < ChunkSize(ds[first..i]) <= 4096
              && Walked(ds[..i + 1], c + [i], closed + PadBlock(EncodeChunk(ds[first..i])), written + 1, len, i)
    ensures fill + len <= 4096 ==> Walked(ds[..i + 1], c, closed, written, fill + len, first)
  {
    Parts(ds, i, first);
    WalkNext(ds[..i], ds[i], c, closed, written, fill, first, len);
  }

  lemma {:induction false} WalkEnd(ds: seq<Dirent>, c: seq<nat>, closed: bytes, written: nat, fill: nat, first: nat,
                                   nBlocks: nat)
    requires EntriesOk(ds) && Walked(ds, c, closed, written, fill, first) && nBlocks == DirBlocks.DirBlocks(Names(ds))
    requires ds != []
    ensures 0 < ChunkSize(ds[first..]) == fill <= 4096
    ensures written < nBlocks ==>
              Flat(DirData(ds)) == closed + PadBlock(EncodeChunk(ds[first..])) && DirTailData(ds) == []
    ensures written >= nBlocks ==> Flat(DirData(ds)) == closed && DirTailData(ds) == EncodeChunk(ds[first..])
  {
    CloseEnd(ds, c, nBlocks);
    OpenChunk(ds, c);
  }

  lemma {:induction false} WalkNothing(c: seq<nat>, closed: bytes, written: nat, fill: nat, first: nat)
    requires Walked([], c, closed, written, fill, first) && EntriesOk([])
    ensures closed == [] && fill == 0 && first == 0 && EncodeChunk([]) == [] && Flat(DirData([])) == []
    ensures DirTailData([]) == []
  {
    assert Names([]) == [];
    OpenEmpty(c);
    CloseEnd([], c, 0);
    assert BlocksOf([], c, 0) == [];
  }

  lemma {:induction false} WalkMeans(ds: seq<Dirent>, c: seq<nat>, closed: bytes, written: nat, fill: nat, first: nat,
                                    nBlocks: nat)
    requires EntriesOk(ds) && Walked(ds, c, closed, written, fill, first)
    requires (ds != [] ==> nBlocks == DirBlocks.DirBlocks(Names(ds)))
    ensures first <= |ds| && ChunkSize(ds[first..]) == fill <= 4096
    ensures fill == 0 ==> Flat(DirData(ds)) == closed && DirTailData(ds) == []
    ensures fill > 0 && written < nBlocks ==>
              Flat(DirData(ds)) == closed + PadBlock(EncodeChunk(ds[first..])) && DirTailData(ds) == []
    ensures fill > 0 && written >= nBlocks ==>
              Flat(DirData(ds)) == closed && DirTailData(ds) == EncodeChunk(ds[first..])
  {
    if ds == [] {
      WalkNothing(c, closed, written, fill, first);
      assert Names(ds[first..]) == [];
    } else {
      WalkEnd(ds, c, closed, written, fill, first, nBlocks);
    }
  }
}
