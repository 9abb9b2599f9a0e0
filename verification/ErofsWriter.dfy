/** The write pass: bytes are appended one structure after the other, in the order of the inode list. */
module ErofsWriter {
  import opened Common
  import opened Bytes
  import opened DirCodec
  import opened DirBlocks
  import opened DirWriting
  import opened ImageLayout
  import opened Xattrs
  import opened XattrArea
  import opened SharedXattrs
  import opened NodeXattrs

  lemma {:induction false} ZerosJoin(a: nat, b: nat)
    ensures Zeros(a) + Zeros(b) == Zeros(a + b)
  {
  }

  class Writer {
    var out: bytes

    constructor ()
      ensures out == []
    {
      out := [];
    }

    method Write(x: bytes)
      modifies this
      ensures out == old(out) + x
    {
      out := out + x;
    }

    /** Padding goes out in pieces of 256 bytes. */
    method WritePad(n: nat)
      modifies this
      ensures out == old(out) + Zeros(n)
    {
      var i := 0;
      while i < n
        invariant i <= n && out == old(out) + Zeros(i)
      {
        var piece := Min(256, n - i);
        Write(Zeros(piece));
        ZerosJoin(i, piece);
        i := i + piece;
      }
    }

    method WriteAlign(alignment: nat)
      requires alignment > 0
      modifies this
      ensures out == old(out) + AlignPad(|old(out)|, alignment) && |out| == RoundUp(|old(out)|, alignment)
    {
      var end := RoundUp(|out|, alignment);
      if end > |out| {
        WritePad(end - |out|);
      }
    }

    method WriteXattr(e: Stored)
      requires |out| % 4 == 0
      modifies this
      ensures out == old(out) + EntryBytes(e) && |out| % 4 == 0
    {
      ghost var o := out;
      Write(EntryHead(e));
      Write(e.rest);
      Write(e.value);
      assert out == o + (EntryHead(e) + e.rest + e.value);
      PadWithin(|o|, EntryLength(e));
      WriteAlign(4);
      assert out == o + EntryBytes(e);
    }

    method WriteHeads(ds: seq<Dirent>)
      modifies this
      ensures out == old(out) + Flat(Heads(ds))
    {
      ghost var o, heads := out, Heads(ds);
      var nameoff := 12 * |ds|;
      for i := 0 to |ds|
        invariant nameoff == NameOff(ds, i) && out == o + Flat(heads[..i])
      {
        HeadStep(ds, i, nameoff);
        Write(DirentBytes(ds[i], nameoff));
        nameoff := nameoff + |ds[i].name|;
      }
      assert heads[..|ds|] == heads;
    }

    method WriteNames(ds: seq<Dirent>)
      modifies this
      ensures out == old(out) + Flat(Names(ds))
    {
      ghost var o, names := out, Names(ds);
      for i := 0 to |ds|
        invariant out == o + Flat(names[..i])
      {
        FlatPrefix(names, i);
        Write(ds[i].name);
      }
      assert names[..|ds|] == names;
    }

    /** A directory chunk: all dirents, then all names, then alignment. */
    method WriteChunk(ds: seq<Dirent>, alignment: nat)
      requires alignment > 0
      modifies this
      ensures out == old(out) + EncodeChunk(ds) + AlignPad(|old(out) + EncodeChunk(ds)|, alignment)
    {
      ghost var o := out;
      WriteHeads(ds);
      WriteNames(ds);
      assert out == o + EncodeChunk(ds);
      WriteAlign(alignment);
    }

    /** A chunk in a block of its own. */
    method WriteBlock(ds: seq<Dirent>)
      requires |out| % 4096 == 0 && 0 < ChunkSize(ds) <= 4096
      modifies this
      ensures out == old(out) + PadBlock(EncodeChunk(ds)) && |out| % 4096 == 0
    {
      ghost var o := out;
      WriteChunk(ds, 4096);
      ChunkLength(ds);
      FillBlock(|o|, ChunkSize(ds));
      assert out == o + PadBlock(EncodeChunk(ds));
    }

    method CloseBlock(ghost chunk: seq<Dirent>, ds: seq<Dirent>, writeBlocks: bool, ghost o: bytes, ghost closed: bytes)
      returns (ghost closed': bytes)
      requires ds == chunk && 0 < ChunkSize(chunk) <= 4096
      requires out == o + (if writeBlocks then closed else []) && (writeBlocks ==> |out| % 4096 == 0)
      modifies this
      ensures closed' == closed + PadBlock(EncodeChunk(chunk))
      ensures out == o + (if writeBlocks then closed' else []) && (writeBlocks ==> |out| % 4096 == 0)
    {
      closed' := closed + PadBlock(EncodeChunk(chunk));
      if writeBlocks {
        WriteBlock(ds);
      }
    }

    /** What has been written besides `o`: the closed blocks, if blocks are written. */
    ghost predicate Output(o: bytes, closed: bytes, writeBlocks: bool)
      reads this
    {
      out == o + (if writeBlocks then closed else []) && (writeBlocks ==> |out| % 4096 == 0)
    }

    method WalkOne(ds: seq<Dirent>, i: nat, writeBlocks: bool, ghost o: bytes,
                   written: nat, size: nat, start: nat, ghost c: seq<nat>, ghost closed: bytes)
      returns (written': nat, size': nat, start': nat, ghost c': seq<nat>, ghost closed': bytes)
      requires i < |ds| && NameOk(ds[i].name)
      requires Walked(ds[..i], c, closed, written, size, start) && Output(o, closed, writeBlocks)
      modifies this
      ensures Walked(ds[..i + 1], c', closed', written', size', start') && Output(o, closed', writeBlocks)
    {
      var len := 12 + |ds[i].name|;
      WalkOn(ds, i, c, closed, written, size, start, len);
      if size + len > 4096 {
        closed' := CloseBlock(ds[start..i], ds[start..i], writeBlocks, o, closed);
        return written + 1, len, i, c + [i], closed';
      }
      return written, size + len, start, c, closed;
    }

    /** Walks the entries and cuts them into chunks again. */
    method WalkEntries(ds: seq<Dirent>, writeBlocks: bool)
      returns (blockWritten: nat, blockSize: nat, first: nat, ghost c: seq<nat>, ghost closed: bytes)
      requires EntriesOk(ds) && (writeBlocks ==> |out| % 4096 == 0)
      modifies this
      ensures Walked(ds, c, closed, blockWritten, blockSize, first)
      ensures Output(old(out), closed, writeBlocks)
    {
      ghost var o := out;
      blockSize, blockWritten, first := 0, 0, 0;
      c, closed := WalkStart(ds);
      for i := 0 to |ds|
        invariant Walked(ds[..i], c, closed, blockWritten, blockSize, first) && Output(o, closed, writeBlocks)
      {
        blockWritten, blockSize, first, c, closed := WalkOne(ds, i, writeBlocks, o, blockWritten, blockSize, first, c,
            closed);
      }
      WalkAll(ds, c, closed, blockWritten, blockSize, first);
    }

    /** Blocks and tail of a directory are written in different passes. */
    method WriteDentries(ds: seq<Dirent>, nBlocks: nat, writeBlocks: bool, writeTail: bool)
      requires EntriesOk(ds) && (ds != [] ==> nBlocks == DirBlocks.DirBlocks(Names(ds)))
      requires (writeBlocks ==> |out| % 4096 == 0)
      modifies this
      ensures out == old(out) + (if writeBlocks then Flat(DirData(ds)) else
                []) + (if writeTail then DirTailData(ds) else [])
    {
      ghost var o := out;
      var blockWritten, blockSize, first, c, closed := WalkEntries(ds, writeBlocks);
      WalkMeans(ds, c, closed, blockWritten, blockSize, first, nBlocks);
      WriteLast(o, closed, Flat(DirData(ds)), DirTailData(ds), ds[first..], nBlocks, blockWritten, blockSize,
          writeBlocks, writeTail);
    }

    /** The last chunk goes where the sizing pass decided; a file without entries only aligns, which it already is. */
    method WriteLast(ghost o: bytes, ghost closed: bytes, ghost data: bytes, ghost tail: bytes, last: seq<Dirent>,
                     nBlocks: nat, blockWritten: nat,
                     blockSize: nat, writeBlocks: bool, writeTail: bool)
      requires blockSize == ChunkSize(last) <= 4096 && (writeBlocks ==> |out| % 4096 == 0)
      requires out == o + (if writeBlocks then closed else [])
      requires blockSize == 0 ==> data == closed && tail == []
      requires blockSize > 0 && blockWritten < nBlocks ==> data == closed + PadBlock(EncodeChunk(last)) && tail == []
      requires blockSize > 0 && blockWritten >= nBlocks ==> data == closed && tail == EncodeChunk(last)
      modifies this
      ensures out == o + (if writeBlocks then data else []) + (if writeTail then tail else [])
    {
      ChunkLength(last);
      var size := blockSize;
      if blockWritten < nBlocks {
        if writeBlocks {
          if size == 0 { WriteChunk(last, 4096); } else { WriteBlock(last); }
        }
        size := 0;
      }
      if writeTail && size > 0 {
        WriteChunk(last, 1);
      }
    }

    // ---------- attributes ----------

    method WriteIndexes(slots: seq<Option<nat>>, inodesEnd: nat)
      modifies this
      ensures out == old(out) + Flat(Indexes(Ids(slots, inodesEnd)))
    {
      ghost var o := out;
      assert Indexes(Ids(slots[..0], inodesEnd)) == [];
      for i := 0 to |slots|
        invariant out == o + Flat(Indexes(Ids(slots[..i], inodesEnd)))
      {
        IdsStep(slots, i, inodesEnd);
        if slots[i].Some? {
          var offset := inodesEnd % 4096 + slots[i].value;
          Write(LE(offset / 4, 4));
        }
      }
      assert slots[..|slots|] == slots;
    }

    method WriteUnshared(xs: seq<Xattr>, slots: seq<Option<nat>>, store: Storer)
      requires |slots| == |xs| && |out| % 4 == 0
      modifies this
      ensures out == old(out) + Flat(Encoded(StoredAll(Unshared(xs, slots), store)))
    {
      ghost var o := out;
      UnsharedEnds(xs, slots, store);
      for i := 0 to |xs|
        invariant |out| % 4 == 0 && out == o + UnsharedBytes(xs, slots, store, i)
      {
        UnsharedStep(xs, slots, store, i);
        if slots[i].None? {
          Assoc(o, UnsharedBytes(xs, slots, store, i), EntryBytes(store(xs[i])));
          WriteXattr(store(xs[i]));
        }
      }
    }

    /** The attribute area of an inode; it takes the space that the layout reserved. */
    method WriteArea(xs: seq<Xattr>, slots: seq<Option<nat>>, store: Storer, filter: nat, inodesEnd: nat, size: nat,
                     nShared: nat)
      requires |slots| == |xs| && |out| % 4 == 0 && nShared == |Shared(xs, slots)|
      requires size == AreaSize(nShared, TableSize(Unshared(xs, slots), store))
      modifies this
      ensures out == old(out) + AreaOf(xs, slots, store, filter, inodesEnd) && |out| - |old(out)| == size
    {
      ghost var o := out;
      AreaOfLength(xs, slots, store, filter, inodesEnd);
      SharedCount(xs, slots);
      if size > 0 {
        Write(HeaderBytes(filter, nShared));
        WriteIndexes(slots, inodesEnd);
        FlatUniform(Indexes(Ids(slots, inodesEnd)), 4);
        WriteUnshared(xs, slots, store);
        AreaShape(xs, slots, store, filter, inodesEnd);
        assert |out| - |o| == size;
      }
    }
  }

  lemma {:induction false} AreaShape(xs: seq<Xattr>, slots: seq<Option<nat>>, store: Storer, filter: nat,
                                    inodesEnd: nat)
    requires |slots| == |xs| && AreaOf(xs, slots, store, filter, inodesEnd) != []
    ensures AreaOf(xs, slots, store, filter, inodesEnd)
         == HeaderBytes(filter, |Refs(slots)|) + Flat(Indexes(Ids(slots, inodesEnd)))
            + Flat(Encoded(StoredAll(Unshared(xs, slots), store)))
  {
  }

  lemma {:induction false} HeadStep(ds: seq<Dirent>, i: nat, nameoff: nat)
    requires i < |ds| && nameoff == NameOff(ds, i)
    ensures NameOff(ds, i + 1) == nameoff + |ds[i].name|
    ensures Flat(Heads(ds)[..i + 1]) == Flat(Heads(ds)[..i]) + DirentBytes(ds[i], nameoff)
  {
    FlatSlice(Names(ds), i);
    FlatPrefix(Heads(ds), i);
  }

  lemma {:induction false} FillBlock(start: nat, n: nat)
    requires start % 4096 == 0 && 0 < n <= 4096
    ensures AlignPad(start + n, 4096) == Zeros(4096 - n)
  {
    assert RoundUp(start + n, 4096) == start + 4096;
  }

  /** Aligning the end of an entry that started aligned pads the entry itself. */
  lemma {:induction false} PadWithin(start: nat, n: nat)
    requires start % 4 == 0
    ensures AlignPad(start + n, 4) == Zeros(RoundUp(n, 4) - n)
  {
    assert RoundUp(start + n, 4) == start + RoundUp(n, 4);
  }
}
