/** Writing whole inodes, their data blocks and the image; the assertions are those of the source. */
module ImageWriter {
  import opened Common
  import opened Bytes
  import opened Chunking
  import opened DirCodec
  import opened DirBlocks
  import opened Layout
  import opened ImageLayout
  import opened InodeCodec
  import opened Xattrs
  import opened XattrArea
  import opened SharedXattrs
  import opened NodeXattrs
  import opened ErofsNode
  import opened NodeReader
  import opened BodyReader
  import opened ErofsImage
  import opened ErofsWriter
  import opened ImageFormat

  method WriteNullChunks(w: Writer, n: nat)
    modifies w
    ensures w.out == old(w.out) + NullChunks(n)
  {
    ghost var o := w.out;
    for i := 0 to n
      invariant w.out == o + NullChunks(i)
    {
      w.Write([255, 255, 255, 255]);
      assert NullChunks(i) + [255, 255, 255, 255] == NullChunks(i + 1);
    }
  }

  /** What the writer may rely on for the content of one inode. */
  ghost predicate BodyPlaced(mode: nat, body: Body, ds: seq<Dirent>, pl: Place) {
    && BodyOk(mode, body) && Named(body, ds) && (!body.Directory? ==> ds == [])
    && |TailOf(body, ds, pl)| == pl.tail && |DataOf(body, ds, pl)| == 4096 * pl.nBlocks
    && (body.Directory? || body.Inline? || body.Plain? ==> pl.tail == BodyTail(body) && pl.nBlocks == BodyBlocks(body))
    && (body.Symlink? || body.Inline? || body.External? ==> pl.nBlocks <= 1)
  }

  lemma {:induction false} NothingBefore(b: bytes)
    ensures [] + b == b
  {
  }

  method WriteDirTail(w: Writer, ds: seq<Dirent>, nBlocks: nat)
    requires EntriesOk(ds) && nBlocks == DirBlocks.DirBlocks(Names(ds))
    modifies w
    ensures w.out == old(w.out) + DirTailData(ds)
  {
    ghost var o, tail := w.out, DirTailData(ds);
    w.WriteDentries(ds, nBlocks, false, true);
    assert w.out == o + [] + tail;
    Assoc(o, [], tail);
    NothingBefore(tail);
  }

  /** The part of the content kept behind the inode. */
  method WriteTail(w: Writer, ghost mode: nat, body: Body, ds: seq<Dirent>, pl: Place)
    requires BodyPlaced(mode, body, ds, pl)
    modifies w
    ensures w.out == old(w.out) + TailOf(body, ds, pl)
  {
    match body {
      case Directory(_) =>
        WriteDirTail(w, ds, pl.nBlocks);
      case Symlink(target) =>
        if pl.nBlocks == 0 { w.Write(target); }
      case Inline(content) =>
        if pl.tail > 0 { w.Write(content[|content| - pl.tail..]); }
      case External(size) =>
        if pl.tail > 0 {
          assert pl.nBlocks == 0 || pl.nBlocks == 1;
          WriteNullChunks(w, ChunkCount(size));
        }
      case Plain(_) =>
    }
  }

  /** The loop of the source returns after its first block; as a file has at most one, nothing is lost. */
  method WriteBlocks(w: Writer, target: bytes, nBlocks: nat)
    requires nBlocks <= 1 && |w.out| % 4096 == 0 && 1 <= |target|
    modifies w
    ensures w.out == old(w.out) + if nBlocks > 0 then PadBlock(target[..Min(|target|, 4096)]) else []
  {
    ghost var o := w.out;
    if nBlocks > 0 {
      var len := Min(|target|, 4096);
      w.Write(target[..len]);
      FillBlock(|o|, len);
      w.WriteAlign(4096);
    }
  }

  method WriteFileContent(w: Writer, ghost mode: nat, body: Body, ghost ds: seq<Dirent>, pl: Place)
    requires BodyPlaced(mode, body, ds, pl) && |w.out| % 4096 == 0
    modifies w
    ensures w.out == old(w.out) + if body.Directory? then [] else DataOf(body, ds, pl)
  {
    match body {
      case Directory(_) =>
      case Symlink(target) =>
        WriteBlocks(w, target, pl.nBlocks);
      case Inline(content) =>
        WriteBlocks(w, content, pl.nBlocks);
      case External(_) =>
        if pl.nBlocks > 0 {
          assert pl.nBlocks == 1;
          WriteNullChunks(w, 1024);
        }
      case Plain(_) =>
    }
  }

  lemma {:induction false} NoEntries(ds: seq<Dirent>)
    requires ds == [] && EntriesOk(ds)
    ensures Flat(DirData(ds)) == []
  {
    DirDataSizes(ds);
    assert Names(ds) == [];
    StartsCut([]);
    OpenEmpty(Starts([]));
  }

  method WriteDirData(w: Writer, ds: seq<Dirent>, nBlocks: nat)
    requires EntriesOk(ds) && (ds != [] ==> nBlocks == DirBlocks.DirBlocks(Names(ds))) && |w.out| % 4096 == 0
    modifies w
    ensures w.out == old(w.out) + Flat(DirData(ds)) && |w.out| % 4096 == 0
  {
    ghost var o, data, n := |w.out|, Flat(DirData(ds)), DirBlocks.DirBlocks(Names(ds));
    assert |data| == 4096 * n by { DirDataSizes(ds); }
    w.WriteDentries(ds, nBlocks, true, false);
    KeepsAligned(o, n);
  }

  lemma {:induction false} KeepsAligned(n: nat, k: nat)
    requires n % 4096 == 0
    ensures (n + 4096 * k) % 4096 == 0
  {
  }

  /** The data blocks of one inode; the directory pass does nothing for files. */
  method WriteData(w: Writer, ghost mode: nat, body: Body, ds: seq<Dirent>, pl: Place)
    requires BodyPlaced(mode, body, ds, pl) && |w.out| % 4096 == 0
    modifies w
    ensures w.out == old(w.out) + DataOf(body, ds, pl)
  {
    ghost var o := w.out;
    assert ds != [] ==> pl.nBlocks == DirBlocks.DirBlocks(Names(ds));
    WriteDirData(w, ds, pl.nBlocks);
    ghost var d := w.out;
    WriteFileContent(w, mode, body, ds, pl);
    if body.Directory? {
      assert d == o + DataOf(body, ds, pl);
    } else {
      NoEntries(ds);
      assert d == o;
    }
  }

  // ---------- inodes ----------

  /** The size as the writer computes it, from what the layout left of the content. */
  function SizeField(body: Body, pl: Place): nat {
    match body
    case Directory(_) => 4096 * pl.nBlocks + pl.tail
    case Symlink(target) => if pl.nBlocks == 0 then pl.tail else |target|
    case Inline(content) => |content|
    case External(size) => size
    case Plain(_) => 0
  }

  lemma {:induction false} SizeFieldIs(mode: nat, body: Body, ds: seq<Dirent>, pl: Place)
    requires BodyPlaced(mode, body, ds, pl)
    ensures SizeField(body, pl) == FileSize(body)
  {
  }

  lemma {:induction false} InodeWords(n: nat, compact: bool)
    requires n % 4 == 0
    ensures (n + if compact then 32 else 64) % 4 == 0
  {
  }

  method WriteInode(w: Writer, n: Inode, ghost ds: seq<Dirent>, pl: Place, compact: bool, icount: nat, currentEnd: nat)
    requires BodyPlaced(n.mode, n.body, ds, pl) && |w.out| % 4 == 0
    modifies w
    ensures w.out == old(w.out) + InodeBytes(FieldsOf(n, pl, icount, currentEnd), compact) && |w.out| % 4 == 0
  {
    InodeWords(|w.out|, compact);
    SizeFieldIs(n.mode, n.body, ds, pl);
    var f := Fields(LayoutOf(n.body, pl), icount, n.mode, n.nlink, SizeField(n.body, pl), WordOf(n, pl, currentEnd),
        n.ino, n.uid, n.gid, n.sec, n.nsec);
    w.Write(InodeBytes(f, compact));
  }

  /** What the layout passes promise the write pass about inode `i`. */
  ghost predicate ReadyAt(p: Plan, i: nat)
    requires Shaped(p) && i < |p.nodes|
  {
    && WrittenShape(WrittenOf(p, i)) && BodyPlaced(p.nodes[i].mode, p.nodes[i].body, WrittenOf(p, i).ds, p.ps[i])
    && p.ps[i].pos == End(p.ps[..i]) + p.ps[i].ipad && p.ps[i].pos % 4 == 0 && p.ps[i].pos % 32 == 0
    && p.ps[i].isize == InodeSize(p.compacts[i]) + |WrittenArea(p.c, WrittenOf(p, i))| + p.ps[i].tail
    && WrittenOf(p, i).dataAt % 4096 == 0
  }

  ghost predicate Ready(p: Plan) {
    AllWritten(p) && forall i: nat {:trigger ReadyAt(p, i)} :: i < |p.nodes| ==> ReadyAt(p, i)
  }

  lemma {:induction false} PlanReadyAt(p: Plan, i: nat)
    requires Shaped(p) && i < |p.nodes| && PlanNode(p, i)
    ensures ReadyAt(p, i)
  {
    var x := WrittenOf(p, i);
    BodyFills(x.n.mode, x.n.body, x.ds, InodeSize(x.compact), |WrittenArea(p.c, x)|, End(p.ps[..i]), x.pl);
    SlotWords(p.ps[i].pos);
  }

  lemma {:induction false} PlanReady(p: Plan)
    requires Planned(p) && ImageSize(p) < 0x1_0000_0000
    ensures Ready(p)
  {
    PlanWritten(p);
    forall i: nat | i < |p.nodes|
      ensures ReadyAt(p, i)
    {
      NodeFromPlan(p, i);
      PlanReadyAt(p, i);
    }
  }

  /** Size and word count of the attribute area, worked out again for the write pass. */
  method AreaCounts(p: Plan, i: nat) returns (nShared: nat, size: nat, icount: nat)
    requires Shaped(p) && i < |p.nodes| && WrittenShape(WrittenOf(p, i))
    ensures size == |WrittenArea(p.c, WrittenOf(p, i))| && icount == Max(Icount(size), 0) == Icount(size)
    ensures nShared == |Shared(p.nodes[i].xattrs, p.slots[i])|
    ensures size == AreaSize(nShared, TableSize(Unshared(p.nodes[i].xattrs, p.slots[i]), p.c.store))
  {
    ghost var x := WrittenOf(p, i);
    WrittenIcount(p.c, x);
    AreaOfLength(x.n.xattrs, x.slots, p.c.store, x.filter, p.c.inodesEnd);
    var unshared;
    nShared, unshared := ComputeCounts(p.nodes[i].xattrs, p.slots[i], p.c.store);
    size := AreaSize(nShared, unshared);
    icount := Icount(size);
  }

  /** Inode, attributes and tail. */
  method WriteParts(w: Writer, n: Inode, ds: seq<Dirent>, pl: Place, compact: bool, icount: nat, currentEnd: nat,
                    slots: seq<Option<nat>>, store: Storer,
                    filter: nat, inodesEnd: nat, size: nat, nShared: nat)
    requires BodyPlaced(n.mode, n.body, ds, pl) && |w.out| % 4 == 0
    requires |slots| == |n.xattrs| && nShared == |Shared(n.xattrs, slots)|
    requires size == AreaSize(nShared, TableSize(Unshared(n.xattrs, slots), store))
    modifies w
    ensures w.out == old(w.out) + (InodeBytes(FieldsOf(n, pl, icount, currentEnd), compact)
                                   + AreaOf(n.xattrs, slots, store, filter, inodesEnd) + TailOf(n.body, ds, pl))
    ensures |w.out| == |old(w.out)| + InodeSize(compact) + size + pl.tail
  {
    ghost var o, b := w.out, InodeBytes(FieldsOf(n, pl, icount, currentEnd), compact);
    WriteInode(w, n, ds, pl, compact, icount, currentEnd);
    w.WriteArea(n.xattrs, slots, store, filter, inodesEnd, size, nShared);
    WriteTail(w, n.mode, n.body, ds, pl);
    PartsJoin(o, b, AreaOf(n.xattrs, slots, store, filter, inodesEnd), TailOf(n.body, ds, pl));
  }

  lemma {:induction false} PartsJoin(o: bytes, a: bytes, b: bytes, c: bytes)
    ensures o + a + b + c == o + (a + b + c)
  {
  }

  method WritePiece(w: Writer, p: Plan, i: nat, currentEnd: nat, nShared: nat, size: nat, icount: nat)
    requires Shaped(p) && i < |p.nodes| && WrittenShape(WrittenOf(p, i))
    requires BodyPlaced(p.nodes[i].mode, p.nodes[i].body, WrittenOf(p, i).ds, p.ps[i])
    requires |w.out| % 4 == 0 && size == |WrittenArea(p.c, WrittenOf(p, i))| && icount == Max(Icount(size), 0)
    requires currentEnd == WrittenOf(p, i).dataAt
    requires nShared == |Shared(p.nodes[i].xattrs, p.slots[i])|
    requires size == AreaSize(nShared, TableSize(Unshared(p.nodes[i].xattrs, p.slots[i]), p.c.store))
    modifies w
    ensures var x := WrittenPiece(p.c, WrittenOf(p, i)); w.out == old(w.out) + (x.inode + x.area + x.tail)
    ensures |w.out| == |old(w.out)| + InodeSize(p.compacts[i]) + size + p.ps[i].tail
  {
    var n, pl, ds := p.nodes[i], p.ps[i], DirentsOf(p.nodes[i].body, p.nodes, p.ps);
    WriteParts(w, n, ds, pl, p.compacts[i], icount, currentEnd, p.slots[i], p.c.store, p.filters[i], p.c.inodesEnd,
        size, nShared);
  }

  /** Padding, inode, attributes and tail; fails when the attributes are too large to be recorded. */
  method WriteInodeData(w: Writer, p: Plan, i: nat, currentEnd: nat) returns (ok: bool, next: nat)
    requires Shaped(p) && i < |p.nodes| && ReadyAt(p, i)
    requires |w.out| == End(p.ps[..i]) && currentEnd == WrittenOf(p, i).dataAt
    modifies w
    ensures ok <==> IcountFits(p, i)
    ensures ok ==>
              w.out == old(w.out) + Region(WrittenPiece(p.c, WrittenOf(p, i)), p.ps[i]) && |w.out| == End(p.ps[..i + 1])
    ensures ok ==> next == currentEnd + 4096 * p.ps[i].nBlocks
  {
    ghost var o := w.out;
    var pl := p.ps[i];
    w.WritePad(pl.ipad);
    assert |w.out| == pl.pos;
    var nShared, size, icount := AreaCounts(p, i);
    next := currentEnd + 4096 * pl.nBlocks;
    if icount > 0xffff { return false, next; }
    ok := true;
    WritePiece(w, p, i, currentEnd, nShared, size, icount);
    assert |w.out| - |o| == pl.isize + pl.ipad;
    RegionJoin(o, pl, WrittenPiece(p.c, WrittenOf(p, i)));
  }

  lemma {:induction false} RegionJoin(o: bytes, pl: Place, x: Piece)
    ensures o + Zeros(pl.ipad) + (x.inode + x.area + x.tail) == o + Region(x, pl)
  {
  }

  ghost predicate AllIcountsFit(p: Plan, k: nat)
    requires AllWritten(p) && k <= |p.nodes|
  {
    forall i: nat {:trigger IcountFits(p, i)} :: i < k ==> IcountFits(p, i)
  }

  lemma {:induction false} FitsNext(p: Plan, i: nat)
    requires AllWritten(p) && i < |p.nodes| && AllIcountsFit(p, i) && IcountFits(p, i)
    ensures AllIcountsFit(p, i + 1)
  {
  }

  lemma {:induction false} BlocksPlus(ps: seq<Place>, i: nat)
    requires i < |ps|
    ensures Blocks(ps[..i + 1]) == Blocks(ps[..i]) + ps[i].nBlocks
  {
    assert ps[..i + 1][..i] == ps[..i];
  }

  lemma {:induction false} RegionPlus(pieces: seq<Piece>, ps: seq<Place>, i: nat)
    requires i < |pieces| == |ps|
    ensures Flat(Regions(pieces, ps)[..i + 1]) == Flat(Regions(pieces, ps)[..i]) + Region(pieces[i], ps[i])
  {
    FlatPrefix(Regions(pieces, ps), i);
  }

  lemma {:induction false} RegionNext(p: Plan, i: nat)
    requires AllWritten(p) && i < |p.nodes|
    ensures Flat(Regions(Pieces(p), p.ps)[..i + 1]) ==
              Flat(Regions(Pieces(p), p.ps)[..i]) + Region(WrittenPiece(p.c, WrittenOf(p, i)), p.ps[i])
    ensures Blocks(p.ps[..i + 1]) == Blocks(p.ps[..i]) + p.ps[i].nBlocks
  {
    RegionPlus(Pieces(p), p.ps, i);
    BlocksPlus(p.ps, i);
  }

  /** All inodes; the block addresses handed out end where the data blocks will. */
  method WriteInodes(w: Writer, p: Plan) returns (ok: bool, currentEnd: nat)
    requires Ready(p) && |w.out| == INODES_START
    modifies w
    ensures ok <==> AllIcountsFit(p, |p.nodes|)
    ensures ok ==> w.out == Meta(old(w.out), Pieces(p), p.ps) && currentEnd == ImageSize(p)
  {
    ghost var o, r := w.out, Regions(Pieces(p), p.ps);
    currentEnd := p.dataStart;
    for i := 0 to |p.nodes|
      invariant w.out == o + Flat(r[..i]) && |w.out| == End(p.ps[..i])
      invariant currentEnd == p.dataStart + 4096 * Blocks(p.ps[..i]) && AllIcountsFit(p, i)
    {
      RegionNext(p, i);
      assert ReadyAt(p, i);
      ghost var piece := Region(WrittenPiece(p.c, WrittenOf(p, i)), p.ps[i]);
      ok, currentEnd := WriteInodeData(w, p, i, currentEnd);
      if !ok { return; }
      Assoc(o, Flat(r[..i]), piece);
      FitsNext(p, i);
    }
    assert r[..|p.nodes|] == r && p.ps[..|p.nodes|] == p.ps;
    ghost var b := w.out;
    w.WriteAlign(32);
    ok := true;
    assert w.out == b + AlignPad(|b|, 32) && b == o + Flat(r);
  }

  method WriteSharedXattrs(w: Writer, table: seq<Xattr>, store: Storer)
    requires |w.out| % 4 == 0
    modifies w
    ensures w.out == old(w.out) + Flat(Encoded(StoredAll(table, store)))
  {
    ghost var o, parts := w.out, Encoded(StoredAll(table, store));
    for i := 0 to |table|
      invariant w.out == o + Flat(parts[..i]) && |w.out| % 4 == 0
    {
      FlatPrefix(parts, i);
      w.WriteXattr(store(table[i]));
    }
    assert parts[..|table|] == parts;
  }

  /** The shared attributes, padded to the start of the data blocks. */
  method WriteTable(w: Writer, c: Setting, ghost dataStart: nat)
    requires |w.out| == c.inodesEnd && c.inodesEnd % 4 == 0 && dataStart == RoundUp(c.inodesEnd + |TableBytes(c)|, 4096)
    modifies w
    ensures w.out == WithShared(old(w.out), TableBytes(c)) && |w.out| == dataStart
  {
    WriteSharedXattrs(w, c.table, c.store);
    w.WriteAlign(4096);
  }

  method WriteDataBlocks(w: Writer, p: Plan)
    requires Ready(p) && |w.out| == p.dataStart
    modifies w
    ensures w.out == old(w.out) + Flat(Datas(Pieces(p))) && |w.out| == ImageSize(p)
  {
    ghost var o, parts := w.out, Datas(Pieces(p));
    for i := 0 to |p.nodes|
      invariant w.out == o + Flat(parts[..i]) && |w.out| == p.dataStart + 4096 * Blocks(p.ps[..i])
    {
      FlatPrefix(parts, i);
      RegionNext(p, i);
      assert ReadyAt(p, i) && |w.out| == WrittenOf(p, i).dataAt;
      WriteData(w, p.nodes[i].mode, p.nodes[i].body, DirentsOf(p.nodes[i].body, p.nodes, p.ps), p.ps[i]);
      Assoc(o, Flat(parts[..i]), parts[i]);
    }
    assert parts[..|p.nodes|] == parts && p.ps[..|p.nodes|] == p.ps;
  }

  /** Shared attributes and data blocks, with the checks of the source on where each part ends. */
  method WriteBehind(w: Writer, p: Plan, currentEnd: nat)
    requires Ready(p) && |w.out| == p.c.inodesEnd && p.c.inodesEnd % 4 == 0
    requires p.dataStart == RoundUp(p.c.inodesEnd + |TableBytes(p.c)|, 4096) && currentEnd == ImageSize(p)
    modifies w
    ensures w.out == WithShared(old(w.out), TableBytes(p.c)) + Flat(Datas(Pieces(p))) && |w.out| == currentEnd
  {
    WriteTable(w, p.c, p.dataStart);
    WriteDataBlocks(w, p);
  }

  /** The parts of the image in the order of the source. */
  method WriteAll(p: Plan, prefix: bytes) returns (ok: bool, img: bytes)
    requires Ready(p) && |prefix| == INODES_START && p.c.inodesEnd == |Meta(prefix, Pieces(p), p.ps)|
    requires p.c.inodesEnd % 4 == 0
    requires p.dataStart == RoundUp(p.c.inodesEnd + |TableBytes(p.c)|, 4096)
    ensures ok <==> AllIcountsFit(p, |p.nodes|)
    ensures ok ==> img == ImageOf(p, prefix) && |img| == ImageSize(p)
  {
    var w := new Writer();
    w.Write(prefix);
    assert w.out == prefix;
    var currentEnd;
    ok, currentEnd := WriteInodes(w, p);
    if ok {
      assert |w.out| == p.c.inodesEnd;
      WriteBehind(w, p, currentEnd);
    }
    img := w.out;
  }

  /** The whole image, unless an inode has more attributes than it can record. */
  method WriteImage(p: Plan, prefix: bytes) returns (ok: bool, img: bytes)
    requires Planned(p) && ImageSize(p) < 0x1_0000_0000 && |prefix| == INODES_START && p.nodes != []
    ensures AllWritten(p) && (ok <==> AllIcountsFit(p, |p.nodes|))
    ensures ok ==> img == ImageOf(p, prefix) && |img| == ImageSize(p) && GapsHold(img, p)
    ensures ok ==> forall i: nat {:trigger SlotHolds(img, p, i)} :: i < |p.nodes| ==> SlotHolds(img, p, i)
  {
    PlanFills(p);
    PlanReady(p);
    MetaLength(prefix, Pieces(p), AllSizes(p), p.ps);
    SlotWords(p.c.inodesEnd);
    ok, img := WriteAll(p, prefix);
    if ok {
      ImageGaps(p, prefix);
      forall i: nat | i < |p.nodes|
        ensures SlotHolds(ImageOf(p, prefix), p, i)
      {
        assert IcountFits(p, i);
        ImageSlot(p, prefix, i);
      }
    }
  }
}
