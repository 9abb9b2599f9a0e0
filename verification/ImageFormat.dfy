/** What stands at which offset of a written image, in numbers, without going through the functions that wrote it. */
module ImageFormat {
  import opened Common
  import opened Bytes
  import opened Chunking
  import opened DirCodec
  import opened DirBlocks
  import opened Layout
  import opened ImageLayout
  import opened InodeCodec
  import opened Xattrs
  import opened XattrArea
  import opened SharedXattrs
  import opened NodeXattrs
  import A = AttrFormat
  import opened ErofsNode
  import opened NodeReader
  import opened ErofsImage
  import Loader
  import S = Superblock

  // ---------- one inode ----------

  /** The smallest power of two, from 2^12 to 2^43, that holds the file; the format counts from 2^12. */
  ghost predicate IsChunkFormat(format: nat, size: nat) {
    format <= 31 && (format < 31 ==> size <= Pow2(12 + format)) && (format > 0 ==> Pow2(11 + format) < size)
  }

  lemma {:induction false} ChunkBitsIs(size: nat)
    requires size > 0
    ensures IsChunkFormat(ChunkBits(size) - 12, size)
  {
    var k := Log2(size - 1);
    Log2Bounds(size - 1);
    Pow2Values();
    if k + 1 <= 12 {
      Pow2Monotone(k + 1, 12);
    } else if k + 1 >= 43 {
      Pow2Monotone(42, k);
    }
  }

  /** The size in an inode. */
  ghost predicate IsSize(size: nat, body: Body, nBlocks: nat, tail: nat) {
    match body
    case Directory(_) => size == 4096 * nBlocks + tail
    case Symlink(target) => size == |target|
    case Inline(content) => size == |content|
    case External(n) => size == n
    case Plain(_) => size == 0
  }

  /** The word that is a chunk format, a device number or a block address. */
  ghost predicate IsWord(word: nat, n: Inode, nBlocks: nat, dataAt: nat) {
    match n.body
    case External(size) => IsChunkFormat(word % 0x1_0000, size) && (nBlocks == 0 ==> word < 0x1_0000)
    case Plain(_) => word == if n.mode / 0x1000 == 2 || n.mode / 0x1000 == 6 then n.rdev else 0
    case _ => if nBlocks > 0 then 4096 * word == dataAt else word == 0
  }

  /** Chunk based, with its tail behind it, or flat. */
  ghost predicate IsLayout(layout: nat, body: Body, tail: nat) {
    layout == if body.External? then 4 else if tail > 0 then 2 else 0
  }

  /** The inode of 32 or 64 bytes at `o`. */
  ghost predicate InodeHolds(img: bytes, o: nat, n: Inode, compact: bool, nBlocks: nat, tail: nat, dataAt: nat) {
    && o + 32 <= |img| && (!compact ==> o + 64 <= |img|)
    && Num(img, o, 2) % 2 == (if compact then 0 else 1) && IsLayout(Num(img, o, 2) / 2, n.body, tail)
    && Num(img, o + 4, 2) == n.mode && IsWord(Num(img, o + 16, 4), n, nBlocks, dataAt) && Num(img, o + 20, 4) == n.ino
    && if compact then
         && Num(img, o + 6, 2) == n.nlink && IsSize(Num(img, o + 8, 4), n.body, nBlocks, tail)
         && Num(img, o + 24, 2) == n.uid && Num(img, o + 26, 2) == n.gid
       else
         && IsSize(Num(img, o + 8, 8), n.body, nBlocks, tail) && Num(img, o + 24, 4) == n.uid
         && Num(img, o + 28, 4) == n.gid && Num(img, o + 32, 8) == n.sec && Num(img, o + 40, 4) == n.nsec
         && Num(img, o + 44, 4) == n.nlink
  }

  lemma {:induction false} WordIs(n: Inode, store: Storer, pl: Place, dataAt: nat)
    requires NodeOk(n, store) && dataAt % 4096 == 0 && dataAt < 0x1_0000_0000
    ensures IsWord(WordOf(n, pl, dataAt), n, pl.nBlocks, dataAt)
  {
    match n.body {
      case External(size) =>
        ChunkBitsIs(size);
        var blk := if pl.nBlocks > 0 then dataAt / 4096 else 0;
        DivModUnique(WordOf(n, pl, dataAt), 0x1_0000, blk / 0x1_0000, ChunkBits(size) - 12);
      case _ =>
    }
  }

  lemma {:induction false} SizeIs(n: Inode, store: Storer, s: Sizes, end: nat, pl: Place)
    requires NodeOk(n, store) && Well(s, end, pl)
    requires s == SizesOf(n.body, s.inodeSize, s.xattrSize)
    ensures IsSize(FileSize(n.body), n.body, pl.nBlocks, pl.tail)
  {
    if n.body.Directory? { DirRoom(n.body.children); }
  }

  /** The fields are those of the node. */
  ghost predicate Matches(f: Fields, n: Inode, nBlocks: nat, tail: nat, dataAt: nat) {
    && IsLayout(f.layout, n.body, tail) && f.mode == n.mode && f.nlink == n.nlink
    && IsSize(f.size, n.body, nBlocks, tail)
    && IsWord(f.u, n, nBlocks, dataAt) && f.ino == n.ino && f.uid == n.uid && f.gid == n.gid && f.sec == n.sec
    && f.nsec == n.nsec
  }

  lemma {:induction false} FieldsMatch(n: Inode, store: Storer, s: Sizes, end: nat, pl: Place, icount: nat, dataAt: nat)
    requires NodeOk(n, store) && Well(s, end, pl) && s == SizesOf(n.body, s.inodeSize, s.xattrSize)
    requires dataAt % 4096 == 0 && dataAt < 0x1_0000_0000
    ensures Matches(FieldsOf(n, pl, icount, dataAt), n, pl.nBlocks, pl.tail, dataAt)
  {
    WordIs(n, store, pl, dataAt);
    SizeIs(n, store, s, end, pl);
  }

  lemma {:induction false} MatchingHolds(img: bytes, o: nat, f: Fields, n: Inode, compact: bool, nBlocks: nat,
                                         tail: nat, dataAt: nat)
    requires Matches(f, n, nBlocks, tail, dataAt) && if compact then CompactAt(img, o, f) else ExtendedAt(img, o, f)
    ensures InodeHolds(img, o, n, compact, nBlocks, tail, dataAt)
  {
  }

  /** The fields of a written inode by offset. */
  lemma {:induction false} FieldsHold(img: bytes, c: Setting, w: Written, end: nat)
    requires WrittenOk(c, w) && PieceAt(img, c, w, end) && |img| < 0x1_0000_0000
    ensures InodeHolds(img, w.pl.pos, w.n, w.compact, w.pl.nBlocks, w.pl.tail, w.dataAt)
  {
    PieceParts(img, c, w, end);
    var icount := Max(Icount(|WrittenArea(c, w)|), 0);
    var f := FieldsOf(w.n, w.pl, icount, w.dataAt);
    FieldsOfFit(w.n, c.store, w.pl, icount, w.dataAt, c.sec, c.nsec, w.compact);
    FieldsMatch(w.n, c.store, WrittenSizes(c, w), end, w.pl, icount, w.dataAt);
    FieldsStand(img, w.pl.pos, f, w.compact);
    MatchingHolds(img, w.pl.pos, f, w.n, w.compact, w.pl.nBlocks, w.pl.tail, w.dataAt);
  }

  lemma {:induction false} FieldsStand(img: bytes, o: nat, f: Fields, compact: bool)
    requires At(img, o, InodeBytes(f, compact)) && FieldsFit(f, compact)
    ensures if compact then CompactAt(img, o, f) else ExtendedAt(img, o, f)
  {
    if compact { CompactFields(img, o, f); } else { ExtendedFields(img, o, f); }
  }

  // ---------- attributes ----------

  /** The attribute area at `at`, behind the inode at `o`: counted there, filter and number of references first. */
  ghost predicate AreaHolds(img: bytes, o: nat, at: nat, size: nat, filter: nat, shared: nat) {
    && o + 4 <= |img|
    && if size == 0 then Num(img, o + 2, 2) == 0 else
         && 12 + 4 * (Num(img, o + 2, 2) - 1) == size && at + 12 <= |img| && Num(img, at, 4) == filter % 0x1_0000_0000
         && img[at + 4] == shared && forall i {:trigger img[i]} :: at + 5 <= i < at + 12 ==> img[i] == 0
  }

  lemma {:induction false} HeaderHolds(img: bytes, at: nat, filter: nat, ids: seq<nat>, es: seq<Stored>)
    requires At(img, at, AreaBytes(filter, ids, es)) && (ids != [] || es != []) && |ids| < 256
    ensures at + 12 <= |img| && Num(img, at, 4) == filter % 0x1_0000_0000 && img[at + 4] == |ids|
    ensures forall i {:trigger img[i]} :: at + 5 <= i < at + 12 ==> img[i] == 0
  {
    AreaParts(img, at, filter, ids, es);
    var h := HeaderBytes(filter, |ids|);
    Widths();
    AtJoin(img, at, h + Flat(Indexes(ids)), Flat(Encoded(es)));
    AtJoin(img, at, h, Flat(Indexes(ids)));
    AtJoin(img, at, LE(filter, 4) + [|ids| % 256], Zeros(7));
    AtJoin(img, at, LE(filter, 4), [|ids| % 256]);
    AtNum(img, at, filter, 4);
    AtZeros(img, at + 5, 7);
  }

  lemma {:induction false} NoArea(w: Written, c: Setting)
    requires WrittenOk(c, w)
    ensures |WrittenArea(c, w)| == 0 <==> Ids(w.slots, c.inodesEnd) == [] && Unshared(w.n.xattrs, w.slots) == []
    ensures |Ids(w.slots, c.inodesEnd)| == |Shared(w.n.xattrs, w.slots)| < 256
  {
    SharedCount(w.n.xattrs, w.slots);
    TakenBound(w.n.xattrs, c.offsets, w.slots, |w.n.xattrs|);
    assert w.slots[..|w.n.xattrs|] == w.slots;
    var ids, es := Ids(w.slots, c.inodesEnd), StoredAll(Unshared(w.n.xattrs, w.slots), c.store);
    if ids != [] || es != [] { AreaLength(w.filter, ids, es); }
  }

  lemma {:induction false} AttributesHold(img: bytes, c: Setting, w: Written, end: nat)
    requires WrittenOk(c, w) && PieceAt(img, c, w, end) && |img| < 0x1_0000_0000
    ensures AreaHolds(img, w.pl.pos, w.pl.pos + InodeSize(w.compact), |WrittenArea(c, w)|, w.filter,
                      |Shared(w.n.xattrs, w.slots)|)
  {
    PieceParts(img, c, w, end);
    var icount := Max(Icount(|WrittenArea(c, w)|), 0);
    FieldsOfFit(w.n, c.store, w.pl, icount, w.dataAt, c.sec, c.nsec, w.compact);
    FieldsStand(img, w.pl.pos, FieldsOf(w.n, w.pl, icount, w.dataAt), w.compact);
    WrittenIcount(c, w);
    NoArea(w, c);
    if |WrittenArea(c, w)| > 0 {
      HeaderHolds(img, w.pl.pos + InodeSize(w.compact), w.filter, Ids(w.slots, c.inodesEnd),
                  StoredAll(Unshared(w.n.xattrs, w.slots), c.store));
    }
  }

  /** The attributes of inode `i`, shared or not. */
  ghost predicate ItemsHold(img: bytes, p: Plan, i: nat)
    requires AllWritten(p) && i < |p.nodes|
  {
    assert WrittenShape(WrittenOf(p, i));
    A.ItemsHold(img, p.ps[i].pos + InodeSize(p.compacts[i]), p.c.inodesEnd,
                StoredAll(Shared(p.nodes[i].xattrs, p.slots[i]), p.c.store),
                StoredAll(Unshared(p.nodes[i].xattrs, p.slots[i]), p.c.store))
  }

  lemma {:induction false} ItemsStand(img: bytes, p: Plan, i: nat, end: nat)
    requires AllWritten(p) && i < |p.nodes| && TableAt(img, p.c)
    requires WrittenOk(p.c, WrittenOf(p, i)) && PieceAt(img, p.c, WrittenOf(p, i), end)
    ensures ItemsHold(img, p, i)
  {
    var w := WrittenOf(p, i);
    PieceParts(img, p.c, w, end);
    A.ItemsStand(img, w.pl.pos + InodeSize(w.compact), p.c.inodesEnd, p.c.table, p.c.store, p.c.offsets, w.n.xattrs,
                 w.slots, w.filter);
  }

  // ---------- chunks ----------

  /** `n` chunks of the given format are enough for the file, and fewer are not. */
  ghost predicate Covers(n: nat, format: nat, size: nat) {
    IsChunkFormat(format, size) && (n - 1) * Pow2(12 + format) < size <= n * Pow2(12 + format)
  }

  lemma {:induction false} CountCovers(size: nat)
    requires 0 < size <= 0x20_0000_0000_0000
    ensures Covers(ChunkCount(size), ChunkBits(size) - 12, size)
  {
    ChunkBitsIs(size);
    if size <= 0x800_0000_0000 {
      OneChunk(size);
      Chunking.CountOne(size, Pow2(ChunkBits(size)));
    } else {
      ManyChunks(size);
      Pow2Values();
    }
  }

  /** All the chunks of an external file are missing: their indexes are all ones, behind the inode or in a block. */
  ghost predicate ChunksHold(img: bytes, at: nat, dataAt: nat, size: nat, nBlocks: nat, tail: nat) {
    && at + tail <= |img| && dataAt + 4096 * nBlocks <= |img|
    && (forall i {:trigger img[i]} :: at <= i < at + tail ==> img[i] == 0xff)
    && (forall i {:trigger img[i]} :: dataAt <= i < dataAt + 4096 * nBlocks ==> img[i] == 0xff)
    && (nBlocks == 0 && size <= 0x20_0000_0000_0000 ==>
          exists n, format {:trigger Covers(n, format, size)} :: tail == 4 * n && Covers(n, format, size))
  }

  lemma {:induction false} AllOnes(img: bytes, o: nat, n: nat)
    requires At(img, o, NullChunks(n))
    ensures forall i {:trigger img[i]} :: o <= i < o + 4 * n ==> img[i] == 0xff
  {
    forall i | o <= i < o + 4 * n
      ensures img[i] == 0xff
    {
      assert img[i] == img[o..o + 4 * n][i - o];
    }
  }

  lemma {:induction false} NoChunks(img: bytes, at: nat, dataAt: nat, size: nat, nBlocks: nat, tail: nat)
    requires 0 < size && at <= |img| && dataAt <= |img| && nBlocks <= 1
    requires tail > 0 ==> tail == 4 * ChunkCount(size) && At(img, at, NullChunks(ChunkCount(size)))
    requires if nBlocks > 0 then At(img, dataAt, NullChunks(1024)) else tail == 4 * ChunkCount(size)
    ensures ChunksHold(img, at, dataAt, size, nBlocks, tail)
  {
    if tail > 0 { AllOnes(img, at, ChunkCount(size)); }
    if nBlocks > 0 { AllOnes(img, dataAt, 1024); }
    if size <= 0x20_0000_0000_0000 { CountCovers(size); }
  }

  lemma {:induction false} ChunksStand(img: bytes, c: Setting, w: Written, end: nat)
    requires WrittenOk(c, w) && PieceAt(img, c, w, end) && |img| < 0x1_0000_0000 && w.n.body.External?
    ensures ChunksHold(img, w.pl.pos + InodeSize(w.compact) + |WrittenArea(c, w)|, w.dataAt, w.n.body.size,
                       w.pl.nBlocks, w.pl.tail)
  {
    var at := w.pl.pos + InodeSize(w.compact) + |WrittenArea(c, w)|;
    PieceParts(img, c, w, end);
    BodyFills(w.n.mode, w.n.body, w.ds, InodeSize(w.compact), |WrittenArea(c, w)|, end, w.pl);
    NoChunks(img, at, w.dataAt, w.n.body.size, w.pl.nBlocks, w.pl.tail);
  }

  // ---------- directories ----------

  /** Reading the directory in a slot gives the names, slots and type codes of its children. */
  ghost predicate EntriesHold(img: bytes, p: Plan, i: nat)
    requires Shaped(p) && i < |p.nodes| && p.nodes[i].body.Directory?
  {
    var r := ReadNode(DecodeBlock, ReaderOf(img), img, p.c.sec, p.c.nsec, TableBase(p.c.inodesEnd), p.ps[i].pos / 32);
    && r.Ok? && r.value.content.Entries? && |r.value.content.ds| == |p.nodes[i].body.children|
    && forall j {:trigger r.value.content.ds[j]} :: 0 <= j < |r.value.content.ds| ==>
         EntryHolds(r.value.content.ds[j], p, p.nodes[i].body.children[j])
  }

  ghost predicate EntryHolds(d: Dirent, p: Plan, c: Child)
    requires |p.ps| == |p.nodes|
  {
    c.target < |p.nodes| && d.name == c.name && 32 * d.nid == p.ps[c.target].pos
    && IsTypeCode(d.ftype, p.nodes[c.target].mode)
  }

  lemma {:induction false} EntryIs(p: Plan, i: nat, j: nat)
    requires Planned(p) && i < |p.nodes| && p.nodes[i].body.Directory? && j < |p.nodes[i].body.children|
    ensures EntryHolds(DirentsOf(p.nodes[i].body, p.nodes, p.ps)[j], p, p.nodes[i].body.children[j])
  {
    var c := p.nodes[i].body.children[j];
    assert NodePlanned(p, c.target) && LaidAt(AllSizes(p), p.ps, c.target);
    DirentTypeIs(p.nodes[c.target].mode);
    SlotStart(AllSizes(p)[c.target], End(p.ps[..c.target]), p.ps[c.target]);
  }

  lemma {:induction false} DirectoryHolds(p: Plan, prefix: bytes, i: nat)
    requires Planned(p) && ImageSize(p) < 0x1_0000_0000 && |prefix| == INODES_START && AllWritten(p) && i < |p.nodes|
    requires IcountFits(p, i) && p.nodes[i].body.Directory?
    ensures EntriesHold(ImageOf(p, prefix), p, i)
  {
    var img := ImageOf(p, prefix);
    DecodeBlockInverts();
    ReaderOfReads(img);
    ImageRoundTrip(DecodeBlock, ReaderOf(img), p, prefix, i);
    assert NodePlanned(p, i);
    var ds := DirentsOf(p.nodes[i].body, p.nodes, p.ps);
    forall j | 0 <= j < |ds|
      ensures EntryHolds(ds[j], p, p.nodes[i].body.children[j])
    {
      EntryIs(p, i, j);
    }
  }

  // ---------- the whole image ----------

  /** The fixed start: header and superblock. */
  ghost predicate StartHolds(img: bytes, p: Plan, flags: nat, version: nat) {
    && |img| >= 4096 && p.ps != []
    && Num(img, 0, 4) == 0xd078629a && Num(img, 4, 4) == 1 && Num(img, 8, 4) == flags && Num(img, 12, 4) == version
    && Num(img, 1024, 4) == 0xE0F5E1E2 && Num(img, 1028, 4) == 0 && Num(img, 1032, 4) == 6 && img[1036] == 12
    && img[1037] == 0 && 32 * Num(img, 1038, 2) == p.ps[0].pos && Num(img, 1040, 8) == |p.nodes|
    && Num(img, 1048, 8) == p.c.sec && Num(img, 1056, 4) == p.c.nsec && 4096 * Num(img, 1060, 4) == |img|
    && Num(img, 1064, 4) == 0 && Num(img, 1068, 4) == p.c.inodesEnd / 4096
    && (forall i {:trigger img[i]} :: 16 <= i < 1024 || 1072 <= i < 1152 ==> img[i] == 0)
  }

  lemma {:induction false} ImageStart(p: Plan, flags: nat, version: nat)
    requires Planned(p) && p.nodes != [] && ImageSize(p) < 0x1_0000_0000 && p.c.sec < TWO64 && p.c.nsec < 0x1_0000_0000
    requires flags < 0x1_0000_0000 && version < 0x1_0000_0000
    ensures AllWritten(p)
    ensures StartHolds(ImageOf(p, S.PrefixBytes(Loader.SuperOf(p, flags, version))), p, flags, version)
  {
    var s := Loader.SuperOf(p, flags, version);
    var prefix := S.PrefixBytes(s);
    Loader.SuperFits(p, flags, version);
    PlanLands(p, prefix);
    ImageStarts(prefix, Pieces(p), p.ps, TableBytes(p.c));
    S.PrefixReads(ImageOf(p, prefix), s);
    S.PrefixDescribes(ImageOf(p, prefix), s);
    assert LaidAt(AllSizes(p), p.ps, 0);
    SlotStart(AllSizes(p)[0], End(p.ps[..0]), p.ps[0]);
    PosBound(p, 0);
    DivModUnique(ImageSize(p), 4096, p.dataStart / 4096 + Blocks(p.ps), 0);
  }

  /** Inode `i` and the header of its attributes. */
  ghost predicate FormHolds(img: bytes, p: Plan, i: nat)
    requires AllWritten(p) && i < |p.nodes|
  {
    var w := WrittenOf(p, i);
    && InodeHolds(img, p.ps[i].pos, p.nodes[i], p.compacts[i], p.ps[i].nBlocks, p.ps[i].tail, w.dataAt)
    && AreaHolds(img, p.ps[i].pos, p.ps[i].pos + (if p.compacts[i] then 32 else 64), |WrittenArea(p.c, w)|,
                 p.filters[i], |Shared(p.nodes[i].xattrs, p.slots[i])|)
  }

  /** The chunks of an external file, behind the attributes or in a block. */
  ghost predicate ChunksOf(img: bytes, p: Plan, i: nat)
    requires AllWritten(p) && i < |p.nodes|
  {
    var w := WrittenOf(p, i);
    p.nodes[i].body.External? ==>
      ChunksHold(img, p.ps[i].pos + InodeSize(p.compacts[i]) + |WrittenArea(p.c, w)|, w.dataAt,
                 p.nodes[i].body.size, p.ps[i].nBlocks, p.ps[i].tail)
  }

  /** Inode `i` with its attributes and, for an external file, its chunks and, for a directory, its entries. */
  ghost predicate SlotHolds(img: bytes, p: Plan, i: nat)
    requires AllWritten(p) && i < |p.nodes|
  {
    && FormHolds(img, p, i) && ItemsHold(img, p, i) && ChunksOf(img, p, i)
    && (p.nodes[i].body.Directory? ==> EntriesHold(img, p, i))
  }

  lemma {:induction false} FormStands(img: bytes, p: Plan, i: nat, end: nat)
    requires AllWritten(p) && i < |p.nodes| && |img| < 0x1_0000_0000
    requires WrittenOk(p.c, WrittenOf(p, i)) && PieceAt(img, p.c, WrittenOf(p, i), end)
    ensures FormHolds(img, p, i)
  {
    var w := WrittenOf(p, i);
    FieldsHold(img, p.c, w, end);
    AttributesHold(img, p.c, w, end);
  }

  lemma {:induction false} ChunksFound(img: bytes, p: Plan, i: nat, end: nat)
    requires AllWritten(p) && i < |p.nodes| && |img| < 0x1_0000_0000
    requires WrittenOk(p.c, WrittenOf(p, i)) && PieceAt(img, p.c, WrittenOf(p, i), end)
    ensures ChunksOf(img, p, i)
  {
    if p.nodes[i].body.External? { ChunksStand(img, p.c, WrittenOf(p, i), end); }
  }

  lemma {:induction false} ImageSlot(p: Plan, prefix: bytes, i: nat)
    requires Planned(p) && ImageSize(p) < 0x1_0000_0000 && |prefix| == INODES_START && AllWritten(p) && i < |p.nodes|
    requires IcountFits(p, i)
    ensures SlotHolds(ImageOf(p, prefix), p, i)
  {
    PlanLandsAt(p, prefix, i);
    FormStands(ImageOf(p, prefix), p, i, End(p.ps[..i]));
    ItemsStand(ImageOf(p, prefix), p, i, End(p.ps[..i]));
    ChunksFound(ImageOf(p, prefix), p, i, End(p.ps[..i]));
    if p.nodes[i].body.Directory? { DirectoryHolds(p, prefix, i); }
  }

  /** Nothing but zeros between the parts. */
  ghost predicate GapsHold(img: bytes, p: Plan) {
    forall x: nat {:trigger img[x]} :: InGap(p.ps, p.c.inodesEnd, p.dataStart, |TableBytes(p.c)|, x) ==>
      x < |img| && img[x] == 0
  }

  lemma {:induction false} ImageGaps(p: Plan, prefix: bytes)
    requires Planned(p) && ImageSize(p) < 0x1_0000_0000 && |prefix| == INODES_START && AllWritten(p)
    ensures GapsHold(ImageOf(p, prefix), p)
  {
    PlanFills(p);
    forall x: nat | InGap(p.ps, p.c.inodesEnd, p.dataStart, |TableBytes(p.c)|, x)
      ensures x < |ImageOf(p, prefix)| && ImageOf(p, prefix)[x] == 0
    {
      GapIsZero(prefix, Pieces(p), AllSizes(p), p.ps, p.c.inodesEnd, p.dataStart, TableBytes(p.c), x);
    }
  }

  /** Every field of the image. */
  ghost predicate Conforms(img: bytes, p: Plan, flags: nat, version: nat) {
    && AllWritten(p) && StartHolds(img, p, flags, version) && GapsHold(img, p)
    && forall i: nat {:trigger SlotHolds(img, p, i)} :: i < |p.nodes| ==> SlotHolds(img, p, i)
  }

  lemma {:induction false} ImageConforms(p: Plan, flags: nat, version: nat)
    requires Planned(p) && p.nodes != [] && ImageSize(p) < 0x1_0000_0000 && p.c.sec < TWO64 && p.c.nsec < 0x1_0000_0000
    requires flags < 0x1_0000_0000 && version < 0x1_0000_0000 && AllWritten(p)
    requires forall i: nat {:trigger IcountFits(p, i)} :: i < |p.nodes| ==> IcountFits(p, i)
    ensures Conforms(ImageOf(p, S.PrefixBytes(Loader.SuperOf(p, flags, version))), p, flags, version)
  {
    ImageStart(p, flags, version);
    var prefix := S.PrefixBytes(Loader.SuperOf(p, flags, version));
    ImageGaps(p, prefix);
    forall i: nat | i < |p.nodes|
      ensures SlotHolds(ImageOf(p, prefix), p, i)
    {
      assert IcountFits(p, i);
      ImageSlot(p, prefix, i);
    }
  }
}
