/** One inode: its fields, its piece of the image, and reading all of it back. */
module NodeReader {
  import opened Common
  import opened Bytes
  import opened Chunking
  import opened DirCodec
  import opened DirBlocks
  import opened Layout
  import opened ImageLayout
  import opened InodeCodec
  import opened Xattrs
  import opened XattrArea
  import opened SharedXattrs
  import opened NodeXattrs
  import opened ErofsNode
  import opened BodyReader

  // ---------- writing ----------

  /** Fields are as wide as in the source; attributes fit their entries. */
  ghost predicate NodeOk(n: Inode, store: Storer) {
    && n.mode < 0x1_0000 && n.nlink < 0x1_0000_0000 && n.uid < 0x1_0000_0000 && n.gid < 0x1_0000_0000
    && n.rdev < 0x1_0000_0000 && n.sec < TWO64 && n.nsec < 0x1_0000_0000 && n.ino < 0x1_0000_0000
    && BodyOk(n.mode, n.body) && AllFit(StoredAll(n.xattrs, store))
  }

  /** The word that is a block address, a device number or a chunk format; a chunk format overwrites half an address. */
  function WordOf(n: Inode, pl: Place, dataAt: nat): nat
    requires n.body.External? ==> n.body.size > 0
  {
    var blk := if pl.nBlocks > 0 then dataAt / 4096 else 0;
    match n.body
    case External(size) => blk / 0x1_0000 * 0x1_0000 + (ChunkBits(size) - 12)
    case Plain(_) => if FileType(n.mode) == S_IFCHR || FileType(n.mode) == S_IFBLK then n.rdev else 0
    case _ => blk
  }

  ghost function FieldsOf(n: Inode, pl: Place, icount: nat, dataAt: nat): Fields
    requires n.body.External? ==> n.body.size > 0
  {
    Fields(LayoutOf(n.body, pl), icount, n.mode, n.nlink, FileSize(n.body), WordOf(n, pl, dataAt), n.ino, n.uid, n.gid,
        n.sec, n.nsec)
  }

  function InodeBytes(f: Fields, compact: bool): (b: bytes)
    ensures |b| == if compact then 32 else 64
  {
    if compact then CompactBytes(f) else ExtendedBytes(f)
  }

  ghost function PieceOf(n: Inode, ds: seq<Dirent>, compact: bool, pl: Place, icount: nat, dataAt: nat,
                         area: bytes): Piece
    requires EntriesOk(ds) && (n.body.External? ==> n.body.size > 0)
  {
    Piece(InodeBytes(FieldsOf(n, pl, icount, dataAt), compact), area, TailOf(n.body, ds, pl), DataOf(n.body, ds, pl))
  }

  // ---------- reading ----------

  datatype Stat = Stat(mode: nat, nlink: nat, size: nat, uid: nat, gid: nat, sec: nat, nsec: nat, rdev: nat)

  datatype NodeRead = NodeRead(stat: Stat, content: Content, xattrs: seq<Stored>)

  predicate IsDevice(mode: nat) {
    FileType(mode) == S_IFCHR || FileType(mode) == S_IFBLK
  }

  function StatOf(f: Fields): Stat {
    Stat(f.mode, f.nlink, f.size, f.uid, f.gid, f.sec, f.nsec, if IsDevice(f.mode) then f.u else 0)
  }

  /** Everything the image says about the inode in slot `nid`; the file system has time stamp `sec`, `nsec`. */
  function ReadNode(dec: Decoder, read: EntryReader, img: bytes, sec: nat, nsec: nat, table: nat,
                          nid: nat): (r: Result<NodeRead, ReadError>) {
    var o := 32 * nid;
    if |img| <= o then Err(Invalid) else
    var i := DecodeInode(img, o, sec, nsec);
    if i.Err? then Err(ReadError.OutOfBounds) else
    var f, at := i.value.0, o + i.value.1;
    if FileType(f.mode) == S_IFCHR && f.u == 0 then Err(Whiteout) else
    var size := AreaSizeOf(f.icount);
    var c := ReadBody(dec, img, f, at + size);
    if c.Err? then Err(c.error) else
    var x := DecodeArea(read, img, at, size, table);
    if x.Err? then Err(if x.error.BadIndex? then Invalid else ReadError.OutOfBounds) else
    Ok(NodeRead(StatOf(f), c.value, x.value))
  }

  // ---------- reading back ----------

  ghost predicate FieldsFit(f: Fields, compact: bool) {
    if compact then CompactFits(f) else ExtendedFits(f)
  }

  lemma {:induction false} InodeReads(img: bytes, o: nat, f: Fields, compact: bool, sec: nat, nsec: nat)
    requires At(img, o, InodeBytes(f, compact)) && FieldsFit(f, compact) && (compact ==> f.sec == sec && f.nsec == nsec)
    ensures DecodeInode(img, o, sec, nsec) == Ok((f, if compact then 32 else 64))
  {
    if compact {
      CompactFields(img, o, f);
      CompactRoundTrip(img, o, f);
    } else {
      ExtendedFields(img, o, f);
      ExtendedRoundTrip(img, o, f, sec, nsec);
    }
  }

  lemma {:induction false} WordFits(n: Inode, store: Storer, pl: Place, dataAt: nat)
    requires NodeOk(n, store) && dataAt < 0x1_0000_0000
    ensures WordOf(n, pl, dataAt) < 0x1_0000_0000
  {
  }

  lemma {:induction false} FieldsOfFit(n: Inode, store: Storer, pl: Place, icount: nat, dataAt: nat, sec: nat,
                                    nsec: nat, compact: bool)
    requires NodeOk(n, store) && dataAt < 0x1_0000_0000 && icount < 0x1_0000 && FileSize(n.body) < TWO64
    requires compact ==> Compact(n, sec, nsec)
    ensures FieldsFit(FieldsOf(n, pl, icount, dataAt), compact)
  {
    WordFits(n, store, pl, dataAt);
  }

  /** The node read back: attributes as stored, those only this inode has first. */
  ghost function ReadAs(n: Inode, ds: seq<Dirent>, store: Storer, slots: seq<Option<nat>>): NodeRead
    requires |slots| == |n.xattrs| && (n.body.External? ==> n.body.size > 0)
  {
    NodeRead(Stat(n.mode, n.nlink, FileSize(n.body), n.uid, n.gid, n.sec, n.nsec,
                  if IsDevice(n.mode) then n.rdev else 0),
             ContentOf(n.body, ds),
             Visible(StoredAll(Unshared(n.xattrs, slots), store)) + StoredAll(Shared(n.xattrs, slots), store))
  }

  ghost predicate IsWhiteout(n: Inode) {
    FileType(n.mode) == S_IFCHR && n.rdev == 0
  }

  function Slot(pos: nat): nat {
    pos / 32
  }

  /** The steps of the reader on the inode at `pos` give `r`, or show a whiteout. */
  ghost predicate Steps(dec: Decoder, read: EntryReader, img: bytes, sec: nat, nsec: nat, table: nat, pos: nat,
                        f: Fields, isz: nat, size: nat, at: nat, r: NodeRead, whiteout: bool) {
    && 32 * Slot(pos) == pos && DecodeInode(img, pos, sec, nsec) == Ok((f, isz)) && size == AreaSizeOf(f.icount)
    && at == pos + isz + size && ReadBody(dec, img, f, at) == Ok(r.content)
    && DecodeArea(read, img, pos + isz, size, table) == Ok(r.xattrs)
    && StatOf(f) == r.stat && (whiteout <==> FileType(f.mode) == S_IFCHR && f.u == 0)
  }

  lemma {:induction false} StepsRead(dec: Decoder, read: EntryReader, img: bytes, sec: nat, nsec: nat, table: nat,
                                    pos: nat, f: Fields, isz: nat, size: nat, at: nat, r: NodeRead, whiteout: bool)
    requires Steps(dec, read, img, sec, nsec, table, pos, f, isz, size, at, r, whiteout)
    ensures ReadNode(dec, read, img, sec, nsec, table, Slot(pos)) == if whiteout then Err(Whiteout) else Ok(r)
  {
    assert |img| > pos;
  }

  lemma {:induction false} FieldsRefer(n: Inode, store: Storer, pl: Place, icount: nat, dataAt: nat)
    requires NodeOk(n, store)
    ensures Refers(FieldsOf(n, pl, icount, dataAt), n.mode, n.body, pl, dataAt)
    ensures IsDevice(n.mode) ==> FieldsOf(n, pl, icount, dataAt).u == n.rdev
  {
  }

  lemma {:induction false} SlotStart(s: Sizes, end: nat, pl: Place)
    requires Well(s, end, pl)
    ensures 32 * Slot(pl.pos) == pl.pos
  {
  }

  /** What all inodes of an image have in common: its time stamp and its shared attributes. */
  datatype Setting = Setting(sec: nat, nsec: nat, inodesEnd: nat, table: seq<Xattr>, store: Storer,
                             offsets: map<Xattr, nat>)

  /** An inode with all that was decided about it. */
  datatype Written = Written(n: Inode, ds: seq<Dirent>, slots: seq<Option<nat>>, filter: nat, compact: bool, pl: Place,
      dataAt: nat)

  /** Enough for what is written to make sense. */
  ghost predicate WrittenShape(w: Written) {
    |w.slots| == |w.n.xattrs| && EntriesOk(w.ds) && (w.n.body.External? ==> w.n.body.size > 0)
  }

  ghost predicate WrittenOk(c: Setting, w: Written) {
    && WrittenShape(w) && NodeOk(w.n, c.store) && Named(w.n.body, w.ds) && Assigned(w.n.xattrs, c.offsets, w.slots)
    && FileSize(w.n.body) < TWO64
    && (w.compact ==> Compact(w.n, c.sec, c.nsec))
  }

  ghost function WrittenArea(c: Setting, w: Written): bytes
    requires WrittenShape(w)
  {
    AreaOf(w.n.xattrs, w.slots, c.store, w.filter, c.inodesEnd)
  }

  function InodeSize(compact: bool): nat {
    if compact then 32 else 64
  }

  ghost function WrittenSizes(c: Setting, w: Written): Sizes
    requires WrittenShape(w)
  {
    SizesOf(w.n.body, InodeSize(w.compact), |WrittenArea(c, w)|)
  }

  ghost function WrittenPiece(c: Setting, w: Written): Piece
    requires WrittenShape(w)
  {
    PieceOf(w.n, w.ds, w.compact, w.pl, Max(Icount(|WrittenArea(c, w)|), 0), w.dataAt, WrittenArea(c, w))
  }

  /** The shared attributes are where they belong. */
  ghost predicate TableAt(img: bytes, c: Setting) {
    && |img| < 0x1_0000_0000 && c.inodesEnd % 4 == 0
    && At(img, c.inodesEnd, Flat(Encoded(StoredAll(c.table, c.store)))) && AllFit(StoredAll(c.table, c.store))
    && Located(c.table, c.store, c.offsets)
  }

  /** What is written of an inode is where the layout put it. */
  ghost predicate PieceAt(img: bytes, c: Setting, w: Written, end: nat)
    requires WrittenShape(w)
  {
    && w.dataAt % 4096 == 0 && w.dataAt >= 4096 && Well(WrittenSizes(c, w), end, w.pl)
    && Icount(|WrittenArea(c, w)|) < 0x1_0000
    && LandedOne(img, WrittenPiece(c, w), WrittenSizes(c, w), w.pl, w.dataAt)
  }

  lemma {:induction false} WrittenIcount(c: Setting, w: Written)
    requires WrittenShape(w)
    ensures var size := |WrittenArea(c, w)|; Icount(size) >= 0 && AreaSizeOf(Icount(size)) == size && size % 4 == 0
  {
    AreaOfLength(w.n.xattrs, w.slots, c.store, w.filter, c.inodesEnd);
    IcountRoundTrip(|Shared(w.n.xattrs, w.slots)|, TableSize(Unshared(w.n.xattrs, w.slots), c.store));
  }

  ghost function WrittenFields(c: Setting, w: Written): Fields
    requires WrittenShape(w)
  {
    FieldsOf(w.n, w.pl, Max(Icount(|WrittenArea(c, w)|), 0), w.dataAt)
  }

  lemma {:induction false} FieldsRead(img: bytes, c: Setting, w: Written)
    requires WrittenOk(c, w) && At(img, w.pl.pos, InodeBytes(WrittenFields(c, w), w.compact))
    requires Icount(|WrittenArea(c, w)|) < 0x1_0000
    requires w.dataAt < 0x1_0000_0000
    ensures DecodeInode(img, w.pl.pos, c.sec, c.nsec) == Ok((WrittenFields(c, w), InodeSize(w.compact)))
  {
    FieldsOfFit(w.n, c.store, w.pl, Max(Icount(|WrittenArea(c, w)|), 0), w.dataAt, c.sec, c.nsec, w.compact);
    InodeReads(img, w.pl.pos, WrittenFields(c, w), w.compact, c.sec, c.nsec);
  }

  /** Where the parts of the inode stand. */
  ghost predicate PartsAt(img: bytes, c: Setting, w: Written, end: nat, at: nat)
    requires WrittenShape(w)
  {
    && w.dataAt % 4096 == 0 && 4096 <= w.dataAt < 0x1_0000_0000 && Well(WrittenSizes(c, w), end, w.pl)
    && Icount(|WrittenArea(c, w)|) < 0x1_0000
    && At(img, w.pl.pos, InodeBytes(WrittenFields(c, w), w.compact))
    && At(img, w.pl.pos + InodeSize(w.compact), WrittenArea(c, w))
    && at == w.pl.pos + InodeSize(w.compact) + |WrittenArea(c, w)|
    && At(img, at, TailOf(w.n.body, w.ds, w.pl)) && At(img, w.dataAt, DataOf(w.n.body, w.ds, w.pl))
  }

  lemma {:induction false} PieceParts(img: bytes, c: Setting, w: Written, end: nat)
    requires WrittenShape(w) && PieceAt(img, c, w, end) && |img| < 0x1_0000_0000
    ensures PartsAt(img, c, w, end, w.pl.pos + InodeSize(w.compact) + |WrittenArea(c, w)|)
  {
    var piece, s := WrittenPiece(c, w), WrittenSizes(c, w);
    assert LandedOne(img, piece, s, w.pl, w.dataAt);
    assert s.inodeSize == InodeSize(w.compact) && s.xattrSize == |WrittenArea(c, w)|;
    assert At(img, w.dataAt, piece.data);
  }

  lemma {:induction false} ContentRead(dec: Decoder, img: bytes, c: Setting, w: Written, end: nat, at: nat)
    requires Inverts(dec) && WrittenOk(c, w) && |img| < 0x1_0000_0000 && w.dataAt % 4096 == 0 && w.dataAt >= 4096
    requires Well(WrittenSizes(c, w), end, w.pl)
    requires At(img, at, TailOf(w.n.body, w.ds, w.pl)) && At(img, w.dataAt, DataOf(w.n.body, w.ds, w.pl))
    ensures ReadBody(dec, img, WrittenFields(c, w), at) == Ok(ContentOf(w.n.body, w.ds))
  {
    FieldsRefer(w.n, c.store, w.pl, Max(Icount(|WrittenArea(c, w)|), 0), w.dataAt);
    NodeBodyReads(dec, img, c.store, w.n, w.ds, WrittenFields(c, w), WrittenSizes(c, w), end, w.pl, at, w.dataAt);
  }

  lemma {:induction false} NodeBodyReads(dec: Decoder, img: bytes, store: Storer, n: Inode, ds: seq<Dirent>, f: Fields,
        s: Sizes, end: nat, pl: Place, at: nat, dataAt: nat)
    requires Inverts(dec) && NodeOk(n, store) && Named(n.body, ds) && Refers(f, n.mode, n.body, pl, dataAt)
    requires s == SizesOf(n.body, s.inodeSize, s.xattrSize) && Well(s, end, pl) && dataAt % 4096 == 0 && 4096 <= dataAt
    requires |img| < 0x1_0000_0000
    requires At(img, at, TailOf(n.body, ds, pl)) && At(img, dataAt, DataOf(n.body, ds, pl))
    ensures ReadBody(dec, img, f, at) == Ok(ContentOf(n.body, ds))
  {
    assert dataAt <= |img|;
    BodyRoundTrip(dec, img, f, n.mode, n.body, ds, s, end, pl, at, dataAt);
  }

  lemma {:induction false} XattrsRead(read: EntryReader, img: bytes, c: Setting, w: Written)
    requires Reads(read, img) && WrittenOk(c, w) && At(img, w.pl.pos + InodeSize(w.compact), WrittenArea(c, w))
    requires TableAt(img, c)
    ensures DecodeArea(read, img, w.pl.pos + InodeSize(w.compact), |WrittenArea(c, w)|, TableBase(c.inodesEnd))
         == Ok(ReadAs(w.n, w.ds, c.store, w.slots).xattrs)
  {
    assert Assigned(w.n.xattrs, c.offsets, w.slots) && AllFit(StoredAll(w.n.xattrs, c.store));
    AreaOfReads(read, img, w.pl.pos + InodeSize(w.compact), |WrittenArea(c, w)|, c.inodesEnd, c.table, c.store,
                c.offsets, w.n.xattrs, w.slots, w.filter);
  }

  lemma {:induction false} StatRead(c: Setting, w: Written)
    requires WrittenOk(c, w)
    ensures StatOf(WrittenFields(c, w)) == ReadAs(w.n, w.ds, c.store, w.slots).stat
    ensures FileType(WrittenFields(c, w).mode) == S_IFCHR && WrittenFields(c, w).u == 0 <==> IsWhiteout(w.n)
  {
    FieldsRefer(w.n, c.store, w.pl, Max(Icount(|WrittenArea(c, w)|), 0), w.dataAt);
  }

  lemma {:induction false} NodeSteps(dec: Decoder, read: EntryReader, img: bytes, c: Setting, w: Written, end: nat,
                                    at: nat)
    requires Inverts(dec) && Reads(read, img) && WrittenOk(c, w) && PartsAt(img, c, w, end, at) && TableAt(img, c)
    ensures Steps(dec, read, img, c.sec, c.nsec, TableBase(c.inodesEnd), w.pl.pos, WrittenFields(c, w),
                  InodeSize(w.compact), |WrittenArea(c, w)|, at,
                  ReadAs(w.n, w.ds, c.store, w.slots), IsWhiteout(w.n))
  {
    WrittenIcount(c, w);
    FieldsRead(img, c, w);
    ContentRead(dec, img, c, w, end, at);
    XattrsRead(read, img, c, w);
    StatRead(c, w);
    SlotStart(WrittenSizes(c, w), end, w.pl);
  }

  /** Reading an inode back gives its fields, its content and its attributes; only a whiteout is reported as such. */
  lemma {:induction false} NodeRoundTrip(dec: Decoder, read: EntryReader, img: bytes, c: Setting, w: Written, end: nat)
    requires Inverts(dec) && Reads(read, img) && WrittenOk(c, w) && PieceAt(img, c, w, end) && TableAt(img, c)
    ensures ReadNode(dec, read, img, c.sec, c.nsec, TableBase(c.inodesEnd), Slot(w.pl.pos))
         == if IsWhiteout(w.n) then Err(Whiteout) else Ok(ReadAs(w.n, w.ds, c.store, w.slots))
  {
    var at := w.pl.pos + InodeSize(w.compact) + |WrittenArea(c, w)|;
    PieceParts(img, c, w, end);
    NodeSteps(dec, read, img, c, w, end, at);
    StepsRead(dec, read, img, c.sec, c.nsec, TableBase(c.inodesEnd), w.pl.pos, WrittenFields(c, w),
        InodeSize(w.compact), |WrittenArea(c, w)|, at,
              ReadAs(w.n, w.ds, c.store, w.slots), IsWhiteout(w.n));
  }
}
