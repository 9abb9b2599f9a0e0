/** Loading what was written: the superblock, and then every inode with its names, content and attributes. */
module ImageLoads {
  import opened Common
  import opened Bytes
  import opened Chunking
  import opened DirCodec
  import opened DirBlocks
  import opened Xattrs
  import opened NodeXattrs
  import opened NodeAttrs
  import opened XattrRoom
  import opened XattrExact
  import opened BodyReader
  import opened ErofsNode
  import opened NodeReader
  import opened ErofsImage
  import opened Whiteouts
  import L = Loader
  import S = Superblock

  /** An image the writer can make: planned with the real attribute names, small enough, with the writer's root. */
  ghost predicate Writable(p: Plan, flags: nat, version: nat) {
    && Planned(p) && p.c.store == Store && WritersRoot(p) && ImageSize(p) < 0x1_0000_0000 && p.c.sec < TWO64
    && p.c.nsec < 0x1_0000_0000
    && flags < 0x1_0000_0000 && version < 0x1_0000_0000
  }

  ghost function WrittenImage(p: Plan, flags: nat, version: nat): bytes
    requires AllWritten(p) && p.ps != []
  {
    ImageOf(p, S.PrefixBytes(L.SuperOf(p, flags, version)))
  }

  /** What the loader reads of the inode in a slot, given what it learnt from the superblock. */
  function ReadSlot(img: bytes, s: S.Loaded, nid: nat): Result<NodeRead, ReadError> {
    ReadNode(DecodeBlock, ReaderOf(img), img, s.sec, s.nsec, s.xattrs, nid)
  }

  /** The inode comes back: its fields, its content, and its attributes unless one of them is bare and last. */
  ghost predicate ReadsAs(p: Plan, i: nat, r: NodeRead)
    requires Shaped(p) && i < |p.nodes| && NodePlanned(p, i)
  {
    var n := p.nodes[i];
    && r.stat == Stat(n.mode, n.nlink, FileSize(n.body), n.uid, n.gid, n.sec, n.nsec,
                      if IsDevice(n.mode) then n.rdev else 0)
    && r.content == ContentOf(n.body, DirentsOf(n.body, p.nodes, p.ps))
    && (multiset(FetchAll(r.xattrs)) == multiset(n.xattrs) <==> !EndsBare(n.xattrs, p.slots[i]))
  }

  lemma {:induction false} ReadAsMeans(p: Plan, i: nat)
    requires Shaped(p) && i < |p.nodes| && NodePlanned(p, i) && p.c.store == Store
    ensures ReadsAs(p, i, ReadAs(p.nodes[i], DirentsOf(p.nodes[i].body, p.nodes, p.ps), Store, p.slots[i]))
  {
    AttributesExact(p.nodes[i].xattrs, p.slots[i]);
  }

  lemma {:induction false} SlotReads(p: Plan, flags: nat, version: nat, i: nat, s: S.Loaded)
    requires Writable(p, flags, version) && AllWritten(p) && i < |p.nodes| && IcountFits(p, i) && NodePlanned(p, i)
    requires s.sec == p.c.sec && s.nsec == p.c.nsec && s.xattrs == TableBase(p.c.inodesEnd)
    ensures ReadSlot(WrittenImage(p, flags, version), s, Slot(p.ps[i].pos)) ==
            if IsWhiteout(p.nodes[i]) then Err(Whiteout) else
            Ok(ReadAs(p.nodes[i], DirentsOf(p.nodes[i].body, p.nodes, p.ps), Store, p.slots[i]))
  {
    var img := WrittenImage(p, flags, version);
    DecodeBlockInverts();
    ReaderOfReads(img);
    ImageRoundTrip(DecodeBlock, ReaderOf(img), p, S.PrefixBytes(L.SuperOf(p, flags, version)), i);
  }

  /**
   Round trip of the whole image.  The loader takes it and finds the slot of the root; reading any slot that a
   directory entry or the superblock names gives back the inode that was written there.
   */
  lemma {:induction false} WrittenReads(p: Plan, flags: nat, version: nat, i: nat) returns (s: S.Loaded)
    requires Writable(p, flags, version) && i < |p.nodes|
    ensures AllWritten(p) && NodePlanned(p, i) && S.Load(WrittenImage(p, flags, version)) == Ok(s)
    ensures s.root == Slot(p.ps[0].pos)
    ensures IcountFits(p, i) && IsWhiteout(p.nodes[i]) ==>
              ReadSlot(WrittenImage(p, flags, version), s, Slot(p.ps[i].pos)) == Err(Whiteout)
    ensures IcountFits(p, i) && !IsWhiteout(p.nodes[i]) ==>
              var r := ReadSlot(WrittenImage(p, flags, version), s, Slot(p.ps[i].pos)); r.Ok? && ReadsAs(p, i, r.value)
  {
    WrittenLoads(p, flags, version);
    assert NodePlanned(p, i);
    s := S.Loaded(0, TableBase(p.c.inodesEnd), p.c.sec, p.c.nsec, Slot(p.ps[0].pos));
    if IcountFits(p, i) {
      SlotReads(p, flags, version, i, s);
      ReadAsMeans(p, i);
    }
  }

  /** The limit on the attributes of a node keeps the count in its inode from overflowing. */
  lemma {:induction false} TotalFits(p: Plan, i: nat)
    requires AllWritten(p) && i < |p.nodes| && p.c.store == Store && Total(p.nodes[i].xattrs) <= 0xffff
    ensures IcountFits(p, i)
  {
    assert WrittenShape(WrittenOf(p, i));
    TotalCoversArea(p.nodes[i].xattrs, p.slots[i], p.filters[i], p.c.inodesEnd);
  }
}
