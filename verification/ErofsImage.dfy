/** The whole image: every decision about the inodes, the bytes that follow from them, and reading them back. */
module ErofsImage {
  import opened Common
  import opened Bytes
  import opened Chunking
  import opened DirCodec
  import opened DirBlocks
  import opened Layout
  import opened ImageLayout
  import opened Xattrs
  import opened XattrArea
  import opened SharedXattrs
  import opened NodeXattrs
  import opened ErofsNode
  import opened BodyReader
  import opened NodeReader

  /** What the layout passes decide: sharing, form of inodes, places, and where the data blocks start. */
  datatype Plan = Plan(nodes: seq<Inode>, c: Setting, slots: seq<seq<Option<nat>>>, filters: seq<nat>,
                       compacts: seq<bool>, ps: seq<Place>, dataStart: nat)

  function DirentOf(child: Child, nodes: seq<Inode>, ps: seq<Place>): Dirent
    requires child.target < |nodes| == |ps|
  {
    Dirent(child.name, Slot(ps[child.target].pos), DirentType(nodes[child.target].mode))
  }

  predicate TargetsIn(body: Body, n: nat) {
    body.Directory? ==> forall k {:trigger body.children[k]} :: 0 <= k < |body.children| ==> body.children[k].target < n
  }

  /** The entries of a directory: names with the slots and types of the inodes they lead to. */
  function DirentsOf(body: Body, nodes: seq<Inode>, ps: seq<Place>): (ds: seq<Dirent>)
    requires |nodes| == |ps| && TargetsIn(body, |nodes|)
    ensures body.Directory? ==> |ds| == |body.children|
  {
    if body.Directory? then
      seq(|body.children|, k requires 0 <= k < |body.children| => DirentOf(body.children[k], nodes, ps))
    else []
  }

  ghost predicate Shaped(p: Plan) {
    && |p.slots| == |p.filters| == |p.compacts| == |p.ps| == |p.nodes|
    && forall i {:trigger p.nodes[i]} :: 0 <= i < |p.nodes| ==> TargetsIn(p.nodes[i].body, |p.nodes|)
  }

  ghost function WrittenOf(p: Plan, i: nat): Written
    requires Shaped(p) && i < |p.nodes|
  {
    Written(p.nodes[i], DirentsOf(p.nodes[i].body, p.nodes, p.ps), p.slots[i], p.filters[i], p.compacts[i], p.ps[i],
            p.dataStart + 4096 * Blocks(p.ps[..i]))
  }

  /** One inode of the plan is good: valid, shared as decided, in compact form just when it can be. */
  ghost predicate NodePlanned(p: Plan, i: nat)
    requires Shaped(p) && i < |p.nodes|
  {
    var n := p.nodes[i];
    && NodeOk(n, p.c.store) && Assigned(n.xattrs, p.c.offsets, p.slots[i])
    && (p.compacts[i] <==> Compact(n, p.c.sec, p.c.nsec))
  }

  ghost function SizesAt(p: Plan, i: nat): Sizes
    requires Shaped(p) && i < |p.nodes| && NodePlanned(p, i)
  {
    var n := p.nodes[i];
    SizesOf(n.body, InodeSize(p.compacts[i]),
            AreaSize(|Shared(n.xattrs, p.slots[i])|, TableSize(Unshared(n.xattrs, p.slots[i]), p.c.store)))
  }

  ghost predicate NodesPlanned(p: Plan) {
    Shaped(p) && forall i: nat {:trigger NodePlanned(p, i)} :: i < |p.nodes| ==> NodePlanned(p, i)
  }

  ghost function AllSizes(p: Plan): (ss: seq<Sizes>)
    requires NodesPlanned(p)
    ensures |ss| == |p.nodes|
  {
    seq(|p.nodes|, i requires 0 <= i < |p.nodes| => assert NodePlanned(p, i); SizesAt(p, i))
  }

  ghost function TableBytes(c: Setting): bytes {
    Flat(Encoded(StoredAll(c.table, c.store)))
  }

  ghost predicate Planned(p: Plan) {
    && NodesPlanned(p) && Laid(AllSizes(p), p.ps)
    && Located(p.c.table, p.c.store, p.c.offsets) && AllFit(StoredAll(p.c.table, p.c.store))
    && p.c.inodesEnd == RoundUp(End(p.ps), 32) && p.dataStart == RoundUp(p.c.inodesEnd + |TableBytes(p.c)|, 4096)
  }

  /** The size the superblock announces; block addresses need it below 4 GiB. */
  function ImageSize(p: Plan): nat {
    p.dataStart + 4096 * Blocks(p.ps)
  }

  /** Directory entries are as the format needs them. */
  lemma {:induction false} DirentsNamed(p: Plan, i: nat)
    requires Planned(p) && i < |p.nodes| && ImageSize(p) < 0x1_0000_0000
    ensures Named(p.nodes[i].body, DirentsOf(p.nodes[i].body, p.nodes, p.ps))
  {
    var body := p.nodes[i].body;
    var ds := DirentsOf(body, p.nodes, p.ps);
    assert NodePlanned(p, i);
    Widths();
    if body.Directory? {
      assert Names(ds) == ChildNames(body.children);
      forall k | 0 <= k < |ds|
        ensures NameOk(ds[k].name) && ds[k].nid < Pow256(8)
      {
        assert NameOk(ChildNames(body.children)[k]);
        PosBound(p, body.children[k].target);
      }
    }
  }

  lemma {:induction false} PosBound(p: Plan, i: nat)
    requires Planned(p) && i < |p.nodes|
    ensures p.ps[i].pos <= p.c.inodesEnd <= p.dataStart <= ImageSize(p) && p.c.inodesEnd % 32 == 0
    ensures p.dataStart % 4096 == 0
    ensures Slot(p.ps[i].pos) <= p.ps[i].pos
  {
    var last := |p.ps| - 1;
    if i < last { PlacesIncrease(AllSizes(p), p.ps, i, last); }
  }

  lemma {:induction false} BlocksBound(ps: seq<Place>, i: nat)
    requires i < |ps|
    ensures ps[i].nBlocks <= Blocks(ps)
  {
    if i < |ps| - 1 { BlocksBound(ps[..|ps| - 1], i); }
  }

  lemma {:induction false} FileSizeBound(p: Plan, i: nat)
    requires Planned(p) && i < |p.nodes| && ImageSize(p) < 0x1_0000_0000
    ensures NodePlanned(p, i) && FileSize(p.nodes[i].body) < TWO64
  {
    assert NodePlanned(p, i);
    var body := p.nodes[i].body;
    if body.Directory? {
      assert LaidAt(AllSizes(p), p.ps, i);
      DirRoom(body.children);
      BlocksBound(p.ps, i);
    }
  }

  lemma {:induction false} WrittenGood(p: Plan, i: nat)
    requires Planned(p) && i < |p.nodes| && ImageSize(p) < 0x1_0000_0000
    ensures WrittenOk(p.c, WrittenOf(p, i)) && WrittenSizes(p.c, WrittenOf(p, i)) == AllSizes(p)[i]
  {
    FileSizeBound(p, i);
    DirentsNamed(p, i);
    var n := p.nodes[i];
    AreaOfLength(n.xattrs, p.slots[i], p.c.store, p.filters[i], p.c.inodesEnd);
  }

  ghost predicate AllWritten(p: Plan) {
    Shaped(p) && forall i: nat {:trigger WrittenOf(p, i)} :: i < |p.nodes| ==> WrittenShape(WrittenOf(p, i))
  }

  lemma {:induction false} PlanWritten(p: Plan)
    requires Planned(p) && ImageSize(p) < 0x1_0000_0000
    ensures AllWritten(p)
  {
    forall i: nat | i < |p.nodes|
      ensures WrittenShape(WrittenOf(p, i))
    {
      WrittenGood(p, i);
    }
  }

  ghost function Pieces(p: Plan): (pieces: seq<Piece>)
    requires AllWritten(p)
    ensures |pieces| == |p.nodes|
  {
    seq(|p.nodes|, i requires 0 <= i < |p.nodes| => WrittenPiece(p.c, WrittenOf(p, i)))
  }

  ghost function ImageOf(p: Plan, prefix: bytes): bytes
    requires AllWritten(p)
  {
    Image(prefix, Pieces(p), p.ps, TableBytes(p.c))
  }

  lemma {:induction false} DataAligned(dataStart: nat, blocks: nat)
    requires dataStart % 4096 == 0 && dataStart > 0
    ensures (dataStart + 4096 * blocks) % 4096 == 0 && dataStart + 4096 * blocks >= 4096
  {
  }

  lemma {:induction false} SlotWords(n: nat)
    requires n % 32 == 0
    ensures n % 4 == 0
  {
  }

  lemma {:induction false} PlanDataAt(p: Plan, i: nat)
    requires Planned(p) && i < |p.nodes|
    ensures var dataAt := p.dataStart + 4096 * Blocks(p.ps[..i]); dataAt % 4096 == 0 && dataAt >= 4096
  {
    PosBound(p, 0);
    assert LaidAt(AllSizes(p), p.ps, 0);
    DataAligned(p.dataStart, Blocks(p.ps[..i]));
  }

  /** What the write pass and the reader need to know of inode `i`. */
  ghost predicate PlanNode(p: Plan, i: nat)
    requires Shaped(p) && i < |p.nodes|
  {
    && WrittenOk(p.c, WrittenOf(p, i)) && Well(WrittenSizes(p.c, WrittenOf(p, i)), End(p.ps[..i]), p.ps[i])
    && WrittenOf(p, i).dataAt % 4096 == 0 && WrittenOf(p, i).dataAt >= 4096
  }

  lemma {:induction false} NodeFromPlan(p: Plan, i: nat)
    requires Planned(p) && i < |p.nodes| && ImageSize(p) < 0x1_0000_0000
    ensures PlanNode(p, i) && WrittenSizes(p.c, WrittenOf(p, i)) == AllSizes(p)[i]
  {
    WrittenGood(p, i);
    assert LaidAt(AllSizes(p), p.ps, i);
    PlanDataAt(p, i);
  }

  lemma {:induction false} PieceFills(p: Plan, i: nat)
    requires Shaped(p) && i < |p.nodes| && PlanNode(p, i)
    ensures Fills(WrittenPiece(p.c, WrittenOf(p, i)), WrittenSizes(p.c, WrittenOf(p, i)), p.ps[i])
  {
    var w := WrittenOf(p, i);
    BodyFills(w.n.mode, w.n.body, w.ds, InodeSize(w.compact), |WrittenArea(p.c, w)|, End(p.ps[..i]), w.pl);
  }

  lemma {:induction false} PlanFills(p: Plan)
    requires Planned(p) && ImageSize(p) < 0x1_0000_0000
    ensures AllWritten(p) && AllFill(Pieces(p), AllSizes(p), p.ps)
  {
    PlanWritten(p);
    var pieces := Pieces(p);
    forall i | 0 <= i < |pieces|
      ensures Fills(pieces[i], AllSizes(p)[i], p.ps[i])
    {
      NodeFromPlan(p, i);
      PieceFills(p, i);
    }
  }

  /** The write pass lands exactly where the layout pass predicted. */
  lemma {:induction false} PlanLands(p: Plan, prefix: bytes)
    requires Planned(p) && ImageSize(p) < 0x1_0000_0000 && |prefix| == INODES_START
    ensures AllWritten(p) && AllLanded(ImageOf(p, prefix), Pieces(p), AllSizes(p), p.ps, p.dataStart)
    ensures At(ImageOf(p, prefix), p.c.inodesEnd, TableBytes(p.c)) && |ImageOf(p, prefix)| == ImageSize(p)
  {
    PlanFills(p);
    ImageLands(prefix, Pieces(p), AllSizes(p), p.ps, p.c.inodesEnd, p.dataStart, TableBytes(p.c));
  }

  /** The attribute area of an inode can be too large for the inode to record; the writer then gives up. */
  ghost predicate IcountFits(p: Plan, i: nat)
    requires Shaped(p) && i < |p.nodes| && WrittenShape(WrittenOf(p, i))
  {
    Icount(|WrittenArea(p.c, WrittenOf(p, i))|) < 0x1_0000
  }

  lemma {:induction false} PlanTableAt(p: Plan, img: bytes)
    requires Planned(p) && |img| < 0x1_0000_0000 && At(img, p.c.inodesEnd, TableBytes(p.c)) && p.nodes != []
    ensures TableAt(img, p.c)
  {
    SlotWords(p.c.inodesEnd);
  }

  /** Inode `i` reads back from wherever it landed. */
  lemma {:induction false} LandedReads(dec: Decoder, read: EntryReader, img: bytes, p: Plan, i: nat)
    requires Shaped(p) && i < |p.nodes| && PlanNode(p, i) && IcountFits(p, i) && TableAt(img, p.c) && Inverts(dec)
    requires Reads(read, img)
    requires LandedOne(img, WrittenPiece(p.c, WrittenOf(p, i)), WrittenSizes(p.c, WrittenOf(p, i)), p.ps[i],
                       WrittenOf(p, i).dataAt)
    ensures ReadNode(dec, read, img, p.c.sec, p.c.nsec, TableBase(p.c.inodesEnd), Slot(p.ps[i].pos))
         == if IsWhiteout(p.nodes[i]) then Err(Whiteout) else
            Ok(ReadAs(p.nodes[i], WrittenOf(p, i).ds, p.c.store, p.slots[i]))
  {
    NodeRoundTrip(dec, read, img, p.c, WrittenOf(p, i), End(p.ps[..i]));
  }

  lemma {:induction false} PieceLandedAt(p: Plan, img: bytes, ss: seq<Sizes>, i: nat)
    requires AllWritten(p) && i < |p.nodes| == |ss| && AllLanded(img, Pieces(p), ss, p.ps, p.dataStart)
    requires ss[i] == WrittenSizes(p.c, WrittenOf(p, i))
    ensures LandedOne(img, WrittenPiece(p.c, WrittenOf(p, i)), WrittenSizes(p.c, WrittenOf(p, i)), p.ps[i],
                       WrittenOf(p, i).dataAt)
  {
    assert LandedOne(img, Pieces(p)[i], ss[i], p.ps[i], p.dataStart + 4096 * Blocks(p.ps[..i]));
  }

  lemma {:induction false} PlanLandsAt(p: Plan, prefix: bytes, i: nat)
    requires Planned(p) && ImageSize(p) < 0x1_0000_0000 && |prefix| == INODES_START && i < |p.nodes|
    ensures AllWritten(p) && PlanNode(p, i) && TableAt(ImageOf(p, prefix), p.c)
    ensures LandedOne(ImageOf(p, prefix), WrittenPiece(p.c, WrittenOf(p, i)), WrittenSizes(p.c, WrittenOf(p, i)),
                      p.ps[i], WrittenOf(p, i).dataAt)
  {
    PlanLands(p, prefix);
    NodeFromPlan(p, i);
    PlanTableAt(p, ImageOf(p, prefix));
    PieceLandedAt(p, ImageOf(p, prefix), AllSizes(p), i);
  }

  /**
   Round trip of the whole image: every inode, looked up by its slot, comes back with its attributes, its content
   and its extended attributes.
   */
  lemma {:induction false} ImageRoundTrip(dec: Decoder, read: EntryReader, p: Plan, prefix: bytes, i: nat)
    requires Planned(p) && ImageSize(p) < 0x1_0000_0000 && |prefix| == INODES_START && AllWritten(p) && i < |p.nodes|
    requires IcountFits(p, i)
    requires Inverts(dec) && Reads(read, ImageOf(p, prefix))
    ensures ReadNode(dec, read, ImageOf(p, prefix), p.c.sec, p.c.nsec, TableBase(p.c.inodesEnd), Slot(p.ps[i].pos))
         == if IsWhiteout(p.nodes[i]) then Err(Whiteout) else
            Ok(ReadAs(p.nodes[i], WrittenOf(p, i).ds, p.c.store, p.slots[i]))
  {
    PlanLandsAt(p, prefix, i);
    LandedReads(dec, read, ImageOf(p, prefix), p, i);
  }
}
