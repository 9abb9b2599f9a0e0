/** Which written images the loader takes, and what it learns from the superblock. */
module Loader {
  import opened Common
  import opened Bytes
  import opened Chunking
  import opened Layout
  import opened ImageLayout
  import opened NodeXattrs
  import opened NodeReader
  import opened ErofsImage
  import S = Superblock

  function SuperOf(p: Plan, flags: nat, version: nat): S.Super
    requires p.ps != []
  {
    S.Super(flags, version, Slot(p.ps[0].pos), |p.nodes|, p.c.sec, p.c.nsec, ImageSize(p) / 4096, p.c.inodesEnd / 4096)
  }

  /** Something is stored behind the inodes, or they end inside a block. */
  ghost predicate HasMore(p: Plan) {
    p.c.inodesEnd % 4096 != 0 || TableBytes(p.c) != [] || Blocks(p.ps) > 0
  }

  lemma {:induction false} MoreArithmetic(inodesEnd: nat, n: nat, blocks: nat)
    ensures TableBase(inodesEnd) < RoundUp(inodesEnd + n, 4096) + 4096 * blocks <==>
              inodesEnd % 4096 != 0 || n > 0 || blocks > 0
    ensures TableBase(inodesEnd) <= inodesEnd && TableBase(inodesEnd) == inodesEnd / 4096 * 4096
  {
    var q, r := inodesEnd / 4096, inodesEnd % 4096;
    assert inodesEnd == 4096 * q + r && TableBase(inodesEnd) == 4096 * q;
  }

  ghost predicate RealSizes(ss: seq<Sizes>) {
    forall i {:trigger ss[i]} :: 0 <= i < |ss| ==> ss[i].inodeSize >= 32
  }

  lemma {:induction false} ManyInodes(ss: seq<Sizes>, ps: seq<Place>, k: nat)
    requires Laid(ss, ps) && RealSizes(ss) && k <= |ps|
    ensures INODES_START + 32 * k <= End(ps[..k])
  {
    if k > 0 {
      ManyInodes(ss, ps, k - 1);
      assert LaidAt(ss, ps, k - 1) && ss[k - 1].inodeSize >= 32;
    }
  }

  lemma {:induction false} ListBound(p: Plan)
    requires Planned(p)
    ensures |p.nodes| < p.c.inodesEnd && p.c.inodesEnd >= INODES_START
  {
    ManyInodes(AllSizes(p), p.ps, |p.ps|);
    assert p.ps[..|p.ps|] == p.ps;
  }

  lemma {:induction false} SuperFits(p: Plan, flags: nat, version: nat)
    requires Planned(p) && p.nodes != [] && ImageSize(p) < 0x1_0000_0000 && p.c.sec < TWO64 && p.c.nsec < 0x1_0000_0000
    requires flags < 0x1_0000_0000 && version < 0x1_0000_0000
    ensures S.SuperOk(SuperOf(p, flags, version)) && p.dataStart >= 4096
  {
    ListBound(p);
    PosBound(p, 0);
    RootSlot(AllSizes(p), p.ps);
  }

  lemma {:induction false} LoadSays(p: Plan, img: bytes, s: S.Super)
    requires S.Announces(img, s) && |img| == ImageSize(p) && p.dataStart >= 4096 && ImageSize(p) < 0x1_0000_0000
    requires s.xattrBlk == p.c.inodesEnd / 4096 && p.dataStart == RoundUp(p.c.inodesEnd + |TableBytes(p.c)|, 4096)
    ensures S.Load(img) == if HasMore(p) then Ok(S.Loaded(0, TableBase(p.c.inodesEnd), s.sec, s.nsec, s.root)) else
              Err(S.Invalid)
  {
    MoreArithmetic(p.c.inodesEnd, |TableBytes(p.c)|, Blocks(p.ps));
    S.LoadDecides(img, s);
  }

  /**
   The loader takes a written image, and finds the root and the shared attributes in it, exactly when the image
   does not end with inodes that fill their last block.
   */
  lemma {:induction false} LoadWritten(p: Plan, flags: nat, version: nat)
    requires Planned(p) && p.nodes != [] && ImageSize(p) < 0x1_0000_0000 && p.c.sec < TWO64 && p.c.nsec < 0x1_0000_0000
    requires flags < 0x1_0000_0000 && version < 0x1_0000_0000
    ensures AllWritten(p)
    ensures S.Load(ImageOf(p, S.PrefixBytes(SuperOf(p, flags, version))))
         == if HasMore(p) then Ok(S.Loaded(0, TableBase(p.c.inodesEnd), p.c.sec, p.c.nsec, Slot(p.ps[0].pos))) else
           Err(S.Invalid)
  {
    var s := SuperOf(p, flags, version);
    var prefix := S.PrefixBytes(s);
    SuperFits(p, flags, version);
    PlanLands(p, prefix);
    ImageStarts(prefix, Pieces(p), p.ps, TableBytes(p.c));
    S.PrefixReads(ImageOf(p, prefix), s);
    LoadSays(p, ImageOf(p, prefix), s);
  }
}
