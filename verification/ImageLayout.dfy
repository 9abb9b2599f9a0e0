/** The image as bytes: superblock, inodes with what is stored behind them, shared attributes, data blocks. */
module ImageLayout {
  import opened Bytes
  import opened Layout

  /** All that is written for one inode. */
  datatype Piece = Piece(inode: bytes, area: bytes, tail: bytes, data: bytes)

  /** The piece takes exactly the room that the layout gave it. */
  predicate Fills(p: Piece, s: Sizes, pl: Place) {
    |p.inode| == s.inodeSize && |p.area| == s.xattrSize && |p.tail| == pl.tail && |p.data| == 4096 * pl.nBlocks
  }

  ghost predicate AllFill(pieces: seq<Piece>, ss: seq<Sizes>, ps: seq<Place>) {
    && |pieces| == |ss| == |ps|
    && forall i {:trigger pieces[i]} :: 0 <= i < |ss| ==> Fills(pieces[i], ss[i], ps[i])
  }

  function Region(p: Piece, pl: Place): bytes {
    Zeros(pl.ipad) + (p.inode + p.area + p.tail)
  }

  ghost function Regions(pieces: seq<Piece>, ps: seq<Place>): (r: seq<bytes>)
    requires |pieces| == |ps|
    ensures |r| == |ps|
  {
    seq(|ps|, i requires 0 <= i < |ps| => Region(pieces[i], ps[i]))
  }

  ghost function Datas(pieces: seq<Piece>): (r: seq<bytes>)
    ensures |r| == |pieces|
  {
    seq(|pieces|, i requires 0 <= i < |pieces| => pieces[i].data)
  }

  /** Zeros up to the next multiple of `n`. */
  function AlignPad(at: nat, n: nat): bytes
    requires n > 0
  {
    Zeros(RoundUp(at, n) - at)
  }

  ghost function Meta(prefix: bytes, pieces: seq<Piece>, ps: seq<Place>): bytes
    requires |pieces| == |ps|
  {
    var b := prefix + Flat(Regions(pieces, ps));
    b + AlignPad(|b|, 32)
  }

  ghost function WithShared(meta: bytes, shared: bytes): bytes {
    meta + shared + AlignPad(|meta + shared|, 4096)
  }

  ghost function Image(prefix: bytes, pieces: seq<Piece>, ps: seq<Place>, shared: bytes): bytes
    requires |pieces| == |ps|
  {
    WithShared(Meta(prefix, pieces, ps), shared) + Flat(Datas(pieces))
  }

  // ---------- the inodes land where the layout says ----------

  lemma {:induction false} RegionLength(p: Piece, s: Sizes, end: nat, pl: Place)
    requires Fills(p, s, pl) && Well(s, end, pl)
    ensures end + |Region(p, pl)| == pl.pos + pl.isize
  {
  }

  lemma {:induction false} RegionsEnd(pieces: seq<Piece>, ss: seq<Sizes>, ps: seq<Place>, i: nat)
    requires AllFill(pieces, ss, ps) && Laid(ss, ps) && i <= |ss|
    ensures INODES_START + Offset(Regions(pieces, ps), i) == End(ps[..i])
  {
    if i > 0 {
      RegionsEnd(pieces, ss, ps, i - 1);
      FlatSlice(Regions(pieces, ps), i - 1);
      assert LaidAt(ss, ps, i - 1);
      RegionLength(pieces[i - 1], ss[i - 1], End(ps[..i - 1]), ps[i - 1]);
    }
  }

  lemma {:induction false} MetaLength(prefix: bytes, pieces: seq<Piece>, ss: seq<Sizes>, ps: seq<Place>)
    requires AllFill(pieces, ss, ps) && Laid(ss, ps) && |prefix| == INODES_START
    ensures |Meta(prefix, pieces, ps)| == RoundUp(End(ps), 32)
  {
    RegionsEnd(pieces, ss, ps, |ss|);
    assert ps[..|ss|] == ps;
    assert Regions(pieces, ps)[..|ss|] == Regions(pieces, ps);
  }

  lemma {:induction false} RegionParts(img: bytes, end: nat, p: Piece, s: Sizes, pl: Place)
    requires At(img, end, Region(p, pl)) && Fills(p, s, pl) && Well(s, end, pl)
    ensures At(img, pl.pos, p.inode) && At(img, pl.pos + s.inodeSize, p.area)
    ensures At(img, pl.pos + s.inodeSize + s.xattrSize, p.tail)
  {
    AtJoin(img, end, Zeros(pl.ipad), p.inode + p.area + p.tail);
    AtJoin(img, pl.pos, p.inode + p.area, p.tail);
    AtJoin(img, pl.pos, p.inode, p.area);
  }

  /** Each inode starts at its slot, its attributes and tail follow. */
  lemma {:induction false} InodeLands(img: bytes, pieces: seq<Piece>, ss: seq<Sizes>, ps: seq<Place>, i: nat)
    requires AllFill(pieces, ss, ps) && Laid(ss, ps) && i < |ss| && At(img, INODES_START, Flat(Regions(pieces, ps)))
    ensures At(img, ps[i].pos, pieces[i].inode)
    ensures At(img, ps[i].pos + ss[i].inodeSize, pieces[i].area)
    ensures At(img, ps[i].pos + ss[i].inodeSize + ss[i].xattrSize, pieces[i].tail)
  {
    var end := End(ps[..i]);
    assert At(img, end, Region(pieces[i], ps[i])) by {
      AtPart(img, INODES_START, Regions(pieces, ps), i);
      RegionsEnd(pieces, ss, ps, i);
    }
    assert LaidAt(ss, ps, i);
    RegionParts(img, end, pieces[i], ss[i], ps[i]);
  }

  // ---------- the data blocks land where the inodes say ----------

  lemma {:induction false} DatasEnd(pieces: seq<Piece>, ss: seq<Sizes>, ps: seq<Place>, i: nat)
    requires AllFill(pieces, ss, ps) && i <= |ss|
    ensures Offset(Datas(pieces), i) == 4096 * Blocks(ps[..i])
  {
    if i > 0 {
      DatasEnd(pieces, ss, ps, i - 1);
      FlatSlice(Datas(pieces), i - 1);
      assert ps[..i][..i - 1] == ps[..i - 1];
    }
  }

  lemma {:induction false} DataLands(img: bytes, start: nat, pieces: seq<Piece>, ss: seq<Sizes>, ps: seq<Place>, i: nat)
    requires AllFill(pieces, ss, ps) && i < |ss| && At(img, start, Flat(Datas(pieces)))
    ensures At(img, start + 4096 * Blocks(ps[..i]), pieces[i].data)
  {
    AtPart(img, start, Datas(pieces), i);
    DatasEnd(pieces, ss, ps, i);
  }

  lemma {:induction false} DataLength(pieces: seq<Piece>, ss: seq<Sizes>, ps: seq<Place>)
    requires AllFill(pieces, ss, ps)
    ensures |Flat(Datas(pieces))| == 4096 * Blocks(ps)
  {
    DatasEnd(pieces, ss, ps, |ss|);
    assert ps[..|ss|] == ps && Datas(pieces)[..|ss|] == Datas(pieces);
  }

  // ---------- the whole image ----------

  ghost predicate LandedOne(img: bytes, p: Piece, s: Sizes, pl: Place, dataAt: nat) {
    && At(img, pl.pos, p.inode) && At(img, pl.pos + s.inodeSize, p.area)
    && At(img, pl.pos + s.inodeSize + s.xattrSize, p.tail) && At(img, dataAt, p.data)
  }

  ghost predicate AllLanded(img: bytes, pieces: seq<Piece>, ss: seq<Sizes>, ps: seq<Place>, dataStart: nat)
    requires |pieces| == |ss| == |ps|
  {
    forall i {:trigger pieces[i]} :: 0 <= i < |ss| ==>
      LandedOne(img, pieces[i], ss[i], ps[i], dataStart + 4096 * Blocks(ps[..i]))
  }

  /** Everything stands where the layout pass predicted, and the image ends with the last data block. */
  ghost predicate Landed(img: bytes, pieces: seq<Piece>, ss: seq<Sizes>, ps: seq<Place>, inodesEnd: nat, dataStart: nat,
                         shared: bytes)
    requires |pieces| == |ss| == |ps|
  {
    && |img| == dataStart + 4096 * Blocks(ps)
    && At(img, inodesEnd, shared)
    && AllLanded(img, pieces, ss, ps, dataStart)
  }

  lemma {:induction false} ImageParts(prefix: bytes, regions: bytes, pad: bytes, shared: bytes, pad': bytes,
                                    data: bytes)
    ensures var meta := prefix + regions + pad; var img := meta + shared + pad' + data;
            At(img, |prefix|, regions) && At(img, |meta|, shared) && At(img, |meta + shared + pad'|, data)
  {
    var meta := prefix + regions + pad;
    var img := meta + shared + pad' + data;
    assert img == prefix + regions + (pad + shared + pad' + data);
    assert img == meta + shared + (pad' + data);
  }

  lemma {:induction false} PiecesLand(img: bytes, dataStart: nat, pieces: seq<Piece>, ss: seq<Sizes>, ps: seq<Place>)
    requires AllFill(pieces, ss, ps) && Laid(ss, ps)
    requires At(img, INODES_START, Flat(Regions(pieces, ps))) && At(img, dataStart, Flat(Datas(pieces)))
    ensures AllLanded(img, pieces, ss, ps, dataStart)
  {
    forall i | 0 <= i < |ss|
      ensures LandedOne(img, pieces[i], ss[i], ps[i], dataStart + 4096 * Blocks(ps[..i]))
    {
      InodeLands(img, pieces, ss, ps, i);
      DataLands(img, dataStart, pieces, ss, ps, i);
    }
  }

  lemma {:induction false} PartsStand(prefix: bytes, pieces: seq<Piece>, ss: seq<Sizes>, ps: seq<Place>, inodesEnd: nat,
                                      dataStart: nat, shared: bytes)
    requires AllFill(pieces, ss, ps) && Laid(ss, ps) && |prefix| == INODES_START
    requires inodesEnd == RoundUp(End(ps), 32) && dataStart == RoundUp(inodesEnd + |shared|, 4096)
    ensures var img := Image(prefix, pieces, ps, shared);
            && |img| == dataStart + 4096 * Blocks(ps) && At(img, INODES_START, Flat(Regions(pieces, ps)))
            && At(img, inodesEnd, shared) && At(img, dataStart, Flat(Datas(pieces)))
  {
    var regions, data := Flat(Regions(pieces, ps)), Flat(Datas(pieces));
    var meta := Meta(prefix, pieces, ps);
    var pad' := AlignPad(|meta + shared|, 4096);
    assert |meta| == inodesEnd by { MetaLength(prefix, pieces, ss, ps); }
    assert |data| == 4096 * Blocks(ps) by { DataLength(pieces, ss, ps); }
    ImageParts(prefix, regions, AlignPad(|prefix + regions|, 32), shared, pad', data);
  }

  lemma {:induction false} ImageLands(prefix: bytes, pieces: seq<Piece>, ss: seq<Sizes>, ps: seq<Place>, inodesEnd: nat,
                                      dataStart: nat, shared: bytes)
    requires AllFill(pieces, ss, ps) && Laid(ss, ps) && |prefix| == INODES_START
    requires inodesEnd == RoundUp(End(ps), 32) && dataStart == RoundUp(inodesEnd + |shared|, 4096)
    ensures Landed(Image(prefix, pieces, ps, shared), pieces, ss, ps, inodesEnd, dataStart, shared)
  {
    var img := Image(prefix, pieces, ps, shared);
    PartsStand(prefix, pieces, ss, ps, inodesEnd, dataStart, shared);
    PiecesLand(img, dataStart, pieces, ss, ps);
  }

  lemma {:induction false} FrontAt(x: bytes, y: bytes, a: bytes)
    requires At(x, 0, a)
    ensures At(x + y, 0, a)
  {
    assert At(x + y, 0, x);
    AtInside(x + y, 0, x, 0, a);
  }

  lemma {:induction false} ImageStarts(prefix: bytes, pieces: seq<Piece>, ps: seq<Place>, shared: bytes)
    requires |pieces| == |ps|
    ensures At(Image(prefix, pieces, ps, shared), 0, prefix)
  {
    var b := prefix + Flat(Regions(pieces, ps));
    var meta := Meta(prefix, pieces, ps);
    assert At(prefix, 0, prefix);
    FrontAt(prefix, Flat(Regions(pieces, ps)), prefix);
    FrontAt(b, AlignPad(|b|, 32), prefix);
    FrontAt(meta, shared, prefix);
    FrontAt(meta + shared, AlignPad(|meta + shared|, 4096), prefix);
    FrontAt(WithShared(meta, shared), Flat(Datas(pieces)), prefix);
  }

  // ---------- the gaps ----------

  /** Between the superblock and the data blocks, but in no inode with what is behind it and not in the table. */
  ghost predicate InGap(ps: seq<Place>, inodesEnd: nat, dataStart: nat, shared: nat, x: nat) {
    && INODES_START <= x < dataStart && !(inodesEnd <= x < inodesEnd + shared)
    && forall i {:trigger ps[i]} :: 0 <= i < |ps| ==> !(ps[i].pos <= x < ps[i].pos + ps[i].isize)
  }

  lemma {:induction false} RegionGap(img: bytes, pieces: seq<Piece>, ss: seq<Sizes>, ps: seq<Place>, k: nat, x: nat)
    requires AllFill(pieces, ss, ps) && Laid(ss, ps) && At(img, INODES_START, Flat(Regions(pieces, ps)))
    requires k <= |ps| && INODES_START <= x < End(ps[..k]) && x < |img|
    requires forall i {:trigger ps[i]} :: 0 <= i < |ps| ==> !(ps[i].pos <= x < ps[i].pos + ps[i].isize)
    ensures img[x] == 0
    decreases k
  {
    var i := k - 1;
    if x < End(ps[..i]) {
      RegionGap(img, pieces, ss, ps, i, x);
    } else {
      AtPart(img, INODES_START, Regions(pieces, ps), i);
      RegionsEnd(pieces, ss, ps, i);
      RegionsEnd(pieces, ss, ps, k);
      FlatSlice(Regions(pieces, ps), i);
      assert LaidAt(ss, ps, i);
      RegionLength(pieces[i], ss[i], End(ps[..i]), ps[i]);
      AtJoin(img, End(ps[..i]), Zeros(ps[i].ipad), pieces[i].inode + pieces[i].area + pieces[i].tail);
      AtZeros(img, End(ps[..i]), ps[i].ipad);
    }
  }

  lemma {:induction false} PadsAt(prefix: bytes, regions: bytes, pad: bytes, shared: bytes, pad': bytes, data: bytes)
    ensures var meta := prefix + regions + pad; var img := meta + shared + pad' + data;
            At(img, |prefix + regions|, pad) && At(img, |meta + shared|, pad')
  {
    var meta := prefix + regions + pad;
    var img := meta + shared + pad' + data;
    assert img == prefix + regions + pad + (shared + pad' + data);
    assert img == meta + shared + pad' + data;
  }

  lemma {:induction false} PadsStand(prefix: bytes, pieces: seq<Piece>, ss: seq<Sizes>, ps: seq<Place>, inodesEnd: nat,
                                     dataStart: nat, shared: bytes)
    requires AllFill(pieces, ss, ps) && Laid(ss, ps) && |prefix| == INODES_START
    requires inodesEnd == RoundUp(End(ps), 32) && dataStart == RoundUp(inodesEnd + |shared|, 4096)
    ensures var img := Image(prefix, pieces, ps, shared);
            && End(ps) <= inodesEnd && At(img, End(ps), Zeros(inodesEnd - End(ps)))
            && inodesEnd + |shared| <= dataStart
            && At(img, inodesEnd + |shared|, Zeros(dataStart - (inodesEnd + |shared|)))
  {
    var regions, meta := Flat(Regions(pieces, ps)), Meta(prefix, pieces, ps);
    assert |meta| == inodesEnd by { MetaLength(prefix, pieces, ss, ps); }
    assert |prefix + regions| == End(ps) by {
      RegionsEnd(pieces, ss, ps, |ss|);
      assert ps[..|ss|] == ps && Regions(pieces, ps)[..|ss|] == Regions(pieces, ps);
    }
    PadsAt(prefix, regions, AlignPad(|prefix + regions|, 32), shared, AlignPad(|meta + shared|, 4096),
           Flat(Datas(pieces)));
  }

  /** Whatever belongs to nothing is zero, so that an image is determined by what is in it. */
  lemma {:induction false} GapIsZero(prefix: bytes, pieces: seq<Piece>, ss: seq<Sizes>, ps: seq<Place>, inodesEnd: nat,
                                     dataStart: nat, shared: bytes, x: nat)
    requires AllFill(pieces, ss, ps) && Laid(ss, ps) && |prefix| == INODES_START
    requires inodesEnd == RoundUp(End(ps), 32) && dataStart == RoundUp(inodesEnd + |shared|, 4096)
    requires InGap(ps, inodesEnd, dataStart, |shared|, x)
    ensures x < |Image(prefix, pieces, ps, shared)| && Image(prefix, pieces, ps, shared)[x] == 0
  {
    var img := Image(prefix, pieces, ps, shared);
    PartsStand(prefix, pieces, ss, ps, inodesEnd, dataStart, shared);
    PadsStand(prefix, pieces, ss, ps, inodesEnd, dataStart, shared);
    if x < End(ps) {
      assert ps[..|ps|] == ps;
      RegionGap(img, pieces, ss, ps, |ps|, x);
    } else if x < inodesEnd {
      AtZeros(img, End(ps), inodesEnd - End(ps));
    } else {
      AtZeros(img, inodesEnd + |shared|, dataStart - (inodesEnd + |shared|));
    }
  }
}
