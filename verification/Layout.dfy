/**
 Where inodes go.  Inodes start on 32-byte slots, one behind the other; padding in front of an inode keeps
 its inline tail inside one 4096-byte block, and a tail for which that fails moves to a data block.
 */
module Layout {
  import opened Bytes

  /** What is known of an inode before it is placed. */
  datatype Sizes = Sizes(symlink: bool, nBlocks: nat, tail: nat, inodeSize: nat, xattrSize: nat)

  /** Where it ends up: padding in front, first byte, out-of-line blocks, inline tail, total size. */
  datatype Place = Place(ipad: nat, pos: nat, nBlocks: nat, tail: nat, isize: nat)

  /** An inode of 32 or 64 bytes, whole attribute words, a tail of at most a block; a symlink target is shorter. */
  predicate SizesOk(s: Sizes) {
    && (s.inodeSize == 32 || s.inodeSize == 64) && s.xattrSize % 4 == 0
    && s.tail <= 4096 && (s.symlink ==> s.nBlocks == 0 && 1 <= s.tail < 4096)
  }

  // First byte behind the superblock.
  const INODES_START: nat := 1152

  datatype Padding = Padding(pad: nat, nBlocks: nat, tail: nat)

  function PaddingForTail(s: Sizes, pos: nat): Padding
    requires SizesOk(s)
  {
    var nonTail := s.inodeSize + s.xattrSize;
    if s.symlink then
      var total := nonTail + s.tail;
      var pad := if pos / 4096 != (pos + total - 1) / 4096 then RoundUp(pos, 4096) - pos else 0;
      if total / 4096 > 0 then Padding(pad, s.nBlocks + 1, 0) else Padding(pad, s.nBlocks, s.tail)
    else
      var remainder := 4096 - (pos + nonTail) % 4096;
      if s.tail <= remainder then Padding(0, s.nBlocks, s.tail) else
      var extra := RoundUp(remainder, 32);
      if s.tail <= 4096 - (pos + nonTail + extra) % 4096 then Padding(extra, s.nBlocks, s.tail)
      else Padding(RoundUp(pos, 4096) - pos, s.nBlocks + 1, 0)
  }

  /** The tail starting at `o` does not reach into the next block. */
  predicate Within(o: nat, tail: nat) {
    tail == 0 || o / 4096 == (o + tail - 1) / 4096
  }

  lemma {:induction false} WithinBlock(o: nat, tail: nat)
    requires tail <= 4096 - o % 4096
    ensures Within(o, tail)
  {
    var q, r := o / 4096, o % 4096;
    if tail > 0 { DivModUnique(o + tail - 1, 4096, q, r + tail - 1); }
  }

  lemma {:induction false} RoundUpGap(pos: nat)
    requires pos % 32 == 0
    ensures RoundUp(pos, 4096) - pos <= 4064 && (RoundUp(pos, 4096) - pos) % 32 == 0
  {
    var r := RoundUp(pos, 4096);
    var q, k := r / 4096, pos / 32;
    assert r == 4096 * q && pos == 32 * k;
    DivModUnique(r - pos, 32, 128 * q - k, 0);
  }

  /** After padding to the next slot the rest of the block is used up but for less than a slot. */
  lemma {:induction false} ExtraPad(o: nat, remainder: nat, extra: nat)
    requires remainder == 4096 - o % 4096 && extra == RoundUp(remainder, 32)
    ensures extra < 4096 ==> (o + extra) % 4096 == extra - remainder < 32
    ensures extra == 4096 ==> (o + extra) % 4096 == o % 4096
    ensures extra <= 4096
  {
    var q, r := o / 4096, o % 4096;
    if extra < 4096 {
      DivModUnique(o + extra, 4096, q + 1, extra - remainder);
    } else {
      DivModUnique(o + 4096, 4096, q + 1, r);
    }
  }

  /** What the padding achieves, and when the tail is given up. */
  ghost predicate Padded(s: Sizes, pos: nat, p: Padding) {
    && p.pad % 32 == 0 && p.pad <= 4064
    && ((p.tail == s.tail && p.nBlocks == s.nBlocks) || (p.tail == 0 && p.nBlocks == s.nBlocks + 1))
    && Within(pos + p.pad + s.inodeSize + s.xattrSize, p.tail)
    && (!s.symlink && s.tail <= 2048 ==> p.tail == s.tail && p.nBlocks == s.nBlocks)
    && (s.symlink ==> (p.nBlocks == 0 <==> s.inodeSize + s.xattrSize + s.tail < 4096))
  }

  lemma {:induction false} SymlinkPads(s: Sizes, pos: nat)
    requires SizesOk(s) && s.symlink && pos % 32 == 0
    ensures Padded(s, pos, PaddingForTail(s, pos))
  {
    var p := PaddingForTail(s, pos);
    var nonTail := s.inodeSize + s.xattrSize;
    var total := nonTail + s.tail;
    RoundUpGap(pos);
    if total < 4096 {
      var start := pos + p.pad;
      assert start / 4096 == (start + total - 1) / 4096 by {
        if p.pad > 0 || pos % 4096 == 0 {
          assert start % 4096 == 0;
          WithinBlock(start, total);
        }
      }
      InsideWithin(start, total, nonTail, s.tail);
    }
  }

  lemma {:induction false} InsideWithin(start: nat, total: nat, nonTail: nat, tail: nat)
    requires tail >= 1 && total == nonTail + tail && start / 4096 == (start + total - 1) / 4096
    ensures Within(start + nonTail, tail)
  {
  }

  lemma {:induction false} TailPads(s: Sizes, pos: nat)
    requires SizesOk(s) && !s.symlink && pos % 32 == 0
    ensures Padded(s, pos, PaddingForTail(s, pos))
  {
    var o := pos + s.inodeSize + s.xattrSize;
    var remainder := 4096 - o % 4096;
    if s.tail <= remainder {
      WithinBlock(o, s.tail);
    } else {
      var extra := RoundUp(remainder, 32);
      ExtraPad(o, remainder, extra);
      RoundUpGap(pos);
      if s.tail <= 4096 - (o + extra) % 4096 { WithinBlock(o + extra, s.tail); }
    }
  }

  lemma {:induction false} PaddingWorks(s: Sizes, pos: nat)
    requires SizesOk(s) && pos % 32 == 0
    ensures Padded(s, pos, PaddingForTail(s, pos))
  {
    if s.symlink { SymlinkPads(s, pos); } else { TailPads(s, pos); }
  }

  /**
   For everything but symbolic links the tail stays behind the inode exactly when some padding lets it fit into a
   block, and then the padding is the least that does; otherwise the inode starts a block.
   */
  lemma {:induction false} LeastPadding(s: Sizes, pos: nat, pad: nat)
    requires SizesOk(s) && !s.symlink && pos % 32 == 0 && pad % 32 == 0
    ensures var p := PaddingForTail(s, pos); var o := pos + s.inodeSize + s.xattrSize;
            && (s.tail > 0 ==> (p.nBlocks == s.nBlocks <==> o % 32 + s.tail <= 4096))
            && (Within(o + pad, s.tail) && s.tail > 0 ==> p.tail == s.tail && p.pad <= pad)
            && (p.nBlocks != s.nBlocks ==> (pos + p.pad) % 4096 == 0)
  {
    var p, o := PaddingForTail(s, pos), pos + s.inodeSize + s.xattrSize;
    TailPads(s, pos);
    if s.tail > 0 {
      KeptWhen(s, pos);
      if Within(o + pad, s.tail) { FitsLater(s, pos, pad); }
    }
    RoundUpGap(pos);
  }

  /** From the end of a block back to the start of a slot. */
  lemma {:induction false} RestOfSlot(o: nat, extra: nat)
    requires extra % 32 == 0 && 4096 - o % 4096 <= extra < 4096 - o % 4096 + 32
    ensures extra == 4096 - o % 4096 + o % 32
  {
    var r := o % 4096;
    assert r % 32 == o % 32;
    assert (4096 - r + r % 32) % 32 == 0;
  }

  lemma {:induction false} KeptWhen(s: Sizes, pos: nat)
    requires SizesOk(s) && !s.symlink && pos % 32 == 0 && s.tail > 0
    ensures PaddingForTail(s, pos).nBlocks == s.nBlocks <==> (pos + s.inodeSize + s.xattrSize) % 32 + s.tail <= 4096
  {
    var o := pos + s.inodeSize + s.xattrSize;
    var remainder := 4096 - o % 4096;
    var extra := RoundUp(remainder, 32);
    RestOfSlot(o, extra);
    DivModUnique(o + extra, 4096, o / 4096 + 1, o % 32);
  }

  lemma {:induction false} WithinMeans(o: nat, tail: nat)
    requires Within(o, tail) && tail > 0
    ensures o % 4096 + tail <= 4096
  {
    var q, r := o / 4096, o % 4096;
    assert r + tail > 4096 ==> o + tail - 1 >= 4096 * (q + 1);
  }

  /** Slot by slot, the offset in a block is never less than that in a slot. */
  lemma {:induction false} SlotOffset(o: nat, pad: nat)
    requires pad % 32 == 0
    ensures o % 32 <= (o + pad) % 4096
  {
    var k, v := pad / 32, o + pad;
    assert pad == 32 * k;
    DivModUnique(v, 32, o / 32 + k, o % 32);
    var q, r := v / 4096, v % 4096;
    DivModUnique(v, 32, 128 * q + r / 32, r % 32);
  }

  /** A smaller padding leaves the tail in the block it does not fit into. */
  lemma {:induction false} TooLittle(o: nat, pad: nat, extra: nat, remainder: nat)
    requires remainder == 4096 - o % 4096 && extra == RoundUp(remainder, 32) && pad % 32 == 0 && pad < extra
    ensures (o + pad) % 4096 == o % 4096 + pad
  {
    var a, b := pad / 32, extra / 32;
    assert pad == 32 * a && extra == 32 * b;
    assert pad <= extra - 32 < remainder;
    DivModUnique(o + pad, 4096, o / 4096, o % 4096 + pad);
  }

  lemma {:induction false} FitsLater(s: Sizes, pos: nat, pad: nat)
    requires SizesOk(s) && !s.symlink && pos % 32 == 0 && pad % 32 == 0 && s.tail > 0
    requires Within(pos + s.inodeSize + s.xattrSize + pad, s.tail)
    ensures PaddingForTail(s, pos).tail == s.tail && PaddingForTail(s, pos).pad <= pad
  {
    var o := pos + s.inodeSize + s.xattrSize;
    var remainder := 4096 - o % 4096;
    var extra := RoundUp(remainder, 32);
    KeptWhen(s, pos);
    WithinMeans(o + pad, s.tail);
    SlotOffset(o, pad);
    if s.tail > remainder && pad < extra { TooLittle(o, pad, extra, remainder); }
  }

  // ---------- all inodes ----------

  /** The first byte not yet taken. */
  function End(places: seq<Place>): nat {
    if places == [] then INODES_START else places[|places| - 1].pos + places[|places| - 1].isize
  }

  function PlaceAfter(s: Sizes, end: nat): Place
    requires SizesOk(s)
  {
    var pos := RoundUp(end, 32);
    var p := PaddingForTail(s, pos);
    Place(pos - end + p.pad, pos + p.pad, p.nBlocks, p.tail, s.inodeSize + s.xattrSize + p.tail)
  }

  ghost predicate AllSizesOk(ss: seq<Sizes>) {
    forall i {:trigger ss[i]} :: 0 <= i < |ss| ==> SizesOk(ss[i])
  }

  ghost function Places(ss: seq<Sizes>): (ps: seq<Place>)
    requires AllSizesOk(ss)
    ensures |ps| == |ss|
  {
    if ss == [] then [] else
    var front := Places(ss[..|ss| - 1]);
    front + [PlaceAfter(ss[|ss| - 1], End(front))]
  }

  function Blocks(ps: seq<Place>): nat {
    if ps == [] then 0 else Blocks(ps[..|ps| - 1]) + ps[|ps| - 1].nBlocks
  }

  /** A good place for an inode behind `end`. */
  ghost predicate Well(s: Sizes, end: nat, p: Place) {
    && p.pos % 32 == 0 && p.pos == end + p.ipad && p.ipad < 4096
    && p.isize == s.inodeSize + s.xattrSize + p.tail
    && Within(p.pos + s.inodeSize + s.xattrSize, p.tail)
    && ((p.tail == s.tail && p.nBlocks == s.nBlocks) || (p.tail == 0 && p.nBlocks == s.nBlocks + 1))
    && (!s.symlink && s.tail <= 2048 ==> p.tail == s.tail && p.nBlocks == s.nBlocks)
    && (s.symlink ==> (p.nBlocks == 0 <==> s.inodeSize + s.xattrSize + s.tail < 4096))
  }

  lemma {:induction false} PaddedWell(s: Sizes, end: nat, pos: nat, p: Padding)
    requires SizesOk(s) && end <= pos < end + 32 && pos % 32 == 0 && Padded(s, pos, p)
    ensures Well(s, end, Place(pos - end + p.pad, pos + p.pad, p.nBlocks, p.tail, s.inodeSize + s.xattrSize + p.tail))
  {
  }

  lemma {:induction false} PlaceWell(s: Sizes, end: nat)
    requires SizesOk(s)
    ensures Well(s, end, PlaceAfter(s, end))
  {
    var pos := RoundUp(end, 32);
    PaddingWorks(s, pos);
    PaddedWell(s, end, pos, PaddingForTail(s, pos));
  }

  ghost predicate LaidAt(ss: seq<Sizes>, ps: seq<Place>, i: nat)
    requires |ss| == |ps|
  {
    i < |ss| && Well(ss[i], End(ps[..i]), ps[i])
  }

  /** Every inode has a good place, right behind the one before. */
  ghost predicate Laid(ss: seq<Sizes>, ps: seq<Place>) {
    |ss| == |ps| && forall i: nat {:trigger LaidAt(ss, ps, i)} :: i < |ss| ==> LaidAt(ss, ps, i)
  }

  lemma {:induction false} PlacesWell(ss: seq<Sizes>, i: nat)
    requires AllSizesOk(ss) && i < |ss|
    ensures Well(ss[i], End(Places(ss)[..i]), Places(ss)[i])
  {
    var n := |ss| - 1;
    var front := Places(ss[..n]);
    assert Places(ss) == front + [PlaceAfter(ss[n], End(front))];
    if i < n {
      PlacesWell(ss[..n], i);
      assert Places(ss)[..i] == front[..i];
    } else {
      PlaceWell(ss[n], End(front));
      assert Places(ss)[..i] == front;
    }
  }

  lemma {:induction false} PlacesLaid(ss: seq<Sizes>)
    requires AllSizesOk(ss)
    ensures Laid(ss, Places(ss))
  {
    forall i: nat | i < |ss|
      ensures LaidAt(ss, Places(ss), i)
    {
      PlacesWell(ss, i);
    }
  }

  /** Inodes do not overlap and increase. */
  lemma {:induction false} PlacesIncrease(ss: seq<Sizes>, ps: seq<Place>, i: nat, j: nat)
    requires Laid(ss, ps) && i < j < |ss|
    ensures ps[i].pos + ps[i].isize <= ps[j].pos
    decreases j
  {
    assert LaidAt(ss, ps, j);
    if i + 1 < j { PlacesIncrease(ss, ps, i, j - 1); }
  }

  /** The slot number of the root fits the 16 bits it has in the superblock. */
  lemma {:induction false} RootSlot(ss: seq<Sizes>, ps: seq<Place>)
    requires Laid(ss, ps) && ss != []
    ensures ps[0].pos % 32 == 0 && ps[0].pos / 32 <= 163
  {
    assert LaidAt(ss, ps, 0);
  }

  lemma {:induction false} PlacesAppend(front: seq<Sizes>, s: Sizes)
    requires AllSizesOk(front) && SizesOk(s)
    ensures Places(front + [s]) == Places(front) + [PlaceAfter(s, End(Places(front)))]
    ensures Blocks(Places(front + [s])) == Blocks(Places(front)) + PlaceAfter(s, End(Places(front))).nBlocks
  {
    assert (front + [s])[..|front|] == front;
    var ps := Places(front);
    assert Places(front + [s])[..|ps|] == ps;
  }

  /** Placing one inode; the assertions are those of the source. */
  method PlaceInode(s: Sizes, end: nat) returns (p: Place)
    requires SizesOk(s)
    ensures p == PlaceAfter(s, end) && Well(s, end, p)
  {
    PlaceWell(s, end);
    var pos := RoundUp(end, 32);
    var ipad := pos - end;
    var padding := PaddingForTail(s, pos);
    ipad := ipad + padding.pad;
    assert ipad < 4096;
    pos := pos + padding.pad;
    assert pos % 32 == 0;
    p := Place(ipad, pos, padding.nBlocks, padding.tail, s.inodeSize + s.xattrSize + padding.tail);
    assert p.tail == 0 || (pos + s.inodeSize + s.xattrSize) / 4096 == (pos + p.isize - 1) / 4096;
  }

  /** The layout pass. */
  method ComputeInodes(ss: seq<Sizes>) returns (ps: seq<Place>, nDataBlocks: nat, inodesEnd: nat)
    requires AllSizesOk(ss)
    ensures ps == Places(ss) && nDataBlocks == Blocks(ps) && inodesEnd == RoundUp(End(ps), 32)
  {
    ps, nDataBlocks := [], 0;
    var pos := INODES_START;
    ghost var front := [];
    for i := 0 to |ss|
      invariant front == ss[..i] && ps == Places(front) && pos == End(ps) && nDataBlocks == Blocks(ps)
    {
      PlacesAppend(front, ss[i]);
      front := front + [ss[i]];
      var p := PlaceInode(ss[i], pos);
      nDataBlocks := nDataBlocks + p.nBlocks;
      ps := ps + [p];
      pos := p.pos + p.isize;
    }
    assert front == ss;
    inodesEnd := RoundUp(pos, 32);
  }
}
