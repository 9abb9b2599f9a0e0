/** The two on-disk forms of an inode: 32 bytes with narrow fields, or 64 bytes with the time stamp of its own. */
module InodeCodec {
  import opened Common
  import opened Bytes

  datatype Fields = Fields(layout: nat, icount: nat, mode: nat, nlink: nat, size: nat, u: nat, ino: nat,
                           uid: nat, gid: nat, sec: nat, nsec: nat)

  predicate CompactFits(f: Fields) {
    && f.layout < 8 && f.icount < 0x1_0000 && f.mode < 0x1_0000 && f.nlink < 0x1_0000 && f.size < 0x1_0000_0000
    && f.u < 0x1_0000_0000 && f.ino < 0x1_0000_0000 && f.uid < 0x1_0000 && f.gid < 0x1_0000
  }

  predicate ExtendedFits(f: Fields) {
    && f.layout < 8 && f.icount < 0x1_0000 && f.mode < 0x1_0000 && f.nlink < 0x1_0000_0000
    && f.size < 0x1_0000_0000_0000_0000
    && f.u < 0x1_0000_0000 && f.ino < 0x1_0000_0000 && f.uid < 0x1_0000_0000 && f.gid < 0x1_0000_0000
    && f.sec < 0x1_0000_0000_0000_0000 && f.nsec < 0x1_0000_0000
  }

  // The first word says how data is stored and, in its lowest bit, which form the inode has.
  function Head(f: Fields, version: nat): (b: bytes)
    requires version < 2
    ensures |b| == 6
  {
    LE(2 * f.layout + version, 2) + LE(f.icount, 2) + LE(f.mode, 2)
  }

  function CompactTail(f: Fields): (b: bytes)
    ensures |b| == 12
  {
    LE(f.ino, 4) + LE(f.uid, 2) + LE(f.gid, 2) + Zeros(4)
  }

  function CompactBytes(f: Fields): (b: bytes)
    ensures |b| == 32
  {
    Head(f, 0) + LE(f.nlink, 2) + LE(f.size, 4) + Zeros(4) + LE(f.u, 4) + CompactTail(f)
  }

  function ExtendedTail(f: Fields): (b: bytes)
    ensures |b| == 44
  {
    LE(f.ino, 4) + LE(f.uid, 4) + LE(f.gid, 4) + LE(f.sec, 8) + LE(f.nsec, 4) + LE(f.nlink, 4) + Zeros(16)
  }

  function ExtendedBytes(f: Fields): (b: bytes)
    ensures |b| == 64
  {
    Head(f, 1) + Zeros(2) + LE(f.size, 8) + LE(f.u, 4) + ExtendedTail(f)
  }

  // ---------- reading ----------

  datatype InodeError = OutOfBounds

  predicate IsCompact(img: bytes, o: nat)
    requires o + 2 <= |img|
  {
    Num(img, o, 2) % 2 == 0
  }

  /** The inode at `o`; a compact one has the time stamp of the file system. */
  function DecodeInode(img: bytes, o: nat, sec: nat, nsec: nat): (r: Result<(Fields, nat), InodeError>) {
    if |img| < o + 32 then Err(OutOfBounds) else
    var layout, icount, mode := Num(img, o, 2) / 2 % 8, Num(img, o + 2, 2), Num(img, o + 4, 2);
    if IsCompact(img, o) then
      Ok((Fields(layout, icount, mode, Num(img, o + 6, 2), Num(img, o + 8, 4), Num(img, o + 16, 4), Num(img, o + 20, 4),
                 Num(img, o + 24, 2), Num(img, o + 26, 2), sec, nsec), 32))
    else if |img| < o + 64 then Err(OutOfBounds) else
      Ok((Fields(layout, icount, mode, Num(img, o + 44, 4), Num(img, o + 8, 8), Num(img, o + 16, 4),
                 Num(img, o + 20, 4),
                 Num(img, o + 24, 4), Num(img, o + 28, 4), Num(img, o + 32, 8), Num(img, o + 40, 4)), 64))
  }

  lemma {:induction false} Field(img: bytes, o: nat, n: nat, w: nat, limit: nat)
    requires At(img, o, LE(n, w)) && limit == Pow256(w) && n < limit
    ensures o + w <= |img| && Num(img, o, w) == n
  {
    AtNum(img, o, n, w);
    DivModUnique(n, limit, 0, n);
  }

  lemma {:induction false} HeadFields(img: bytes, o: nat, f: Fields, version: nat)
    requires version < 2 && At(img, o, Head(f, version)) && f.layout < 8 && f.icount < 0x1_0000 && f.mode < 0x1_0000
    ensures o + 6 <= |img| && Num(img, o, 2) == 2 * f.layout + version && Num(img, o + 2, 2) == f.icount
    ensures Num(img, o + 4, 2) == f.mode
  {
    Widths();
    AtJoin(img, o, LE(2 * f.layout + version, 2) + LE(f.icount, 2), LE(f.mode, 2));
    AtJoin(img, o, LE(2 * f.layout + version, 2), LE(f.icount, 2));
    Field(img, o, 2 * f.layout + version, 2, 0x1_0000);
    Field(img, o + 2, f.icount, 2, 0x1_0000);
    Field(img, o + 4, f.mode, 2, 0x1_0000);
  }

  /** The inode at `o` holds these fields in the compact form. */
  ghost predicate CompactAt(img: bytes, o: nat, f: Fields) {
    && o + 32 <= |img| && Num(img, o, 2) == 2 * f.layout && Num(img, o + 2, 2) == f.icount
    && Num(img, o + 4, 2) == f.mode
    && Num(img, o + 6, 2) == f.nlink && Num(img, o + 8, 4) == f.size && Num(img, o + 16, 4) == f.u
    && Num(img, o + 20, 4) == f.ino
    && Num(img, o + 24, 2) == f.uid && Num(img, o + 26, 2) == f.gid
  }

  lemma {:induction false} CompactTailFields(img: bytes, o: nat, f: Fields)
    requires At(img, o + 20, CompactTail(f)) && CompactFits(f)
    ensures o + 32 <= |img| && Num(img, o + 20, 4) == f.ino && Num(img, o + 24, 2) == f.uid
    ensures Num(img, o + 26, 2) == f.gid
  {
    Widths();
    AtJoin(img, o + 20, LE(f.ino, 4) + LE(f.uid, 2) + LE(f.gid, 2), Zeros(4));
    AtJoin(img, o + 20, LE(f.ino, 4) + LE(f.uid, 2), LE(f.gid, 2));
    AtJoin(img, o + 20, LE(f.ino, 4), LE(f.uid, 2));
    Field(img, o + 20, f.ino, 4, 0x1_0000_0000);
    Field(img, o + 24, f.uid, 2, 0x1_0000);
    Field(img, o + 26, f.gid, 2, 0x1_0000);
  }

  lemma {:induction false} CompactFields(img: bytes, o: nat, f: Fields)
    requires At(img, o, CompactBytes(f)) && CompactFits(f)
    ensures CompactAt(img, o, f)
  {
    Widths();
    var h, t := Head(f, 0), CompactTail(f);
    AtJoin(img, o, h + LE(f.nlink, 2) + LE(f.size, 4) + Zeros(4) + LE(f.u, 4), t);
    AtJoin(img, o, h + LE(f.nlink, 2) + LE(f.size, 4) + Zeros(4), LE(f.u, 4));
    AtJoin(img, o, h + LE(f.nlink, 2) + LE(f.size, 4), Zeros(4));
    AtJoin(img, o, h + LE(f.nlink, 2), LE(f.size, 4));
    AtJoin(img, o, h, LE(f.nlink, 2));
    HeadFields(img, o, f, 0);
    Field(img, o + 6, f.nlink, 2, 0x1_0000);
    Field(img, o + 8, f.size, 4, 0x1_0000_0000);
    Field(img, o + 16, f.u, 4, 0x1_0000_0000);
    CompactTailFields(img, o, f);
  }

  /** A compact inode reads back with all its fields; its time stamp is the reader's. */
  lemma {:induction false} CompactRoundTrip(img: bytes, o: nat, f: Fields)
    requires CompactAt(img, o, f) && CompactFits(f)
    ensures DecodeInode(img, o, f.sec, f.nsec) == Ok((f, 32))
  {
  }

  /** The inode at `o` holds these fields in the extended form. */
  ghost predicate ExtendedAt(img: bytes, o: nat, f: Fields) {
    && o + 64 <= |img| && Num(img, o, 2) == 2 * f.layout + 1 && Num(img, o + 2, 2) == f.icount
    && Num(img, o + 4, 2) == f.mode
    && Num(img, o + 8, 8) == f.size && Num(img, o + 16, 4) == f.u && Num(img, o + 20, 4) == f.ino
    && Num(img, o + 24, 4) == f.uid
    && Num(img, o + 28, 4) == f.gid && Num(img, o + 32, 8) == f.sec && Num(img, o + 40, 4) == f.nsec
    && Num(img, o + 44, 4) == f.nlink
  }

  lemma {:induction false} ExtendedOwner(img: bytes, o: nat, f: Fields)
    requires At(img, o + 20, LE(f.ino, 4) + LE(f.uid, 4) + LE(f.gid, 4)) && ExtendedFits(f)
    ensures o + 32 <= |img| && Num(img, o + 20, 4) == f.ino && Num(img, o + 24, 4) == f.uid
    ensures Num(img, o + 28, 4) == f.gid
  {
    Widths();
    AtJoin(img, o + 20, LE(f.ino, 4) + LE(f.uid, 4), LE(f.gid, 4));
    AtJoin(img, o + 20, LE(f.ino, 4), LE(f.uid, 4));
    Field(img, o + 20, f.ino, 4, 0x1_0000_0000);
    Field(img, o + 24, f.uid, 4, 0x1_0000_0000);
    Field(img, o + 28, f.gid, 4, 0x1_0000_0000);
  }

  lemma {:induction false} ExtendedTailFields(img: bytes, o: nat, f: Fields)
    requires At(img, o + 20, ExtendedTail(f)) && ExtendedFits(f)
    ensures o + 64 <= |img| && Num(img, o + 20, 4) == f.ino && Num(img, o + 24, 4) == f.uid
    ensures Num(img, o + 28, 4) == f.gid
    ensures Num(img, o + 32, 8) == f.sec && Num(img, o + 40, 4) == f.nsec && Num(img, o + 44, 4) == f.nlink
  {
    Widths();
    var owner := LE(f.ino, 4) + LE(f.uid, 4) + LE(f.gid, 4);
    AtJoin(img, o + 20, owner + LE(f.sec, 8) + LE(f.nsec, 4) + LE(f.nlink, 4), Zeros(16));
    AtJoin(img, o + 20, owner + LE(f.sec, 8) + LE(f.nsec, 4), LE(f.nlink, 4));
    AtJoin(img, o + 20, owner + LE(f.sec, 8), LE(f.nsec, 4));
    AtJoin(img, o + 20, owner, LE(f.sec, 8));
    ExtendedOwner(img, o, f);
    Field(img, o + 32, f.sec, 8, 0x1_0000_0000_0000_0000);
    Field(img, o + 40, f.nsec, 4, 0x1_0000_0000);
    Field(img, o + 44, f.nlink, 4, 0x1_0000_0000);
  }

  lemma {:induction false} ExtendedFields(img: bytes, o: nat, f: Fields)
    requires At(img, o, ExtendedBytes(f)) && ExtendedFits(f)
    ensures ExtendedAt(img, o, f)
  {
    Widths();
    var h, t := Head(f, 1), ExtendedTail(f);
    AtJoin(img, o, h + Zeros(2) + LE(f.size, 8) + LE(f.u, 4), t);
    AtJoin(img, o, h + Zeros(2) + LE(f.size, 8), LE(f.u, 4));
    AtJoin(img, o, h + Zeros(2), LE(f.size, 8));
    AtJoin(img, o, h, Zeros(2));
    HeadFields(img, o, f, 1);
    Field(img, o + 8, f.size, 8, 0x1_0000_0000_0000_0000);
    Field(img, o + 16, f.u, 4, 0x1_0000_0000);
    ExtendedTailFields(img, o, f);
  }

  /** An extended inode reads back with all its fields, whatever time stamp the file system has. */
  lemma {:induction false} ExtendedRoundTrip(img: bytes, o: nat, f: Fields, sec: nat, nsec: nat)
    requires ExtendedAt(img, o, f) && ExtendedFits(f)
    ensures DecodeInode(img, o, sec, nsec) == Ok((f, 64))
  {
  }
}
