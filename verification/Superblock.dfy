/** The fixed start of an image, and what the loader makes of it. */
module Superblock {
  import opened Common
  import opened Bytes
  import opened InodeCodec

  datatype Super = Super(flags: nat, version: nat, root: nat, inos: nat, sec: nat, nsec: nat, blocks: nat,
      xattrBlk: nat)

  const LCFS_MAGIC: nat := 0xd078629a
  const EROFS_MAGIC: nat := 0xE0F5E1E2

  predicate SuperOk(s: Super) {
    && s.flags < 0x1_0000_0000 && s.version < 0x1_0000_0000 && s.root < 0x1_0000 && s.inos < 0x1_0000_0000_0000_0000
    && s.sec < 0x1_0000_0000_0000_0000 && s.nsec < 0x1_0000_0000 && s.blocks < 0x1_0000_0000
    && s.xattrBlk < 0x1_0000_0000
  }

  function HeaderBytes(s: Super): (b: bytes)
    ensures |b| == 1024
  {
    LE(LCFS_MAGIC, 4) + LE(1, 4) + (LE(s.flags, 4) + LE(s.version, 4) + Zeros(1008))
  }

  // Features: a time stamp in the superblock, and name filters on attributes.
  function SuperHead(s: Super): (b: bytes)
    ensures |b| == 16
  {
    LE(EROFS_MAGIC, 4) + (Zeros(4) + LE(6, 4) + [12, 0]) + LE(s.root, 2)
  }

  function SuperTimes(s: Super): (b: bytes)
    ensures |b| == 24
  {
    LE(s.inos, 8) + LE(s.sec, 8) + LE(s.nsec, 4) + LE(s.blocks, 4)
  }

  /** Metadata starts at block 0. */
  function PrefixBytes(s: Super): (b: bytes)
    ensures |b| == 1152
  {
    HeaderBytes(s) + SuperHead(s) + SuperTimes(s) + LE(0, 4) + LE(s.xattrBlk, 4) + Zeros(80)
  }

  // ---------- loading ----------

  datatype Loaded = Loaded(meta: nat, xattrs: nat, sec: nat, nsec: nat, root: nat)

  datatype LoadError = Invalid | Unsupported

  /** Block addresses are multiplied in 32-bit arithmetic. */
  function Load(img: bytes): (r: Result<Loaded, LoadError>) {
    if |img| < 4096 || Num(img, 0, 4) != LCFS_MAGIC then Err(Invalid) else
    if Num(img, 4, 4) != 1 then Err(Unsupported) else
    if Num(img, 1024, 4) != EROFS_MAGIC then Err(Invalid) else
    var meta, xattrs := Num(img, 1064, 4) * 4096 % 0x1_0000_0000, Num(img, 1068, 4) * 4096 % 0x1_0000_0000;
    if |img| <= meta || |img| <= xattrs then Err(Invalid) else
    Ok(Loaded(meta, xattrs, Num(img, 1048, 8), Num(img, 1056, 4), Num(img, 1038, 2)))
  }

  ghost predicate Announces(img: bytes, s: Super) {
    && |img| >= 1152 && Num(img, 0, 4) == LCFS_MAGIC && Num(img, 4, 4) == 1 && Num(img, 1024, 4) == EROFS_MAGIC
    && Num(img, 1038, 2) == s.root && Num(img, 1048, 8) == s.sec && Num(img, 1056, 4) == s.nsec
    && Num(img, 1064, 4) == 0 && Num(img, 1068, 4) == s.xattrBlk
  }

  /**
   The fields that the loader does not look at: flags and version of the header; no checksum, the features for time
   stamps and name filters, blocks of 2^12 bytes, number of inodes and of blocks; zeros everywhere else.
   */
  ghost predicate Describes(img: bytes, s: Super) {
    && |img| >= 1152 && Num(img, 8, 4) == s.flags && Num(img, 12, 4) == s.version
    && Num(img, 1028, 4) == 0 && Num(img, 1032, 4) == 6 && img[1036] == 12 && img[1037] == 0
    && Num(img, 1040, 8) == s.inos && Num(img, 1060, 4) == s.blocks
    && (forall i {:trigger img[i]} :: 16 <= i < 1024 || 1072 <= i < 1152 ==> img[i] == 0)
  }

  lemma {:induction false} HeaderDescribes(img: bytes, s: Super)
    requires At(img, 0, HeaderBytes(s)) && SuperOk(s)
    ensures |img| >= 1024 && Num(img, 8, 4) == s.flags && Num(img, 12, 4) == s.version
    ensures forall i {:trigger img[i]} :: 16 <= i < 1024 ==> img[i] == 0
  {
    Widths();
    var a, b := LE(LCFS_MAGIC, 4) + LE(1, 4), LE(s.flags, 4) + LE(s.version, 4);
    AtJoin(img, 0, a, b + Zeros(1008));
    AtJoin(img, 8, b, Zeros(1008));
    AtJoin(img, 8, LE(s.flags, 4), LE(s.version, 4));
    Field(img, 8, s.flags, 4, 0x1_0000_0000);
    Field(img, 12, s.version, 4, 0x1_0000_0000);
    AtZeros(img, 16, 1008);
  }

  lemma {:induction false} HeadDescribes(img: bytes, s: Super)
    requires At(img, 1024, SuperHead(s))
    ensures |img| >= 1040 && Num(img, 1028, 4) == 0 && Num(img, 1032, 4) == 6 && img[1036] == 12 && img[1037] == 0
  {
    Widths();
    var mid := Zeros(4) + LE(6, 4) + [12, 0];
    AtJoin(img, 1024, LE(EROFS_MAGIC, 4) + mid, LE(s.root, 2));
    AtJoin(img, 1024, LE(EROFS_MAGIC, 4), mid);
    AtJoin(img, 1028, Zeros(4) + LE(6, 4), [12, 0]);
    AtJoin(img, 1028, Zeros(4), LE(6, 4));
    Field(img, 1032, 6, 4, 0x1_0000_0000);
    AtZeros(img, 1028, 4);
    ZeroNum(img, 1028, 4);
    assert img[1036..1038] == [12, 0];
    assert img[1036] == img[1036..1038][0] && img[1037] == img[1036..1038][1];
  }

  lemma {:induction false} ZeroNum(img: bytes, o: nat, w: nat)
    requires o + w <= |img| && forall i {:trigger img[i]} :: o <= i < o + w ==> img[i] == 0
    ensures Num(img, o, w) == 0
    decreases w
  {
    if w > 0 { ZeroNum(img, o + 1, w - 1); }
  }

  lemma {:induction false} TimesDescribe(img: bytes, s: Super)
    requires At(img, 1040, SuperTimes(s)) && SuperOk(s)
    ensures |img| >= 1064 && Num(img, 1040, 8) == s.inos && Num(img, 1060, 4) == s.blocks
  {
    Widths();
    AtJoin(img, 1040, LE(s.inos, 8) + LE(s.sec, 8) + LE(s.nsec, 4), LE(s.blocks, 4));
    AtJoin(img, 1040, LE(s.inos, 8) + LE(s.sec, 8), LE(s.nsec, 4));
    AtJoin(img, 1040, LE(s.inos, 8), LE(s.sec, 8));
    Field(img, 1040, s.inos, 8, 0x1_0000_0000_0000_0000);
    Field(img, 1060, s.blocks, 4, 0x1_0000_0000);
  }

  lemma {:induction false} PrefixDescribes(img: bytes, s: Super)
    requires At(img, 0, PrefixBytes(s)) && SuperOk(s)
    ensures Describes(img, s)
  {
    var h, i, t := HeaderBytes(s), SuperHead(s), SuperTimes(s);
    AtJoin(img, 0, h + i + t + LE(0, 4) + LE(s.xattrBlk, 4), Zeros(80));
    AtJoin(img, 0, h + i + t + LE(0, 4), LE(s.xattrBlk, 4));
    AtJoin(img, 0, h + i + t, LE(0, 4));
    AtJoin(img, 0, h + i, t);
    AtJoin(img, 0, h, i);
    HeaderDescribes(img, s);
    HeadDescribes(img, s);
    TimesDescribe(img, s);
    AtZeros(img, 1072, 80);
  }

  lemma {:induction false} HeaderReads(img: bytes, s: Super)
    requires At(img, 0, HeaderBytes(s))
    ensures |img| >= 1024 && Num(img, 0, 4) == LCFS_MAGIC && Num(img, 4, 4) == 1
  {
    Widths();
    AtJoin(img, 0, LE(LCFS_MAGIC, 4) + LE(1, 4), LE(s.flags, 4) + LE(s.version, 4) + Zeros(1008));
    AtJoin(img, 0, LE(LCFS_MAGIC, 4), LE(1, 4));
    Field(img, 0, LCFS_MAGIC, 4, 0x1_0000_0000);
    Field(img, 4, 1, 4, 0x1_0000_0000);
  }

  lemma {:induction false} HeadReads(img: bytes, s: Super)
    requires At(img, 1024, SuperHead(s)) && SuperOk(s)
    ensures |img| >= 1040 && Num(img, 1024, 4) == EROFS_MAGIC && Num(img, 1038, 2) == s.root
  {
    Widths();
    var mid := Zeros(4) + LE(6, 4) + [12, 0];
    AtJoin(img, 1024, LE(EROFS_MAGIC, 4) + mid, LE(s.root, 2));
    AtJoin(img, 1024, LE(EROFS_MAGIC, 4), mid);
    Field(img, 1024, EROFS_MAGIC, 4, 0x1_0000_0000);
    Field(img, 1038, s.root, 2, 0x1_0000);
  }

  lemma {:induction false} TimesRead(img: bytes, s: Super)
    requires At(img, 1040, SuperTimes(s)) && SuperOk(s)
    ensures |img| >= 1064 && Num(img, 1048, 8) == s.sec && Num(img, 1056, 4) == s.nsec
  {
    Widths();
    AtJoin(img, 1040, LE(s.inos, 8) + LE(s.sec, 8) + LE(s.nsec, 4), LE(s.blocks, 4));
    AtJoin(img, 1040, LE(s.inos, 8) + LE(s.sec, 8), LE(s.nsec, 4));
    AtJoin(img, 1040, LE(s.inos, 8), LE(s.sec, 8));
    Field(img, 1048, s.sec, 8, 0x1_0000_0000_0000_0000);
    Field(img, 1056, s.nsec, 4, 0x1_0000_0000);
  }

  lemma {:induction false} PrefixReads(img: bytes, s: Super)
    requires At(img, 0, PrefixBytes(s)) && SuperOk(s)
    ensures Announces(img, s)
  {
    Widths();
    var h, i, t := HeaderBytes(s), SuperHead(s), SuperTimes(s);
    AtJoin(img, 0, h + i + t + LE(0, 4) + LE(s.xattrBlk, 4), Zeros(80));
    AtJoin(img, 0, h + i + t + LE(0, 4), LE(s.xattrBlk, 4));
    AtJoin(img, 0, h + i + t, LE(0, 4));
    AtJoin(img, 0, h + i, t);
    AtJoin(img, 0, h, i);
    HeaderReads(img, s);
    HeadReads(img, s);
    TimesRead(img, s);
    Field(img, 1064, 0, 4, 0x1_0000_0000);
    Field(img, 1068, s.xattrBlk, 4, 0x1_0000_0000);
  }

  /** Which images are opened, and what is wrong with the others. */
  lemma {:induction false} LoadMeans(img: bytes)
    ensures var ours := |img| >= 4096 && Num(img, 0, 4) == 0xd078629a;
            && (Load(img) == Err(Unsupported) <==> ours && Num(img, 4, 4) != 1)
            && (Load(img).Ok? <==>
                  && ours && Num(img, 4, 4) == 1 && Num(img, 1024, 4) == 0xE0F5E1E2
                  && Num(img, 1064, 4) % 0x10_0000 * 4096 < |img| && Num(img, 1068, 4) % 0x10_0000 * 4096 < |img|)
  {
    if |img| >= 4096 {
      Block32(Num(img, 1064, 4));
      Block32(Num(img, 1068, 4));
    }
  }

  lemma {:induction false} Block32(n: nat)
    ensures n * 4096 % 0x1_0000_0000 == n % 0x10_0000 * 4096
  {
    DivModUnique(n * 4096, 0x1_0000_0000, n / 0x10_0000, n % 0x10_0000 * 4096);
  }

  /** The loader takes an image just when something is stored behind the block address of the shared attributes. */
  lemma {:induction false} LoadDecides(img: bytes, s: Super)
    requires Announces(img, s) && 4096 <= |img| && s.xattrBlk * 4096 < 0x1_0000_0000
    ensures Load(img) == if s.xattrBlk * 4096 < |img| then Ok(Loaded(0, s.xattrBlk * 4096, s.sec, s.nsec, s.root)) else
              Err(Invalid)
  {
  }
}
