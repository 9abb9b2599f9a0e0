/** Reading content back: directories, symlink targets and inline files. */
module BodyReader {
  import opened Common
  import opened Bytes
  import opened DirCodec
  import opened DirBlocks
  import opened ErofsNode
  import opened InodeCodec
  import opened Layout

  datatype ReadError = OutOfBounds | Invalid | Whiteout

  datatype Content = Entries(ds: seq<Dirent>) | Target(target: bytes) | Data(content: bytes) | NoContent

  /** Block addresses are multiplied in 32-bit arithmetic. */
  function Base(u: nat): nat {
    u * 4096 % 0x1_0000_0000
  }

  function SliceAt(img: bytes, o: nat, n: nat): (r: Result<bytes, ReadError>) {
    if o + n <= |img| then Ok(img[o..o + n]) else Err(ReadError.OutOfBounds)
  }

  function ReadTarget(img: bytes, f: Fields, tailAt: nat): (r: Result<Content, ReadError>) {
    if f.size >= 4096 then Err(Invalid) else
    var s := SliceAt(img, if f.layout == 2 then tailAt else Base(f.u), f.size);
    if s.Err? then Err(s.error) else Ok(Target(s.value))
  }

  function ReadContent(img: bytes, f: Fields, tailAt: nat): (r: Result<Content, ReadError>)
    requires f.size > 0
  {
    if f.size > Min(5000, |img|) then Err(Invalid) else
    var blocks := RoundUp(f.size, 4096) / 4096;
    var oob := SliceAt(img, Base(f.u), if f.layout == 2 then (blocks - 1) * 4096 else f.size);
    var tail := SliceAt(img, tailAt, if f.layout == 2 then f.size % 4096 else 0);
    if oob.Err? then Err(oob.error) else if tail.Err? then Err(tail.error) else Ok(Data(oob.value + tail.value))
  }

  function DirResult(r: Result<seq<Dirent>, DecodeError>): Result<Content, ReadError> {
    if r.Ok? then Ok(Entries(r.value)) else Err(if r.error.BadBlock? then Invalid else ReadError.OutOfBounds)
  }

  /** The content of the inode with fields `f` whose inline tail would start at `tailAt`. */
  function ReadBody(dec: Decoder, img: bytes, f: Fields, tailAt: nat): (r: Result<Content, ReadError>) {
    var t := FileType(f.mode);
    if t == S_IFDIR then DirResult(DecodeDir(dec, img, Base(f.u), tailAt, f.size, f.layout == 2)) else
    if t == S_IFLNK then ReadTarget(img, f, tailAt) else
    if t == S_IFREG && f.size != 0 then
      if f.layout == 0 || f.layout == 2 then ReadContent(img, f, tailAt) else
      if f.layout == 4 then Ok(NoContent) else Err(Invalid)
    else Ok(NoContent)
  }

  // ---------- reading back ----------

  ghost function ContentOf(body: Body, ds: seq<Dirent>): Content {
    match body
    case Directory(_) => Entries(ds)
    case Symlink(target) => Target(target)
    case Inline(content) => Data(content)
    case _ => NoContent
  }

  /** How the inode refers to its content. */
  function LayoutOf(body: Body, pl: Place): nat {
    if body.External? then 4 else if pl.tail > 0 then 2 else 0
  }

  ghost predicate Refers(f: Fields, mode: nat, body: Body, pl: Place, dataAt: nat)
    requires body.External? ==> body.size > 0
  {
    && f.mode == mode && f.size == FileSize(body) && f.layout == LayoutOf(body, pl)
    && (body.Directory? || body.Symlink? || body.Inline? ==> f.u == if pl.nBlocks > 0 then dataAt / 4096 else 0)
  }

  lemma {:induction false} BaseOf(dataAt: nat)
    requires dataAt % 4096 == 0 && dataAt < 0x1_0000_0000
    ensures Base(dataAt / 4096) == dataAt
  {
  }

  lemma {:induction false} SliceIs(img: bytes, o: nat, x: bytes, n: nat)
    requires At(img, o, x) && n == |x|
    ensures SliceAt(img, o, n) == Ok(x)
  {
  }

  lemma {:induction false} PadStarts(img: bytes, o: nat, x: bytes)
    requires At(img, o, PadBlock(x))
    ensures At(img, o, x)
  {
    AtJoin(img, o, x, if |x| <= 4096 then Zeros(4096 - |x|) else []);
  }

  lemma {:induction false} EntriesRead(dec: Decoder, img: bytes, f: Fields, ds: seq<Dirent>, tailAt: nat)
    requires Inverts(dec) && EntriesOk(ds) && FileType(f.mode) == S_IFDIR
    requires f.size == 4096 * DirBlocks.DirBlocks(Names(ds)) + DirTail(Names(ds))
    requires (f.layout == 2 <==> DirTail(Names(ds)) > 0)
    requires At(img, Base(f.u), Flat(DirData(ds))) && At(img, tailAt, DirTailData(ds))
    ensures ReadBody(dec, img, f, tailAt) == Ok(Entries(ds))
  {
    DirRoundTrip(dec, img, Base(f.u), tailAt, f.size, ds);
  }

  lemma {:induction false} DirectoryBase(img: bytes, f: Fields, ds: seq<Dirent>, dataAt: nat)
    requires EntriesOk(ds) && dataAt % 4096 == 0 && dataAt < 0x1_0000_0000 && At(img, dataAt, Flat(DirData(ds)))
    requires f.u == if DirBlocks.DirBlocks(Names(ds)) > 0 then dataAt / 4096 else 0
    ensures At(img, Base(f.u), Flat(DirData(ds)))
  {
    if DirBlocks.DirBlocks(Names(ds)) > 0 {
      BaseOf(dataAt);
    } else {
      assert DirData(ds) == [];
    }
  }

  lemma {:induction false} DirectoryReads(dec: Decoder, img: bytes, f: Fields, mode: nat, body: Body, ds: seq<Dirent>,
        pl: Place, tailAt: nat, dataAt: nat)
    requires Inverts(dec) && body.Directory? && BodyOk(mode, body) && Named(body, ds)
    requires Refers(f, mode, body, pl, dataAt)
    requires pl.tail == BodyTail(body) && pl.nBlocks == BodyBlocks(body)
    requires dataAt % 4096 == 0 && dataAt < 0x1_0000_0000 && At(img, tailAt, TailOf(body, ds, pl))
    requires At(img, dataAt, DataOf(body, ds, pl))
    ensures ReadBody(dec, img, f, tailAt) == Ok(Entries(ds))
  {
    DirectoryBase(img, f, ds, dataAt);
    EntriesRead(dec, img, f, ds, tailAt);
  }

  lemma {:induction false} SymlinkReads(dec: Decoder, img: bytes, f: Fields, mode: nat, target: bytes, pl: Place,
                                    tailAt: nat, dataAt: nat)
    requires var body := Symlink(target);
             && BodyOk(mode, body) && Refers(f, mode, body, pl, dataAt) && At(img, tailAt, TailOf(body, [], pl))
             && At(img, dataAt, DataOf(body, [], pl))
             && |TailOf(body, [], pl)| == pl.tail
    requires dataAt % 4096 == 0 && dataAt < 0x1_0000_0000
    ensures ReadBody(dec, img, f, tailAt) == Ok(Target(target))
  {
    if pl.nBlocks == 0 {
      SliceIs(img, tailAt, target, f.size);
    } else {
      BaseOf(dataAt);
      assert target[..Min(|target|, 4096)] == target;
      PadStarts(img, dataAt, target);
      SliceIs(img, dataAt, target, f.size);
    }
  }

  lemma {:induction false} InlineReads(dec: Decoder, img: bytes, f: Fields, mode: nat, content: bytes, pl: Place,
                                    tailAt: nat, dataAt: nat)
    requires var body := Inline(content);
             && BodyOk(mode, body) && Refers(f, mode, body, pl, dataAt) && At(img, tailAt, TailOf(body, [], pl))
             && At(img, dataAt, DataOf(body, [], pl))
             && pl.tail == BodyTail(body) && pl.nBlocks == BodyBlocks(body)
    requires dataAt % 4096 == 0 && 4096 <= dataAt < 0x1_0000_0000
    ensures ReadBody(dec, img, f, tailAt) == Ok(Data(content))
  {
    var n := |content|;
    InlineRoom(content);
    var front, back := content[..n - pl.tail], content[n - pl.tail..];
    assert front + back == content;
    assert SliceAt(img, tailAt, pl.tail) == Ok(back) by { SliceIs(img, tailAt, back, pl.tail); }
    if pl.nBlocks == 0 {
      assert front == [] && RoundUp(n, 4096) / 4096 == 1;
      SliceIs(img, 0, front, 0);
    } else {
      BaseOf(dataAt);
      assert content[..Min(n, 4096)] == front;
      PadStarts(img, dataAt, front);
      SliceIs(img, dataAt, front, n - pl.tail);
    }
  }

  /** Whatever the kind of content, the reader gets what was written. */
  lemma {:induction false} BodyRoundTrip(dec: Decoder, img: bytes, f: Fields, mode: nat, body: Body, ds: seq<Dirent>,
        s: Sizes, end: nat, pl: Place, tailAt: nat, dataAt: nat)
    requires Inverts(dec) && BodyOk(mode, body) && Named(body, ds) && Refers(f, mode, body, pl, dataAt)
    requires s == SizesOf(body, s.inodeSize, s.xattrSize) && Well(s, end, pl)
    requires dataAt % 4096 == 0 && 4096 <= dataAt < 0x1_0000_0000
    requires At(img, tailAt, TailOf(body, ds, pl)) && At(img, dataAt, DataOf(body, ds, pl))
    ensures ReadBody(dec, img, f, tailAt) == Ok(ContentOf(body, ds))
  {
    BodyFills(mode, body, ds, s.inodeSize, s.xattrSize, end, pl);
    match body {
      case Directory(_) => DirectoryReads(dec, img, f, mode, body, ds, pl, tailAt, dataAt);
      case Symlink(target) => SymlinkReads(dec, img, f, mode, target, pl, tailAt, dataAt);
      case Inline(content) => InlineReads(dec, img, f, mode, content, pl, tailAt, dataAt);
      case External(_) =>
      case Plain(_) =>
    }
  }
}
