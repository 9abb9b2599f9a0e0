/** Inodes of the tree to be written, the room they need and the bytes that go behind them. */
module ErofsNode {
  import opened Common
  import opened Bytes
  import opened Chunking
  import opened DirCodec
  import opened DirBlocks
  import opened Layout
  import opened Xattrs

  /** A directory entry and the position in the inode list of the inode it leads to, hard links followed. */
  datatype Child = Child(name: bytes, target: nat)

  /** Content by kind: a regular file is stored in the image, stored elsewhere or empty. */
  datatype Body =
    | Directory(children: seq<Child>)
    | Symlink(target: bytes)
    | Inline(content: bytes)
    | External(size: nat)
    | Plain(size: nat)

  datatype Inode = Inode(mode: nat, nlink: nat, uid: nat, gid: nat, rdev: nat, sec: nat, nsec: nat, ino: nat,
                         body: Body, xattrs: seq<Xattr>)

  const S_IFIFO: nat := 1
  const S_IFCHR: nat := 2
  const S_IFDIR: nat := 4
  const S_IFBLK: nat := 6
  const S_IFREG: nat := 8
  const S_IFLNK: nat := 10
  const S_IFSOCK: nat := 12

  /** The type bits of a 16-bit mode. */
  function FileType(mode: nat): nat {
    mode / 0x1000 % 16
  }

  /** The type byte of directory entries. */
  function DirentType(mode: nat): byte {
    var t := FileType(mode);
    if t == S_IFREG then 1 else if t == S_IFDIR then 2 else if t == S_IFCHR then 3 else if t == S_IFBLK then 4 else
    if t == S_IFIFO then 5 else if t == S_IFSOCK then 6 else if t == S_IFLNK then 7 else 0
  }

  /** The codes of the seven file types, by the type bits of the mode; 0 for anything else. */
  ghost predicate IsTypeCode(code: byte, mode: nat) {
    var t := mode / 0x1000;
    && (code == 1 <==> t == 8) && (code == 2 <==> t == 4) && (code == 3 <==> t == 2) && (code == 4 <==> t == 6)
    && (code == 5 <==> t == 1) && (code == 6 <==> t == 12) && (code == 7 <==> t == 10) && code <= 7
  }

  lemma {:induction false} DirentTypeIs(mode: nat)
    requires mode < 0x1_0000
    ensures IsTypeCode(DirentType(mode), mode)
  {
    assert 0 <= mode / 0x1000 < 16;
  }

  ghost function ChildNames(children: seq<Child>): (names: seq<bytes>)
    ensures |names| == |children|
  {
    seq(|children|, i requires 0 <= i < |children| => children[i].name)
  }

  /** What the setters of the tree guarantee of content, and which mode goes with it. */
  ghost predicate BodyOk(mode: nat, body: Body) {
    match body
    case Directory(children) => FileType(mode) == S_IFDIR && NamesOk(ChildNames(children))
    case Symlink(target) => FileType(mode) == S_IFLNK && 1 <= |target| < 4096 && 0 !in target
    case Inline(content) => FileType(mode) == S_IFREG && 1 <= |content| <= 5000
    case External(size) => FileType(mode) == S_IFREG && 0 < size < TWO64 && ChunkCount(size) <= MAX_CHUNKS
    case Plain(size) =>
      && FileType(mode) in {S_IFREG, S_IFCHR, S_IFBLK, S_IFIFO, S_IFSOCK} && size < TWO64
      && (FileType(mode) == S_IFREG ==> size == 0)
  }

  // ---------- room ----------

  ghost function BodyBlocks(body: Body): nat {
    match body
    case Directory(children) => DirBlocks.DirBlocks(ChildNames(children))
    case Symlink(_) => 0
    case Inline(content) => |content| / 4096 + if |content| % 4096 > 2048 then 1 else 0
    case External(_) => 0
    case Plain(_) => 0
  }

  ghost function BodyTail(body: Body): nat
    requires body.External? ==> body.size > 0
  {
    match body
    case Directory(children) => DirTail(ChildNames(children))
    case Symlink(target) => |target|
    case Inline(content) => if |content| % 4096 > 2048 then 0 else |content| % 4096
    case External(size) => 4 * ChunkCount(size)
    case Plain(_) => 0
  }

  /** The sizing pass for one inode. */
  method ComputeBodySize(mode: nat, body: Body) returns (nBlocks: nat, tailSize: nat)
    requires BodyOk(mode, body)
    ensures nBlocks == BodyBlocks(body) && tailSize == BodyTail(body)
    ensures tailSize <= 4096 && (body.Directory? || body.Inline? ==> tailSize <= 2048)
    ensures body.Inline? ==>
              var n := |body.content|;
              if n % 4096 > 2048 then nBlocks == n / 4096 + 1 <= 1 && tailSize == 0 else
              nBlocks == n / 4096 <= 1 && tailSize == n % 4096
    ensures body.Symlink? ==> nBlocks == 0 && tailSize == |body.target|
    ensures body.Plain? ==> nBlocks == 0 && tailSize == 0
  {
    match body {
      case Directory(children) =>
        var names := seq(|children|, i requires 0 <= i < |children| => children[i].name);
        nBlocks, tailSize := ComputeDirSize(names);
        assert names == ChildNames(children);
      case Symlink(target) =>
        nBlocks, tailSize := 0, |target|;
      case Inline(content) =>
        nBlocks, tailSize := |content| / 4096, |content| % 4096;
        if tailSize > 2048 {
          nBlocks, tailSize := nBlocks + 1, 0;
        }
      case External(size) =>
        var chunks := ChunkCount(size);
        assert chunks <= MAX_CHUNKS;
        nBlocks, tailSize := 0, chunks * 4;
      case Plain(_) =>
        nBlocks, tailSize := 0, 0;
    }
    assert tailSize <= 4096;
  }

  /** The size in the inode: for a directory that of its blocks and tail, nothing for special files. */
  ghost function FileSize(body: Body): nat
    requires body.External? ==> body.size > 0
  {
    match body
    case Directory(_) => 4096 * BodyBlocks(body) + BodyTail(body)
    case Symlink(target) => |target|
    case Inline(content) => |content|
    case External(size) => size
    case Plain(_) => 0
  }

  /** Small and without a time stamp of its own. */
  ghost predicate Compact(n: Inode, sec: nat, nsec: nat)
    requires n.body.External? ==> n.body.size > 0
  {
    && n.sec == sec && n.nsec == nsec
    && n.nlink <= 0xffff && n.uid <= 0xffff && n.gid <= 0xffff
    && (if n.body.Plain? then n.body.size else FileSize(n.body)) <= 0xffff_ffff
  }

  // ---------- bytes ----------

  /** Chunk indexes that lead nowhere. */
  function NullChunks(n: nat): (b: bytes)
    ensures |b| == 4 * n
  {
    seq(4 * n, _ => 255)
  }

  /** What is stored behind the inode; `ds` are the entries of a directory. */
  ghost function TailOf(body: Body, ds: seq<Dirent>, pl: Place): bytes
    requires EntriesOk(ds) && (body.External? ==> body.size > 0)
  {
    match body
    case Directory(_) => DirTailData(ds)
    case Symlink(target) => if pl.nBlocks == 0 then target else []
    case Inline(content) => if pl.tail <= |content| then content[|content| - pl.tail..] else []
    case External(size) => if pl.tail > 0 then NullChunks(ChunkCount(size)) else []
    case Plain(_) => []
  }

  /** What is stored in data blocks; of a file the writer emits at most one block. */
  ghost function DataOf(body: Body, ds: seq<Dirent>, pl: Place): bytes
    requires EntriesOk(ds)
  {
    match body
    case Directory(_) => Flat(DirData(ds))
    case Symlink(target) => if pl.nBlocks > 0 then PadBlock(target[..Min(|target|, 4096)]) else []
    case Inline(content) => if pl.nBlocks > 0 then PadBlock(content[..Min(|content|, 4096)]) else []
    case External(_) => if pl.nBlocks > 0 then NullChunks(1024) else []
    case Plain(_) => []
  }

  /** `ds` is the directory with the children's names. */
  ghost predicate Named(body: Body, ds: seq<Dirent>) {
    EntriesOk(ds) && (body.Directory? ==> Names(ds) == ChildNames(body.children))
  }

  ghost function SizesOf(body: Body, inodeSize: nat, xattrSize: nat): Sizes
    requires body.External? ==> body.size > 0
  {
    Sizes(body.Symlink?, BodyBlocks(body), BodyTail(body), inodeSize, xattrSize)
  }

  lemma {:induction false} InlineRoom(content: bytes)
    requires 1 <= |content| <= 5000
    ensures BodyBlocks(Inline(content)) <= 1 && BodyTail(Inline(content)) <= 2048
    ensures if BodyBlocks(Inline(content)) == 0 then BodyTail(Inline(content)) == |content| else
            BodyTail(Inline(content)) == (if |content| <= 4096 then 0 else |content| - 4096)
  {
  }

  lemma {:induction false} DirRoom(children: seq<Child>)
    requires NamesOk(ChildNames(children))
    ensures BodyTail(Directory(children)) <= 2048
  {
  }

  /** What is written for an inode takes the room its place has, for every kind of content. */
  lemma {:induction false} BodyFills(mode: nat, body: Body, ds: seq<Dirent>, inodeSize: nat, xattrSize: nat, end: nat,
                                    pl: Place)
    requires BodyOk(mode, body) && Named(body, ds) && Well(SizesOf(body, inodeSize, xattrSize), end, pl)
    ensures |TailOf(body, ds, pl)| == pl.tail && |DataOf(body, ds, pl)| == 4096 * pl.nBlocks
    ensures body.Directory? || body.Inline? || body.Plain? ==>
              pl.tail == BodyTail(body) && pl.nBlocks == BodyBlocks(body)
    ensures body.Symlink? || body.Inline? || body.External? ==> pl.nBlocks <= 1
  {
    match body {
      case Directory(children) =>
        DirRoom(children);
        DirDataSizes(ds);
      case Symlink(target) =>
      case Inline(content) => InlineRoom(content);
      case External(size) =>
      case Plain(_) =>
    }
  }
}
