/**
 Listing a mounted directory page by page.  The offset of an entry is that of its dirent; behind the last dirent of
 a block comes the next block.  A page ends with the first entry that does not fit, and the next page starts at the
 offset that came with the last entry returned.
 */
module FuseReaddir {
  import opened Common
  import opened DirCodec

  /** An entry, its offset, and the offset to go on from. */
  datatype Item = Item(d: Dirent, at: nat, next: nat)

  /** Room an entry takes in the reply, and whether it is a whiteout, which is not shown. */
  type Cost = Dirent -> nat
  type Hidden = Dirent -> bool

  /** The mode that an entry is listed with: the type bits for its code. */
  function ShownMode(code: byte): nat {
    if code == 7 then 0xa000 else if code == 2 then 0x4000 else if code == 1 then 0x8000 else
    if code == 4 then 0x6000 else if code == 3 then 0x2000 else if code == 6 then 0xc000 else
    if code == 5 then 0x1000 else 0
  }

  // ---------- what a page holds ----------

  ghost function Shown(items: seq<Item>, hidden: Hidden): (r: seq<Item>) {
    if items == [] then [] else
    if hidden(items[0].d) then Shown(items[1..], hidden) else [items[0]] + Shown(items[1..], hidden)
  }

  /** How many items are dealt with before one does not fit, and the room then left. */
  datatype Taken = Taken(n: nat, room: nat)

  ghost function Walk(items: seq<Item>, room: nat, cost: Cost, hidden: Hidden): (t: Taken)
    ensures t.n <= |items| && t.room <= room
  {
    if items == [] then Taken(0, room) else
    if hidden(items[0].d) then
      var t := Walk(items[1..], room, cost, hidden);
      Taken(t.n + 1, t.room)
    else if cost(items[0].d) <= room then
      var t := Walk(items[1..], room - cost(items[0].d), cost, hidden);
      Taken(t.n + 1, t.room)
    else Taken(0, room)
  }

  ghost function Page(items: seq<Item>, room: nat, cost: Cost, hidden: Hidden): seq<Item> {
    Shown(items[..Walk(items, room, cost, hidden).n], hidden)
  }

  lemma {:induction false} ShownJoin(a: seq<Item>, b: seq<Item>, hidden: Hidden)
    ensures Shown(a + b, hidden) == Shown(a, hidden) + Shown(b, hidden)
  {
    if a == [] {
      assert a + b == b;
    } else {
      ShownJoin(a[1..], b, hidden);
      assert (a + b)[0] == a[0] && (a + b)[1..] == a[1..] + b;
      var h, s, t := if hidden(a[0].d) then [] else [a[0]], Shown(a[1..], hidden), Shown(b, hidden);
      assert h + (s + t) == (h + s) + t;
    }
  }

  /** A walk over two stretches is a walk over the first and, if all of it fits, one over the second. */
  lemma {:induction false} WalkJoin(a: seq<Item>, b: seq<Item>, room: nat, cost: Cost, hidden: Hidden)
    ensures var t := Walk(a, room, cost, hidden);
            Walk(a + b, room, cost, hidden) ==
            if t.n < |a| then t else var u := Walk(b, t.room, cost, hidden); Taken(|a| + u.n, u.room)
  {
    if a == [] {
      assert a + b == b;
    } else {
      assert (a + b)[1..] == a[1..] + b;
      if hidden(a[0].d) {
        WalkJoin(a[1..], b, room, cost, hidden);
      } else if cost(a[0].d) <= room {
        WalkJoin(a[1..], b, room - cost(a[0].d), cost, hidden);
      }
    }
  }

  /** The room that items take. */
  ghost function Spent(items: seq<Item>, cost: Cost): nat {
    if items == [] then 0 else cost(items[0].d) + Spent(items[1..], cost)
  }

  /** A page shows the first items but for hidden ones; they fit, and the next one that is to be shown would not. */
  ghost predicate IsPage(items: seq<Item>, max: nat, cost: Cost, hidden: Hidden, page: seq<Item>) {
    exists n :: 0 <= n <= |items| && page == Shown(items[..n], hidden) && Spent(page, cost) <= max &&
                (n < |items| ==> !hidden(items[n].d) && Spent(page, cost) + cost(items[n].d) > max)
  }

  lemma {:induction false} WalkMeans(items: seq<Item>, room: nat, cost: Cost, hidden: Hidden)
    ensures var t := Walk(items, room, cost, hidden);
            && Spent(Shown(items[..t.n], hidden), cost) + t.room == room
            && (t.n < |items| ==> !hidden(items[t.n].d) && cost(items[t.n].d) > t.room)
  {
    var t := Walk(items, room, cost, hidden);
    if t.n > 0 {
      WalkMeans(items[1..], if hidden(items[0].d) then room else room - cost(items[0].d), cost, hidden);
      assert items[..t.n][1..] == items[1..][..t.n - 1];
    }
  }

  lemma {:induction false} PageMeans(items: seq<Item>, max: nat, cost: Cost, hidden: Hidden)
    ensures IsPage(items, max, cost, hidden, Page(items, max, cost, hidden))
  {
    WalkMeans(items, max, cost, hidden);
    var t := Walk(items, max, cost, hidden);
    assert Page(items, max, cost, hidden) == Shown(items[..t.n], hidden);
  }

  // ---------- one block ----------

  ghost function ItemAt(es: seq<Dirent>, start: nat, j: nat): Item
    requires j < |es|
  {
    Item(es[j], start + 12 * j, if j + 1 < |es| then start + 12 * (j + 1) else start + 4096)
  }

  ghost function BlockItems(es: seq<Dirent>, start: nat): (items: seq<Item>)
    ensures |items| == |es|
  {
    seq(|es|, j requires 0 <= j < |es| => ItemAt(es, start, j))
  }

  lemma {:induction false} RestItem(es: seq<Dirent>, start: nat, j: nat, i: nat, rest: seq<Item>, at: nat, next: nat)
    requires j <= i < |es| && rest == BlockItems(es, start)[j..]
    requires at == start + 12 * i && next == if i < |es| - 1 then at + 12 else start + 4096
    ensures rest[i - j] == Item(es[i], at, next)
  {
    assert rest[i - j] == ItemAt(es, start, i);
  }

  /** The first entry at or behind an offset, in a block that begins at `start`. */
  function EntryFrom(off: nat, start: nat): nat
    requires start <= off
  {
    (off - start + 11) / 12
  }

  class DirBuf {
    const max: nat
    var size: nat
    var offset: nat
    var out: seq<Item>

    constructor (max: nat, offset: nat)
      ensures this.max == max && this.offset == offset && size == 0 && out == []
    {
      this.max, this.offset, size, out := max, offset, 0, [];
    }

    /** Adds one entry that is shown; refuses it when there is not enough room left. */
    method AddEntry(d: Dirent, next: nat, cost: Cost) returns (fits: bool)
      requires size <= max
      modifies this
      ensures fits <==> cost(d) <= max - old(size)
      ensures fits ==> size == old(size) + cost(d) && out == old(out) + [Item(d, offset, next)]
      ensures !fits ==> size == old(size) && out == old(out)
      ensures offset == old(offset)
    {
      var remaining := max - size;
      fits := cost(d) <= remaining;
      if fits {
        size := size + cost(d);
        out := out + [Item(d, offset, next)];
      }
    }

    /** The loop over the entries of a block from entry `first` on. */
    method AddEntries(es: seq<Dirent>, start: nat, first: nat, cost: Cost, hidden: Hidden,
                      ghost rest: seq<Item>, ghost room0: nat, ghost o: seq<Item>)
      returns (full: bool)
      requires first < |es| && offset == start + 12 * first && size <= max && rest == BlockItems(es, start)[first..]
      requires Doing(rest, room0, cost, hidden, o, 0, max - size, out)
      modifies this
      ensures size <= max && Done(rest, room0, cost, hidden, o, max - size, out, full)
      ensures !full ==> offset == start + 4096
    {
      var n, i := |es|, first;
      full := false;
      while i < n && !full
        invariant first <= i <= n && size <= max && (!full ==> offset == if i < n then start + 12 * i else start + 4096)
        invariant !full ==> Doing(rest, room0, cost, hidden, o, i - first, max - size, out)
        invariant full ==> Done(rest, room0, cost, hidden, o, max - size, out, true)
        decreases n - i, !full
      {
        var next := if i < n - 1 then offset + 12 else start + 4096;
        full := AddNext(es[i], next, cost, hidden, rest, room0, o, es, start, first, i);
        if !full { i := i + 1; }
      }
      if !full { DoneEnd(rest, room0, cost, hidden, o, max - size, out); }
    }

    /** One entry, and on to the next. */
    method AddNext(d: Dirent, next: nat, cost: Cost, hidden: Hidden, ghost rest: seq<Item>, ghost room0: nat,
                   ghost o: seq<Item>, ghost es: seq<Dirent>, ghost start: nat, ghost first: nat, ghost i: nat)
      returns (full: bool)
      requires first <= i < |es| && d == es[i] && size <= max && rest == BlockItems(es, start)[first..]
      requires offset == start + 12 * i && next == if i < |es| - 1 then offset + 12 else start + 4096
      requires Doing(rest, room0, cost, hidden, o, i - first, max - size, out)
      modifies this
      ensures size <= max
      ensures !full ==> offset == next && Doing(rest, room0, cost, hidden, o, i - first + 1, max - size, out)
      ensures full ==> Done(rest, room0, cost, hidden, o, max - size, out, true)
    {
      RestItem(es, start, first, i, rest, offset, next);
      DoneStep(rest, room0, cost, hidden, o, i - first, max - size, out);
      if !hidden(d) {
        var fits := AddEntry(d, next, cost);
        if !fits { return true; }
      }
      offset := next;
      return false;
    }

    /**
     Adds the entries of a block from the current offset on, rounded up to an entry; `full` when one did not fit.  An
     offset behind the last entry is left where it is.
     */
    method AddBlock(es: seq<Dirent>, start: nat, cost: Cost, hidden: Hidden) returns (full: bool)
      requires start <= offset && size <= max
      modifies this
      ensures size <= max
      ensures var j := EntryFrom(old(offset), start);
              if j >= |es| then !full && unchanged(this) else
                && Done(BlockItems(es, start)[j..], max - old(size), cost, hidden, old(out), max - size, out, full)
                && (!full ==> offset == start + 4096)
    {
      var first := EntryFrom(offset, start);
      if first >= |es| { return false; }
      offset := start + 12 * first;
      ghost var o, room0, rest := out, max - size, BlockItems(es, start)[first..];
      DoneStart(rest, room0, cost, hidden, o);
      full := AddEntries(es, start, first, cost, hidden, rest, room0, o);
    }
  }

  /** After dealing with the first `k` items, `room` is left and `out` has grown by what is shown of them. */
  ghost predicate Doing(rest: seq<Item>, room0: nat, cost: Cost, hidden: Hidden, o: seq<Item>, k: nat, room: nat,
                        out: seq<Item>) {
    && k <= |rest| && out == o + Shown(rest[..k], hidden)
    && Walk(rest, room0, cost, hidden) == var t := Walk(rest[k..], room, cost, hidden); Taken(k + t.n, t.room)
  }

  /** The outcome of adding the items of a stretch. */
  ghost predicate Done(rest: seq<Item>, room0: nat, cost: Cost, hidden: Hidden, o: seq<Item>, room: nat, out: seq<Item>,
                       full: bool) {
    var t := Walk(rest, room0, cost, hidden);
    out == o + Shown(rest[..t.n], hidden) && room == t.room && (full <==> t.n < |rest|)
  }

  lemma {:induction false} DoneStart(rest: seq<Item>, room0: nat, cost: Cost, hidden: Hidden, o: seq<Item>)
    ensures Doing(rest, room0, cost, hidden, o, 0, room0, o)
  {
    assert rest[0..] == rest && rest[..0] == [];
  }

  lemma {:induction false} DoneStep(rest: seq<Item>, room0: nat, cost: Cost, hidden: Hidden, o: seq<Item>, k: nat,
                                    room: nat, out: seq<Item>)
    requires Doing(rest, room0, cost, hidden, o, k, room, out) && k < |rest|
    ensures hidden(rest[k].d) ==> Doing(rest, room0, cost, hidden, o, k + 1, room, out)
    ensures !hidden(rest[k].d) && cost(rest[k].d) <= room ==>
              Doing(rest, room0, cost, hidden, o, k + 1, room - cost(rest[k].d), out + [rest[k]])
    ensures !hidden(rest[k].d) && cost(rest[k].d) > room ==> Done(rest, room0, cost, hidden, o, room, out, true)
  {
    WalkStep(rest, k, hidden);
  }

  lemma {:induction false} DoneEnd(rest: seq<Item>, room0: nat, cost: Cost, hidden: Hidden, o: seq<Item>, room: nat,
                                   out: seq<Item>)
    requires Doing(rest, room0, cost, hidden, o, |rest|, room, out)
    ensures Done(rest, room0, cost, hidden, o, room, out, false)
  {
    assert rest[|rest|..] == [] && rest[..|rest|] == rest;
  }

  lemma {:induction false} WalkStep(rest: seq<Item>, k: nat, hidden: Hidden)
    requires k < |rest|
    ensures rest[k..][0] == rest[k] && rest[k..][1..] == rest[k + 1..]
    ensures Shown(rest[..k + 1], hidden) == Shown(rest[..k], hidden) + (if hidden(rest[k].d) then [] else [rest[k]])
  {
    assert rest[..k + 1] == rest[..k] + [rest[k]];
    ShownJoin(rest[..k], [rest[k]], hidden);
    assert Shown([rest[k]], hidden) == if hidden(rest[k].d) then [] else [rest[k]] + [];
  }

  // ---------- the directory ----------

  /** The items of block `b` and all behind it. */
  ghost function From(blocks: seq<seq<Dirent>>, b: nat): seq<Item>
    decreases |blocks| - b
  {
    if b >= |blocks| then [] else BlockItems(blocks[b], 4096 * b) + From(blocks, b + 1)
  }

  ghost predicate PosOk(blocks: seq<seq<Dirent>>, b: nat, j: nat) {
    if b < |blocks| then j < |blocks[b]| else b == |blocks| && j == 0
  }

  /** The items from entry `j` of block `b` on. */
  ghost function Rest(blocks: seq<seq<Dirent>>, b: nat, j: nat): seq<Item>
    requires PosOk(blocks, b, j)
  {
    if b == |blocks| then [] else BlockItems(blocks[b], 4096 * b)[j..] + From(blocks, b + 1)
  }

  /** Blocks have entries, and their dirents fit into them. */
  ghost predicate NonEmpty(blocks: seq<seq<Dirent>>) {
    forall b {:trigger blocks[b]} :: 0 <= b < |blocks| ==> 0 < |blocks[b]| <= 341
  }

  /** So do those of the tail. */
  ghost predicate BlocksOk(blocks: seq<seq<Dirent>>, tailpacked: bool, tailSize: nat) {
    && NonEmpty(blocks)
    && (tailpacked ==> blocks != [] && 12 * |blocks[|blocks| - 1]| <= tailSize <= 4096)
  }

  lemma {:induction false} FromIsRest(blocks: seq<seq<Dirent>>, b: nat)
    requires b <= |blocks| && (b < |blocks| ==> blocks[b] != [])
    ensures PosOk(blocks, b, 0) && Rest(blocks, b, 0) == From(blocks, b)
  {
    if b < |blocks| { assert BlockItems(blocks[b], 4096 * b)[0..] == BlockItems(blocks[b], 4096 * b); }
  }

  lemma {:induction false} Behind(all: seq<Item>, k: nat, a: seq<Item>, c: seq<Item>, n: nat)
    requires k <= |all| && all[k..] == a + c && n <= |a|
    ensures k + |a| <= |all| && all[k + |a|..] == c && all[..k + n] == all[..k] + a[..n]
  {
    assert all == all[..k] + (a + c);
  }

  /** Adding a block moves the position in the whole listing on, or ends the page. */
  lemma {:induction false} DoingBlock(all: seq<Item>, max: nat, cost: Cost, hidden: Hidden, k: nat, room: nat,
                                    out: seq<Item>,
                                      a: seq<Item>, c: seq<Item>, room': nat, out': seq<Item>, full: bool)
    requires Doing(all, max, cost, hidden, [], k, room, out) && all[k..] == a + c
    requires Done(a, room, cost, hidden, out, room', out', full)
    ensures full ==> out' == Page(all, max, cost, hidden)
    ensures !full ==> k + |a| <= |all| && all[k + |a|..] == c && Doing(all, max, cost, hidden, [], k + |a|, room', out')
  {
    var t := Walk(a, room, cost, hidden);
    WalkJoin(a, c, room, cost, hidden);
    Behind(all, k, a, c, t.n);
    ShownJoin(all[..k], a[..t.n], hidden);
  }

  /** The page has got to entry `j` of block `b`. */
  ghost predicate Going(blocks: seq<seq<Dirent>>, b: nat, j: nat, all: seq<Item>, max: nat, cost: Cost, hidden: Hidden,
                        k: nat, room: nat, out: seq<Item>) {
    PosOk(blocks, b, j) && Doing(all, max, cost, hidden, [], k, room, out) && all[k..] == Rest(blocks, b, j)
  }

  lemma {:induction false} GoingStart(blocks: seq<seq<Dirent>>, b: nat, j: nat, max: nat, cost: Cost, hidden: Hidden)
    requires PosOk(blocks, b, j)
    ensures Going(blocks, b, j, Rest(blocks, b, j), max, cost, hidden, 0, max, [])
  {
    DoneStart(Rest(blocks, b, j), max, cost, hidden, []);
    assert Rest(blocks, b, j)[0..] == Rest(blocks, b, j);
  }

  lemma {:induction false} GoingEnd(blocks: seq<seq<Dirent>>, all: seq<Item>, max: nat, cost: Cost, hidden: Hidden,
                                    k: nat, room: nat, out: seq<Item>)
    requires Going(blocks, |blocks|, 0, all, max, cost, hidden, k, room, out)
    ensures out == Page(all, max, cost, hidden)
  {
    assert k == |all|;
    DoneEnd(all, max, cost, hidden, [], room, out);
  }

  function BlockOf(off: nat): nat { off / 4096 }
  function EntryOf(off: nat): nat { EntryFrom(off % 4096, 0) }

  /** What a page starts with, for any offset: nothing when it is behind the entries of its block. */
  ghost function RestAt(blocks: seq<seq<Dirent>>, off: nat): seq<Item> {
    if BlockOf(off) < |blocks| && EntryOf(off) < |blocks[BlockOf(off)]| then Rest(blocks, BlockOf(off), EntryOf(off))
    else []
  }

  lemma {:induction false} OffsetOf(off: nat)
    ensures 4096 * BlockOf(off) <= off < 4096 * BlockOf(off) + 4096
    ensures EntryFrom(off, 4096 * BlockOf(off)) == EntryOf(off)
  {
  }

  /** The page in `buf` has got to entry `j` of block `b`. */
  ghost predicate Stands(buf: DirBuf, blocks: seq<seq<Dirent>>, b: nat, j: nat, all: seq<Item>, cost: Cost,
                         hidden: Hidden, k: nat)
    reads buf
  {
    && buf.size <= buf.max && 4096 * b <= buf.offset && EntryFrom(buf.offset, 4096 * b) == j
    && Going(blocks, b, j, all, buf.max, cost, hidden, k, buf.max - buf.size, buf.out)
  }

  /** The offset is behind the entries of its block, and nothing was added. */
  ghost predicate Stuck(buf: DirBuf, blocks: seq<seq<Dirent>>, b: nat, off: nat)
    reads buf
  {
    && buf.size <= buf.max && buf.offset == off && buf.out == [] && off < 4096 * b + 4096
    && (4096 * b <= off && b < |blocks| ==> EntryFrom(off, 4096 * b) >= |blocks[b]|)
  }

  ghost predicate Reached(buf: DirBuf, blocks: seq<seq<Dirent>>, b: nat, j: nat, all: seq<Item>, cost: Cost,
                          hidden: Hidden, k: nat, stuck: bool, off: nat)
    reads buf
  {
    if stuck then Stuck(buf, blocks, b, off) else Stands(buf, blocks, b, j, all, cost, hidden, k)
  }

  lemma {:induction false} ReachedStart(buf: DirBuf, blocks: seq<seq<Dirent>>, off: nat, cost: Cost, hidden: Hidden)
    requires BlockOf(off) < |blocks| && buf.size == 0 && buf.offset == off && buf.out == []
    ensures Reached(buf, blocks, BlockOf(off), EntryOf(off), RestAt(blocks, off), cost, hidden, 0,
                    EntryOf(off) >= |blocks[BlockOf(off)]|, off)
  {
    OffsetOf(off);
    if EntryOf(off) < |blocks[BlockOf(off)]| { GoingStart(blocks, BlockOf(off), EntryOf(off), buf.max, cost, hidden); }
  }

  lemma {:induction false} ReachedEnd(buf: DirBuf, blocks: seq<seq<Dirent>>, all: seq<Item>, cost: Cost, hidden: Hidden,
                                      k: nat, stuck: bool, off: nat)
    requires Reached(buf, blocks, |blocks|, 0, all, cost, hidden, k, stuck, off) && (stuck ==> all == [])
    ensures buf.out == Page(all, buf.max, cost, hidden)
  {
    if !stuck { GoingEnd(blocks, all, buf.max, cost, hidden, k, buf.max - buf.size, buf.out); }
  }

  /** A block of which the first `used` bytes are used. */
  method AddOne(buf: DirBuf, blocks: seq<seq<Dirent>>, b: nat, used: nat, cost: Cost, hidden: Hidden, ghost j: nat,
                ghost all: seq<Item>, ghost k: nat, ghost stuck: bool, ghost off: nat)
    returns (full: bool, ghost k': nat)
    requires NonEmpty(blocks) && b < |blocks| && 12 * |blocks[b]| <= used <= 4096
    requires Reached(buf, blocks, b, j, all, cost, hidden, k, stuck, off)
    modifies buf
    ensures full ==> buf.out == Page(all, buf.max, cost, hidden)
    ensures !full ==> Reached(buf, blocks, b + 1, 0, all, cost, hidden, k', stuck, off)
  {
    ghost var room, out, a := buf.max - buf.size, buf.out, if stuck then [] else BlockItems(blocks[b], 4096 * b)[j..];
    full, k' := false, k + |a|;
    if 4096 * b <= buf.offset < 4096 * b + used {
      full := buf.AddBlock(blocks[b], 4096 * b, cost, hidden);
    }
    if !stuck {
      DoingBlock(all, buf.max, cost, hidden, k, room, out, a, From(blocks, b + 1), buf.max - buf.size, buf.out, full);
      FromIsRest(blocks, b + 1);
    }
  }

  /** The out-of-line blocks. */
  method AddBlocks(buf: DirBuf, blocks: seq<seq<Dirent>>, first: nat, last: nat, cost: Cost, hidden: Hidden,
                   ghost j: nat, ghost all: seq<Item>, ghost stuck: bool, ghost off: nat)
    returns (full: bool, ghost j': nat, ghost k: nat)
    requires NonEmpty(blocks) && first <= last <= |blocks|
    requires Reached(buf, blocks, first, j, all, cost, hidden, 0, stuck, off)
    modifies buf
    ensures full ==> buf.out == Page(all, buf.max, cost, hidden)
    ensures !full ==> Reached(buf, blocks, last, j', all, cost, hidden, k, stuck, off) && (first < last ==> j' == 0)
    ensures first == last ==> j' == j
  {
    var block := first;
    full, j', k := false, j, 0;
    while block < last
      invariant first <= block <= last && (first < block ==> j' == 0) && (first == block ==> j' == j)
      invariant Reached(buf, blocks, block, j', all, cost, hidden, k, stuck, off)
    {
      assert |blocks[block]| <= 341;
      full, k := AddOne(buf, blocks, block, 4096, cost, hidden, j', all, k, stuck, off);
      if full { return; }
      j', block := 0, block + 1;
    }
  }

  /** One page: as much as fits of what comes from the given offset on. */
  method Readdir(blocks: seq<seq<Dirent>>, tailpacked: bool, tailSize: nat, off: nat, max: nat, cost: Cost,
                 hidden: Hidden)
    returns (page: seq<Item>)
    requires BlocksOk(blocks, tailpacked, tailSize)
    ensures page == Page(RestAt(blocks, off), max, cost, hidden)
    ensures IsPage(RestAt(blocks, off), max, cost, hidden, page)
  {
    PageMeans(RestAt(blocks, off), max, cost, hidden);
    var lastOob := if tailpacked then |blocks| - 1 else |blocks|;
    var first := off / 4096;
    if first >= |blocks| { return []; }
    var buf := new DirBuf(max, off);
    ghost var all, stuck := RestAt(blocks, off), EntryOf(off) >= |blocks[first]|;
    ReachedStart(buf, blocks, off, cost, hidden);
    var full;
    ghost var j, k;
    full, j, k := AddBlocks(buf, blocks, first, lastOob, cost, hidden, EntryOf(off), all, stuck, off);
    if full { return buf.out; }
    if tailpacked {
      full, k := AddOne(buf, blocks, lastOob, tailSize, cost, hidden, j, all, k, stuck, off);
      if full { return buf.out; }
      j := 0;
    }
    ReachedEnd(buf, blocks, all, cost, hidden, k, stuck, off);
    return buf.out;
  }

  /** What a page should start with: the entry at or behind the offset, in this block or a later one. */
  ghost function RestBehind(blocks: seq<seq<Dirent>>, off: nat): seq<Item> {
    if BlockOf(off) >= |blocks| then [] else
    if EntryOf(off) < |blocks[BlockOf(off)]| then Rest(blocks, BlockOf(off), EntryOf(off)) else
    From(blocks, BlockOf(off) + 1)
  }

  /** For an offset that is not the one of an entry, later blocks are passed over exactly when it is behind the last. */
  lemma {:induction false} LaterPassedOver(blocks: seq<seq<Dirent>>, off: nat)
    requires NonEmpty(blocks)
    ensures RestAt(blocks, off) == RestBehind(blocks, off) <==>
            BlockOf(off) + 1 >= |blocks| || EntryOf(off) < |blocks[BlockOf(off)]|
  {
    var b := BlockOf(off) + 1;
    if b < |blocks| { assert |From(blocks, b)| >= |blocks[b]| > 0; }
  }

  /** Asking for what is behind the only entry of the first of two blocks shows nothing of the second. */
  lemma {:induction false} SecondBlockMissed(d: Dirent, d': Dirent, room: nat, cost: Cost, hidden: Hidden)
    requires !hidden(d') && cost(d') <= room
    ensures var blocks := [[d], [d']];
            Page(RestAt(blocks, 13), room, cost, hidden) == [] && Page(RestBehind(blocks, 13), room, cost, hidden) != []
  {
    var blocks := [[d], [d']];
    assert BlockOf(13) == 0 && EntryOf(13) == 2;
    assert From(blocks, 2) == [] && From(blocks, 1) == BlockItems([d'], 4096) + [];
    PageHolds(RestBehind(blocks, 13), room, cost, hidden);
  }

  // ---------- what comes from an offset on ----------

  /** Entry `i` of block `b`, with its offset and the offset to go on from. */
  ghost predicate IsItem(blocks: seq<seq<Dirent>>, b: nat, i: nat, x: Item) {
    && b < |blocks| && i < |blocks[b]| && x.d == blocks[b][i] && x.at == 4096 * b + 12 * i
    && x.next == if i + 1 < |blocks[b]| then x.at + 12 else 4096 * b + 4096
  }

  lemma {:induction false} InBlock(blocks: seq<seq<Dirent>>, b: nat, j: nat, c: nat, i: nat, x: Item)
    requires NonEmpty(blocks) && IsItem(blocks, c, i, x) && b < |blocks| && j <= |blocks[b]|
    ensures x in BlockItems(blocks[b], 4096 * b)[j..] <==> b == c && j <= i
  {
    var items := BlockItems(blocks[b], 4096 * b);
    if x in items[j..] {
      var k :| j <= k < |items| && items[k] == x;
      assert x == ItemAt(blocks[b], 4096 * b, k) && |blocks[b]| <= 341 && |blocks[c]| <= 341;
      assert 4096 * b + 12 * k == 4096 * c + 12 * i && 12 * k < 4096 && 12 * i < 4096;
    }
    if b == c && j <= i { assert items[j..][i - j] == ItemAt(blocks[b], 4096 * b, i); }
  }

  lemma {:induction false} FromMeans(blocks: seq<seq<Dirent>>, b: nat, c: nat, i: nat, x: Item)
    requires NonEmpty(blocks) && IsItem(blocks, c, i, x)
    ensures x in From(blocks, b) <==> b <= c
    decreases |blocks| - b
  {
    if b < |blocks| {
      FromMeans(blocks, b + 1, c, i, x);
      var items := BlockItems(blocks[b], 4096 * b);
      assert x in From(blocks, b) <==> x in items || x in From(blocks, b + 1);
      InBlock(blocks, b, 0, c, i, x);
      assert items[0..] == items;
    }
  }

  lemma {:induction false} FromGenuine(blocks: seq<seq<Dirent>>, b: nat, x: Item)
    requires x in From(blocks, b)
    ensures exists c: nat, i: nat :: IsItem(blocks, c, i, x)
    decreases |blocks| - b
  {
    var items := BlockItems(blocks[b], 4096 * b);
    if x in items {
      var k :| 0 <= k < |items| && items[k] == x;
      assert IsItem(blocks, b, k, x);
    } else {
      FromGenuine(blocks, b + 1, x);
    }
  }

  /**
   What comes next from an offset: the entries at that offset or behind it, all of them, unless the offset is behind
   the last entry of its block, or of the directory; then nothing.
   */
  lemma {:induction false} RestAtMeans(blocks: seq<seq<Dirent>>, off: nat, x: Item)
    requires NonEmpty(blocks)
    ensures x in RestAt(blocks, off) <==>
            && (exists c: nat, i: nat :: IsItem(blocks, c, i, x)) && x.at >= off
            && off / 4096 < |blocks| && off % 4096 <= 12 * (|blocks[off / 4096]| - 1)
  {
    var b, j := BlockOf(off), EntryOf(off);
    if b < |blocks| && j < |blocks[b]| {
      var items := BlockItems(blocks[b], 4096 * b);
      assert items[j..] + From(blocks, b + 1) == RestAt(blocks, off);
      if x in items[j..] {
        var k :| j <= k < |items| && items[k] == x;
        assert IsItem(blocks, b, k, x);
      } else if x in From(blocks, b + 1) {
        FromGenuine(blocks, b + 1, x);
      }
      if c: nat, i: nat :| IsItem(blocks, c, i, x) { ItemBehind(blocks, off, c, i, x); }
    }
  }

  lemma {:induction false} ItemBehind(blocks: seq<seq<Dirent>>, off: nat, c: nat, i: nat, x: Item)
    requires NonEmpty(blocks) && IsItem(blocks, c, i, x) && BlockOf(off) < |blocks|
    requires EntryOf(off) < |blocks[BlockOf(off)]|
    ensures x in RestAt(blocks, off) <==> x.at >= off
  {
    var b, j := BlockOf(off), EntryOf(off);
    InBlock(blocks, b, j, c, i, x);
    FromMeans(blocks, b + 1, c, i, x);
    assert |blocks[c]| <= 341 && 12 * i < 4096;
    assert off == 4096 * b + off % 4096;
    assert j <= i <==> off % 4096 <= 12 * i;
  }

  // ---------- listing a directory page by page ----------

  lemma {:induction false} OffsetSplits(b: nat, j: nat, off: nat)
    requires off == 4096 * b + 12 * j && j <= 341
    ensures BlockOf(off) == b && EntryOf(off) == j
  {
  }

  lemma {:induction false} RestAtPos(blocks: seq<seq<Dirent>>, b: nat, j: nat, off: nat)
    requires NonEmpty(blocks) && PosOk(blocks, b, j) && off == 4096 * b + 12 * j
    ensures RestAt(blocks, off) == Rest(blocks, b, j)
  {
    OffsetSplits(b, j, off);
  }

  lemma {:induction false} Cut(items: seq<Item>, behind: seq<Item>, j: nat, k: nat)
    requires j + k < |items|
    ensures (items[j..] + behind)[k] == items[j + k] && (items[j..] + behind)[k + 1..] == items[j + k + 1..] + behind
  {
    assert (items[j..] + behind)[k + 1..] == items[j..][k + 1..] + behind;
    assert items[j..][k + 1..] == items[j + k + 1..];
  }

  lemma {:induction false} CutBehind(items: seq<Item>, behind: seq<Item>, j: nat, k: nat, m: nat)
    requires j <= |items| <= j + k && m == k - (|items| - j) < |behind|
    ensures (items[j..] + behind)[k] == behind[m] && (items[j..] + behind)[k + 1..] == behind[m + 1..]
  {
  }

  lemma {:induction false} RestIs(blocks: seq<seq<Dirent>>, b: nat, j: nat)
    requires b < |blocks| && j < |blocks[b]|
    ensures Rest(blocks, b, j) == BlockItems(blocks[b], 4096 * b)[j..] + From(blocks, b + 1)
  {
  }

  lemma {:induction false} ItemNext(es: seq<Dirent>, start: nat, i: nat)
    requires i < |es|
    ensures BlockItems(es, start)[i].next == if i + 1 < |es| then start + 12 * (i + 1) else start + 4096
  {
  }

  lemma {:induction false} NextWithin(blocks: seq<seq<Dirent>>, b: nat, j: nat, k: nat, items: seq<Item>,
                                    behind: seq<Item>)
    requires b < |blocks| && j + k + 1 < |blocks[b]| == |items|
    requires items == BlockItems(blocks[b], 4096 * b) && behind == From(blocks, b + 1)
    ensures k < |Rest(blocks, b, j)| && Rest(blocks, b, j)[k] == items[j + k]
    ensures Rest(blocks, b, j + k + 1) == Rest(blocks, b, j)[k + 1..]
  {
    RestIs(blocks, b, j);
    RestIs(blocks, b, j + k + 1);
    Cut(items, behind, j, k);
  }

  lemma {:induction false} NextBlock(blocks: seq<seq<Dirent>>, b: nat, j: nat, k: nat, items: seq<Item>,
                                    behind: seq<Item>)
    requires NonEmpty(blocks) && b < |blocks| && j + k + 1 == |blocks[b]| == |items|
    requires items == BlockItems(blocks[b], 4096 * b) && behind == From(blocks, b + 1)
    ensures k < |Rest(blocks, b, j)| && Rest(blocks, b, j)[k] == items[j + k]
    ensures PosOk(blocks, b + 1, 0) && Rest(blocks, b + 1, 0) == Rest(blocks, b, j)[k + 1..]
  {
    RestIs(blocks, b, j);
    FromIsRest(blocks, b + 1);
    Cut(items, behind, j, k);
    assert items[j + k + 1..] + behind == behind;
  }

  lemma {:induction false} NextInside(blocks: seq<seq<Dirent>>, b: nat, j: nat, k: nat) returns (b': nat, j': nat)
    requires NonEmpty(blocks) && b < |blocks| && j + k < |blocks[b]|
    ensures k < |Rest(blocks, b, j)| && PosOk(blocks, b', j') && Rest(blocks, b, j)[k].next == 4096 * b' + 12 * j'
    ensures Rest(blocks, b', j') == Rest(blocks, b, j)[k + 1..]
  {
    var items, behind := BlockItems(blocks[b], 4096 * b), From(blocks, b + 1);
    ItemNext(blocks[b], 4096 * b, j + k);
    if j + k + 1 < |items| {
      NextWithin(blocks, b, j, k, items, behind);
      return b, j + k + 1;
    }
    NextBlock(blocks, b, j, k, items, behind);
    return b + 1, 0;
  }

  /** The offset that comes with an item leads to the items behind it. */
  lemma {:induction false} NextLeads(blocks: seq<seq<Dirent>>, b: nat, j: nat, k: nat) returns (b': nat, j': nat)
    requires NonEmpty(blocks) && PosOk(blocks, b, j) && k < |Rest(blocks, b, j)|
    ensures PosOk(blocks, b', j') && Rest(blocks, b, j)[k].next == 4096 * b' + 12 * j'
    ensures Rest(blocks, b', j') == Rest(blocks, b, j)[k + 1..]
    decreases |blocks| - b
  {
    if j + k < |blocks[b]| {
      b', j' := NextInside(blocks, b, j, k);
    } else {
      var items, behind := BlockItems(blocks[b], 4096 * b), From(blocks, b + 1);
      var m := k - (|items| - j);
      RestIs(blocks, b, j);
      FromIsRest(blocks, b + 1);
      CutBehind(items, behind, j, k, m);
      b', j' := NextLeads(blocks, b + 1, 0, m);
    }
  }

  /** Position behind the last item shown among the first `n`. */
  ghost function Resume(items: seq<Item>, n: nat, hidden: Hidden): (r: nat)
    requires n <= |items|
    ensures r <= n
  {
    if n == 0 then 0 else if !hidden(items[n - 1].d) then n else Resume(items, n - 1, hidden)
  }

  lemma {:induction false} ResumeShows(items: seq<Item>, n: nat, hidden: Hidden)
    requires n <= |items|
    ensures Shown(items[..Resume(items, n, hidden)], hidden) == Shown(items[..n], hidden)
    ensures var r := Resume(items, n, hidden); var page := Shown(items[..n], hidden);
            if r == 0 then page == [] else page != [] && page[|page| - 1] == items[r - 1]
  {
    if n > 0 {
      WalkStep(items, n - 1, hidden);
      if hidden(items[n - 1].d) { ResumeShows(items, n - 1, hidden); }
    }
  }

  /** All pages one after the other, each from the offset of the last item before it; an empty page ends the listing. */
  ghost function Listing(blocks: seq<seq<Dirent>>, off: nat, rooms: seq<nat>, cost: Cost, hidden: Hidden): seq<Item>
    decreases |rooms|
  {
    if rooms == [] then [] else
    var page := Page(RestAt(blocks, off), rooms[0], cost, hidden);
    if page == [] then [] else page + Listing(blocks, page[|page| - 1].next, rooms[1..], cost, hidden)
  }

  /** Every page has room for whichever entry is shown first. */
  ghost predicate RoomForOne(items: seq<Item>, rooms: seq<nat>, cost: Cost, hidden: Hidden) {
    forall i, r {:trigger items[i], rooms[r]} :: 0 <= i < |items| && 0 <= r < |rooms| && !hidden(items[i].d) ==>
      cost(items[i].d) <= rooms[r]
  }

  lemma {:induction false} PageHolds(items: seq<Item>, room: nat, cost: Cost, hidden: Hidden)
    requires Shown(items, hidden) != []
    requires forall i {:trigger items[i]} :: 0 <= i < |items| && !hidden(items[i].d) ==> cost(items[i].d) <= room
    ensures Page(items, room, cost, hidden) != []
  {
    var n := Walk(items, room, cost, hidden).n;
    if hidden(items[0].d) {
      PageHolds(items[1..], room, cost, hidden);
      assert items[..n][1..] == items[1..][..n - 1];
    }
  }

  /** One page splits what is to be shown, and its last offset leads to the rest. */
  lemma {:induction false} PageSplits(blocks: seq<seq<Dirent>>, b: nat, j: nat, room: nat, page: seq<Item>, cost: Cost,
                                    hidden: Hidden)
    returns (b': nat, j': nat, r: nat)
    requires NonEmpty(blocks) && PosOk(blocks, b, j) && page == Page(Rest(blocks, b, j), room, cost, hidden) != []
    ensures PosOk(blocks, b', j') && page[|page| - 1].next == 4096 * b' + 12 * j'
    ensures Shown(Rest(blocks, b, j), hidden) == page + Shown(Rest(blocks, b', j'), hidden)
    ensures r <= |Rest(blocks, b, j)| && Rest(blocks, b', j') == Rest(blocks, b, j)[r..]
  {
    var all := Rest(blocks, b, j);
    var n := Walk(all, room, cost, hidden).n;
    r := Resume(all, n, hidden);
    ResumeShows(all, n, hidden);
    b', j' := NextLeads(blocks, b, j, r - 1);
    assert all == all[..r] + all[r..];
    ShownJoin(all[..r], all[r..], hidden);
  }

  lemma {:induction false} ListingStep(blocks: seq<seq<Dirent>>, off: nat, items: seq<Item>, rooms: seq<nat>,
                                    page: seq<Item>, next: nat, cost: Cost, hidden: Hidden)
    requires rooms != [] && items == RestAt(blocks, off) && page == Page(items, rooms[0], cost, hidden)
    requires page != [] ==> next == page[|page| - 1].next
    ensures Listing(blocks, off, rooms, cost, hidden) == if page == [] then [] else
              page + Listing(blocks, next, rooms[1..], cost, hidden)
  {
  }

  /** Whatever the sizes of the pages, nothing is listed twice, out of order or without being stored. */
  lemma {:induction false} ListingSound(blocks: seq<seq<Dirent>>, b: nat, j: nat, off: nat, rooms: seq<nat>, cost: Cost,
                                    hidden: Hidden)
    requires NonEmpty(blocks) && PosOk(blocks, b, j) && off == 4096 * b + 12 * j
    ensures Listing(blocks, off, rooms, cost, hidden) <= Shown(Rest(blocks, b, j), hidden)
    decreases |rooms|
  {
    RestAtPos(blocks, b, j, off);
    if rooms != [] {
      var all := Rest(blocks, b, j);
      var page := Page(all, rooms[0], cost, hidden);
      if page == [] {
        ListingStep(blocks, off, all, rooms, page, 0, cost, hidden);
      } else {
        var b', j', r := PageSplits(blocks, b, j, rooms[0], page, cost, hidden);
        var next := 4096 * b' + 12 * j';
        ListingStep(blocks, off, all, rooms, page, next, cost, hidden);
        ListingSound(blocks, b', j', next, rooms[1..], cost, hidden);
      }
    }
  }

  /** When every page has room for an entry, enough pages list everything. */
  lemma {:induction false} ListingComplete(blocks: seq<seq<Dirent>>, b: nat, j: nat, off: nat, rooms: seq<nat>,
        cost: Cost, hidden: Hidden)
    requires NonEmpty(blocks) && PosOk(blocks, b, j) && off == 4096 * b + 12 * j
    requires RoomForOne(Rest(blocks, b, j), rooms, cost, hidden) && |rooms| >= |Shown(Rest(blocks, b, j), hidden)|
    ensures Listing(blocks, off, rooms, cost, hidden) == Shown(Rest(blocks, b, j), hidden)
    decreases |rooms|
  {
    RestAtPos(blocks, b, j, off);
    if rooms != [] {
      var all := Rest(blocks, b, j);
      var page := Page(all, rooms[0], cost, hidden);
      if Shown(all, hidden) == [] {
        NothingShown(all, rooms[0], cost, hidden);
        ListingStep(blocks, off, all, rooms, page, 0, cost, hidden);
      } else {
        PageHolds(all, rooms[0], cost, hidden);
        var b', j', r := PageSplits(blocks, b, j, rooms[0], page, cost, hidden);
        var next := 4096 * b' + 12 * j';
        ListingStep(blocks, off, all, rooms, page, next, cost, hidden);
        RoomKept(all, r, rooms, cost, hidden);
        ListingComplete(blocks, b', j', next, rooms[1..], cost, hidden);
      }
    }
  }

  lemma {:induction false} RoomKept(items: seq<Item>, r: nat, rooms: seq<nat>, cost: Cost, hidden: Hidden)
    requires RoomForOne(items, rooms, cost, hidden) && r <= |items| && rooms != []
    ensures RoomForOne(items[r..], rooms[1..], cost, hidden)
  {
  }

  /** When nothing is left to show the page is empty, which ends the listing. */
  lemma {:induction false} NothingShown(items: seq<Item>, room: nat, cost: Cost, hidden: Hidden)
    requires Shown(items, hidden) == []
    ensures Page(items, room, cost, hidden) == []
  {
    var n := Walk(items, room, cost, hidden).n;
    assert items == items[..n] + items[n..];
    ShownJoin(items[..n], items[n..], hidden);
  }
}
