/** The payload of a file, which the loader takes from an attribute without minding where its value ends. */
module PayloadReturn {
  import opened Common
  import opened Bytes
  import opened Layout
  import opened ImageLayout
  import opened Xattrs
  import opened Escaping
  import opened SharedXattrs
  import opened XattrArea
  import opened NodeXattrs
  import opened ErofsNode
  import opened NodeReader
  import opened ErofsImage

  /** At most `n` bytes from `o` on, up to the first that is zero. */
  function StringAt(b: bytes, o: nat, n: nat): bytes
    decreases n
  {
    if n == 0 || o >= |b| || b[o] == 0 then [] else [b[o]] + StringAt(b, o + 1, n - 1)
  }

  /** What becomes of a redirect: a leading slash is passed over, and the length grows where it should shrink. */
  function ReadPayload(b: bytes, o: nat, size: nat): bytes {
    if size > 1 && o < |b| && b[o] == 47 then StringAt(b, o + 1, size + 1) else StringAt(b, o, size)
  }

  lemma {:induction false} StringStarts(b: bytes, o: nat, x: bytes, n: nat)
    requires At(b, o, x) && 0 !in x && |x| <= n
    ensures StringAt(b, o, n) == x + StringAt(b, o + |x|, n - |x|)
    decreases |x|
  {
    if x == [] {
      assert x + StringAt(b, o, n) == StringAt(b, o, n);
    } else {
      assert x == [x[0]] + x[1..];
      AtJoin(b, o, [x[0]], x[1..]);
      assert b[o] == b[o..o + 1][0] == x[0];
      StringStarts(b, o + 1, x[1..], n - 1);
      assert x + StringAt(b, o + |x|, n - |x|) == [x[0]] + (x[1..] + StringAt(b, o + |x|, n - |x|));
    }
  }

  /** A payload comes back exactly when a zero byte happens to follow its attribute. */
  lemma {:induction false} PayloadExact(b: bytes, o: nat, payload: bytes)
    requires payload != [] && 0 !in payload && At(b, o, [47] + payload) && o + 1 + |payload| < |b|
    ensures ReadPayload(b, o, 1 + |payload|) == payload <==> b[o + 1 + |payload|] == 0
  {
    AtJoin(b, o, [47], payload);
    assert b[o] == b[o..o + 1][0] == 47;
    StringStarts(b, o + 1, payload, 2 + |payload|);
    var more := StringAt(b, o + 1 + |payload|, 2);
    assert more == [] <==> b[o + 1 + |payload|] == 0;
    assert |payload + more| == |payload| + |more|;
    assert payload + [] == payload;
  }

  /** The payload "abc" in front of a chunk index comes back two bytes longer. */
  lemma {:induction false} PayloadGrows()
    ensures ReadPayload([47, 97, 98, 99, 255, 255, 255, 255], 0, 4) == [97, 98, 99, 255, 255]
  {
    var b: bytes := [47, 97, 98, 99, 255, 255, 255, 255];
    var x: bytes := [97, 98, 99, 255, 255];
    assert b[1..6] == x;
    StringStarts(b, 1, x, 5);
    assert StringAt(b, 6, 0) == [] && x + [] == x;
  }

  function RedirectEntry(payload: bytes): Stored { Store(Xattr(Redirect(), [47] + payload)) }

  lemma {:induction false} RedirectStored(payload: bytes)
    ensures var e := RedirectEntry(payload); |e.rest| == 16 && e.value == [47] + payload
    ensures EntryLength(RedirectEntry(payload)) == 21 + |payload|
  {
    assert Redirect() == Trusted() + (Word() + Ascii("redirect"));
    TrustedIndex(Redirect());
  }

  lemma {:induction false} Padding(n: nat)
    ensures RoundUp(21 + n, 4) == 21 + n <==> n % 4 == 3
    ensures 21 + n <= RoundUp(21 + n, 4)
  {
  }

  lemma {:induction false} FirstByte(b: bytes, o: nat, x: bytes)
    requires At(b, o, x) && x != []
    ensures o < |b| && b[o] == x[0]
  {
    assert b[o] == b[o..o + |x|][0];
  }

  /** An entry that does not fill its last word is followed by a zero byte. */
  lemma {:induction false} PaddingAt(img: bytes, at: nat, e: Stored)
    requires At(img, at, EntryBytes(e)) && EntrySize(e) > EntryLength(e)
    ensures at + EntryLength(e) < |img| && img[at + EntryLength(e)] == 0
  {
    var z := Zeros(EntrySize(e) - EntryLength(e));
    AtJoin(img, at, EntryHead(e) + e.rest + e.value, z);
    FirstByte(img, at + EntryLength(e), z);
  }

  /** Where the value is, and what stands behind it in the entry. */
  lemma {:induction false} ValueAt(img: bytes, at: nat, payload: bytes, e: Stored)
    requires At(img, at, EntryBytes(e)) && |e.rest| == 16 && e.value == [47] + payload
    ensures At(img, at + 20, [47] + payload) && EntrySize(e) == RoundUp(21 + |payload|, 4)
    ensures |payload| % 4 != 3 ==> at + 21 + |payload| < |img| && img[at + 21 + |payload|] == 0
  {
    EntryParts(img, at, e);
    Padding(|payload|);
    if |payload| % 4 != 3 { PaddingAt(img, at, e); }
  }

  /** The entry of a redirect, in front of whatever follows it in the image. */
  lemma {:induction false} PayloadBefore(img: bytes, at: nat, payload: bytes, e: Stored)
    requires payload != [] && 0 !in payload && At(img, at, EntryBytes(e)) && |e.rest| == 16 && e.value == [47] + payload
    requires at + EntrySize(e) < |img|
    ensures ReadPayload(img, at + 20, 1 + |payload|) == payload <==> |payload| % 4 != 3 || img[at + EntrySize(e)] == 0
  {
    ValueAt(img, at, payload, e);
    Padding(|payload|);
    PayloadExact(img, at + 20, payload);
  }

  // ---------- in an image ----------

  /** Attribute `k` of the inode's own is the redirect of a file whose content is elsewhere. */
  ghost predicate OwnRedirect(p: Plan, i: nat, k: nat, payload: bytes) {
    && AllWritten(p) && i < |p.nodes| && p.nodes[i].body.External? && p.c.store == Store
    && |p.slots[i]| == |p.nodes[i].xattrs| && k < |Unshared(p.nodes[i].xattrs, p.slots[i])|
    && Unshared(p.nodes[i].xattrs, p.slots[i])[k] == Xattr(Redirect(), [47] + payload)
    && payload != [] && 0 !in payload
  }

  lemma {:induction false} OffsetNext(parts: seq<bytes>, k: nat)
    requires k < |parts|
    ensures Offset(parts, k) + |parts[k]| == if k + 1 < |parts| then Offset(parts, k + 1) else |Flat(parts)|
  {
    FlatSlice(parts, k);
    assert parts[..|parts|] == parts;
  }

  /** What follows one of the inode's own attributes: the next one, or what is stored behind the inode. */
  lemma {:induction false} ByteBehind(img: bytes, start: nat, es: seq<Stored>, k: nat, tail: bytes)
    requires At(img, start, Flat(Encoded(es))) && k < |es| && AllFit(es)
    requires At(img, start + |Flat(Encoded(es))|, tail) && (k + 1 < |es| || tail != [])
    ensures At(img, start + Offset(Encoded(es), k), EntryBytes(es[k]))
    ensures var o := start + Offset(Encoded(es), k) + EntrySize(es[k]);
            o < |img| && img[o] == if k + 1 < |es| then |es[k + 1].rest| else tail[0]
  {
    var parts := Encoded(es);
    EncodedAt(img, start, es, k);
    OffsetNext(parts, k);
    if k + 1 < |es| {
      EncodedAt(img, start, es, k + 1);
      EntryParts(img, start + Offset(parts, k + 1), es[k + 1]);
      HeadAt(img, start + Offset(parts, k + 1), es[k + 1]);
    } else {
      FirstByte(img, start + |Flat(parts)|, tail);
    }
  }

  lemma {:induction false} AreaEntries(img: bytes, o: nat, xs: seq<Xattr>, slots: seq<Option<nat>>,
                                       offsets: map<Xattr, nat>, filter: nat, inodesEnd: nat) returns (start: nat)
    requires Assigned(xs, offsets, slots) && Unshared(xs, slots) != []
    requires At(img, o, AreaOf(xs, slots, Store, filter, inodesEnd))
    ensures var b := Flat(Encoded(StoredAll(Unshared(xs, slots), Store)));
            At(img, start, b) && start + |b| == o + |AreaOf(xs, slots, Store, filter, inodesEnd)|
  {
    var ids, es := Ids(slots, inodesEnd), StoredAll(Unshared(xs, slots), Store);
    SharedCount(xs, slots);
    TakenBound(xs, offsets, slots, |xs|);
    assert slots[..|xs|] == slots;
    AreaParts(img, o, filter, ids, es);
    FlatUniform(Indexes(ids), 4);
    start := o + 12 + 4 * |ids|;
  }

  ghost predicate IsRedirect(e: Stored, payload: bytes) {
    |e.rest| == 16 && e.value == [47] + payload && payload != [] && 0 !in payload
  }

  /** Entry `k` is at `at`, and the loader gets the payload from it in these cases. */
  ghost predicate EntryGives(img: bytes, at: nat, es: seq<Stored>, k: nat, payload: bytes) {
    && k < |es| && At(img, at, EntryBytes(es[k]))
    && (ReadPayload(img, at + 20, 1 + |payload|) == payload <==>
        |payload| % 4 != 3 || (k + 1 < |es| && es[k + 1].rest == []))
  }

  /** Among the entries of an inode. */
  lemma {:induction false} EntryReturns(img: bytes, start: nat, es: seq<Stored>, k: nat, tail: bytes, payload: bytes)
    returns (at: nat)
    requires At(img, start, Flat(Encoded(es))) && k < |es| && AllFit(es) && IsRedirect(es[k], payload)
    requires At(img, start + |Flat(Encoded(es))|, tail) && (k + 1 < |es| || (tail != [] && tail[0] == 255))
    ensures EntryGives(img, at, es, k, payload)
  {
    ByteBehind(img, start, es, k, tail);
    at := start + Offset(Encoded(es), k);
    PayloadBefore(img, at, payload, es[k]);
  }

  lemma {:induction false} OwnIs(xs: seq<Xattr>, k: nat, payload: bytes)
    requires k < |xs| && xs[k] == Xattr(Redirect(), [47] + payload) && payload != [] && 0 !in payload
    ensures IsRedirect(StoredAll(xs, Store)[k], payload)
  {
    RedirectStored(payload);
  }

  lemma {:induction false} NullTail(w: Written)
    requires WrittenShape(w) && w.n.body.External? && w.pl.tail > 0 && w.pl.tail == |TailOf(w.n.body, w.ds, w.pl)|
    ensures var tail := TailOf(w.n.body, w.ds, w.pl); tail != [] && tail[0] == 255
  {
  }

  /** The entries that the inode has to itself, and what is behind them. */
  ghost predicate OwnAt(img: bytes, start: nat, es: seq<Stored>, tail: bytes) {
    At(img, start, Flat(Encoded(es))) && At(img, start + |Flat(Encoded(es))|, tail) && AllFit(es)
  }

  lemma {:induction false} OwnInArea(img: bytes, o: nat, xs: seq<Xattr>, slots: seq<Option<nat>>,
                                     offsets: map<Xattr, nat>, filter: nat, inodesEnd: nat, tail: bytes)
    returns (start: nat)
    requires Assigned(xs, offsets, slots) && Unshared(xs, slots) != [] && AllFit(StoredAll(xs, Store))
    requires At(img, o, AreaOf(xs, slots, Store, filter, inodesEnd))
    requires At(img, o + |AreaOf(xs, slots, Store, filter, inodesEnd)|, tail)
    ensures OwnAt(img, start, StoredAll(Unshared(xs, slots), Store), tail)
  {
    start := AreaEntries(img, o, xs, slots, offsets, filter, inodesEnd);
    UnsharedFit(xs, slots, Store);
  }

  /** The area and the tail of an inode stand one behind the other. */
  lemma {:induction false} BehindArea(c: Setting, w: Written, img: bytes)
    requires WrittenShape(w) && w.n.body.External?
    requires LandedOne(img, WrittenPiece(c, w), WrittenSizes(c, w), w.pl, w.dataAt)
    requires Fills(WrittenPiece(c, w), WrittenSizes(c, w), w.pl)
    ensures At(img, w.pl.pos + InodeSize(w.compact), WrittenArea(c, w))
    ensures At(img, w.pl.pos + InodeSize(w.compact) + |WrittenArea(c, w)|, TailOf(w.n.body, w.ds, w.pl))
    ensures |TailOf(w.n.body, w.ds, w.pl)| == w.pl.tail
  {
  }

  lemma {:induction false} OwnWritten(c: Setting, w: Written, img: bytes) returns (start: nat, tail: bytes)
    requires WrittenOk(c, w) && w.n.body.External? && c.store == Store && Unshared(w.n.xattrs, w.slots) != []
    requires LandedOne(img, WrittenPiece(c, w), WrittenSizes(c, w), w.pl, w.dataAt)
    requires Fills(WrittenPiece(c, w), WrittenSizes(c, w), w.pl)
    ensures OwnAt(img, start, StoredAll(Unshared(w.n.xattrs, w.slots), Store), tail)
    ensures w.pl.tail > 0 ==> tail != [] && tail[0] == 255
  {
    BehindArea(c, w, img);
    tail := TailOf(w.n.body, w.ds, w.pl);
    start := OwnInArea(img, w.pl.pos + InodeSize(w.compact), w.n.xattrs, w.slots, c.offsets, w.filter, c.inodesEnd,
                       tail);
    if w.pl.tail > 0 { NullTail(w); }
  }

  lemma {:induction false} GivesAt(img: bytes, start: nat, es: seq<Stored>, k: nat, tail: bytes, payload: bytes)
    returns (at: nat)
    requires OwnAt(img, start, es, tail) && k < |es| && IsRedirect(es[k], payload)
    requires k + 1 < |es| || (tail != [] && tail[0] == 255)
    ensures EntryGives(img, at, es, k, payload)
  {
    at := EntryReturns(img, start, es, k, tail, payload);
  }

  lemma {:induction false} WrittenGives(c: Setting, w: Written, img: bytes, k: nat, payload: bytes) returns (at: nat)
    requires WrittenOk(c, w) && w.n.body.External? && c.store == Store && k < |Unshared(w.n.xattrs, w.slots)|
    requires LandedOne(img, WrittenPiece(c, w), WrittenSizes(c, w), w.pl, w.dataAt)
    requires Fills(WrittenPiece(c, w), WrittenSizes(c, w), w.pl)
    requires k + 1 < |Unshared(w.n.xattrs, w.slots)| || w.pl.tail > 0
    requires IsRedirect(StoredAll(Unshared(w.n.xattrs, w.slots), Store)[k], payload)
    ensures EntryGives(img, at, StoredAll(Unshared(w.n.xattrs, w.slots), Store), k, payload)
  {
    var start, tail := OwnWritten(c, w, img);
    at := GivesAt(img, start, StoredAll(Unshared(w.n.xattrs, w.slots), Store), k, tail, payload);
  }

  lemma {:induction false} PlannedGives(p: Plan, prefix: bytes, i: nat, k: nat, payload: bytes) returns (at: nat)
    requires Planned(p) && ImageSize(p) < 0x1_0000_0000 && |prefix| == INODES_START && AllWritten(p) && i < |p.nodes|
    requires p.c.store == Store && p.nodes[i].body.External? && |p.slots[i]| == |p.nodes[i].xattrs|
    requires k < |Unshared(p.nodes[i].xattrs, p.slots[i])|
    requires k + 1 < |Unshared(p.nodes[i].xattrs, p.slots[i])| || p.ps[i].tail > 0
    requires IsRedirect(StoredAll(Unshared(p.nodes[i].xattrs, p.slots[i]), Store)[k], payload)
    ensures EntryGives(ImageOf(p, prefix), at, StoredAll(Unshared(p.nodes[i].xattrs, p.slots[i]), Store), k, payload)
  {
    PlanLandsAt(p, prefix, i);
    PieceFills(p, i);
    at := WrittenGives(p.c, WrittenOf(p, i), ImageOf(p, prefix), k, payload);
  }

  /**
   The redirect that an inode has to itself gives the payload back unless its entry fills whole words; then the first
   byte of what follows has to be zero, which is the length of a name, or belongs to a chunk index.
   */
  lemma {:induction false} PayloadReturns(p: Plan, prefix: bytes, i: nat, k: nat, payload: bytes) returns (at: nat)
    requires Planned(p) && ImageSize(p) < 0x1_0000_0000 && |prefix| == INODES_START && OwnRedirect(p, i, k, payload)
    requires k + 1 < |Unshared(p.nodes[i].xattrs, p.slots[i])| || p.ps[i].tail > 0
    ensures EntryGives(ImageOf(p, prefix), at, StoredAll(Unshared(p.nodes[i].xattrs, p.slots[i]), Store), k, payload)
  {
    OwnIs(Unshared(p.nodes[i].xattrs, p.slots[i]), k, payload);
    at := PlannedGives(p, prefix, i, k, payload);
  }
}
