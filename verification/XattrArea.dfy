/**
 The attribute area behind an inode: a 12-byte header with the number of shared attributes, their indexes
 into the shared table, and the entries only this inode has.
 */
module XattrArea {
  import opened Common
  import opened Bytes
  import opened Xattrs

  // ---------- writing ----------

  ghost function Indexes(ids: seq<nat>): (p: seq<bytes>)
    ensures |p| == |ids|
  {
    seq(|ids|, i requires 0 <= i < |ids| => LE(ids[i], 4))
  }

  function HeaderBytes(filter: nat, count: nat): (b: bytes)
    ensures |b| == 12
  {
    LE(filter, 4) + [count % 256] + Zeros(7)
  }

  /** The area; without attributes there is none. */
  ghost function AreaBytes(filter: nat, ids: seq<nat>, es: seq<Stored>): (b: bytes) {
    if ids == [] && es == [] then [] else HeaderBytes(filter, |ids|) + Flat(Indexes(ids)) + Flat(Encoded(es))
  }

  /** What the layout reserves for it. */
  function AreaSize(shared: nat, unsharedSize: nat): (n: nat)
    ensures n % 4 == 0
  {
    if shared == 0 && unsharedSize == 0 then 0 else RoundUp(12 + 4 * shared + unsharedSize, 4)
  }

  /** The unit in which the inode records the size, and the size the reader works out from it. */
  function Icount(size: nat): (n: int) {
    if size == 0 then 0 else (size - 12) / 4 + 1
  }

  function AreaSizeOf(icount: nat): nat {
    if icount == 0 then 0 else 12 + (icount - 1) * 4
  }

  lemma {:induction false} IcountRoundTrip(shared: nat, unsharedSize: nat)
    requires unsharedSize % 4 == 0
    ensures var size := AreaSize(shared, unsharedSize);
            Icount(size) >= 0 && AreaSizeOf(Icount(size)) == size && (Icount(size) == 0 <==>
              shared == 0 && unsharedSize == 0)
  {
    if shared != 0 || unsharedSize != 0 {
      assert (12 + 4 * shared + unsharedSize) % 4 == 0;
    }
  }

  lemma {:induction false} FlatMultiple(parts: seq<bytes>)
    requires forall i {:trigger parts[i]} :: 0 <= i < |parts| ==> |parts[i]| % 4 == 0
    ensures |Flat(parts)| % 4 == 0
  {
    if parts != [] { FlatMultiple(parts[..|parts| - 1]); }
  }

  lemma {:induction false} EncodedMultiple(es: seq<Stored>)
    ensures |Flat(Encoded(es))| % 4 == 0 && (es != [] ==> |Flat(Encoded(es))| >= 4)
  {
    FlatMultiple(Encoded(es));
    if es != [] { FlatSlice(Encoded(es), 0); }
  }

  /** The area has the size the layout reserved. */
  lemma {:induction false} AreaLength(filter: nat, ids: seq<nat>, es: seq<Stored>)
    ensures |AreaBytes(filter, ids, es)| == AreaSize(|ids|, |Flat(Encoded(es))|)
  {
    var n, m := |ids|, |Flat(Encoded(es))|;
    assert |Flat(Indexes(ids))| == 4 * n by { FlatUniform(Indexes(ids), 4); }
    assert m % 4 == 0 && (es != [] ==> m > 0) by { EncodedMultiple(es); }
    AreaSizeIs(n, m);
  }

  lemma {:induction false} AreaSizeIs(shared: nat, unsharedSize: nat)
    requires unsharedSize % 4 == 0
    ensures AreaSize(shared, unsharedSize) == if shared == 0 && unsharedSize == 0 then 0 else
              12 + 4 * shared + unsharedSize
  {
    assert (12 + 4 * shared + unsharedSize) % 4 == 0;
  }

  // ---------- reading ----------

  /** The first `k` shared attributes: index `k` is stored at `o + 4 * k` and counts 4-byte units from `table`. */
  function DecodeShared(read: EntryReader, img: bytes, o: nat, table: nat,
                              k: nat): (r: Result<seq<Stored>, XattrError>) {
    if k == 0 then Ok([]) else
    var front := DecodeShared(read, img, o, table, k - 1);
    if front.Err? then front else
    if |img| < o + 4 * (k - 1) + 4 then Err(OutOfBounds) else
    var e := read(table + 4 * Num(img, o + 4 * (k - 1), 4));
    if e.Err? then Err(e.error) else Ok(front.value + [e.value.e])
  }

  lemma {:induction false} SharedErrorStays(read: EntryReader, img: bytes, o: nat, table: nat, j: nat, k: nat)
    requires j <= k && DecodeShared(read, img, o, table, j).Err?
    ensures DecodeShared(read, img, o, table, k) == DecodeShared(read, img, o, table, j)
    decreases k
  {
    if j < k { SharedErrorStays(read, img, o, table, j, k - 1); }
  }

  method ReadShared(read: EntryReader, img: bytes, o: nat, table: nat, n: nat)
    returns (r: Result<seq<Stored>, XattrError>)
    ensures r == DecodeShared(read, img, o, table, n)
  {
    var es := [];
    for i := 0 to n
      invariant DecodeShared(read, img, o, table, i) == Ok(es)
    {
      if |img| < o + 4 * i + 4 {
        SharedErrorStays(read, img, o, table, i + 1, n);
        return Err(OutOfBounds);
      }
      var e := read(table + 4 * Num(img, o + 4 * i, 4));
      if e.Err? {
        SharedErrorStays(read, img, o, table, i + 1, n);
        return Err(e.error);
      }
      es := es + [e.value.e];
    }
    return Ok(es);
  }

  function DecodeArea(read: EntryReader, img: bytes, o: nat, size: nat,
                            table: nat): (r: Result<seq<Stored>, XattrError>) {
    if size == 0 then Ok([]) else
    if |img| < o + 12 then Err(OutOfBounds) else
    var count: nat := img[o + 4];
    var inline := DecodeInline(read, o + 12 + 4 * count, o + size);
    if inline.Err? then inline else
    Behind(inline.value, DecodeShared(read, img, o + 12, table, count))
  }

  method ReadArea(read: EntryReader, img: bytes, o: nat, size: nat, table: nat)
    returns (r: Result<seq<Stored>, XattrError>)
    ensures r == DecodeArea(read, img, o, size, table)
  {
    if size == 0 { return Ok([]); }
    if |img| < o + 12 { return Err(OutOfBounds); }
    var count: nat := img[o + 4];
    var inline := ReadInline(read, o + 12 + 4 * count, o + size);
    if inline.Err? { return inline; }
    var shared := ReadShared(read, img, o + 12, table, count);
    if shared.Err? { return shared; }
    return Ok(inline.value + shared.value);
  }

  // ---------- reading back ----------

  /** Every index leads to its attribute in the table. */
  ghost predicate Leads(read: EntryReader, table: nat, ids: seq<nat>, shared: seq<Stored>) {
    && |ids| == |shared|
    && forall i {:trigger ids[i]} :: 0 <= i < |ids| ==>
         ids[i] < 0x1_0000_0000 && read(table + 4 * ids[i]) == Ok(Sized(shared[i], EntrySize(shared[i])))
  }

  lemma {:induction false} WordAt(img: bytes, o: nat, parts: seq<bytes>, i: nat)
    requires At(img, o, Flat(parts)) && i < |parts|
    requires forall k {:trigger parts[k]} :: 0 <= k < |parts| ==> |parts[k]| == 4
    ensures At(img, o + 4 * i, parts[i])
  {
    AtFlat(parts, i);
    FlatUniform(parts[..i], 4);
    AtInside(img, o, Flat(parts), 4 * i, parts[i]);
  }

  lemma {:induction false} IndexAt(img: bytes, o: nat, ids: seq<nat>, i: nat)
    requires At(img, o, Flat(Indexes(ids))) && i < |ids| && ids[i] < 0x1_0000_0000
    ensures o + 4 * i + 4 <= |img| && Num(img, o + 4 * i, 4) == ids[i]
  {
    WordAt(img, o, Indexes(ids), i);
    AtNum(img, o + 4 * i, ids[i], 4);
    Widths();
  }

  lemma {:induction false} SharedRoundTrip(read: EntryReader, img: bytes, o: nat, table: nat, ids: seq<nat>,
        shared: seq<Stored>, k: nat)
    requires At(img, o, Flat(Indexes(ids))) && Leads(read, table, ids, shared) && k <= |ids|
    ensures DecodeShared(read, img, o, table, k) == Ok(shared[..k])
    decreases k
  {
    if k > 0 {
      SharedRoundTrip(read, img, o, table, ids, shared, k - 1);
      IndexAt(img, o, ids, k - 1);
      assert shared[..k] == shared[..k - 1] + [shared[k - 1]];
    }
  }

  lemma {:induction false} AreaParts(img: bytes, o: nat, filter: nat, ids: seq<nat>, es: seq<Stored>)
    requires At(img, o, AreaBytes(filter, ids, es)) && (ids != [] || es != []) && |ids| < 256
    ensures o + 12 <= |img| && img[o + 4] == |ids|
    ensures At(img, o + 12, Flat(Indexes(ids))) && At(img, o + 12 + 4 * |ids|, Flat(Encoded(es)))
  {
    var h, i, e := HeaderBytes(filter, |ids|), Flat(Indexes(ids)), Flat(Encoded(es));
    FlatUniform(Indexes(ids), 4);
    AtJoin(img, o, h + i, e);
    AtJoin(img, o, h, i);
    AtJoin(img, o, LE(filter, 4) + [|ids| % 256], Zeros(7));
    AtJoin(img, o, LE(filter, 4), [|ids| % 256]);
    assert img[o + 4] == img[o + 4..o + 5][0];
  }

  lemma {:induction false} AreaIs(read: EntryReader, img: bytes, o: nat, size: nat, table: nat, count: nat,
                                  es: seq<Stored>, shared: seq<Stored>)
    requires size > 0 && o + 12 <= |img| && img[o + 4] == count
    requires DecodeInline(read, o + 12 + 4 * count, o + size) == Ok(es)
    requires DecodeShared(read, img, o + 12, table, count) == Ok(shared)
    ensures DecodeArea(read, img, o, size, table) == Ok(es + shared)
  {
  }

  lemma {:induction false} AreaFound(read: EntryReader, img: bytes, o: nat, size: nat, table: nat, ids: seq<nat>,
                                    es: seq<Stored>, shared: seq<Stored>)
    requires size > 0 && o + 12 <= |img| && img[o + 4] == |ids| && At(img, o + 12, Flat(Indexes(ids)))
    requires Sees(read, o + 12 + 4 * |ids|, es, o + size) && Leads(read, table, ids, shared)
    ensures DecodeArea(read, img, o, size, table) == Ok(Visible(es) + shared)
  {
    assert DecodeInline(read, o + 12 + 4 * |ids|, o + size) == Ok(Visible(es)) by {
      InlineRoundTrip(read, o + 12 + 4 * |ids|, es, o + size);
    }
    assert DecodeShared(read, img, o + 12, table, |ids|) == Ok(shared) by {
      SharedRoundTrip(read, img, o + 12, table, ids, shared, |ids|);
      assert shared[..|ids|] == shared;
    }
    AreaIs(read, img, o, size, table, |ids|, Visible(es), shared);
  }

  /** Sharing is invisible to the reader: it gets the unshared entries, but for a bare last one, and the shared ones. */
  lemma {:induction false} AreaRoundTrip(read: EntryReader, img: bytes, o: nat, size: nat, table: nat, filter: nat,
        ids: seq<nat>, es: seq<Stored>, shared: seq<Stored>)
    requires Reads(read, img) && At(img, o, AreaBytes(filter, ids, es)) && |ids| < 256 && AllFit(es)
    requires size == |AreaBytes(filter, ids, es)| && Leads(read, table, ids, shared)
    ensures DecodeArea(read, img, o, size, table) == Ok(Visible(es) + shared)
  {
    if ids == [] && es == [] {
      assert Visible(es) + shared == [];
    } else {
      AreaSeen(read, img, o, filter, ids, es);
      AreaParts(img, o, filter, ids, es);
      assert o + size == o + 12 + 4 * |ids| + |Flat(Encoded(es))| by { FlatUniform(Indexes(ids), 4); }
      AreaFound(read, img, o, size, table, ids, es, shared);
    }
  }

  lemma {:induction false} AreaSeen(read: EntryReader, img: bytes, o: nat, filter: nat, ids: seq<nat>, es: seq<Stored>)
    requires Reads(read, img) && At(img, o, AreaBytes(filter, ids, es)) && |ids| < 256 && AllFit(es)
    requires (ids != [] || es != [])
    ensures Sees(read, o + 12 + 4 * |ids|, es, o + 12 + 4 * |ids| + |Flat(Encoded(es))|)
  {
    AreaParts(img, o, filter, ids, es);
    EncodedSeen(read, img, o + 12 + 4 * |ids|, es, o + 12 + 4 * |ids| + |Flat(Encoded(es))|);
  }
}
