/** Where the attributes of an inode stand in the image, in numbers. */
module AttrFormat {
  import opened Common
  import opened Bytes
  import opened Xattrs
  import opened XattrArea
  import opened SharedXattrs
  import opened NodeXattrs

  /** An entry by offset: length of the name, number of the prefix, length of the value, name, value, zeros up to 4. */
  ghost predicate IsEntry(img: bytes, o: nat, e: Stored, size: nat) {
    && o + size <= |img| && size % 4 == 0 && 4 + |e.rest| + |e.value| <= size < 8 + |e.rest| + |e.value|
    && img[o] == |e.rest| && img[o + 1] == e.index && Num(img, o + 2, 2) == |e.value|
    && At(img, o + 4, e.rest) && At(img, o + 4 + |e.rest|, e.value)
    && forall i {:trigger img[i]} :: o + 4 + |e.rest| + |e.value| <= i < o + size ==> img[i] == 0
  }

  lemma {:induction false} EntryStands(img: bytes, o: nat, e: Stored)
    requires Fits(e) && At(img, o, EntryBytes(e))
    ensures IsEntry(img, o, e, EntrySize(e))
  {
    EntryParts(img, o, e);
    HeadAt(img, o, e);
    var n := EntrySize(e) - EntryLength(e);
    AtJoin(img, o, EntryHead(e) + e.rest + e.value, Zeros(n));
    AtZeros(img, o + EntryLength(e), n);
  }

  // ---------- references ----------

  /** The words behind the header count steps of 4 bytes from the block in which the table of shared entries starts. */
  ghost predicate RefersTo(img: bytes, at: nat, inodesEnd: nat, shared: seq<Stored>) {
    forall k: nat {:trigger RefersAt(img, at, inodesEnd, shared, k)} :: k < |shared| ==>
      RefersAt(img, at, inodesEnd, shared, k)
  }

  ghost predicate RefersAt(img: bytes, at: nat, inodesEnd: nat, shared: seq<Stored>, k: nat)
    requires k < |shared|
  {
    Leads(img, at + 12 + 4 * k, inodesEnd, shared[k])
  }

  ghost predicate Leads(img: bytes, o: nat, inodesEnd: nat, e: Stored) {
    o + 4 <= |img| && IsEntry(img, 4096 * (inodesEnd / 4096) + 4 * Num(img, o, 4), e, EntrySize(e))
  }

  lemma {:induction false} TableStands(img: bytes, start: nat, table: seq<Xattr>, store: Storer, i: nat)
    requires At(img, start, Flat(Encoded(StoredAll(table, store)))) && AllFit(StoredAll(table, store)) && i < |table|
    ensures var o := Offsets(table, store)[i];
            o % 4 == 0 && At(img, start + o, EntryBytes(store(table[i]))) && Fits(store(table[i]))
  {
    var es := StoredAll(table, store);
    OffsetsWritten(table, store, i);
    OffsetsMultiple(table, store, i);
    EncodedAt(img, start, es, i);
    assert Fits(es[i]);
  }

  lemma {:induction false} SharedStands(img: bytes, inodesEnd: nat, table: seq<Xattr>, store: Storer,
                                        offsets: map<Xattr, nat>, x: Xattr, id: nat)
    requires At(img, inodesEnd, Flat(Encoded(StoredAll(table, store)))) && AllFit(StoredAll(table, store))
    requires inodesEnd % 4 == 0 && Located(table, store, offsets) && x in offsets
    requires id == (inodesEnd % 4096 + offsets[x]) / 4
    ensures At(img, 4096 * (inodesEnd / 4096) + 4 * id, EntryBytes(store(x))) && Fits(store(x))
  {
    var i :| 0 <= i < |table| && table[i] == x;
    TableStands(img, inodesEnd, table, store, i);
    IndexArithmetic(inodesEnd, offsets[x]);
  }

  lemma {:induction false} RefLeads(img: bytes, o: nat, inodesEnd: nat, ids: seq<nat>, k: nat, e: Stored)
    requires At(img, o, Flat(Indexes(ids))) && k < |ids| && |img| < 0x1_0000_0000
    requires At(img, 4096 * (inodesEnd / 4096) + 4 * ids[k], EntryBytes(e)) && Fits(e)
    ensures Leads(img, o + 4 * k, inodesEnd, e)
  {
    WordAt(img, o, ids, k);
    EntryStands(img, 4096 * (inodesEnd / 4096) + 4 * ids[k], e);
  }

  lemma {:induction false} WordAt(img: bytes, o: nat, ids: seq<nat>, k: nat)
    requires At(img, o, Flat(Indexes(ids))) && k < |ids| && ids[k] < 0x1_0000_0000
    ensures o + 4 * k + 4 <= |img| && Num(img, o + 4 * k, 4) == ids[k]
  {
    AtPart(img, o, Indexes(ids), k);
    FlatUniform(Indexes(ids)[..k], 4);
    AtNum(img, o + 4 * k, ids[k], 4);
    Widths();
  }

  lemma {:induction false} RefStands(img: bytes, o: nat, inodesEnd: nat, table: seq<Xattr>, store: Storer,
                                     offsets: map<Xattr, nat>, ids: seq<nat>, k: nat, x: Xattr)
    requires At(img, inodesEnd, Flat(Encoded(StoredAll(table, store)))) && AllFit(StoredAll(table, store))
    requires inodesEnd % 4 == 0 && |img| < 0x1_0000_0000 && Located(table, store, offsets) && x in offsets
    requires At(img, o, Flat(Indexes(ids))) && k < |ids| && ids[k] == (inodesEnd % 4096 + offsets[x]) / 4
    ensures Leads(img, o + 4 * k, inodesEnd, store(x))
  {
    SharedStands(img, inodesEnd, table, store, offsets, x, ids[k]);
    RefLeads(img, o, inodesEnd, ids, k, store(x));
  }

  lemma {:induction false} RefsStand(img: bytes, at: nat, inodesEnd: nat, table: seq<Xattr>, store: Storer,
                                     offsets: map<Xattr, nat>, xs: seq<Xattr>, slots: seq<Option<nat>>)
    requires At(img, inodesEnd, Flat(Encoded(StoredAll(table, store)))) && AllFit(StoredAll(table, store))
    requires inodesEnd % 4 == 0 && |img| < 0x1_0000_0000 && Located(table, store, offsets)
    requires Assigned(xs, offsets, slots) && At(img, at + 12, Flat(Indexes(Ids(slots, inodesEnd))))
    ensures RefersTo(img, at, inodesEnd, StoredAll(Shared(xs, slots), store))
  {
    RefsMatch(xs, offsets, slots);
    var ids, shared := Ids(slots, inodesEnd), Shared(xs, slots);
    forall k: nat | k < |shared|
      ensures RefersAt(img, at, inodesEnd, StoredAll(shared, store), k)
    {
      assert shared[k] in offsets && Refs(slots)[k] == offsets[shared[k]];
      RefStands(img, at + 12, inodesEnd, table, store, offsets, ids, k, shared[k]);
    }
  }

  // ---------- entries of its own ----------

  /** The sizes of the first `k` entries together. */
  ghost function StartOf(es: seq<Stored>, k: nat): nat
    requires k <= |es|
  {
    if k == 0 then 0 else StartOf(es, k - 1) + EntrySize(es[k - 1])
  }

  /** Entries one behind the other. */
  ghost predicate AreEntries(img: bytes, o: nat, es: seq<Stored>) {
    forall k: nat {:trigger EntryAt(img, o, es, k)} :: k < |es| ==> EntryAt(img, o, es, k)
  }

  ghost predicate EntryAt(img: bytes, o: nat, es: seq<Stored>, k: nat)
    requires k < |es|
  {
    IsEntry(img, o + StartOf(es, k), es[k], EntrySize(es[k]))
  }

  lemma {:induction false} StartIs(es: seq<Stored>, k: nat)
    requires k <= |es|
    ensures Offset(Encoded(es), k) == StartOf(es, k)
  {
    if k > 0 {
      StartIs(es, k - 1);
      FlatSlice(Encoded(es), k - 1);
    }
  }

  lemma {:induction false} EntriesStand(img: bytes, o: nat, es: seq<Stored>)
    requires At(img, o, Flat(Encoded(es))) && AllFit(es)
    ensures AreEntries(img, o, es)
  {
    forall k: nat | k < |es|
      ensures EntryAt(img, o, es, k)
    {
      StartIs(es, k);
      EncodedAt(img, o, es, k);
      EntryStands(img, o + StartOf(es, k), es[k]);
    }
  }

  // ---------- the area ----------

  /** What is behind the header: references to the shared attributes, then the others. */
  ghost predicate ItemsHold(img: bytes, at: nat, inodesEnd: nat, shared: seq<Stored>, unshared: seq<Stored>) {
    RefersTo(img, at, inodesEnd, shared) && AreEntries(img, at + 12 + 4 * |shared|, unshared)
  }

  lemma {:induction false} AreaSplits(img: bytes, at: nat, inodesEnd: nat, store: Storer, offsets: map<Xattr, nat>,
                                      xs: seq<Xattr>, slots: seq<Option<nat>>, filter: nat)
    requires Assigned(xs, offsets, slots) && At(img, at, AreaOf(xs, slots, store, filter, inodesEnd))
    ensures var ids, es := Ids(slots, inodesEnd), StoredAll(Unshared(xs, slots), store);
            && |ids| == |Shared(xs, slots)|
            && (ids != [] || es != [] ==>
                  At(img, at + 12, Flat(Indexes(ids))) && At(img, at + 12 + 4 * |ids|, Flat(Encoded(es))))
  {
    SharedCount(xs, slots);
    TakenBound(xs, offsets, slots, |xs|);
    assert slots[..|xs|] == slots;
    var ids, es := Ids(slots, inodesEnd), StoredAll(Unshared(xs, slots), store);
    if ids != [] || es != [] { AreaParts(img, at, filter, ids, es); }
  }

  lemma {:induction false} ItemsStand(img: bytes, at: nat, inodesEnd: nat, table: seq<Xattr>, store: Storer,
                                      offsets: map<Xattr, nat>, xs: seq<Xattr>, slots: seq<Option<nat>>, filter: nat)
    requires At(img, inodesEnd, Flat(Encoded(StoredAll(table, store)))) && AllFit(StoredAll(table, store))
    requires inodesEnd % 4 == 0 && |img| < 0x1_0000_0000 && Located(table, store, offsets)
    requires Assigned(xs, offsets, slots) && AllFit(StoredAll(xs, store))
    requires At(img, at, AreaOf(xs, slots, store, filter, inodesEnd))
    ensures ItemsHold(img, at, inodesEnd, StoredAll(Shared(xs, slots), store), StoredAll(Unshared(xs, slots), store))
  {
    var n, es := |Ids(slots, inodesEnd)|, StoredAll(Unshared(xs, slots), store);
    AreaSplits(img, at, inodesEnd, store, offsets, xs, slots, filter);
    if n > 0 || es != [] {
      RefsStand(img, at, inodesEnd, table, store, offsets, xs, slots);
      UnsharedFit(xs, slots, store);
      EntriesStand(img, at + 12 + 4 * n, es);
    }
  }
}
