/** The attributes of one inode: which are shared, what is written for them and what is read back. */
module NodeXattrs {
  import opened Common
  import opened Bytes
  import opened Xattrs
  import opened XattrArea
  import opened SharedXattrs

  // ---------- choosing ----------

  ghost function Taken(slots: seq<Option<nat>>): nat {
    if slots == [] then 0 else Taken(slots[..|slots| - 1]) + if slots[|slots| - 1].Some? then 1 else 0
  }

  /** The first 128 attributes that are in the table refer to it, all others do not. */
  ghost predicate Assigned(xs: seq<Xattr>, offsets: map<Xattr, nat>, slots: seq<Option<nat>>) {
    && |slots| == |xs|
    && forall i {:trigger slots[i]} :: 0 <= i < |xs| ==>
         && (slots[i].Some? <==> xs[i] in offsets && Taken(slots[..i]) < MAX_SHARED)
         && (slots[i].Some? ==> slots[i].value == offsets[xs[i]])
  }

  lemma {:induction false} TakenBound(xs: seq<Xattr>, offsets: map<Xattr, nat>, slots: seq<Option<nat>>, k: nat)
    requires Assigned(xs, offsets, slots) && k <= |xs|
    ensures Taken(slots[..k]) <= MAX_SHARED
  {
    if k > 0 {
      TakenBound(xs, offsets, slots, k - 1);
      assert slots[..k][..k - 1] == slots[..k - 1];
    }
  }

  lemma {:induction false} AssignStep(xs: seq<Xattr>, offsets: map<Xattr, nat>, slots: seq<Option<nat>>, i: nat,
                                    slot: Option<nat>)
    requires i < |xs| && Assigned(xs[..i], offsets, slots)
    requires slot == if xs[i] in offsets && Taken(slots) < MAX_SHARED then Some(offsets[xs[i]]) else None
    ensures Assigned(xs[..i + 1], offsets, slots + [slot])
    ensures Taken(slots + [slot]) == Taken(slots) + if slot.Some? then 1 else 0
  {
    var slots' := slots + [slot];
    assert slots'[..i] == slots;
    forall j | 0 <= j < i
      ensures slots'[..j] == slots[..j] && slots'[j] == slots[j] && xs[..i + 1][j] == xs[..i][j]
    {
    }
  }

  /** How many of the first `n` refer to the table. */
  ghost function TakenPlaces(slots: seq<Option<nat>>, n: nat): set<nat> {
    set j: nat | j < n && j < |slots| && slots[j].Some?
  }

  lemma {:induction false} TakenAre(slots: seq<Option<nat>>, n: nat)
    requires n <= |slots|
    ensures Taken(slots[..n]) == |set j: nat | j < n && j < |slots| && slots[j].Some?|
  {
    assert TakenPlaces(slots, n) == set j: nat | j < n && j < |slots| && slots[j].Some?;
    if n > 0 {
      TakenAre(slots, n - 1);
      assert slots[..n][..n - 1] == slots[..n - 1];
      var last := if slots[n - 1].Some? then {n - 1} else {};
      assert TakenPlaces(slots, n) == TakenPlaces(slots, n - 1) + last;
    } else {
      assert TakenPlaces(slots, 0) == {};
    }
  }

  /** An attribute of the table is referred to as long as fewer than 128 before it are, with its offset. */
  ghost predicate RefersAt(xs: seq<Xattr>, offsets: map<Xattr, nat>, slots: seq<Option<nat>>, i: nat)
    requires |slots| == |xs| && i < |xs|
  {
    slots[i] == if xs[i] in offsets && |set j: nat | j < i && j < |slots| && slots[j].Some?| < 128
                then Some(offsets[xs[i]]) else None
  }

  lemma {:induction false} AssignedMeans(xs: seq<Xattr>, offsets: map<Xattr, nat>, slots: seq<Option<nat>>, i: nat)
    requires Assigned(xs, offsets, slots) && i < |xs|
    ensures RefersAt(xs, offsets, slots, i)
  {
    TakenAre(slots, i);
  }

  method AssignOffsets(xs: seq<Xattr>, offsets: map<Xattr, nat>) returns (slots: seq<Option<nat>>)
    ensures Assigned(xs, offsets, slots)
    ensures forall i: nat {:trigger RefersAt(xs, offsets, slots, i)} :: i < |xs| ==> RefersAt(xs, offsets, slots, i)
  {
    slots := [];
    var nShared := 0;
    for i := 0 to |xs|
      invariant Assigned(xs[..i], offsets, slots) && nShared == Taken(slots)
    {
      var slot := if xs[i] in offsets && nShared < MAX_SHARED then Some(offsets[xs[i]]) else None;
      AssignStep(xs, offsets, slots, i, slot);
      slots := slots + [slot];
      if slot.Some? { nShared := nShared + 1; }
    }
    assert xs[..|xs|] == xs;
    forall i: nat | i < |xs|
      ensures RefersAt(xs, offsets, slots, i)
    {
      AssignedMeans(xs, offsets, slots, i);
    }
  }

  // ---------- the two kinds ----------

  ghost function Shared(xs: seq<Xattr>, slots: seq<Option<nat>>): (r: seq<Xattr>)
    requires |slots| == |xs|
  {
    if xs == [] then [] else
    var n := |xs| - 1;
    var front := Shared(xs[..n], slots[..n]);
    if slots[n].Some? then front + [xs[n]] else front
  }

  ghost function Unshared(xs: seq<Xattr>, slots: seq<Option<nat>>): (r: seq<Xattr>)
    requires |slots| == |xs|
  {
    if xs == [] then [] else
    var n := |xs| - 1;
    var front := Unshared(xs[..n], slots[..n]);
    if slots[n].Some? then front else front + [xs[n]]
  }

  ghost function Refs(slots: seq<Option<nat>>): (r: seq<nat>) {
    if slots == [] then [] else
    var n := |slots| - 1;
    var front := Refs(slots[..n]);
    if slots[n].Some? then front + [slots[n].value] else front
  }

  /** Every attribute is of exactly one kind. */
  lemma {:induction false} KindsPartition(xs: seq<Xattr>, slots: seq<Option<nat>>)
    requires |slots| == |xs|
    ensures multiset(Shared(xs, slots)) + multiset(Unshared(xs, slots)) == multiset(xs)
  {
    if xs != [] {
      var n := |xs| - 1;
      KindsPartition(xs[..n], slots[..n]);
      assert xs == xs[..n] + [xs[n]];
    }
  }

  lemma {:induction false} SharedCount(xs: seq<Xattr>, slots: seq<Option<nat>>)
    requires |slots| == |xs|
    ensures |Shared(xs, slots)| == |Refs(slots)| == Taken(slots)
  {
    if xs != [] { SharedCount(xs[..|xs| - 1], slots[..|xs| - 1]); }
  }

  /** Number of shared attributes and space of the others, as the layout and the writer count them. */
  method ComputeCounts(xs: seq<Xattr>, slots: seq<Option<nat>>, store: Storer) returns (nShared: nat, unsharedSize: nat)
    requires |slots| == |xs|
    ensures nShared == |Shared(xs, slots)| && unsharedSize == TableSize(Unshared(xs, slots), store)
  {
    nShared, unsharedSize := 0, 0;
    for i := 0 to |xs|
      invariant nShared == |Shared(xs[..i], slots[..i])|
      invariant unsharedSize == TableSize(Unshared(xs[..i], slots[..i]), store)
    {
      assert xs[..i + 1][..i] == xs[..i] && slots[..i + 1][..i] == slots[..i];
      if slots[i].Some? {
        nShared := nShared + 1;
      } else {
        var n := EntrySize(store(xs[i]));
        OffsetsAppend(Unshared(xs[..i], slots[..i]), store, xs[i], n);
        unsharedSize := unsharedSize + n;
      }
    }
    assert xs[..|xs|] == xs && slots[..|slots|] == slots;
  }

  // ---------- reading back ----------

  /** Indexes count 4-byte units from the start of the block in which the table starts. */
  ghost function Ids(slots: seq<Option<nat>>, inodesEnd: nat): (ids: seq<nat>)
    ensures |ids| == |Refs(slots)|
  {
    seq(|Refs(slots)|, i requires 0 <= i < |Refs(slots)| => (inodesEnd % 4096 + Refs(slots)[i]) / 4)
  }

  ghost predicate Match(refs: seq<nat>, shared: seq<Xattr>, offsets: map<Xattr, nat>) {
    && |refs| == |shared|
    && forall k {:trigger refs[k]} {:trigger shared[k]} :: 0 <= k < |refs| ==>
         shared[k] in offsets && refs[k] == offsets[shared[k]]
  }

  /** References are the offsets of the attributes they stand for. */
  lemma {:induction false} RefsMatch(xs: seq<Xattr>, offsets: map<Xattr, nat>, slots: seq<Option<nat>>)
    requires |slots| == |xs|
    requires forall i {:trigger slots[i]} :: 0 <= i < |xs| && slots[i].Some? ==>
               xs[i] in offsets && slots[i].value == offsets[xs[i]]
    ensures Match(Refs(slots), Shared(xs, slots), offsets)
  {
    if xs != [] { RefsMatch(xs[..|xs| - 1], offsets, slots[..|xs| - 1]); }
  }

  lemma {:induction false} EncodedAt(img: bytes, start: nat, es: seq<Stored>, i: nat)
    requires At(img, start, Flat(Encoded(es))) && i < |es|
    ensures At(img, start + Offset(Encoded(es), i), EntryBytes(es[i])) && Offset(Encoded(es), i) <= |Flat(Encoded(es))|
  {
    AtFlat(Encoded(es), i);
    AtInside(img, start, Flat(Encoded(es)), Offset(Encoded(es), i), EntryBytes(es[i]));
  }

  lemma {:induction false} TableEntryAt(read: EntryReader, img: bytes, start: nat, table: seq<Xattr>, store: Storer,
                                    i: nat)
    requires At(img, start, Flat(Encoded(StoredAll(table, store)))) && i < |table| && Reads(read, img)
    requires AllFit(StoredAll(table, store))
    ensures var e := store(table[i]); var o := Offsets(table, store)[i];
            && read(start + o) == Ok(Sized(e, EntrySize(e)))
            && o % 4 == 0 && o <= |Flat(Encoded(StoredAll(table, store)))|
  {
    OffsetsWritten(table, store, i);
    EncodedAt(img, start, StoredAll(table, store), i);
    OffsetsMultiple(table, store, i);
  }

  /** The start of the block in which the table starts. */
  function TableBase(inodesEnd: nat): nat {
    4096 * (inodesEnd / 4096)
  }

  lemma {:induction false} IndexArithmetic(inodesEnd: nat, o: nat)
    requires inodesEnd % 4 == 0 && o % 4 == 0
    ensures TableBase(inodesEnd) + 4 * ((inodesEnd % 4096 + o) / 4) == inodesEnd + o
  {
    var q, r := inodesEnd / 4096, inodesEnd % 4096;
    assert inodesEnd == 4096 * q + r;
    assert r % 4 == 0;
  }

  lemma {:induction false} OneLeads(read: EntryReader, img: bytes, inodesEnd: nat, table: seq<Xattr>, store: Storer,
                                    offsets: map<Xattr, nat>, x: Xattr)
    requires At(img, inodesEnd, Flat(Encoded(StoredAll(table, store)))) && Reads(read, img)
    requires AllFit(StoredAll(table, store))
    requires inodesEnd % 4 == 0 && |img| < 0x1_0000_0000 && Located(table, store, offsets) && x in offsets
    ensures var id := (inodesEnd % 4096 + offsets[x]) / 4;
            id < 0x1_0000_0000 && read(TableBase(inodesEnd) + 4 * id) == Ok(Sized(store(x), EntrySize(store(x))))
  {
    var i :| 0 <= i < |table| && table[i] == x;
    TableEntryAt(read, img, inodesEnd, table, store, i);
    IndexArithmetic(inodesEnd, offsets[x]);
  }

  /** Every reference written for an inode leads the reader to its attribute. */
  lemma {:induction false} RefsLead(read: EntryReader, img: bytes, inodesEnd: nat, table: seq<Xattr>, store: Storer,
                                    offsets: map<Xattr, nat>, xs: seq<Xattr>, slots: seq<Option<nat>>)
    requires At(img, inodesEnd, Flat(Encoded(StoredAll(table, store)))) && Reads(read, img)
    requires AllFit(StoredAll(table, store))
    requires inodesEnd % 4 == 0 && |img| < 0x1_0000_0000 && Located(table, store, offsets)
    requires Assigned(xs, offsets, slots)
    ensures Leads(read, TableBase(inodesEnd), Ids(slots, inodesEnd), StoredAll(Shared(xs, slots), store))
  {
    RefsMatch(xs, offsets, slots);
    var ids, shared := Ids(slots, inodesEnd), Shared(xs, slots);
    forall k | 0 <= k < |ids|
      ensures ids[k] < 0x1_0000_0000
      ensures var e := StoredAll(shared, store)[k];
              read(TableBase(inodesEnd) + 4 * ids[k]) == Ok(Sized(e, EntrySize(e)))
    {
      assert shared[k] in offsets && Refs(slots)[k] == offsets[shared[k]];
      OneLeads(read, img, inodesEnd, table, store, offsets, shared[k]);
    }
  }

  lemma {:induction false} UnsharedFrom(xs: seq<Xattr>, slots: seq<Option<nat>>)
    requires |slots| == |xs|
    ensures forall x {:trigger x in Unshared(xs, slots)} :: x in Unshared(xs, slots) ==> x in xs
  {
    if xs != [] { UnsharedFrom(xs[..|xs| - 1], slots[..|xs| - 1]); }
  }

  lemma {:induction false} UnsharedFit(xs: seq<Xattr>, slots: seq<Option<nat>>, store: Storer)
    requires |slots| == |xs| && AllFit(StoredAll(xs, store))
    ensures AllFit(StoredAll(Unshared(xs, slots), store))
  {
    UnsharedFrom(xs, slots);
    var us := Unshared(xs, slots);
    forall i | 0 <= i < |us|
      ensures Fits(StoredAll(us, store)[i])
    {
      assert us[i] in us;
      var j :| 0 <= j < |xs| && xs[j] == us[i];
      assert Fits(StoredAll(xs, store)[j]);
    }
  }

  /** The attribute area of an inode. */
  ghost function AreaOf(xs: seq<Xattr>, slots: seq<Option<nat>>, store: Storer, filter: nat, inodesEnd: nat): bytes
    requires |slots| == |xs|
  {
    AreaBytes(filter, Ids(slots, inodesEnd), StoredAll(Unshared(xs, slots), store))
  }

  /** It has the size that the layout computed from the counts. */
  lemma {:induction false} AreaOfLength(xs: seq<Xattr>, slots: seq<Option<nat>>, store: Storer, filter: nat,
                                    inodesEnd: nat)
    requires |slots| == |xs|
    ensures |AreaOf(xs, slots, store, filter, inodesEnd)| ==
              AreaSize(|Shared(xs, slots)|, TableSize(Unshared(xs, slots), store))
    ensures TableSize(Unshared(xs, slots), store) % 4 == 0
  {
    var us := Unshared(xs, slots);
    SharedCount(xs, slots);
    AreaLength(filter, Ids(slots, inodesEnd), StoredAll(us, store));
    OffsetsWritten(us, store, |us|);
    OffsetsMultiple(us, store, |us|);
    assert Encoded(StoredAll(us, store))[..|us|] == Encoded(StoredAll(us, store));
  }

  /** Whatever was shared, the reader gets the attributes of the inode back. */
  lemma {:induction false} AreaOfReads(read: EntryReader, img: bytes, o: nat, size: nat, inodesEnd: nat,
                                    table: seq<Xattr>, store: Storer, offsets: map<Xattr, nat>,
                                       xs: seq<Xattr>, slots: seq<Option<nat>>, filter: nat)
    requires At(img, inodesEnd, Flat(Encoded(StoredAll(table, store)))) && Reads(read, img)
    requires AllFit(StoredAll(table, store))
    requires inodesEnd % 4 == 0 && |img| < 0x1_0000_0000 && Located(table, store, offsets)
    requires Assigned(xs, offsets, slots)
    requires AllFit(StoredAll(xs, store)) && At(img, o, AreaOf(xs, slots, store, filter, inodesEnd))
    requires size == |AreaOf(xs, slots, store, filter, inodesEnd)|
    ensures DecodeArea(read, img, o, size, TableBase(inodesEnd))
         == Ok(Visible(StoredAll(Unshared(xs, slots), store)) + StoredAll(Shared(xs, slots), store))
  {
    UnsharedFit(xs, slots, store);
    RefsLead(read, img, inodesEnd, table, store, offsets, xs, slots);
    SharedCount(xs, slots);
    TakenBound(xs, offsets, slots, |xs|);
    assert slots[..|xs|] == slots;
    AreaRoundTrip(read, img, o, size, TableBase(inodesEnd), filter, Ids(slots, inodesEnd),
                  StoredAll(Unshared(xs, slots), store), StoredAll(Shared(xs, slots), store));
  }

  // ---------- writing ----------

  lemma {:induction false} IdsStep(slots: seq<Option<nat>>, i: nat, inodesEnd: nat)
    requires i < |slots|
    ensures slots[i].None? ==> Ids(slots[..i + 1], inodesEnd) == Ids(slots[..i], inodesEnd)
    ensures slots[i].Some? ==>
              Flat(Indexes(Ids(slots[..i + 1], inodesEnd))) ==
              Flat(Indexes(Ids(slots[..i], inodesEnd))) + LE((inodesEnd % 4096 + slots[i].value) / 4, 4)
  {
    assert slots[..i + 1][..i] == slots[..i];
    var ids, ids' := Ids(slots[..i], inodesEnd), Ids(slots[..i + 1], inodesEnd);
    if slots[i].Some? {
      var id := (inodesEnd % 4096 + slots[i].value) / 4;
      assert ids' == ids + [id];
      assert Indexes(ids') == Indexes(ids) + [LE(id, 4)];
      FlatAppend(Indexes(ids), LE(id, 4));
    } else {
      assert ids' == ids;
    }
  }

  /** The inline entries of the first `i` attributes. */
  ghost function UnsharedBytes(xs: seq<Xattr>, slots: seq<Option<nat>>, store: Storer, i: nat): bytes
    requires |slots| == |xs| && i <= |xs|
  {
    Flat(Encoded(StoredAll(Unshared(xs[..i], slots[..i]), store)))
  }

  lemma {:induction false} UnsharedEnds(xs: seq<Xattr>, slots: seq<Option<nat>>, store: Storer)
    requires |slots| == |xs|
    ensures UnsharedBytes(xs, slots, store, 0) == []
    ensures UnsharedBytes(xs, slots, store, |xs|) == Flat(Encoded(StoredAll(Unshared(xs, slots), store)))
  {
    assert Encoded(StoredAll(Unshared(xs[..0], slots[..0]), store)) == [];
    assert xs[..|xs|] == xs && slots[..|slots|] == slots;
  }

  lemma {:induction false} UnsharedStep(xs: seq<Xattr>, slots: seq<Option<nat>>, store: Storer, i: nat)
    requires |slots| == |xs| && i < |xs|
    ensures UnsharedBytes(xs, slots, store, i + 1) ==
            UnsharedBytes(xs, slots, store, i) + if slots[i].Some? then [] else EntryBytes(store(xs[i]))
  {
    assert slots[..i + 1][..i] == slots[..i] && xs[..i + 1][..i] == xs[..i];
    if slots[i].None? {
      var us, us' := Unshared(xs[..i], slots[..i]), Unshared(xs[..i + 1], slots[..i + 1]);
      assert us' == us + [xs[i]];
      assert Encoded(StoredAll(us', store)) == Encoded(StoredAll(us, store)) + [EntryBytes(store(xs[i]))];
      FlatAppend(Encoded(StoredAll(us, store)), EntryBytes(store(xs[i])));
    }
  }
}
