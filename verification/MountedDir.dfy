/** Written directories as the mounted file system lists and searches them. */
module MountedDir {
  import opened Common
  import opened Bytes
  import opened Order
  import opened DirCodec
  import opened DirBlocks
  import L = FuseLookup
  import R = FuseReaddir
  import W = Whiteouts

  // ---------- listing ----------

  /** The blocks of a written directory, the tail as the last of them. */
  ghost function Stored(ds: seq<Dirent>, c: seq<nat>, nb: nat): seq<seq<Dirent>>
    requires CutOk(Names(ds), c) && nb <= |c|
  {
    L.Chunks(ds, c, nb) + if nb < |c| then [Chunk(ds, c, nb)] else []
  }

  ghost function TailSize(ds: seq<Dirent>, c: seq<nat>, nb: nat): nat
    requires CutOk(Names(ds), c) && nb <= |c|
  {
    if nb < |c| then ChunkSize(Chunk(ds, c, nb)) else 0
  }

  lemma {:induction false} FewEntries(names: seq<bytes>)
    requires NamesOk(names)
    ensures 13 * |names| <= Space(names)
  {
    if names != [] {
      var n := |names| - 1;
      FewEntries(names[..n]);
      SpaceAppend(names[..n], names[n]);
      assert names[..n] + [names[n]] == names;
    }
  }

  lemma {:induction false} ChunkFits(ds: seq<Dirent>, c: seq<nat>, k: nat)
    requires CutOk(Names(ds), c) && EntriesOk(ds) && ds != [] && k < |c|
    ensures 0 < |Chunk(ds, c, k)| <= 341 && 12 * |Chunk(ds, c, k)| <= ChunkSize(Chunk(ds, c, k)) <= 4096
  {
    ChunkOk(ds, c, k);
    FewEntries(Names(Chunk(ds, c, k)));
  }

  /** Written directories are as the listing needs them. */
  lemma {:induction false} StoredOk(ds: seq<Dirent>, c: seq<nat>, nb: nat)
    requires CutOk(Names(ds), c) && EntriesOk(ds) && ds != [] && |c| - 1 <= nb <= |c|
    ensures R.BlocksOk(Stored(ds, c, nb), nb < |c|, TailSize(ds, c, nb)) && L.Join(Stored(ds, c, nb)) == ds
  {
    var blocks := Stored(ds, c, nb);
    forall b | 0 <= b < |blocks|
      ensures 0 < |blocks[b]| <= 341
    {
      assert blocks[b] == Chunk(ds, c, b);
      ChunkFits(ds, c, b);
    }
    L.ChunksJoin(ds, c, nb);
    if nb < |c| {
      ChunkFits(ds, c, nb);
      ChunkJoins(ds, c, nb);
      assert blocks[..|blocks| - 1] == L.Chunks(ds, c, nb);
    } else {
      assert blocks == L.Chunks(ds, c, nb);
    }
  }

  function Entries(items: seq<R.Item>): (ds: seq<Dirent>)
    ensures |ds| == |items|
  {
    seq(|items|, i requires 0 <= i < |items| => items[i].d)
  }

  lemma {:induction false} EntriesJoin(a: seq<R.Item>, b: seq<R.Item>)
    ensures Entries(a + b) == Entries(a) + Entries(b)
  {
  }

  /** Entries that are listed. */
  function Visible(ds: seq<Dirent>, hidden: R.Hidden): seq<Dirent> {
    if ds == [] then [] else if hidden(ds[0]) then Visible(ds[1..], hidden) else [ds[0]] + Visible(ds[1..], hidden)
  }

  lemma {:induction false} ShownEntries(items: seq<R.Item>, hidden: R.Hidden)
    ensures Entries(R.Shown(items, hidden)) == Visible(Entries(items), hidden)
  {
    if items != [] {
      ShownEntries(items[1..], hidden);
      assert Entries(items)[1..] == Entries(items[1..]) && Entries(items)[0] == items[0].d;
      EntriesJoin([items[0]], R.Shown(items[1..], hidden));
    }
  }

  ghost function Later(blocks: seq<seq<Dirent>>, b: nat): seq<Dirent>
    decreases |blocks| - b
  {
    if b >= |blocks| then [] else blocks[b] + Later(blocks, b + 1)
  }

  lemma {:induction false} FromEntries(blocks: seq<seq<Dirent>>, b: nat)
    ensures Entries(R.From(blocks, b)) == Later(blocks, b)
    decreases |blocks| - b
  {
    if b < |blocks| {
      FromEntries(blocks, b + 1);
      assert Entries(R.BlockItems(blocks[b], 4096 * b)) == blocks[b];
      EntriesJoin(R.BlockItems(blocks[b], 4096 * b), R.From(blocks, b + 1));
    }
  }

  lemma {:induction false} LaterJoin(blocks: seq<seq<Dirent>>, b: nat)
    requires b <= |blocks|
    ensures L.Join(blocks) == L.Join(blocks[..b]) + Later(blocks, b)
    decreases |blocks| - b
  {
    if b < |blocks| {
      LaterJoin(blocks, b + 1);
      assert blocks[..b + 1][..b] == blocks[..b];
    } else {
      assert blocks[..b] == blocks;
    }
  }

  /** What a page adds to the listing, and where the next one starts. */
  lemma {:induction false} PageListed(blocks: seq<seq<Dirent>>, b: nat, j: nat, off: nat, rooms: seq<nat>,
                                    page: seq<R.Item>,
                                      items: seq<R.Item>, cost: R.Cost, hidden: R.Hidden)
    returns (b': nat, j': nat)
    requires R.NonEmpty(blocks) && R.PosOk(blocks, b, j) && off == 4096 * b + 12 * j && rooms != []
    requires page == R.Page(R.Rest(blocks, b, j), rooms[0], cost, hidden)
    ensures page == [] ==> items + R.Listing(blocks, off, rooms, cost, hidden) == items
    ensures page != [] ==> R.PosOk(blocks, b', j') && page[|page| - 1].next == 4096 * b' + 12 * j'
    ensures page != [] ==>
              items + R.Listing(blocks, off, rooms, cost, hidden) ==
              (items + page) + R.Listing(blocks, page[|page| - 1].next, rooms[1..], cost, hidden)
  {
    b', j' := b, j;
    R.RestAtPos(blocks, b, j, off);
    var next := if page == [] then 0 else page[|page| - 1].next;
    R.ListingStep(blocks, off, R.Rest(blocks, b, j), rooms, page, next, cost, hidden);
    if page != [] {
      var r;
      b', j', r := R.PageSplits(blocks, b, j, rooms[0], page, cost, hidden);
      Regroup(items, page, R.Listing(blocks, next, rooms[1..], cost, hidden));
    }
  }

  lemma {:induction false} Regroup(a: seq<R.Item>, b: seq<R.Item>, c: seq<R.Item>)
    ensures a + (b + c) == (a + b) + c
  {
  }

  /** Page after page, until one is empty or the reader stops asking. */
  method ListPages(blocks: seq<seq<Dirent>>, tailpacked: bool, tailSize: nat, rooms: seq<nat>, cost: R.Cost,
                   hidden: R.Hidden)
    returns (items: seq<R.Item>)
    requires R.BlocksOk(blocks, tailpacked, tailSize)
    ensures items == R.Listing(blocks, 0, rooms, cost, hidden)
  {
    items := [];
    var off, rest := 0, rooms;
    ghost var b: nat, j: nat, all := 0, 0, R.Listing(blocks, 0, rooms, cost, hidden);
    while rest != []
      invariant R.PosOk(blocks, b, j) && off == 4096 * b + 12 * j
      invariant all == items + R.Listing(blocks, off, rest, cost, hidden)
      decreases |rest|
    {
      var page := R.Readdir(blocks, tailpacked, tailSize, off, rest[0], cost, hidden);
      R.RestAtPos(blocks, b, j, off);
      b, j := PageListed(blocks, b, j, off, rest, page, items, cost, hidden);
      if page == [] { return; }
      items, off, rest := items + page, page[|page| - 1].next, rest[1..];
    }
  }

  /** Listing a written directory gives its entries that are not hidden, in order, each once. */
  lemma {:induction false} WrittenListed(ds: seq<Dirent>, c: seq<nat>, nb: nat, rooms: seq<nat>, cost: R.Cost,
        hidden: R.Hidden)
    requires CutOk(Names(ds), c) && EntriesOk(ds) && ds != [] && |c| - 1 <= nb <= |c|
    requires |rooms| >= |Visible(ds, hidden)|
    requires forall i, r {:trigger ds[i], rooms[r]} :: 0 <= i < |ds| && 0 <= r < |rooms| && !hidden(ds[i]) ==>
               cost(ds[i]) <= rooms[r]
    ensures Entries(R.Listing(Stored(ds, c, nb), 0, rooms, cost, hidden)) == Visible(ds, hidden)
  {
    var blocks := Stored(ds, c, nb);
    StoredOk(ds, c, nb);
    R.FromIsRest(blocks, 0);
    FromEntries(blocks, 0);
    LaterJoin(blocks, 0);
    assert blocks[..0] == [];
    var items := R.Rest(blocks, 0, 0);
    assert Entries(items) == ds;
    ShownEntries(items, hidden);
    forall i, r | 0 <= i < |items| && 0 <= r < |rooms| && !hidden(items[i].d)
      ensures cost(items[i].d) <= rooms[r]
    {
      assert items[i].d == ds[i];
    }
    R.ListingComplete(blocks, 0, 0, 0, rooms, cost, hidden);
  }

  // ---------- looking up in the root ----------

  /** The names in the root of an otherwise empty tree. */
  ghost function EmptyRootNames(): (names: seq<bytes>)
    ensures |names| == 258
  {
    seq(258, i requires 0 <= i < 258 => if i == 0 then [46] else if i == 1 then [46, 46] else W.HexName(i - 2))
  }

  lemma {:induction false} HexLess(i: nat, j: nat)
    requires i < j < 256
    ensures Less(W.HexName(i), W.HexName(j))
  {
    var a, b := W.HexName(i), W.HexName(j);
    assert a[1..][0] == a[1] && b[1..][0] == b[1];
    assert i / 16 < j / 16 || (i / 16 == j / 16 && i % 16 < j % 16);
  }

  lemma {:induction false} EmptyRootSorted(ds: seq<Dirent>)
    requires Names(ds) == EmptyRootNames()
    ensures L.Sorted(ds)
  {
    forall i, j | 0 <= i < j < |ds|
      ensures Less(ds[i].name, ds[j].name)
    {
      assert ds[i].name == Names(ds)[i] && ds[j].name == Names(ds)[j];
      if i >= 2 {
        HexLess(i - 2, j - 2);
      } else if j == 1 {
        assert [46][1..] == [] && [46, 46][1..] == [46];
      }
    }
  }

  /** Looking for "-" in the root of an otherwise empty image does not end. */
  lemma {:induction false} RootLookupHangs(ds: seq<Dirent>, n: nat)
    requires Names(ds) == EmptyRootNames() && EntriesOk(ds)
    ensures CutOk(Names(ds), Starts(Names(ds)))
    ensures var blocks := L.Chunks(ds, Starts(Names(ds)), Min(DirBlocks.DirBlocks(Names(ds)), |Starts(Names(ds))|));
            L.InRange(blocks, L.Ended) && !L.Run(blocks, [45], n).Ended?
  {
    var names := Names(ds);
    StartsCut(names);
    EmptyRootSorted(ds);
    forall i: nat | i < 256
      ensures W.HexName(i) in names
    {
      assert names[i + 2] == W.HexName(i);
    }
    W.HexSpace(names, 256);
    W.LargeHasBlock(names);
    assert ds[0].name == names[0] == [46];
    L.LookupHangs(ds, Starts(names), DirBlocks.DirBlocks(names), [45], n);
  }
}
