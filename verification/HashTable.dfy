/**
 The chained hash table of libcomposefs/hash.c: in-place bucket heads, overflow cells recycled
 through a free list, and a rehash that is undone when an allocation fails half way.
 */
module HashTable {
  import opened Common
  import opened Buckets
  import opened HashMemory

  /** The cells the C allocator hands out; a fresh range of cells is appended.  If memory is ample it always can. */
  class Store<E> {
    const ample: bool
    var cells: seq<Cell<E>>
    ghost var tags: seq<Tag>

    constructor (ample: bool)
      ensures cells == [] && tags == [] && this.ample == ample
    {
      this.ample, cells, tags := ample, [], [];
    }

    ghost function M(): Mem<E>
      reads this
    {
      Mem(cells, tags)
    }
  }

  class Table<E(==,!new)> {
    const hasher: (E, nat) -> nat
    const comparator: (E, E) -> bool
    const store: Store<E>
    var bucket: int
    var nBuckets: nat
    var nBucketsUsed: int
    var nEntries: int
    var freeList: int
    ghost var view: View<E>
    ghost var free: seq<int>

    ghost predicate Wired(open: int)
      reads this`bucket, this`nBuckets, this`view, store
    {
      BucketsOk(store.M(), view, open) && view.base == bucket && |view.chains| == nBuckets > 0
    }

    ghost predicate FreeWired()
      reads this`freeList, this`free, store
    {
      FreeOk(store.M(), freeList, free)
    }

    /** Every entry is in its own bucket and the used-bucket statistic is exact. */
    ghost predicate Counted()
      reads this`view, this`nBucketsUsed
    {
      InRange(hasher) && Placed(view.contents, hasher) && nBucketsUsed == Used(view.contents)
    }

    /** Overflow cells in use plus cells on the free list. */
    ghost function Owned(): int
      reads this`view, this`free
    {
      |free| + Size(view.contents) - Used(view.contents)
    }

    ghost function All(): multiset<E>
      reads this`view
    {
      Entries(view.contents)
    }

    /** A table of `n` empty buckets in `store`, sharing the given free list. */
    constructor (hasher: (E, nat) -> nat, comparator: (E, E) -> bool, store: Store<E>, n: nat,
                 freeList: int, ghost free: seq<int>, ghost id: int)
      requires 0 < n && InRange(hasher) && FreeOk(store.M(), freeList, free)
      modifies store
      ensures this.hasher == hasher && this.comparator == comparator && this.store == store
      ensures Wired(-1) && FreeWired() && Counted() && view.id == id && this.free == free
      ensures nBuckets == n && nEntries == 0 && this.freeList == freeList
      ensures All() == multiset{} && Owned() == |free|
      ensures Only(old(store.M()), store.M(), {})
    {
      this.hasher, this.comparator, this.store := hasher, comparator, store;
      this.bucket, this.nBuckets, this.nBucketsUsed, this.nEntries := |store.cells|, n, 0, 0;
      this.freeList, this.free := freeList, free;
      this.view := NewView(id, |store.cells|, n);
      new;
      ghost var m := store.M();
      NewTable(m, id, n);
      EmptyContents(view.contents);
      store.cells := store.cells + seq(n, i requires 0 <= i < n => Cell(None, NULL));
      store.tags := NewCells(m, id, n).tags;
      assert store.M() == NewCells(m, id, n);
    }

    // ---------- entry allocation ----------

    method AllocateEntry() returns (n: int)
      requires FreeWired()
      modifies this`freeList, this`free, store
      ensures FreeWired() && store.M().Sane()
      ensures Only(old(store.M()), store.M(), {n})
      ensures n != NULL ==> store.M().Has(n) && store.M().tags[n].Loose?
      ensures n != NULL && n < |old(store.cells)| ==> old(store.tags)[n].Free?
      ensures old(free) != [] ==> n != NULL && free == old(free)[1..]
      ensures old(free) == [] ==> free == []
      ensures store.ample ==> n != NULL
    {
      ghost var m := store.M();
      var granted: bool := *;
      if freeList != NULL {
        n := freeList;
        PopFree(m, freeList, free);
        freeList := store.cells[n].next;
        free := free[1..];
        store.tags := store.tags[n := Loose(0)];
      } else if store.ample || granted {
        n := |store.cells|;
        store.cells := store.cells + [Cell(None, NULL)];
        store.tags := store.tags + [Loose(0)];
      } else {
        n := NULL;
      }
    }

    method FreeEntry(p: int)
      requires FreeWired() && store.M().Has(p) && !store.tags[p].Free?
      modifies this`freeList, this`free, store
      ensures FreeWired()
      ensures free == [p] + old(free)
      ensures Only(old(store.M()), store.M(), {p}) && |store.cells| == |old(store.cells)|
    {
      PushFree(store.M(), freeList, free, p);
      store.cells := store.cells[p := Cell(None, freeList)];
      store.tags := store.tags[p := Free(|free|)];
      freeList := p;
      free := [p] + free;
    }

    // ---------- storing one entry ----------

    /** Links `n`, which carries `e`, right behind the head of the occupied bucket `h`. */
    method LinkBehindHead(h: nat, n: int, ghost e: E)
      requires Wired(-1) && FreeWired() && h < nBuckets && view.contents[h] != []
      requires store.M().Has(n) && store.tags[n].Loose? && store.cells[n].data == Some(e)
      modifies this`view, store
      ensures Wired(-1) && FreeWired() && view.contents == Put(old(view.contents), h, e) && view.id == old(view.id)
      ensures Within(old(store.M()), store.M(), view.id, n)
    {
      ghost var m := store.M();
      LinkTable(m, view, h, n, e);
      HeadCell(m, view, -1, h);
      var head := bucket + h;
      store.cells := store.cells[n := store.cells[n].(next := store.cells[head].next)];
      store.cells := store.cells[head := store.cells[head].(next := n)];
      ghost var m' := LinkCell(m, view.id, h, view.chains[h], n, e);
      store.tags := m'.tags;
      assert store.M() == m';
      FreeListKept(m, m', view.id, n, freeList, free);
      view := LinkView(view, h, n, e);
    }

    /** Stores `e` in the head of the empty bucket `h`. */
    method FillHead(h: nat, e: E)
      requires Wired(-1) && FreeWired() && h < nBuckets && view.contents[h] == []
      modifies this`view, store
      ensures Wired(-1) && FreeWired() && view.contents == Put(old(view.contents), h, e) && view.id == old(view.id)
      ensures Within(old(store.M()), store.M(), view.id, -1)
    {
      ghost var m := store.M();
      FillTable(m, view, h, e);
      var head := bucket + h;
      ghost var m' := m.Set(head, Cell(Some(e), m.cells[head].next), m.tags[head]);
      FreeListKept(m, m', view.id, -1, freeList, free);
      view := view.(contents := Put(view.contents, h, e));
      store.cells := store.cells[head := store.cells[head].(data := Some(e))];
      assert store.M() == m';
    }

    /** Stores `e` in the head of the empty bucket `h` and recycles the cell it came from. */
    method FillHeadFrom(h: nat, cursor: int, e: E)
      requires Wired(-1) && FreeWired() && h < nBuckets && view.contents[h] == []
      requires store.M().Has(cursor) && store.tags[cursor].Loose?
      modifies this`view, this`freeList, this`free, store
      ensures Wired(-1) && FreeWired() && view.contents == Put(old(view.contents), h, e) && view.id == old(view.id)
      ensures free == [cursor] + old(free)
      ensures Within(old(store.M()), store.M(), view.id, cursor)
    {
      FillHead(h, e);
      ghost var m1 := store.M();
      FreeEntry(cursor);
      OnlyOffTable(m1, store.M(), cursor, view);
    }

    /** Moves the overflow cell `cursor` of another table into this one; never allocates. */
    method PutNode(cursor: int, ghost e: E)
      requires Wired(-1) && FreeWired() && Counted()
      requires store.M().Has(cursor) && store.tags[cursor].Loose? && store.cells[cursor].data == Some(e)
      modifies this`view, this`nBucketsUsed, this`freeList, this`free, store
      ensures Wired(-1) && FreeWired() && Counted() && view.id == old(view.id)
      ensures All() == old(All()) + multiset{e} && Owned() == old(Owned()) + 1
      ensures Within(old(store.M()), store.M(), view.id, cursor)
    {
      ghost var m := store.M();
      var data := store.cells[cursor].data.value;
      var h := hasher(data, nBuckets);
      HeadCell(m, view, -1, h);
      PutCounts(view.contents, h, e);
      PutPlaced(view.contents, h, e, hasher);
      if store.cells[bucket + h].data.Some? {
        LinkBehindHead(h, cursor, e);
      } else {
        FillHeadFrom(h, cursor, data);
        nBucketsUsed := nBucketsUsed + 1;
      }
    }

    /** Puts `data` behind the head of the occupied bucket `h`, on a recycled or new cell. */
    method AddOverflow(h: nat, data: E) returns (ok: bool)
      requires Wired(-1) && FreeWired() && h < nBuckets && view.contents[h] != []
      modifies this`view, this`freeList, this`free, store
      ensures Wired(-1) && FreeWired() && view.id == old(view.id)
      ensures SparesAside(old(store.M()), store.M(), view.id)
      ensures ok ==> view.contents == Put(old(view.contents), h, data)
      ensures ok ==> |free| == Max(old(|free|) - 1, 0)
      ensures !ok ==> view == old(view) && free == [] && old(free) == [] && !store.ample
    {
      ghost var m := store.M();
      var n := AllocateEntry();
      if n == NULL {
        OnlyOffTable(m, store.M(), n, view);
        return false;
      }
      OnlyOffTable(m, store.M(), n, view);
      ghost var m1 := store.M();
      store.cells := store.cells[n := store.cells[n].(data := Some(data))];
      ghost var m2 := store.M();
      OnlyOffTable(m1, m2, n, view);
      FreeListKept(m1, m2, view.id, n, freeList, free);
      LinkBehindHead(h, n, data);
      ok := true;
    }

    /** Moves the head entry `data` of another table into this one; may need a cell. */
    method PutHead(data: E) returns (ok: bool)
      requires Wired(-1) && FreeWired() && Counted()
      modifies this`view, this`nBucketsUsed, this`freeList, this`free, store
      ensures Wired(-1) && FreeWired() && Counted() && view.id == old(view.id)
      ensures SparesAside(old(store.M()), store.M(), view.id)
      ensures ok ==> All() == old(All()) + multiset{data} && Owned() >= old(Owned())
      ensures !ok ==> view == old(view) && old(free) == [] && free == [] && !store.ample
      ensures !ok ==> view.contents[hasher(data, nBuckets)] != []
    {
      ghost var m := store.M();
      var h := hasher(data, nBuckets);
      HeadCell(m, view, -1, h);
      PutCounts(view.contents, h, data);
      PutPlaced(view.contents, h, data, hasher);
      if store.cells[bucket + h].data.Some? {
        ok := AddOverflow(h, data);
      } else {
        FillHead(h, data);
        nBucketsUsed := nBucketsUsed + 1;
        ok := true;
      }
    }

    // ---------- taking a bucket apart ----------

    /** Cuts the overflow of bucket `i` off; its head keeps a stale link. */
    ghost method Detach(i: nat) returns (rest: seq<int>)
      requires Wired(-1) && i < nBuckets && view.contents[i] != []
      modifies this`view, store`tags
      ensures Wired(i) && view.id == old(view.id)
      ensures view.contents == old(view.contents)[i := [old(view.contents)[i][0]]]
      ensures store.M().Has(bucket + i)
      ensures LooseOk(store.M(), store.cells[bucket + i].next, rest, old(view.contents)[i][1..])
      ensures Within(old(store.M()), store.M(), view.id, -1)
    {
      var m, v := store.M(), view;
      CutTable(m, v, i);
      rest := v.chains[i][1..];
      var m' := CutCells(m, v.id, i, v.chains[i]);
      view := CutView(v, i);
      store.tags := m'.tags;
      assert store.M() == m';
    }

    /** Ends the chain of bucket `i` at its head. */
    method Seal(i: nat)
      requires Wired(i) && i < nBuckets && |view.contents[i]| == 1
      modifies store
      ensures Wired(-1) && Within(old(store.M()), store.M(), view.id, -1)
    {
      ghost var m := store.M();
      SealTable(m, view, i);
      var head := bucket + i;
      store.cells := store.cells[head := store.cells[head].(next := NULL)];
      assert store.M() == m.Set(head, Cell(m.cells[head].data, NULL), m.tags[head]);
    }

    /** Empties the head of bucket `i`, which has no overflow. */
    method EmptyHead(i: nat)
      requires Wired(-1) && i < nBuckets && |view.contents[i]| == 1 && Counted()
      modifies this`view, this`nBucketsUsed, store
      ensures Wired(-1) && Counted() && view.id == old(view.id)
      ensures view.contents == old(view.contents)[i := []]
      ensures All() + multiset(old(view.contents)[i]) == old(All())
      ensures Within(old(store.M()), store.M(), view.id, -1)
    {
      ghost var m := store.M();
      EmptyTable(m, view, i);
      Replace(view.contents, i, []);
      var head := bucket + i;
      view := view.(contents := view.contents[i := []]);
      store.cells := store.cells[head := store.cells[head].(data := None)];
      nBucketsUsed := nBucketsUsed - 1;
      assert store.M() == m.Set(head, Cell(None, m.cells[head].next), m.tags[head]);
    }

    // ---------- looking entries up ----------

    /** The table as its users see it. */
    ghost predicate Valid()
      reads this, store
    {
      && Sound(hasher, comparator)
      && Wired(-1) && FreeWired() && Counted()
      && nEntries == Size(view.contents)
      && Unique(All(), comparator)
    }

    /** Position of the first match in bucket `h`, or its length. */
    ghost function FirstMatch(es: seq<E>, entry: E): (j: nat)
      ensures j <= |es|
      ensures forall k {:trigger es[k]} :: 0 <= k < j ==> !Match(comparator, entry, es[k])
      ensures j < |es| ==> Match(comparator, entry, es[j])
    {
      if es == [] then 0 else if Match(comparator, entry, es[0]) then 0 else 1 + FirstMatch(es[1..], entry)
    }

    lemma {:induction false} FirstMatchIs(es: seq<E>, entry: E, j: nat)
      requires j <= |es|
      requires forall k {:trigger es[k]} :: 0 <= k < j ==> !Match(comparator, entry, es[k])
      requires j < |es| ==> Match(comparator, entry, es[j])
      ensures FirstMatch(es, entry) == j
    {
      var i := FirstMatch(es, entry);
      assert i < |es| ==> Match(comparator, entry, es[i]);
    }

    /** Walks bucket `h` up to the first match; returns its cell and the cell before it. */
    method Search(h: nat, entry: E) returns (p: int, before: int)
      requires Wired(-1) && h < nBuckets && view.contents[h] != []
      ensures var j := FirstMatch(view.contents[h], entry);
              && |view.chains[h]| == |view.contents[h]|
              && (j == |view.contents[h]| ==> p == NULL)
              && (j < |view.contents[h]| ==> p == view.chains[h][j])
              && (0 < j < |view.contents[h]| ==> before == view.chains[h][j - 1])
    {
      ghost var es := view.contents[h];
      ghost var j := 0;
      HeadCell(store.M(), view, -1, h);
      ChainStep(store.M(), view, h, 0);
      p, before := bucket + h, NULL;
      while p != NULL && !Match(comparator, entry, store.cells[p].data.value)
        invariant 0 <= j <= |es| == |view.chains[h]|
        invariant forall k {:trigger es[k]} :: 0 <= k < j ==> !Match(comparator, entry, es[k])
        invariant j == |es| <==> p == NULL
        invariant j < |es| ==> p == view.chains[h][j] && store.M().Has(p) && store.cells[p].data == Some(es[j])
        invariant 0 < j ==> before == view.chains[h][j - 1]
        decreases |es| - j
      {
        ChainStep(store.M(), view, h, j);
        if j + 1 < |es| { ChainStep(store.M(), view, h, j + 1); }
        before := p;
        p := store.cells[p].next;
        j := j + 1;
      }
      FirstMatchIs(es, entry, j);
    }

    method Lookup(entry: E) returns (data: Option<E>)
      requires Valid()
      ensures data.Some? ==> data.value in All() && Match(comparator, entry, data.value)
      ensures data.None? ==> forall x :: x in All() ==> !Match(comparator, entry, x)
    {
      var h := hasher(entry, nBuckets);
      HeadCell(store.M(), view, -1, h);
      ghost var es := view.contents[h];
      data := None;
      if store.cells[bucket + h].data.Some? {
        var p, before := Search(h, entry);
        if p != NULL {
          ghost var j := FirstMatch(es, entry);
          ChainStep(store.M(), view, h, j);
          assert es[j] in es;
          EntryHasPlace(view.contents, es[j]);
          return store.cells[p].data;
        }
      }
      forall x | x in All()
        ensures !Match(comparator, entry, x)
      {
        NoMatchAnywhere(view.contents, hasher, comparator, entry, x);
      }
    }

    // ---------- unlinking entries ----------

    /** Recycles a cell that has just been taken off a chain. */
    method Recycle(next: int, ghost m: Mem<E>, ghost v: View<E>)
      requires FreeOk(m, freeList, free) && view.base == bucket && |view.chains| == nBuckets > 0
      requires TakenOff(m, v, store.M(), view, next)
      modifies this`freeList, this`free, store
      ensures Wired(-1) && FreeWired() && |free| == |old(free)| + 1
    {
      ghost var m' := store.M();
      FreeListKept(m, m', v.id, -1, freeList, free);
      FreeEntry(next);
      OnlyOffTable(m', store.M(), next, view);
    }

    /** The first overflow cell is copied over the head of bucket `h`, then recycled. */
    method BumpHead(h: nat)
      requires Wired(-1) && FreeWired() && h < nBuckets && 2 <= |view.contents[h]|
      modifies this`view, this`freeList, this`free, store
      ensures Wired(-1) && FreeWired() && view.id == old(view.id) && |free| == |old(free)| + 1
      ensures view.contents == old(view.contents)[h := Without(old(view.contents)[h], 0)]
    {
      ghost var m, v := store.M(), view;
      BumpTable(m, v, h);
      var head := bucket + h;
      var next := store.cells[head].next;
      ghost var m' := BypassCells(m, v.id, h, v.chains[h], 1, m.cells[head := m.cells[next]]);
      view := BypassView(v, h, 1, 0);
      store.cells := store.cells[head := store.cells[next]];
      store.tags := m'.tags;
      assert store.M() == m';
      Recycle(next, m, v);
    }

    /** The cell `next` behind `cursor` on bucket `h` is unlinked and recycled. */
    method UnlinkBehind(h: nat, cursor: int, next: int, ghost j: nat)
      requires Wired(-1) && FreeWired() && h < nBuckets && 1 <= j < |view.contents[h]| == |view.chains[h]|
      requires cursor == view.chains[h][j - 1] && next == view.chains[h][j]
      modifies this`view, this`freeList, this`free, store
      ensures Wired(-1) && FreeWired() && view.id == old(view.id) && |free| == |old(free)| + 1
      ensures view.contents == old(view.contents)[h := Without(old(view.contents)[h], j)]
    {
      ghost var m, v := store.M(), view;
      UnlinkTable(m, v, h, j);
      ghost var m' := BypassCells(m, v.id, h, v.chains[h], j,
          m.cells[cursor := m.cells[cursor].(next := m.cells[next].next)]);
      view := BypassView(v, h, j, j);
      store.cells := store.cells[cursor := store.cells[cursor].(next := store.cells[next].next)];
      store.tags := m'.tags;
      assert store.M() == m';
      Recycle(next, m, v);
    }

    /** Clears the data of the head of bucket `h`, which has no overflow. */
    method ClearHead(h: nat)
      requires Wired(-1) && FreeWired() && h < nBuckets && |view.contents[h]| == 1
      modifies this`view, store
      ensures Wired(-1) && FreeWired() && view.id == old(view.id)
      ensures view.contents == old(view.contents)[h := []]
    {
      ghost var m' := EmptyHeadKeeps(store.M(), view, h, freeList, free);
      var head := bucket + h;
      view := view.(contents := view.contents[h := []]);
      store.cells := store.cells[head := store.cells[head].(data := None)];
      assert store.M() == m';
    }

    /** Takes the entry at position `j`, held by cell `p` behind `before`, out of bucket `h`. */
    method DeleteAt(h: nat, p: int, before: int, ghost j: nat)
      requires Wired(-1) && FreeWired() && h < nBuckets && j < |view.contents[h]| == |view.chains[h]|
      requires p == view.chains[h][j] && (0 < j ==> before == view.chains[h][j - 1])
      modifies this`view, this`freeList, this`free, store
      ensures Wired(-1) && FreeWired() && view.id == old(view.id)
      ensures view.contents == old(view.contents)[h := Without(old(view.contents)[h], j)]
      ensures Owned() == old(Owned())
    {
      HeadCell(store.M(), view, -1, h);
      ChainStep(store.M(), view, h, j);
      RemoveCounts(view.contents, h, j);
      if p != bucket + h {
        UnlinkBehind(h, before, p, j);
      } else if store.cells[p].next != NULL {
        BumpHead(h);
      } else {
        ClearHead(h);
        assert Without(old(view.contents)[h], 0) == [];
      }
    }

    /** Finds the entry matching `entry`, and unlinks it when `delete`. */
    method FindEntry(entry: E, delete: bool) returns (data: Option<E>, bucketHead: int)
      requires Wired(-1) && FreeWired() && Sound(hasher, comparator)
      modifies this`view, this`freeList, this`free, store
      ensures Wired(-1) && FreeWired() && Owned() == old(Owned())
      ensures bucketHead == bucket + hasher(entry, nBuckets)
      ensures var h := hasher(entry, nBuckets);
              var j := FirstMatch(old(view.contents)[h], entry);
              && data == (if j < |old(view.contents)[h]| then Some(old(view.contents)[h][j]) else None)
              && (delete && data.Some? ==> view.contents == old(view.contents)[h := Without(old(view.contents)[h], j)])
              && (!delete || data.None? ==> view == old(view) && free == old(free))
    {
      var h := hasher(entry, nBuckets);
      HeadCell(store.M(), view, -1, h);
      bucketHead := bucket + h;
      data := None;
      if store.cells[bucketHead].data.Some? {
        var p, before := Search(h, entry);
        if p != NULL {
          ghost var j := FirstMatch(view.contents[h], entry);
          ChainStep(store.M(), view, h, j);
          data := store.cells[p].data;
          if delete {
            DeleteAt(h, p, before, j);
          }
        }
      }
    }

    // ---------- clearing ----------

    /** Recycles the cut-off overflow list starting at `first`. */
    method FreeCells(first: int, ghost c: seq<int>, ghost all: seq<E>, ghost i: nat)
      requires Wired(i) && FreeWired() && LooseOk(store.M(), first, c, all)
      modifies this`freeList, this`free, store
      ensures Wired(i) && FreeWired() && |free| == |old(free)| + |all|
    {
      ghost var rest, es := c, all;
      var cursor := first;
      while cursor != NULL
        invariant Wired(i) && FreeWired() && LooseOk(store.M(), cursor, rest, es)
        invariant |free| + |es| == |old(free)| + |all|
        decreases |rest|
      {
        ghost var m := store.M();
        LooseStep(m, cursor, rest, es);
        var next := store.cells[cursor].next;
        FreeEntry(cursor);
        OnlyOffOpen(m, store.M(), cursor, view, i);
        LooseKept(m, store.M(), view.id, cursor, next, rest[1..], es[1..]);
        cursor, rest, es := next, rest[1..], es[1..];
      }
    }

    method ClearBucket(i: nat)
      requires Wired(-1) && FreeWired() && i < nBuckets && view.contents[i] != []
      modifies this`view, this`freeList, this`free, store
      ensures Wired(-1) && FreeWired()
      ensures view.contents == old(view.contents)[i := []]
      ensures |free| == |old(free)| + |old(view.contents)[i]| - 1
    {
      ghost var m := store.M();
      ghost var rest := Detach(i);
      FreeListKept(m, store.M(), view.id, -1, freeList, free);
      FreeCells(store.cells[bucket + i].next, rest, old(view.contents)[i][1..], i);
      m := store.M();
      Seal(i);
      FreeListKept(m, store.M(), view.id, -1, freeList, free);
      ClearHead(i);
    }

    /** Empties the table; every overflow cell ends up on the free list. */
    method Clear()
      requires Valid()
      modifies this`view, this`freeList, this`free, this`nBucketsUsed, this`nEntries, store
      ensures Valid() && All() == multiset{} && Owned() == old(Owned())
    {
      var i := 0;
      while i < nBuckets
        invariant 0 <= i <= nBuckets && Wired(-1) && FreeWired()
        invariant forall j {:trigger view.contents[j]} :: 0 <= j < i ==> view.contents[j] == []
        invariant forall j {:trigger view.contents[j]} :: i <= j < nBuckets ==>
                    view.contents[j] == old(view.contents)[j]
        invariant Owned() == old(Owned())
      {
        HeadCell(store.M(), view, -1, i);
        if store.cells[bucket + i].data.Some? {
          Replace(view.contents, i, []);
          ClearBucket(i);
        }
        i := i + 1;
      }
      EmptyContents(view.contents);
      nBucketsUsed, nEntries := 0, 0;
    }
  }

  /** Two tables over one memory between which entries can move. */
  ghost predicate Linked<E(!new)>(dst: Table<E>, src: Table<E>)
    reads dst, src, dst.store, src.store
  {
    && dst != src && dst.store == src.store && dst.view.id != src.view.id
    && dst.Wired(-1) && dst.FreeWired() && dst.Counted()
  }

  /** One step of the walk along a cut-off overflow list: the first cell goes into `dst`. */
  method MoveCell<E(==,!new)>(dst: Table<E>, src: Table<E>, ghost i: nat, cursor: int, ghost rest: seq<int>,
                              ghost es: seq<E>)
    returns (next: int)
    requires Linked(dst, src) && src.Wired(i) && cursor != NULL && LooseOk(dst.store.M(), cursor, rest, es)
    modifies dst`view, dst`nBucketsUsed, dst`freeList, dst`free, dst.store
    ensures Linked(dst, src) && src.Wired(i) && dst.view.id == old(dst.view.id)
    ensures rest != [] && es != [] && LooseOk(dst.store.M(), next, rest[1..], es[1..])
    ensures dst.All() == old(dst.All()) + multiset{es[0]} && dst.Owned() == old(dst.Owned()) + 1
  {
    ghost var m := dst.store.M();
    LooseStep(m, cursor, rest, es);
    next := src.store.cells[cursor].next;
    dst.PutNode(cursor, es[0]);
    OtherTableKept(m, dst.store.M(), dst.view.id, cursor, src.view, i);
    LooseKept(m, dst.store.M(), dst.view.id, cursor, next, rest[1..], es[1..]);
  }

  /** Walks the cut-off overflow list starting at `first`. */
  method MoveCells<E(==,!new)>(dst: Table<E>, src: Table<E>, ghost i: nat, first: int, ghost c: seq<int>,
                               ghost all: seq<E>)
    requires Linked(dst, src) && src.Wired(i) && LooseOk(dst.store.M(), first, c, all)
    modifies dst`view, dst`nBucketsUsed, dst`freeList, dst`free, dst.store
    ensures Linked(dst, src) && src.Wired(i) && dst.view.id == old(dst.view.id)
    ensures dst.All() == old(dst.All()) + multiset(all) && dst.Owned() == old(dst.Owned()) + |all|
  {
    ghost var rest, es := c, all;
    var cursor := first;
    while cursor != NULL
      invariant Linked(dst, src) && src.Wired(i) && dst.view.id == old(dst.view.id)
      invariant LooseOk(dst.store.M(), cursor, rest, es)
      invariant dst.All() + multiset(es) == old(dst.All()) + multiset(all)
      invariant dst.Owned() + |es| == old(dst.Owned()) + |all|
      decreases |rest|
    {
      cursor := MoveCell(dst, src, i, cursor, rest, es);
      assert es == [es[0]] + es[1..];
      es, rest := es[1..], rest[1..];
    }
  }

  ghost method DetachBeside<E(!new)>(dst: Table<E>, src: Table<E>, i: nat) returns (rest: seq<int>)
    requires Linked(dst, src) && src.Wired(-1) && i < src.nBuckets && src.view.contents[i] != []
    modifies src`view, src.store`tags
    ensures Linked(dst, src) && src.Wired(i) && src.view.id == old(src.view.id)
    ensures src.view.contents == old(src.view.contents)[i := [old(src.view.contents)[i][0]]]
    ensures src.store.M().Has(src.bucket + i)
    ensures LooseOk(src.store.M(), src.store.cells[src.bucket + i].next, rest, old(src.view.contents)[i][1..])
  {
    var m := dst.store.M();
    rest := src.Detach(i);
    OtherTableKept(m, dst.store.M(), src.view.id, -1, dst.view, -1);
    FreeListKept(m, dst.store.M(), src.view.id, -1, dst.freeList, dst.free);
  }

  method SealBeside<E(==,!new)>(dst: Table<E>, src: Table<E>, i: nat)
    requires Linked(dst, src) && src.Wired(i) && i < src.nBuckets && |src.view.contents[i]| == 1
    modifies src.store
    ensures Linked(dst, src) && src.Wired(-1)
  {
    ghost var m := dst.store.M();
    src.Seal(i);
    OtherTableKept(m, dst.store.M(), src.view.id, -1, dst.view, -1);
    FreeListKept(m, dst.store.M(), src.view.id, -1, dst.freeList, dst.free);
  }

  /** Entries of both tables together, and the overflow cells they use or hold spare. */
  ghost function Together<E(!new)>(dst: Table<E>, src: Table<E>): multiset<E>
    reads dst, src
  {
    dst.All() + src.All()
  }

  ghost function OwnedTogether<E(!new)>(dst: Table<E>, src: Table<E>): int
    reads dst, src
  {
    dst.Owned() + Size(src.view.contents) - Used(src.view.contents)
  }

  /** The overflow part of bucket `i` of `src` moves cell by cell; no cell is ever allocated. */
  method TransferOverflow<E(==,!new)>(dst: Table<E>, src: Table<E>, i: nat)
    requires Linked(dst, src) && src.Wired(-1) && i < src.nBuckets && src.view.contents[i] != []
    modifies dst`view, dst`nBucketsUsed, dst`freeList, dst`free, src`view, dst.store
    ensures Linked(dst, src) && src.Wired(-1)
    ensures src.view.contents == old(src.view.contents)[i := [old(src.view.contents)[i][0]]]
    ensures Used(src.view.contents) == Used(old(src.view.contents))
    ensures Together(dst, src) == old(Together(dst, src)) && OwnedTogether(dst, src) == old(OwnedTogether(dst, src))
    ensures dst.Owned() >= old(dst.Owned())
  {
    ghost var b := src.view.contents;
    CutCounts(b, i);
    ghost var rest := DetachBeside(dst, src, i);
    MoveCells(dst, src, i, src.store.cells[src.bucket + i].next, rest, b[i][1..]);
    SealBeside(dst, src, i);
  }

  /** Moves the head of bucket `i`, which has no overflow left. */
  method TransferHead<E(==,!new)>(dst: Table<E>, src: Table<E>, i: nat) returns (ok: bool)
    requires Linked(dst, src) && src.Wired(-1) && src.Counted()
    requires i < src.nBuckets && |src.view.contents[i]| == 1
    modifies dst`view, dst`nBucketsUsed, dst`freeList, dst`free, src`view, src`nBucketsUsed, dst.store
    ensures Linked(dst, src) && src.Wired(-1) && src.Counted()
    ensures Together(dst, src) == old(Together(dst, src)) && OwnedTogether(dst, src) >= old(OwnedTogether(dst, src))
    ensures dst.Owned() >= old(dst.Owned())
    ensures ok ==> src.view.contents == old(src.view.contents)[i := []]
    ensures !ok ==> src.view.contents == old(src.view.contents) && !dst.store.ample
    ensures !ok ==> dst.Owned() < OverflowNeed(Together(dst, src), dst.nBuckets, dst.hasher)
  {
    ghost var m := dst.store.M();
    HeadCell(m, src.view, -1, i);
    ghost var b := src.view.contents;
    var data := src.store.cells[src.bucket + i].data.value;
    ok := dst.PutHead(data);
    OtherTableAside(m, dst.store.M(), dst.view.id, src.view, -1);
    if !ok {
      assert data in b[i];
      EntryHasPlace(b, data);
      assert Together(dst, src) == dst.All() + multiset{data} + (src.All() - multiset{data});
      PartialNeed(dst.view.contents, data, src.All() - multiset{data}, dst.hasher);
      return;
    }
    m := dst.store.M();
    assert b[i] == [data];
    Replace(b, i, []);
    src.EmptyHead(i);
    OtherTableKept(m, dst.store.M(), src.view.id, -1, dst.view, -1);
    FreeListKept(m, dst.store.M(), src.view.id, -1, dst.freeList, dst.free);
  }

  /** Takes bucket `i` of `src` over into `dst`: the overflow first, then, unless `safe`, the head. */
  method TransferBucket<E(==,!new)>(dst: Table<E>, src: Table<E>, i: nat, safe: bool) returns (ok: bool)
    requires Linked(dst, src) && src.Wired(-1) && src.Counted() && i < src.nBuckets && src.view.contents[i] != []
    modifies dst`view, dst`nBucketsUsed, dst`freeList, dst`free, src`view, src`nBucketsUsed, dst.store
    ensures Linked(dst, src) && src.Wired(-1) && src.Counted()
    ensures Together(dst, src) == old(Together(dst, src)) && OwnedTogether(dst, src) >= old(OwnedTogether(dst, src))
    ensures dst.Owned() >= old(dst.Owned())
    ensures ok && !safe ==> src.view.contents == old(src.view.contents)[i := []]
    ensures !ok || safe ==> src.view.contents == old(src.view.contents)[i := [old(src.view.contents)[i][0]]]
    ensures safe || dst.store.ample ==> ok
    ensures !ok ==> dst.Owned() < OverflowNeed(Together(dst, src), dst.nBuckets, dst.hasher)
  {
    TransferOverflow(dst, src, i);
    ok := true;
    if !safe {
      ok := TransferHead(dst, src, i);
    }
  }

  /** Moves the entries of `src` into `dst`; only moving a head can need a new cell. */
  method TransferEntries<E(==,!new)>(dst: Table<E>, src: Table<E>, safe: bool) returns (ok: bool)
    requires Linked(dst, src) && src.Wired(-1) && src.Counted()
    modifies dst`view, dst`nBucketsUsed, dst`freeList, dst`free, src`view, src`nBucketsUsed, dst.store
    ensures Linked(dst, src) && src.Wired(-1) && src.Counted()
    ensures Together(dst, src) == old(Together(dst, src)) && OwnedTogether(dst, src) >= old(OwnedTogether(dst, src))
    ensures safe ==> ok && HeadsOnly(src.view.contents)
    ensures dst.store.ample ==> ok
    ensures ok && !safe ==> src.All() == multiset{}
    ensures !ok ==> dst.Owned() < OverflowNeed(Together(dst, src), dst.nBuckets, dst.hasher)
    ensures dst.Owned() >= old(dst.Owned())
  {
    var i := 0;
    while i < src.nBuckets
      invariant 0 <= i <= src.nBuckets
      invariant Linked(dst, src) && src.Wired(-1) && src.Counted()
      invariant Together(dst, src) == old(Together(dst, src)) && OwnedTogether(dst, src) >= old(OwnedTogether(dst, src))
      invariant forall j {:trigger src.view.contents[j]} :: 0 <= j < i ==>
                  |src.view.contents[j]| <= if safe then 1 else 0
      invariant dst.Owned() >= old(dst.Owned())
    {
      HeadCell(src.store.M(), src.view, -1, i);
      if src.store.cells[src.bucket + i].data.Some? {
        ok := TransferBucket(dst, src, i, safe);
        if !ok { return; }
      }
      i := i + 1;
    }
    if !safe { EmptyContents(src.view.contents); }
    ok := true;
  }

  lemma {:induction false} TogetherCommutes<E(!new)>(a: Table<E>, b: Table<E>)
    ensures Together(a, b) == Together(b, a)
  {
  }

  /**
   Undoes a half-done transfer.  The cells owned suffice for the entries in their old buckets, so
   two passes, overflow first and heads second, bring everything back without allocating.
   */
  method Rollback<E(==,!new)>(table: Table<E>, newTable: Table<E>)
    requires Linked(table, newTable) && newTable.Wired(-1) && newTable.Counted()
    requires OwnedTogether(table, newTable) >= OverflowNeed(Together(table, newTable), table.nBuckets, table.hasher)
    modifies table`view, table`nBucketsUsed, table`freeList, table`free
    modifies newTable`view, newTable`nBucketsUsed, table.store
    ensures table.Wired(-1) && table.FreeWired() && table.Counted()
    ensures table.All() == old(Together(table, newTable))
  {
    ghost var all := Together(table, newTable);
    var first := TransferEntries(table, newTable, true);
    HeadsNeedNoOverflow(newTable.view.contents);
    var second := TransferEntries(table, newTable, false);
    if !(first && second) {
      assert false;  // hash.c calls abort() here
    }
    assert table.All() + multiset{} == all;
  }

  /** Moves everything into the empty `newTable` and takes its buckets over, or undoes the attempt. */
  method RehashInto<E(==,!new)>(table: Table<E>, newTable: Table<E>) returns (ok: bool)
    requires Linked(newTable, table) && table.Wired(-1) && table.Counted() && table.hasher == newTable.hasher
    requires newTable.All() == multiset{}
    requires OwnedTogether(newTable, table) >= OverflowNeed(table.All(), table.nBuckets, table.hasher)
    modifies table, newTable, table.store
    ensures table.Wired(-1) && table.FreeWired() && table.Counted()
    ensures table.nEntries == old(table.nEntries) && table.All() == old(table.All())
    ensures table.nBuckets == old(if ok then newTable.nBuckets else table.nBuckets)
    ensures table.store.ample ==> ok
  {
    ghost var all := table.All();
    assert Together(newTable, table) == all;
    ok := TransferEntries(newTable, table, false);
    if ok {
      assert newTable.All() + multiset{} == all;
      table.bucket, table.nBuckets := newTable.bucket, newTable.nBuckets;
      table.nBucketsUsed, table.freeList := newTable.nBucketsUsed, newTable.freeList;
      table.view, table.free := newTable.view, newTable.free;
    } else {
      TogetherCommutes(newTable, table);
      table.freeList, table.free := newTable.freeList, newTable.free;
      Rollback(table, newTable);
    }
  }

  /**
   Rehashes into `newSize` buckets (0 when no such size can be allocated).  An allocation can fail unless memory is
   ample; a failure half way is undone with the cells already owned.
   */
  method Rehash<E(==,!new)>(table: Table<E>, newSize: nat) returns (ok: bool)
    requires table.Wired(-1) && table.FreeWired() && table.Counted()
    modifies table, table.store
    ensures table.Wired(-1) && table.FreeWired() && table.Counted()
    ensures table.All() == old(table.All()) && table.nEntries == old(table.nEntries)
    ensures ok ==> table.nBuckets == newSize > 0
    ensures !ok ==> table.nBuckets == old(table.nBuckets) && table.nBucketsUsed == old(table.nBucketsUsed)
    ensures table.store.ample && newSize > 0 ==> ok
  {
    if newSize == 0 { return false; }
    if newSize == table.nBuckets { return true; }
    var granted: bool := *;
    if !table.store.ample && !granted { return false; }
    UsedIsImage(table.view.contents, table.hasher);
    ghost var m := table.store.M();
    var newTable := new Table(table.hasher, table.comparator, table.store, newSize, table.freeList, table.free,
        table.view.id + 1);
    BucketsFramed(m, table.store.M(), table.view);
    ok := RehashInto(table, newTable);
    UsedIsImage(table.view.contents, table.hasher);
  }

  // ---------- the operations users call ----------

  /** A bucket without a match holds no match anywhere in the table. */
  lemma {:induction false} AbsentMeansAbsent<E(!new)>(table: Table<E>, entry: E)
    requires table.Valid()
    requires var b := table.view.contents; var h := table.hasher(entry, |b|); table.FirstMatch(b[h], entry) == |b[h]|
    ensures forall x :: x in table.All() ==> !Match(table.comparator, entry, x)
  {
    forall x | x in table.All()
      ensures !Match(table.comparator, entry, x)
    {
      NoMatchAnywhere(table.view.contents, table.hasher, table.comparator, entry, x);
    }
  }

  lemma {:induction false} PresentMeansPresent<E(!new)>(table: Table<E>, entry: E)
    requires table.Valid()
    requires var b := table.view.contents; var h := table.hasher(entry, |b|); table.FirstMatch(b[h], entry) < |b[h]|
    ensures var b := table.view.contents; var h := table.hasher(entry, |b|);
            var x := b[h][table.FirstMatch(b[h], entry)];
            x in table.All() && Match(table.comparator, entry, x)
  {
    var b := table.view.contents;
    var h := table.hasher(entry, |b|);
    var x := b[h][table.FirstMatch(b[h], entry)];
    assert x in b[h];
    EntryHasPlace(b, x);
  }

  /** Adds `entry` to the bucket starting at `bucketHead`; -1 when no cell can be had. */
  method StoreEntry<E(==,!new)>(table: Table<E>, entry: E, bucketHead: int) returns (err: int)
    requires table.Valid() && bucketHead == table.bucket + table.hasher(entry, table.nBuckets)
    requires forall x :: x in table.All() ==> !Match(table.comparator, entry, x)
    modifies table, table.store
    ensures table.Valid() && (err == 1 || err == -1)
    ensures table.All() == if err == 1 then old(table.All()) + multiset{entry} else old(table.All())
    ensures table.store.ample ==> err == 1
  {
    ghost var h: nat := table.hasher(entry, table.nBuckets);
    HeadCell(table.store.M(), table.view, -1, h);
    PutCounts(table.view.contents, h, entry);
    PutPlaced(table.view.contents, h, entry, table.hasher);
    UniqueAdd(table.All(), table.comparator, table.hasher, entry);
    if table.store.cells[bucketHead].data.Some? {
      var ok := table.AddOverflow(bucketHead - table.bucket, entry);
      if !ok { return -1; }
      table.nEntries := table.nEntries + 1;
      return 1;
    }
    table.FillHead(bucketHead - table.bucket, entry);
    table.nEntries := table.nEntries + 1;
    table.nBucketsUsed := table.nBucketsUsed + 1;
    return 1;
  }

  /**
   Inserts `entry` unless a match is present.  `grow` is the bucket count the tuning asks for, if it
   asks for growth; its value is arbitrary here.
   */
  method InsertIfAbsent<E(==,!new)>(table: Table<E>, entry: E, grow: Option<nat>) returns (err: int, matched: Option<E>)
    requires table.Valid()
    modifies table, table.store
    ensures table.Valid() && err in {-1, 0, 1}
    ensures err == 0 <==> matched.Some?
    ensures err == 0 ==> matched.value in old(table.All()) && Match(table.comparator, entry, matched.value)
    ensures err != 0 ==> forall x :: x in old(table.All()) ==> !Match(table.comparator, entry, x)
    ensures table.All() == if err == 1 then old(table.All()) + multiset{entry} else old(table.All())
    ensures table.store.ample && (grow.Some? ==> grow.value > 0) ==> err != -1
  {
    var bucketHead;
    matched, bucketHead := table.FindEntry(entry, false);
    if matched.Some? {
      PresentMeansPresent(table, entry);
      return 0, matched;
    }
    AbsentMeansAbsent(table, entry);
    if grow.Some? {
      var ok := Resize(table, grow.value);
      if !ok { return -1, None; }
      var again;
      again, bucketHead := table.FindEntry(entry, false);
      if again.Some? {
        PresentMeansPresent(table, entry);
        assert false;  // hash.c calls abort() here
      }
    }
    err := StoreEntry(table, entry, bucketHead);
    matched := None;
  }

  /** Rehashes a valid table; it stays valid and keeps its entries either way. */
  method Resize<E(==,!new)>(table: Table<E>, newSize: nat) returns (ok: bool)
    requires table.Valid()
    modifies table, table.store
    ensures table.Valid() && table.All() == old(table.All())
    ensures !ok ==> table.nBuckets == old(table.nBuckets) && table.nBucketsUsed == old(table.nBucketsUsed)
    ensures ok ==> table.nBuckets == newSize
    ensures table.store.ample && newSize > 0 ==> ok
  {
    UsedAtMostSize(table.view.contents);
    ok := Rehash(table, newSize);
    UsedAtMostSize(table.view.contents);
  }

  /** Brings the statistics up to date after entry `j` of bucket `h` was unlinked. */
  method CountOut<E(==,!new)>(table: Table<E>, bucketHead: int, ghost h: nat, ghost b: Chains<E>, ghost j: nat)
    returns (emptied: bool)
    requires table.Wired(-1) && table.FreeWired() && Sound(table.hasher, table.comparator) && InRange(table.hasher)
    requires h < |b| && j < |b[h]| && Placed(b, table.hasher) && Unique(Entries(b), table.comparator)
    requires table.view.contents == b[h := Without(b[h], j)] && bucketHead == table.bucket + h
    requires table.nBucketsUsed == Used(b) && table.nEntries == Size(b)
    modifies table`nEntries, table`nBucketsUsed
    ensures table.Valid() && table.All() + multiset{b[h][j]} == Entries(b)
  {
    RemoveKeeps(b, h, j, table.hasher, table.comparator);
    HeadCell(table.store.M(), table.view, -1, h);
    table.nEntries := table.nEntries - 1;
    emptied := table.store.cells[bucketHead].data.None?;
    if emptied {
      table.nBucketsUsed := table.nBucketsUsed - 1;
    }
  }

  /** Unlinks the entry matching `entry`; tells whether its bucket became empty. */
  method TakeOut<E(==,!new)>(table: Table<E>, entry: E) returns (data: Option<E>, emptied: bool)
    requires table.Valid()
    modifies table, table.store
    ensures table.Valid() && table.Owned() == old(table.Owned())
    ensures data.None? ==> table.All() == old(table.All())
    ensures data.None? ==> forall x :: x in old(table.All()) ==> !Match(table.comparator, entry, x)
    ensures data.Some? ==> Match(table.comparator, entry, data.value)
    ensures data.Some? ==> table.All() + multiset{data.value} == old(table.All())
  {
    ghost var b := table.view.contents;
    ghost var h: nat := table.hasher(entry, |b|);
    ghost var j := table.FirstMatch(b[h], entry);
    if j == |b[h]| { AbsentMeansAbsent(table, entry); }
    var bucketHead;
    data, bucketHead := table.FindEntry(entry, true);
    if data.None? { return None, false; }
    emptied := CountOut(table, bucketHead, h, b, j);
  }

  /**
   Removes the entry matching `entry`.  `shrink` is the bucket count the tuning asks for when a
   bucket became empty, if it asks for shrinking; its value is arbitrary here.
   */
  method Remove<E(==,!new)>(table: Table<E>, entry: E, shrink: Option<nat>) returns (data: Option<E>)
    requires table.Valid()
    modifies table, table.store
    ensures table.Valid()
    ensures data.None? ==> table.All() == old(table.All())
    ensures data.None? ==> forall x :: x in old(table.All()) ==> !Match(table.comparator, entry, x)
    ensures data.Some? ==> Match(table.comparator, entry, data.value)
    ensures data.Some? ==> table.All() + multiset{data.value} == old(table.All())
  {
    var emptied;
    data, emptied := TakeOut(table, entry);
    if data.Some? && emptied && shrink.Some? {
      var ok := Resize(table, shrink.value);
      if !ok {
        table.freeList, table.free := NULL, [];
      }
    }
  }
}
