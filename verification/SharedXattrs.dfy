/**
 Which attributes are shared between inodes.  Attributes used more than once go into one table, in a
 canonical order; every inode refers to at most 128 of them by offset and keeps the others itself.
 */
module SharedXattrs {
  import opened Bytes
  import opened Order
  import opened Xattrs

  const MAX_SHARED: nat := 128

  // ---------- canonical order ----------

  /** Descending by key, then by length of the value, then by value. */
  predicate Before(x: Xattr, y: Xattr) {
    if x.key != y.key then Less(y.key, x.key) else
    if |x.value| != |y.value| then |y.value| < |x.value| else Less(y.value, x.value)
  }

  /** Written out: the greater key first, of equal keys the longer value, of equally long values the greater one. */
  lemma {:induction false} BeforeMeans(x: Xattr, y: Xattr)
    ensures Before(x, y) <==>
            || (exists k: nat :: DiffersAt(y.key, x.key, k))
            || (x.key == y.key && |x.value| > |y.value|)
            || (x.key == y.key && |x.value| == |y.value| && exists k: nat :: DiffersAt(y.value, x.value, k))
  {
    LessMeans(y.key, x.key);
    LessMeans(y.value, x.value);
    LessIrreflexive(x.key);
  }

  lemma {:induction false} BeforeTransitive(x: Xattr, y: Xattr, z: Xattr)
    requires Before(x, y) && Before(y, z)
    ensures Before(x, z)
  {
    if x.key != y.key && y.key != z.key {
      LessTransitive(z.key, y.key, x.key);
      LessIrreflexive(x.key);
    } else if x.key == y.key == z.key && |x.value| == |y.value| == |z.value| {
      LessTransitive(z.value, y.value, x.value);
    }
  }

  lemma {:induction false} BeforeIsOrder()
    ensures StrictOrder(Before)
  {
    forall x: Xattr
      ensures !Before(x, x)
    {
      LessIrreflexive(x.value);
    }
    forall x, y, z | Before(x, y) && Before(y, z)
      ensures Before(x, z)
    {
      BeforeTransitive(x, y, z);
    }
    forall x: Xattr, y: Xattr
      ensures x == y || Before(x, y) || Before(y, x)
    {
      LessTotal(x.key, y.key);
      LessTotal(x.value, y.value);
    }
  }

  // ---------- counting uses ----------

  ghost function All(nodes: seq<seq<Xattr>>): seq<Xattr> {
    if nodes == [] then [] else All(nodes[..|nodes| - 1]) + nodes[|nodes| - 1]
  }

  /** How often the attribute occurs on the inodes. */
  ghost function Uses(nodes: seq<seq<Xattr>>, x: Xattr): nat {
    multiset(All(nodes))[x]
  }

  ghost predicate Counted(xs: seq<Xattr>, counts: map<Xattr, nat>) {
    && (forall x {:trigger x in counts} :: x in counts <==> x in xs)
    && (forall x {:trigger counts[x]} :: x in counts ==> counts[x] == multiset(xs)[x])
  }

  lemma {:induction false} CountOne(xs: seq<Xattr>, counts: map<Xattr, nat>, x: Xattr)
    requires Counted(xs, counts)
    ensures Counted(xs + [x], counts[x := (if x in counts then counts[x] else 0) + 1])
  {
    assert x !in xs ==> multiset(xs)[x] == 0;
  }

  /** One table entry per attribute in use, with its use count. */
  method CountUses(nodes: seq<seq<Xattr>>) returns (counts: map<Xattr, nat>)
    ensures forall x :: x in counts <==> Uses(nodes, x) > 0
    ensures forall x :: x in counts ==> counts[x] == Uses(nodes, x)
  {
    counts := map[];
    ghost var seen: seq<Xattr> := [];
    for i := 0 to |nodes|
      invariant seen == All(nodes[..i]) && Counted(seen, counts)
    {
      ghost var before := seen;
      var xs := nodes[i];
      for j := 0 to |xs|
        invariant seen == before + xs[..j] && Counted(seen, counts)
      {
        CountOne(seen, counts, xs[j]);
        seen := seen + [xs[j]];
        counts := counts[xs[j] := (if xs[j] in counts then counts[xs[j]] else 0) + 1];
      }
      assert xs[..|xs|] == xs && nodes[..i + 1][..i] == nodes[..i];
    }
    assert nodes[..|nodes|] == nodes;
    assert forall x :: x in seen <==> multiset(seen)[x] > 0;
  }

  // ---------- the table ----------

  /** The shared attributes: each exactly once, in canonical order. */
  ghost predicate IsTable(nodes: seq<seq<Xattr>>, table: seq<Xattr>) {
    && Increasing(table, Before)
    && forall x {:trigger x in table} :: x in table <==> Uses(nodes, x) > 1
  }

  /** The table does not depend on the order in which the attributes were enumerated. */
  lemma {:induction false} TableUnique(nodes: seq<seq<Xattr>>, a: seq<Xattr>, b: seq<Xattr>)
    requires IsTable(nodes, a) && IsTable(nodes, b)
    ensures a == b
  {
    BeforeIsOrder();
    SortedUnique(a, b, Before);
  }

  /** How an attribute is stored; Xattrs.Store is the way the format needs. */
  type Storer = Xattr -> Stored

  function StoredAll(xs: seq<Xattr>, store: Storer): (es: seq<Stored>)
    ensures |es| == |xs|
  {
    seq(|xs|, i requires 0 <= i < |xs| => store(xs[i]))
  }

  /** Where the entries of the table start, and where it ends. */
  ghost function Offsets(table: seq<Xattr>, store: Storer): (o: seq<nat>)
    ensures |o| == |table| + 1
  {
    if table == [] then [0] else
    var n := |table| - 1;
    var o := Offsets(table[..n], store);
    o + [o[n] + EntrySize(store(table[n]))]
  }

  ghost function TableSize(table: seq<Xattr>, store: Storer): nat {
    Offsets(table, store)[|table|]
  }

  lemma {:induction false} OffsetsAppend(table: seq<Xattr>, store: Storer, x: Xattr, n: nat)
    requires n == EntrySize(store(x))
    ensures Offsets(table + [x], store) == Offsets(table, store) + [TableSize(table, store) + n]
  {
    assert (table + [x])[..|table|] == table;
  }

  lemma {:induction false} OffsetsMultiple(table: seq<Xattr>, store: Storer, i: nat)
    requires i <= |table|
    ensures Offsets(table, store)[i] % 4 == 0
  {
    if table != [] {
      var n := |table| - 1;
      OffsetsMultiple(table[..n], store, if i <= n then i else n);
    }
  }

  /** These are the offsets at which the entries are written. */
  lemma {:induction false} OffsetsWritten(table: seq<Xattr>, store: Storer, i: nat)
    requires i <= |table|
    ensures Offset(Encoded(StoredAll(table, store)), i) == Offsets(table, store)[i]
  {
    var n := |table| - 1;
    if i == |table| && table != [] {
      OffsetsWritten(table, store, n);
      FlatSlice(Encoded(StoredAll(table, store)), n);
    } else if table != [] {
      OffsetsWritten(table[..n], store, i);
      assert Encoded(StoredAll(table, store))[..i] == Encoded(StoredAll(table[..n], store))[..i];
    }
  }

  ghost predicate Locates(table: seq<Xattr>, offsets: map<Xattr, nat>, o: seq<nat>)
    requires |o| == |table| + 1
  {
    && (forall x {:trigger x in offsets} :: x in offsets <==> x in table)
    && (forall i {:trigger table[i]} :: 0 <= i < |table| ==> table[i] in offsets && offsets[table[i]] == o[i])
  }

  /** `offsets` gives every shared attribute its place in the table. */
  ghost predicate Located(table: seq<Xattr>, store: Storer, offsets: map<Xattr, nat>) {
    Locates(table, offsets, Offsets(table, store))
  }

  lemma {:induction false} LocateOne(table: seq<Xattr>, offsets: map<Xattr, nat>, o: seq<nat>, x: Xattr, end: nat)
    requires |o| == |table| + 1 && Locates(table, offsets, o) && x !in table
    ensures Locates(table + [x], offsets[x := o[|table|]], o + [end])
  {
  }

  /** Sorts the attributes, whatever order they are enumerated in. */
  method SortCounted(counts: map<Xattr, nat>) returns (sorted: seq<Xattr>)
    ensures Increasing(sorted, Before)
    ensures forall x :: x in sorted <==> x in counts
  {
    BeforeIsOrder();
    sorted := [];
    var left := counts.Keys;
    while left != {}
      invariant Increasing(sorted, Before) && left <= counts.Keys
      invariant forall x :: x in sorted <==> x in counts && x !in left
      decreases |left|
    {
      var x :| x in left;
      InsertIncreasing(sorted, x, Before);
      InsertElements(sorted, x, Before);
      sorted, left := Insert(sorted, x, Before), left - {x};
    }
  }

  /** `table` is the part of the sorted list that is used more than once. */
  ghost predicate Keeps(sorted: seq<Xattr>, counts: map<Xattr, nat>, table: seq<Xattr>) {
    && (forall x {:trigger x in sorted} :: x in sorted ==> x in counts)
    && (forall x {:trigger x in table} :: x in table <==> x in sorted && counts[x] > 1)
    && Increasing(table, Before)
  }

  lemma {:induction false} KeepOne(sorted: seq<Xattr>, i: nat, counts: map<Xattr, nat>, table: seq<Xattr>)
    requires i < |sorted| && Increasing(sorted, Before) && (forall x :: x in sorted ==> x in counts)
    requires Keeps(sorted[..i], counts, table)
    ensures sorted[i] in counts && sorted[i] !in table
    ensures Keeps(sorted[..i + 1], counts, if counts[sorted[i]] > 1 then table + [sorted[i]] else table)
  {
    var x, front := sorted[i], sorted[..i];
    assert x in sorted;
    assert sorted[..i + 1] == front + [x];
    BeforeIsOrder();
    forall y | y in table
      ensures Before(y, x)
    {
      assert y in front;
      var j :| 0 <= j < i && front[j] == y;
      assert Before(sorted[j], sorted[i]);
    }
    forall j, k | 0 <= j < k < |table + [x]|
      ensures Before((table + [x])[j], (table + [x])[k])
    {
      if k < |table| { assert Before(table[j], table[k]); } else { assert table[j] in table; }
    }
  }

  ghost predicate Built(front: seq<Xattr>, counts: map<Xattr, nat>, store: Storer, table: seq<Xattr>,
                        offsets: map<Xattr, nat>, end: nat) {
    Keeps(front, counts, table) && Located(table, store, offsets) && end == TableSize(table, store)
  }

  lemma {:induction false} BuildOne(sorted: seq<Xattr>, i: nat, counts: map<Xattr, nat>, store: Storer,
                                    table: seq<Xattr>, offsets: map<Xattr, nat>, end: nat)
    requires i < |sorted| && Increasing(sorted, Before) && (forall x :: x in sorted ==> x in counts)
    requires Built(sorted[..i], counts, store, table, offsets, end)
    ensures sorted[i] in counts
    ensures counts[sorted[i]] > 1 ==>
              Built(sorted[..i + 1], counts, store, table + [sorted[i]], offsets[sorted[i] := end],
                  end + EntrySize(store(sorted[i])))
    ensures counts[sorted[i]] <= 1 ==> Built(sorted[..i + 1], counts, store, table, offsets, end)
  {
    var x := sorted[i];
    KeepOne(sorted, i, counts, table);
    var n := EntrySize(store(x));
    OffsetsAppend(table, store, x, n);
    LocateOne(table, offsets, Offsets(table, store), x, end + n);
  }

  method ComputeShared(nodes: seq<seq<Xattr>>, store: Storer)
    returns (table: seq<Xattr>, offsets: map<Xattr, nat>, end: nat)
    ensures IsTable(nodes, table) && Located(table, store, offsets) && end == TableSize(table, store)
  {
    var counts := CountUses(nodes);
    var sorted := SortCounted(counts);
    table, offsets, end := [], map[], 0;
    for i := 0 to |sorted|
      invariant Built(sorted[..i], counts, store, table, offsets, end)
    {
      var x := sorted[i];
      BuildOne(sorted, i, counts, store, table, offsets, end);
      if counts[x] > 1 {
        table, offsets, end := table + [x], offsets[x := end], end + EntrySize(store(x));
      }
    }
    assert sorted[..|sorted|] == sorted;
  }
}
