/** The layout passes over the inode list: sharing, sizing, placing. */
module Planner {
  import opened Common
  import opened Bytes
  import opened Layout
  import opened Xattrs
  import opened XattrArea
  import opened SharedXattrs
  import opened NodeXattrs
  import opened ErofsNode
  import opened NodeReader
  import opened ErofsImage

  /** The inode list as the tree pass hands it over. */
  ghost predicate ListOk(nodes: seq<Inode>, store: Storer) {
    forall i {:trigger nodes[i]} :: 0 <= i < |nodes| ==> NodeOk(nodes[i], store) && TargetsIn(nodes[i].body, |nodes|)
  }

  function XattrLists(nodes: seq<Inode>): (xs: seq<seq<Xattr>>)
    ensures |xs| == |nodes|
  {
    seq(|nodes|, i requires 0 <= i < |nodes| => nodes[i].xattrs)
  }

  lemma {:induction false} UsedSomewhere(lists: seq<seq<Xattr>>, x: Xattr)
    requires Uses(lists, x) > 0
    ensures exists i :: 0 <= i < |lists| && x in lists[i]
  {
    var n := |lists| - 1;
    assert x in All(lists);
    if x !in lists[n] {
      assert x in All(lists[..n]);
      UsedSomewhere(lists[..n], x);
      var i :| 0 <= i < n && x in lists[..n][i];
      assert x in lists[i];
    }
  }

  lemma {:induction false} TableFits(nodes: seq<Inode>, store: Storer, table: seq<Xattr>)
    requires ListOk(nodes, store) && IsTable(XattrLists(nodes), table)
    ensures AllFit(StoredAll(table, store))
  {
    forall k | 0 <= k < |table|
      ensures Fits(StoredAll(table, store)[k])
    {
      var x := table[k];
      assert x in table;
      UsedSomewhere(XattrLists(nodes), x);
      var i :| 0 <= i < |nodes| && x in XattrLists(nodes)[i];
      var j :| 0 <= j < |nodes[i].xattrs| && nodes[i].xattrs[j] == x;
      assert Fits(StoredAll(nodes[i].xattrs, store)[j]);
    }
  }

  ghost predicate AllAssigned(nodes: seq<Inode>, offsets: map<Xattr, nat>, slots: seq<seq<Option<nat>>>) {
    |slots| == |nodes| && forall i {:trigger slots[i]} :: 0 <= i < |nodes| ==>
      Assigned(nodes[i].xattrs, offsets, slots[i])
  }

  method AssignAll(nodes: seq<Inode>, offsets: map<Xattr, nat>) returns (slots: seq<seq<Option<nat>>>)
    ensures AllAssigned(nodes, offsets, slots)
  {
    slots := [];
    for i := 0 to |nodes|
      invariant |slots| == i
      invariant forall k {:trigger slots[k]} :: 0 <= k < i ==> Assigned(nodes[k].xattrs, offsets, slots[k])
    {
      var s := AssignOffsets(nodes[i].xattrs, offsets);
      slots := slots + [s];
    }
  }

  /** Room for one inode, and whether it can have the compact form. */
  method SizeOne(n: Inode, slots: seq<Option<nat>>, store: Storer, sec: nat, nsec: nat)
    returns (s: Sizes, compact: bool)
    requires NodeOk(n, store) && |slots| == |n.xattrs|
    ensures SizedAs(n, slots, store, sec, nsec, s, compact)
  {
    var nBlocks, tail := ComputeBodySize(n.mode, n.body);
    var size := match n.body
      case Directory(_) => 4096 * nBlocks + tail
      case Symlink(target) => |target|
      case Inline(content) => |content|
      case External(sz) => sz
      case Plain(sz) => sz;
    compact := n.sec == sec && n.nsec == nsec && n.nlink <= 0xffff && n.uid <= 0xffff && n.gid <= 0xffff &&
      size <= 0xffff_ffff;
    var nShared, unshared := ComputeCounts(n.xattrs, slots, store);
    s := Sizes(n.body.Symlink?, nBlocks, tail, InodeSize(compact), AreaSize(nShared, unshared));
  }

  /** The size of one inode, as `SizeOne` finds it. */
  ghost predicate SizedAs(n: Inode, slots: seq<Option<nat>>, store: Storer, sec: nat, nsec: nat, s: Sizes,
                          compact: bool) {
    && |slots| == |n.xattrs| && (n.body.External? ==> n.body.size > 0) && SizesOk(s)
    && (compact <==> Compact(n, sec, nsec))
    && s == SizesOf(n.body, InodeSize(compact),
                    AreaSize(|Shared(n.xattrs, slots)|, TableSize(Unshared(n.xattrs, slots), store)))
  }

  ghost predicate Sized(nodes: seq<Inode>, slots: seq<seq<Option<nat>>>, store: Storer, sec: nat, nsec: nat,
                        ss: seq<Sizes>, compacts: seq<bool>, k: nat)
    requires |slots| == |nodes| && k <= |nodes|
  {
    && |ss| == |compacts| == k
    && forall i {:trigger ss[i]} :: 0 <= i < k ==> SizedAs(nodes[i], slots[i], store, sec, nsec, ss[i], compacts[i])
  }

  lemma {:induction false} SizedNext(nodes: seq<Inode>, slots: seq<seq<Option<nat>>>, store: Storer, sec: nat,
                                     nsec: nat, ss: seq<Sizes>, compacts: seq<bool>, k: nat, s: Sizes, compact: bool)
    requires |slots| == |nodes| && k < |nodes| && Sized(nodes, slots, store, sec, nsec, ss, compacts, k)
    requires SizedAs(nodes[k], slots[k], store, sec, nsec, s, compact)
    ensures Sized(nodes, slots, store, sec, nsec, ss + [s], compacts + [compact], k + 1)
  {
    var ss', compacts' := ss + [s], compacts + [compact];
    forall i | 0 <= i < k + 1
      ensures SizedAs(nodes[i], slots[i], store, sec, nsec, ss'[i], compacts'[i])
    {
      if i < k {
        assert ss'[i] == ss[i] && compacts'[i] == compacts[i];
        assert SizedAs(nodes[i], slots[i], store, sec, nsec, ss[i], compacts[i]);
      }
    }
  }

  method SizeAll(nodes: seq<Inode>, slots: seq<seq<Option<nat>>>, store: Storer, sec: nat, nsec: nat,
                 ghost offsets: map<Xattr, nat>)
    returns (ss: seq<Sizes>, compacts: seq<bool>)
    requires ListOk(nodes, store) && AllAssigned(nodes, offsets, slots)
    ensures Sized(nodes, slots, store, sec, nsec, ss, compacts, |nodes|)
  {
    ss, compacts := [], [];
    for i := 0 to |nodes|
      invariant Sized(nodes, slots, store, sec, nsec, ss, compacts, i)
    {
      assert Assigned(nodes[i].xattrs, offsets, slots[i]) && NodeOk(nodes[i], store);
      var s, compact := SizeOne(nodes[i], slots[i], store, sec, nsec);
      SizedNext(nodes, slots, store, sec, nsec, ss, compacts, i, s, compact);
      ss, compacts := ss + [s], compacts + [compact];
    }
  }

  lemma {:induction false} PlanNodesFrom(p: Plan, ss: seq<Sizes>)
    requires ListOk(p.nodes, p.c.store) && AllAssigned(p.nodes, p.c.offsets, p.slots)
    requires |p.filters| == |p.ps| == |p.nodes|
    requires Sized(p.nodes, p.slots, p.c.store, p.c.sec, p.c.nsec, ss, p.compacts, |p.nodes|)
    ensures NodesPlanned(p) && AllSizes(p) == ss
  {
    forall i: nat | i < |p.nodes|
      ensures NodePlanned(p, i)
    {
      assert NodeOk(p.nodes[i], p.c.store) && Assigned(p.nodes[i].xattrs, p.c.offsets, p.slots[i]);
      assert SizedAs(p.nodes[i], p.slots[i], p.c.store, p.c.sec, p.c.nsec, ss[i], p.compacts[i]);
    }
    assert NodesPlanned(p);
    forall i: nat | i < |p.nodes|
      ensures AllSizes(p)[i] == ss[i]
    {
      assert NodePlanned(p, i);
      assert SizedAs(p.nodes[i], p.slots[i], p.c.store, p.c.sec, p.c.nsec, ss[i], p.compacts[i]);
    }
  }

  lemma {:induction false} TableLength(table: seq<Xattr>, store: Storer)
    ensures TableSize(table, store) == |Flat(Encoded(StoredAll(table, store)))|
  {
    OffsetsWritten(table, store, |table|);
    assert Encoded(StoredAll(table, store))[..|table|] == Encoded(StoredAll(table, store));
  }

  lemma {:induction false} PlanComplete(p: Plan, ss: seq<Sizes>, tableSize: nat)
    requires NodesPlanned(p) && AllSizes(p) == ss && AllSizesOk(ss) && p.ps == Places(ss)
    requires Located(p.c.table, p.c.store, p.c.offsets) && AllFit(StoredAll(p.c.table, p.c.store))
    requires p.c.inodesEnd == RoundUp(End(p.ps), 32) && tableSize == |TableBytes(p.c)|
    requires p.dataStart == RoundUp(p.c.inodesEnd + tableSize, 4096)
    ensures Planned(p)
  {
    PlacesLaid(ss);
  }

  lemma {:induction false} SizesAreOk(nodes: seq<Inode>, slots: seq<seq<Option<nat>>>, store: Storer, sec: nat,
                                      nsec: nat, ss: seq<Sizes>, compacts: seq<bool>)
    requires |slots| == |nodes| && Sized(nodes, slots, store, sec, nsec, ss, compacts, |nodes|)
    ensures AllSizesOk(ss)
  {
    forall i | 0 <= i < |ss|
      ensures SizesOk(ss[i])
    {
      assert SizedAs(nodes[i], slots[i], store, sec, nsec, ss[i], compacts[i]);
    }
  }

  /** Every inode is where the placing pass puts it. */
  ghost predicate InOrder(p: Plan) {
    NodesPlanned(p) && AllSizesOk(AllSizes(p)) && p.ps == Places(AllSizes(p))
  }

  /** Everything that is settled before inodes are placed. */
  ghost predicate Prepared(nodes: seq<Inode>, c0: Setting, slots: seq<seq<Option<nat>>>, filters: seq<nat>,
                           ss: seq<Sizes>, compacts: seq<bool>, tableSize: nat) {
    && ListOk(nodes, c0.store) && AllAssigned(nodes, c0.offsets, slots) && |filters| == |nodes|
    && Sized(nodes, slots, c0.store, c0.sec, c0.nsec, ss, compacts, |nodes|)
    && Located(c0.table, c0.store, c0.offsets) && AllFit(StoredAll(c0.table, c0.store))
    && tableSize == |TableBytes(c0)|
  }

  lemma {:induction false} PlanPlaced(p: Plan, c0: Setting, ss: seq<Sizes>, tableSize: nat)
    requires Prepared(p.nodes, c0, p.slots, p.filters, ss, p.compacts, tableSize)
    requires AllSizesOk(ss) && p.ps == Places(ss) && p.c == c0.(inodesEnd := RoundUp(End(p.ps), 32))
    requires p.dataStart == RoundUp(p.c.inodesEnd + tableSize, 4096)
    ensures Planned(p) && InOrder(p)
  {
    assert TableBytes(p.c) == TableBytes(c0);
    PlanNodesFrom(p, ss);
    PlanComplete(p, ss, tableSize);
  }

  /** All decisions in one place. */
  method Assemble(nodes: seq<Inode>, c0: Setting, slots: seq<seq<Option<nat>>>, filters: seq<nat>, compacts: seq<bool>,
                  ps: seq<Place>, inodesEnd: nat, tableSize: nat) returns (p: Plan)
    ensures p.nodes == nodes && p.slots == slots && p.filters == filters && p.compacts == compacts && p.ps == ps
    ensures p.c == c0.(inodesEnd := inodesEnd) && p.dataStart == RoundUp(p.c.inodesEnd + tableSize, 4096)
  {
    p := Plan(nodes, c0.(inodesEnd := inodesEnd), slots, filters, compacts, ps, RoundUp(inodesEnd + tableSize, 4096));
  }

  /** Placing the sized inodes completes the plan. */
  method PlaceAll(nodes: seq<Inode>, c0: Setting, slots: seq<seq<Option<nat>>>, filters: seq<nat>, ss: seq<Sizes>,
                  compacts: seq<bool>, tableSize: nat) returns (p: Plan)
    requires Prepared(nodes, c0, slots, filters, ss, compacts, tableSize)
    ensures Planned(p) && InOrder(p) && p.nodes == nodes && p.filters == filters
    ensures p.c == c0.(inodesEnd := p.c.inodesEnd)
  {
    SizesAreOk(nodes, slots, c0.store, c0.sec, c0.nsec, ss, compacts);
    var ps, nDataBlocks, inodesEnd := ComputeInodes(ss);
    p := Assemble(nodes, c0, slots, filters, compacts, ps, inodesEnd, tableSize);
    PlanPlaced(p, c0, ss, tableSize);
  }

  /** The plan of a list of inodes. */
  ghost predicate IsPlan(p: Plan, nodes: seq<Inode>, sec: nat, nsec: nat, store: Storer, filters: seq<nat>) {
    && Planned(p) && p.nodes == nodes && p.filters == filters && p.c.sec == sec && p.c.nsec == nsec
    && p.c.store == store
    && IsTable(XattrLists(nodes), p.c.table) && InOrder(p)
  }

  /** All decisions for a list of inodes; the time stamp is the oldest one, name filters come from outside. */
  method MakePlan(nodes: seq<Inode>, sec: nat, nsec: nat, store: Storer, filters: seq<nat>) returns (p: Plan)
    requires ListOk(nodes, store) && |filters| == |nodes|
    ensures IsPlan(p, nodes, sec, nsec, store, filters)
  {
    var table, offsets, tableSize := ComputeShared(XattrLists(nodes), store);
    var slots := AssignAll(nodes, offsets);
    var ss, compacts := SizeAll(nodes, slots, store, sec, nsec, offsets);
    TableFits(nodes, store, table);
    TableLength(table, store);
    p := PlaceAll(nodes, Setting(sec, nsec, 0, table, store, offsets), slots, filters, ss, compacts, tableSize);
  }

  // ---------- there is only one plan ----------

  lemma {:induction false} AssignedUnique(xs: seq<Xattr>, offsets: map<Xattr, nat>, a: seq<Option<nat>>,
        b: seq<Option<nat>>, k: nat)
    requires Assigned(xs, offsets, a) && Assigned(xs, offsets, b) && k <= |xs|
    ensures a[..k] == b[..k]
  {
    if k > 0 {
      AssignedUnique(xs, offsets, a, b, k - 1);
      assert a[k - 1] == b[k - 1];
      assert a[..k] == a[..k - 1] + [a[k - 1]] && b[..k] == b[..k - 1] + [b[k - 1]];
    }
  }

  lemma {:induction false} LocatedUnique(table: seq<Xattr>, store: Storer, a: map<Xattr, nat>, b: map<Xattr, nat>)
    requires Located(table, store, a) && Located(table, store, b)
    ensures a == b
  {
    forall x | x in a
      ensures x in b && a[x] == b[x]
    {
      var i :| 0 <= i < |table| && table[i] == x;
    }
    assert forall x :: x in b ==> x in a;
  }

  lemma {:induction false} SlotsUnique(p: Plan, p': Plan)
    requires NodesPlanned(p) && NodesPlanned(p') && p.nodes == p'.nodes && p.c.offsets == p'.c.offsets
    requires p.c.sec == p'.c.sec && p.c.nsec == p'.c.nsec
    ensures p.slots == p'.slots && p.compacts == p'.compacts
  {
    forall i: nat | i < |p.nodes|
      ensures p.slots[i] == p'.slots[i] && p.compacts[i] == p'.compacts[i]
    {
      assert NodePlanned(p, i) && NodePlanned(p', i);
      var n := |p.nodes[i].xattrs|;
      AssignedUnique(p.nodes[i].xattrs, p.c.offsets, p.slots[i], p'.slots[i], n);
      assert p.slots[i][..n] == p.slots[i] && p'.slots[i][..n] == p'.slots[i];
    }
  }

  lemma {:induction false} SizesUnique(p: Plan, p': Plan)
    requires NodesPlanned(p) && NodesPlanned(p') && p.nodes == p'.nodes && p.slots == p'.slots
    requires p.compacts == p'.compacts
    requires p.c.store == p'.c.store
    ensures AllSizes(p) == AllSizes(p')
  {
    forall i: nat | i < |p.nodes|
      ensures AllSizes(p)[i] == AllSizes(p')[i]
    {
      assert NodePlanned(p, i) && NodePlanned(p', i);
    }
  }

  lemma {:induction false} PlacesUnique(p: Plan, p': Plan)
    requires InOrder(p) && InOrder(p') && p.nodes == p'.nodes && p.slots == p'.slots && p.compacts == p'.compacts
    requires p.c.store == p'.c.store
    ensures p.ps == p'.ps
  {
    SizesUnique(p, p');
  }

  lemma {:induction false} EndsUnique(p: Plan, p': Plan)
    requires Planned(p) && Planned(p') && p.ps == p'.ps && p.c.table == p'.c.table && p.c.store == p'.c.store
    ensures p.c.inodesEnd == p'.c.inodesEnd && p.dataStart == p'.dataStart
  {
  }

  /** The same list of inodes always gets the same plan, and so the same image. */
  lemma {:induction false} PlanUnique(p: Plan, p': Plan, nodes: seq<Inode>, sec: nat, nsec: nat, store: Storer,
                                    filters: seq<nat>)
    requires IsPlan(p, nodes, sec, nsec, store, filters) && IsPlan(p', nodes, sec, nsec, store, filters)
    ensures p == p'
  {
    TableUnique(XattrLists(nodes), p.c.table, p'.c.table);
    LocatedUnique(p.c.table, store, p.c.offsets, p'.c.offsets);
    SlotsUnique(p, p');
    PlacesUnique(p, p');
    EndsUnique(p, p');
  }
}
