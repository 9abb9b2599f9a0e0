/** A tree that is written and loaded again: names, data and hard links. */
module TreeComesBack {
  import opened Common
  import opened Bytes
  import opened Order
  import opened DirCodec
  import opened Layout
  import opened Xattrs
  import opened NodeXattrs
  import opened BodyReader
  import opened ErofsNode
  import opened NodeReader
  import opened ErofsImage
  import opened Whiteouts
  import opened ImageLoads
  import opened TreeLoader
  import opened LoadedTree
  import Children
  import Loader
  import S = Superblock

  // ---------- slots ----------

  ghost function SlotOf(p: Plan, i: nat): nat
    requires i < |p.ps|
  {
    Slot(p.ps[i].pos)
  }

  ghost function Slots(p: Plan): set<nat> { set i | 0 <= i < |p.ps| :: SlotOf(p, i) }

  lemma {:induction false} PlaceBound(ss: seq<Sizes>, ps: seq<Place>, i: nat)
    requires Laid(ss, ps) && Loader.RealSizes(ss) && i < |ps|
    ensures 32 * Slot(ps[i].pos) == ps[i].pos && ps[i].isize >= 32 && ps[i].pos + 32 <= End(ps)
  {
    var last := |ps| - 1;
    assert LaidAt(ss, ps, i) && LaidAt(ss, ps, last) && ss[i].inodeSize >= 32 && ss[last].inodeSize >= 32;
    SlotStart(ss[i], End(ps[..i]), ps[i]);
    if i < last { PlacesIncrease(ss, ps, i, last); }
  }

  lemma {:induction false} PlanReal(p: Plan)
    requires Planned(p)
    ensures Loader.RealSizes(AllSizes(p))
  {
    forall i | 0 <= i < |p.nodes|
      ensures AllSizes(p)[i].inodeSize >= 32
    {
      assert NodePlanned(p, i);
    }
  }

  lemma {:induction false} SlotPlace(p: Plan, i: nat)
    requires Planned(p) && i < |p.nodes|
    ensures 32 * SlotOf(p, i) == p.ps[i].pos && p.ps[i].isize >= 32 && p.ps[i].pos + 32 <= p.c.inodesEnd
  {
    PlanReal(p);
    PlaceBound(AllSizes(p), p.ps, i);
  }

  lemma {:induction false} SlotsDiffer(p: Plan, i: nat, j: nat)
    requires Planned(p) && i < j < |p.nodes|
    ensures SlotOf(p, i) != SlotOf(p, j)
  {
    SlotPlace(p, i);
    SlotPlace(p, j);
    PlacesIncrease(AllSizes(p), p.ps, i, j);
  }

  lemma {:induction false} SameSlot(p: Plan, i: nat, j: nat)
    requires Planned(p) && i < |p.nodes| && j < |p.nodes| && SlotOf(p, i) == SlotOf(p, j)
    ensures i == j
  {
    if i < j { SlotsDiffer(p, i, j); }
    if j < i { SlotsDiffer(p, j, i); }
  }

  // ---------- what is read ----------

  function SlotReader(img: bytes, s: S.Loaded): Reader { (nid: nat) => ReadSlot(img, s, nid) }

  /** The reader of a written image, slot by slot. */
  ghost predicate ReadsPlan(p: Plan, read: Reader) {
    && Shaped(p)
    && forall i {:trigger p.nodes[i]} :: 0 <= i < |p.nodes| ==>
         && NodePlanned(p, i)
         && read(SlotOf(p, i)) == if IsWhiteout(p.nodes[i]) then Err(Whiteout) else
                                  Ok(ReadAs(p.nodes[i], DirentsOf(p.nodes[i].body, p.nodes, p.ps), Store, p.slots[i]))
  }

  /** Every inode can record its attributes. */
  ghost predicate AllFitted(p: Plan) {
    AllWritten(p) && forall i {:trigger p.nodes[i]} :: 0 <= i < |p.nodes| ==> IcountFits(p, i)
  }

  lemma {:induction false} WrittenReadsPlan(p: Plan, flags: nat, version: nat) returns (s: S.Loaded)
    requires Writable(p, flags, version) && AllFitted(p)
    ensures S.Load(WrittenImage(p, flags, version)) == Ok(s) && s.root == SlotOf(p, 0)
    ensures ReadsPlan(p, SlotReader(WrittenImage(p, flags, version), s))
  {
    WrittenLoads(p, flags, version);
    s := S.Loaded(0, TableBase(p.c.inodesEnd), p.c.sec, p.c.nsec, Slot(p.ps[0].pos));
    forall i | 0 <= i < |p.nodes|
      ensures NodePlanned(p, i)
      ensures ReadSlot(WrittenImage(p, flags, version), s, SlotOf(p, i)) ==
              if IsWhiteout(p.nodes[i]) then Err(Whiteout) else
              Ok(ReadAs(p.nodes[i], DirentsOf(p.nodes[i].body, p.nodes, p.ps), Store, p.slots[i]))
    {
      assert IcountFits(p, i);
      SlotReads(p, flags, version, i, s);
    }
  }

  // ---------- paths in the plan ----------

  /** Child `j` of directory `i` ends up in the loaded tree. */
  ghost predicate PlanChild(p: Plan, i: nat, j: int, name: bytes)
    requires Shaped(p)
  {
    && i < |p.nodes| && p.nodes[i].body.Directory? && 0 <= j < |p.nodes[i].body.children|
    && p.nodes[i].body.children[j].name == name && !IsDot(name)
    && !IsWhiteout(p.nodes[p.nodes[i].body.children[j].target])
  }

  ghost function ChildTarget(p: Plan, i: nat, j: int): nat {
    if i >= |p.nodes| || !p.nodes[i].body.Directory? then 0 else
    var cs := p.nodes[i].body.children;
    if 0 <= j < |cs| then cs[j].target else 0
  }

  /** Following names through the directories that were written. */
  ghost predicate PlanPath(p: Plan, i: nat, path: Path, k: nat)
    requires Shaped(p)
    decreases |path|
  {
    if path == [] then i == k else
    exists j :: PlanChild(p, i, j, path[0]) && PlanPath(p, ChildTarget(p, i, j), path[1..], k)
  }

  lemma {:induction false} WantedIff(read: Reader, ds: seq<Dirent>, d: Dirent)
    ensures d in Wanted(read, ds) <==> d in ds && Kept(read, d)
  {
    if ds != [] {
      var n := |ds| - 1;
      WantedIff(read, ds[..n], d);
      assert ds == ds[..n] + [ds[n]];
    }
  }

  /** The entries read are the children written. */
  lemma {:induction false} EntriesRead(p: Plan, read: Reader, i: nat)
    requires ReadsPlan(p, read) && i < |p.nodes| && !IsWhiteout(p.nodes[i])
    ensures read(SlotOf(p, i)).Ok? && EntriesOf(read(SlotOf(p, i)).value) == DirentsOf(p.nodes[i].body, p.nodes, p.ps)
  {
    assert NodePlanned(p, i);
  }

  lemma {:induction false} ChildKept(p: Plan, read: Reader, i: nat, j: nat)
    requires ReadsPlan(p, read) && i < |p.nodes| && p.nodes[i].body.Directory? && j < |p.nodes[i].body.children|
    ensures p.nodes[i].body.children[j].target < |p.nodes|
    ensures var c := p.nodes[i].body.children[j]; var d := DirentsOf(p.nodes[i].body, p.nodes, p.ps)[j];
            d.name == c.name && d.nid == SlotOf(p, c.target) && (Kept(read, d) <==> PlanChild(p, i, j, c.name))
  {
    var target := p.nodes[i].body.children[j].target;
    assert TargetsIn(p.nodes[i].body, |p.nodes|);
    assert NodePlanned(p, target);
  }

  lemma {:induction false} DirNotWhiteout(p: Plan, i: nat)
    requires Shaped(p) && i < |p.nodes| && NodePlanned(p, i) && p.nodes[i].body.Directory?
    ensures !IsWhiteout(p.nodes[i])
  {
  }

  lemma {:induction false} PlanToImage(p: Plan, read: Reader, i: nat, path: Path, k: nat)
    requires ReadsPlan(p, read) && i < |p.nodes| && PlanPath(p, i, path, k)
    ensures k < |p.nodes| && ImagePath(read, SlotOf(p, i), path, SlotOf(p, k))
    decreases |path|
  {
    if path != [] {
      var j :| PlanChild(p, i, j, path[0]) && PlanPath(p, ChildTarget(p, i, j), path[1..], k);
      assert NodePlanned(p, i);
      DirNotWhiteout(p, i);
      EntriesRead(p, read, i);
      ChildKept(p, read, i, j);
      var ds := DirentsOf(p.nodes[i].body, p.nodes, p.ps);
      WantedIff(read, ds, ds[j]);
      var w :| 0 <= w < |Wanted(read, ds)| && Wanted(read, ds)[w] == ds[j];
      assert ImageEntry(read, SlotOf(p, i), w, path[0]) && EntrySlot(read, SlotOf(p, i), w) ==
               SlotOf(p, ChildTarget(p, i, j));
      PlanToImage(p, read, ChildTarget(p, i, j), path[1..], k);
    }
  }

  lemma {:induction false} EntryInPlan(p: Plan, read: Reader, i: nat, w: int, name: bytes) returns (j: nat)
    requires ReadsPlan(p, read) && i < |p.nodes| && ImageEntry(read, SlotOf(p, i), w, name)
    ensures PlanChild(p, i, j, name) && ChildTarget(p, i, j) < |p.nodes|
    ensures EntrySlot(read, SlotOf(p, i), w) == SlotOf(p, ChildTarget(p, i, j))
  {
    assert NodePlanned(p, i);
    EntriesRead(p, read, i);
    var ds := DirentsOf(p.nodes[i].body, p.nodes, p.ps);
    var d := Wanted(read, ds)[w];
    assert d in Wanted(read, ds);
    WantedIff(read, ds, d);
    j :| 0 <= j < |ds| && ds[j] == d;
    ChildKept(p, read, i, j);
  }

  lemma {:induction false} ImageToPlan(p: Plan, read: Reader, i: nat, path: Path, m: nat) returns (k: nat)
    requires ReadsPlan(p, read) && i < |p.nodes| && ImagePath(read, SlotOf(p, i), path, m)
    ensures PlanPath(p, i, path, k) && k < |p.nodes| && m == SlotOf(p, k)
    decreases |path|
  {
    if path == [] { return i; }
    var n := SlotOf(p, i);
    var w :| ImageEntry(read, n, w, path[0]) && ImagePath(read, EntrySlot(read, n, w), path[1..], m);
    var j := EntryInPlan(p, read, i, w, path[0]);
    k := ImageToPlan(p, read, ChildTarget(p, i, j), path[1..], m);
    assert PlanChild(p, i, j, path[0]) && PlanPath(p, ChildTarget(p, i, j), path[1..], k);
  }

  // ---------- nothing in the way ----------

  /** Names are sorted, and no whiteout has two. */
  ghost predicate Tidy(p: Plan) {
    && Shaped(p)
    && (forall i {:trigger p.nodes[i]} :: 0 <= i < |p.nodes| && p.nodes[i].body.Directory? ==>
          SortedNames(p.nodes[i].body.children))
    && forall i: nat, j: nat, i': nat, j': nat {:trigger NamesWhiteout(p, i, j), NamesWhiteout(p, i', j')} ::
         && NamesWhiteout(p, i, j) && NamesWhiteout(p, i', j')
         && ChildTarget(p, i, j) == ChildTarget(p, i', j') ==>
         i == i' && j == j'
  }

  ghost predicate SortedNames(cs: seq<Child>) {
    forall i, j {:trigger cs[i], cs[j]} :: 0 <= i < j < |cs| ==> Less(cs[i].name, cs[j].name)
  }

  ghost predicate NamesWhiteout(p: Plan, i: nat, j: nat)
    requires Shaped(p)
  {
    && i < |p.nodes| && p.nodes[i].body.Directory? && j < |p.nodes[i].body.children|
    && IsWhiteout(p.nodes[p.nodes[i].body.children[j].target])
  }

  lemma {:induction false} PlanListGood(p: Plan, read: Reader, i: nat)
    requires Planned(p) && ReadsPlan(p, read) && Tidy(p) && i < |p.nodes|
    ensures SlotGood(read, Slots(p), SlotOf(p, i))
  {
    assert NodePlanned(p, i);
    if !IsWhiteout(p.nodes[i]) {
      EntriesRead(p, read, i);
      var ds := DirentsOf(p.nodes[i].body, p.nodes, p.ps);
      if p.nodes[i].body.Directory? {
        var cs := p.nodes[i].body.children;
        forall j | 0 <= j < |ds|
          ensures ds[j].name == cs[j].name && 1 <= |ds[j].name| <= 255 && ds[j].nid in Slots(p)
        {
          ChildKept(p, read, i, j);
          assert NameOk(ChildNames(cs)[j]);
        }
        assert SortedNames(cs);
      }
    }
  }

  /** An entry that leads somewhere is a child. */
  lemma {:induction false} EdgeInPlan(p: Plan, read: Reader, n: nat, j: nat) returns (i: nat)
    requires Planned(p) && ReadsPlan(p, read) && IsEdge(read, Slots(p), n, j)
    ensures i < |p.nodes| && n == SlotOf(p, i) && p.nodes[i].body.Directory? && j < |p.nodes[i].body.children|
    ensures ChildTarget(p, i, j) < |p.nodes| && EdgeSlot(read, Slots(p), n, j) == SlotOf(p, ChildTarget(p, i, j))
    ensures read(EdgeSlot(read, Slots(p), n, j)) == Err(Whiteout) ==> NamesWhiteout(p, i, j)
  {
    i :| 0 <= i < |p.ps| && SlotOf(p, i) == n;
    assert NodePlanned(p, i);
    EntriesRead(p, read, i);
    ChildKept(p, read, i, j);
    assert NodePlanned(p, ChildTarget(p, i, j));
  }

  lemma {:induction false} PlanOneName(p: Plan, read: Reader)
    requires Planned(p) && ReadsPlan(p, read) && Tidy(p)
    ensures OneName(read, Slots(p))
  {
    forall n: nat, j: nat, n': nat, j': nat | IsEdge(read, Slots(p), n, j) && IsEdge(read, Slots(p), n', j')
                          && EdgeSlot(read, Slots(p), n, j) == EdgeSlot(read, Slots(p), n', j')
                          && read(EdgeSlot(read, Slots(p), n, j)) == Err(Whiteout)
      ensures n == n' && j == j'
    {
      var i := EdgeInPlan(p, read, n, j);
      var i' := EdgeInPlan(p, read, n', j');
      SameSlot(p, ChildTarget(p, i, j), ChildTarget(p, i', j'));
      assert NamesWhiteout(p, i, j) && NamesWhiteout(p, i', j');
    }
  }

  /** A written image has no surprises for the loader. */
  lemma {:induction false} PlanIsGood(p: Plan, read: Reader, bound: nat)
    requires Planned(p) && ReadsPlan(p, read) && Tidy(p) && p.nodes != [] && p.nodes[0].body.Directory?
    requires 32 * bound >= p.c.inodesEnd
    ensures Good(read, bound, Slots(p), SlotOf(p, 0))
  {
    PlanOneName(p, read);
    assert NodePlanned(p, 0);
    EntriesRead(p, read, 0);
    assert SlotOf(p, 0) in Slots(p);
    forall n | n in Slots(p)
      ensures n < bound && SlotGood(read, Slots(p), n)
    {
      var i :| 0 <= i < |p.ps| && SlotOf(p, i) == n;
      SlotPlace(p, i);
      PlanListGood(p, read, i);
    }
  }

  // ---------- the tree ----------

  /** Loading a written image can only fail for want of memory. */
  lemma {:induction false} LoadingSucceeds(p: Plan, flags: nat, version: nat, bound: nat) returns (s: S.Loaded)
    requires Writable(p, flags, version) && AllFitted(p) && Tidy(p) && 32 * bound >= |WrittenImage(p, flags, version)|
    ensures S.Load(WrittenImage(p, flags, version)) == Ok(s)
    ensures Good(SlotReader(WrittenImage(p, flags, version), s), bound, Slots(p), s.root)
  {
    s := WrittenReadsPlan(p, flags, version);
    PlanLands(p, S.PrefixBytes(Loader.SuperOf(p, flags, version)));
    PosBound(p, 0);
    PlanIsGood(p, SlotReader(WrittenImage(p, flags, version), s), bound);
  }

  /** A path of names leads to a node of the loaded tree exactly when it led to an inode. */
  lemma {:induction false} PathsAreBack(p: Plan, read: Reader, nodes: seq<LNode>, hash: map<nat, nat>,
                                    made: seq<seq<Children.Entry>>, path: Path, k: nat)
    requires Planned(p) && p.c.store == Store && ReadsPlan(p, read) && p.nodes != [] && k < |p.nodes|
    requires Rebuilt(read, nodes, hash, made, SlotOf(p, 0))
    ensures PlanPath(p, 0, path, k) <==> TreeLeads(nodes, 0, path, SlotOf(p, k))
  {
    PathsAgree(read, nodes, hash, made, SlotOf(p, 0), path, SlotOf(p, k));
    if PlanPath(p, 0, path, k) { PlanToImage(p, read, 0, path, k); }
    if ImagePath(read, SlotOf(p, 0), path, SlotOf(p, k)) {
      var k' := ImageToPlan(p, read, 0, path, SlotOf(p, k));
      SameSlot(p, k, k');
    }
  }

  /** An entry has the name of the child, and the slot and the type code of the inode it leads to. */
  lemma {:induction false} EntryTyped(p: Plan, i: nat, j: nat)
    requires Planned(p) && i < |p.nodes| && p.nodes[i].body.Directory? && j < |p.nodes[i].body.children|
    ensures var c := p.nodes[i].body.children[j];
            && c.target < |p.nodes| && |DirentsOf(p.nodes[i].body, p.nodes, p.ps)| == |p.nodes[i].body.children|
            && var d := DirentsOf(p.nodes[i].body, p.nodes, p.ps)[j];
               d.name == c.name && d.nid == SlotOf(p, c.target) && IsTypeCode(d.ftype, p.nodes[c.target].mode)
  {
    var c := p.nodes[i].body.children[j];
    assert NodePlanned(p, c.target);
    DirentTypeIs(p.nodes[c.target].mode);
  }

  /** The node at the end of a path holds what the inode held. */
  lemma {:induction false} DataIsBack(p: Plan, read: Reader, nodes: seq<LNode>, hash: map<nat, nat>,
                                    made: seq<seq<Children.Entry>>, k: nat, x: nat)
    requires Planned(p) && p.c.store == Store && ReadsPlan(p, read) && k < |p.nodes|
    requires Rebuilt(read, nodes, hash, made, SlotOf(p, 0)) && x < |nodes| && nodes[x].Real?
    requires nodes[x].nid == SlotOf(p, k)
    ensures NodePlanned(p, k) && ReadsAs(p, k, nodes[x].data)
  {
    FilledAt(read, nodes, hash, made, SlotOf(p, 0), x);
    assert NodePlanned(p, k);
    ReadAsMeans(p, k);
  }
}
