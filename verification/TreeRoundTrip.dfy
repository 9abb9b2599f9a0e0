/** From a tree to its image and back to a tree. */
module TreeRoundTrip {
  import opened Bytes
  import opened Order
  import opened Children
  import opened LevelLists
  import opened HardLinks
  import opened NamedTree
  import opened LoadedTree
  import opened ErofsImage
  import E = ErofsNode
  import N = NodeReader
  import B = TreeComesBack
  import W = WrittenTree
  import L = TreeLoader
  import Xattrs
  import XattrExact
  import BodyReader
  import FuseReaddir
  import opened ImageLoads
  import opened Whiteouts
  import opened ImageWriter
  import opened Common
  import S = Superblock
  import opened TreeOrder

  /** Child `j` of a node ends, through its links, at node `y`, which will be loaded. */
  ghost predicate TreeChild(t: NTree, x: nat, j: nat, name: bytes, y: nat) {
    && Closed(Shape(t)) && x < |t| && IsDir(t[x]) && j < |t[x].children| && t[x].children[j].node < |t|
    && t[x].children[j].name == name && !L.IsDot(name)
    && EndsAt(Shape(t), t[x].children[j].node, y) && !WhiteoutNode(t[y])
  }

  /** Following names through the tree that is written. */
  ghost predicate NodePath(t: NTree, x: nat, path: Path, y: nat)
    decreases |path|
  {
    if path == [] then x == y else
    exists j: nat, z: nat :: TreeChild(t, x, j, path[0], z) && NodePath(t, z, path[1..], y)
  }

  /** The inodes of the plan are those of the tree. */
  ghost predicate PlanOf(t: NTree, q: seq<nat>, p: Plan) {
    Shaped(p) && W.ListFits(t, q) && InodesOf(t, q, p.nodes) && NoDup(q)
  }

  lemma {:induction false} InodeAt(t: NTree, q: seq<nat>, p: Plan, i: nat)
    requires PlanOf(t, q, p) && i < |q|
    ensures q[i] < |t| && i < |p.nodes| && (IsDir(t[q[i]]) <==> p.nodes[i].body.Directory?)
    ensures IsDir(t[q[i]]) ==> AreEntries(t, q, t[q[i]].children, p.nodes[i].body.children)
    ensures WhiteoutNode(t[q[i]]) <==> N.IsWhiteout(p.nodes[i])
  {
    assert IsInode(t, q, i, p.nodes[i]);
    assert W.FieldsFit(t[q[i]]) && W.BodyFits(t[q[i]]);
  }

  lemma {:induction false} ChildAgrees(t: NTree, q: seq<nat>, p: Plan, i: nat, j: nat, name: bytes)
    requires PlanOf(t, q, p) && i < |q| && p.nodes[i].body.Directory? && j < |p.nodes[i].body.children|
    ensures B.ChildTarget(p, i, j) < |q|
    ensures TreeChild(t, q[i], j, name, q[B.ChildTarget(p, i, j)]) <==> B.PlanChild(p, i, j, name)
  {
    InodeAt(t, q, p, i);
    var c := p.nodes[i].body.children[j];
    assert IsEntry(t, q, t[q[i]].children[j], c);
    InodeAt(t, q, p, c.target);
  }

  lemma {:induction false} PlanIsTree(t: NTree, q: seq<nat>, p: Plan, i: nat, path: Path, k: nat)
    requires PlanOf(t, q, p) && i < |q| && B.PlanPath(p, i, path, k)
    ensures k < |q| && NodePath(t, q[i], path, q[k])
    decreases |path|
  {
    if path != [] {
      var j :| B.PlanChild(p, i, j, path[0]) && B.PlanPath(p, B.ChildTarget(p, i, j), path[1..], k);
      ChildAgrees(t, q, p, i, j, path[0]);
      PlanIsTree(t, q, p, B.ChildTarget(p, i, j), path[1..], k);
    }
  }

  lemma {:induction false} ChildEnds(t: NTree, q: seq<nat>, p: Plan, i: nat, j: nat, name: bytes, z: nat)
    requires PlanOf(t, q, p) && i < |q| && TreeChild(t, q[i], j, name, z)
    ensures p.nodes[i].body.Directory? && j < |p.nodes[i].body.children| && B.ChildTarget(p, i, j) < |q|
    ensures z == q[B.ChildTarget(p, i, j)]
  {
    InodeAt(t, q, p, i);
    var c := p.nodes[i].body.children[j];
    assert IsEntry(t, q, t[q[i]].children[j], c);
    EndUnique(Shape(t), t[q[i]].children[j].node, z, q[c.target]);
  }

  lemma {:induction false} TreeIsPlan(t: NTree, q: seq<nat>, p: Plan, i: nat, path: Path, k: nat)
    requires PlanOf(t, q, p) && i < |q| && k < |q| && NodePath(t, q[i], path, q[k])
    ensures B.PlanPath(p, i, path, k)
    decreases |path|
  {
    if path != [] {
      var j: nat, z: nat :| TreeChild(t, q[i], j, path[0], z) && NodePath(t, z, path[1..], q[k]);
      ChildEnds(t, q, p, i, j, path[0], z);
      ChildAgrees(t, q, p, i, j, path[0]);
      TreeIsPlan(t, q, p, B.ChildTarget(p, i, j), path[1..], k);
    }
  }

  // ---------- whiteouts ----------

  /** Children are sorted and are children once; no hard link on the list leads to a whiteout on it. */
  ghost predicate Neat(t: NTree, q: seq<nat>) {
    && Closed(Shape(t)) && (forall x {:trigger t[x]} :: 0 <= x < |t| ==> Sorted(t[x].children)) && OneEntry(t)
    && forall x: nat, e, y: nat {:trigger IsChild(t, x, e), EndsAt(Shape(t), e.node, y)} ::
         x in q && IsChild(t, x, e) && y in q && e.node < |t| && EndsAt(Shape(t), e.node, y) && WhiteoutNode(t[y]) ==>
           e.node == y
  }

  lemma {:induction false} WhiteoutChild(t: NTree, q: seq<nat>, p: Plan, i: nat, j: nat)
    requires PlanOf(t, q, p) && Neat(t, q) && i < |q| && B.NamesWhiteout(p, i, j)
    ensures B.ChildTarget(p, i, j) < |q| && q[i] < |t| && j < |t[q[i]].children|
    ensures IsChild(t, q[i], t[q[i]].children[j]) && t[q[i]].children[j].node == q[B.ChildTarget(p, i, j)]
  {
    InodeAt(t, q, p, i);
    var c := p.nodes[i].body.children[j];
    assert IsEntry(t, q, t[q[i]].children[j], c);
    InodeAt(t, q, p, c.target);
    var e := t[q[i]].children[j];
    assert e in t[q[i]].children && q[c.target] in q && q[i] in q;
    assert IsChild(t, q[i], e) && EndsAt(Shape(t), e.node, q[c.target]);
  }

  lemma {:induction false} NamesAreSorted(t: NTree, q: seq<nat>, p: Plan, i: nat)
    requires PlanOf(t, q, p) && Neat(t, q) && i < |q| && p.nodes[i].body.Directory?
    ensures B.SortedNames(p.nodes[i].body.children)
  {
    InodeAt(t, q, p, i);
    var es, cs := t[q[i]].children, p.nodes[i].body.children;
    forall a, b | 0 <= a < b < |cs|
      ensures Less(cs[a].name, cs[b].name)
    {
      assert IsEntry(t, q, es[a], cs[a]) && IsEntry(t, q, es[b], cs[b]);
      assert Sorted(es);
    }
  }

  lemma {:induction false} SamePlace(t: NTree, x: nat, i: nat, j: nat)
    requires x < |t| && Sorted(t[x].children) && i < |t[x].children| && j < |t[x].children|
    requires t[x].children[i] == t[x].children[j]
    ensures i == j
  {
    LessIrreflexive(t[x].children[i].name);
  }

  lemma {:induction false} WhiteoutsNamedOnce(t: NTree, q: seq<nat>, p: Plan, i: nat, j: nat, i': nat, j': nat)
    requires PlanOf(t, q, p) && Neat(t, q) && i < |q| && i' < |q|
    requires B.NamesWhiteout(p, i, j) && B.NamesWhiteout(p, i', j')
    requires B.ChildTarget(p, i, j) == B.ChildTarget(p, i', j')
    ensures i == i' && j == j'
  {
    WhiteoutChild(t, q, p, i, j);
    WhiteoutChild(t, q, p, i', j');
    assert q[i] == q[i'];
    SamePlace(t, q[i], j, j');
  }

  /** Such a tree is written without anything that would surprise the loader. */
  lemma {:induction false} NeatIsTidy(t: NTree, q: seq<nat>, p: Plan)
    requires PlanOf(t, q, p) && Neat(t, q)
    ensures B.Tidy(p)
  {
    forall i | 0 <= i < |p.nodes| && p.nodes[i].body.Directory?
      ensures B.SortedNames(p.nodes[i].body.children)
    {
      NamesAreSorted(t, q, p, i);
    }
    forall i: nat, j: nat, i': nat, j': nat | B.NamesWhiteout(p, i, j) && B.NamesWhiteout(p, i', j')
                                              && B.ChildTarget(p, i, j) == B.ChildTarget(p, i', j')
      ensures i == i' && j == j'
    {
      WhiteoutsNamedOnce(t, q, p, i, j, i', j');
    }
  }

  // ---------- there and back ----------

  /**
   A tree, its image, and the tree loaded from it: a path of names leads from the root to a node exactly when it leads
   to the node loaded from that node's inode.
   */
  lemma {:induction false} TreeReturns(t: NTree, q: seq<nat>, p: Plan, read: L.Reader,
                                       nodes: seq<L.LNode>, hash: map<nat, nat>, made: seq<seq<Entry>>, path: Path,
                                       k: nat)
    requires PlanOf(t, q, p) && Planned(p) && p.c.store == Xattrs.Store && B.ReadsPlan(p, read) && k < |q|
    requires L.Rebuilt(read, nodes, hash, made, B.SlotOf(p, 0))
    ensures NodePath(t, q[0], path, q[k]) <==> TreeLeads(nodes, 0, path, B.SlotOf(p, k))
  {
    B.PathsAreBack(p, read, nodes, hash, made, path, k);
    if NodePath(t, q[0], path, q[k]) { TreeIsPlan(t, q, p, 0, path, k); }
    if B.PlanPath(p, 0, path, k) { PlanIsTree(t, q, p, 0, path, k); }
  }

  // ---------- the whole way ----------

  /** What was read is what node `y` of the tree had. */
  ghost predicate IsStored(y: TNode, r: N.NodeRead) {
    && r.stat.mode == y.mode && r.stat.uid == y.uid && r.stat.gid == y.gid && r.stat.sec == Unsigned64(y.sec)
    && r.stat.nsec == y.nsec && r.stat.rdev == (if N.IsDevice(y.mode) then y.rdev else 0)
    && (!IsDir(y) ==>
          && (y.body.External? ==> y.body.size > 0) && r.stat.nlink == y.nlink && r.stat.size == E.FileSize(y.body)
          && r.content == BodyReader.ContentOf(y.body, []))
  }

  /** What was loaded is what the node held; attributes come back unless the last of them is bare. */
  ghost predicate HoldsAs(t: NTree, q: seq<nat>, p: Plan, k: nat, r: N.NodeRead)
    requires PlanOf(t, q, p) && k < |q| && NodePlanned(p, k)
  {
    InodeAt(t, q, p, k);
    var x := t[q[k]];
    && IsStored(x, r) && (IsDir(x) ==> r.stat.nlink == 2 + Directories(Shape(t), Targets(x.children)))
    && (multiset(XattrExact.FetchAll(r.xattrs)) == multiset(x.xattrs) <==>
        !XattrExact.EndsBare(p.nodes[k].xattrs, p.slots[k]))
  }

  lemma {:induction false} HoldsWhat(t: NTree, q: seq<nat>, p: Plan, k: nat, r: N.NodeRead)
    requires PlanOf(t, q, p) && k < |q| && NodePlanned(p, k) && ReadsAs(p, k, r)
    ensures HoldsAs(t, q, p, k, r)
  {
    InodeAt(t, q, p, k);
    assert IsInode(t, q, k, p.nodes[k]);
  }

  /** Node `i` was loaded from the inode of node `q[k]` and holds its data. */
  ghost predicate Loads(t: NTree, q: seq<nat>, p: Plan, nodes: seq<L.LNode>, i: nat, k: nat) {
    && PlanOf(t, q, p) && k < |q| && i < |nodes| && nodes[i].Real? && nodes[i].nid == B.SlotOf(p, k)
    && NodePlanned(p, k) && HoldsAs(t, q, p, k, nodes[i].data)
  }

  /** A path leads to a node exactly when it leads to what was loaded for it. */
  ghost predicate SamePaths(t: NTree, q: seq<nat>, p: Plan, nodes: seq<L.LNode>)
    requires q != []
  {
    forall path: Path, k: nat {:trigger NodePath(t, q[0], path, q[k])} :: k < |q| ==>
      (NodePath(t, q[0], path, q[k]) <==> exists i: nat :: TreePath(nodes, 0, path, i) && Loads(t, q, p, nodes, i, k))
  }

  /** Nothing else was loaded. */
  ghost predicate NoOtherPaths(t: NTree, q: seq<nat>, p: Plan, nodes: seq<L.LNode>)
    requires q != []
  {
    forall path: Path, i: nat {:trigger TreePath(nodes, 0, path, i)} :: TreePath(nodes, 0, path, i) ==>
      exists k: nat :: k < |q| && NodePath(t, q[0], path, q[k]) && Loads(t, q, p, nodes, i, k)
  }

  /** Two paths end at one loaded node exactly when they ended at one node. */
  ghost predicate SameLinks(t: NTree, q: seq<nat>, p: Plan, nodes: seq<L.LNode>) {
    forall a: Path, b: Path, i: nat, j: nat, k: nat, l: nat
      {:trigger TreePath(nodes, 0, a, i), TreePath(nodes, 0, b, j), q[k], q[l]} ::
      (TreePath(nodes, 0, a, i) && TreePath(nodes, 0, b, j) && k < |q| && l < |q| &&
       Loads(t, q, p, nodes, i, k) && Loads(t, q, p, nodes, j, l)) ==> (i == j <==> q[k] == q[l])
  }

  /** The entry `j` of a loaded directory has the type of the loaded node it leads to, and is listed with it. */
  ghost predicate EntryType(nodes: seq<L.LNode>, i: nat, j: nat, x: nat)
    requires i < |nodes| && nodes[i].Real? && x < |nodes| && nodes[x].Real?
  {
    var ds := L.EntriesOf(nodes[i].data);
    j < |ds| && ds[j].nid == nodes[x].nid ==>
      && E.IsTypeCode(ds[j].ftype, nodes[x].data.stat.mode)
      && FuseReaddir.ShownMode(ds[j].ftype) == nodes[x].data.stat.mode / 0x1000 * 0x1000
  }

  ghost predicate Typed(nodes: seq<L.LNode>, a: Path, b: Path, i: nat, x: nat, j: nat) {
    TreePath(nodes, 0, a, i) && TreePath(nodes, 0, b, x) ==>
      i < |nodes| && nodes[i].Real? && x < |nodes| && nodes[x].Real? && EntryType(nodes, i, j, x)
  }

  ghost predicate TypesAgree(nodes: seq<L.LNode>) {
    forall a: Path, b: Path, i: nat, x: nat, j: nat {:trigger Typed(nodes, a, b, i, x, j)} ::
      Typed(nodes, a, b, i, x, j)
  }

  /** The loaded nodes are the written tree: the same paths, data and links, and entries of the right type. */
  ghost predicate SameAgain(t: NTree, q: seq<nat>, p: Plan, nodes: seq<L.LNode>) {
    && q != [] && SamePaths(t, q, p, nodes) && NoOtherPaths(t, q, p, nodes) && SameLinks(t, q, p, nodes)
    && TypesAgree(nodes)
  }

  /** What the lemmas about a plan and its reader need. */
  ghost predicate Back(t: NTree, q: seq<nat>, p: Plan, read: L.Reader, nodes: seq<L.LNode>, hash: map<nat, nat>,
                       made: seq<seq<Entry>>) {
    && PlanOf(t, q, p) && Planned(p) && p.c.store == Xattrs.Store && B.ReadsPlan(p, read) && q != []
    && L.Rebuilt(read, nodes, hash, made, B.SlotOf(p, 0))
  }

  lemma {:induction false} LoadedFrom(t: NTree, q: seq<nat>, p: Plan, read: L.Reader, nodes: seq<L.LNode>,
                                      hash: map<nat, nat>, made: seq<seq<Entry>>, i: nat, k: nat)
    requires Back(t, q, p, read, nodes, hash, made) && k < |q|
    requires i < |nodes| && nodes[i].Real? && nodes[i].nid == B.SlotOf(p, k)
    ensures Loads(t, q, p, nodes, i, k)
  {
    B.DataIsBack(p, read, nodes, hash, made, k, i);
    HoldsWhat(t, q, p, k, nodes[i].data);
  }

  lemma {:induction false} PathReturns(t: NTree, q: seq<nat>, p: Plan, read: L.Reader, nodes: seq<L.LNode>,
                                       hash: map<nat, nat>, made: seq<seq<Entry>>, path: Path, k: nat)
    requires Back(t, q, p, read, nodes, hash, made) && k < |q|
    ensures NodePath(t, q[0], path, q[k]) <==>
            exists i: nat :: TreePath(nodes, 0, path, i) && Loads(t, q, p, nodes, i, k)
  {
    TreeReturns(t, q, p, read, nodes, hash, made, path, k);
    if NodePath(t, q[0], path, q[k]) {
      var i: nat :| TreePath(nodes, 0, path, i) && i < |nodes| && nodes[i].Real? && nodes[i].nid == B.SlotOf(p, k);
      LoadedFrom(t, q, p, read, nodes, hash, made, i, k);
    }
  }

  lemma {:induction false} NothingElse(t: NTree, q: seq<nat>, p: Plan, read: L.Reader, nodes: seq<L.LNode>,
                                       hash: map<nat, nat>, made: seq<seq<Entry>>, path: Path, i: nat) returns (k: nat)
    requires Back(t, q, p, read, nodes, hash, made) && TreePath(nodes, 0, path, i)
    ensures k < |q| && NodePath(t, q[0], path, q[k]) && Loads(t, q, p, nodes, i, k)
  {
    TreeToImage(read, nodes, hash, made, B.SlotOf(p, 0), 0, B.SlotOf(p, 0), path, i);
    k := B.ImageToPlan(p, read, 0, path, nodes[i].nid);
    PlanIsTree(t, q, p, 0, path, k);
    LoadedFrom(t, q, p, read, nodes, hash, made, i, k);
  }

  lemma {:induction false} LinksReturn(t: NTree, q: seq<nat>, p: Plan, read: L.Reader, nodes: seq<L.LNode>,
                                       hash: map<nat, nat>, made: seq<seq<Entry>>, a: Path, b: Path, i: nat, j: nat,
                                       k: nat, l: nat)
    requires Back(t, q, p, read, nodes, hash, made) && TreePath(nodes, 0, a, i) && TreePath(nodes, 0, b, j)
    requires k < |q| && l < |q| && Loads(t, q, p, nodes, i, k) && Loads(t, q, p, nodes, j, l)
    ensures i == j <==> q[k] == q[l]
  {
    SameInodeSameNode(read, nodes, hash, made, B.SlotOf(p, 0), a, b, i, j);
    if nodes[i].nid == nodes[j].nid { B.SameSlot(p, k, l); }
  }

  lemma {:induction false} PathsReturn(t: NTree, q: seq<nat>, p: Plan, read: L.Reader, nodes: seq<L.LNode>,
                                       hash: map<nat, nat>, made: seq<seq<Entry>>)
    requires Back(t, q, p, read, nodes, hash, made)
    ensures SamePaths(t, q, p, nodes)
  {
    forall path: Path, k: nat | k < |q|
      ensures NodePath(t, q[0], path, q[k]) <==>
              exists i: nat :: TreePath(nodes, 0, path, i) && Loads(t, q, p, nodes, i, k)
    {
      PathReturns(t, q, p, read, nodes, hash, made, path, k);
    }
  }

  lemma {:induction false} NothingAdded(t: NTree, q: seq<nat>, p: Plan, read: L.Reader, nodes: seq<L.LNode>,
                                        hash: map<nat, nat>, made: seq<seq<Entry>>)
    requires Back(t, q, p, read, nodes, hash, made)
    ensures NoOtherPaths(t, q, p, nodes)
  {
    forall path: Path, i: nat | TreePath(nodes, 0, path, i)
      ensures exists k: nat :: k < |q| && NodePath(t, q[0], path, q[k]) && Loads(t, q, p, nodes, i, k)
    {
      var k := NothingElse(t, q, p, read, nodes, hash, made, path, i);
    }
  }

  lemma {:induction false} LinksKept(t: NTree, q: seq<nat>, p: Plan, read: L.Reader, nodes: seq<L.LNode>,
                                     hash: map<nat, nat>, made: seq<seq<Entry>>)
    requires Back(t, q, p, read, nodes, hash, made)
    ensures SameLinks(t, q, p, nodes)
  {
    forall a: Path, b: Path, i: nat, j: nat, k: nat, l: nat |
      TreePath(nodes, 0, a, i) && TreePath(nodes, 0, b, j) && k < |q| && l < |q| &&
      Loads(t, q, p, nodes, i, k) && Loads(t, q, p, nodes, j, l)
      ensures i == j <==> q[k] == q[l]
    {
      LinksReturn(t, q, p, read, nodes, hash, made, a, b, i, j, k, l);
    }
  }

  lemma {:induction false} ShowsType(mode: nat, code: byte)
    requires mode < 0x1_0000 && E.IsTypeCode(code, mode) && E.FileType(mode) in {1, 2, 4, 6, 8, 10, 12}
    ensures FuseReaddir.ShownMode(code) == mode / 0x1000 * 0x1000
  {
    assert 0 <= mode / 0x1000 < 16;
  }

  lemma {:induction false} SlotTyped(t: NTree, q: seq<nat>, p: Plan, k: nat, l: nat, i: L.LNode, x: L.LNode, j: nat)
    requires PlanOf(t, q, p) && Planned(p) && k < |q| && l < |q| && i.Real? && x.Real? && x.nid == B.SlotOf(p, l)
    requires NodePlanned(p, k) && ReadsAs(p, k, i.data) && NodePlanned(p, l) && ReadsAs(p, l, x.data)
    ensures EntryType([i, x], 0, j, 1)
  {
    var ds := L.EntriesOf(i.data);
    if j < |ds| && ds[j].nid == x.nid {
      B.EntryTyped(p, k, j);
      B.SameSlot(p, p.nodes[k].body.children[j].target, l);
      ShowsType(p.nodes[l].mode, ds[j].ftype);
    }
  }

  lemma {:induction false} EntryIsTyped(t: NTree, q: seq<nat>, p: Plan, read: L.Reader, nodes: seq<L.LNode>,
                                        hash: map<nat, nat>, made: seq<seq<Entry>>, a: Path, b: Path, i: nat, x: nat,
                                        j: nat)
    requires Back(t, q, p, read, nodes, hash, made)
    ensures Typed(nodes, a, b, i, x, j)
  {
    if TreePath(nodes, 0, a, i) && TreePath(nodes, 0, b, x) {
      var k := NothingElse(t, q, p, read, nodes, hash, made, a, i);
      var l := NothingElse(t, q, p, read, nodes, hash, made, b, x);
      B.DataIsBack(p, read, nodes, hash, made, k, i);
      B.DataIsBack(p, read, nodes, hash, made, l, x);
      SlotTyped(t, q, p, k, l, nodes[i], nodes[x], j);
    }
  }

  lemma {:induction false} TypesKept(t: NTree, q: seq<nat>, p: Plan, read: L.Reader, nodes: seq<L.LNode>,
                                     hash: map<nat, nat>, made: seq<seq<Entry>>)
    requires Back(t, q, p, read, nodes, hash, made)
    ensures TypesAgree(nodes)
  {
    forall a: Path, b: Path, i: nat, x: nat, j: nat
      ensures Typed(nodes, a, b, i, x, j)
    {
      EntryIsTyped(t, q, p, read, nodes, hash, made, a, b, i, x, j);
    }
  }

  lemma {:induction false} LoadedIsSame(t: NTree, q: seq<nat>, p: Plan, read: L.Reader, nodes: seq<L.LNode>,
                                        hash: map<nat, nat>, made: seq<seq<Entry>>)
    requires Back(t, q, p, read, nodes, hash, made)
    ensures SameAgain(t, q, p, nodes)
  {
    PathsReturn(t, q, p, read, nodes, hash, made);
    NothingAdded(t, q, p, read, nodes, hash, made);
    LinksKept(t, q, p, read, nodes, hash, made);
    TypesKept(t, q, p, read, nodes, hash, made);
  }

  lemma {:induction false} RootIsWritten(t: NTree, q: seq<nat>, p: Plan)
    requires PlanOf(t, q, p) && q != [] && q[0] < |t| && IsDir(t[q[0]]) && HasHex(t[q[0]].children, 256)
    ensures WritersRoot(p)
  {
    InodeAt(t, q, p, 0);
    var es, cs := t[q[0]].children, p.nodes[0].body.children;
    forall i: nat | i < 256
      ensures HexName(i) in E.ChildNames(cs)
    {
      assert Has(es, HexName(i));
      var j :| 0 <= j < |es| && es[j].name == HexName(i);
      assert IsEntry(t, q, es[j], cs[j]) && E.ChildNames(cs)[j] == HexName(i);
    }
  }

  /** The image of a tree, rewritten for writing, whose attributes all fit. */
  ghost predicate IsWritten(t: NTree, root: nat, filter: W.Filter, q: seq<nat>, sec: int, nsec: nat, acl: bool,
                            inodes: seq<E.Inode>, p: Plan, version: nat) {
    && W.TreeFits(t, root) && W.Planning(t, root, filter, q, sec, nsec, acl, inodes, p)
    && IsDir(t[root]) && HasHex(t[root].children, 256)
    && ImageSize(p) < 0x1_0000_0000 && version < 0x1_0000_0000 && AllWritten(p) && AllIcountsFit(p, |p.nodes|)
  }

  lemma {:induction false} WrittenIs(t: NTree, root: nat, filter: W.Filter, q: seq<nat>, sec: int, nsec: nat, acl: bool,
                                     inodes: seq<E.Inode>, p: Plan, version: nat)
    requires IsWritten(t, root, filter, q, sec, nsec, acl, inodes, p, version)
    ensures q != [] && q[0] == root && PlanOf(t, q, p) && B.AllFitted(p)
    ensures Writable(p, if acl then 1 else 0, version)
  {
    CompleteIs(KidsIn(Shape(t)), root, q);
    W.TimeInRange(t, q, |q|, sec, nsec);
    assert IsInode(t, q, 0, inodes[0]);
    RootIsWritten(t, q, p);
  }

  /** Whatever is built from what this reads is the tree. */
  ghost predicate Restores(read: L.Reader, top: nat, t: NTree, q: seq<nat>, p: Plan) {
    forall nodes, hash, made {:trigger L.Rebuilt(read, nodes, hash, made, top)} ::
      L.Rebuilt(read, nodes, hash, made, top) ==> SameAgain(t, q, p, nodes)
  }

  /**
   From a tree to its image and back.  The image that was written loads; whatever tree the loader builds from it is
   the tree that was written; and for a neat tree the loader does build one, unless it runs out of memory.
   */
  lemma {:induction false} ThereAndBack(t: NTree, root: nat, filter: W.Filter, q: seq<nat>, sec: int, nsec: nat,
                                        acl: bool, inodes: seq<E.Inode>, p: Plan, version: nat, bound: nat)
    returns (s: S.Loaded)
    requires IsWritten(t, root, filter, q, sec, nsec, acl, inodes, p, version)
    ensures q != [] && PlanOf(t, q, p) && p.ps != [] && S.Load(W.WholeImage(p, acl, version)) == Ok(s)
    ensures Restores(B.SlotReader(W.WholeImage(p, acl, version), s), s.root, t, q, p)
    ensures Neat(t, q) && 32 * bound >= |W.WholeImage(p, acl, version)| ==>
              L.Good(B.SlotReader(W.WholeImage(p, acl, version), s), bound, B.Slots(p), s.root)
  {
    WrittenIs(t, root, filter, q, sec, nsec, acl, inodes, p, version);
    var flags := if acl then 1 else 0;
    s := B.WrittenReadsPlan(p, flags, version);
    var read := B.SlotReader(W.WholeImage(p, acl, version), s);
    forall nodes, hash, made | L.Rebuilt(read, nodes, hash, made, s.root)
      ensures SameAgain(t, q, p, nodes)
    {
      LoadedIsSame(t, q, p, read, nodes, hash, made);
    }
    if Neat(t, q) && 32 * bound >= |W.WholeImage(p, acl, version)| {
      NeatIsTidy(t, q, p);
      var s' := B.LoadingSucceeds(p, flags, version, bound);
    }
  }
}
