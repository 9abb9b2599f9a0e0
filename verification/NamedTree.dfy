/** A tree with names and data, the list of inodes it is written as, and the renumbering of trees. */
module NamedTree {
  import opened Common
  import opened Bytes
  import opened Order
  import opened Children
  import opened Xattrs
  import opened NodeAttrs
  import opened LevelLists
  import opened HardLinks
  import opened TreeOrder
  import E = ErofsNode

  /** A node; `body` is the content of anything but a directory, whose content are its children. */
  datatype TNode = TNode(mode: nat, nlink: nat, uid: nat, gid: nat, rdev: nat, sec: int, nsec: nat, body: E.Body,
                         xattrs: seq<Xattr>, children: seq<Entry>, link: Option<nat>)

  type NTree = seq<TNode>

  predicate IsDir(x: TNode) { E.FileType(x.mode) == E.S_IFDIR }

  predicate WhiteoutNode(x: TNode) { E.FileType(x.mode) == E.S_IFCHR && x.rdev == 0 }

  function Targets(es: seq<Entry>): (ns: seq<nat>)
    ensures |ns| == |es|
  {
    seq(|es|, i requires 0 <= i < |es| => es[i].node)
  }

  predicate IsAclName(key: bytes) {
    key == Ascii("system.posix_acl_access") || key == Ascii("system.posix_acl_default")
  }

  predicate HasAclName(xs: seq<Xattr>) {
    exists i :: 0 <= i < |xs| && IsAclName(xs[i].key)
  }

  /** What listing the tree looks at. */
  function ShapeOf(x: TNode): Node {
    Node(IsDir(x), Targets(x.children), x.link, x.sec, x.nsec, HasAclName(x.xattrs))
  }

  function Shape(t: NTree): (s: Tree)
    ensures |s| == |t|
  {
    seq(|t|, i requires 0 <= i < |t| => ShapeOf(t[i]))
  }

  /** A node is a child once. */
  ghost predicate OneEntry(t: NTree) {
    forall x: nat, e, x': nat, e' {:trigger IsChild(t, x, e), IsChild(t, x', e')} ::
      IsChild(t, x, e) && IsChild(t, x', e') && e.node == e'.node ==> x == x' && e == e'
  }

  ghost predicate IsChild(t: NTree, x: nat, e: Entry) { x < |t| && e in t[x].children }

  // ---------- the inodes of a tree ----------

  function Unsigned64(n: int): int { if n < 0 then n + 0x1_0000_0000_0000_0000 else n }

  /** A directory entry leads to the place in the list of the node that the child is, or is a link to. */
  ghost predicate IsEntry(t: NTree, q: seq<nat>, e: Entry, c: E.Child) {
    && Closed(Shape(t)) && e.node < |t|
    && c.name == e.name && c.target < |q| && EndsAt(Shape(t), e.node, q[c.target])
  }

  ghost predicate AreEntries(t: NTree, q: seq<nat>, es: seq<Entry>, cs: seq<E.Child>) {
    |cs| == |es| && forall j {:trigger cs[j]} :: 0 <= j < |es| ==> IsEntry(t, q, es[j], cs[j])
  }

  /** Attributes are written in the order of their names, directories with a new link count. */
  ghost predicate IsInode(t: NTree, q: seq<nat>, k: nat, n: E.Inode) {
    && k < |q| && q[k] < |t|
    && var x := t[q[k]];
       && n.mode == x.mode && n.uid == x.uid && n.gid == x.gid && n.rdev == x.rdev && n.ino == k
       && n.nlink == (if IsDir(x) then 2 + Directories(Shape(t), Targets(x.children)) else x.nlink)
       && n.sec == Unsigned64(x.sec) && n.nsec == x.nsec
       && Increasing(n.xattrs, KeyBefore) && multiset(n.xattrs) == multiset(x.xattrs)
       && (if IsDir(x) then n.body.Directory? && AreEntries(t, q, x.children, n.body.children) else n.body == x.body)
  }

  ghost predicate InodesOf(t: NTree, q: seq<nat>, nodes: seq<E.Inode>) {
    |nodes| == |q| && forall k {:trigger nodes[k]} :: 0 <= k < |q| ==> IsInode(t, q, k, nodes[k])
  }

  // ---------- renumbering ----------

  /** Node `i` is called `f[i]`. */
  type Renumbering = seq<nat>

  function Renamed(es: seq<Entry>, f: Renumbering): (r: seq<Entry>)
    requires forall i {:trigger es[i]} :: 0 <= i < |es| ==> es[i].node < |f|
    ensures |r| == |es|
  {
    seq(|es|, i requires 0 <= i < |es| => Entry(es[i].name, f[es[i].node]))
  }

  ghost predicate EntriesIn(es: seq<Entry>, n: nat) {
    forall i {:trigger es[i]} :: 0 <= i < |es| ==> es[i].node < n
  }

  /** The same data, the same names leading to the same nodes, whatever the order they were given in. */
  ghost predicate SameNode(a: TNode, b: TNode, f: Renumbering) {
    && a.mode == b.mode && a.nlink == b.nlink && a.uid == b.uid && a.gid == b.gid && a.rdev == b.rdev
    && a.sec == b.sec && a.nsec == b.nsec && a.body == b.body && multiset(a.xattrs) == multiset(b.xattrs)
    && Sorted(a.children) && Sorted(b.children) && EntriesIn(a.children, |f|)
    && multiset(Renamed(a.children, f)) == multiset(b.children)
    && (a.link.None? ==> b.link.None?) && (a.link.Some? ==> a.link.value < |f| && b.link == Some(f[a.link.value]))
  }

  /** One tree, numbered in two ways. */
  ghost predicate SameTree(t: NTree, t': NTree, f: Renumbering) {
    && |f| == |t| && NoDup(f)
    && forall i {:trigger f[i]} :: 0 <= i < |t| ==> f[i] < |t'| && SameNode(t[i], t'[f[i]], f)
  }

  lemma {:induction false} SameChildren(a: TNode, b: TNode, f: Renumbering)
    requires SameNode(a, b, f)
    ensures b.children == Renamed(a.children, f)
  {
    var r := Renamed(a.children, f);
    forall i, j | 0 <= i < j < |r|
      ensures Less(r[i].name, r[j].name)
    {
      assert Less(a.children[i].name, a.children[j].name);
    }
    ChildrenCanonical(r, b.children);
  }

  /** A list in the new numbers. */
  function Renumbered(q: seq<nat>, f: Renumbering): (r: seq<nat>)
    requires forall i {:trigger q[i]} :: 0 <= i < |q| ==> q[i] < |f|
    ensures |r| == |q|
  {
    seq(|q|, i requires 0 <= i < |q| => f[q[i]])
  }

  ghost predicate InRange(q: seq<nat>, n: nat) {
    forall i {:trigger q[i]} :: 0 <= i < |q| ==> q[i] < n
  }

  lemma {:induction false} SameTargets(a: TNode, b: TNode, f: Renumbering)
    requires SameNode(a, b, f)
    ensures InRange(Targets(a.children), |f|) && Targets(b.children) == Renumbered(Targets(a.children), f)
  {
    SameChildren(a, b, f);
  }

  lemma {:induction false} RenumberedAppend(a: seq<nat>, b: seq<nat>, f: Renumbering)
    requires InRange(a, |f|) && InRange(b, |f|)
    ensures InRange(a + b, |f|) && Renumbered(a + b, f) == Renumbered(a, f) + Renumbered(b, f)
  {
  }

  lemma {:induction false} RenumberedPrefix(q: seq<nat>, f: Renumbering, n: nat)
    requires InRange(q, |f|) && n <= |q|
    ensures InRange(q[..n], |f|) && Renumbered(q[..n], f) == Renumbered(q, f)[..n]
  {
  }

  lemma {:induction false} OwnRenumbered(t: NTree, t': NTree, f: Renumbering, cs: seq<nat>)
    requires SameTree(t, t', f) && InRange(cs, |f|)
    ensures InRange(Own(Shape(t), cs), |f|) && Own(Shape(t'), Renumbered(cs, f)) == Renumbered(Own(Shape(t), cs), f)
  {
    if cs != [] {
      var n := |cs| - 1;
      OwnRenumbered(t, t', f, cs[..n]);
      RenumberedPrefix(cs, f, n);
      assert SameNode(t[cs[n]], t'[f[cs[n]]], f);
      RenumberedAppend(Own(Shape(t), cs[..n]), if t[cs[n]].link.None? then [cs[n]] else [], f);
    }
  }

  lemma {:induction false} KidsRenumbered(t: NTree, t': NTree, f: Renumbering, p: nat)
    requires SameTree(t, t', f) && p < |t|
    ensures InRange(KidsIn(Shape(t))(p), |f|) && KidsIn(Shape(t'))(f[p]) == Renumbered(KidsIn(Shape(t))(p), f)
  {
    assert SameNode(t[p], t'[f[p]], f);
    SameTargets(t[p], t'[f[p]], f);
    OwnRenumbered(t, t', f, Targets(t[p].children));
  }

  /** The children of a list, for any two ways of finding children that agree. */
  lemma {:induction false} KidsOfMapped(kids: Kids, kids': Kids, f: Renumbering, q: seq<nat>)
    requires InRange(q, |f|)
    requires forall i {:trigger q[i]} :: 0 <= i < |q| ==>
               InRange(kids(q[i]), |f|) && kids'(f[q[i]]) == Renumbered(kids(q[i]), f)
    ensures InRange(KidsOf(kids, q), |f|) && KidsOf(kids', Renumbered(q, f)) == Renumbered(KidsOf(kids, q), f)
  {
    if q != [] {
      var n := |q| - 1;
      KidsOfMapped(kids, kids', f, q[..n]);
      RenumberedPrefix(q, f, n);
      RenumberedAppend(KidsOf(kids, q[..n]), kids(q[n]), f);
    }
  }

  lemma {:induction false} KidsOfRenumbered(t: NTree, t': NTree, f: Renumbering, q: seq<nat>)
    requires SameTree(t, t', f) && InRange(q, |f|)
    ensures InRange(KidsOf(KidsIn(Shape(t)), q), |f|)
    ensures KidsOf(KidsIn(Shape(t')), Renumbered(q, f)) == Renumbered(KidsOf(KidsIn(Shape(t)), q), f)
  {
    var kids, kids' := KidsIn(Shape(t)), KidsIn(Shape(t'));
    forall i | 0 <= i < |q|
      ensures InRange(kids(q[i]), |f|) && kids'(f[q[i]]) == Renumbered(kids(q[i]), f)
    {
      KidsRenumbered(t, t', f, q[i]);
    }
    KidsOfMapped(kids, kids', f, q);
  }

  lemma {:induction false} ListInRange(t: NTree, root: nat, q: seq<nat>)
    requires root < |t| && Complete(KidsIn(Shape(t)), root, q)
    ensures InRange(q, |t|)
  {
    CompleteIs(KidsIn(Shape(t)), root, q);
    ListIn(Shape(t), root, q);
    forall i | 0 <= i < |q|
      ensures q[i] < |t|
    {
      if i > 0 { assert q[i] in KidsOf(KidsIn(Shape(t)), q); }
    }
  }

  lemma {:induction false} RootRenumbered(t: NTree, t': NTree, f: Renumbering, root: nat, q: seq<nat>)
    requires SameTree(t, t', f) && root < |t| && Complete(KidsIn(Shape(t)), root, q) && InRange(q, |t|)
    ensures Renumbered(q, f) == [f[root]] + KidsOf(KidsIn(Shape(t')), Renumbered(q, f))
  {
    var kids := KidsIn(Shape(t));
    CompleteIs(kids, root, q);
    KidsOfRenumbered(t, t', f, q);
    RenumberedAppend([root], KidsOf(kids, q), f);
    assert Renumbered([root], f) == [f[root]];
  }

  lemma {:induction false} CompleteRenumbered(t: NTree, t': NTree, f: Renumbering, root: nat, q: seq<nat>)
    requires SameTree(t, t', f) && root < |t| && Complete(KidsIn(Shape(t)), root, q) && InRange(q, |t|)
    ensures Complete(KidsIn(Shape(t')), f[root], Renumbered(q, f))
  {
    var kids, kids', r := KidsIn(Shape(t)), KidsIn(Shape(t')), Renumbered(q, f);
    RootRenumbered(t, t', f, root, q);
    assert r[..|r|] == r;
    forall j | 0 <= j < |r|
      ensures j <= |KidsOf(kids', r[..j])|
    {
      RenumberedPrefix(q, f, j);
      KidsOfRenumbered(t, t', f, q[..j]);
    }
  }

  /** Two numberings of one tree are listed in the same order. */
  lemma {:induction false} SameList(t: NTree, t': NTree, f: Renumbering, root: nat, q: seq<nat>, q': seq<nat>)
    requires SameTree(t, t', f) && root < |t|
    requires Complete(KidsIn(Shape(t)), root, q) && Complete(KidsIn(Shape(t')), f[root], q')
    ensures InRange(q, |f|) && q' == Renumbered(q, f)
  {
    ListInRange(t, root, q);
    CompleteRenumbered(t, t', f, root, q);
    ListUnique(KidsIn(Shape(t')), f[root], Renumbered(q, f), q');
  }

  // ---------- inodes ----------

  lemma {:induction false} ChaseRenumbered(t: NTree, t': NTree, f: Renumbering, n: nat, k: nat)
    requires SameTree(t, t', f) && Closed(Shape(t)) && Closed(Shape(t')) && n < |t|
    ensures Chase(Shape(t'), f[n], k) == f[Chase(Shape(t), n, k)]
  {
    if k > 0 {
      ChaseRenumbered(t, t', f, n, k - 1);
      LinkRenumbered(t, t', f, Chase(Shape(t), n, k - 1));
    }
  }

  lemma {:induction false} LinkRenumbered(t: NTree, t': NTree, f: Renumbering, m: nat)
    requires SameTree(t, t', f) && m < |t|
    ensures Shape(t)[m].link.None? ==> Shape(t')[f[m]].link.None?
    ensures Shape(t)[m].link.Some? ==>
              Shape(t)[m].link.value < |f| && Shape(t')[f[m]].link == Some(f[Shape(t)[m].link.value])
  {
    assert SameNode(t[m], t'[f[m]], f);
  }

  lemma {:induction false} EndRenumbered(t: NTree, t': NTree, f: Renumbering, n: nat, e: nat)
    requires SameTree(t, t', f) && Closed(Shape(t)) && Closed(Shape(t')) && n < |t| && EndsAt(Shape(t), n, e)
    ensures EndsAt(Shape(t'), f[n], f[e])
  {
    var k :| 0 <= k && Chase(Shape(t), n, k) == e;
    ChaseRenumbered(t, t', f, n, k);
    assert SameNode(t[e], t'[f[e]], f);
  }

  lemma {:induction false} SameEntry(t: NTree, t': NTree, f: Renumbering, q: seq<nat>, q': seq<nat>, e: Entry,
                                    c: E.Child, c': E.Child)
    requires SameTree(t, t', f) && InRange(q, |f|) && q' == Renumbered(q, f) && NoDup(q') && e.node < |t|
    requires IsEntry(t, q, e, c) && IsEntry(t', q', Entry(e.name, f[e.node]), c')
    ensures c == c'
  {
    EndRenumbered(t, t', f, e.node, q[c.target]);
    EndUnique(Shape(t'), f[e.node], q'[c.target], q'[c'.target]);
  }

  lemma {:induction false} SameDirectories(t: NTree, t': NTree, f: Renumbering, cs: seq<nat>)
    requires SameTree(t, t', f) && InRange(cs, |f|)
    ensures Directories(Shape(t), cs) == Directories(Shape(t'), Renumbered(cs, f))
  {
    if cs != [] {
      var n := |cs| - 1;
      SameDirectories(t, t', f, cs[..n]);
      RenumberedPrefix(cs, f, n);
      assert SameNode(t[cs[n]], t'[f[cs[n]]], f);
    }
  }

  lemma {:induction false} SameEntries(t: NTree, t': NTree, f: Renumbering, q: seq<nat>, q': seq<nat>, es: seq<Entry>,
                                    cs: seq<E.Child>, cs': seq<E.Child>)
    requires SameTree(t, t', f) && InRange(q, |f|) && q' == Renumbered(q, f) && NoDup(q') && EntriesIn(es, |f|)
    requires AreEntries(t, q, es, cs) && AreEntries(t', q', Renamed(es, f), cs')
    ensures cs == cs'
  {
    forall j | 0 <= j < |es|
      ensures cs[j] == cs'[j]
    {
      assert IsEntry(t, q, es[j], cs[j]) && IsEntry(t', q', Renamed(es, f)[j], cs'[j]);
      SameEntry(t, t', f, q, q', es[j], cs[j], cs'[j]);
    }
  }

  lemma {:induction false} SameInode(t: NTree, t': NTree, f: Renumbering, q: seq<nat>, q': seq<nat>, k: nat, n: E.Inode,
                                    n': E.Inode)
    requires SameTree(t, t', f) && InRange(q, |f|) && q' == Renumbered(q, f) && NoDup(q')
    requires IsInode(t, q, k, n) && IsInode(t', q', k, n')
    ensures n == n'
  {
    var x, x' := t[q[k]], t'[q'[k]];
    assert SameNode(x, x', f);
    OrderCanonical(n.xattrs, n'.xattrs);
    if IsDir(x) {
      SameTargets(x, x', f);
      SameDirectories(t, t', f, Targets(x.children));
      SameChildren(x, x', f);
      SameEntries(t, t', f, q, q', x.children, n.body.children, n'.body.children);
    }
  }

  /** However the nodes of a tree are numbered and in whatever order it was put together, it is one list of inodes. */
  lemma {:induction false} SameInodes(t: NTree, t': NTree, f: Renumbering, root: nat, q: seq<nat>, q': seq<nat>,
                                    nodes: seq<E.Inode>, nodes': seq<E.Inode>)
    requires SameTree(t, t', f) && root < |t| && NoDup(q')
    requires Complete(KidsIn(Shape(t)), root, q) && Complete(KidsIn(Shape(t')), f[root], q')
    requires InodesOf(t, q, nodes) && InodesOf(t', q', nodes')
    ensures nodes == nodes'
  {
    SameList(t, t', f, root, q, q');
    forall k | 0 <= k < |q|
      ensures nodes[k] == nodes'[k]
    {
      SameInode(t, t', f, q, q', k, nodes[k], nodes'[k]);
    }
  }

  // ---------- what is gathered from the list ----------

  lemma {:induction false} SameAcl(a: seq<Xattr>, b: seq<Xattr>)
    requires multiset(a) == multiset(b) && HasAclName(a)
    ensures HasAclName(b)
  {
    var i :| 0 <= i < |a| && IsAclName(a[i].key);
    assert a[i] in multiset(b);
    var j :| 0 <= j < |b| && b[j] == a[i];
  }

  lemma {:induction false} SameSeen(t: NTree, t': NTree, f: Renumbering, x: nat, sec: int, nsec: nat)
    requires SameTree(t, t', f) && x < |t|
    ensures HasTime(Shape(t), x, sec, nsec) <==> HasTime(Shape(t'), f[x], sec, nsec)
    ensures HasAcl(Shape(t), x) <==> HasAcl(Shape(t'), f[x])
    ensures Shape(t)[x].sec == Shape(t')[f[x]].sec && Shape(t)[x].nsec == Shape(t')[f[x]].nsec
  {
    var a, b := t[x].xattrs, t'[f[x]].xattrs;
    assert SameNode(t[x], t'[f[x]], f);
    if HasAclName(a) { SameAcl(a, b); }
    if HasAclName(b) { SameAcl(b, a); }
  }

  lemma {:induction false} TimeRenumbered(t: NTree, t': NTree, f: Renumbering, q: seq<nat>, n: nat, sec: int, nsec: nat)
    requires SameTree(t, t', f) && InRange(q, |f|) && LeastTime(Shape(t), q, n, sec, nsec)
    ensures LeastTime(Shape(t'), Renumbered(q, f), n, sec, nsec)
  {
    var r := Renumbered(q, f);
    var k :| 0 <= k < n && HasTime(Shape(t), q[k], sec, nsec);
    SameSeen(t, t', f, q[k], sec, nsec);
    assert HasTime(Shape(t'), r[k], sec, nsec);
    forall j | 0 <= j < n && r[j] < |t'|
      ensures !Earlier(Shape(t')[r[j]].sec, Shape(t')[r[j]].nsec, sec, nsec)
    {
      SameSeen(t, t', f, q[j], sec, nsec);
    }
  }

  lemma {:induction false} TimeUnique(s: Tree, q: seq<nat>, n: nat, sec: int, nsec: nat, sec': int, nsec': nat)
    requires LeastTime(s, q, n, sec, nsec) && LeastTime(s, q, n, sec', nsec')
    ensures sec == sec' && nsec == nsec'
  {
    var k :| 0 <= k < n && HasTime(s, q[k], sec, nsec);
    var k' :| 0 <= k' < n && HasTime(s, q[k'], sec', nsec');
  }

  lemma {:induction false} AclRenumbered(t: NTree, t': NTree, f: Renumbering, q: seq<nat>, k: nat)
    requires SameTree(t, t', f) && InRange(q, |f|) && k < |q|
    ensures HasAcl(Shape(t), q[k]) <==> HasAcl(Shape(t'), Renumbered(q, f)[k])
  {
    SameSeen(t, t', f, q[k], 0, 0);
  }

  /** The oldest time stamp and the flag for access control lists do not depend on the numbering. */
  lemma {:induction false} SameGathered(t: NTree, t': NTree, f: Renumbering, q: seq<nat>, sec: int, nsec: nat,
                                    acl: bool, sec': int, nsec': nat, acl': bool)
    requires SameTree(t, t', f) && InRange(q, |f|) && q != []
    requires Gathered(Shape(t), q, |q|, sec, nsec, acl) && Gathered(Shape(t'), Renumbered(q, f), |q|, sec', nsec', acl')
    ensures sec == sec' && nsec == nsec' && acl == acl'
  {
    var r := Renumbered(q, f);
    TimeRenumbered(t, t', f, q, |q|, sec, nsec);
    TimeUnique(Shape(t'), r, |q|, sec, nsec, sec', nsec');
    if acl {
      var k :| 0 <= k < |q| && HasAcl(Shape(t), q[k]);
      AclRenumbered(t, t', f, q, k);
      assert HasAcl(Shape(t'), r[k]);
    }
    if acl' {
      var k :| 0 <= k < |q| && HasAcl(Shape(t'), r[k]);
      AclRenumbered(t, t', f, q, k);
      assert HasAcl(Shape(t), q[k]);
    }
  }
}
