/** From a tree to its image: the passes one after the other, and why two ways of building a tree give one image. */
module WrittenTree {
  import opened Common
  import opened Bytes
  import opened Order
  import opened Children
  import opened DirCodec
  import opened Xattrs
  import opened SharedXattrs
  import opened NodeAttrs
  import opened LevelLists
  import opened HardLinks
  import opened TreeOrder
  import opened NamedTree
  import opened ErofsImage
  import P = Planner
  import E = ErofsNode
  import N = NodeReader
  import L = Loader
  import S = Superblock

  // ---------- from the list to inodes ----------

  /** Sorts attributes by name; no two have the same. */
  method SortAttributes(xs: seq<Xattr>) returns (r: seq<Xattr>)
    requires DistinctKeys(xs)
    ensures Increasing(r, KeyBefore) && multiset(r) == multiset(xs)
  {
    r := [];
    for i := 0 to |xs|
      invariant Increasing(r, KeyBefore) && multiset(r) == multiset(xs[..i])
    {
      ghost var before := r;
      assert xs[..i + 1] == xs[..i] + [xs[i]];
      forall x | x in r
        ensures x.key != xs[i].key
      {
        assert x in multiset(xs[..i]);
        var j :| 0 <= j < i && xs[..i][j] == x;
        assert xs[j].key != xs[i].key;
      }
      r := InsertByKey(r, xs[i]);
    }
    assert xs[..|xs|] == xs;
  }

  method InsertByKey(s: seq<Xattr>, x: Xattr) returns (r: seq<Xattr>)
    requires Increasing(s, KeyBefore) && forall y | y in s :: y.key != x.key
    ensures Increasing(r, KeyBefore) && multiset(r) == multiset(s) + multiset{x}
  {
    var i := 0;
    while i < |s| && Less(s[i].key, x.key)
      invariant 0 <= i <= |s| && forall k {:trigger s[k]} :: 0 <= k < i ==> Less(s[k].key, x.key)
    {
      i := i + 1;
    }
    r := s[..i] + [x] + s[i..];
    KeyPlace(s, x, i);
  }

  lemma {:induction false} KeyAbove(s: seq<Xattr>, x: Xattr, i: nat)
    requires Increasing(s, KeyBefore) && (forall y | y in s :: y.key != x.key) && i <= |s|
    requires i < |s| ==> !Less(s[i].key, x.key)
    ensures forall k {:trigger s[k]} :: i <= k < |s| ==> Less(x.key, s[k].key)
  {
    forall k | i <= k < |s|
      ensures Less(x.key, s[k].key)
    {
      assert s[i] in s;
      LessTotal(x.key, s[i].key);
      if k > i {
        assert KeyBefore(s[i], s[k]);
        LessTransitive(x.key, s[i].key, s[k].key);
      }
    }
  }

  lemma {:induction false} KeyElements(s: seq<Xattr>, x: Xattr, i: nat)
    requires i <= |s|
    ensures multiset(s[..i] + [x] + s[i..]) == multiset(s) + multiset{x}
  {
    assert s == s[..i] + s[i..];
  }

  lemma {:induction false} KeyPlace(s: seq<Xattr>, x: Xattr, i: nat)
    requires Increasing(s, KeyBefore) && (forall y | y in s :: y.key != x.key) && i <= |s|
    requires forall k {:trigger s[k]} :: 0 <= k < i ==> Less(s[k].key, x.key)
    requires i < |s| ==> !Less(s[i].key, x.key)
    ensures Increasing(s[..i] + [x] + s[i..], KeyBefore) && multiset(s[..i] + [x] + s[i..]) == multiset(s) + multiset{x}
  {
    KeyAbove(s, x, i);
    KeyElements(s, x, i);
    var r := s[..i] + [x] + s[i..];
    forall a, b | 0 <= a < b < |r|
      ensures KeyBefore(r[a], r[b])
    {
      if a < i && b > i { assert KeyBefore(s[a], s[b - 1]); }
      if b < i { assert KeyBefore(s[a], s[b]); }
      if a > i { assert KeyBefore(s[a - 1], s[b - 1]); }
    }
  }

  /** What the pass over the tree has found out, as far as the inodes need it. */
  ghost predicate Listed(t: NTree, root: nat, q: seq<nat>, number: seq<nat>, links: seq<nat>) {
    && Closed(Shape(t)) && LinksStop(Shape(t)) && LinksInside(Shape(t), q)
    && root < |t| && Complete(KidsIn(Shape(t)), root, q) && NoDup(q) && Numbered(Shape(t), q, number, links, |q|)
  }

  lemma {:induction false} OwnHas(s: Tree, cs: seq<nat>, c: nat)
    requires c in cs && c < |s| && s[c].link.None?
    ensures c in Own(s, cs)
  {
    var n := |cs| - 1;
    if cs[n] != c {
      assert c in cs[..n];
      OwnHas(s, cs[..n], c);
    }
  }

  /** A child of a listed node is listed, or is a link to a listed node. */
  lemma {:induction false} ChildListed(t: NTree, root: nat, q: seq<nat>, number: seq<nat>, links: seq<nat>, k: nat,
                                    c: nat)
    requires Listed(t, root, q, number, links) && k < |q| && q[k] < |t| && c in Targets(t[q[k]].children)
    ensures c < |t| && LinkGood(Shape(t), q, c) && (t[c].link.None? ==> c in q)
  {
    var s := Shape(t);
    assert q[k] in q && c in s[q[k]].children;
    if t[c].link.None? {
      OwnHas(s, s[q[k]].children, c);
      KidsOn(KidsIn(s), root, q, k, c);
    }
  }

  /** Where a child is found in the list, through its links. */
  method Locate(t: NTree, s: Tree, number: seq<nat>, c: nat, ghost q: seq<nat>, ghost links: seq<nat>)
    returns (target: nat)
    requires s == Shape(t) && Closed(s) && LinksStop(s) && c < |t| && LinkGood(s, q, c)
    requires Numbered(s, q, number, links, |q|)
    requires t[c].link.None? ==> c in q
    ensures target < |q| && EndsAt(s, c, q[target])
  {
    assert Halts(s, c);
    ghost var k: nat :| Stops(s, c, k);
    var end := FollowLinks(s, c, k);
    ghost var e: nat :| EndsAt(s, c, e) && (s[c].link.Some? ==> e in q);
    if end.None? {
      assert false;
    }
    EndUnique(s, c, e, end.value);
    if t[c].link.None? {
      assert Chase(s, c, 0) == c && EndsAt(s, c, c);
      EndUnique(s, c, c, e);
    }
    target := number[end.value];
  }

  method ListEntries(t: NTree, s: Tree, root: nat, number: seq<nat>, links: seq<nat>, es: seq<Entry>, ghost q: seq<nat>,
                     ghost k: nat)
    returns (cs: seq<E.Child>)
    requires s == Shape(t) && Listed(t, root, q, number, links) && k < |q| && q[k] < |t| && es == t[q[k]].children
    ensures AreEntries(t, q, es, cs)
  {
    cs := [];
    for j := 0 to |es|
      invariant |cs| == j && forall i {:trigger cs[i]} :: 0 <= i < j ==> IsEntry(t, q, es[i], cs[i])
    {
      assert Targets(es)[j] == es[j].node;
      ChildListed(t, root, q, number, links, k, es[j].node);
      var target := Locate(t, s, number, es[j].node, q, links);
      cs := cs + [E.Child(es[j].name, target)];
    }
  }

  /** The inode of the node at place `k`. */
  method OneInode(t: NTree, s: Tree, root: nat, number: seq<nat>, links: seq<nat>, x: nat, k: nat, ghost q: seq<nat>)
    returns (n: E.Inode)
    requires s == Shape(t) && Listed(t, root, q, number, links) && k < |q| && q[k] == x && x < |t|
    requires DistinctKeys(t[x].xattrs)
    requires Unsigned64(t[x].sec) >= 0
    ensures IsInode(t, q, k, n)
  {
    var node := t[x];
    var xattrs := SortAttributes(node.xattrs);
    var body, nlink := node.body, node.nlink;
    if IsDir(node) {
      var cs := ListEntries(t, s, root, number, links, node.children, q, k);
      body, nlink := E.Directory(cs), links[x];
    }
    n := E.Inode(node.mode, nlink, node.uid, node.gid, node.rdev, Unsigned64(node.sec), node.nsec, k, body, xattrs);
  }

  lemma {:induction false} ListBounded(t: NTree, root: nat, q: seq<nat>, number: seq<nat>, links: seq<nat>)
    requires Listed(t, root, q, number, links)
    ensures First(q, root) && forall k {:trigger q[k]} :: 0 <= k < |q| ==> q[k] < |t|
  {
    CompleteIs(KidsIn(Shape(t)), root, q);
  }

  /** Node data within the widths of its fields. */
  ghost predicate FieldsFit(x: TNode) {
    && x.mode < 0x1_0000 && x.nlink < 0x1_0000_0000 && x.uid < 0x1_0000_0000 && x.gid < 0x1_0000_0000
    && x.rdev < 0x1_0000_0000 && -0x8000_0000_0000_0000 <= x.sec < 0x8000_0000_0000_0000 && x.nsec < 0x1_0000_0000
    && DistinctKeys(x.xattrs) && (forall k {:trigger x.xattrs[k]} :: 0 <= k < |x.xattrs| ==> Fits(Store(x.xattrs[k])))
    && (forall j {:trigger x.children[j]} :: 0 <= j < |x.children| ==> NameOk(x.children[j].name))
    && |x.children| < 0x8000_0000
  }

  /** Content that goes with the mode, as validation leaves it. */
  ghost predicate BodyFits(x: TNode) {
    !IsDir(x) ==> !x.body.Directory? && E.BodyOk(x.mode, x.body)
  }

  /** Every node that gets an inode fits. */
  ghost predicate ListFits(t: NTree, q: seq<nat>) {
    forall k {:trigger q[k]} :: 0 <= k < |q| ==> q[k] < |t| && FieldsFit(t[q[k]]) && BodyFits(t[q[k]])
  }

  /** All nodes fit; content matters only where there will be an inode, so not for hard links, whose mode is 0. */
  ghost predicate TreeFits(t: NTree, root: nat) {
    && |t| < 0x1_0000_0000 && (forall i {:trigger t[i]} :: 0 <= i < |t| ==> FieldsFit(t[i]))
    && forall q {:trigger Complete(KidsIn(Shape(t)), root, q)} ::
         Complete(KidsIn(Shape(t)), root, q) && AllPlain(Shape(t), q) ==> ListFits(t, q)
  }

  lemma {:induction false} InodesNext(t: NTree, q: seq<nat>, nodes: seq<E.Inode>, n: E.Inode)
    requires forall k {:trigger nodes[k]} :: 0 <= k < |nodes| ==> IsInode(t, q, k, nodes[k])
    requires IsInode(t, q, |nodes|, n)
    ensures var nodes' := nodes + [n];
            forall k {:trigger nodes'[k]} :: 0 <= k < |nodes'| ==> IsInode(t, q, k, nodes'[k])
  {
  }

  lemma {:induction false} AttributesDiffer(t: NTree, x: nat)
    requires x < |t| && FieldsFit(t[x])
    ensures DistinctKeys(t[x].xattrs) && Unsigned64(t[x].sec) >= 0
  {
  }

  /** All inodes, in the order of the list. */
  method ListInodes(t: NTree, root: nat, p: Pass) returns (nodes: seq<E.Inode>)
    requires TreeFits(t, root) && p.t == Shape(t) && Listed(t, root, p.q, p.number, p.links) && Chained(p.next, p.q)
    ensures InodesOf(t, p.q, nodes)
  {
    nodes := [];
    var node := Some(root);
    ListBounded(t, root, p.q, p.number, p.links);
    while node.Some?
      invariant |nodes| <= |p.q| && node == NodeAt(p.q, |nodes|)
      invariant forall k {:trigger nodes[k]} :: 0 <= k < |nodes| ==> IsInode(t, p.q, k, nodes[k])
      decreases |p.q| - |nodes|
    {
      NextIs(p.next, p.q, |nodes|);
      AttributesDiffer(t, node.value);
      var n := OneInode(t, p.t, root, p.number, p.links, node.value, |nodes|, p.q);
      InodesNext(t, p.q, nodes, n);
      node, nodes := p.next[node.value], nodes + [n];
    }
  }

  // ---------- one tree, one image ----------

  type Filter = seq<Xattr> -> nat

  function Filters(nodes: seq<E.Inode>, filter: Filter): (fs: seq<nat>)
    ensures |fs| == |nodes|
  {
    if nodes == [] then [] else Filters(nodes[..|nodes| - 1], filter) + [filter(nodes[|nodes| - 1].xattrs)]
  }

  /** What the passes make of a tree: its list, the oldest time, the flag, the inodes and the plan. */
  ghost predicate Planning(t: NTree, root: nat, filter: Filter, q: seq<nat>, sec: int, nsec: nat, acl: bool,
                           nodes: seq<E.Inode>, p: Plan) {
    && root < |t| && Complete(KidsIn(Shape(t)), root, q) && NoDup(q) && Gathered(Shape(t), q, |q|, sec, nsec, acl)
    && InodesOf(t, q, nodes) && ListFits(t, q) && Unsigned64(sec) >= 0
    && P.IsPlan(p, nodes, Unsigned64(sec), nsec, Store, Filters(nodes, filter))
  }

  lemma {:induction false} FewDirectories(s: Tree, cs: seq<nat>)
    ensures Directories(s, cs) <= |cs|
  {
    if cs != [] { FewDirectories(s, cs[..|cs| - 1]); }
  }

  lemma {:induction false} AttributesFit(a: seq<Xattr>, b: seq<Xattr>)
    requires multiset(a) == multiset(b) && forall k {:trigger a[k]} :: 0 <= k < |a| ==> Fits(Store(a[k]))
    ensures AllFit(StoredAll(b, Store))
  {
    forall k | 0 <= k < |b|
      ensures Fits(Store(b[k]))
    {
      assert b[k] in multiset(a);
      var j :| 0 <= j < |a| && a[j] == b[k];
    }
  }

  lemma {:induction false} InodeFits(t: NTree, q: seq<nat>, k: nat, n: E.Inode)
    requires ListFits(t, q) && k < |q| <= |t| < 0x1_0000_0000 && IsInode(t, q, k, n)
    ensures N.NodeOk(n, Store) && TargetsIn(n.body, |q|)
  {
    var x := t[q[k]];
    FewDirectories(Shape(t), Targets(x.children));
    AttributesFit(x.xattrs, n.xattrs);
    if IsDir(x) {
      var cs := n.body.children;
      forall j | 0 <= j < |cs|
        ensures NameOk(cs[j].name) && cs[j].target < |q|
      {
        assert IsEntry(t, q, x.children[j], cs[j]);
      }
      assert forall j {:trigger E.ChildNames(cs)[j]} :: 0 <= j < |cs| ==> E.ChildNames(cs)[j] == cs[j].name;
    }
  }

  lemma {:induction false} InodesFit(t: NTree, q: seq<nat>, nodes: seq<E.Inode>)
    requires ListFits(t, q) && |t| < 0x1_0000_0000 && InodesOf(t, q, nodes) && NoDup(q)
    ensures P.ListOk(nodes, Store)
  {
    assert forall x | x in q :: x < |t|;
    NoDupBound(q, |t|);
    forall k | 0 <= k < |nodes|
      ensures N.NodeOk(nodes[k], Store) && TargetsIn(nodes[k].body, |nodes|)
    {
      InodeFits(t, q, k, nodes[k]);
    }
  }

  /** The passes that come before writing: the list, the inodes, the plan. */
  method PlanTree(t: NTree, root: nat, filter: Filter, ghost up: map<nat, nat>)
    returns (r: Result<(Plan, bool), TreeError>)
    requires TreeFits(t, root) && IsTree(Shape(t), root, up) && LinksStop(Shape(t))
    ensures r.Ok? <==> Acceptable(Shape(t), root)
    ensures r.Ok? ==> exists q, sec, nsec, nodes :: Planning(t, root, filter, q, sec, nsec, r.value.1, nodes, r.value.0)
  {
    var counted, pass := ComputeTree(Shape(t), root, up);
    if counted.Err? { return Err(counted.error); }
    assert Complete(KidsIn(Shape(t)), root, pass.q);
    var nodes := ListInodes(t, root, pass);
    InodesFit(t, pass.q, nodes);
    TimeInRange(t, pass.q, counted.value, pass.minSec, pass.minNsec);
    var filters := Filters(nodes, filter);
    var p := P.MakePlan(nodes, Unsigned64(pass.minSec), pass.minNsec, Store, filters);
    assert Planning(t, root, filter, pass.q, pass.minSec, pass.minNsec, pass.hasAcl, nodes, p);
    return Ok((p, pass.hasAcl));
  }

  lemma {:induction false} TimeInRange(t: NTree, q: seq<nat>, n: nat, sec: int, nsec: nat)
    requires forall i {:trigger t[i]} :: 0 <= i < |t| ==> FieldsFit(t[i])
    requires n <= |q| && LeastTime(Shape(t), q, if n == 0 then 1 else n, sec, nsec)
    ensures -0x8000_0000_0000_0000 <= sec < 0x8000_0000_0000_0000 && nsec < 0x1_0000_0000
  {
    var k :| 0 <= k < (if n == 0 then 1 else n) && HasTime(Shape(t), q[k], sec, nsec);
    assert FieldsFit(t[q[k]]);
  }

  /** The image of a plan, with its fixed start. */
  ghost function WholeImage(p: Plan, acl: bool, version: nat): bytes
    requires AllWritten(p) && p.ps != []
  {
    ImageOf(p, S.PrefixBytes(L.SuperOf(p, if acl then 1 else 0, version)))
  }

  /**
   However a tree was put together - children and attributes in any order, nodes in any numbering - it gets the same
   plan and the same image, byte for byte.
   */
  lemma {:induction false} CanonicalImage(t: NTree, t': NTree, f: Renumbering, root: nat, filter: Filter,
                                          q: seq<nat>, sec: int, nsec: nat, acl: bool, nodes: seq<E.Inode>, p: Plan,
                                          q': seq<nat>, sec': int, nsec': nat, acl': bool, nodes': seq<E.Inode>,
                                          p': Plan, version: nat)
    requires SameTree(t, t', f) && root < |t|
    requires Planning(t, root, filter, q, sec, nsec, acl, nodes, p)
    requires Planning(t', f[root], filter, q', sec', nsec', acl', nodes', p')
    requires AllWritten(p) && p.ps != []
    ensures p == p' && acl == acl' && WholeImage(p, acl, version) == WholeImage(p', acl', version)
  {
    SameList(t, t', f, root, q, q');
    CompleteIs(KidsIn(Shape(t)), root, q);
    SameGathered(t, t', f, q, sec, nsec, acl, sec', nsec', acl');
    SameInodes(t, t', f, root, q, q', nodes, nodes');
    P.PlanUnique(p, p', nodes, Unsigned64(sec), nsec, Store, Filters(nodes, filter));
  }
}
