/** The image of a tree, field by field. */
module TreeFormat {
  import opened Bytes
  import opened Chunking
  import opened Xattrs
  import opened NameFilter
  import opened TreeOrder
  import opened NamedTree
  import opened ErofsImage
  import opened ImageWriter
  import opened ImageFormat
  import E = ErofsNode
  import W = WrittenTree
  import L = LevelLists

  /** The filter that the writer computes. */
  function FilterFor(xx: Xxh32): W.Filter { (xs: seq<Xattr>) => FilterOf(xx, xs) }

  ghost predicate FiltersFor(xx: Xxh32, p: Plan) {
    |p.filters| == |p.nodes| &&
    forall i {:trigger p.filters[i]} :: 0 <= i < |p.nodes| ==> p.filters[i] == FilterOf(xx, p.nodes[i].xattrs)
  }

  ghost predicate HasAclAttr(x: TNode) {
    exists a :: a in x.xattrs &&
                (a.key == Ascii("system.posix_acl_access") || a.key == Ascii("system.posix_acl_default"))
  }

  ghost predicate AclFlag(t: NTree, q: seq<nat>, acl: bool) {
    acl <==> exists k :: 0 <= k < |q| && q[k] < |t| && HasAclAttr(t[q[k]])
  }

  /** Times are stored as unsigned numbers and read as signed ones. */
  ghost function SignedTime(n: nat): int { if n < 0x8000_0000_0000_0000 then n else n - 0x1_0000_0000_0000_0000 }

  /** What stands in the image: every field, the filters, the oldest time, and whether there is an ACL. */
  ghost predicate Formatted(xx: Xxh32, t: NTree, q: seq<nat>, p: Plan, acl: bool, version: nat, img: bytes) {
    && Conforms(img, p, if acl then 1 else 0, version) && FiltersFor(xx, p)
    && OldestOf(Shape(t), q, SignedTime(p.c.sec), p.c.nsec) && AclFlag(t, q, acl)
  }

  lemma {:induction false} FiltersAre(nodes: seq<E.Inode>, filter: W.Filter, i: nat)
    requires i < |nodes|
    ensures W.Filters(nodes, filter)[i] == filter(nodes[i].xattrs)
  {
    if i < |nodes| - 1 { FiltersAre(nodes[..|nodes| - 1], filter, i); }
  }

  lemma {:induction false} AclIs(x: TNode)
    ensures HasAclName(x.xattrs) <==> HasAclAttr(x)
  {
    if HasAclName(x.xattrs) {
      var i :| 0 <= i < |x.xattrs| && IsAclName(x.xattrs[i].key);
      assert x.xattrs[i] in x.xattrs;
    }
  }

  lemma {:induction false} GatheredIs(t: NTree, q: seq<nat>, sec: int, nsec: nat, acl: bool)
    requires Gathered(Shape(t), q, |q|, sec, nsec, acl) && q != []
    ensures OldestOf(Shape(t), q, sec, nsec)
    ensures AclFlag(t, q, acl)
  {
    GatheredMeans(Shape(t), q, sec, nsec, acl);
    forall k | 0 <= k < |q| && q[k] < |t|
      ensures Shape(t)[q[k]].acl <==> HasAclAttr(t[q[k]])
    {
      AclIs(t[q[k]]);
    }
    if acl {
      var k :| 0 <= k < |q| && q[k] < |t| && Shape(t)[q[k]].acl;
      assert HasAclAttr(t[q[k]]);
    }
    if k :| 0 <= k < |q| && q[k] < |t| && HasAclAttr(t[q[k]]) { assert Shape(t)[q[k]].acl; }
  }

  lemma {:induction false} SignedBack(sec: int)
    requires -0x8000_0000_0000_0000 <= sec < 0x8000_0000_0000_0000
    ensures 0 <= Unsigned64(sec) < TWO64 && SignedTime(Unsigned64(sec)) == sec
  {
  }

  lemma {:induction false} PlanFilters(xx: Xxh32, p: Plan)
    requires p.filters == W.Filters(p.nodes, FilterFor(xx))
    ensures FiltersFor(xx, p)
  {
    forall i | 0 <= i < |p.nodes|
      ensures p.filters[i] == FilterOf(xx, p.nodes[i].xattrs)
    {
      FiltersAre(p.nodes, FilterFor(xx), i);
    }
  }

  /** The image of a planned tree, written with the start that goes with it. */
  lemma {:induction false} PlanFormatted(xx: Xxh32, t: NTree, root: nat, q: seq<nat>, sec: int, nsec: nat, acl: bool,
                                         inodes: seq<E.Inode>, p: Plan, version: nat)
    requires W.TreeFits(t, root) && W.Planning(t, root, FilterFor(xx), q, sec, nsec, acl, inodes, p)
    requires ImageSize(p) < 0x1_0000_0000 && version < 0x1_0000_0000 && AllWritten(p) && AllIcountsFit(p, |p.nodes|)
    requires p.ps != []
    ensures Formatted(xx, t, q, p, acl, version, W.WholeImage(p, acl, version))
  {
    L.CompleteIs(KidsIn(Shape(t)), root, q);
    W.TimeInRange(t, q, |q|, sec, nsec);
    SignedBack(sec);
    PlanFilters(xx, p);
    GatheredIs(t, q, sec, nsec, acl);
    ImageConforms(p, if acl then 1 else 0, version);
  }
}
