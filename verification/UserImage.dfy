/** The rewritten tree is one that can be laid out, and its names are those of the user's tree. */
module UserImage {
  import opened Bytes
  import opened Order
  import opened Children
  import opened DirCodec
  import opened Xattrs
  import opened Escaping
  import opened Overlay
  import opened MarkRoom
  import opened LevelLists
  import opened HardLinks
  import opened TreeOrder
  import opened NamedTree
  import opened Rewriting
  import opened RewrittenTree
  import opened Whiteouts
  import E = ErofsNode
  import W = WrittenTree

  /** What is needed of the rewriting. */
  ghost predicate Remade(u: NTree, ex: seq<Extra>, version: nat, root: nat, t: NTree, home: seq<(nat, bytes)>,
                       done: set<nat>) {
    && UserTree(u) && Rewritten(u, ex, version, root, t, home, done) && LinksStop(Shape(u))
    && ExtrasOk(ex)
  }

  // ---------- links ----------

  lemma {:induction false} LinkSame(u: NTree, ex: seq<Extra>, version: nat, root: nat, t: NTree,
                                    home: seq<(nat, bytes)>, done: set<nat>, x: nat)
    requires Remade(u, ex, version, root, t, home, done) && x < |u|
    ensures x < |t| && t[x].link == u[x].link
  {
    assert FinalStep(u, ex, version, root, t, done, x);
  }

  lemma {:induction false} StaysClosed(u: NTree, ex: seq<Extra>, version: nat, root: nat, t: NTree,
                                       home: seq<(nat, bytes)>, done: set<nat>)
    requires Remade(u, ex, version, root, t, home, done)
    ensures Closed(Shape(t))
  {
    var s := Shape(t);
    forall p | 0 <= p < |s|
      ensures (forall c | c in s[p].children :: c < |s|) && (s[p].link.Some? ==> s[p].link.value < |s|)
    {
      if p < |u| {
        LinkSame(u, ex, version, root, t, home, done, p);
        assert Shape(u)[p].link == u[p].link;
        forall c | c in s[p].children
          ensures c < |s|
        {
          var j :| 0 <= j < |t[p].children| && Targets(t[p].children)[j] == c;
          assert Homed(|u|, t, home, p) && t[p].children[j] in t[p].children;
        }
      } else {
        assert NewNode(u, t[p]);
      }
    }
  }

  lemma {:induction false} ChaseSame(u: NTree, ex: seq<Extra>, version: nat, root: nat, t: NTree,
                                     home: seq<(nat, bytes)>, done: set<nat>, n: nat, k: nat)
    requires Remade(u, ex, version, root, t, home, done) && n < |u| && Closed(Shape(t))
    ensures Chase(Shape(t), n, k) == Chase(Shape(u), n, k) < |u|
  {
    if k > 0 {
      ChaseSame(u, ex, version, root, t, home, done, n, k - 1);
      LinkSame(u, ex, version, root, t, home, done, Chase(Shape(u), n, k - 1));
    }
  }

  /** A chain of links of the user ends where it did. */
  lemma {:induction false} EndSame(u: NTree, ex: seq<Extra>, version: nat, root: nat, t: NTree,
                                   home: seq<(nat, bytes)>, done: set<nat>, n: nat, y: nat)
    requires Remade(u, ex, version, root, t, home, done) && n < |u| && Closed(Shape(t))
    ensures EndsAt(Shape(t), n, y) <==> y < |u| && EndsAt(Shape(u), n, y)
  {
    if EndsAt(Shape(t), n, y) {
      var k :| 0 <= k && Chase(Shape(t), n, k) == y;
      ChaseSame(u, ex, version, root, t, home, done, n, k);
      LinkSame(u, ex, version, root, t, home, done, y);
    }
    if y < |u| && EndsAt(Shape(u), n, y) {
      var k :| 0 <= k && Chase(Shape(u), n, k) == y;
      ChaseSame(u, ex, version, root, t, home, done, n, k);
      LinkSame(u, ex, version, root, t, home, done, y);
    }
  }

  /** New nodes end at a node of the user, or at themselves if they are whiteouts of the root. */
  lemma {:induction false} NewEnds(u: NTree, ex: seq<Extra>, version: nat, root: nat, t: NTree,
                                   home: seq<(nat, bytes)>, done: set<nat>, n: nat, y: nat)
    requires Remade(u, ex, version, root, t, home, done) && |u| <= n < |t| && Closed(Shape(t))
    requires EndsAt(Shape(t), n, y)
    ensures y == n || y < |u|
  {
    assert NewNode(u, t[n]);
    if IsDotLink(u, t[n]) {
      var m := t[n].link.value;
      LinkSame(u, ex, version, root, t, home, done, m);
      assert Chase(Shape(t), n, 0) == n;
      assert Chase(Shape(t), n, 1) == m;
      assert EndsAt(Shape(t), n, m);
      EndUnique(Shape(t), n, y, m);
    } else {
      assert Chase(Shape(t), n, 0) == n;
      assert EndsAt(Shape(t), n, n);
      EndUnique(Shape(t), n, y, n);
    }
  }

  lemma {:induction false} LinksStillStop(u: NTree, ex: seq<Extra>, version: nat, root: nat, t: NTree,
                                          home: seq<(nat, bytes)>, done: set<nat>)
    requires Remade(u, ex, version, root, t, home, done)
    ensures LinksStop(Shape(t))
  {
    StaysClosed(u, ex, version, root, t, home, done);
    forall n | 0 <= n < |t|
      ensures Halts(Shape(t), n)
    {
      if n < |u| {
        assert Halts(Shape(u), n);
        var k: nat :| Stops(Shape(u), n, k);
        ChaseSame(u, ex, version, root, t, home, done, n, k);
        LinkSame(u, ex, version, root, t, home, done, Chase(Shape(u), n, k));
        assert Stops(Shape(t), n, k);
      } else {
        NewStops(u, ex, version, root, t, home, done, n);
      }
    }
  }

  lemma {:induction false} NewStops(u: NTree, ex: seq<Extra>, version: nat, root: nat, t: NTree,
                                    home: seq<(nat, bytes)>, done: set<nat>, n: nat)
    requires Remade(u, ex, version, root, t, home, done) && |u| <= n < |t| && Closed(Shape(t))
    ensures Halts(Shape(t), n)
  {
    assert NewNode(u, t[n]);
    assert Chase(Shape(t), n, 0) == n;
    if IsDotLink(u, t[n]) {
      var m := t[n].link.value;
      LinkSame(u, ex, version, root, t, home, done, m);
      assert Chase(Shape(t), n, 1) == m;
      assert Stops(Shape(t), n, 1);
    } else {
      assert Stops(Shape(t), n, 0);
    }
  }

  // ---------- entries ----------

  lemma {:induction false} ParentIsUsers(u: NTree, ex: seq<Extra>, version: nat, root: nat, t: NTree,
                                         home: seq<(nat, bytes)>, done: set<nat>, x: nat, e: Entry)
    requires Rewritten(u, ex, version, root, t, home, done) && IsChild(t, x, e)
    ensures x < |u|
  {
    assert x >= |u| ==> NewNode(u, t[x]);
  }

  lemma {:induction false} EntryHome(u: NTree, ex: seq<Extra>, version: nat, root: nat, t: NTree,
                                     home: seq<(nat, bytes)>, done: set<nat>, x: nat, e: Entry)
    requires Rewritten(u, ex, version, root, t, home, done) && IsChild(t, x, e) && x < |u|
    ensures e.node < |t| && (e.node >= |u| ==> home[e.node - |u|] == (x, e.name))
  {
    assert Homed(|u|, t, home, x);
  }

  lemma {:induction false} EntryKind(u: NTree, ex: seq<Extra>, version: nat, root: nat, t: NTree,
                                     home: seq<(nat, bytes)>, done: set<nat>, x: nat, e: Entry)
    requires Rewritten(u, ex, version, root, t, home, done) && IsChild(t, x, e) && x < |u|
    ensures e in u[x].children || IsDotEntry(u, t, e) || (x == root && IsHexEntry(u, t, e))
  {
    assert FinalStep(u, ex, version, root, t, done, x);
  }

  lemma {:induction false} EntryKinds(u: NTree, ex: seq<Extra>, version: nat, root: nat, t: NTree,
                                      home: seq<(nat, bytes)>, done: set<nat>, x: nat, e: Entry)
    requires Rewritten(u, ex, version, root, t, home, done) && Closed(Shape(u)) && IsChild(t, x, e)
    ensures x < |u| && e.node < |t|
    ensures if e.node < |u| then e in u[x].children else home[e.node - |u|] == (x, e.name)
    ensures e in u[x].children || IsDotEntry(u, t, e) || (x == root && IsHexEntry(u, t, e))
    ensures e in u[x].children ==> e.node < |u|
  {
    ParentIsUsers(u, ex, version, root, t, home, done, x, e);
    EntryHome(u, ex, version, root, t, home, done, x, e);
    EntryKind(u, ex, version, root, t, home, done, x, e);
    if e in u[x].children {
      assert IsChild(u, x, e);
      UserEntry(u, x, e);
    }
  }

  lemma {:induction false} UserEntry(u: NTree, x: nat, e: Entry)
    requires Closed(Shape(u)) && IsChild(u, x, e)
    ensures e.node < |u|
  {
    var j :| 0 <= j < |u[x].children| && u[x].children[j] == e;
    assert Targets(u[x].children)[j] in Shape(u)[x].children;
  }

  lemma {:induction false} StillOneEntry(u: NTree, ex: seq<Extra>, version: nat, root: nat, t: NTree,
                                         home: seq<(nat, bytes)>, done: set<nat>)
    requires Remade(u, ex, version, root, t, home, done)
    ensures OneEntry(t)
  {
    forall x: nat, e, x': nat, e' | IsChild(t, x, e) && IsChild(t, x', e') && e.node == e'.node
      ensures x == x' && e == e'
    {
      EntryKinds(u, ex, version, root, t, home, done, x, e);
      EntryKinds(u, ex, version, root, t, home, done, x', e');
      if e.node < |u| { assert IsChild(u, x, e) && IsChild(u, x', e'); }
    }
  }

  lemma {:induction false} StillSorted(u: NTree, ex: seq<Extra>, version: nat, root: nat, t: NTree,
                                       home: seq<(nat, bytes)>, done: set<nat>, x: nat)
    requires Remade(u, ex, version, root, t, home, done) && x < |t|
    ensures Sorted(t[x].children)
  {
    if x < |u| {
      assert FinalStep(u, ex, version, root, t, done, x) && UserNode(u[x]);
    } else {
      assert NewNode(u, t[x]);
    }
  }

  // ---------- a tree ----------

  ghost predicate HasParent(t: NTree, x: nat) { exists p: nat :: IsKid(t, p, x) }

  ghost function Parent(t: NTree, x: nat): nat
    requires HasParent(t, x)
  {
    var p: nat :| IsKid(t, p, x);
    p
  }

  ghost function Up(t: NTree): map<nat, nat> { map x: nat | x < |t| && HasParent(t, x) :: Parent(t, x) }

  lemma {:induction false} OwnNoDup(s: Tree, cs: seq<nat>)
    requires NoDup(cs)
    ensures NoDup(Own(s, cs))
  {
    if cs != [] {
      var n := |cs| - 1;
      OwnNoDup(s, cs[..n]);
      OwnIn(s, cs[..n]);
    }
  }

  lemma {:induction false} TargetsNoDup(t: NTree, x: nat)
    requires OneEntry(t) && x < |t| && Sorted(t[x].children)
    ensures NoDup(Targets(t[x].children))
  {
    var es := t[x].children;
    forall i, j | 0 <= i < j < |es|
      ensures es[i].node != es[j].node
    {
      assert IsChild(t, x, es[i]) && IsChild(t, x, es[j]);
      LessIrreflexive(es[i].name);
    }
  }

  lemma {:induction false} KidsNoDup(t: NTree, p: nat)
    requires OneEntry(t) && (p < |t| ==> Sorted(t[p].children))
    ensures NoDup(KidsIn(Shape(t))(p))
  {
    if p < |t| {
      TargetsNoDup(t, p);
      OwnNoDup(Shape(t), Targets(t[p].children));
    }
  }

  /** Nodes that are children once, below a node that is nobody's child, are a tree. */
  lemma {:induction false} TreeFrom(t: NTree, root: nat)
    requires Closed(Shape(t)) && OneEntry(t) && root < |t| && !HasParent(t, root)
    requires forall x: nat {:trigger Sorted(t[x].children)} :: x < |t| ==> Sorted(t[x].children)
    ensures IsTree(Shape(t), root, Up(t))
  {
    var kids, up := KidsIn(Shape(t)), Up(t);
    forall p: nat
      ensures NoDup(kids(p)) && forall x | x in kids(p) :: x in up && up[x] == p
    {
      assert p < |t| ==> Sorted(t[p].children);
      KidsNoDup(t, p);
      forall x | x in kids(p)
        ensures x in up && up[x] == p
      {
        assert IsKid(t, p, x);
        KidHas(t, p, x);
        KidOnce(t, p, Parent(t, x), x);
      }
    }
  }

  /** The children of the rewritten tree that are not links: the user's, and the whiteouts of the root. */
  lemma {:induction false} KidKinds(u: NTree, ex: seq<Extra>, version: nat, root: nat, t: NTree,
                                    home: seq<(nat, bytes)>, done: set<nat>, p: nat, x: nat)
    requires Remade(u, ex, version, root, t, home, done) && IsKid(t, p, x)
    ensures p < |u| && x < |t| && if x < |u| then IsKid(u, p, x) else p == root && HexNode(t[x])
  {
    KidHas(t, p, x);
    var e :| e in t[p].children && e.node == x;
    assert IsChild(t, p, e);
    EntryKinds(u, ex, version, root, t, home, done, p, e);
    if x < |u| {
      LinkSame(u, ex, version, root, t, home, done, x);
      var j :| 0 <= j < |u[p].children| && u[p].children[j] == e;
      assert Targets(u[p].children)[j] == x;
      OwnHas(Shape(u), Targets(u[p].children), x);
    } else {
      assert NewNode(u, t[x]);
    }
  }

  lemma {:induction false} StillTree(u: NTree, ex: seq<Extra>, version: nat, root: nat, t: NTree,
                                     home: seq<(nat, bytes)>, done: set<nat>)
    requires Remade(u, ex, version, root, t, home, done)
    ensures IsTree(Shape(t), root, Up(t))
  {
    StaysClosed(u, ex, version, root, t, home, done);
    StillOneEntry(u, ex, version, root, t, home, done);
    forall x: nat | x < |t|
      ensures Sorted(t[x].children)
    {
      StillSorted(u, ex, version, root, t, home, done, x);
    }
    if HasParent(t, root) {
      var p: nat :| IsKid(t, p, root);
      KidKinds(u, ex, version, root, t, home, done, p, root);
    }
    TreeFrom(t, root);
  }

  // ---------- the list ----------

  /** What is on the list: nodes of the user that have been rewritten, and whiteouts of the root. */
  ghost predicate OnList(u: NTree, t: NTree, done: set<nat>, x: nat) {
    x in done || (|u| <= x < |t| && HexNode(t[x]))
  }

  lemma {:induction false} NewModeType(x: TNode)
    ensures E.FileType(NewMode(x)) == if WhiteoutNode(x) then E.S_IFREG else E.FileType(x.mode)
  {
    var m := x.mode % 4096;
    assert 0 <= m < 4096;
    assert (0x8000 + m) / 0x1000 == 8;
  }

  lemma {:induction false} SameKind(u: NTree, ex: seq<Extra>, version: nat, root: nat, t: NTree,
                                    home: seq<(nat, bytes)>, done: set<nat>, x: nat)
    requires Rewritten(u, ex, version, root, t, home, done) && x in done
    ensures x < |u| && (IsDir(t[x]) <==> IsDir(u[x])) && !WhiteoutNode(t[x])
    ensures DataDone(u[x], ex[x], t[x], HasWhiteout(u, done, x), version, x == root) && Finished(u, t[x], done, x)
  {
    assert FinalStep(u, ex, version, root, t, done, x);
    NewModeType(u[x]);
  }

  lemma {:induction false} KidOnList(u: NTree, ex: seq<Extra>, version: nat, root: nat, t: NTree,
                                     home: seq<(nat, bytes)>, done: set<nat>, p: nat, x: nat)
    requires Remade(u, ex, version, root, t, home, done) && IsKid(t, p, x) && OnList(u, t, done, p)
    requires Closed(Shape(t)) && p < |t| && Plain(Shape(t), p)
    ensures OnList(u, t, done, x)
  {
    KidKinds(u, ex, version, root, t, home, done, p, x);
    KidHas(t, p, x);
    HasTargets(t, p, x);
    SameKind(u, ex, version, root, t, home, done, p);
  }

  lemma {:induction false} HasTargets(t: NTree, p: nat, x: nat)
    requires p < |t| && exists e :: e in t[p].children && e.node == x
    ensures Shape(t)[p].children != []
  {
  }

  lemma {:induction false} AllOnList(u: NTree, ex: seq<Extra>, version: nat, root: nat, t: NTree,
                                     home: seq<(nat, bytes)>, done: set<nat>, q: seq<nat>, k: nat)
    requires Remade(u, ex, version, root, t, home, done) && Closed(Shape(t)) && k < |q|
    requires Complete(KidsIn(Shape(t)), root, q) && AllPlain(Shape(t), q)
    ensures OnList(u, t, done, q[k])
  {
    var kids := KidsIn(Shape(t));
    CompleteIs(kids, root, q);
    if k > 0 {
      var i := KidOfEarlier(kids, root, q, k);
      AllOnList(u, ex, version, root, t, home, done, q, i);
      assert q[i] in q;
      assert IsKid(t, q[i], q[k]);
      KidOnList(u, ex, version, root, t, home, done, q[i], q[k]);
    }
  }

  /** Everything on a list but its first node is a child of something before it. */
  lemma {:induction false} KidOfEarlier(kids: Kids, root: nat, q: seq<nat>, k: nat) returns (i: nat)
    requires Complete(kids, root, q) && 0 < k < |q|
    ensures i < k && q[k] in kids(q[i])
  {
    CompleteIs(kids, root, q);
    assert q[..k] == q[..k];
    assert k <= |KidsOf(kids, q[..k])|;
    KidsMonotone(kids, q, k);
    assert KidsOf(kids, q[..k]) <= KidsOf(kids, q);
    assert q[k] == KidsOf(kids, q)[k - 1] == KidsOf(kids, q[..k])[k - 1];
    i := KidFrom(kids, q[..k], q[k]);
  }

  lemma {:induction false} KidFrom(kids: Kids, q: seq<nat>, x: nat) returns (i: nat)
    requires x in KidsOf(kids, q)
    ensures i < |q| && x in kids(q[i])
  {
    var n := |q| - 1;
    if x in kids(q[n]) { i := n; } else { i := KidFrom(kids, q[..n], x); }
  }

  // ---------- sizes ----------

  lemma {:induction false} ShortFits(x: Xattr)
    requires |x.key| <= 255 && |x.value| <= 0xffff
    ensures Fits(Store(x))
  {
    FetchStore(x);
  }

  lemma {:induction false} EscapedFits(x: Xattr)
    requires |x.key| <= 255 && |x.value| <= 0xffff
    ensures Fits(Store(Xattr(Escape(x.key), x.value)))
  {
    FetchStore(Xattr(Escape(x.key), x.value));
    StoredSuffix(x.key, x.value);
  }

  lemma {:induction false} WrittenFit(s: set<Xattr>, external: bool, whiteout: bool, x: Extra, marked: bool,
                                      version: nat, root: bool, y: Xattr)
    requires UserExtra(x) && y in WrittenItems(s, OwnMarks(external, whiteout, x), marked, version, root)
    requires forall z {:trigger z in s} :: z in s ==> |z.key| <= 255 && |z.value| <= 0xffff
    ensures Fits(Store(y))
  {
    var own := OwnMarks(external, whiteout, x);
    var e := EscapedItems(s);
    var a := PutAll(e, own);
    MarksSmall(external, whiteout, x, version);
    assert [RootMark()][0] == RootMark();
    if y == RootMark() {
      ShortFits(y);
    } else {
      if marked { PutAllFrom(a, DirMarks(version), y); }
      if y in a { PutAllFrom(e, own, y); }
      if y in e {
        var z :| z in s && y == Xattr(Escape(z.key), z.value);
        EscapedFits(z);
      } else {
        ShortFits(y);
      }
    }
  }

  lemma {:induction false} UserAttrs(x: TNode)
    requires UserNode(x)
    ensures forall z {:trigger z in Items(x.xattrs)} :: z in Items(x.xattrs) ==> |z.key| <= 255 && |z.value| <= 0xffff
  {
    forall z | z in Items(x.xattrs)
      ensures |z.key| <= 255 && |z.value| <= 0xffff
    {
      var k :| 0 <= k < |x.xattrs| && x.xattrs[k] == z;
      TotalBounds(x.xattrs, k);
    }
  }

  lemma {:induction false} NamesFit(u: NTree, ex: seq<Extra>, version: nat, root: nat, t: NTree,
                                    home: seq<(nat, bytes)>, done: set<nat>, x: nat, j: nat)
    requires Remade(u, ex, version, root, t, home, done) && x < |t| && j < |t[x].children|
    ensures NameOk(t[x].children[j].name)
  {
    var e := t[x].children[j];
    assert IsChild(t, x, e);
    EntryKinds(u, ex, version, root, t, home, done, x, e);
    if e in u[x].children {
      assert UserNode(u[x]);
      var k :| 0 <= k < |u[x].children| && u[x].children[k] == e;
    } else if IsHexEntry(u, t, e) {
      var i: nat :| i < 256 && e.name == HexName(i);
      HexNotDot(i);
      HexNoNul(i);
    }
  }

  lemma {:induction false} HexNoNul(i: nat)
    requires i < 256
    ensures 0 !in HexName(i)
  {
    assert HexName(i)[0] != 0 && HexName(i)[1] != 0;
  }

  lemma {:induction false} FewChildren(t: NTree, x: nat)
    requires Closed(Shape(t)) && OneEntry(t) && x < |t| && Sorted(t[x].children)
    ensures |t[x].children| <= |t|
  {
    var cs := Targets(t[x].children);
    TargetsNoDup(t, x);
    forall c | c in cs
      ensures c < |t|
    {
      assert c in Shape(t)[x].children;
    }
    NoDupBound(cs, |t|);
  }

  lemma {:induction false} DataFits(x: TNode, e: Extra, y: TNode, marked: bool, version: nat, root: bool)
    requires UserNode(x) && UserExtra(e) && DataDone(x, e, y, marked, version, root)
    ensures y.mode < 0x1_0000 && forall k {:trigger y.xattrs[k]} :: 0 <= k < |y.xattrs| ==> Fits(Store(y.xattrs[k]))
  {
    UserAttrs(x);
    forall k | 0 <= k < |y.xattrs|
      ensures Fits(Store(y.xattrs[k]))
    {
      assert y.xattrs[k] in Items(y.xattrs);
      WrittenFit(Items(x.xattrs), External(x), WhiteoutNode(x), e, marked, version, root, y.xattrs[k]);
    }
    assert 0 <= x.mode % 4096 < 4096;
  }

  lemma {:induction false} AllFieldsFit(u: NTree, ex: seq<Extra>, version: nat, root: nat, t: NTree,
                                        home: seq<(nat, bytes)>, done: set<nat>, x: nat)
    requires Remade(u, ex, version, root, t, home, done) && x < |t| < 0x8000_0000
    ensures W.FieldsFit(t[x])
  {
    StaysClosed(u, ex, version, root, t, home, done);
    StillOneEntry(u, ex, version, root, t, home, done);
    StillSorted(u, ex, version, root, t, home, done, x);
    FewChildren(t, x);
    forall j | 0 <= j < |t[x].children|
      ensures NameOk(t[x].children[j].name)
    {
      NamesFit(u, ex, version, root, t, home, done, x, j);
    }
    AttrsFit(u, ex, version, root, t, home, done, x);
  }

  /** Everything but the children. */
  lemma {:induction false} AttrsFit(u: NTree, ex: seq<Extra>, version: nat, root: nat, t: NTree,
                                    home: seq<(nat, bytes)>, done: set<nat>, x: nat)
    requires Remade(u, ex, version, root, t, home, done) && x < |t|
    ensures var y := t[x];
            && y.mode < 0x1_0000 && y.nlink < 0x1_0000_0000 && y.uid < 0x1_0000_0000 && y.gid < 0x1_0000_0000
            && y.rdev < 0x1_0000_0000 && -0x8000_0000_0000_0000 <= y.sec < 0x8000_0000_0000_0000
            && y.nsec < 0x1_0000_0000 && DistinctKeys(y.xattrs)
            && forall k {:trigger y.xattrs[k]} :: 0 <= k < |y.xattrs| ==> Fits(Store(y.xattrs[k]))
  {
    if x in done {
      SameKind(u, ex, version, root, t, home, done, x);
      assert UserNode(u[x]) && UserExtra(ex[x]);
      DataFits(u[x], ex[x], t[x], HasWhiteout(u, done, x), version, x == root);
    } else if x < |u| {
      assert FinalStep(u, ex, version, root, t, done, x) && UserNode(u[x]);
      ShortAttrsFit(u[x]);
    } else {
      assert NewNode(u, t[x]);
      forall k | 0 <= k < |t[x].xattrs|
        ensures Fits(Store(t[x].xattrs[k]))
      {
        ShortFits(t[x].xattrs[k]);
      }
    }
  }

  lemma {:induction false} ShortAttrsFit(x: TNode)
    requires UserNode(x)
    ensures forall k {:trigger x.xattrs[k]} :: 0 <= k < |x.xattrs| ==> Fits(Store(x.xattrs[k]))
  {
    UserAttrs(x);
    forall k | 0 <= k < |x.xattrs|
      ensures Fits(Store(x.xattrs[k]))
    {
      assert x.xattrs[k] in Items(x.xattrs);
      ShortFits(x.xattrs[k]);
    }
  }

  lemma {:induction false} BodyStillFits(x: TNode, y: TNode)
    requires UserNode(x) && x.link.None? && Validated(x) && y.mode == NewMode(x) && y.body == NewBody(x)
    ensures W.BodyFits(y)
  {
    NewModeType(x);
  }

  lemma {:induction false} DoneNoLink(u: NTree, ex: seq<Extra>, version: nat, root: nat, t: NTree,
                                      home: seq<(nat, bytes)>, done: set<nat>, x: nat)
    requires Rewritten(u, ex, version, root, t, home, done) && x in done
    ensures x < |u| && u[x].link.None?
  {
    if x != root {
      assert HasUp(u, root, done, x);
      var p :| p in done && IsKid(u, p, x);
      KidHas(u, p, x);
    }
  }

  /** The rewritten tree fits the image format. */
  lemma {:induction false} RewrittenFits(u: NTree, ex: seq<Extra>, version: nat, root: nat, t: NTree,
                                         home: seq<(nat, bytes)>, done: set<nat>)
    requires Remade(u, ex, version, root, t, home, done) && |t| < 0x8000_0000
    ensures W.TreeFits(t, root)
  {
    StaysClosed(u, ex, version, root, t, home, done);
    forall x: nat | x < |t|
      ensures W.FieldsFit(t[x])
    {
      AllFieldsFit(u, ex, version, root, t, home, done, x);
    }
    forall q | Complete(KidsIn(Shape(t)), root, q) && AllPlain(Shape(t), q)
      ensures W.ListFits(t, q)
    {
      forall k | 0 <= k < |q|
        ensures q[k] < |t| && W.FieldsFit(t[q[k]]) && W.BodyFits(t[q[k]])
      {
        AllOnList(u, ex, version, root, t, home, done, q, k);
        ListedBodyFits(u, ex, version, root, t, home, done, q[k]);
      }
    }
  }

  lemma {:induction false} ListedBodyFits(u: NTree, ex: seq<Extra>, version: nat, root: nat, t: NTree,
                                          home: seq<(nat, bytes)>, done: set<nat>, x: nat)
    requires Remade(u, ex, version, root, t, home, done) && OnList(u, t, done, x)
    ensures x < |t| && W.BodyFits(t[x])
  {
    if x in done {
      SameKind(u, ex, version, root, t, home, done, x);
      DoneNoLink(u, ex, version, root, t, home, done, x);
      assert UserNode(u[x]);
      BodyStillFits(u[x], t[x]);
    }
  }
}
