/** The tree as it is handed on to the passes that lay out the image. */
module RewrittenTree {
  import opened Common
  import opened Bytes
  import opened Children
  import opened Xattrs
  import opened NodeAttrs
  import opened Escaping
  import opened Overlay
  import opened NamedTree
  import opened TreeLoader
  import opened MarkRoom
  import opened MarkText
  import opened Rewriting
  import opened Whiteouts
  import E = ErofsNode

  /** A whiteout that the writer adds to the root. */
  ghost predicate HexNode(x: TNode) {
    && x.mode == 0x21a4 && x.nlink == 1 && x.rdev == 0 && x.body == E.Plain(0) && x.children == [] && x.link.None?
    && x.uid < 0x1_0000_0000 && x.gid < 0x1_0000_0000 && x.nsec < 0x1_0000_0000
    && -0x8000_0000_0000_0000 <= x.sec < 0x8000_0000_0000_0000 && |x.xattrs| <= 1
    && forall k {:trigger x.xattrs[k]} :: 0 <= k < |x.xattrs| ==>
         |x.xattrs[k].key| <= 255 && |x.xattrs[k].value| <= 0xffff
  }

  ghost predicate IsHexEntry(u: NTree, t: NTree, e: Entry) {
    |u| <= e.node < |t| && HexNode(t[e.node]) && IsHexName(e.name)
  }

  ghost predicate IsHexName(name: bytes) { exists i: nat :: i < 256 && name == HexName(i) }

  ghost predicate NewNode(u: NTree, x: TNode) { IsDotLink(u, x) || HexNode(x) }

  ghost predicate FinalList(u: NTree, x: TNode, y: TNode, t: NTree, root: bool) {
    && Sorted(y.children) && (!IsDir(x) ==> y.children == x.children)
    && (forall e {:trigger e in x.children} :: e in x.children ==> e in y.children)
    && (forall e {:trigger e in y.children} :: e in y.children ==>
          e in x.children || IsDotEntry(u, t, e) || (root && IsHexEntry(u, t, e)))
  }

  ghost predicate FinalStep(u: NTree, ex: seq<Extra>, version: nat, root: nat, t: NTree, done: set<nat>, y: nat)
    requires |ex| == |u| <= |t| && y < |u|
  {
    if y in done then
      && DataDone(u[y], ex[y], t[y], HasWhiteout(u, done, y), version, y == root)
      && FinalList(u, u[y], t[y], t, y == root) && Finished(u, t[y], done, y)
    else t[y] == u[y]
  }

  /** The rewritten tree: all nodes below the root are done, and nothing else has changed. */
  ghost predicate Rewritten(u: NTree, ex: seq<Extra>, version: nat, root: nat, t: NTree, home: seq<(nat, bytes)>,
                            done: set<nat>) {
    && |ex| == |u| && |t| == |u| + |home| && (forall y {:trigger y in done} :: y in done ==> y < |u|) && root in done
    && IsRoot(u, root) && Rooted(u, root, done)
    && (forall y: nat {:trigger FinalStep(u, ex, version, root, t, done, y)} :: y < |u| ==>
          FinalStep(u, ex, version, root, t, done, y))
    && (forall y: nat {:trigger Homed(|u|, t, home, y)} :: y < |u| ==> Homed(|u|, t, home, y))
    && (forall y: nat {:trigger NewNode(u, t[y])} :: |u| <= y < |t| ==> NewNode(u, t[y]))
    && DotsLead(u, t, home)
  }

  // ---------- steps ----------

  lemma {:induction false} RootMarked(u: NTree, ex: seq<Extra>, version: nat, root: nat, t: NTree,
                                      home: seq<(nat, bytes)>, done: set<nat>, xs: seq<Xattr>)
    requires Progress(u, ex, version, t, home, done, done) && root in done && IsRoot(u, root) && Rooted(u, root, done)
    requires New(u, t, {}, done, root) && DistinctKeys(xs) && Items(xs) == Put(Items(t[root].xattrs), RootMark())
    ensures Rewritten(u, ex, version, root, t[root := t[root].(xattrs := xs)], home, done)
  {
    var t' := t[root := t[root].(xattrs := xs)];
    forall y: nat | y < |u|
      ensures FinalStep(u, ex, version, root, t', done, y) && Homed(|u|, t', home, y)
    {
      assert NodeStep(u, ex, version, t, done, done, y) && Homed(|u|, t, home, y);
      if y in done { StillDone(u, u[y], t[y], t, t'); }
    }
    forall y: nat | |u| <= y < |t'|
      ensures NewNode(u, t'[y])
    {
      assert IsDotLink(u, t[y]);
    }
    DotsStay(u, t, home, t');
  }

  lemma {:induction false} FinalKept(u: NTree, x: TNode, y: TNode, t: NTree, t': NTree, root: bool)
    requires FinalList(u, x, y, t, root) && |t| <= |t'| && forall k {:trigger t'[k]} :: |u| <= k < |t| ==> t'[k] == t[k]
    ensures FinalList(u, x, y, t', root)
  {
    forall e | e in y.children
      ensures e in x.children || IsDotEntry(u, t', e) || (root && IsHexEntry(u, t', e))
    {
      if e !in x.children { assert IsDotEntry(u, t, e) || (root && IsHexEntry(u, t, e)); }
    }
  }

  lemma {:induction false} HexListed(u: NTree, x: TNode, y: TNode, t: NTree, list: seq<Entry>, e0: Entry, y': TNode)
    requires FinalList(u, x, y, t, true) && IsDir(x) && IsHexEntry(u, t, e0) && AddedTo(y.children, e0, list)
    requires y'.children == list
    ensures FinalList(u, x, y', t, true)
  {
    forall e: Entry
      ensures e in list <==> e in y.children || e == e0
    {
      AddedMembers(y.children, e0, list, e);
    }
  }

  /** A whiteout is added to the root. */
  lemma {:induction false} HexStep(u: NTree, ex: seq<Extra>, version: nat, root: nat, t: NTree, home: seq<(nat, bytes)>,
                                   done: set<nat>, x: TNode, name: bytes, list: seq<Entry>)
    requires Rewritten(u, ex, version, root, t, home, done) && HexNode(x) && IsHexName(name)
    requires AddedTo(t[root].children, Entry(name, |t|), list)
    ensures Rewritten(u, ex, version, root, t[root := t[root].(children := list)] + [x], home + [(root, name)], done)
  {
    var t', home' := t[root := t[root].(children := list)] + [x], home + [(root, name)];
    var y' := t[root].(children := list);
    forall y: nat | y < |u|
      ensures FinalStep(u, ex, version, root, t', done, y) && Homed(|u|, t', home', y)
    {
      assert FinalStep(u, ex, version, root, t, done, y) && Homed(|u|, t, home, y);
      if y in done { FinalKept(u, u[y], t[y], t, t', y == root); }
      if y == root {
        assert IsHexEntry(u, t', Entry(name, |t|));
        HexListed(u, u[root], t[root], t', list, Entry(name, |t|), y');
        DotsKept(t[root].children, Entry(name, |t|), list);
      }
      DotHomed(|u|, t, home, t', home', y, root, name, list);
    }
    forall y: nat | |u| <= y < |t'|
      ensures NewNode(u, t'[y])
    {
      assert y < |t| ==> NewNode(u, t[y]);
    }
    DotsMore(u, t, home, t', (root, name));
  }

  lemma {:induction false} DotsKept(list: seq<Entry>, e: Entry, list': seq<Entry>)
    requires HasDots(list) && AddedTo(list, e, list')
    ensures HasDots(list')
  {
    AddedNames(list, e, list');
  }

  // ---------- the pass ----------

  lemma {:induction false} HexNotDot(i: nat)
    requires i < 256
    ensures !IsDot(HexName(i)) && 1 <= |HexName(i)| <= 255
  {
    assert HexName(i)[0] != 46;
  }

  lemma {:induction false} HexMore(list: seq<Entry>, e: Entry, list': seq<Entry>, i: nat)
    requires HasHex(list, i) && i < 256 && AddedTo(list, e, list') && e.name == HexName(i)
    ensures HasHex(list', i + 1)
  {
    forall j: nat | j < i + 1
      ensures Has(list', HexName(j))
    {
      AddKeeps(list, e, list', HexName(j));
    }
  }

  /** The label of the root is too long for a node of its own. */
  ghost predicate LongLabel(x: TNode) {
    exists y :: y in x.xattrs && y.key == Ascii("security.selinux") && Total([y]) > Limit(true)
  }

  /** Why the whole tree is refused. */
  ghost predicate TreeJustified(u: NTree, root: nat, e: RewriteError, ample: bool) {
    Justified(u, e, ample) || (root < |u| && e == AttrRefused(TooLarge) && LongLabel(u[root]))
  }

  ghost function LabelIn(xs: seq<Xattr>): Option<Xattr> {
    var i := Position(xs, Ascii("security.selinux"));
    if i < |xs| then Some(xs[i]) else None
  }

  /** The label of the root, which its whiteouts get too. */
  method LabelOf(xs: seq<Xattr>) returns (selinux: Option<Xattr>)
    ensures selinux == LabelIn(xs)
  {
    var i := FindIn(xs, Ascii("security.selinux"));
    selinux := if i.Some? then Some(xs[i.value]) else None;
  }

  /** A new whiteout has the owner, the time and the label of the root. */
  ghost predicate Inherits(x: TNode, root: TNode, selinux: Option<Xattr>) {
    && x.uid == root.uid && x.gid == root.gid && x.sec == root.sec && x.nsec == root.nsec
    && x.xattrs == if selinux.Some? then [selinux.value] else []
  }

  lemma {:induction false} SetFirst(x: Xattr)
    ensures SetOn([], 0, x, Limit(true)).Ok? ==>
              SetOn([], 0, x, Limit(true)) == Ok([x]) && |x.key| <= 255 && |x.value| <= 0xffff
    ensures 1 <= |x.key| <= 255 && Total([x]) <= Limit(true) ==> SetOn([], 0, x, Limit(true)).Ok?
  {
    assert Dropped([], x.key) == [] && [] + [x] == [x];
    ChargesAppend([], x);
  }

  /** A label that is one, and why it cannot be set. */
  ghost predicate IsLabel(x: Xattr) { x.key == Ascii("security.selinux") && |x.value| <= 0xffff }

  ghost predicate LabelRefused(selinux: Option<Xattr>, e: RewriteError, ample: bool) {
    || (e == AttrRefused(SetError.NoMemory) && !ample)
    || (e == AttrRefused(TooLarge) && selinux.Some? && Total([selinux.value]) > Limit(true))
  }

  method Inherit(selinux: Option<Xattr>, ample: bool) returns (error: Option<RewriteError>, xs: seq<Xattr>)
    requires selinux.Some? ==> IsLabel(selinux.value)
    ensures error.Some? ==> LabelRefused(selinux, error.value, ample)
    ensures error.None? ==> xs == if selinux.Some? then [selinux.value] else []
    ensures error.None? && selinux.Some? ==> |selinux.value.key| <= 255 && |selinux.value.value| <= 0xffff
  {
    error, xs := None, [];
    if selinux.None? { return; }
    var e, size;
    ghost var base;
    e, xs, size, base := SetIn([], 0, 0, selinux.value, Limit(true), ample);
    SetFirst(selinux.value);
    if e.Some? { error := Some(AttrRefused(e.value)); }
  }

  /** One whiteout for the root. */
  method MakeHex(root: TNode, selinux: Option<Xattr>, ample: bool) returns (error: Option<RewriteError>, x: TNode)
    requires root.uid < 0x1_0000_0000 && root.gid < 0x1_0000_0000 && root.nsec < 0x1_0000_0000
    requires -0x8000_0000_0000_0000 <= root.sec < 0x8000_0000_0000_0000 && (selinux.Some? ==> IsLabel(selinux.value))
    ensures error.Some? ==> LabelRefused(selinux, error.value, ample)
    ensures error.None? ==> HexNode(x) && Inherits(x, root, selinux)
  {
    var xs;
    error, xs := Inherit(selinux, ample);
    x := TNode(0x21a4, 1, root.uid, root.gid, 0, root.sec, root.nsec, E.Plain(0), xs, [], None);
  }

  /** The nodes are as they were but for the children of the root; the new ones take after it. */
  ghost predicate OnlyHexes(t: NTree, t': NTree, root: nat, selinux: Option<Xattr>) {
    && root < |t| <= |t'| && t'[root] == t[root].(children := t'[root].children)
    && (forall k {:trigger t'[k]} :: 0 <= k < |t| && k != root ==> t'[k] == t[k])
    && forall k {:trigger t'[k]} :: |t| <= k < |t'| ==> Inherits(t'[k], t[root], selinux)
  }

  /** The 256 whiteouts of the root, where there is no such child yet. */
  method AddHexNodes(u: NTree, ex: seq<Extra>, version: nat, root: nat, t: NTree, ghost home: seq<(nat, bytes)>,
                     ghost done: set<nat>, ample: bool)
    returns (error: Option<RewriteError>, t': NTree, ghost home': seq<(nat, bytes)>)
    requires Rewritten(u, ex, version, root, t, home, done) && UserTree(u)
    ensures error.Some? ==> TreeJustified(u, root, error.value, ample)
    ensures error.None? ==> Rewritten(u, ex, version, root, t', home', done) && HasHex(t'[root].children, 256)
    ensures error.None? ==> |home'| <= |home| + 256 && OnlyHexes(t, t', root, LabelIn(t[root].xattrs))
  {
    error, t', home' := None, t, home;
    var selinux := LabelOf(t[root].xattrs);
    if selinux.Some? { LabelIsUsers(u, ex, version, root, t, home, done, selinux.value); }
    for i := 0 to 256
      invariant Rewritten(u, ex, version, root, t', home', done) && HasHex(t'[root].children, i)
      invariant error.None? && |home'| <= |home| + i && OnlyHexes(t, t', root, selinux)
    {
      error, t', home' := AddHex(u, ex, version, root, t', selinux, i, home', done, ample);
      if error.Some? { return; }
    }
  }

  method AddHex(u: NTree, ex: seq<Extra>, version: nat, root: nat, t: NTree, selinux: Option<Xattr>, i: nat,
                ghost home: seq<(nat, bytes)>, ghost done: set<nat>, ample: bool)
    returns (error: Option<RewriteError>, t': NTree, ghost home': seq<(nat, bytes)>)
    requires Rewritten(u, ex, version, root, t, home, done) && UserTree(u) && i < 256 && HasHex(t[root].children, i)
    requires selinux.Some? ==> IsLabel(selinux.value) && selinux.value in u[root].xattrs
    ensures error.Some? ==> TreeJustified(u, root, error.value, ample)
    ensures error.None? ==> Rewritten(u, ex, version, root, t', home', done) && HasHex(t'[root].children, i + 1)
    ensures error.None? ==> |home'| <= |home| + 1 && OnlyHexes(t, t', root, selinux)
  {
    error, t', home' := None, t, home;
    RootGood(u, ex, version, root, t, home, done);
    var name := HexName(i);
    var found, pos := BSearch(t[root].children, name);
    if found { return; }
    SplitLacks(t[root].children, name, pos);
    HexNotDot(i);
    var x;
    error, x := MakeHex(t[root], selinux, ample);
    if error.Some? { return; }
    var e, list := AddTo(true, t[root].children, false, Entry(name, |t|), ample);
    if e.Some? {
      error := Some(ChildRefused(e.value));
      return;
    }
    HexStep(u, ex, version, root, t, home, done, x, name, list);
    HexMore(t[root].children, Entry(name, |t|), list, i);
    t', home' := t[root := t[root].(children := list)] + [x], home + [(root, name)];
  }

  lemma {:induction false} LabelKept(s: set<Xattr>, own: seq<Xattr>, marked: bool, version: nat, x: Xattr)
    requires x in WrittenItems(s, own, marked, version, true) && x.key == Ascii("security.selinux") && x !in own
    ensures x in s
  {
    var e := EscapedItems(s);
    assert x.key[0] == 's' as int && RootMark().key[0] == 't' as int;
    if marked {
      PutAllFrom(PutAll(e, own), DirMarks(version), x);
      assert forall i | 0 <= i < |DirMarks(version)| :: DirMarks(version)[i].key[0] != 's' as int;
    }
    PutAllFrom(e, own, x);
    var z :| z in s && x == Xattr(Escape(z.key), z.value);
    EscapeShape(z.key);
    assert OverlayPrefix()[0] == 't' as int;
  }

  lemma {:induction false} LabelIsUsers(u: NTree, ex: seq<Extra>, version: nat, root: nat, t: NTree,
                                        home: seq<(nat, bytes)>, done: set<nat>, x: Xattr)
    requires Rewritten(u, ex, version, root, t, home, done) && UserTree(u)
    requires x in t[root].xattrs && x.key == Ascii("security.selinux")
    ensures IsLabel(x) && x in u[root].xattrs
  {
    assert FinalStep(u, ex, version, root, t, done, root) && UserNode(u[root]);
    assert x in Items(t[root].xattrs) && Marks(u[root], ex[root]) == [];
    LabelKept(Items(u[root].xattrs), [], HasWhiteout(u, done, root), version, x);
    var k :| 0 <= k < |u[root].xattrs| && u[root].xattrs[k] == x;
    TotalBounds(u[root].xattrs, k);
  }

  lemma {:induction false} RootGood(u: NTree, ex: seq<Extra>, version: nat, root: nat, t: NTree,
                                    home: seq<(nat, bytes)>, done: set<nat>)
    requires Rewritten(u, ex, version, root, t, home, done) && UserTree(u)
    ensures root < |t| && Sorted(t[root].children) && t[root].uid < 0x1_0000_0000 && t[root].gid < 0x1_0000_0000
    ensures t[root].nsec < 0x1_0000_0000 && -0x8000_0000_0000_0000 <= t[root].sec < 0x8000_0000_0000_0000
  {
    assert FinalStep(u, ex, version, root, t, done, root) && UserNode(u[root]);
  }

  lemma {:induction false} NotMore(s: set<nat>, n: nat)
    requires forall x {:trigger x in s} :: x in s ==> x < n
    ensures |s| <= n
  {
    if n == 0 {
      assert s == {};
    } else {
      NotMore(s - {n - 1}, n - 1);
    }
  }

  /** The root, which the user gave `own`, is marked opaque. */
  method MarkRoot(ghost own: seq<Xattr>, xs: seq<Xattr>, size: nat, ghost base: nat, ample: bool)
    returns (error: Option<SetError>, xs': seq<Xattr>)
    requires Tallied(xs, size, base) && (!Clashes(own) ==> Roomy(xs, base, [RootMark()]))
    ensures error.Some? ==> if error.value == SetError.NoMemory then !ample else Clashes(own)
    ensures error.None? ==> DistinctKeys(xs') && Items(xs') == Put(Items(xs), RootMark())
    ensures error.None? ==>
              forall a {:trigger a in xs'} :: a in xs' <==>
                || a == Xattr(Ascii("trusted.overlay.opaque"), Ascii("y"))
                || (a in xs && a.key != Ascii("trusted.overlay.opaque"))
  {
    if !Clashes(own) {
      assert [RootMark()] + [] == [RootMark()];
      RoomForOne(xs, base, RootMark(), []);
    }
    var size';
    ghost var base';
    error, xs', size', base' := SetIn(xs, size, base, RootMark(), Limit(true), ample);
    if error.None? {
      SetItems(xs, base, RootMark(), Limit(true));
      PutMeans(xs, RootMark(), xs');
      RootMarkIs();
    }
  }

  lemma {:induction false} PutMeans(xs: seq<Xattr>, x: Xattr, xs': seq<Xattr>)
    requires Items(xs') == Put(Items(xs), x)
    ensures forall a {:trigger a in xs'} :: a in xs' <==> a == x || (a in xs && a.key != x.key)
  {
    forall a
      ensures a in xs' <==> a == x || (a in xs && a.key != x.key)
    {
      assert a in xs' <==> a in Items(xs');
    }
  }

  // ---------- what that comes to ----------

  /** The attributes of every node, with the marks written out. */
  ghost predicate AllMarked(u: NTree, ex: seq<Extra>, version: nat, root: nat, t: NTree, done: set<nat>) {
    forall y: nat {:trigger y in done} :: y in done ==>
      && y < |u| && y < |ex| && y < |t|
      && AttrsWritten(u[y].xattrs, t[y].xattrs, External(u[y]), WhiteoutNode(u[y]), ex[y], HasWhiteout(u, done, y),
                      version, y == root)
  }

  /** Directory `x` has an entry of this name: the user's own, or a link to `x` itself or the directory it is in. */
  ghost predicate HasDot(u: NTree, t: NTree, x: nat, name: bytes) {
    exists e :: IsChild(t, x, e) && e.name == name && x < |u| &&
                (e in u[x].children ||
                 (e.node < |t| && t[e.node].link.Some? &&
                  if name == Ascii(".") then t[e.node].link.value == x else IsAbove(u, t[e.node].link.value, x)))
  }

  ghost predicate AllDots(u: NTree, t: NTree, done: set<nat>) {
    forall x: nat {:trigger HasDot(u, t, x, Ascii("."))} :: x in done && x < |u| && IsDir(u[x]) ==>
      HasDot(u, t, x, Ascii(".")) && HasDot(u, t, x, Ascii(".."))
  }

  /** All names of two hexadecimal digits are there. */
  ghost predicate AllHexes(list: seq<Entry>) {
    forall a, b {:trigger [a, b]} :: a in Ascii("0123456789abcdef") && b in Ascii("0123456789abcdef") ==>
      Has(list, [a, b])
  }

  /** A new entry for a directory itself or its parent leads there. */
  lemma {:induction false} NewDot(u: NTree, ex: seq<Extra>, version: nat, root: nat, t: NTree,
                                  home: seq<(nat, bytes)>, done: set<nat>, x: nat, e: Entry)
    requires Rewritten(u, ex, version, root, t, home, done) && x in done && x < |u| && e in t[x].children
    requires e !in u[x].children && (e.name == [46] || e.name == [46, 46])
    ensures |u| <= e.node < |t| && home[e.node - |u|] == (x, e.name) && t[e.node].link.Some?
    ensures DotLeads(u, t, home, e.node)
  {
    assert FinalStep(u, ex, version, root, t, done, x) && Homed(|u|, t, home, x);
    NotHex(e.name);
    assert IsDotEntry(u, t, e);
  }

  lemma {:induction false} DotFound(u: NTree, ex: seq<Extra>, version: nat, root: nat, t: NTree,
                                    home: seq<(nat, bytes)>, done: set<nat>, x: nat, name: bytes)
    requires Rewritten(u, ex, version, root, t, home, done) && x in done && x < |u| && Has(t[x].children, name)
    requires name == [46] || name == [46, 46]
    ensures HasDot(u, t, x, name)
  {
    var k :| 0 <= k < |t[x].children| && t[x].children[k].name == name;
    var e := t[x].children[k];
    assert IsChild(t, x, e);
    DotIs();
    if e !in u[x].children { NewDot(u, ex, version, root, t, home, done, x, e); }
  }

  lemma {:induction false} DotIs()
    ensures Ascii(".") == [46] && Ascii("..") == [46, 46]
  {
  }

  lemma {:induction false} NotHex(name: bytes)
    requires name == [46] || name == [46, 46]
    ensures !IsHexName(name)
  {
    if i: nat :| i < 256 && name == HexName(i) { HexNotDot(i); }
  }

  lemma {:induction false} DotsFound(u: NTree, ex: seq<Extra>, version: nat, root: nat, t: NTree,
                                     home: seq<(nat, bytes)>, done: set<nat>)
    requires Rewritten(u, ex, version, root, t, home, done)
    ensures AllDots(u, t, done)
  {
    DotIs();
    forall x: nat | x in done && x < |u| && IsDir(u[x])
      ensures HasDot(u, t, x, Ascii(".")) && HasDot(u, t, x, Ascii(".."))
    {
      assert FinalStep(u, ex, version, root, t, done, x);
      DotFound(u, ex, version, root, t, home, done, x, [46]);
      DotFound(u, ex, version, root, t, home, done, x, [46, 46]);
    }
  }

  lemma {:induction false} MarksFound(u: NTree, ex: seq<Extra>, version: nat, root: nat, t: NTree,
                                      home: seq<(nat, bytes)>, done: set<nat>)
    requires Rewritten(u, ex, version, root, t, home, done)
    ensures AllMarked(u, ex, version, root, t, done) && root < |t|
    ensures Xattr(Ascii("trusted.overlay.opaque"), Ascii("y")) in t[root].xattrs
  {
    forall y: nat | y in done
      ensures y < |u| && y < |ex| && y < |t|
      ensures AttrsWritten(u[y].xattrs, t[y].xattrs, External(u[y]), WhiteoutNode(u[y]), ex[y],
                           HasWhiteout(u, done, y), version, y == root)
    {
      assert FinalStep(u, ex, version, root, t, done, y);
      WrittenOut(u[y].xattrs, t[y].xattrs, External(u[y]), WhiteoutNode(u[y]), ex[y], HasWhiteout(u, done, y), version,
                 y == root);
    }
    var a := Xattr(Ascii("trusted.overlay.opaque"), Ascii("y"));
    assert IsMark(a, External(u[root]), WhiteoutNode(u[root]), ex[root], HasWhiteout(u, done, root), version, true);
  }

  lemma {:induction false} HexText(a: byte) returns (d: nat)
    requires a in Ascii("0123456789abcdef")
    ensures d < 16 && HexDigit(d) == a
  {
    var text := "0123456789abcdef";
    d :| 0 <= d < |text| && Ascii(text)[d] == a;
    assert d < 10 ==> text[d] as int == 48 + d;
    assert d >= 10 ==> text[d] as int == 87 + d;
  }

  lemma {:induction false} HexesFound(list: seq<Entry>)
    requires HasHex(list, 256)
    ensures AllHexes(list)
  {
    forall a, b | a in Ascii("0123456789abcdef") && b in Ascii("0123456789abcdef")
      ensures Has(list, [a, b])
    {
      var d := HexText(a);
      var e := HexText(b);
      assert (16 * d + e) / 16 == d && (16 * d + e) % 16 == e;
      assert HexName(16 * d + e) == [a, b];
    }
  }

  /** The whole rewriting of a copied tree. */
  method RewriteTree(u: NTree, ex: seq<Extra>, version: nat, root: nat, ample: bool)
    returns (error: Option<RewriteError>, t: NTree, ghost home: seq<(nat, bytes)>, ghost done: set<nat>)
    requires UserTree(u) && |ex| == |u| && IsRoot(u, root) && ExtrasOk(ex)
    ensures error.Some? ==> TreeJustified(u, root, error.value, ample)
    ensures error.None? ==> Rewritten(u, ex, version, root, t, home, done) && HasHex(t[root].children, 256)
    ensures error.None? ==> |t| <= 3 * |u| + 256 && root < |t|
    ensures error.None? ==> Xattr(Ascii("trusted.overlay.opaque"), Ascii("y")) in t[root].xattrs
    ensures error.None? ==> AllMarked(u, ex, version, root, t, done) && AllDots(u, t, done)
    ensures error.None? ==> AllHexes(t[root].children)
  {
    var r := new Rewriter(u, ex, version, ample);
    t, home, done := u, [], {};
    assert Under(u, root, {}, root, root) && Rooted(u, root, {});
    error := r.RewriteNode(root, root, root);
    if error.Some? { return; }
    done := r.done;
    NotMore(done, |u|);
    assert TallyAt(u, r.t, r.sizes, r.bases, done, root);
    MarkRoomAt(u, ex, version, r.t, r.home, done, done, root);
    var e, xs := MarkRoot(u[root].xattrs, r.t[root].xattrs, r.sizes[root], r.bases[root], ample);
    if e.Some? {
      error := Some(AttrRefused(e.value));
      return;
    }
    RootMarked(u, ex, version, root, r.t, r.home, done, xs);
    error, t, home := AddHexNodes(u, ex, version, root, r.t[root := r.t[root].(xattrs := xs)], r.home, done, ample);
    if error.None? {
      MarksFound(u, ex, version, root, t, home, done);
      DotsFound(u, ex, version, root, t, home, done);
      HexesFound(t[root].children);
    }
  }
}
