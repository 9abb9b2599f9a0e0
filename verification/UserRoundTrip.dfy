/** From the tree of a user to an image and back to a tree. */
module UserRoundTrip {
  import opened Common
  import opened Bytes
  import opened Order
  import opened Children
  import opened Xattrs
  import opened Escaping
  import opened Overlay
  import opened AttrReturn
  import opened MarkText
  import opened HardLinks
  import opened TreeOrder
  import opened NamedTree
  import opened Rewriting
  import opened RewrittenTree
  import opened UserImage
  import opened LoadedTree
  import opened ErofsImage
  import L = TreeLoader
  import E = ErofsNode
  import N = NodeReader
  import BodyReader
  import XattrExact
  import R = TreeRoundTrip
  import F = TreeFormat

  // ---------- names ----------

  /** A child of a directory, through its links; entries for itself and its parent do not count. */
  ghost predicate UserChild(u: NTree, x: nat, name: bytes, z: nat) {
    && Closed(Shape(u)) && x < |u| && IsDir(u[x]) && !L.IsDot(name)
    && exists e: Entry :: IsChild(u, x, e) && e.name == name && e.node < |u| && EndsAt(Shape(u), e.node, z)
  }

  /** Following names through the tree of the user. */
  ghost predicate UserPath(u: NTree, x: nat, path: Path, y: nat)
    decreases |path|
  {
    if path == [] then x == y else
    exists z: nat :: UserChild(u, x, path[0], z) && UserPath(u, z, path[1..], y)
  }

  /** What the user's tree, the rewritten tree and its plan have to do with one another. */
  ghost predicate Arranged(u: NTree, ex: seq<Extra>, version: nat, root: nat, t: NTree, home: seq<(nat, bytes)>,
                          done: set<nat>, q: seq<nat>, p: Plan) {
    && Remade(u, ex, version, root, t, home, done) && R.PlanOf(t, q, p) && q != [] && q[0] == root && Closed(Shape(t))
    && forall k {:trigger q[k]} :: 0 <= k < |q| ==> OnList(u, t, done, q[k])
  }

  lemma {:induction false} ListedChild(t: NTree, q: seq<nat>, p: Plan, i: nat, e: Entry, z: nat)
    requires R.PlanOf(t, q, p) && i < |q| && q[i] < |t| && IsDir(t[q[i]]) && IsChild(t, q[i], e) && Closed(Shape(t))
    requires e.node < |t| && EndsAt(Shape(t), e.node, z)
    ensures z in q
  {
    R.InodeAt(t, q, p, i);
    var j :| 0 <= j < |t[q[i]].children| && t[q[i]].children[j] == e;
    var c := p.nodes[i].body.children[j];
    assert IsEntry(t, q, e, c);
    EndUnique(Shape(t), e.node, z, q[c.target]);
  }

  /** A child of the rewritten tree that is loaded is one of the user's. */
  lemma {:induction false} ChildToUser(u: NTree, ex: seq<Extra>, version: nat, root: nat, t: NTree,
                                       home: seq<(nat, bytes)>, done: set<nat>, q: seq<nat>, p: Plan, i: nat, j: nat,
                                       name: bytes, z: nat)
    requires Arranged(u, ex, version, root, t, home, done, q, p) && i < |q| && q[i] in done
    requires R.TreeChild(t, q[i], j, name, z)
    ensures UserChild(u, q[i], name, z) && z in q && z in done
  {
    var x := q[i];
    var e := t[x].children[j];
    assert IsChild(t, x, e);
    EntryKinds(u, ex, version, root, t, home, done, x, e);
    ListedChild(t, q, p, i, e, z);
    assert OnList(u, t, done, z);
    if e.node >= |u| { NewNotLoaded(u, ex, version, root, t, home, done, x, e, z); }
    EndSame(u, ex, version, root, t, home, done, e.node, z);
    SameKind(u, ex, version, root, t, home, done, x);
    assert IsChild(u, x, e);
  }

  /** New entries are for directories themselves and their parents, or lead to whiteouts. */
  lemma {:induction false} NewNotLoaded(u: NTree, ex: seq<Extra>, version: nat, root: nat, t: NTree,
                                        home: seq<(nat, bytes)>, done: set<nat>, x: nat, e: Entry, z: nat)
    requires Remade(u, ex, version, root, t, home, done) && IsChild(t, x, e) && |u| <= e.node < |t| && Closed(Shape(t))
    requires !L.IsDot(e.name) && EndsAt(Shape(t), e.node, z)
    ensures WhiteoutNode(t[z])
  {
    EntryKinds(u, ex, version, root, t, home, done, x, e);
    assert IsHexEntry(u, t, e);
    assert Chase(Shape(t), e.node, 0) == e.node;
    assert EndsAt(Shape(t), e.node, e.node);
    EndUnique(Shape(t), e.node, z, e.node);
  }

  lemma {:induction false} PathToUser(u: NTree, ex: seq<Extra>, version: nat, root: nat, t: NTree,
                                      home: seq<(nat, bytes)>, done: set<nat>, q: seq<nat>, p: Plan, i: nat, path: Path,
                                      y: nat)
    requires Arranged(u, ex, version, root, t, home, done, q, p) && i < |q| && q[i] in done
    requires R.NodePath(t, q[i], path, y)
    ensures UserPath(u, q[i], path, y) && y in q && y in done
    decreases |path|
  {
    if path != [] {
      var j: nat, z: nat :| R.TreeChild(t, q[i], j, path[0], z) && R.NodePath(t, z, path[1..], y);
      ChildToUser(u, ex, version, root, t, home, done, q, p, i, j, path[0], z);
      var k :| 0 <= k < |q| && q[k] == z;
      PathToUser(u, ex, version, root, t, home, done, q, p, k, path[1..], y);
    }
  }

  /** And the other way round. */
  lemma {:induction false} ChildFromUser(u: NTree, ex: seq<Extra>, version: nat, root: nat, t: NTree,
                                         home: seq<(nat, bytes)>, done: set<nat>, q: seq<nat>, p: Plan, i: nat,
                                         name: bytes, z: nat) returns (j: nat)
    requires Arranged(u, ex, version, root, t, home, done, q, p) && i < |q| && q[i] in done
    requires UserChild(u, q[i], name, z)
    ensures R.TreeChild(t, q[i], j, name, z) && z in q && z in done
  {
    var x := q[i];
    var e: Entry :| IsChild(u, x, e) && e.name == name && e.node < |u| && EndsAt(Shape(u), e.node, z);
    assert FinalStep(u, ex, version, root, t, done, x);
    SameKind(u, ex, version, root, t, home, done, x);
    assert IsChild(t, x, e);
    EndSame(u, ex, version, root, t, home, done, e.node, z);
    ListedChild(t, q, p, i, e, z);
    assert OnList(u, t, done, z);
    SameKind(u, ex, version, root, t, home, done, z);
    j :| 0 <= j < |t[x].children| && t[x].children[j] == e;
  }

  lemma {:induction false} PathFromUser(u: NTree, ex: seq<Extra>, version: nat, root: nat, t: NTree,
                                        home: seq<(nat, bytes)>, done: set<nat>, q: seq<nat>, p: Plan, i: nat,
                                        path: Path, y: nat)
    requires Arranged(u, ex, version, root, t, home, done, q, p) && i < |q| && q[i] in done
    requires UserPath(u, q[i], path, y)
    ensures R.NodePath(t, q[i], path, y) && y in q && y in done
    decreases |path|
  {
    if path != [] {
      var z: nat :| UserChild(u, q[i], path[0], z) && UserPath(u, z, path[1..], y);
      var j := ChildFromUser(u, ex, version, root, t, home, done, q, p, i, path[0], z);
      var k :| 0 <= k < |q| && q[k] == z;
      PathFromUser(u, ex, version, root, t, home, done, q, p, k, path[1..], y);
    }
  }

  /** The names of the user's tree are those of the rewritten one, as far as they are loaded. */
  lemma {:induction false} SameNames(u: NTree, ex: seq<Extra>, version: nat, root: nat, t: NTree,
                                     home: seq<(nat, bytes)>, done: set<nat>, q: seq<nat>, p: Plan, path: Path, y: nat)
    requires Arranged(u, ex, version, root, t, home, done, q, p)
    ensures UserPath(u, root, path, y) <==> R.NodePath(t, root, path, y)
    ensures UserPath(u, root, path, y) ==> y in q && y in done
  {
    if UserPath(u, root, path, y) { PathFromUser(u, ex, version, root, t, home, done, q, p, 0, path, y); }
    if R.NodePath(t, root, path, y) { PathToUser(u, ex, version, root, t, home, done, q, p, 0, path, y); }
  }

  // ---------- data ----------

  ghost predicate Renamed(x: TNode) { exists z :: z in x.xattrs && z.key == Ascii("trusted.overlay.whiteout") }

  /** A character device with number 0. */
  ghost predicate IsWhiteoutNode(x: TNode) { x.mode / 0x1000 == 2 && x.rdev == 0 }

  /** Size and content, by kind; content that is elsewhere is not in the image. */
  ghost predicate ContentReturns(x: TNode, r: N.NodeRead) {
    if IsWhiteoutNode(x) then r.stat.size == 0 && r.content == BodyReader.NoContent else
    match x.body
    case Directory(_) => true
    case Symlink(target) => r.stat.size == |target| && r.content == BodyReader.Target(target)
    case Inline(content) => r.stat.size == |content| && r.content == BodyReader.Data(content)
    case External(size) => r.stat.size == size && r.content == BodyReader.NoContent
    case Plain(_) => r.stat.size == 0 && r.content == BodyReader.NoContent
  }

  /** Everything but the attributes; a whiteout is stored as an empty file. */
  ghost predicate DataReturns(x: TNode, r: N.NodeRead) {
    && r.stat.mode == (if IsWhiteoutNode(x) then 0x8000 + x.mode % 0x1000 else x.mode)
    && r.stat.uid == x.uid && r.stat.gid == x.gid && F.SignedTime(r.stat.sec) == x.sec && r.stat.nsec == x.nsec
    && r.stat.rdev == (if x.mode / 0x1000 == 2 || x.mode / 0x1000 == 6 then x.rdev else 0)
    && (x.mode / 0x1000 != 4 ==> r.stat.nlink == x.nlink && ContentReturns(x, r))
  }

  /** A directory has two links and one more for each child that is a directory. */
  ghost predicate LinkCountReturns(u: NTree, x: nat, r: N.NodeRead)
    requires x < |u|
  {
    u[x].mode / 0x1000 == 4 ==>
      r.stat.nlink == 2 + |set e: Entry | e in u[x].children && e.node < |u| && u[e.node].mode / 0x1000 == 4|
  }

  function LoadedMode(mode: nat, whiteout: bool): nat { if whiteout then 0x2000 + mode % 4096 else mode }

  /** The payload as it is stored, with a slash in front; an empty one is not stored. */
  ghost predicate RedirectReturns(e: Extra, redirect: Option<bytes>) {
    redirect == if e.payload.Some? && e.payload.value != [] then Some(Ascii("/") + e.payload.value) else None
  }

  /**
   What the loader makes of the attributes.  It refuses them only if the setter does.  The mode is back unless a file
   has the name that stands for a whiteout.  The attributes are back as `AttrReturn` has it, so exactly when none has a
   reserved name and no mark of the writer shows.  A file whose content is elsewhere has digest and redirect.
   */
  ghost predicate AttrsReturn(x: TNode, e: Extra, marked: bool, version: nat, r: N.NodeRead) {
    var es := XattrExact.FetchAll(r.xattrs);
    var regular := E.FileType(r.stat.mode) == E.S_IFREG;
    var a, all := After(es, regular), AbsorbAll(Absorbed(regular, false, [], None, None), es);
    && (if Taken(a.xattrs) then all == Ok(a) else all.Err?)
    && (LoadedMode(r.stat.mode, a.whiteout) == x.mode <==> !(E.FileType(x.mode) == E.S_IFREG && Renamed(x)))
    && (forall z {:trigger z in a.xattrs} :: z in a.xattrs <==> IsReturned(z, x.xattrs, regular, marked, version))
    && (External(x) && !Renamed(x) ==> a.digest == e.digest && RedirectReturns(e, a.redirect))
  }

  lemma {:induction false} SameItems(a: seq<Xattr>, b: seq<Xattr>)
    requires multiset(a) == multiset(b) && DistinctKeys(a)
    ensures Items(a) == Items(b) && DistinctKeys(b)
  {
    forall x
      ensures x in a <==> x in b
    {
      assert x in a <==> x in multiset(a);
      assert x in b <==> x in multiset(b);
    }
    forall i, j | 0 <= i < j < |b|
      ensures b[i].key != b[j].key
    {
      assert b[i] in a && b[j] in a;
      if b[i] == b[j] {
        CountTwo(b, i, j);
        CountOne(a, b[i]);
      }
    }
  }

  lemma {:induction false} CountTwo(s: seq<Xattr>, i: nat, j: nat)
    requires i < j < |s| && s[i] == s[j]
    ensures multiset(s)[s[i]] >= 2
  {
    assert s == s[..j] + s[j..];
    assert s[i] in s[..j] && s[j] in s[j..];
  }

  lemma {:induction false} CountOne(s: seq<Xattr>, x: Xattr)
    requires DistinctKeys(s)
    ensures multiset(s)[x] <= 1
  {
    if s != [] {
      var n := |s| - 1;
      CountOne(s[..n], x);
      assert s == s[..n] + [s[n]];
      if s[n] == x {
        assert x !in s[..n];
        assert x !in multiset(s[..n]);
      }
    }
  }

  lemma {:induction false} ModeReturns(x: TNode, whiteout: bool)
    requires x.mode < 0x1_0000
    requires whiteout <==> E.FileType(NewMode(x)) == E.S_IFREG && (WhiteoutNode(x) || Renamed(x))
    ensures LoadedMode(NewMode(x), whiteout) == x.mode <==> !(E.FileType(x.mode) == E.S_IFREG && Renamed(x))
  {
    NewModeType(x);
    ModeParts(x.mode);
    if WhiteoutNode(x) { ModeParts(NewMode(x)); }
  }

  lemma {:induction false} ModeParts(mode: nat)
    requires mode < 0x1_0000
    ensures mode == 0x1000 * E.FileType(mode) + mode % 4096 && mode % 4096 < 4096
    ensures forall k: nat {:trigger 0x1000 * k} :: (0x1000 * k + mode % 4096) % 4096 == mode % 4096
  {
    forall k: nat
      ensures (0x1000 * k + mode % 4096) % 4096 == mode % 4096
    {
    }
  }

  lemma {:induction false} AttrsAreBack(x: TNode, e: Extra, y: TNode, marked: bool, version: nat, root: bool,
                                        r: N.NodeRead)
    requires DataDone(x, e, y, marked, version, root) && UserNode(x) && UserExtra(e) && r.stat.mode == y.mode
    requires x.link.None?
    requires multiset(XattrExact.FetchAll(r.xattrs)) == multiset(y.xattrs)
    ensures AttrsReturn(x, e, marked, version, r)
  {
    var es := XattrExact.FetchAll(r.xattrs);
    var regular := E.FileType(r.stat.mode) == E.S_IFREG;
    var s := Items(x.xattrs);
    SameItems(y.xattrs, es);
    AbsorbMeans(es, regular);
    NewModeType(x);
    KeptOfList(es, regular);
    RenamedIs(x);
    assert Ascii("/") == [47];
    WrittenReturns(s, External(x), WhiteoutNode(x), e, marked, version, root, regular);
    WhiteoutReturns(s, External(x), WhiteoutNode(x), e, marked, version, root);
    MarkedIs(es);
    ModeReturns(x, After(es, regular).whiteout);
    if External(x) && !Renamed(x) { ExtraReturns(s, e, marked, version, root, es); }
    KeptAre(KeptList(es, regular), x.xattrs, regular, marked, version);
  }

  lemma {:induction false} KeptAre(kept: seq<Xattr>, given: seq<Xattr>, regular: bool, marked: bool, version: nat)
    requires Items(kept) == ReturnedItems(Items(given), regular, marked, version)
    ensures forall z {:trigger z in kept} :: z in kept <==> IsReturned(z, given, regular, marked, version)
  {
    forall z: Xattr
      ensures z in kept <==> IsReturned(z, given, regular, marked, version)
    {
      assert z in kept <==> z in Items(kept);
      ReturnedAre(z, given, regular, marked, version);
    }
  }

  lemma {:induction false} RenamedIs(x: TNode)
    ensures Renamed(x) <==> KeyIn(Items(x.xattrs), OverlayPrefix() + Ascii("whiteout"))
  {
    WhiteoutNames();
    if Renamed(x) {
      var z :| z in x.xattrs && z.key == Ascii("trusted.overlay.whiteout");
      assert z in Items(x.xattrs);
    }
    if z :| z in Items(x.xattrs) && z.key == OverlayPrefix() + Ascii("whiteout") {
      assert z in x.xattrs;
    }
  }

  lemma {:induction false} MarkedIs(es: seq<Xattr>)
    ensures WhiteoutMarked(es) <==> KeyIn(Items(es), EscapedWhiteout())
  {
    if WhiteoutMarked(es) {
      var i :| 0 <= i < |es| && es[i].key == EscapedWhiteout();
      assert es[i] in Items(es);
    }
    if z :| z in Items(es) && z.key == EscapedWhiteout() {
      var i :| 0 <= i < |es| && es[i] == z;
    }
  }

  // ---------- the whole tree ----------

  ghost predicate ContainsWhiteout(u: NTree, x: nat) {
    exists c: nat :: IsKid(u, x, c) && c < |u| && WhiteoutNode(u[c])
  }

  /** Node `i` was loaded from what was written for node `q[k]` of the user, and holds what that held. */
  ghost predicate Reloaded(u: NTree, ex: seq<Extra>, version: nat, t: NTree, q: seq<nat>, p: Plan, nodes: seq<L.LNode>,
                           i: nat, k: nat) {
    && R.Loads(t, q, p, nodes, i, k) && |ex| == |u| && q[k] < |u| && DataReturns(u[q[k]], nodes[i].data)
    && LinkCountReturns(u, q[k], nodes[i].data)
    && (!XattrExact.EndsBare(p.nodes[k].xattrs, p.slots[k]) ==>
          AttrsReturn(u[q[k]], ex[q[k]], IsDir(u[q[k]]) && ContainsWhiteout(u, q[k]), version, nodes[i].data))
  }

  lemma {:induction false} ParentIsDir(u: NTree, root: nat, done: set<nat>, x: nat, c: nat)
    requires OneEntry(u) && IsRoot(u, root) && Rooted(u, root, done) && c in done && IsKid(u, x, c)
    ensures x < |u| && IsDir(u[x])
  {
    assert c != root;
    assert HasUp(u, root, done, c);
    var p :| p in done && IsKid(u, p, c) && p < |u| && IsDir(u[p]);
    KidOnce(u, p, x, c);
  }

  lemma {:induction false} MarksAre(u: NTree, ex: seq<Extra>, version: nat, root: nat, t: NTree,
                                    home: seq<(nat, bytes)>, done: set<nat>, x: nat)
    requires Remade(u, ex, version, root, t, home, done) && x in done
    ensures x < |u| && (HasWhiteout(u, done, x) <==> IsDir(u[x]) && ContainsWhiteout(u, x))
  {
    SameKind(u, ex, version, root, t, home, done, x);
    if HasWhiteout(u, done, x) {
      var c :| c in done && c < |u| && IsKid(u, x, c) && WhiteoutNode(u[c]);
      ParentIsDir(u, root, done, x, c);
    }
    if IsDir(u[x]) && ContainsWhiteout(u, x) { WhiteoutDone(u, t[x], done, x); }
  }

  lemma {:induction false} WhiteoutDone(u: NTree, node: TNode, done: set<nat>, x: nat)
    requires x < |u| && Finished(u, node, done, x) && IsDir(u[x]) && ContainsWhiteout(u, x)
    ensures HasWhiteout(u, done, x)
  {
    var c: nat :| IsKid(u, x, c) && c < |u| && WhiteoutNode(u[c]);
    assert c in done;
  }

  ghost function DirEntries(t: NTree, es: seq<Entry>): set<Entry> {
    set e: Entry | e in es && e.node < |t| && IsDir(t[e.node])
  }

  /** Counting positions is counting entries, because no entry is there twice. */
  lemma {:induction false} CountEntries(t: NTree, es: seq<Entry>)
    requires Sorted(es)
    ensures Directories(Shape(t), Targets(es)) == |DirEntries(t, es)|
  {
    if es != [] {
      var n := |es| - 1;
      CountEntries(t, es[..n]);
      assert Targets(es)[..n] == Targets(es[..n]);
      LastIsNew(es);
      OneMore(t, es);
    }
  }

  lemma {:induction false} OneMore(t: NTree, es: seq<Entry>)
    requires es != [] && es[|es| - 1] !in es[..|es| - 1]
    ensures var c := es[|es| - 1].node;
            |DirEntries(t, es)| == |DirEntries(t, es[..|es| - 1])| + if c < |t| && IsDir(t[c]) then 1 else 0
  {
    var n := |es| - 1;
    var last := if es[n].node < |t| && IsDir(t[es[n].node]) then {es[n]} else {};
    assert DirEntries(t, es) == DirEntries(t, es[..n]) + last;
  }

  lemma {:induction false} LastIsNew(es: seq<Entry>)
    requires Sorted(es) && es != []
    ensures es[|es| - 1] !in es[..|es| - 1]
  {
    LessIrreflexive(es[|es| - 1].name);
  }

  /** The children that are directories are those of the user. */
  lemma {:induction false} SameDirEntries(u: NTree, ex: seq<Extra>, version: nat, root: nat, t: NTree,
                                          home: seq<(nat, bytes)>, done: set<nat>, x: nat)
    requires Remade(u, ex, version, root, t, home, done) && x in done
    ensures x < |u| && DirEntries(t, t[x].children) == DirEntries(u, u[x].children)
  {
    assert FinalStep(u, ex, version, root, t, done, x);
    forall e: Entry
      ensures e in DirEntries(t, t[x].children) <==> e in DirEntries(u, u[x].children)
    {
      if e in t[x].children {
        assert IsChild(t, x, e);
        EntryKinds(u, ex, version, root, t, home, done, x, e);
        SameKindAnywhere(u, ex, version, root, t, home, done, e.node);
      }
      if e in u[x].children { assert e in t[x].children; }
    }
  }

  lemma {:induction false} SameKindAnywhere(u: NTree, ex: seq<Extra>, version: nat, root: nat, t: NTree,
                                            home: seq<(nat, bytes)>, done: set<nat>, y: nat)
    requires Remade(u, ex, version, root, t, home, done) && y < |t|
    ensures if y < |u| then IsDir(t[y]) <==> IsDir(u[y]) else !IsDir(t[y])
  {
    if y >= |u| {
      assert NewNode(u, t[y]);
    } else if y in done {
      SameKind(u, ex, version, root, t, home, done, y);
    } else {
      assert FinalStep(u, ex, version, root, t, done, y);
    }
  }

  lemma {:induction false} TypeBits(mode: nat)
    requires mode < 0x1_0000
    ensures E.FileType(mode) == mode / 0x1000
  {
    assert 0 <= mode / 0x1000 < 16;
  }

  lemma {:induction false} LinksAreBack(u: NTree, ex: seq<Extra>, version: nat, root: nat, t: NTree,
                                        home: seq<(nat, bytes)>, done: set<nat>, x: nat, r: N.NodeRead)
    requires Remade(u, ex, version, root, t, home, done) && x in done && x < |u|
    requires IsDir(u[x]) ==> r.stat.nlink == 2 + Directories(Shape(t), Targets(t[x].children))
    ensures LinkCountReturns(u, x, r)
  {
    assert UserNode(u[x]);
    TypeBits(u[x].mode);
    if IsDir(u[x]) {
      StillSorted(u, ex, version, root, t, home, done, x);
      CountEntries(t, t[x].children);
      SameDirEntries(u, ex, version, root, t, home, done, x);
      DirEntriesAre(u, u[x].children);
    }
  }

  lemma {:induction false} DirEntriesAre(u: NTree, es: seq<Entry>)
    requires UserTree(u)
    ensures DirEntries(u, es) == set e: Entry | e in es && e.node < |u| && u[e.node].mode / 0x1000 == 4
  {
    forall e: Entry | e in es && e.node < |u|
      ensures IsDir(u[e.node]) <==> u[e.node].mode / 0x1000 == 4
    {
      assert UserNode(u[e.node]);
      TypeBits(u[e.node].mode);
    }
  }

  lemma {:induction false} NodeIsBack(u: NTree, ex: seq<Extra>, version: nat, root: nat, t: NTree,
                                      home: seq<(nat, bytes)>, done: set<nat>, q: seq<nat>, p: Plan,
                                      nodes: seq<L.LNode>, i: nat, k: nat)
    requires Arranged(u, ex, version, root, t, home, done, q, p) && R.Loads(t, q, p, nodes, i, k) && q[k] in done
    ensures Reloaded(u, ex, version, t, q, p, nodes, i, k)
  {
    var x, r := q[k], nodes[i].data;
    SameKind(u, ex, version, root, t, home, done, x);
    DoneNoLink(u, ex, version, root, t, home, done, x);
    MarksAre(u, ex, version, root, t, home, done, x);
    assert UserNode(u[x]) && UserExtra(ex[x]);
    DataIsBack(u[x], ex[x], t, q, p, k, r, HasWhiteout(u, done, x), version, x == root);
    LinksAreBack(u, ex, version, root, t, home, done, x, r);
    if !XattrExact.EndsBare(p.nodes[k].xattrs, p.slots[k]) {
      AttrsAreBack(u[x], ex[x], t[x], HasWhiteout(u, done, x), version, x == root, r);
    }
  }

  lemma {:induction false} DataIsBack(x: TNode, e: Extra, t: NTree, q: seq<nat>, p: Plan, k: nat, r: N.NodeRead,
                                      marked: bool, version: nat, root: bool)
    requires R.PlanOf(t, q, p) && k < |q| && NodePlanned(p, k) && R.HoldsAs(t, q, p, k, r) && q[k] < |t|
    requires DataDone(x, e, t[q[k]], marked, version, root) && UserNode(x) && x.link.None?
    ensures DataReturns(x, r)
  {
    StoredReturns(x, t[q[k]], r);
  }

  lemma {:induction false} StoredReturns(x: TNode, y: TNode, r: N.NodeRead)
    requires UserNode(x) && x.link.None? && R.IsStored(y, r) && y.mode == NewMode(x) && y.body == NewBody(x)
    requires y.uid == x.uid && y.gid == x.gid && y.rdev == x.rdev && y.sec == x.sec && y.nsec == x.nsec
    requires !IsDir(x) ==> y.nlink == x.nlink
    ensures DataReturns(x, r)
  {
    NewModeType(x);
    TypeBits(x.mode);
    if !IsDir(x) { StoredContent(x, y, r); }
  }

  lemma {:induction false} StoredContent(x: TNode, y: TNode, r: N.NodeRead)
    requires UserNode(x) && x.link.None? && y.body == NewBody(x) && !IsDir(x) && (y.body.External? ==> y.body.size > 0)
    requires r.stat.size == E.FileSize(y.body) && r.content == BodyReader.ContentOf(y.body, [])
    ensures ContentReturns(x, r)
  {
    TypeBits(x.mode);
  }

  /** Every path of the user leads to a loaded node that holds what was at its end. */
  ghost predicate PathsReturn(u: NTree, ex: seq<Extra>, version: nat, root: nat, t: NTree, q: seq<nat>, p: Plan,
                              nodes: seq<L.LNode>) {
    forall path: Path, y: nat {:trigger UserPath(u, root, path, y)} ::
      PathBack(u, ex, version, root, t, q, p, nodes, path, y)
  }

  ghost predicate PathBack(u: NTree, ex: seq<Extra>, version: nat, root: nat, t: NTree, q: seq<nat>, p: Plan,
                           nodes: seq<L.LNode>, path: Path, y: nat) {
    UserPath(u, root, path, y) <==>
    exists i: nat, k: nat :: k < |q| && q[k] == y && TreePath(nodes, 0, path, i) &&
                             Reloaded(u, ex, version, t, q, p, nodes, i, k)
  }

  /** No other path leads anywhere. */
  ghost predicate NoOthers(u: NTree, ex: seq<Extra>, version: nat, root: nat, t: NTree, q: seq<nat>, p: Plan,
                           nodes: seq<L.LNode>) {
    forall path: Path, i: nat {:trigger TreePath(nodes, 0, path, i)} :: TreePath(nodes, 0, path, i) ==>
      exists k: nat :: k < |q| && UserPath(u, root, path, q[k]) && Reloaded(u, ex, version, t, q, p, nodes, i, k)
  }

  /** The tree of the user is back: its paths, its data and its hard links. */
  ghost predicate UserAgain(u: NTree, ex: seq<Extra>, version: nat, root: nat, t: NTree, q: seq<nat>, p: Plan,
                            nodes: seq<L.LNode>) {
    && PathsReturn(u, ex, version, root, t, q, p, nodes) && NoOthers(u, ex, version, root, t, q, p, nodes)
    && R.SameLinks(t, q, p, nodes) && R.TypesAgree(nodes)
  }

  lemma {:induction false} PathReturns(u: NTree, ex: seq<Extra>, version: nat, root: nat, t: NTree,
                                       home: seq<(nat, bytes)>, done: set<nat>, q: seq<nat>, p: Plan,
                                       nodes: seq<L.LNode>, path: Path, y: nat)
    requires Arranged(u, ex, version, root, t, home, done, q, p) && R.SameAgain(t, q, p, nodes)
    ensures PathBack(u, ex, version, root, t, q, p, nodes, path, y)
  {
    SameNames(u, ex, version, root, t, home, done, q, p, path, y);
    if UserPath(u, root, path, y) {
      var k :| 0 <= k < |q| && q[k] == y;
      assert R.NodePath(t, q[0], path, q[k]);
      var i: nat :| TreePath(nodes, 0, path, i) && R.Loads(t, q, p, nodes, i, k);
      NodeIsBack(u, ex, version, root, t, home, done, q, p, nodes, i, k);
    }
    if i: nat, k: nat :| k < |q| && q[k] == y && TreePath(nodes, 0, path, i) &&
                         Reloaded(u, ex, version, t, q, p, nodes, i, k) {
      assert R.NodePath(t, q[0], path, q[k]);
    }
  }

  lemma {:induction false} NothingElse(u: NTree, ex: seq<Extra>, version: nat, root: nat, t: NTree,
                                       home: seq<(nat, bytes)>, done: set<nat>, q: seq<nat>, p: Plan,
                                       nodes: seq<L.LNode>, path: Path, i: nat) returns (k: nat)
    requires Arranged(u, ex, version, root, t, home, done, q, p) && R.SameAgain(t, q, p, nodes)
    requires TreePath(nodes, 0, path, i)
    ensures k < |q| && UserPath(u, root, path, q[k]) && Reloaded(u, ex, version, t, q, p, nodes, i, k)
  {
    k :| k < |q| && R.NodePath(t, q[0], path, q[k]) && R.Loads(t, q, p, nodes, i, k);
    SameNames(u, ex, version, root, t, home, done, q, p, path, q[k]);
    NodeIsBack(u, ex, version, root, t, home, done, q, p, nodes, i, k);
  }

  lemma {:induction false} UserIsBack(u: NTree, ex: seq<Extra>, version: nat, root: nat, t: NTree,
                                      home: seq<(nat, bytes)>, done: set<nat>, q: seq<nat>, p: Plan,
                                      nodes: seq<L.LNode>)
    requires Arranged(u, ex, version, root, t, home, done, q, p) && R.SameAgain(t, q, p, nodes)
    ensures UserAgain(u, ex, version, root, t, q, p, nodes)
  {
    AllPathsReturn(u, ex, version, root, t, home, done, q, p, nodes);
    forall path: Path, i: nat | TreePath(nodes, 0, path, i)
      ensures exists k: nat :: k < |q| && UserPath(u, root, path, q[k]) &&
                               Reloaded(u, ex, version, t, q, p, nodes, i, k)
    {
      var k := NothingElse(u, ex, version, root, t, home, done, q, p, nodes, path, i);
    }
  }

  lemma {:induction false} AllPathsReturn(u: NTree, ex: seq<Extra>, version: nat, root: nat, t: NTree,
                                          home: seq<(nat, bytes)>, done: set<nat>, q: seq<nat>, p: Plan,
                                          nodes: seq<L.LNode>)
    requires Arranged(u, ex, version, root, t, home, done, q, p) && R.SameAgain(t, q, p, nodes)
    ensures PathsReturn(u, ex, version, root, t, q, p, nodes)
  {
    forall path: Path, y: nat
      ensures PathBack(u, ex, version, root, t, q, p, nodes, path, y)
    {
      PathReturns(u, ex, version, root, t, home, done, q, p, nodes, path, y);
    }
  }
}
