/**
 Rewriting a copied tree for the image: attributes are escaped and marked, whiteouts become marked files, directories
 get their entries for themselves and their parents.
 */
module Rewriting {
  import opened Common
  import opened Bytes
  import opened Order
  import opened Children
  import opened Chunking
  import opened DirCodec
  import opened Xattrs
  import opened NodeAttrs
  import opened Escaping
  import opened Overlay
  import opened AttrReturn
  import opened MarkRoom
  import opened HardLinks
  import opened TreeOrder
  import opened NamedTree
  import opened TreeLoader
  import E = ErofsNode

  // ---------- one node ----------

  predicate External(x: TNode) { E.FileType(x.mode) == E.S_IFREG && x.body.External? }

  function Marks(x: TNode, e: Extra): seq<Xattr> { OwnMarks(External(x), WhiteoutNode(x), e) }

  function NewMode(x: TNode): nat { if WhiteoutNode(x) then 0x8000 + x.mode % 4096 else x.mode }

  function NewBody(x: TNode): E.Body { if WhiteoutNode(x) then E.Plain(0) else x.body }

  /** What `x` looks like when it has been rewritten. */
  ghost predicate DataDone(x: TNode, e: Extra, y: TNode, marked: bool, version: nat, root: bool) {
    && y.mode == NewMode(x) && y.body == NewBody(x) && y.uid == x.uid && y.gid == x.gid && y.rdev == x.rdev
    && y.sec == x.sec && y.nsec == x.nsec && y.link == x.link && (!IsDir(x) ==> y.nlink == x.nlink)
    && y.nlink < 0x1_0000_0000
    && DistinctKeys(y.xattrs)
    && Items(y.xattrs) == WrittenItems(Items(x.xattrs), Marks(x, e), marked, version, root)
  }

  /** A new node that is a hard link. */
  function LinkNode(target: nat): TNode { TNode(0, 1, 0, 0, 0, 0, 0, E.Plain(0), [], [], Some(target)) }

  ghost predicate IsDotLink(u: NTree, x: TNode) {
    x.link.Some? && x == LinkNode(x.link.value) && x.link.value < |u| && u[x.link.value].link.None?
  }

  /** A new entry for a directory itself or its parent. */
  ghost predicate IsDotEntry(u: NTree, t: NTree, e: Entry) {
    IsDot(e.name) && |u| <= e.node < |t| && IsDotLink(u, t[e.node])
  }

  ghost predicate ListDone(u: NTree, x: TNode, y: TNode, t: NTree) {
    && Sorted(y.children) && (!IsDir(x) ==> y.children == x.children)
    && (forall e {:trigger e in x.children} :: e in x.children ==> e in y.children)
    && (forall e {:trigger e in y.children} :: e in y.children ==> e in x.children || IsDotEntry(u, t, e))
  }

  // ---------- the tree ----------

  ghost predicate IsKid(u: NTree, p: nat, x: nat) { x in KidsIn(Shape(u))(p) }

  /** Some node of `told` is a whiteout in directory `p`. */
  ghost predicate HasWhiteout(u: NTree, told: set<nat>, p: nat) {
    exists c :: c in told && c < |u| && IsKid(u, p, c) && WhiteoutNode(u[c])
  }

  ghost predicate NodeStep(u: NTree, ex: seq<Extra>, version: nat, t: NTree, done: set<nat>, told: set<nat>, y: nat)
    requires |ex| == |u| <= |t| && y < |u|
  {
    if y in done then DataDone(u[y], ex[y], t[y], HasWhiteout(u, told, y), version, false) && ListDone(u, u[y], t[y], t)
    else t[y] == u[y]
  }

  /** New nodes are entries of one directory each. */
  ghost predicate Homed(n: nat, t: NTree, home: seq<(nat, bytes)>, x: nat)
    requires |t| == n + |home| && x < |t|
  {
    forall e {:trigger e in t[x].children} :: e in t[x].children ==>
      e.node < |t| && (e.node >= n ==> home[e.node - n] == (x, e.name))
  }

  /** The nodes in `done` have been rewritten, and those in `told` have been reported to their directories. */
  ghost predicate Progress(u: NTree, ex: seq<Extra>, version: nat, t: NTree, home: seq<(nat, bytes)>, done: set<nat>,
                           told: set<nat>) {
    && |ex| == |u| && |t| == |u| + |home| && (forall y {:trigger y in done} :: y in done ==> y < |u|) && told <= done
    && (forall y: nat {:trigger NodeStep(u, ex, version, t, done, told, y)} :: y < |u| ==>
          NodeStep(u, ex, version, t, done, told, y))
    && (forall y: nat {:trigger Homed(|u|, t, home, y)} :: y < |u| ==> Homed(|u|, t, home, y))
    && (forall y: nat {:trigger IsDotLink(u, t[y])} :: |u| <= y < |t| ==> IsDotLink(u, t[y]))
    && DotsLead(u, t, home)
  }

  /** The directory `p` that `x` is in; a node that is in none is above itself. */
  ghost predicate IsAbove(u: NTree, p: nat, x: nat) {
    IsKid(u, p, x) || (p == x && forall k: nat {:trigger IsKid(u, k, x)} :: !IsKid(u, k, x))
  }

  /** A new entry "." of a directory is a link to it, and ".." one to the directory it is in. */
  ghost predicate DotLeads(u: NTree, t: NTree, home: seq<(nat, bytes)>, y: nat)
    requires |t| == |u| + |home| && |u| <= y < |t|
  {
    var h := home[y - |u|];
    t[y].link.Some? ==> (h.1 == [46] && t[y].link.value == h.0) || (h.1 == [46, 46] && IsAbove(u, t[y].link.value, h.0))
  }

  ghost predicate DotsLead(u: NTree, t: NTree, home: seq<(nat, bytes)>) {
    && |t| == |u| + |home|
    && forall y: nat {:trigger DotLeads(u, t, home, y)} :: |u| <= y < |t| ==> DotLeads(u, t, home, y)
  }

  lemma {:induction false} DotsStay(u: NTree, t: NTree, home: seq<(nat, bytes)>, t': NTree)
    requires DotsLead(u, t, home) && |t'| == |t|
    requires forall y {:trigger t'[y]} :: |u| <= y < |t| ==> t'[y].link == t[y].link
    ensures DotsLead(u, t', home)
  {
    forall y: nat | |u| <= y < |t'|
      ensures DotLeads(u, t', home, y)
    {
      assert DotLeads(u, t, home, y) && t'[y].link == t[y].link;
    }
  }

  lemma {:induction false} DotsMore(u: NTree, t: NTree, home: seq<(nat, bytes)>, t': NTree, h: (nat, bytes))
    requires DotsLead(u, t, home) && |t'| == |t| + 1
    requires forall y {:trigger t'[y]} :: |u| <= y < |t| ==> t'[y].link == t[y].link
    requires t'[|t|].link.Some? ==>
               (h.1 == [46] && t'[|t|].link.value == h.0) || (h.1 == [46, 46] && IsAbove(u, t'[|t|].link.value, h.0))
    ensures DotsLead(u, t', home + [h])
  {
    forall y: nat | |u| <= y < |t'|
      ensures DotLeads(u, t', home + [h], y)
    {
      if y < |t| { assert DotLeads(u, t, home, y) && t'[y].link == t[y].link; }
    }
  }

  /** Counters of the copied nodes. */
  ghost predicate AllTallied(u: NTree, t: NTree, sizes: seq<nat>, bases: seq<nat>, done: set<nat>) {
    && |sizes| == |bases| == |u| <= |t|
    && forall y: nat {:trigger TallyAt(u, t, sizes, bases, done, y)} :: y < |u| ==> TallyAt(u, t, sizes, bases, done, y)
  }

  ghost predicate TallyAt(u: NTree, t: NTree, sizes: seq<nat>, bases: seq<nat>, done: set<nat>, y: nat)
    requires |sizes| == |bases| == |u| <= |t| && y < |u|
  {
    && Tallied(t[y].xattrs, sizes[y], bases[y]) && (y !in done ==> bases[y] == Total(u[y].xattrs) <= 0xffff)
    && (y in done && !Clashes(u[y].xattrs) ==> bases[y] == Total(EscapedList(u[y].xattrs)))
  }

  // ---------- lemmas ----------

  lemma {:induction false} StillDone(u: NTree, x: TNode, y: TNode, t: NTree, t': NTree)
    requires ListDone(u, x, y, t) && |t| <= |t'| && forall k {:trigger t'[k]} :: |u| <= k < |t| ==> t'[k] == t[k]
    ensures ListDone(u, x, y, t')
  {
    forall e | e in y.children
      ensures e in x.children || IsDotEntry(u, t', e)
    {
      if e !in x.children { assert IsDotEntry(u, t, e); }
    }
  }

  /** A node that has just been rewritten has nothing in it that was reported. */
  lemma {:induction false} EnterStep(u: NTree, ex: seq<Extra>, version: nat, t: NTree, home: seq<(nat, bytes)>,
                                   done: set<nat>, told: set<nat>, x: nat, y: TNode)
    requires Progress(u, ex, version, t, home, done, told) && x < |u| && x !in done && !HasWhiteout(u, told, x)
    requires DataDone(u[x], ex[x], y, false, version, false) && y.children == u[x].children && Sorted(u[x].children)
    ensures Progress(u, ex, version, t[x := y], home, done + {x}, told)
  {
    var t' := t[x := y];
    assert NodeStep(u, ex, version, t, done, told, x);
    forall k: nat | k < |u|
      ensures NodeStep(u, ex, version, t', done + {x}, told, k) && Homed(|u|, t', home, k)
    {
      assert NodeStep(u, ex, version, t, done, told, k) && Homed(|u|, t, home, k);
      if k in done { StillDone(u, u[k], t[k], t, t'); }
    }
    DotsStay(u, t, home, t');
  }

  lemma {:induction false} ToldMore(u: NTree, told: set<nat>, x: nat, p: nat)
    ensures HasWhiteout(u, told + {x}, p) <==>
            HasWhiteout(u, told, p) || (x < |u| && IsKid(u, p, x) && WhiteoutNode(u[x]))
  {
    if HasWhiteout(u, told, p) {
      var c :| c in told && c < |u| && IsKid(u, p, c) && WhiteoutNode(u[c]);
      assert c in told + {x};
    }
    if x < |u| && IsKid(u, p, x) && WhiteoutNode(u[x]) { assert x in told + {x}; }
  }

  lemma {:induction false} MarksTwice(s: set<Xattr>, version: nat)
    ensures PutAll(PutAll(s, DirMarks(version)), DirMarks(version)) == PutAll(s, DirMarks(version))
  {
    var ms := DirMarks(version);
    MarksDistinct(false, false, Extra(None, None), version, Redirect());
    forall x
      ensures x in PutAll(PutAll(s, ms), ms) <==> x in PutAll(s, ms)
    {
      PutAllIs(PutAll(s, ms), ms, x);
      PutAllIs(s, ms, x);
    }
  }

  /** A directory that has been told about one whiteout looks the same after the next. */
  lemma {:induction false} MarkedStep(x: TNode, e: Extra, y: TNode, xs: seq<Xattr>, marked: bool, version: nat)
    requires DataDone(x, e, y, marked, version, false) && DistinctKeys(xs)
    requires Items(xs) == PutAll(Items(y.xattrs), DirMarks(version))
    ensures DataDone(x, e, y.(xattrs := xs), true, version, false)
  {
    MarksTwice(PutAll(EscapedItems(Items(x.xattrs)), Marks(x, e)), version);
  }

  /** Node `x` is reported to its directory `p`, whose attributes are then `xs`. */
  lemma {:induction false} TellStep(u: NTree, ex: seq<Extra>, version: nat, t: NTree, home: seq<(nat, bytes)>,
                                    done: set<nat>, told: set<nat>, x: nat, p: nat, xs: seq<Xattr>)
    requires Progress(u, ex, version, t, home, done, told) && x in done && p in done && p != x && DistinctKeys(xs)
    requires WhiteoutNode(u[x]) && Items(xs) == PutAll(Items(t[p].xattrs), DirMarks(version))
    requires forall k: nat {:trigger IsKid(u, k, x)} :: IsKid(u, k, x) <==> k == p
    ensures Progress(u, ex, version, t[p := t[p].(xattrs := xs)], home, done, told + {x})
  {
    var t' := t[p := t[p].(xattrs := xs)];
    forall k: nat | k < |u|
      ensures NodeStep(u, ex, version, t', done, told + {x}, k) && Homed(|u|, t', home, k)
    {
      assert NodeStep(u, ex, version, t, done, told, k) && Homed(|u|, t, home, k);
      ToldMore(u, told, x, k);
      if k in done { StillDone(u, u[k], t[k], t, t'); }
      if k == p { MarkedStep(u[p], ex[p], t[p], xs, HasWhiteout(u, told, p), version); }
    }
    DotsStay(u, t, home, t');
  }

  /** Nothing is to be reported about `x`. */
  lemma {:induction false} QuietStep(u: NTree, ex: seq<Extra>, version: nat, t: NTree, home: seq<(nat, bytes)>,
                                     done: set<nat>, told: set<nat>, x: nat)
    requires Progress(u, ex, version, t, home, done, told) && x in done && !WhiteoutNode(u[x])
    ensures Progress(u, ex, version, t, home, done, told + {x})
  {
    forall k: nat | k < |u|
      ensures NodeStep(u, ex, version, t, done, told + {x}, k)
    {
      assert NodeStep(u, ex, version, t, done, told, k);
      ToldMore(u, told, x, k);
    }
  }

  lemma {:induction false} AddedMembers(list: seq<Entry>, e: Entry, list': seq<Entry>, x: Entry)
    requires AddedTo(list, e, list')
    ensures x in list' <==> x in list || x == e
  {
    assert x in list' <==> x in multiset(list');
    assert x in list <==> x in multiset(list);
  }

  /** The nodes after entry `e` of directory `x`, which leads to a link to `target`, was added. */
  ghost function WithDot(t: NTree, x: nat, list: seq<Entry>, target: nat): NTree
    requires x < |t| && target < |t|
  {
    var t1 := t[x := t[x].(children := list)];
    t1[target := t1[target].(nlink := (t1[target].nlink + 1) % 0x1_0000_0000)] + [LinkNode(target)]
  }

  lemma {:induction false} DotShape(t: NTree, x: nat, list: seq<Entry>, target: nat)
    requires x < |t| && target < |t|
    ensures var t' := WithDot(t, x, list, target);
            |t'| == |t| + 1 && t'[x].children == list &&
            forall k {:trigger t'[k]} :: 0 <= k < |t| && k != x ==> t'[k].children == t[k].children
  {
  }

  lemma {:induction false} DotKeeps(u: NTree, ex: seq<Extra>, version: nat, t: NTree, home: seq<(nat, bytes)>,
                                    done: set<nat>, told: set<nat>, x: nat, name: bytes, list: seq<Entry>, target: nat,
                                    k: nat)
    requires Progress(u, ex, version, t, home, done, told) && x in done && IsDir(u[x]) && IsDot(name)
    requires target in done && IsDir(u[target]) && u[target].link.None? && k < |u|
    requires AddedTo(t[x].children, Entry(name, |t|), list)
    ensures var t', home' := WithDot(t, x, list, target), home + [(x, name)];
            NodeStep(u, ex, version, t', done, told, k) && Homed(|u|, t', home', k)
  {
    var t', home' := WithDot(t, x, list, target), home + [(x, name)];
    assert IsDotLink(u, t'[|t|]);
    assert NodeStep(u, ex, version, t, done, told, k) && Homed(|u|, t, home, k);
    if k in done { StillDone(u, u[k], t[k], t, t'); }
    if k == x { DotListed(u, u[x], t[x], t', list, name, |t|); }
    DotHomed(|u|, t, home, t', home', k, x, name, list);
  }

  lemma {:induction false} DotStep(u: NTree, ex: seq<Extra>, version: nat, t: NTree, home: seq<(nat, bytes)>,
                                   done: set<nat>, told: set<nat>, x: nat, name: bytes, list: seq<Entry>, target: nat)
    requires Progress(u, ex, version, t, home, done, told) && x in done && IsDir(u[x]) && IsDot(name)
    requires target in done && IsDir(u[target]) && u[target].link.None?
    requires (name == [46] && target == x) || (name == [46, 46] && IsAbove(u, target, x))
    requires AddedTo(t[x].children, Entry(name, |t|), list)
    ensures Progress(u, ex, version, WithDot(t, x, list, target), home + [(x, name)], done, told)
  {
    var t', home' := WithDot(t, x, list, target), home + [(x, name)];
    assert IsDotLink(u, t'[|t|]);
    DotsMore(u, t, home, t', (x, name));
    forall k: nat | k < |u|
      ensures NodeStep(u, ex, version, t', done, told, k) && Homed(|u|, t', home', k)
    {
      DotKeeps(u, ex, version, t, home, done, told, x, name, list, target, k);
    }
    forall k: nat | |u| <= k < |t'|
      ensures IsDotLink(u, t'[k])
    {
      if k < |t| { assert t'[k] == t[k]; }
    }
  }

  lemma {:induction false} DotListed(u: NTree, x: TNode, y: TNode, t: NTree, list: seq<Entry>, name: bytes, c: nat)
    requires ListDone(u, x, y, t) && IsDir(x) && IsDot(name) && |u| <= c < |t| && IsDotLink(u, t[c])
    requires AddedTo(y.children, Entry(name, c), list)
    ensures forall y': TNode | y'.children == list :: ListDone(u, x, y', t)
  {
    forall e: Entry
      ensures e in list <==> e in y.children || e == Entry(name, c)
    {
      AddedMembers(y.children, Entry(name, c), list, e);
    }
  }

  lemma {:induction false} DotHomed(n: nat, t: NTree, home: seq<(nat, bytes)>, t': NTree, home': seq<(nat, bytes)>,
                                    k: nat, x: nat, name: bytes, list: seq<Entry>)
    requires |t| == n + |home| && k < n && home' == home + [(x, name)] && |t'| == |t| + 1 && Homed(n, t, home, k)
    requires AddedTo(t[k].children, Entry(name, |t|), list)  || k != x
    requires t'[k].children == if k == x then list else t[k].children
    ensures Homed(n, t', home', k)
  {
    forall e | e in t'[k].children
      ensures e.node < |t'| && (e.node >= n ==> home'[e.node - n] == (k, e.name))
    {
      if k == x { AddedMembers(t[k].children, Entry(name, |t|), list, e); }
    }
  }

  // ---------- the user's tree ----------

  /** Content as the setters of a node leave it. */
  ghost predicate SetterOk(x: TNode) {
    match x.body
    case Directory(_) => IsDir(x)
    case Symlink(target) => E.FileType(x.mode) == E.S_IFLNK && 1 <= |target| < 4096 && 0 !in target
    case Inline(content) => E.FileType(x.mode) == E.S_IFREG && 1 <= |content| <= 5000
    case External(size) => E.FileType(x.mode) == E.S_IFREG && 0 < size < TWO64
    case Plain(size) =>
      size < TWO64 && E.FileType(x.mode) != E.S_IFLNK && (E.FileType(x.mode) == E.S_IFREG ==> size == 0)
  }

  ghost predicate UserNode(x: TNode) {
    && x.mode < 0x1_0000 && x.nlink < 0x1_0000_0000 && x.uid < 0x1_0000_0000 && x.gid < 0x1_0000_0000
    && x.rdev < 0x1_0000_0000 && -0x8000_0000_0000_0000 <= x.sec < 0x8000_0000_0000_0000 && x.nsec < 0x1_0000_0000
    && DistinctKeys(x.xattrs) && Total(x.xattrs) <= 0xffff
    && (forall k {:trigger x.xattrs[k]} :: 0 <= k < |x.xattrs| ==> 1 <= |x.xattrs[k].key| <= 255)
    && Sorted(x.children) && |x.children| < 0x7fff_0000 && (x.link.None? ==> SetterOk(x))
    && forall j {:trigger x.children[j]} :: 0 <= j < |x.children| ==> NameOk(x.children[j].name)
  }

  ghost predicate UserTree(u: NTree) {
    && Closed(Shape(u)) && OneEntry(u)
    && forall x: nat {:trigger UserNode(u[x])} :: x < |u| ==> UserNode(u[x])
  }

  lemma {:induction false} KidHas(u: NTree, p: nat, x: nat)
    requires IsKid(u, p, x)
    ensures p < |u| && x < |u| && u[x].link.None? && exists e :: e in u[p].children && e.node == x
  {
    OwnIn(Shape(u), Shape(u)[p].children);
    assert x in Targets(u[p].children);
    var j :| 0 <= j < |u[p].children| && Targets(u[p].children)[j] == x;
    assert u[p].children[j] in u[p].children;
  }

  /** Everyone has one parent. */
  lemma {:induction false} KidOnce(u: NTree, p: nat, p': nat, x: nat)
    requires OneEntry(u) && IsKid(u, p, x) && IsKid(u, p', x)
    ensures p == p'
  {
    KidHas(u, p, x);
    KidHas(u, p', x);
    var e :| e in u[p].children && e.node == x;
    var e' :| e' in u[p'].children && e'.node == x;
    assert IsChild(u, p, e) && IsChild(u, p', e');
  }

  // ---------- the passes ----------

  datatype RewriteError = Invalid | AttrRefused(s: SetError) | ChildRefused(a: AddError)

  /** Why a tree is refused: a node is not valid, a mark is in the way of an attribute, or memory is short. */
  ghost predicate Justified(u: NTree, e: RewriteError, ample: bool) {
    match e
    case Invalid => exists x: nat :: x < |u| && !Validated(u[x])
    case AttrRefused(s) =>
      if s == SetError.NoMemory then !ample else exists x: nat :: x < |u| && Clashes(u[x].xattrs)
    case ChildRefused(a) => a == AddError.NoMemory && !ample
  }

  ghost predicate ExtrasOk(ex: seq<Extra>) {
    forall x: nat {:trigger UserExtra(ex[x])} :: x < |ex| ==> UserExtra(ex[x])
  }

  /** The mode has a type, and the stub of a file fits into a block. */
  predicate Validated(x: TNode) {
    && E.FileType(x.mode) in {E.S_IFREG, E.S_IFDIR, E.S_IFLNK, E.S_IFBLK, E.S_IFCHR, E.S_IFSOCK, E.S_IFIFO}
    && (External(x) && x.body.size > 0 ==> ChunkCount(x.body.size) <= MAX_CHUNKS)
  }

  /** In numbers: one of the seven types, and an external file of at most 2^53 bytes, or of almost 2^64. */
  lemma {:induction false} ValidMeans(x: TNode)
    requires x.mode < 0x1_0000 && (x.body.External? ==> x.body.size < 0x1_0000_0000_0000_0000)
    ensures Validated(x) <==>
            && x.mode / 0x1000 in {1, 2, 4, 6, 8, 10, 12}
            && (x.mode / 0x1000 == 8 && x.body.External? ==>
                  x.body.size <= 0x20_0000_0000_0000 || x.body.size > 0xffff_f800_0000_0000)
  {
    if x.body.External? && x.body.size > 0 { ChunkLimit(x.body.size); }
  }

  lemma {:induction false} TalliedAt(u: NTree, t: NTree, sizes: seq<nat>, bases: seq<nat>, done: set<nat>, x: nat,
                                     y: TNode, size: nat, base: nat, done': set<nat>)
    requires AllTallied(u, t, sizes, bases, done) && x < |u| && Tallied(y.xattrs, size, base) && done + {x} == done'
    requires !Clashes(u[x].xattrs) ==> base == Total(EscapedList(u[x].xattrs))
    ensures AllTallied(u, t[x := y], sizes[x := size], bases[x := base], done')
  {
    var t', sizes', bases' := t[x := y], sizes[x := size], bases[x := base];
    forall k: nat | k < |u|
      ensures TallyAt(u, t', sizes', bases', done', k)
    {
      assert TallyAt(u, t, sizes, bases, done, k);
    }
  }

  lemma {:induction false} TalliedSame(u: NTree, t: NTree, sizes: seq<nat>, bases: seq<nat>, done: set<nat>, t': NTree)
    requires AllTallied(u, t, sizes, bases, done) && |t| <= |t'|
    requires forall k {:trigger t'[k]} :: 0 <= k < |u| ==> t'[k].xattrs == t[k].xattrs
    ensures AllTallied(u, t', sizes, bases, done)
  {
    forall k: nat | k < |u|
      ensures TallyAt(u, t', sizes, bases, done, k)
    {
      assert t'[k].xattrs == t[k].xattrs && TallyAt(u, t, sizes, bases, done, k);
    }
  }

  /** A directory that has been rewritten has room for the marks. */
  lemma {:induction false} MarkRoomAt(u: NTree, ex: seq<Extra>, version: nat, t: NTree, home: seq<(nat, bytes)>,
                                      done: set<nat>, told: set<nat>, p: nat)
    requires Progress(u, ex, version, t, home, done, told) && UserTree(u) && p in done && IsDir(u[p])
    ensures !Clashes(u[p].xattrs) ==>
              Roomy(t[p].xattrs, Total(EscapedList(u[p].xattrs)), DirMarks(version)) &&
              Roomy(t[p].xattrs, Total(EscapedList(u[p].xattrs)), [RootMark()])
  {
    assert NodeStep(u, ex, version, t, done, told, p) && UserNode(u[p]);
    if !Clashes(u[p].xattrs) {
      WrittenRoom(u[p].xattrs, t[p].xattrs, HasWhiteout(u, told, p), version);
    }
  }

  lemma {:induction false} OnlyParent(u: NTree, parent: nat, x: nat)
    requires OneEntry(u) && IsKid(u, parent, x)
    ensures forall k: nat {:trigger IsKid(u, k, x)} :: IsKid(u, k, x) <==> k == parent
  {
    forall k: nat
      ensures IsKid(u, k, x) <==> k == parent
    {
      if IsKid(u, k, x) { KidOnce(u, k, parent, x); }
    }
  }

  lemma {:induction false} ParentReady(u: NTree, ex: seq<Extra>, version: nat, t: NTree, home: seq<(nat, bytes)>,
                                       done: set<nat>, told: set<nat>, sizes: seq<nat>, bases: seq<nat>, p: nat)
    requires Progress(u, ex, version, t, home, done, told) && AllTallied(u, t, sizes, bases, done) && UserTree(u)
    requires p in done && IsDir(u[p])
    ensures p < |u| && |sizes| == |bases| == |u| <= |t| && Tallied(t[p].xattrs, sizes[p], bases[p])
    ensures !Clashes(u[p].xattrs) ==>
              bases[p] == Total(EscapedList(u[p].xattrs)) && Roomy(t[p].xattrs, bases[p], DirMarks(version))
  {
    assert TallyAt(u, t, sizes, bases, done, p);
    MarkRoomAt(u, ex, version, t, home, done, told, p);
  }

  lemma {:induction false} ParentTold(u: NTree, ex: seq<Extra>, version: nat, t: NTree, home: seq<(nat, bytes)>,
                                      done: set<nat>, told: set<nat>, sizes: seq<nat>, bases: seq<nat>, x: nat, p: nat,
                                      xs: seq<Xattr>, size: nat, base: nat)
    requires Progress(u, ex, version, t, home, done, told) && AllTallied(u, t, sizes, bases, done) && UserTree(u)
    requires x in done && WhiteoutNode(u[x]) && p in done && IsKid(u, p, x) && x != p
    requires Tallied(xs, size, base) && Items(xs) == PutAll(Items(t[p].xattrs), DirMarks(version))
    requires !Clashes(u[p].xattrs) ==> base == Total(EscapedList(u[p].xattrs))
    ensures var t' := t[p := t[p].(xattrs := xs)];
            && Progress(u, ex, version, t', home, done, told + {x})
            && AllTallied(u, t', sizes[p := size], bases[p := base], done)
  {
    OnlyParent(u, p, x);
    TellStep(u, ex, version, t, home, done, told, x, p, xs);
    TalliedAt(u, t, sizes, bases, done, p, t[p].(xattrs := xs), size, base, done);
  }

  /** A directory that the user gave `own` gets the marks for a whiteout in it. */
  method MarkDir(ghost own: seq<Xattr>, xs: seq<Xattr>, size: nat, ghost base: nat, version: nat, ample: bool)
    returns (error: Option<SetError>, xs': seq<Xattr>, size': nat, ghost base': nat)
    requires Tallied(xs, size, base)
    requires !Clashes(own) ==> base == Total(EscapedList(own)) && Roomy(xs, base, DirMarks(version))
    ensures error.Some? ==> if error.value == SetError.NoMemory then !ample else Clashes(own)
    ensures error.None? ==> Tallied(xs', size', base') && Items(xs') == PutAll(Items(xs), DirMarks(version))
    ensures error.None? && !Clashes(own) ==> base' == Total(EscapedList(own))
  {
    error, xs', size', base' := SetAll(xs, size, base, DirMarks(version), ample);
  }

  /** The attributes of one node are escaped and its marks added; a whiteout becomes a file. */
  method MarkNode(node: TNode, e: Extra, ghost version: nat, size: nat, ghost base: nat, ample: bool)
    returns (error: Option<RewriteError>, y: TNode, size': nat, ghost base': nat)
    requires UserNode(node) && UserExtra(e) && Tallied(node.xattrs, size, base) && base == Total(node.xattrs)
    ensures error == Some(Invalid) <==> !Validated(node)
    ensures error.Some? && error != Some(Invalid) ==>
              error.value.AttrRefused? && if error.value.s == SetError.NoMemory then !ample else Clashes(node.xattrs)
    ensures error.None? ==> DataDone(node, e, y, false, version, false) && y.children == node.children
    ensures error.None? ==> Tallied(y.xattrs, size', base')
    ensures error.None? && !Clashes(node.xattrs) ==> base' == Total(EscapedList(node.xattrs))
  {
    y, size', base' := node, size, base;
    if !Validated(node) { return Some(Invalid), y, size', base'; }
    var ys;
    ys, base' := EscapeIn(node.xattrs, size, base);
    assert ys == EscapedList(node.xattrs);
    if !Clashes(node.xattrs) { OwnRoom(node.xattrs, External(node), WhiteoutNode(node), e); }
    var s, zs;
    s, zs, size', base' := SetAll(ys, size, base', Marks(node, e), ample);
    if s.Some? { return Some(AttrRefused(s.value)), y, size', base'; }
    y := node.(mode := NewMode(node), body := NewBody(node), xattrs := zs);
    error := None;
  }

  /** How things stood before the first child was looked at; `d0` is from before the directory was entered. */
  datatype Start = Start(d0: set<nat>, d1: set<nat>, t1: NTree, h1: seq<(nat, bytes)>, list: seq<Entry>)

  class Rewriter {
    const u: NTree
    const ex: seq<Extra>
    const ample: bool
    const version: nat
    var t: NTree
    var sizes: seq<nat>
    ghost var bases: seq<nat>
    ghost var home: seq<(nat, bytes)>
    ghost var done: set<nat>
    ghost var told: set<nat>

    ghost predicate Valid()
      reads this
    {
      Progress(u, ex, version, t, home, done, told) && AllTallied(u, t, sizes, bases, done)
    }

    ghost function Undone(): set<nat>
      reads this
    {
      set y: nat | y < |u| && y !in done
    }

    /** A copy of the tree counts its attributes from zero. */
    constructor (u: NTree, ex: seq<Extra>, version: nat, ample: bool)
      requires UserTree(u) && |ex| == |u|
      ensures this.u == u && this.ex == ex && this.version == version && Valid() && done == {} && told == {}
      ensures home == [] && this.ample == ample
    {
      this.u, this.ex, this.version, this.ample, t := u, ex, version, ample, u;
      sizes, bases := seq(|u|, _ => 0), seq(|u|, i requires 0 <= i < |u| => Total(u[i].xattrs));
      home, done, told := [], {}, {};
      new;
      StartTallied(u, sizes, bases);
      StartProgress(u, ex, version);
    }

    /** Escapes the attributes of a node, adds its marks and turns a whiteout into a file. */
    method RewriteOwn(x: nat) returns (error: Option<RewriteError>)
      requires Valid() && UserTree(u) && ExtrasOk(ex) && x < |u| && x !in done && !HasWhiteout(u, told, x)
      modifies this
      ensures error.Some? ==> Justified(u, error.value, ample)
      ensures error.None? ==> Valid() && done == old(done) + {x} && told == old(told) && |t| == |old(t)|
      ensures error.None? ==> forall k {:trigger t[k]} :: 0 <= k < |t| ==> t[k].children == old(t)[k].children
      ensures error.None? ==> Validated(u[x]) && home == old(home)
    {
      assert t[x] == u[x] by { assert NodeStep(u, ex, version, t, done, told, x); }
      assert UserNode(u[x]) && UserExtra(ex[x]) && TallyAt(u, t, sizes, bases, done, x);
      var y, size;
      ghost var base;
      error, y, size, base := MarkNode(t[x], ex[x], version, sizes[x], bases[x], ample);
      if error.Some? { return; }
      EnterStep(u, ex, version, t, home, done, told, x, y);
      TalliedAt(u, t, sizes, bases, done, x, y, size, base, done + {x});
      t, sizes, bases, done := t[x := y], sizes[x := size], bases[x := base], done + {x};
    }

    /** Marks the directory a whiteout is in. */
    method TellParent(x: nat, parent: nat) returns (error: Option<RewriteError>)
      requires Valid() && UserTree(u) && x in done && WhiteoutNode(u[x])
      requires parent in done && IsKid(u, parent, x) && x != parent && IsDir(u[parent])
      modifies this
      ensures error.Some? ==> Justified(u, error.value, ample)
      ensures error.None? ==> Valid() && done == old(done) && told == old(told) + {x} && |t| == |old(t)|
      ensures error.None? ==> home == old(home)
      ensures error.None? ==> forall k {:trigger t[k]} :: 0 <= k < |t| ==> t[k].children == old(t)[k].children
    {
      ParentReady(u, ex, version, t, home, done, told, sizes, bases, parent);
      var e, xs, size;
      ghost var base;
      e, xs, size, base := MarkDir(u[parent].xattrs, t[parent].xattrs, sizes[parent], bases[parent], version, ample);
      if e.Some? { return Some(AttrRefused(e.value)); }
      ParentTold(u, ex, version, t, home, done, told, sizes, bases, x, parent, xs, size, base);
      t, sizes := t[parent := t[parent].(xattrs := xs)], sizes[parent := size];
      bases, told := bases[parent := base], told + {x};
      return None;
    }

    /** Reports a whiteout to the directory it is in. */
    method Tell(x: nat, parent: nat) returns (error: Option<RewriteError>)
      requires Valid() && UserTree(u) && x in done
      requires WhiteoutNode(u[x]) ==> parent in done && IsKid(u, parent, x) && x != parent && IsDir(u[parent])
      modifies this
      ensures error.Some? ==> Justified(u, error.value, ample)
      ensures error.None? ==> Valid() && done == old(done) && told == old(told) + {x} && |t| == |old(t)|
      ensures error.None? ==> home == old(home)
      ensures error.None? ==> forall k {:trigger t[k]} :: 0 <= k < |t| ==> t[k].children == old(t)[k].children
    {
      if !WhiteoutNode(u[x]) {
        QuietStep(u, ex, version, t, home, done, told, x);
        told := told + {x};
        return None;
      }
      error := TellParent(x, parent);
    }

    /** Adds an entry for a directory itself or its parent. */
    method AddNewDot(x: nat, name: bytes, target: nat) returns (error: Option<RewriteError>)
      requires Valid() && x in done && IsDir(u[x]) && IsDot(name) && target in done && IsDir(u[target])
      requires u[target].link.None? && x < |t| && target < |t| && Sorted(t[x].children) && !Has(t[x].children, name)
      requires (name == [46] && target == x) || (name == [46, 46] && IsAbove(u, target, x))
      modifies this
      ensures error.Some? ==> Justified(u, error.value, ample)
      ensures error.None? ==> Valid() && done == old(done) && told == old(told) && |home| == |old(home)| + 1
      ensures error.None? ==>
                exists list ::
                  AddedTo(old(t)[x].children, Entry(name, |old(t)|), list) && t == WithDot(old(t), x, list, target)
    {
      var e, list := AddTo(true, t[x].children, false, Entry(name, |t|), ample);
      if e.Some? { return Some(ChildRefused(e.value)); }
      DotStep(u, ex, version, t, home, done, told, x, name, list, target);
      TalliedSame(u, t, sizes, bases, done, WithDot(t, x, list, target));
      var t1 := t[x := t[x].(children := list)];
      t := t1[target := t1[target].(nlink := (t1[target].nlink + 1) % 0x1_0000_0000)] + [LinkNode(target)];
      home := home + [(x, name)];
      return None;
    }

    /** Makes sure that a directory has an entry for itself or its parent. */
    method AddDot(x: nat, name: bytes, target: nat) returns (error: Option<RewriteError>)
      requires Valid() && x in done && IsDir(u[x]) && IsDot(name) && target in done && IsDir(u[target])
      requires u[target].link.None?
      requires (name == [46] && target == x) || (name == [46, 46] && IsAbove(u, target, x))
      modifies this
      ensures error.Some? ==> Justified(u, error.value, ample)
      ensures error.None? ==> Valid() && done == old(done) && told == old(told) && |old(t)| <= |t|
      ensures error.None? ==> Has(t[x].children, name) && |home| <= |old(home)| + 1
      ensures error.None? ==>
                forall k {:trigger t[k]} :: 0 <= k < |old(t)| && k != x ==> t[k].children == old(t)[k].children
      ensures error.None? ==> forall n: bytes :: Has(old(t)[x].children, n) ==> Has(t[x].children, n)
    {
      assert NodeStep(u, ex, version, t, done, told, x);
      var found, pos := BSearch(t[x].children, name);
      if found { return None; }
      SplitLacks(t[x].children, name, pos);
      ghost var before := t;
      error := AddNewDot(x, name, target);
      if error.None? {
        ghost var list :| AddedTo(before[x].children, Entry(name, |before|), list)
          && t == WithDot(before, x, list, target);
        AddedNames(before[x].children, Entry(name, |before|), list);
        DotShape(before, x, list, target);
      }
    }

    /** A node itself, and what its directory is told. */
    method RewriteHere(x: nat, parent: nat, ghost root: nat) returns (error: Option<RewriteError>)
      requires Valid() && UserTree(u) && ExtrasOk(ex) && told == done && x < |u| && IsRoot(u, root)
      requires Rooted(u, root, done) && x !in done && Under(u, root, done, x, parent)
      modifies this
      ensures error.Some? ==> Justified(u, error.value, ample)
      ensures error.None? ==> Valid() && told == done == old(done) + {x} && |old(t)| == |t|
      ensures error.None? ==> forall k {:trigger t[k]} :: 0 <= k < |t| ==> t[k].children == old(t)[k].children
      ensures error.None? ==> Validated(u[x]) && home == old(home)
    {
      NoKidsDone(u, root, done, x);
      error := RewriteOwn(x);
      if error.Some? { return; }
      error := Tell(x, parent);
    }

    /** Entries for a directory itself and its parent. */
    method AddDots(x: nat, parent: nat) returns (error: Option<RewriteError>)
      requires Valid() && x in done && IsDir(u[x]) && u[x].link.None?
      requires parent in done && IsDir(u[parent]) && u[parent].link.None? && IsAbove(u, parent, x)
      modifies this
      ensures error.Some? ==> Justified(u, error.value, ample)
      ensures error.None? ==> Valid() && done == old(done) && told == old(told) && |old(t)| <= |t|
      ensures error.None? ==> HasDots(t[x].children) && |home| <= |old(home)| + 2
      ensures error.None? ==>
                forall k {:trigger t[k]} :: 0 <= k < |old(t)| && k != x ==> t[k].children == old(t)[k].children
    {
      error := AddDot(x, [46], x);
      if error.Some? { return; }
      error := AddDot(x, [46, 46], parent);
    }

    /** A node and what a directory gets before its children are looked at. */
    method Enter(x: nat, parent: nat, ghost root: nat) returns (error: Option<RewriteError>)
      requires Valid() && UserTree(u) && ExtrasOk(ex) && told == done && x < |u| && u[x].link.None? && IsRoot(u, root)
      requires Rooted(u, root, done) && x !in done && Under(u, root, done, x, parent)
      modifies this
      ensures error.Some? ==> Justified(u, error.value, ample)
      ensures error.None? ==> Valid() && told == done == old(done) + {x} && |old(t)| <= |t|
      ensures error.None? ==> ChildrenKept(old(done), old(t), t)
      ensures error.None? ==> Validated(u[x]) && (IsDir(u[x]) ==> HasDots(t[x].children))
      ensures error.None? ==> Room(old(home), old(done), home, done)
    {
      error := RewriteHere(x, parent, root);
      if error.Some? || !IsDir(u[x]) { return; }
      error := AddDots(x, parent);
    }

    /** What holds while the children of `x` are looked at. */
    ghost predicate Looking(x: nat, root: nat, s: Start, i: nat)
      reads this
    {
      match s
      case Start(d0, d1, t1, h1, list) =>
        && Valid() && told == done && x !in d0 && d1 == d0 + {x} <= done && t[x].children == list
        && Rooted(u, root, done) && FromUser(u, x, list) && Looked(u, t, d1, done, list, i)
        && ChildrenKept(d1, t1, t) && Room(h1, d1, home, done)
    }

    /** One child. */
    method Next(x: nat, parent: nat, list: seq<Entry>, i: nat, ghost root: nat, ghost s: Start)
      returns (error: Option<RewriteError>)
      requires UserTree(u) && ExtrasOk(ex) && IsRoot(u, root) && Looking(x, root, s, i) && s.list == list && i < |list|
      requires Rooted(u, root, s.d0) && Under(u, root, s.d0, x, parent) && u[x].link.None? && IsDir(u[x])
      modifies this
      ensures error.Some? ==> Justified(u, error.value, ample)
      ensures error.None? ==> Looking(x, root, s, i + 1)
      decreases Undone(), 2
    {
      var c := list[i].node;
      ghost var before, tb := done, t;
      ProgressBounds(u, ex, version, t, home, done, x, list, i);
      if t[c].link.Some? {
        if c < |u| { LinkKept(u, ex, version, t, home, done, c); }
        LookedPast(u, t, s.d1, done, list, i);
        return None;
      }
      ChildIsKid(u, ex, version, t, home, done, x, list[i]);
      NotDoneYet(u, root, s.d0, s.d1, done, x, parent, list, i, t);
      error := RewriteNode(c, x, root);
      if error.Some? { return; }
      LookedOn(u, tb, t, s.d1, before, done, list, i);
    }

    /** The children of a directory that has just been entered. */
    method RewriteChildren(x: nat, parent: nat, ghost root: nat, ghost d0: set<nat>)
      returns (error: Option<RewriteError>)
      requires UserTree(u) && ExtrasOk(ex) && IsRoot(u, root) && Valid() && told == done == d0 + {x} && x !in d0
      requires x < |u|
      requires Rooted(u, root, d0) && Under(u, root, d0, x, parent) && u[x].link.None? && IsDir(u[x])
      requires Validated(u[x]) && HasDots(t[x].children)
      modifies this
      ensures error.Some? ==> Justified(u, error.value, ample)
      ensures error.None? ==> Valid() && told == done && d0 + {x} <= done && Rooted(u, root, done)
      ensures error.None? ==> New(u, t, d0, done, x) && Room(old(home), old(done), home, done)
      ensures error.None? ==> ChildrenKept(old(done), old(t), t)
      decreases Undone(), 4
    {
      var list := t[x].children;
      ghost var s := Start(d0, done, t, home, list);
      StartLooking(x, parent, root, d0);
      error := Walk(x, parent, list, root, s);
      if error.None? { EndLooking(x, root, s); }
    }

    method Walk(x: nat, parent: nat, list: seq<Entry>, ghost root: nat, ghost s: Start)
      returns (error: Option<RewriteError>)
      requires UserTree(u) && ExtrasOk(ex) && IsRoot(u, root) && Looking(x, root, s, 0)
      requires s.list == list && s.d1 == done
      requires Rooted(u, root, s.d0) && Under(u, root, s.d0, x, parent) && u[x].link.None? && IsDir(u[x])
      modifies this
      ensures error.Some? ==> Justified(u, error.value, ample)
      ensures error.None? ==> Looking(x, root, s, |list|)
      decreases Undone(), 3
    {
      var i := 0;
      while i < |list|
        invariant i <= |list| && Looking(x, root, s, i)
      {
        error := Next(x, parent, list, i, root, s);
        if error.Some? { return; }
        i := i + 1;
      }
      error := None;
    }

    lemma {:induction false} StartLooking(x: nat, parent: nat, root: nat, d0: set<nat>)
      requires Valid() && told == done == d0 + {x} && x !in d0 && x < |u|
      requires Rooted(u, root, d0) && Under(u, root, d0, x, parent)
      ensures Looking(x, root, Start(d0, done, t, home, t[x].children), 0)
    {
      RootedMore(u, root, d0, x, parent);
      ListFromUser(u, ex, version, t, home, done, x);
      KeptSame(u, ex, version, t, home, done);
    }

    lemma {:induction false} EndLooking(x: nat, root: nat, s: Start)
      requires UserTree(u) && IsRoot(u, root) && Looking(x, root, s, |s.list|)
      requires Validated(u[x]) && HasDots(s.list)
      ensures New(u, t, s.d0, done, x)
    {
      KeepsOwn(u, ex, version, t, home, done, x);
      AllLooked(u, root, t, s.d0, s.d1, done, x, s.list);
    }

    /** A node and everything below it. */
    method RewriteNode(x: nat, parent: nat, ghost root: nat) returns (error: Option<RewriteError>)
      requires Valid() && UserTree(u) && ExtrasOk(ex) && told == done && x < |u| && u[x].link.None? && IsRoot(u, root)
      requires Rooted(u, root, done) && x !in done && Under(u, root, done, x, parent)
      modifies this
      ensures error.Some? ==> Justified(u, error.value, ample)
      ensures error.None? ==> Valid() && told == done && old(done) + {x} <= done && Rooted(u, root, done)
      ensures error.None? ==> New(u, t, old(done), done, x) && Room(old(home), old(done), home, done)
      ensures error.None? ==> ChildrenKept(old(done), old(t), t)
      decreases Undone(), 1
    {
      ghost var d0, before := done, Undone();
      error := Enter(x, parent, root);
      if error.Some? { return; }
      if IsDir(u[x]) {
        assert x in before && x !in Undone();
        error := RewriteChildren(x, parent, root, d0);
      } else {
        RootedMore(u, root, d0, x, parent);
      }
    }
  }

  /** No more than two new nodes for each one that was rewritten. */
  ghost predicate Room(home: seq<(nat, bytes)>, done: set<nat>, home': seq<(nat, bytes)>, done': set<nat>) {
    |home'| + 2 * |done| <= |home| + 2 * |done'|
  }

  ghost predicate ChildrenKept(done: set<nat>, t: NTree, t': NTree) {
    forall k {:trigger k in done} :: k in done ==> k < |t| <= |t'| && t'[k].children == t[k].children
  }

  ghost predicate IsRoot(u: NTree, root: nat) {
    && root < |u| && u[root].link.None? && IsDir(u[root])
    && forall p: nat {:trigger IsKid(u, p, root)} :: !IsKid(u, p, root)
  }

  /** Every node that was rewritten was reached through its parent. */
  ghost predicate Rooted(u: NTree, root: nat, done: set<nat>) {
    forall y {:trigger HasUp(u, root, done, y)} :: y in done ==> HasUp(u, root, done, y)
  }

  ghost predicate HasUp(u: NTree, root: nat, done: set<nat>, y: nat) {
    y == root || exists p :: p in done && IsKid(u, p, y) && p < |u| && IsDir(u[p])
  }

  ghost predicate Under(u: NTree, root: nat, done: set<nat>, x: nat, parent: nat) {
    if x == root then parent == x else
    parent in done && parent < |u| && IsDir(u[parent]) && IsKid(u, parent, x) && u[parent].link.None?
  }

  ghost predicate HasDots(list: seq<Entry>) { Has(list, [46]) && Has(list, [46, 46]) }

  lemma {:induction false} NoKidsDone(u: NTree, root: nat, done: set<nat>, x: nat)
    requires UserTree(u) && IsRoot(u, root) && Rooted(u, root, done) && x !in done
    ensures !HasWhiteout(u, done, x) && forall c {:trigger c in done} :: c in done ==> !IsKid(u, x, c)
  {
    forall c | c in done
      ensures !IsKid(u, x, c)
    {
      if IsKid(u, x, c) {
        assert HasUp(u, root, done, c);
        var p :| p in done && IsKid(u, p, c);
        KidOnce(u, p, x, c);
      }
    }
  }

  lemma {:induction false} RootedMore(u: NTree, root: nat, done: set<nat>, x: nat, parent: nat)
    requires Rooted(u, root, done) && Under(u, root, done, x, parent)
    ensures Rooted(u, root, done + {x})
  {
    forall y | y in done + {x}
      ensures HasUp(u, root, done + {x}, y)
    {
      if y != root {
        if y == x {
          assert parent in done + {x};
        } else {
          assert HasUp(u, root, done, y);
          var p :| p in done && IsKid(u, p, y) && p < |u| && IsDir(u[p]);
          assert p in done + {x};
        }
      }
    }
  }

  /** Node `y`, now `node`, has been rewritten with all that is below it. */
  ghost predicate Finished(u: NTree, node: TNode, done: set<nat>, y: nat)
    requires y < |u|
  {
    && Validated(u[y])
    && (IsDir(u[y]) ==>
          HasDots(node.children) && forall c {:trigger IsKid(u, y, c)} :: IsKid(u, y, c) ==> c in done)
  }

  /** What was rewritten at and below `x`. */
  ghost predicate New(u: NTree, t: NTree, d0: set<nat>, done: set<nat>, x: nat) {
    && (forall y {:trigger y in done} :: y in done && y !in d0 ==>
          y < |u| <= |t| && Finished(u, t[y], done, y)
          && (y == x || exists p :: p in done && p !in d0 && IsKid(u, p, y)))
  }

  /** The first `i` children have been looked at; `d1` was there before. */
  ghost predicate Looked(u: NTree, t: NTree, d1: set<nat>, done: set<nat>, list: seq<Entry>, i: nat) {
    && i <= |list|
    && (forall j {:trigger list[j]} :: 0 <= j < i && list[j].node < |u| && u[list[j].node].link.None? ==>
          list[j].node in done)
    && (forall y {:trigger y in done} :: y in done && y !in d1 ==>
          y < |u| <= |t| && Finished(u, t[y], done, y)
          && ((exists p :: p in done && p !in d1 && IsKid(u, p, y)) || exists j :: 0 <= j < i && list[j].node == y))
  }

  lemma {:induction false} AddedNames(list: seq<Entry>, e: Entry, list': seq<Entry>)
    requires AddedTo(list, e, list')
    ensures Has(list', e.name) && forall n: bytes :: Has(list, n) ==> Has(list', n)
  {
    AddedMembers(list, e, list', e);
    var i :| 0 <= i < |list'| && list'[i] == e;
    forall n: bytes | Has(list, n)
      ensures Has(list', n)
    {
      var k :| 0 <= k < |list| && list[k].name == n;
      AddedMembers(list, e, list', list[k]);
      var j :| 0 <= j < |list'| && list'[j] == list[k];
    }
  }

  lemma {:induction false} StartTallied(u: NTree, sizes: seq<nat>, bases: seq<nat>)
    requires UserTree(u) && sizes == seq(|u|, _ => 0)
    requires bases == seq(|u|, i requires 0 <= i < |u| => Total(u[i].xattrs))
    ensures AllTallied(u, u, sizes, bases, {})
  {
    forall y: nat | y < |u|
      ensures TallyAt(u, u, sizes, bases, {}, y)
    {
      assert UserNode(u[y]);
    }
  }

  lemma {:induction false} StartProgress(u: NTree, ex: seq<Extra>, version: nat)
    requires UserTree(u) && |ex| == |u|
    ensures Progress(u, ex, version, u, [], {}, {})
  {
    forall x: nat | x < |u|
      ensures NodeStep(u, ex, version, u, {}, {}, x) && Homed(|u|, u, [], x)
    {
      forall e | e in u[x].children
        ensures e.node < |u|
      {
        var j :| 0 <= j < |u[x].children| && u[x].children[j] == e;
        assert Targets(u[x].children)[j] in Shape(u)[x].children;
      }
    }
  }

  // ---------- steps of the walk ----------

  /** A child that is not a link is one of the user's. */
  lemma {:induction false} ChildIsKid(u: NTree, ex: seq<Extra>, version: nat, t: NTree, home: seq<(nat, bytes)>,
                                      done: set<nat>, x: nat, e: Entry)
    requires Progress(u, ex, version, t, home, done, done) && UserTree(u) && x in done && e in t[x].children
    requires e.node < |t| && t[e.node].link.None?
    ensures e.node < |u| && u[e.node].link.None? && e in u[x].children && IsKid(u, x, e.node)
  {
    assert NodeStep(u, ex, version, t, done, done, x);
    assert e.node >= |u| ==> IsDotLink(u, t[e.node]);
    assert e in u[x].children;
    assert NodeStep(u, ex, version, t, done, done, e.node);
    var j :| 0 <= j < |u[x].children| && u[x].children[j] == e;
    assert Targets(u[x].children)[j] == e.node;
    OwnHas(Shape(u), Targets(u[x].children), e.node);
  }

  lemma {:induction false} OwnHas(s: Tree, cs: seq<nat>, c: nat)
    requires c in cs && c < |s| && s[c].link.None?
    ensures c in Own(s, cs)
  {
    var n := |cs| - 1;
    if cs[n] != c {
      assert c in cs[..n];
      OwnHas(s, cs[..n], c);
    }
  }

  /** Entries that lead to a node of the user are the user's. */
  ghost predicate FromUser(u: NTree, x: nat, list: seq<Entry>) {
    && x < |u| && Sorted(list)
    && forall j {:trigger list[j]} :: 0 <= j < |list| && list[j].node < |u| ==> list[j] in u[x].children
  }

  lemma {:induction false} ListFromUser(u: NTree, ex: seq<Extra>, version: nat, t: NTree, home: seq<(nat, bytes)>,
                                        done: set<nat>, x: nat)
    requires Progress(u, ex, version, t, home, done, done) && x in done
    ensures FromUser(u, x, t[x].children)
  {
    assert NodeStep(u, ex, version, t, done, done, x);
    var list := t[x].children;
    forall j | 0 <= j < |list| && list[j].node < |u|
      ensures list[j] in u[x].children
    {
      assert list[j] in t[x].children;
    }
  }

  lemma {:induction false} NotDoneYet(u: NTree, root: nat, d0: set<nat>, d1: set<nat>, done: set<nat>, x: nat,
                                      parent: nat, list: seq<Entry>, i: nat, t: NTree)
    requires UserTree(u) && IsRoot(u, root) && Rooted(u, root, d0) && x !in d0 && d1 == d0 + {x}
    requires Under(u, root, d0, x, parent) && Looked(u, t, d1, done, list, i) && i < |list| && FromUser(u, x, list)
    requires list[i] in u[x].children && IsKid(u, x, list[i].node)
    ensures list[i].node !in done
  {
    var c := list[i].node;
    NoKidsDone(u, root, d0, x);
    if c == x {
      if x != root { KidOnce(u, parent, x, x); }
    }
    KidHas(u, x, c);
    if c in done && c !in d1 {
      if p :| p in done && p !in d1 && IsKid(u, p, c) {
        KidOnce(u, p, x, c);
      } else {
        var j :| 0 <= j < i && list[j].node == c;
        SameEntry(u, x, list, j, i);
      }
    }
  }

  lemma {:induction false} SameEntry(u: NTree, x: nat, list: seq<Entry>, i: nat, j: nat)
    requires OneEntry(u) && FromUser(u, x, list) && i < |list| && j < |list| && list[i].node == list[j].node < |u|
    ensures i == j
  {
    assert IsChild(u, x, list[i]) && IsChild(u, x, list[j]);
    if i < j {
      LessIrreflexive(list[i].name);
    } else if j < i {
      LessIrreflexive(list[i].name);
    }
  }

  lemma {:induction false} LookedOn(u: NTree, t: NTree, t': NTree, d1: set<nat>, before: set<nat>, done: set<nat>,
                                    list: seq<Entry>, i: nat)
    requires Looked(u, t, d1, before, list, i) && i < |list| && New(u, t', before, done, list[i].node) && |u| <= |t'|
    requires d1 <= before <= done && list[i].node in done
    requires ChildrenKept(before, t, t')
    ensures Looked(u, t', d1, done, list, i + 1)
  {
    forall y | y in done && y !in d1
      ensures y < |u| <= |t'| && Finished(u, t'[y], done, y)
      ensures (exists p :: p in done && p !in d1 && IsKid(u, p, y)) || exists j :: 0 <= j < i + 1 && list[j].node == y
    {
      if y in before {
        if p :| p in before && p !in d1 && IsKid(u, p, y) {
          assert p in done;
        } else {
          var j :| 0 <= j < i && list[j].node == y;
        }
      } else if y != list[i].node {
        var p :| p in done && p !in before && IsKid(u, p, y);
        assert p !in d1;
      }
    }
  }

  lemma {:induction false} LookedPast(u: NTree, t: NTree, d1: set<nat>, done: set<nat>, list: seq<Entry>, i: nat)
    requires Looked(u, t, d1, done, list, i) && i < |list|
    requires list[i].node < |u| ==> u[list[i].node].link.Some?
    ensures Looked(u, t, d1, done, list, i + 1)
  {
    forall y | y in done && y !in d1
      ensures (exists p :: p in done && p !in d1 && IsKid(u, p, y)) || exists j :: 0 <= j < i + 1 && list[j].node == y
    {
      if !(exists p :: p in done && p !in d1 && IsKid(u, p, y)) {
        var j :| 0 <= j < i && list[j].node == y;
      }
    }
  }

  lemma {:induction false} ProgressBounds(u: NTree, ex: seq<Extra>, version: nat, t: NTree, home: seq<(nat, bytes)>,
                                          done: set<nat>, x: nat, list: seq<Entry>, i: nat)
    requires Progress(u, ex, version, t, home, done, done) && x in done && list == t[x].children && i < |list|
    ensures list[i].node < |t| && forall k {:trigger k in done} :: k in done ==> k < |u| <= |t|
  {
    assert Homed(|u|, t, home, x);
    assert list[i] in t[x].children;
  }

  lemma {:induction false} KeptSame(u: NTree, ex: seq<Extra>, version: nat, t: NTree, home: seq<(nat, bytes)>,
                                    done: set<nat>)
    requires Progress(u, ex, version, t, home, done, done)
    ensures ChildrenKept(done, t, t)
  {
  }

  lemma {:induction false} KeepsOwn(u: NTree, ex: seq<Extra>, version: nat, t: NTree, home: seq<(nat, bytes)>,
                                    done: set<nat>, x: nat)
    requires Progress(u, ex, version, t, home, done, done) && x in done
    ensures forall e {:trigger e in u[x].children} :: e in u[x].children ==> e in t[x].children
  {
    assert NodeStep(u, ex, version, t, done, done, x);
  }

  lemma {:induction false} LinkKept(u: NTree, ex: seq<Extra>, version: nat, t: NTree, home: seq<(nat, bytes)>,
                                    done: set<nat>, c: nat)
    requires Progress(u, ex, version, t, home, done, done) && c < |u|
    ensures t[c].link == u[c].link
  {
    assert NodeStep(u, ex, version, t, done, done, c);
  }

  /** All children of `x` have been looked at. */
  lemma {:induction false} AllLooked(u: NTree, root: nat, t: NTree, d0: set<nat>, d1: set<nat>, done: set<nat>, x: nat,
                                     list: seq<Entry>)
    requires UserTree(u) && IsRoot(u, root) && Rooted(u, root, done) && d1 == d0 + {x} <= done && x !in d0
    requires Looked(u, t, d1, done, list, |list|) && FromUser(u, x, list) && |u| <= |t|
    requires forall e {:trigger e in u[x].children} :: e in u[x].children ==> e in list
    requires Validated(u[x]) && HasDots(t[x].children)
    ensures New(u, t, d0, done, x)
  {
    forall c | IsKid(u, x, c)
      ensures c in done
    {
      KidLooked(u, t, d1, done, x, list, c);
    }
    assert Finished(u, t[x], done, x);
    forall y | y in done && y !in d0 && y != x
      ensures exists p :: p in done && p !in d0 && IsKid(u, p, y)
    {
      ParentNew(u, root, t, d0, d1, done, x, list, y);
    }
  }

  lemma {:induction false} ParentNew(u: NTree, root: nat, t: NTree, d0: set<nat>, d1: set<nat>, done: set<nat>, x: nat,
                                     list: seq<Entry>, y: nat)
    requires UserTree(u) && IsRoot(u, root) && Rooted(u, root, done) && d1 == d0 + {x} <= done && x !in d0
    requires Looked(u, t, d1, done, list, |list|) && FromUser(u, x, list) && y in done && y !in d1
    ensures exists p :: p in done && p !in d0 && IsKid(u, p, y)
  {
    if p :| p in done && p !in d1 && IsKid(u, p, y) {
      assert p !in d0;
    } else {
      var j :| 0 <= j < |list| && list[j].node == y;
      EntryIsKid(u, root, done, x, list[j]);
      assert x in done;
    }
  }

  lemma {:induction false} KidLooked(u: NTree, t: NTree, d1: set<nat>, done: set<nat>, x: nat, list: seq<Entry>, c: nat)
    requires UserTree(u) && Looked(u, t, d1, done, list, |list|) && IsKid(u, x, c) && x < |u|
    requires forall e {:trigger e in u[x].children} :: e in u[x].children ==> e in list
    ensures c in done
  {
    KidHas(u, x, c);
    var e :| e in u[x].children && e.node == c;
    var j :| 0 <= j < |list| && list[j] == e;
  }

  lemma {:induction false} EntryIsKid(u: NTree, root: nat, done: set<nat>, x: nat, e: Entry)
    requires UserTree(u) && IsRoot(u, root) && Rooted(u, root, done) && e.node in done && x < |u| && e in u[x].children
    requires e.node < |u|
    ensures IsKid(u, x, e.node)
  {
    if e.node != root {
      assert HasUp(u, root, done, e.node);
      var p :| p in done && IsKid(u, p, e.node);
      KidHas(u, p, e.node);
    }
    var j :| 0 <= j < |u[x].children| && u[x].children[j] == e;
    assert Targets(u[x].children)[j] == e.node;
    OwnHas(Shape(u), Targets(u[x].children), e.node);
  }
}
