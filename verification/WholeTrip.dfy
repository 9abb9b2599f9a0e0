/** A user's tree is rewritten, laid out, written, opened and loaded: one run of everything. */
module WholeTrip {
  import opened Common
  import opened Bytes
  import opened Children
  import opened Overlay
  import opened NameFilter
  import opened LevelLists
  import opened HardLinks
  import opened TreeOrder
  import opened NamedTree
  import opened Rewriting
  import opened RewrittenTree
  import opened UserImage
  import opened UserRoundTrip
  import opened Whiteouts
  import opened ErofsImage
  import opened ImageWriter
  import opened TreeFormat
  import L = TreeLoader
  import E = ErofsNode
  import B = TreeComesBack
  import W = WrittenTree
  import R = TreeRoundTrip
  import S = Superblock
  import Loader

  datatype TripError = NotRewritten(r: RewriteError) | NotListed(t: TreeError) | TooLarge | TooManyAttributes |
                       NotOpened(s: S.LoadError) | NotLoaded(l: L.LoadError)

  // ---------- the rewritten tree meets what the passes need ----------

  lemma {:induction false} LinkToWhiteout(u: NTree, ex: seq<Extra>, version: nat, root: nat, t: NTree,
                                          home: seq<(nat, bytes)>, done: set<nat>, e: Entry, y: nat)
    requires Remade(u, ex, version, root, t, home, done) && Closed(Shape(t)) && OnList(u, t, done, y)
    requires e.node < |t| && y < |t| && EndsAt(Shape(t), e.node, y) && WhiteoutNode(t[y])
    ensures e.node == y
  {
    if y in done { SameKind(u, ex, version, root, t, home, done, y); }
    if e.node < |u| {
      EndSame(u, ex, version, root, t, home, done, e.node, y);
    } else {
      NewEnds(u, ex, version, root, t, home, done, e.node, y);
    }
  }

  /** Only the writer's own whiteouts are written as such, and each of them has one name. */
  lemma {:induction false} RewrittenIsNeat(u: NTree, ex: seq<Extra>, version: nat, root: nat, t: NTree,
                                           home: seq<(nat, bytes)>, done: set<nat>, q: seq<nat>)
    requires Remade(u, ex, version, root, t, home, done) && Closed(Shape(t))
    requires forall k {:trigger q[k]} :: 0 <= k < |q| ==> OnList(u, t, done, q[k])
    ensures R.Neat(t, q)
  {
    StillOneEntry(u, ex, version, root, t, home, done);
    forall x | 0 <= x < |t|
      ensures Sorted(t[x].children)
    {
      StillSorted(u, ex, version, root, t, home, done, x);
    }
    forall x: nat, e, y: nat | x in q && IsChild(t, x, e) && y in q && e.node < |t| && EndsAt(Shape(t), e.node, y) &&
                               WhiteoutNode(t[y])
      ensures e.node == y
    {
      LinkToWhiteout(u, ex, version, root, t, home, done, e, y);
    }
  }

  lemma {:induction false} PlanArranged(u: NTree, ex: seq<Extra>, version: nat, root: nat, t: NTree,
                                        home: seq<(nat, bytes)>, done: set<nat>, filter: W.Filter, q: seq<nat>,
                                        sec: int, nsec: nat, acl: bool, inodes: seq<E.Inode>, p: Plan)
    requires Remade(u, ex, version, root, t, home, done) && Acceptable(Shape(t), root)
    requires W.Planning(t, root, filter, q, sec, nsec, acl, inodes, p)
    ensures Arranged(u, ex, version, root, t, home, done, q, p) && R.Neat(t, q)
  {
    StaysClosed(u, ex, version, root, t, home, done);
    var full :| Complete(KidsIn(Shape(t)), root, full) && AllPlain(Shape(t), full);
    ListUnique(KidsIn(Shape(t)), root, q, full);
    CompleteIs(KidsIn(Shape(t)), root, q);
    forall k | 0 <= k < |q|
      ensures OnList(u, t, done, q[k])
    {
      AllOnList(u, ex, version, root, t, home, done, q, k);
    }
    RewrittenIsNeat(u, ex, version, root, t, home, done, q);
  }

  // ---------- writing ----------

  /** What the setters leave of a tree of a user: a directory on top, and links that stop. */
  ghost predicate UserInput(u: NTree, ex: seq<Extra>, version: nat, root: nat) {
    && UserTree(u) && |ex| == |u| < 0x2000_0000 && IsRoot(u, root) && LinksStop(Shape(u)) && version < 0x1_0000_0000
    && ExtrasOk(ex)
  }

  /** The tree has been rewritten and laid out. */
  ghost predicate LaidOut(u: NTree, ex: seq<Extra>, version: nat, root: nat, xx: Xxh32, t: NTree,
                          home: seq<(nat, bytes)>, done: set<nat>, p: Plan, acl: bool) {
    && Remade(u, ex, version, root, t, home, done) && HasHex(t[root].children, 256) && W.TreeFits(t, root)
    && Acceptable(Shape(t), root)
    && exists q, sec, nsec, inodes :: W.Planning(t, root, FilterFor(xx), q, sec, nsec, acl, inodes, p)
  }

  lemma {:induction false} RewrittenReady(u: NTree, ex: seq<Extra>, version: nat, root: nat, t: NTree,
                                          home: seq<(nat, bytes)>, done: set<nat>)
    requires Remade(u, ex, version, root, t, home, done) && |t| < 0x8000_0000
    ensures LinksStop(Shape(t)) && IsTree(Shape(t), root, Up(t)) && W.TreeFits(t, root)
  {
    LinksStillStop(u, ex, version, root, t, home, done);
    StillTree(u, ex, version, root, t, home, done);
    RewrittenFits(u, ex, version, root, t, home, done);
  }

  /** Rewriting a tree and laying it out. */
  method LayOut(u: NTree, ex: seq<Extra>, version: nat, root: nat, xx: Xxh32, ample: bool)
    returns (r: Result<(Plan, bool), TripError>, ghost t: NTree, ghost home: seq<(nat, bytes)>, ghost done: set<nat>)
    requires UserInput(u, ex, version, root)
    ensures r.Ok? ==> LaidOut(u, ex, version, root, xx, t, home, done, r.value.0, r.value.1)
    ensures r.Err? ==> r.error.NotRewritten? || r.error.NotListed?
    ensures r.Err? ==> WriteJustified(u, ex, version, root, xx, r.error, ample)
  {
    var error, made;
    error, made, home, done := RewriteTree(u, ex, version, root, ample);
    t := made;
    if error.Some? { return Err(NotRewritten(error.value)), t, home, done; }
    assert Remade(u, ex, version, root, t, home, done);
    RewrittenReady(u, ex, version, root, t, home, done);
    var plan := W.PlanTree(made, root, FilterFor(xx), Up(t));
    r := if plan.Err? then Err(NotListed(plan.error)) else Ok(plan.value);
  }

  /** Why a tree could not be written: it was refused, cannot be listed, or its image is too large. */
  ghost predicate WriteJustified(u: NTree, ex: seq<Extra>, version: nat, root: nat, xx: Xxh32, e: TripError,
                                 ample: bool) {
    match e
    case NotRewritten(r) => TreeJustified(u, root, r, ample)
    case NotListed(_) =>
      exists t, home, done :: Remade(u, ex, version, root, t, home, done) && !Acceptable(Shape(t), root)
    case TooLarge =>
      exists t, home, done, p, acl :: LaidOut(u, ex, version, root, xx, t, home, done, p, acl) &&
                                      ImageSize(p) >= 0x1_0000_0000
    case TooManyAttributes =>
      exists t, home, done, p, acl :: LaidOut(u, ex, version, root, xx, t, home, done, p, acl) && AllWritten(p) &&
                                      !AllIcountsFit(p, |p.nodes|)
    case _ => false
  }

  /** What there is when the image has been written. */
  ghost predicate Imaged(u: NTree, ex: seq<Extra>, version: nat, root: nat, xx: Xxh32, t: NTree,
                         home: seq<(nat, bytes)>, done: set<nat>, q: seq<nat>, p: Plan, acl: bool, img: bytes) {
    && Arranged(u, ex, version, root, t, home, done, q, p) && R.Neat(t, q) && AllWritten(p) && p.ps != []
    && img == W.WholeImage(p, acl, version) && Formatted(xx, t, q, p, acl, version, img)
    && exists sec, nsec, inodes :: R.IsWritten(t, root, FilterFor(xx), q, sec, nsec, acl, inodes, p, version)
  }

  lemma {:induction false} PlanHasRoot(t: NTree, root: nat, xx: Xxh32, q: seq<nat>, sec: int, nsec: nat,
                                       acl: bool, inodes: seq<E.Inode>, p: Plan)
    requires W.Planning(t, root, FilterFor(xx), q, sec, nsec, acl, inodes, p)
    ensures Planned(p) && p.nodes != [] && p.ps != []
  {
    CompleteIs(KidsIn(Shape(t)), root, q);
  }

  lemma {:induction false} LaidOutHasRoot(u: NTree, ex: seq<Extra>, version: nat, root: nat, xx: Xxh32, t: NTree,
                                          home: seq<(nat, bytes)>, done: set<nat>, p: Plan, acl: bool)
    requires LaidOut(u, ex, version, root, xx, t, home, done, p, acl)
    ensures Planned(p) && p.nodes != [] && p.ps != []
  {
    var q, sec, nsec, inodes :| W.Planning(t, root, FilterFor(xx), q, sec, nsec, acl, inodes, p);
    PlanHasRoot(t, root, xx, q, sec, nsec, acl, inodes, p);
  }

  lemma {:induction false} WrittenImaged(u: NTree, ex: seq<Extra>, version: nat, root: nat, xx: Xxh32, t: NTree,
                                         home: seq<(nat, bytes)>, done: set<nat>, p: Plan, acl: bool, img: bytes)
    returns (q: seq<nat>)
    requires LaidOut(u, ex, version, root, xx, t, home, done, p, acl) && version < 0x1_0000_0000
    requires ImageSize(p) < 0x1_0000_0000 && AllWritten(p) && AllIcountsFit(p, |p.nodes|) && p.ps != []
    requires img == W.WholeImage(p, acl, version)
    ensures Imaged(u, ex, version, root, xx, t, home, done, q, p, acl, img)
  {
    var sec, nsec, inodes;
    q, sec, nsec, inodes :| W.Planning(t, root, FilterFor(xx), q, sec, nsec, acl, inodes, p);
    PlanArranged(u, ex, version, root, t, home, done, FilterFor(xx), q, sec, nsec, acl, inodes, p);
    SameKind(u, ex, version, root, t, home, done, root);
    assert R.IsWritten(t, root, FilterFor(xx), q, sec, nsec, acl, inodes, p, version);
    PlanFormatted(xx, t, root, q, sec, nsec, acl, inodes, p, version);
  }

  /** The image of a plan, unless it is too large or an inode has too many attributes. */
  method WritePlan(p: Plan, acl: bool, version: nat) returns (r: Result<bytes, TripError>)
    requires Planned(p) && p.nodes != [] && p.ps != []
    ensures r.Ok? ==> ImageSize(p) < 0x1_0000_0000 && AllWritten(p) && AllIcountsFit(p, |p.nodes|)
    ensures r.Ok? ==> r.value == W.WholeImage(p, acl, version)
    ensures r.Err? ==> (r.error == TooLarge && ImageSize(p) >= 0x1_0000_0000) ||
                       (r.error == TooManyAttributes && AllWritten(p) && !AllIcountsFit(p, |p.nodes|))
  {
    if ImageSize(p) >= 0x1_0000_0000 { return Err(TooLarge); }
    var ok, img := WriteImage(p, S.PrefixBytes(Loader.SuperOf(p, if acl then 1 else 0, version)));
    r := if ok then Ok(img) else Err(TooManyAttributes);
  }

  /** Rewriting a tree, laying it out and writing it. */
  method WriteTree(u: NTree, ex: seq<Extra>, version: nat, root: nat, xx: Xxh32, ample: bool)
    returns (r: Result<bytes, TripError>)
    requires UserInput(u, ex, version, root)
    ensures r.Ok? ==> IsImage(u, ex, version, root, xx, r.value)
    ensures r.Err? ==> WriteJustified(u, ex, version, root, xx, r.error, ample)
  {
    var plan;
    ghost var t, home, done;
    plan, t, home, done := LayOut(u, ex, version, root, xx, ample);
    if plan.Err? { return Err(plan.error); }
    var p, acl := plan.value.0, plan.value.1;
    LaidOutHasRoot(u, ex, version, root, xx, t, home, done, p, acl);
    r := WritePlan(p, acl, version);
    if r.Ok? { ghost var q := WrittenImaged(u, ex, version, root, xx, t, home, done, p, acl, r.value); }
  }

  // ---------- and back ----------

  /** The image opens, everything in it can be read, and what is built from it is the tree. */
  ghost predicate Opens(img: bytes, s: S.Loaded, t: NTree, q: seq<nat>, p: Plan) {
    && S.Load(img) == Ok(s) && R.Restores(B.SlotReader(img, s), s.root, t, q, p)
    && L.Good(B.SlotReader(img, s), (|img| + 31) / 32, B.Slots(p), s.root)
  }

  lemma {:induction false} Reloads(u: NTree, ex: seq<Extra>, version: nat, root: nat, xx: Xxh32, t: NTree,
                                   home: seq<(nat, bytes)>, done: set<nat>, q: seq<nat>, p: Plan, acl: bool, img: bytes)
    returns (s: S.Loaded)
    requires Imaged(u, ex, version, root, xx, t, home, done, q, p, acl, img)
    ensures Opens(img, s, t, q, p)
  {
    var sec, nsec, inodes :| R.IsWritten(t, root, FilterFor(xx), q, sec, nsec, acl, inodes, p, version);
    s := R.ThereAndBack(t, root, FilterFor(xx), q, sec, nsec, acl, inodes, p, version, (|img| + 31) / 32);
  }

  /** What loading an image comes to: it does not open, or what its slots say has been built, or that cannot be done. */
  ghost predicate Loaded(img: bytes, slots: set<nat>, r: Result<seq<L.LNode>, TripError>, ample: bool) {
    match S.Load(img)
    case Err(e) => r == Err(NotOpened(e))
    case Ok(s) =>
      var read, bound := B.SlotReader(img, s), (|img| + 31) / 32;
      && (r.Ok? ==> exists hash, made :: L.Rebuilt(read, r.value, hash, made, s.root))
      && (r.Err? ==> r.error.NotLoaded?)
      && (r.Err? && L.Sound(read, bound, slots, s.root) ==> L.Expected(read, slots, r.error.l, ample))
  }

  /** Opening an image and loading the tree in it. */
  method LoadImage(img: bytes, ghost slots: set<nat>, ample: bool) returns (r: Result<seq<L.LNode>, TripError>)
    ensures Loaded(img, slots, r, ample)
  {
    var s := S.Load(img);
    if s.Err? { return Err(NotOpened(s.error)); }
    var e, loader := L.LoadTree(B.SlotReader(img, s.value), (|img| + 31) / 32, s.value.root, slots, ample);
    r := if e.Some? then Err(NotLoaded(e.value)) else Ok(loader.nodes);
  }

  /** A written image loads unless memory runs out, and what is loaded is the tree. */
  lemma {:induction false} WrittenIsLoaded(img: bytes, s: S.Loaded, t: NTree, q: seq<nat>, p: Plan,
                                           r: Result<seq<L.LNode>, TripError>, ample: bool)
    requires Opens(img, s, t, q, p) && Loaded(img, B.Slots(p), r, ample)
    ensures if r.Ok? then R.SameAgain(t, q, p, r.value) else r.error == NotLoaded(L.Refused(NoMemory)) && !ample
  {
  }

  /** The tree of the user is back, whatever rewritten tree and plan there were. */
  ghost predicate IsBack(u: NTree, ex: seq<Extra>, version: nat, root: nat, nodes: seq<L.LNode>) {
    exists t, home, done, q, p ::
      Arranged(u, ex, version, root, t, home, done, q, p) && UserAgain(u, ex, version, root, t, q, p, nodes)
  }

  /** There is a rewritten tree and a plan of it that this is the image of. */
  ghost predicate IsImage(u: NTree, ex: seq<Extra>, version: nat, root: nat, xx: Xxh32, img: bytes) {
    exists t, home, done, q, p, acl :: Imaged(u, ex, version, root, xx, t, home, done, q, p, acl, img)
  }

  lemma {:induction false} ImageOpens(u: NTree, ex: seq<Extra>, version: nat, root: nat, xx: Xxh32, img: bytes)
    returns (t: NTree, home: seq<(nat, bytes)>, done: set<nat>, q: seq<nat>, p: Plan, s: S.Loaded)
    requires IsImage(u, ex, version, root, xx, img)
    ensures Arranged(u, ex, version, root, t, home, done, q, p) && Opens(img, s, t, q, p)
  {
    var acl;
    t, home, done, q, p, acl :| Imaged(u, ex, version, root, xx, t, home, done, q, p, acl, img);
    s := Reloads(u, ex, version, root, xx, t, home, done, q, p, acl, img);
  }

  lemma {:induction false} TripEnds(u: NTree, ex: seq<Extra>, version: nat, root: nat, t: NTree,
                                    home: seq<(nat, bytes)>, done: set<nat>, q: seq<nat>, p: Plan, img: bytes,
                                    s: S.Loaded, r: Result<seq<L.LNode>, TripError>, ample: bool)
    requires Arranged(u, ex, version, root, t, home, done, q, p) && Opens(img, s, t, q, p)
    requires Loaded(img, B.Slots(p), r, ample)
    ensures if r.Ok? then IsBack(u, ex, version, root, r.value) else r.error == NotLoaded(L.Refused(NoMemory)) && !ample
  {
    WrittenIsLoaded(img, s, t, q, p, r, ample);
    if r.Ok? { UserIsBack(u, ex, version, root, t, home, done, q, p, r.value); }
  }

  /** Loading what was written. */
  method LoadWritten(ghost u: NTree, ghost ex: seq<Extra>, ghost version: nat, ghost root: nat, ghost xx: Xxh32,
                     img: bytes, ample: bool)
    returns (r: Result<seq<L.LNode>, TripError>)
    requires IsImage(u, ex, version, root, xx, img)
    ensures if r.Ok? then IsBack(u, ex, version, root, r.value) else r.error == NotLoaded(L.Refused(NoMemory)) && !ample
  {
    ghost var t, home, done, q, p, s := ImageOpens(u, ex, version, root, xx, img);
    r := LoadImage(img, B.Slots(p), ample);
    TripEnds(u, ex, version, root, t, home, done, q, p, img, s, r, ample);
  }

  /**
   Writing a tree and loading the image.  What could be written always opens, and loads if memory is ample; and then
   the loaded nodes are the tree of the user.
   */
  method ThereAndBack(u: NTree, ex: seq<Extra>, version: nat, root: nat, xx: Xxh32, ample: bool)
    returns (r: Result<seq<L.LNode>, TripError>)
    requires UserInput(u, ex, version, root)
    ensures r.Ok? ==> IsBack(u, ex, version, root, r.value)
    ensures r.Err? ==>
              || WriteJustified(u, ex, version, root, xx, r.error, ample)
              || (r.error == NotLoaded(L.Refused(NoMemory)) && !ample)
  {
    var written := WriteTree(u, ex, version, root, xx, ample);
    if written.Err? { return Err(written.error); }
    r := LoadWritten(u, ex, version, root, xx, written.value, ample);
  }
}
