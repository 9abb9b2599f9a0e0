/** What a loaded tree means: every path of names leads to the inode it leads to in the image. */
module LoadedTree {
  import opened Common
  import opened Bytes
  import opened Children
  import opened DirCodec
  import opened BodyReader
  import opened NodeReader
  import opened TreeLoader

  type Path = seq<bytes>

  /** Following names through the directories of the image. */
  ghost predicate ImagePath(read: Reader, n: nat, path: Path, m: nat)
    decreases |path|
  {
    if path == [] then n == m else
    read(n).Ok? && exists j :: ImageEntry(read, n, j, path[0]) && ImagePath(read, EntrySlot(read, n, j), path[1..], m)
  }

  ghost predicate ImageEntry(read: Reader, n: nat, j: int, name: bytes) {
    read(n).Ok? && var ds := Wanted(read, EntriesOf(read(n).value)); 0 <= j < |ds| && ds[j].name == name
  }

  ghost function EntrySlot(read: Reader, n: nat, j: int): nat {
    if read(n).Err? then 0 else
    var ds := Wanted(read, EntriesOf(read(n).value));
    if 0 <= j < |ds| then ds[j].nid else 0
  }

  /** The node itself, or the node it is a link to. */
  function Resolve(nodes: seq<LNode>, i: nat): nat {
    if i < |nodes| && nodes[i].Link? then nodes[i].target else i
  }

  ghost predicate HasEntry(nodes: seq<LNode>, i: nat, name: bytes, c: nat) {
    i < |nodes| && nodes[i].Real? && Entry(name, c) in nodes[i].children
  }

  /** Following names through the children of nodes. */
  ghost predicate TreePath(nodes: seq<LNode>, i: nat, path: Path, k: nat)
    decreases |path|
  {
    if path == [] then k == Resolve(nodes, i) else
    exists c: nat :: HasEntry(nodes, Resolve(nodes, i), path[0], c) && TreePath(nodes, c, path[1..], k)
  }

  lemma {:induction false} Resolves(nodes: seq<LNode>, i: nat, n: nat)
    requires StandsFor(nodes, i, n)
    ensures Resolve(nodes, i) < |nodes| && nodes[Resolve(nodes, i)].Real? && nodes[Resolve(nodes, i)].nid == n
  {
  }

  lemma {:induction false} FilledAt(read: Reader, nodes: seq<LNode>, hash: map<nat, nat>, made: seq<seq<Entry>>,
                                    top: nat, i: nat)
    requires Rebuilt(read, nodes, hash, made, top) && i < |nodes| && nodes[i].Real?
    ensures read(nodes[i].nid) == Ok(nodes[i].data) && multiset(nodes[i].children) == multiset(made[i])
    ensures Matches(nodes, made[i], Wanted(read, EntriesOf(nodes[i].data)))
  {
    assert Whole(read, nodes, made, i);
    assert EntriesOf(nodes[i].data)[..|EntriesOf(nodes[i].data)|] == EntriesOf(nodes[i].data);
  }

  /** An entry of the image has a child that stands for what it leads to. */
  lemma {:induction false} EntryHasChild(read: Reader, nodes: seq<LNode>, hash: map<nat, nat>, made: seq<seq<Entry>>,
        top: nat, i: nat, j: nat, name: bytes)
    requires Rebuilt(read, nodes, hash, made, top) && i < |nodes| && nodes[i].Real?
    requires ImageEntry(read, nodes[i].nid, j, name)
    ensures j < |made[i]| && HasEntry(nodes, i, name, made[i][j].node)
    ensures StandsFor(nodes, made[i][j].node, EntrySlot(read, nodes[i].nid, j))
  {
    FilledAt(read, nodes, hash, made, top, i);
    assert made[i][j] in multiset(made[i]);
    assert made[i][j] in nodes[i].children;
    assert made[i][j] == Entry(name, made[i][j].node);
  }

  /** And the other way round. */
  lemma {:induction false} ChildHasEntry(read: Reader, nodes: seq<LNode>, hash: map<nat, nat>, made: seq<seq<Entry>>,
        top: nat, i: nat, name: bytes, c: nat) returns (j: nat)
    requires Rebuilt(read, nodes, hash, made, top) && HasEntry(nodes, i, name, c)
    ensures ImageEntry(read, nodes[i].nid, j, name) && StandsFor(nodes, c, EntrySlot(read, nodes[i].nid, j))
  {
    FilledAt(read, nodes, hash, made, top, i);
    assert Entry(name, c) in multiset(made[i]);
    j :| 0 <= j < |made[i]| && made[i][j] == Entry(name, c);
  }

  /** The path ends at a node built from slot `m`. */
  ghost predicate TreeLeads(nodes: seq<LNode>, i: nat, path: Path, m: nat) {
    exists k: nat :: TreePath(nodes, i, path, k) && k < |nodes| && nodes[k].Real? && nodes[k].nid == m
  }

  lemma {:induction false} ImageToTree(read: Reader, nodes: seq<LNode>, hash: map<nat, nat>, made: seq<seq<Entry>>,
                                    top: nat, i: nat, n: nat, path: Path, m: nat)
    requires Rebuilt(read, nodes, hash, made, top) && StandsFor(nodes, i, n) && ImagePath(read, n, path, m)
    ensures TreeLeads(nodes, i, path, m)
    decreases |path|
  {
    Resolves(nodes, i, n);
    var x := Resolve(nodes, i);
    if path == [] {
      assert TreePath(nodes, i, path, x);
    } else {
      var j :| ImageEntry(read, n, j, path[0]) && ImagePath(read, EntrySlot(read, n, j), path[1..], m);
      EntryHasChild(read, nodes, hash, made, top, x, j, path[0]);
      var c := made[x][j].node;
      ImageToTree(read, nodes, hash, made, top, c, EntrySlot(read, n, j), path[1..], m);
      var k: nat :| TreePath(nodes, c, path[1..], k) && k < |nodes| && nodes[k].Real? && nodes[k].nid == m;
      assert TreePath(nodes, i, path, k);
    }
  }

  lemma {:induction false} TreeToImage(read: Reader, nodes: seq<LNode>, hash: map<nat, nat>, made: seq<seq<Entry>>,
                                    top: nat, i: nat, n: nat, path: Path, k: nat)
    requires Rebuilt(read, nodes, hash, made, top) && StandsFor(nodes, i, n) && TreePath(nodes, i, path, k)
    ensures k < |nodes| && nodes[k].Real? && ImagePath(read, n, path, nodes[k].nid)
    decreases |path|
  {
    Resolves(nodes, i, n);
    var x := Resolve(nodes, i);
    if path != [] {
      FilledAt(read, nodes, hash, made, top, x);
      var c: nat :| HasEntry(nodes, x, path[0], c) && TreePath(nodes, c, path[1..], k);
      var j := ChildHasEntry(read, nodes, hash, made, top, x, path[0], c);
      TreeToImage(read, nodes, hash, made, top, c, EntrySlot(read, n, j), path[1..], k);
    }
  }

  /** A path of names leads to a slot of the image exactly when it leads to the node built from that slot. */
  lemma {:induction false} PathsAgree(read: Reader, nodes: seq<LNode>, hash: map<nat, nat>, made: seq<seq<Entry>>,
                                    top: nat, path: Path, m: nat)
    requires Rebuilt(read, nodes, hash, made, top)
    ensures ImagePath(read, top, path, m) <==> TreeLeads(nodes, 0, path, m)
  {
    if ImagePath(read, top, path, m) { ImageToTree(read, nodes, hash, made, top, 0, top, path, m); }
    if k: nat :| TreePath(nodes, 0, path, k) && k < |nodes| && nodes[k].Real? && nodes[k].nid == m {
      TreeToImage(read, nodes, hash, made, top, 0, top, path, k);
    }
  }

  /** Two names of one inode lead to one node: what was a hard link is one again. */
  lemma {:induction false} SameInodeSameNode(read: Reader, nodes: seq<LNode>, hash: map<nat, nat>,
        made: seq<seq<Entry>>, top: nat, a: Path, b: Path, i: nat, j: nat)
    requires Rebuilt(read, nodes, hash, made, top) && TreePath(nodes, 0, a, i) && TreePath(nodes, 0, b, j)
    ensures i < |nodes| && j < |nodes| && nodes[i].Real? && nodes[j].Real? && (i == j <==> nodes[i].nid == nodes[j].nid)
  {
    TreeToImage(read, nodes, hash, made, top, 0, top, a, i);
    TreeToImage(read, nodes, hash, made, top, 0, top, b, j);
  }

  // ---------- whiteouts with two names ----------

  /** Entry `j` of node `i` leads to a whiteout. */
  ghost predicate NamesWhiteout(read: Reader, nodes: seq<LNode>, i: nat, j: nat) {
    && i < |nodes| && nodes[i].Real? && j < |EntriesOf(nodes[i].data)|
    && LeadsToWhiteout(read, EntriesOf(nodes[i].data)[j])
  }

  /**
   When loading succeeds, no two entries below the root lead to one whiteout.  In the source a second such entry would
   find the slot in the table, with a node that has been released.
   */
  lemma {:induction false} WhiteoutNamedOnce(read: Reader, nodes: seq<LNode>, hash: map<nat, nat>,
                                             made: seq<seq<Entry>>, top: nat, i: nat, j: nat, i': nat, j': nat)
    requires Rebuilt(read, nodes, hash, made, top)
    requires NamesWhiteout(read, nodes, i, j) && NamesWhiteout(read, nodes, i', j')
    requires EntriesOf(nodes[i].data)[j].nid == EntriesOf(nodes[i'].data)[j'].nid
    ensures i == i' && j == j'
  {
    var w := EntriesOf(nodes[i].data)[j].nid;
    assert Whole(read, nodes, made, i) && Whole(read, nodes, made, i');
    assert HasGone(nodes, w, (i, j)) && HasGone(nodes, w, (i', j'));
    var g :| 0 <= g < |nodes| && nodes[g] == Gone(w, (i, j));
    var g' :| 0 <= g' < |nodes| && nodes[g'] == Gone(w, (i', j'));
    assert g == hash[w] == g';
  }

  /** Every directory among the slots can be reached. */
  ghost predicate AllReachable(read: Reader, slots: set<nat>, top: nat) {
    forall p {:trigger p in slots} :: p in slots && read(p).Ok? ==> exists path :: ImagePath(read, top, path, p)
  }

  /** So it succeeds only on images whose whiteouts have one name each. */
  lemma {:induction false} LoadedHasOneName(read: Reader, nodes: seq<LNode>, hash: map<nat, nat>,
                                            made: seq<seq<Entry>>, top: nat, slots: set<nat>)
    requires Rebuilt(read, nodes, hash, made, top) && AllReachable(read, slots, top)
    ensures OneName(read, slots)
  {
    forall p: nat, j: nat, p': nat, j': nat |
      && IsEdge(read, slots, p, j) && IsEdge(read, slots, p', j')
      && EdgeSlot(read, slots, p, j) == EdgeSlot(read, slots, p', j')
      && read(EdgeSlot(read, slots, p, j)) == Err(Whiteout)
      ensures p == p' && j == j'
    {
      var i := NodeOf(read, nodes, hash, made, top, slots, p);
      var i' := NodeOf(read, nodes, hash, made, top, slots, p');
      assert NamesWhiteout(read, nodes, i, j) && NamesWhiteout(read, nodes, i', j');
      WhiteoutNamedOnce(read, nodes, hash, made, top, i, j, i', j');
    }
  }

  lemma {:induction false} NodeOf(read: Reader, nodes: seq<LNode>, hash: map<nat, nat>, made: seq<seq<Entry>>, top: nat,
                                  slots: set<nat>, p: nat) returns (i: nat)
    requires Rebuilt(read, nodes, hash, made, top) && AllReachable(read, slots, top) && p in slots && read(p).Ok?
    ensures i < |nodes| && nodes[i].Real? && nodes[i].nid == p && read(p) == Ok(nodes[i].data)
  {
    var path :| ImagePath(read, top, path, p);
    PathsAgree(read, nodes, hash, made, top, path, p);
    i :| TreePath(nodes, 0, path, i) && i < |nodes| && nodes[i].Real? && nodes[i].nid == p;
    FilledAt(read, nodes, hash, made, top, i);
  }

  /** A root with two names for one whiteout is never loaded. */
  lemma {:induction false} TwoNamesRefused(read: Reader, nodes: seq<LNode>, hash: map<nat, nat>, made: seq<seq<Entry>>,
                                           root: NodeRead)
    requires read(0) == Ok(root) && read(1) == Err(Whiteout)
    requires root.content == Entries([Dirent([97], 1, 3), Dirent([98], 1, 3)])
    ensures !Rebuilt(read, nodes, hash, made, 0)
  {
    if Rebuilt(read, nodes, hash, made, 0) {
      Resolves(nodes, 0, 0);
      var i := Resolve(nodes, 0);
      FilledAt(read, nodes, hash, made, 0, i);
      assert NamesWhiteout(read, nodes, i, 0) && NamesWhiteout(read, nodes, i, 1);
      WhiteoutNamedOnce(read, nodes, hash, made, 0, i, 0, i, 1);
    }
  }
}
