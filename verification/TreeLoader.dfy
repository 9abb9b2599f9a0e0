/**
 Building a tree from an image.  Every inode is built once, at the first entry that leads to it; further entries become
 hard links to it.  Entries that lead to a whiteout are left out.
 */
module TreeLoader {
  import opened Common
  import opened Bytes
  import opened Order
  import opened Children
  import opened DirCodec
  import opened BodyReader
  import opened NodeReader

  /**
   Nodes as they are built: from an inode, a link to one, or given up because the inode is a whiteout, at entry `site.1`
   of node `site.0`.
   */
  datatype LNode = Real(nid: nat, data: NodeRead, children: seq<Entry>) | Link(target: nat) |
                   Gone(nid: nat, ghost site: (nat, nat))

  datatype LoadError = Unreadable(e: ReadError) | Refused(a: AddError) | Freed

  /** What the image says about a slot; slots from `bound` on are outside of it. */
  type Reader = nat -> Result<NodeRead, ReadError>

  predicate IsDot(name: bytes) { name == [46] || name == [46, 46] }

  function EntriesOf(r: NodeRead): seq<Dirent> { if r.content.Entries? then r.content.ds else [] }

  predicate Kept(read: Reader, d: Dirent) { !IsDot(d.name) && read(d.nid) != Err(Whiteout) }

  /** The entries of a directory that end up as children. */
  function Wanted(read: Reader, ds: seq<Dirent>): seq<Dirent> {
    if ds == [] then [] else
    Wanted(read, ds[..|ds| - 1]) + if Kept(read, ds[|ds| - 1]) then [ds[|ds| - 1]] else []
  }

  // ---------- what the result is like ----------

  /** Node `i` stands for the inode in slot `nid`: it was built from it, or is a link to the node that was. */
  ghost predicate StandsFor(nodes: seq<LNode>, i: nat, nid: nat) {
    && i < |nodes|
    && match nodes[i]
       case Real(n, _, _) => n == nid
       case Link(t) => t < |nodes| && nodes[t].Real? && nodes[t].nid == nid
       case Gone(_, _) => false
  }

  /** Children with the names of the entries, standing for the inodes they lead to. */
  ghost predicate Matches(nodes: seq<LNode>, es: seq<Entry>, ds: seq<Dirent>) {
    && |es| == |ds|
    && forall j {:trigger es[j]} :: 0 <= j < |ds| ==>
         es[j].name == ds[j].name && StandsFor(nodes, es[j].node, ds[j].nid)
  }

  predicate LeadsToWhiteout(read: Reader, d: Dirent) { !IsDot(d.name) && read(d.nid) == Err(Whiteout) }

  ghost predicate HasGone(nodes: seq<LNode>, nid: nat, site: (nat, nat)) {
    exists g :: 0 <= g < |nodes| && nodes[g] == Gone(nid, site)
  }

  /** Each of the first `k` entries of node `i` that leads to a whiteout was the one at which it was given up. */
  ghost predicate GivenUp(read: Reader, nodes: seq<LNode>, i: nat, ds: seq<Dirent>, k: nat) {
    forall j {:trigger ds[j]} :: 0 <= j < k <= |ds| && LeadsToWhiteout(read, ds[j]) ==>
      HasGone(nodes, ds[j].nid, (i, j))
  }

  /** Node `i` holds what its inode says, and a child for each of the first `k` entries that are kept. */
  ghost predicate Filled(read: Reader, nodes: seq<LNode>, made: seq<seq<Entry>>, i: nat, k: nat) {
    && i < |nodes| == |made| && nodes[i].Real? && read(nodes[i].nid) == Ok(nodes[i].data)
    && k <= |EntriesOf(nodes[i].data)|
    && Sorted(nodes[i].children) && multiset(nodes[i].children) == multiset(made[i])
    && Matches(nodes, made[i], Wanted(read, EntriesOf(nodes[i].data)[..k]))
    && GivenUp(read, nodes, i, EntriesOf(nodes[i].data), k)
  }

  ghost predicate Whole(read: Reader, nodes: seq<LNode>, made: seq<seq<Entry>>, i: nat) {
    && i < |nodes| == |made|
    && (nodes[i].Real? ==> Filled(read, nodes, made, i, |EntriesOf(nodes[i].data)|))
    && (nodes[i].Link? ==> nodes[i].target < |nodes| && nodes[nodes[i].target].Real?)
    && (nodes[i].Gone? ==> read(nodes[i].nid) == Err(Whiteout))
  }

  ghost predicate AllWhole(read: Reader, nodes: seq<LNode>, made: seq<seq<Entry>>, lo: nat) {
    forall i {:trigger Whole(read, nodes, made, i)} :: lo <= i < |nodes| ==> Whole(read, nodes, made, i)
  }

  ghost predicate HasChild(made: seq<seq<Entry>>, p: nat, c: nat) {
    p < |made| && exists j :: 0 <= j < |made[p]| && made[p][j].node == c
  }

  /** Every node from `lo` on that was not given up is a child of an earlier one, from `b` on. */
  ghost predicate Parented(nodes: seq<LNode>, made: seq<seq<Entry>>, b: nat, x: nat) {
    x < |nodes| && !nodes[x].Gone? ==> exists p: nat :: b <= p < x && HasChild(made, p, x)
  }

  ghost predicate AllParented(nodes: seq<LNode>, made: seq<seq<Entry>>, b: nat, lo: nat, hi: nat) {
    forall x {:trigger Parented(nodes, made, b, x)} :: lo <= x < hi ==> Parented(nodes, made, b, x)
  }

  /** A node that is not a link is what the image says about its slot. */
  ghost predicate IsRead(read: Reader, x: LNode) {
    && (x.Real? ==> read(x.nid) == Ok(x.data)) && (x.Gone? ==> read(x.nid) == Err(Whiteout))
  }

  /** The table of slots already met: exactly the nodes that were built or given up. */
  ghost predicate TableOk(read: Reader, nodes: seq<LNode>, hash: map<nat, nat>) {
    && (forall n {:trigger n in hash} :: n in hash ==>
          hash[n] < |nodes| && !nodes[hash[n]].Link? && nodes[hash[n]].nid == n)
    && forall i {:trigger nodes[i]} :: 0 <= i < |nodes| && !nodes[i].Link? ==>
         IsRead(read, nodes[i]) && nodes[i].nid in hash && hash[nodes[i].nid] == i
  }

  // ---------- keeping it ----------

  /** Nodes stay what they stand for; children may be added. */
  ghost predicate Extends(nodes: seq<LNode>, nodes': seq<LNode>) {
    && |nodes| <= |nodes'|
    && forall i {:trigger nodes'[i]} :: 0 <= i < |nodes| ==>
         match nodes[i]
         case Real(n, d, _) => nodes'[i].Real? && nodes'[i].nid == n && nodes'[i].data == d
         case _ => nodes'[i] == nodes[i]
  }

  lemma {:induction false} KeepMatches(nodes: seq<LNode>, nodes': seq<LNode>, es: seq<Entry>, ds: seq<Dirent>)
    requires Extends(nodes, nodes') && Matches(nodes, es, ds)
    ensures Matches(nodes', es, ds)
  {
    forall j | 0 <= j < |ds|
      ensures StandsFor(nodes', es[j].node, ds[j].nid)
    {
      var i := es[j].node;
      assert StandsFor(nodes, i, ds[j].nid);
      assert nodes'[i] == nodes'[i];
      if nodes[i].Link? { assert nodes'[nodes[i].target].Real?; }
    }
  }

  lemma {:induction false} KeepGivenUp(read: Reader, nodes: seq<LNode>, nodes': seq<LNode>, i: nat, ds: seq<Dirent>,
                                       k: nat)
    requires Extends(nodes, nodes') && GivenUp(read, nodes, i, ds, k)
    ensures GivenUp(read, nodes', i, ds, k)
  {
    forall j | 0 <= j < k <= |ds| && LeadsToWhiteout(read, ds[j])
      ensures HasGone(nodes', ds[j].nid, (i, j))
    {
      assert HasGone(nodes, ds[j].nid, (i, j));
      var g :| 0 <= g < |nodes| && nodes[g] == Gone(ds[j].nid, (i, j));
      assert nodes'[g] == nodes[g];
    }
  }

  lemma {:induction false} KeepWhole(read: Reader, nodes: seq<LNode>, made: seq<seq<Entry>>, nodes': seq<LNode>,
                                    made': seq<seq<Entry>>, i: nat)
    requires Whole(read, nodes, made, i) && Extends(nodes, nodes') && |nodes'| == |made'| && nodes'[i] == nodes[i]
    requires made'[i] == made[i]
    ensures Whole(read, nodes', made', i)
  {
    if nodes[i].Real? {
      var ds := EntriesOf(nodes[i].data);
      KeepMatches(nodes, nodes', made[i], Wanted(read, ds[..|ds|]));
      KeepGivenUp(read, nodes, nodes', i, ds, |ds|);
    }
    if nodes[i].Link? { assert nodes'[nodes[i].target].Real?; }
  }

  lemma {:induction false} KeepParented(nodes: seq<LNode>, made: seq<seq<Entry>>, nodes': seq<LNode>,
                                    made': seq<seq<Entry>>, b: nat, b': nat, lo: nat, hi: nat)
    requires AllParented(nodes, made, b', lo, hi) && b <= b' && hi <= |nodes| == |made| && |made| <= |made'|
    requires Extends(nodes, nodes')
    requires forall k {:trigger made'[k]} :: b' <= k < |made| ==> made[k] <= made'[k]
    ensures AllParented(nodes', made', b, lo, hi)
  {
    forall x | lo <= x < hi
      ensures Parented(nodes', made', b, x)
    {
      assert Parented(nodes, made, b', x);
      assert nodes'[x] == nodes'[x];
      if !nodes[x].Gone? {
        var p: nat :| b' <= p < x && HasChild(made, p, x);
        assert made'[p][..|made[p]|] == made[p];
        assert HasChild(made', p, x);
      }
    }
  }

  // ---------- images without surprises ----------

  /** Sorted names of 1 to 255 bytes that lead to slots in `slots`. */
  ghost predicate ListGood(ds: seq<Dirent>, slots: set<nat>) {
    && (forall i, j {:trigger ds[i], ds[j]} :: 0 <= i < j < |ds| ==> Less(ds[i].name, ds[j].name))
    && forall j {:trigger ds[j]} :: 0 <= j < |ds| ==> 1 <= |ds[j].name| <= 255 && (!IsDot(ds[j].name) ==>
         ds[j].nid in slots)
  }

  ghost predicate SlotGood(read: Reader, slots: set<nat>, n: nat) {
    if read(n).Ok? then ListGood(EntriesOf(read(n).value), slots) else read(n).error.Whiteout?
  }

  /** Entry `j` of the directory in slot `p` leads somewhere. */
  ghost predicate IsEdge(read: Reader, slots: set<nat>, p: nat, j: nat) {
    p in slots && read(p).Ok? && j < |EntriesOf(read(p).value)| && !IsDot(EntriesOf(read(p).value)[j].name)
  }

  ghost function EdgeSlot(read: Reader, slots: set<nat>, p: nat, j: nat): nat
    requires IsEdge(read, slots, p, j)
  {
    EntriesOf(read(p).value)[j].nid
  }

  /** No whiteout has two names. */
  ghost predicate OneName(read: Reader, slots: set<nat>) {
    forall p: nat, j: nat, p': nat, j': nat {:trigger IsEdge(read, slots, p, j), IsEdge(read, slots, p', j')} ::
      && IsEdge(read, slots, p, j) && IsEdge(read, slots, p', j')
      && EdgeSlot(read, slots, p, j) ==
           EdgeSlot(read, slots, p', j') && read(EdgeSlot(read, slots, p, j)) == Err(Whiteout) ==>
      p == p' && j == j'
  }

  /** The root is a node, and everything its entries lead to can be read. */
  ghost predicate Sound(read: Reader, bound: nat, slots: set<nat>, top: nat) {
    && top in slots && read(top).Ok?
    && forall n {:trigger n in slots} :: n in slots ==> n < bound && SlotGood(read, slots, n)
  }

  ghost predicate Good(read: Reader, bound: nat, slots: set<nat>, top: nat) {
    Sound(read, bound, slots, top) && OneName(read, slots)
  }

  /** The errors that loading such an image can end with. */
  ghost predicate Expected(read: Reader, slots: set<nat>, e: LoadError, ample: bool) {
    (e == Refused(NoMemory) && !ample) || (e == Freed && !OneName(read, slots))
  }

  /** The entries followed so far account for every slot met. */
  ghost predicate Known(read: Reader, slots: set<nat>, top: nat, hash: map<nat, nat>, seen: set<(nat, nat)>) {
    && (forall e {:trigger e in seen} :: e in seen ==> IsEdge(read, slots, e.0, e.1) && e.0 in hash)
    && forall n {:trigger n in hash} :: n in hash ==> n == top || Seen(read, slots, seen, n)
  }

  ghost predicate Seen(read: Reader, slots: set<nat>, seen: set<(nat, nat)>, n: nat) {
    exists e :: e in seen && IsEdge(read, slots, e.0, e.1) && EdgeSlot(read, slots, e.0, e.1) == n
  }

  /** An entry not followed yet does not lead to a whiteout that was given up. */
  lemma {:induction false} NotGone(read: Reader, bound: nat, slots: set<nat>, top: nat, nodes: seq<LNode>,
                                   hash: map<nat, nat>, seen: set<(nat, nat)>, p: nat, k: nat)
    requires Good(read, bound, slots, top) && TableOk(read, nodes, hash) && Known(read, slots, top, hash, seen)
    requires IsEdge(read, slots, p, k) && (p, k) !in seen && EdgeSlot(read, slots, p, k) in hash
    ensures nodes[hash[EdgeSlot(read, slots, p, k)]].Real?
  {
    var w := EdgeSlot(read, slots, p, k);
    assert IsRead(read, nodes[hash[w]]);
    assert w == top || Seen(read, slots, seen, w);
  }

  // ---------- the loader ----------

  lemma {:induction false} WantedStep(read: Reader, ds: seq<Dirent>, k: nat)
    requires k < |ds|
    ensures Wanted(read, ds[..k + 1]) == Wanted(read, ds[..k]) + if Kept(read, ds[k]) then [ds[k]] else []
  {
    assert ds[..k + 1][..k] == ds[..k];
  }

  lemma {:induction false} WantedIn(read: Reader, ds: seq<Dirent>)
    ensures forall d | d in Wanted(read, ds) :: d in ds
  {
    if ds != [] { WantedIn(read, ds[..|ds| - 1]); }
  }

  /** Node `x` has its first `k` entries, everything behind it is whole and below it. */
  ghost predicate Grown(read: Reader, nodes: seq<LNode>, made: seq<seq<Entry>>, x: nat, k: nat) {
    && Filled(read, nodes, made, x, k) && AllWhole(read, nodes, made, x + 1)
    && AllParented(nodes, made, x, x + 1, |nodes|)
  }

  /** As `Grown`, with one more node `c`, and all below it, that is not a child yet. */
  ghost predicate Pending(read: Reader, nodes: seq<LNode>, made: seq<seq<Entry>>, x: nat, k: nat, c: nat, nid: nat) {
    && x < c < |nodes| && Filled(read, nodes, made, x, k) && AllWhole(read, nodes, made, x + 1)
    && AllParented(nodes, made, x, x + 1, c) && AllParented(nodes, made, c, c + 1, |nodes|) && StandsFor(nodes, c, nid)
  }

  lemma {:induction false} KeepFilled(read: Reader, nodes: seq<LNode>, made: seq<seq<Entry>>, nodes': seq<LNode>,
                                    made': seq<seq<Entry>>, x: nat, k: nat)
    requires Filled(read, nodes, made, x, k) && nodes <= nodes' && made <= made' && |nodes'| == |made'|
    ensures Filled(read, nodes', made', x, k) && Extends(nodes, nodes')
  {
    KeepMatches(nodes, nodes', made[x], Wanted(read, EntriesOf(nodes[x].data)[..k]));
    KeepGivenUp(read, nodes, nodes', x, EntriesOf(nodes[x].data), k);
  }

  lemma {:induction false} KeepAllWhole(read: Reader, nodes: seq<LNode>, made: seq<seq<Entry>>, nodes': seq<LNode>,
                                    made': seq<seq<Entry>>, lo: nat, hi: nat)
    requires AllWhole(read, nodes, made, lo) && hi == |nodes| == |made| && Extends(nodes, nodes') && |nodes'| == |made'|
    requires forall i {:trigger nodes'[i]} :: lo <= i < hi ==> nodes'[i] == nodes[i]
    requires forall i {:trigger made'[i]} :: lo <= i < hi ==> made'[i] == made[i]
    requires AllWhole(read, nodes', made', hi)
    ensures AllWhole(read, nodes', made', lo)
  {
    forall i | lo <= i < |nodes'|
      ensures Whole(read, nodes', made', i)
    {
      if i < hi {
        assert Whole(read, nodes, made, i);
        KeepWhole(read, nodes, made, nodes', made', i);
      }
    }
  }

  /** Something was built behind what there was. */
  lemma {:induction false} GrowOver(read: Reader, nodes: seq<LNode>, made: seq<seq<Entry>>, nodes': seq<LNode>,
                                    made': seq<seq<Entry>>, x: nat, k: nat, nid: nat)
    requires Grown(read, nodes, made, x, k) && nodes <= nodes' && made <= made'
    requires |nodes| == |made| < |nodes'| == |made'|
    requires AllWhole(read, nodes', made', |nodes|) && AllParented(nodes', made', |nodes|, |nodes| + 1, |nodes'|)
    requires StandsFor(nodes', |nodes|, nid)
    ensures Pending(read, nodes', made', x, k, |nodes|, nid)
  {
    KeepFilled(read, nodes, made, nodes', made', x, k);
    KeepAllWhole(read, nodes, made, nodes', made', x + 1, |nodes|);
    KeepParented(nodes, made, nodes', made', x, x, x + 1, |nodes|);
  }

  lemma {:induction false} GoneFilled(read: Reader, nodes: seq<LNode>, made: seq<seq<Entry>>, x: nat, k: nat, nid: nat)
    requires Filled(read, nodes, made, x, k) && k < |EntriesOf(nodes[x].data)|
    requires var d := EntriesOf(nodes[x].data)[k]; !IsDot(d.name) && d.nid == nid && read(nid) == Err(Whiteout)
    requires HasGone(nodes, nid, (x, k))
    ensures Filled(read, nodes, made, x, k + 1)
  {
    WantedStep(read, EntriesOf(nodes[x].data), k);
  }

  /** A whiteout was given up. */
  lemma {:induction false} GrowGone(read: Reader, nodes: seq<LNode>, made: seq<seq<Entry>>, x: nat, k: nat, nid: nat)
    requires Grown(read, nodes, made, x, k) && |nodes| == |made| && k < |EntriesOf(nodes[x].data)|
    requires var d := EntriesOf(nodes[x].data)[k]; !IsDot(d.name) && d.nid == nid && read(nid) == Err(Whiteout)
    ensures Grown(read, nodes + [Gone(nid, (x, k))], made + [[]], x, k + 1)
  {
    var nodes', made' := nodes + [Gone(nid, (x, k))], made + [[]];
    KeepFilled(read, nodes, made, nodes', made', x, k);
    assert nodes'[|nodes|] == Gone(nid, (x, k));
    GoneFilled(read, nodes', made', x, k, nid);
    KeepAllWhole(read, nodes, made, nodes', made', x + 1, |nodes|);
    KeepParented(nodes, made, nodes', made', x, x, x + 1, |nodes|);
    assert Parented(nodes', made', x, |nodes|);
  }

  lemma {:induction false} GrowDot(read: Reader, nodes: seq<LNode>, made: seq<seq<Entry>>, x: nat, k: nat)
    requires Grown(read, nodes, made, x, k) && k < |EntriesOf(nodes[x].data)|
    requires IsDot(EntriesOf(nodes[x].data)[k].name)
    ensures Grown(read, nodes, made, x, k + 1)
  {
    WantedStep(read, EntriesOf(nodes[x].data), k);
  }

  lemma {:induction false} AddMatches(nodes: seq<LNode>, es: seq<Entry>, ds: seq<Dirent>, e: Entry, d: Dirent)
    requires Matches(nodes, es, ds) && e.name == d.name && StandsFor(nodes, e.node, d.nid)
    ensures Matches(nodes, es + [e], ds + [d])
  {
  }

  /** The node that was built becomes the next child. */
  lemma {:induction false} GrowChild(read: Reader, nodes: seq<LNode>, made: seq<seq<Entry>>, x: nat, k: nat, c: nat,
                                    d: Dirent, list: seq<Entry>,
                                     nodes': seq<LNode>, made': seq<seq<Entry>>)
    requires Pending(read, nodes, made, x, k, c, d.nid) && k < |EntriesOf(nodes[x].data)|
    requires d == EntriesOf(nodes[x].data)[k] && Kept(read, d)
    requires AddedTo(nodes[x].children, Entry(d.name, c), list)
    requires nodes' == nodes[x := nodes[x].(children := list)] && made' == made[x := made[x] + [Entry(d.name, c)]]
    ensures Grown(read, nodes', made', x, k + 1)
  {
    var e := Entry(d.name, c);
    var ds := EntriesOf(nodes[x].data);
    WantedStep(read, ds, k);
    AddMatches(nodes, made[x], Wanted(read, ds[..k]), e, d);
    assert Extends(nodes, nodes');
    KeepMatches(nodes, nodes', made[x] + [e], Wanted(read, ds[..k + 1]));
    KeepGivenUp(read, nodes, nodes', x, ds, k);
    assert Filled(read, nodes', made', x, k + 1);
    KeepAllWhole(read, nodes, made, nodes', made', x + 1, |nodes|);
    KeepParented(nodes, made, nodes', made', x, x, x + 1, c);
    KeepParented(nodes, made, nodes', made', x, c, c + 1, |nodes|);
    assert made'[x][|made[x]|].node == c;
    assert HasChild(made', x, c);
    assert Parented(nodes', made', x, c);
  }

  /** Names already used come from entries before, which are smaller. */
  lemma {:induction false} NameNew(read: Reader, nodes: seq<LNode>, made: seq<seq<Entry>>, x: nat, k: nat,
                                   slots: set<nat>)
    requires Filled(read, nodes, made, x, k) && k < |EntriesOf(nodes[x].data)|
    requires ListGood(EntriesOf(nodes[x].data), slots)
    ensures !Has(nodes[x].children, EntriesOf(nodes[x].data)[k].name)
  {
    var ds, cs := EntriesOf(nodes[x].data), nodes[x].children;
    var wanted := Wanted(read, ds[..k]);
    WantedIn(read, ds[..k]);
    LessIrreflexive(ds[k].name);
    forall i | 0 <= i < |cs|
      ensures cs[i].name != ds[k].name
    {
      assert cs[i] in multiset(made[x]);
      var j :| 0 <= j < |made[x]| && made[x][j] == cs[i];
      assert wanted[j] in ds[..k];
      var m :| 0 <= m < k && ds[m] == wanted[j];
      assert Less(ds[m].name, ds[k].name);
    }
  }

  lemma {:induction false} TableAdd(read: Reader, nodes: seq<LNode>, hash: map<nat, nat>, x: LNode)
    requires TableOk(read, nodes, hash) && !x.Link? && x.nid !in hash && IsRead(read, x)
    ensures TableOk(read, nodes + [x], hash[x.nid := |nodes|])
  {
  }

  lemma {:induction false} TableLink(read: Reader, nodes: seq<LNode>, hash: map<nat, nat>, t: nat)
    requires TableOk(read, nodes, hash)
    ensures TableOk(read, nodes + [Link(t)], hash)
  {
  }

  lemma {:induction false} TableChild(read: Reader, nodes: seq<LNode>, hash: map<nat, nat>, x: nat, list: seq<Entry>)
    requires TableOk(read, nodes, hash) && x < |nodes| && nodes[x].Real?
    ensures TableOk(read, nodes[x := nodes[x].(children := list)], hash)
  {
    var nodes' := nodes[x := nodes[x].(children := list)];
    forall i | 0 <= i < |nodes'| && !nodes'[i].Link?
      ensures IsRead(read, nodes'[i]) && nodes'[i].nid in hash && hash[nodes'[i].nid] == i
    {
      assert IsRead(read, nodes[i]);
    }
  }

  /** A new link, alone. */
  lemma {:induction false} LinkStands(read: Reader, nodes: seq<LNode>, made: seq<seq<Entry>>, hash: map<nat, nat>,
                                    nid: nat)
    requires TableOk(read, nodes, hash) && |made| == |nodes| && nid in hash && nodes[hash[nid]].Real?
    ensures var nodes' := nodes + [Link(hash[nid])];
            && StandsFor(nodes', |nodes|, nid) && AllWhole(read, nodes', made + [[]], |nodes|)
            && AllParented(nodes', made + [[]], |nodes|, |nodes| + 1, |nodes'|)
  {
    var nodes' := nodes + [Link(hash[nid])];
    assert nodes'[hash[nid]] == nodes[hash[nid]];
    assert Whole(read, nodes', made + [[]], |nodes|);
  }

  lemma {:induction false} StartGrown(read: Reader, nodes: seq<LNode>, made: seq<seq<Entry>>, nid: nat, data: NodeRead)
    requires |made| == |nodes| && read(nid) == Ok(data)
    ensures Grown(read, nodes + [Real(nid, data, [])], made + [[]], |nodes|, 0)
  {
    assert EntriesOf(data)[..0] == [];
  }

  lemma {:induction false} GrownWhole(read: Reader, nodes: seq<LNode>, made: seq<seq<Entry>>, x: nat)
    requires x < |nodes| && nodes[x].Real? && Filled(read, nodes, made, x, |EntriesOf(nodes[x].data)|)
    requires AllWhole(read, nodes, made, x + 1)
    ensures AllWhole(read, nodes, made, x)
  {
    assert Whole(read, nodes, made, x);
  }

  /** Entries followed since: of the directory being filled, before its entry `k`, or of slots met since. */
  ghost predicate OnlyNew(seen: set<(nat, nat)>, s0: set<(nat, nat)>, h0: set<nat>, nid: nat, k: nat) {
    forall e {:trigger e in seen} :: e in seen ==> e in s0 || (e.0 == nid && e.1 < k) || e.0 !in h0
  }

  lemma {:induction false} FrontKept<T>(a: seq<T>, b: seq<T>, c: seq<T>, x: nat)
    requires x <= |a| && a <= b && |b| == |c| && c[..x] == b[..x]
    ensures a[..x] <= c
  {
    assert a[..x] == b[..x];
  }

  lemma {:induction false} FrontIs<T>(a: seq<T>, b: seq<T>)
    requires a <= b
    ensures b[..|a|] == a
  {
  }

  /** What was followed beyond `s0` is `e1`, or starts at a slot outside `h0`. */
  ghost predicate AddsOnly(seen: set<(nat, nat)>, s0: set<(nat, nat)>, h0: set<nat>, e1: (nat, nat)) {
    forall e {:trigger e in seen} :: e in seen ==> e in s0 || e == e1 || e.0 !in h0
  }

  lemma {:induction false} AddsOne(seen: set<(nat, nat)>, s0: set<(nat, nat)>, h0: set<nat>, e1: (nat, nat))
    requires forall e {:trigger e in seen} :: e in seen ==> e in s0 + {e1} || e.0 !in h0
    ensures AddsOnly(seen, s0, h0, e1)
  {
  }

  lemma {:induction false} NewStill(s0: set<(nat, nat)>, h0: set<nat>, s1: set<(nat, nat)>, h1: set<nat>,
                                    seen: set<(nat, nat)>, nid: nat, k: nat)
    requires OnlyNew(s1, s0, h0, nid, k) && h0 <= h1
    requires AddsOnly(seen, s1, h1, (nid, k))
    ensures OnlyNew(seen, s0, h0, nid, k + 1)
  {
  }

  lemma {:induction false} KnownAdd(read: Reader, slots: set<nat>, top: nat, hash: map<nat, nat>, seen: set<(nat, nat)>,
                                    nid: nat, x: nat)
    requires Known(read, slots, top, hash, seen) && (nid == top || Seen(read, slots, seen, nid))
    ensures Known(read, slots, top, hash[nid := x], seen)
  {
  }

  ghost predicate Aware(read: Reader, bound: nat, slots: set<nat>, top: nat, hash: map<nat, nat>,
                        seen: set<(nat, nat)>) {
    Sound(read, bound, slots, top) && Known(read, slots, top, hash, seen)
  }

  class Loader {
    const read: Reader
    const bound: nat
    const top: nat
    const ample: bool
    var nodes: seq<LNode>
    var hash: map<nat, nat>
    ghost var made: seq<seq<Entry>>
    ghost var seen: set<(nat, nat)>

    constructor (read: Reader, bound: nat, top: nat, ample: bool)
      ensures this.read == read && this.bound == bound && this.top == top && Valid() && nodes == [] && seen == {}
      ensures this.ample == ample
    {
      this.read, this.bound, this.top, this.ample := read, bound, top, ample;
      nodes, hash, made, seen := [], map[], [], {};
    }

    ghost predicate Valid()
      reads this
    {
      |made| == |nodes| && TableOk(read, nodes, hash) && forall n {:trigger n in hash} :: n in hash ==> n < bound
    }

    /** Slots not met yet. */
    ghost function Left(): set<nat>
      reads this
    {
      set n: nat | n < bound && n !in hash
    }

    /** Builds the node for a slot and everything below it; `good` says that the image has no surprises. */
    method Build(nid: nat, ghost site: (nat, nat), ghost good: bool, ghost slots: set<nat>)
      returns (r: Result<nat, LoadError>)
      requires Valid()
      requires good ==> Aware(read, bound, slots, top, hash, seen) && nid in slots
      requires good ==> nid == top || Seen(read, slots, seen, nid)
      requires good && OneName(read, slots) && nid in hash ==> nodes[hash[nid]].Real?
      modifies this
      ensures Valid() && old(nodes) <= nodes && old(made) <= made && old(hash).Keys <= hash.Keys
      ensures r.Ok? ==>
                r.value == |old(nodes)| < |nodes| && StandsFor(nodes, r.value, nid) && read(nid) != Err(Whiteout)
      ensures r.Ok? ==> AllWhole(read, nodes, made, r.value) && AllParented(nodes, made, r.value, r.value + 1, |nodes|)
      ensures r == Err(Unreadable(Whiteout)) ==>
                read(nid) == Err(Whiteout) && nodes == old(nodes) + [Gone(nid, site)] && made == old(made) + [[]]
      ensures good ==> Aware(read, bound, slots, top, hash, seen) && forall e {:trigger e in seen} :: e in seen ==>
                e in old(seen) || e.0 !in old(hash)
      ensures good ==> r.Ok? || r.error == Unreadable(Whiteout) || Expected(read, slots, r.error, ample)
      decreases Left(), 1
    {
      if nid >= bound { return Err(Unreadable(Invalid)); }
      if nid in hash {
        if nodes[hash[nid]].Gone? { return Err(Freed); }
        r := LinkTo(nid);
        return;
      }
      var data := read(nid);
      if data.Err? && !data.error.Whiteout? { return Err(Unreadable(data.error)); }
      if data.Err? {
        if good { KnownAdd(read, slots, top, hash, seen, nid, |nodes|); }
        GiveUp(nid, site);
        return Err(Unreadable(Whiteout));
      }
      r := BuildNew(nid, data.value, good, slots);
    }

    /** The same for a slot that is met for the first time and is a node. */
    method BuildNew(nid: nat, data: NodeRead, ghost good: bool, ghost slots: set<nat>)
      returns (r: Result<nat, LoadError>)
      requires Valid() && nid !in hash && nid < bound && read(nid) == Ok(data)
      requires good ==> Aware(read, bound, slots, top, hash, seen) && nid in slots
      requires good ==> nid == top || Seen(read, slots, seen, nid)
      modifies this
      ensures Valid() && old(nodes) <= nodes && old(made) <= made && old(hash).Keys <= hash.Keys
      ensures r.Ok? ==> r.value == |old(nodes)| < |nodes| && StandsFor(nodes, r.value, nid)
      ensures r.Ok? ==> AllWhole(read, nodes, made, r.value) && AllParented(nodes, made, r.value, r.value + 1, |nodes|)
      ensures r != Err(Unreadable(Whiteout))
      ensures good ==> Aware(read, bound, slots, top, hash, seen) && forall e {:trigger e in seen} :: e in seen ==>
                e in old(seen) || e.0 !in old(hash)
      ensures good ==> r.Ok? || Expected(read, slots, r.error, ample)
      decreases Left(), 0
    {
      if good {
        KnownAdd(read, slots, top, hash, seen, nid, |nodes|);
        NotYet(slots, nid);
      }
      var x := Begin(nid, data);
      r := Fill(x, nid, EntriesOf(data), good, slots);
    }

    /** A slot not met yet has no entries that were followed. */
    lemma {:induction false} NotYet(slots: set<nat>, nid: nat)
      requires Aware(read, bound, slots, top, hash, seen) && nid !in hash
      ensures forall e {:trigger e in seen} :: e in seen ==> e.0 != nid
    {
    }

    method LinkTo(nid: nat) returns (r: Result<nat, LoadError>)
      requires Valid() && nid in hash && nodes[hash[nid]].Real?
      modifies `nodes, `made
      ensures Valid() && nodes == old(nodes) + [Link(hash[nid])] && made == old(made) + [[]] && read(nid).Ok?
      ensures r == Ok(|old(nodes)|) && StandsFor(nodes, |old(nodes)|, nid)
      ensures AllWhole(read, nodes, made, |old(nodes)|)
      ensures AllParented(nodes, made, |old(nodes)|, |old(nodes)| + 1, |nodes|)
    {
      LinkStands(read, nodes, made, hash, nid);
      TableLink(read, nodes, hash, hash[nid]);
      assert IsRead(read, nodes[hash[nid]]);
      r := Ok(|nodes|);
      nodes, made := nodes + [Link(hash[nid])], made + [[]];
    }

    /** The node of a whiteout is not kept, but the slot counts as met. */
    method GiveUp(nid: nat, ghost site: (nat, nat))
      requires Valid() && nid !in hash && nid < bound && read(nid) == Err(Whiteout)
      modifies `nodes, `made, `hash
      ensures Valid() && nodes == old(nodes) + [Gone(nid, site)] && made == old(made) + [[]]
      ensures hash == old(hash)[nid := |old(nodes)|]
    {
      TableAdd(read, nodes, hash, Gone(nid, site));
      nodes, made, hash := nodes + [Gone(nid, site)], made + [[]], hash[nid := |nodes|];
    }

    method Begin(nid: nat, data: NodeRead) returns (x: nat)
      requires Valid() && nid !in hash && nid < bound && read(nid) == Ok(data)
      modifies `nodes, `made, `hash
      ensures Valid() && x == |old(nodes)| && nodes == old(nodes) + [Real(nid, data, [])] && made == old(made) + [[]]
      ensures hash == old(hash)[nid := x] && Grown(read, nodes, made, x, 0) && Left() < old(Left())
    {
      x := |nodes|;
      StartGrown(read, nodes, made, nid, data);
      TableAdd(read, nodes, hash, Real(nid, data, []));
      assert nid in Left();
      nodes, made, hash := nodes + [Real(nid, data, [])], made + [[]], hash[nid := x];
    }

    /** Makes the node that was just built a child of node `x`. */
    method Attach(x: nat, k: nat, d: Dirent, c: nat) returns (error: Option<AddError>)
      requires Valid() && Pending(read, nodes, made, x, k, c, d.nid) && k < |EntriesOf(nodes[x].data)|
      requires d == EntriesOf(nodes[x].data)[k]
      requires Kept(read, d)
      modifies `nodes, `made
      ensures Valid() && nodes[..x] == old(nodes)[..x] && made[..x] == old(made)[..x] && |nodes| == |old(nodes)|
      ensures error.None? ==> Grown(read, nodes, made, x, k + 1)
      ensures error.None? ==> nodes[x].nid == old(nodes[x].nid) && nodes[x].data == old(nodes[x].data)
      ensures 1 <= |d.name| <= 255 && !Has(old(nodes[x].children), d.name) ==>
                error.None? || (error == Some(NoMemory) && !ample)
    {
      var list;
      error, list := AddTo(true, nodes[x].children, false, Entry(d.name, c), ample);
      if error.Some? { return; }
      ghost var nodes1, made1 := nodes, made;
      TableChild(read, nodes, hash, x, list);
      nodes := nodes[x := nodes[x].(children := list)];
      made := made[x := made[x] + [Entry(d.name, c)]];
      GrowChild(read, nodes1, made1, x, k, c, d, list, nodes, made);
    }

    /** Deals with one entry of the directory that node `x` is built from. */
    method Next(x: nat, nid: nat, ds: seq<Dirent>, k: nat, ghost good: bool, ghost slots: set<nat>)
      returns (error: Option<LoadError>)
      requires Valid() && x < |nodes| && Grown(read, nodes, made, x, k) && k < |ds| && nid in hash
      requires nodes[x].nid == nid && ds == EntriesOf(nodes[x].data)
      requires good ==> Aware(read, bound, slots, top, hash, seen) && nid in slots
      requires good ==> forall e {:trigger e in seen} :: e in seen && e.0 == nid ==> e.1 < k
      modifies this
      ensures Valid() && old(nodes)[..x] <= nodes && old(made)[..x] <= made && old(hash).Keys <= hash.Keys
      ensures error.None? ==>
                Grown(read, nodes, made, x, k + 1) && nodes[x].nid == nid && EntriesOf(nodes[x].data) == ds
      ensures error != Some(Unreadable(Whiteout))
      ensures good ==> Aware(read, bound, slots, top, hash, seen) && AddsOnly(seen, old(seen), old(hash).Keys, (nid, k))
      ensures good ==> error.None? || Expected(read, slots, error.value, ample)
      decreases Left(), 3
    {
      var d := ds[k];
      if IsDot(d.name) {
        GrowDot(read, nodes, made, x, k);
        return None;
      }
      ghost var nodes0, made0 := nodes, made;
      var child := Descend(x, nid, ds, k, d, good, slots);
      ghost var nodes1, made1 := nodes, made;
      FrontKept(nodes0, nodes1, nodes1, x);
      FrontKept(made0, made1, made1, x);
      if child == Err(Unreadable(Whiteout)) { return None; }
      if child.Err? { return Some(child.error); }
      if good { NameNew(read, nodes, made, x, k, slots); }
      var refused := Attach(x, k, d, child.value);
      FrontKept(nodes0, nodes1, nodes, x);
      FrontKept(made0, made1, made, x);
      return if refused.Some? then Some(Refused(refused.value)) else None;
    }

    /** Builds what one entry leads to. */
    method Descend(x: nat, nid: nat, ds: seq<Dirent>, k: nat, d: Dirent, ghost good: bool, ghost slots: set<nat>)
      returns (child: Result<nat, LoadError>)
      requires Valid() && x < |nodes| && Grown(read, nodes, made, x, k) && k < |ds| && nid in hash && d == ds[k]
      requires !IsDot(d.name)
      requires nodes[x].nid == nid && ds == EntriesOf(nodes[x].data)
      requires good ==> Aware(read, bound, slots, top, hash, seen) && nid in slots
      requires good ==> forall e {:trigger e in seen} :: e in seen && e.0 == nid ==> e.1 < k
      modifies this
      ensures Valid() && old(nodes) <= nodes && old(made) <= made && old(hash).Keys <= hash.Keys
      ensures child.Ok? ==> Kept(read, d) && Pending(read, nodes, made, x, k, child.value, d.nid)
      ensures child == Err(Unreadable(Whiteout)) ==> Grown(read, nodes, made, x, k + 1)
      ensures good ==> Aware(read, bound, slots, top, hash, seen) && AddsOnly(seen, old(seen), old(hash).Keys, (nid, k))
      ensures good ==> child.Ok? || child.error == Unreadable(Whiteout) || Expected(read, slots, child.error, ample)
      decreases Left(), 2
    {
      ghost var nodes0, made0, seen0, keys := nodes, made, seen, hash.Keys;
      if good { Follow(slots, x, nid, k); }
      seen := seen + if good then {(nid, k)} else {};
      child := Build(d.nid, (x, k), good, slots);
      if good { AddsOne(seen, seen0, keys, (nid, k)); }
      if child.Ok? {
        GrowOver(read, nodes0, made0, nodes, made, x, k, d.nid);
      } else if child == Err(Unreadable(Whiteout)) {
        GrowGone(read, nodes0, made0, x, k, d.nid);
      }
    }

    /** Builds the children of the node that was built last. */
    method Fill(x: nat, nid: nat, ds: seq<Dirent>, ghost good: bool, ghost slots: set<nat>)
      returns (r: Result<nat, LoadError>)
      requires Valid() && x + 1 == |nodes| && Grown(read, nodes, made, x, 0) && nodes[x].nid == nid
      requires ds == EntriesOf(nodes[x].data)
      requires nid in hash && made[x] == []
      requires good ==> Aware(read, bound, slots, top, hash, seen) && nid in slots
      requires good ==> forall e {:trigger e in seen} :: e in seen ==> e.0 != nid
      modifies this
      ensures Valid() && old(nodes)[..x] <= nodes && old(made)[..x] <= made && old(hash).Keys <= hash.Keys
      ensures r.Ok? ==> r.value == x < |nodes| && StandsFor(nodes, x, nid)
      ensures r.Ok? ==> AllWhole(read, nodes, made, x) && AllParented(nodes, made, x, x + 1, |nodes|)
      ensures r != Err(Unreadable(Whiteout))
      ensures good ==> Aware(read, bound, slots, top, hash, seen) && forall e {:trigger e in seen} :: e in seen ==>
                e in old(seen) || e.0 == nid || e.0 !in old(hash)
      ensures good ==> r.Ok? || Expected(read, slots, r.error, ample)
      decreases Left(), 4
    {
      ghost var n0, m0, h0, s0 := nodes[..x], made[..x], hash.Keys, seen;
      var k := 0;
      while k < |ds|
        invariant Valid() && Standing(x, nid, ds, k) && n0 <= nodes && m0 <= made && h0 <= hash.Keys
        invariant good ==> Aware(read, bound, slots, top, hash, seen) && OnlyNew(seen, s0, h0, nid, k)
        decreases |ds| - k
      {
        ghost var h1, s1 := hash.Keys, seen;
        FrontIs(n0, nodes);
        FrontIs(m0, made);
        var e := Next(x, nid, ds, k, good, slots);
        if good { NewStill(s0, h0, s1, h1, seen, nid, k); }
        if e.Some? { return Err(e.value); }
        k := k + 1;
      }
      GrownWhole(read, nodes, made, x);
      return Ok(x);
    }

    /** Node `x` is being filled and has its first `k` entries. */
    ghost predicate Standing(x: nat, nid: nat, ds: seq<Dirent>, k: nat)
      reads this
    {
      && k <= |ds| && x < |nodes| && Grown(read, nodes, made, x, k)
      && nodes[x].nid == nid && EntriesOf(nodes[x].data) == ds
    }

    /** The next entry is one more that is followed. */
    lemma {:induction false} Follow(slots: set<nat>, x: nat, nid: nat, k: nat)
      requires Valid() && Aware(read, bound, slots, top, hash, seen) && nid in slots && nid in hash
      requires x < |nodes| && nodes[x].Real?
      requires nodes[x].nid == nid
      requires read(nid) == Ok(nodes[x].data) && k < |EntriesOf(nodes[x].data)|
      requires !IsDot(EntriesOf(nodes[x].data)[k].name)
      requires forall e {:trigger e in seen} :: e in seen && e.0 == nid ==> e.1 < k
      ensures IsEdge(read, slots, nid, k) && Known(read, slots, top, hash, seen + {(nid, k)})
      ensures var w := EntriesOf(nodes[x].data)[k].nid;
              w in slots && Seen(read, slots, seen + {(nid, k)}, w) &&
              (OneName(read, slots) && w in hash ==> nodes[hash[w]].Real?)
    {
      var w := EntriesOf(nodes[x].data)[k].nid;
      assert SlotGood(read, slots, nid);
      assert IsEdge(read, slots, nid, k) && EdgeSlot(read, slots, nid, k) == w;
      if OneName(read, slots) && w in hash { NotGone(read, bound, slots, top, nodes, hash, seen, nid, k); }
      assert (nid, k) in seen + {(nid, k)};
      forall n | n in hash
        ensures n == top || Seen(read, slots, seen + {(nid, k)}, n)
      {
        if n != top {
          assert Seen(read, slots, seen, n);
          var e :| e in seen && IsEdge(read, slots, e.0, e.1) && EdgeSlot(read, slots, e.0, e.1) == n;
          assert e in seen + {(nid, k)};
        }
      }
    }
  }

  /** The finished tree: a node for each slot once, links for the rest, everything filled and below the root. */
  ghost predicate Rebuilt(read: Reader, nodes: seq<LNode>, hash: map<nat, nat>, made: seq<seq<Entry>>, top: nat) {
    && |made| == |nodes| && TableOk(read, nodes, hash) && StandsFor(nodes, 0, top)
    && AllWhole(read, nodes, made, 0) && AllParented(nodes, made, 0, 1, |nodes|)
  }

  /** Loads the tree below a slot; when the image has no surprises only memory can be short. */
  method LoadTree(read: Reader, bound: nat, top: nat, ghost slots: set<nat>, ample: bool)
    returns (error: Option<LoadError>, loader: Loader)
    ensures fresh(loader) && loader.read == read
    ensures error.None? ==> Rebuilt(read, loader.nodes, loader.hash, loader.made, top)
    ensures Sound(read, bound, slots, top) ==> error.None? || Expected(read, slots, error.value, ample)
  {
    loader := new Loader(read, bound, top, ample);
    ghost var good := Sound(read, bound, slots, top);
    var r := loader.Build(top, (0, 0), good, slots);
    return if r.Err? then Some(r.error) else None, loader;
  }
}
