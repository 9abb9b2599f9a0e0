/** Copying a tree of nodes.  Nodes are numbered; a new one gets the next number. */
module TreeClone {
  import opened Common
  import opened Bytes
  import opened Order
  import opened Children

  /** `data` stands for everything a node holds besides its place in the tree. */
  datatype CNode = CNode(data: bytes, isDir: bool, named: bool, children: seq<Entry>, link: Option<nat>)

  /** What every tree built by adding children is like; `rank` falls from parent to child. */
  ghost predicate SourceOk(s: seq<CNode>, rank: nat -> nat) {
    forall n {:trigger s[n]} :: 0 <= n < |s| ==> SourceNodeOk(s, rank, n)
  }

  ghost predicate SourceNodeOk(s: seq<CNode>, rank: nat -> nat, n: nat)
    requires n < |s|
  {
    && Sorted(s[n].children) && (s[n].isDir || s[n].children == [])
    && forall j {:trigger s[n].children[j]} :: 0 <= j < |s[n].children| ==>
         var e := s[n].children[j];
         e.node < |s| && rank(e.node) < rank(n) && 1 <= |e.name| <= 255
  }

  // ---------- what the copy is like ----------

  /** The old number behind each new one: the clone of `m[i]` is node `|s| + i`. */
  type Mapping = seq<nat>

  ghost predicate Maps(s: seq<CNode>, m: Mapping, old': nat, new': nat) {
    |s| <= new' < |s| + |m| && m[new' - |s|] == old'
  }

  /** Clone `i` has its data, its link and clones of its first `k` children, with their names. */
  ghost predicate Copied(s: seq<CNode>, t: seq<CNode>, m: Mapping, i: nat, k: nat) {
    && i < |m| && m[i] < |s| && |s| + i < |t|
    && var o, c := s[m[i]], t[|s| + i];
       && c.data == o.data && c.isDir == o.isDir && c.link == o.link && k == |c.children| <= |o.children|
       && forall j {:trigger c.children[j]} {:trigger o.children[j]} :: 0 <= j < k ==>
            && c.children[j].name == o.children[j].name && c.children[j].node > |s| + i
            && Maps(s, m, o.children[j].node, c.children[j].node)
  }

  ghost predicate Whole(s: seq<CNode>, t: seq<CNode>, m: Mapping, i: nat) {
    i < |m| && m[i] < |s| && Copied(s, t, m, i, |s[m[i]].children|)
  }

  ghost predicate AllWhole(s: seq<CNode>, t: seq<CNode>, m: Mapping, lo: nat, hi: nat) {
    forall i {:trigger Whole(s, t, m, i)} :: lo <= i < hi ==> Whole(s, t, m, i)
  }

  ghost predicate IsChild(t: seq<CNode>, p: nat, c: nat) {
    p < |t| && exists j :: 0 <= j < |t[p].children| && t[p].children[j].node == c
  }

  /** The new node is a child of an earlier one, but not of one before `b`. */
  ghost predicate Parented(t: seq<CNode>, b: nat, x: nat) {
    exists p: nat :: b <= p < x && IsChild(t, p, x)
  }

  ghost predicate AllParented(t: seq<CNode>, b: nat, lo: nat, hi: nat) {
    forall x {:trigger Parented(t, b, x)} :: lo <= x < hi ==> Parented(t, b, x)
  }

  lemma {:induction false} KeepWhole(s: seq<CNode>, t: seq<CNode>, m: Mapping, t': seq<CNode>, m': Mapping, lo: nat,
                                    hi: nat)
    requires AllWhole(s, t, m, lo, hi) && m <= m' && |s| + hi <= |t| <= |t'|
    requires forall k {:trigger t'[k]} :: |s| + lo <= k < |s| + hi ==> t'[k] == t[k].(named := t'[k].named)
    ensures AllWhole(s, t', m', lo, hi)
  {
    forall i | lo <= i < hi
      ensures Whole(s, t', m', i)
    {
      assert Whole(s, t, m, i);
      KeepCopied(s, t, m, t', m', i, |s[m[i]].children|);
    }
  }

  lemma {:induction false} KeepCopied(s: seq<CNode>, t: seq<CNode>, m: Mapping, t': seq<CNode>, m': Mapping, i: nat,
                                    k: nat)
    requires Copied(s, t, m, i, k) && m <= m' && |s| + i < |t'|
    requires t'[|s| + i] == t[|s| + i].(named := t'[|s| + i].named)
    ensures Copied(s, t', m', i, k)
  {
  }

  lemma {:induction false} KeepParented(t: seq<CNode>, t': seq<CNode>, b: nat, b': nat, lo: nat, hi: nat)
    requires AllParented(t, b', lo, hi) && |t| <= |t'| && b <= b'
    requires forall k {:trigger t'[k]} :: b' <= k < |t| ==> t[k].children <= t'[k].children
    ensures AllParented(t', b, lo, hi)
  {
    forall x | lo <= x < hi
      ensures Parented(t', b, x)
    {
      assert Parented(t, b', x);
      var p: nat :| b' <= p < x && IsChild(t, p, x);
      assert t'[p].children[..|t[p].children|] == t[p].children;
      assert IsChild(t', p, x);
    }
  }

  /** A child added under a greater name comes last. */
  lemma {:induction false} AddedLast(list: seq<Entry>, e: Entry, list': seq<Entry>)
    requires Sorted(list + [e]) && AddedTo(list, e, list')
    ensures list' == list + [e]
  {
    ChildrenCanonical(list', list + [e]);
  }

  lemma {:induction false} NewName(all: seq<Entry>, list: seq<Entry>, k: nat, node: nat)
    requires Sorted(all) && k < |all| && k == |list|
    requires forall j {:trigger list[j]} :: 0 <= j < k ==> list[j].name == all[j].name
    ensures Sorted(list + [Entry(all[k].name, node)]) && !Has(list, all[k].name) && Sorted(list)
  {
    LessIrreflexive(all[k].name);
    var l := list + [Entry(all[k].name, node)];
    forall i, j | 0 <= i < j < |l|
      ensures Less(l[i].name, l[j].name)
    {
      assert l[i].name == all[i].name && l[j].name == all[j].name;
    }
    forall j | 0 <= j < k
      ensures list[j].name != all[k].name
    {
      assert Less(all[j].name, all[k].name);
    }
  }

  // ---------- copying ----------

  /** If memory is ample no allocation fails. */
  class Cloner {
    const ample: bool
    var nodes: seq<CNode>
    var mapping: Mapping

    /** The nodes from `s` on are the clones, in the order of the mapping. */
    ghost predicate Aligned(s: seq<CNode>)
      reads this
    {
      s <= nodes && |nodes| == |s| + |mapping|
    }

    /** Copies a node without its name and its children. */
    method Clone(n: nat) returns (ok: bool)
      requires n < |nodes|
      modifies `nodes
      ensures nodes == old(nodes) + if ok then [old(nodes)[n].(named := false, children := [])] else []
      ensures ample ==> ok
    {
      var granted: bool := *;
      if !ample && !granted { return false; }
      nodes := nodes + [nodes[n].(named := false, children := [])];
      return true;
    }

    method AddChild(p: nat, c: nat, name: bytes) returns (error: Option<AddError>)
      requires p < |nodes| && c < |nodes| && p != c && Sorted(nodes[p].children)
      modifies `nodes
      ensures error.Some? ==> nodes == old(nodes)
      ensures error.None? ==> exists list ::
                && AddedTo(old(nodes)[p].children, Entry(name, c), list)
                && nodes == old(nodes)[p := old(nodes)[p].(children := list)][c := old(nodes)[c].(named := true)]
      ensures nodes != old(nodes) ==> error.None?
      ensures old(nodes)[p].isDir && 1 <= |name| <= 255 && !old(nodes)[c].named
              && !Has(old(nodes)[p].children, name) ==>
                error.None? || (error == Some(NoMemory) && !ample)
    {
      var list;
      error, list := AddTo(nodes[p].isDir, nodes[p].children, nodes[c].named, Entry(name, c), ample);
      if error.Some? { return; }
      nodes := nodes[p := nodes[p].(children := list)][c := nodes[c].(named := true)];
    }

    /** Adds a clone as the next child of its parent's clone. */
    method AddNext(ghost s: seq<CNode>, ghost b: nat, p: nat, c: nat, name: bytes, ghost k: nat) returns (ok: bool)
      requires |s| <= p < c < |nodes| && p - |s| == b && Aligned(s) && !nodes[c].named
      requires Copied(s, nodes, mapping, b, k) && k < |s[mapping[b]].children| && Sorted(s[mapping[b]].children)
      requires s[mapping[b]].children[k].name == name && 1 <= |name| <= 255 && nodes[p].isDir
      requires mapping[c - |s|] == s[mapping[b]].children[k].node
      modifies `nodes
      ensures !ok ==> nodes == old(nodes)
      ensures ok ==>
                nodes == old(nodes)[p := old(nodes)[p].(children := old(nodes)[p].children + [Entry(name, c)])]
                                   [c := old(nodes)[c].(named := true)]
      ensures ok ==> Copied(s, nodes, mapping, b, k + 1)
      ensures ample ==> ok
    {
      NewName(s[mapping[b]].children, nodes[p].children, k, c);
      var error := AddChild(p, c, name);
      if error.Some? { return false; }
      ghost var list :| AddedTo(old(nodes)[p].children, Entry(name, c), list)
        && nodes == old(nodes)[p := old(nodes)[p].(children := list)][c := old(nodes)[c].(named := true)];
      AddedLast(old(nodes)[p].children, Entry(name, c), list);
      return true;
    }

    /** Copies the children of a node whose own clone is the last node; `x` is that clone. */
    method CopyChildren(n: nat, x: nat, ghost s: seq<CNode>, ghost rank: nat -> nat) returns (ok: bool)
      requires SourceOk(s, rank) && n < |s| && Aligned(s) && |s| <= x == |nodes| - 1 && !nodes[x].named
      requires Copied(s, nodes, mapping, x - |s|, 0) && mapping[x - |s|] == n
      modifies this
      ensures Aligned(s) && old(nodes)[..x] <= nodes && old(mapping) <= mapping
      ensures ok ==> Grown(s, nodes, mapping, x, |s[n].children|)
      ensures ample ==> ok
      decreases rank(n), 0
    {
      var k := 0;
      while k < |nodes[n].children|
        invariant Aligned(s) && old(nodes)[..x] <= nodes && old(mapping) <= mapping && 0 <= k <= |s[n].children|
        invariant Grown(s, nodes, mapping, x, k)
        decreases |s[n].children| - k
      {
        assert SourceNodeOk(s, rank, n);
        var child := nodes[n].children[k];
        assert child == s[n].children[k];
        ghost var t, m := nodes, mapping;
        var r := CopyTree(child.node, s, rank);
        if r.None? { return false; }
        GrowOver(s, t, m, nodes, mapping, x, k, r.value, child.node);
        ghost var t' := nodes;
        ok := AddNext(s, x - |s|, x, r.value, child.name, k);
        if !ok { return; }
        GrowNext(s, t', nodes, mapping, x, k, r.value, child.name);
        k := k + 1;
      }
      return true;
    }

    /** Copies a node and everything below it. */
    method CopyTree(n: nat, ghost s: seq<CNode>, ghost rank: nat -> nat) returns (r: Option<nat>)
      requires SourceOk(s, rank) && n < |s| && Aligned(s)
      modifies this
      ensures Aligned(s) && old(nodes) <= nodes && old(mapping) <= mapping
      ensures r.Some? ==> r.value == |old(nodes)| && Subtree(s, nodes, mapping, r.value, n)
      ensures ample ==> r.Some?
      decreases rank(n), 1
    {
      var x := |nodes|;
      var ok := Clone(n);
      if !ok { return None; }
      var granted: bool := *;
      if !ample && !granted {
        nodes := nodes[..x];
        return None;
      }
      mapping := mapping + [n];
      assert s[n] == old(nodes)[n];
      ok := CopyChildren(n, x, s, rank);
      if !ok { return None; }
      return Some(x);
    }

    /** Points one link at the clone of what it pointed to, if that was copied. */
    method Rewrite(x: nat, base: nat)
      requires x < |nodes|
      modifies `nodes
      ensures nodes == old(nodes)[x := old(nodes)[x].(link := Redirect(base, mapping, old(nodes)[x].link))]
    {
      if nodes[x].link.None? { return; }
      var i := 0;
      while i < |mapping|
        invariant 0 <= i <= |mapping| && nodes == old(nodes) && nodes[x].link.value !in mapping[..i]
      {
        if mapping[i] == nodes[x].link.value {
          nodes := nodes[x := nodes[x].(link := Some(base + i))];
          return;
        }
        assert mapping[..i + 1] == mapping[..i] + [mapping[i]];
        i := i + 1;
      }
      assert mapping[..i] == mapping;
    }

    method RewriteLinks(x: nat, base: nat, ghost o: seq<CNode>, ghost done: set<nat>) returns (ghost done': set<nat>)
      requires base <= x < |o| && Forward(o, base) && (forall v | v in mapping :: v < base)
      requires Rewritten(base, mapping, o, nodes, done) && ChildClosed(o, done)
      modifies `nodes
      ensures Rewritten(base, mapping, o, nodes, done') && ChildClosed(o, done') && done <= done' && x in done'
      decreases |o| - x
    {
      done' := done;
      var j := 0;
      while j < |nodes[x].children|
        invariant 0 <= j <= |o[x].children| && Rewritten(base, mapping, o, nodes, done') && ChildClosed(o, done')
        invariant done <= done'
        invariant forall k {:trigger o[x].children[k]} :: 0 <= k < j ==> o[x].children[k].node in done'
        decreases |o[x].children| - j
      {
        assert nodes[x].children == o[x].children;
        done' := RewriteLinks(nodes[x].children[j].node, base, o, done');
        j := j + 1;
      }
      ghost var t := nodes;
      Rewrite(x, base);
      RewriteStep(base, mapping, o, t, nodes, done', x);
      done' := done' + {x};
    }

    /** The whole copy. */
    method CloneDeep(n: nat, ghost s: seq<CNode>, ghost rank: nat -> nat) returns (r: Option<nat>)
      requires SourceOk(s, rank) && n < |s| && nodes == s && mapping == []
      modifies this
      ensures s <= nodes
      ensures r.Some? ==> r.value == |s| && Isomorphic(s, nodes, mapping, n)
      ensures ample ==> r.Some?
    {
      var base := |nodes|;
      r := CopyTree(n, s, rank);
      if r.None? { return; }
      ghost var t := nodes;
      WholeMeans(s, t, mapping, n);
      ghost var done := RewriteLinks(base, base, t, {});
      AllDone(t, base, done, |t|);
      Finished(s, t, nodes, mapping, n, done);
    }
  }

  // ---------- links ----------

  function IndexOf(m: Mapping, x: nat): (i: nat)
    requires x in m
    ensures i < |m| && m[i] == x && x !in m[..i]
  {
    if m[0] == x then 0 else
    assert m == [m[0]] + m[1..];
    var i := IndexOf(m[1..], x);
    assert m[..i + 1] == [m[0]] + m[1..][..i];
    i + 1
  }

  /** A link to something copied leads to its clone, any other link stays. */
  function Redirect(base: nat, m: Mapping, link: Option<nat>): Option<nat> {
    if link.Some? && link.value in m then Some(base + IndexOf(m, link.value)) else link
  }

  ghost predicate Rewritten(base: nat, m: Mapping, o: seq<CNode>, t: seq<CNode>, done: set<nat>) {
    && |t| == |o| && (forall k | k in done :: base <= k < |o|)
    && forall k {:trigger t[k]} :: 0 <= k < |o| ==>
         t[k] == if k in done then o[k].(link := Redirect(base, m, o[k].link)) else o[k]
  }

  ghost predicate ChildClosed(o: seq<CNode>, done: set<nat>) {
    forall k, j {:trigger k in done, o[k].children[j]} :: k in done && 0 <= k < |o| && 0 <= j < |o[k].children| ==>
      o[k].children[j].node in done
  }

  /** Children of clones come after their parents. */
  ghost predicate Forward(o: seq<CNode>, base: nat) {
    forall k, j {:trigger o[k].children[j]} :: base <= k < |o| && 0 <= j < |o[k].children| ==>
      k < o[k].children[j].node < |o|
  }

  lemma {:induction false} RewriteStep(base: nat, m: Mapping, o: seq<CNode>, t: seq<CNode>, t': seq<CNode>,
                                    done: set<nat>,
                                    x: nat)
    requires Rewritten(base, m, o, t, done) && base <= x < |o| && (forall v | v in m :: v < base)
    requires t' == t[x := t[x].(link := Redirect(base, m, t[x].link))]
    ensures Rewritten(base, m, o, t', done + {x})
  {
    assert t[x].link == Redirect(base, m, o[x].link) || t[x].link == o[x].link;
    if x in done { assert Redirect(base, m, t[x].link) == t[x].link; }
  }

  /** Everything behind the first clone is below it, so it is reached. */
  lemma {:induction false} AllDone(t: seq<CNode>, base: nat, done: set<nat>, hi: nat)
    requires base < hi <= |t| && AllParented(t, base, base + 1, |t|) && ChildClosed(t, done) && base in done
    ensures forall k | base <= k < hi :: k in done
  {
    if hi > base + 1 {
      var x := hi - 1;
      AllDone(t, base, done, x);
      assert Parented(t, base, x);
      var p: nat :| base <= p < x && IsChild(t, p, x);
      assert p in done;
    }
  }

  // ---------- the result ----------

  /** A link to something copied leads to the first clone of that, any other link stays. */
  ghost predicate LinkCopied(base: nat, m: Mapping, link: Option<nat>, copied: Option<nat>) {
    if link.None? || link.value !in m then copied == link else
    copied.Some? && var k := copied.value - base; 0 <= k < |m| && m[k] == link.value && link.value !in m[..k]
  }

  /** Clone `i` is its original: the data, the names, clones for children, and the link by the same rule for all. */
  ghost predicate IsClone(s: seq<CNode>, t: seq<CNode>, m: Mapping, i: nat) {
    && i < |m| && m[i] < |s| && |s| + i < |t|
    && var o, c := s[m[i]], t[|s| + i];
       && c.data == o.data && c.isDir == o.isDir && LinkCopied(|s|, m, o.link, c.link)
       && |c.children| == |o.children|
       && forall j {:trigger c.children[j]} {:trigger o.children[j]} :: 0 <= j < |o.children| ==>
            c.children[j].name == o.children[j].name && Maps(s, m, o.children[j].node, c.children[j].node)
  }

  /**
   The old nodes are as before, and the new ones are the clones of `n` and what is below it, all below the first, which
   has no name.
   */
  ghost predicate Isomorphic(s: seq<CNode>, t: seq<CNode>, m: Mapping, n: nat) {
    && s <= t && |t| == |s| + |m| && m != [] && m[0] == n && !t[|s|].named
    && (forall i {:trigger IsClone(s, t, m, i)} :: 0 <= i < |m| ==> IsClone(s, t, m, i))
    && AllParented(t, |s|, |s| + 1, |t|)
  }

  lemma {:induction false} WholeMeans(s: seq<CNode>, t: seq<CNode>, m: Mapping, n: nat)
    requires Subtree(s, t, m, |s|, n)
    ensures Forward(t, |s|) && forall v | v in m :: v < |s|
  {
    forall k, j | |s| <= k < |t| && 0 <= j < |t[k].children|
      ensures k < t[k].children[j].node < |t|
    {
      assert Whole(s, t, m, k - |s|);
    }
    forall v | v in m
      ensures v < |s|
    {
      var i: nat :| i < |m| && m[i] == v;
      assert Whole(s, t, m, i);
    }
  }

  lemma {:induction false} Finished(s: seq<CNode>, t: seq<CNode>, t': seq<CNode>, m: Mapping, n: nat, done: set<nat>)
    requires s <= t && Subtree(s, t, m, |s|, n) && Rewritten(|s|, m, t, t', done)
    requires forall k | |s| <= k < |t| :: k in done
    ensures s <= t' && Isomorphic(s, t', m, n)
  {
    forall i | 0 <= i < |m|
      ensures IsClone(s, t', m, i)
    {
      assert Whole(s, t, m, i);
      assert t'[|s| + i] == t[|s| + i].(link := Redirect(|s|, m, t[|s| + i].link));
    }
    KeepParented(t, t', |s|, |s|, |s| + 1, |t|);
    forall k | 0 <= k < |s|
      ensures t'[k] == s[k]
    {
      assert t[k] == s[k];
    }
  }

  lemma {:induction false} ParentOf(s: seq<CNode>, t: seq<CNode>, m: Mapping, n: nat, i: nat) returns (p: nat, j: nat)
    requires Isomorphic(s, t, m, n) && 0 < i < |m|
    ensures p < i && m[p] < |s| && j < |s[m[p]].children| && s[m[p]].children[j].node == m[i]
    ensures j < |t[|s| + p].children| && t[|s| + p].children[j].node == |s| + i
  {
    assert Parented(t, |s|, |s| + i);
    var q: nat :| |s| <= q < |s| + i && IsChild(t, q, |s| + i);
    p := q - |s|;
    j :| 0 <= j < |t[q].children| && t[q].children[j].node == |s| + i;
    assert IsClone(s, t, m, p);
  }

  /** Every node is a child at most once, at `up`, and the root of the copied tree is none. */
  ghost predicate OnePlace(s: seq<CNode>, up: map<nat, (nat, nat)>, n: nat) {
    n !in up && forall p, j {:trigger s[p].children[j]} :: 0 <= p < |s| && 0 <= j < |s[p].children| ==>
      s[p].children[j].node in up && up[s[p].children[j].node] == (p, j)
  }

  /** In a tree every node has one clone, so a link that is rewritten leads to the clone of its target. */
  lemma {:induction false} ClonedOnce(s: seq<CNode>, t: seq<CNode>, m: Mapping, n: nat, up: map<nat, (nat, nat)>,
                                    i: nat,
                                    k: nat)
    requires Isomorphic(s, t, m, n) && OnePlace(s, up, n) && i < k < |m|
    ensures m[i] != m[k]
    decreases k
  {
    if m[i] == m[k] {
      var p, j := ParentOf(s, t, m, n, k);
      assert up[m[k]] == (m[p], j);
      if i > 0 {
        var p', j' := ParentOf(s, t, m, n, i);
        assert up[m[i]] == (m[p'], j');
        if p < p' { ClonedOnce(s, t, m, n, up, p, p'); }
        if p' < p { ClonedOnce(s, t, m, n, up, p', p); }
      }
    }
  }

  ghost predicate Leads(s: seq<CNode>, path: seq<nat>, n: nat, x: nat) {
    && |path| > 0 && path[0] == n && path[|path| - 1] == x
    && forall i {:trigger path[i]} :: 0 <= i < |path| - 1 ==> path[i] < |s| && IsChild(s, path[i], path[i + 1])
  }

  lemma {:induction false} ReachedIsCloned(s: seq<CNode>, t: seq<CNode>, m: Mapping, n: nat, x: nat, path: seq<nat>)
    requires Isomorphic(s, t, m, n) && Leads(s, path, n, x)
    ensures x in m
    decreases |path|
  {
    if |path| > 1 {
      var y := path[|path| - 2];
      ReachedIsCloned(s, t, m, n, y, path[..|path| - 1]);
      var i: nat :| i < |m| && m[i] == y;
      assert IsClone(s, t, m, i) && IsChild(s, y, path[|path| - 2 + 1]);
      var j: nat :| j < |s[y].children| && s[y].children[j].node == x;
      assert Maps(s, m, x, t[|s| + i].children[j].node);
    } else {
      assert m[0] in m;
    }
  }

  lemma {:induction false} ClonedIsReached(s: seq<CNode>, t: seq<CNode>, m: Mapping, n: nat, i: nat)
    returns (path: seq<nat>)
    requires Isomorphic(s, t, m, n) && i < |m|
    ensures Leads(s, path, n, m[i])
    decreases i
  {
    if i == 0 { return [n]; }
    var p, j := ParentOf(s, t, m, n, i);
    var front := ClonedIsReached(s, t, m, n, p);
    path := front + [m[i]];
    assert IsChild(s, m[p], m[i]);
  }

  /** Exactly what is below the root was copied. */
  lemma {:induction false} ClonedExactly(s: seq<CNode>, t: seq<CNode>, m: Mapping, n: nat, x: nat)
    requires Isomorphic(s, t, m, n)
    ensures x in m <==> exists path :: Leads(s, path, n, x)
  {
    if x in m {
      var i: nat :| i < |m| && m[i] == x;
      var path := ClonedIsReached(s, t, m, n, i);
    }
    if path :| Leads(s, path, n, x) { ReachedIsCloned(s, t, m, n, x, path); }
  }

  /** The clone `x` has `k` of its children, and everything behind it is whole and below it. */
  ghost predicate Grown(s: seq<CNode>, t: seq<CNode>, m: Mapping, x: nat, k: nat) {
    && |s| <= x < |t| == |s| + |m| && Copied(s, t, m, x - |s|, k) && !t[x].named
    && AllWhole(s, t, m, x - |s| + 1, |m|) && AllParented(t, x, x + 1, |t|)
  }

  /** The nodes from `x` on are the whole clone of `n` and of everything below it. */
  ghost predicate Subtree(s: seq<CNode>, t: seq<CNode>, m: Mapping, x: nat, n: nat) {
    && |s| <= x < |t| == |s| + |m| && m[x - |s|] == n && n < |s| && !t[x].named
    && AllWhole(s, t, m, x - |s|, |m|) && AllParented(t, x, x + 1, |t|)
  }

  /** As `Grown`, with one more clone, `c`, that is not a child yet. */
  ghost predicate Pending(s: seq<CNode>, t: seq<CNode>, m: Mapping, x: nat, k: nat, c: nat) {
    && |s| <= x < c < |t| == |s| + |m| && Copied(s, t, m, x - |s|, k) && !t[x].named && !t[c].named
    && AllWhole(s, t, m, x - |s| + 1, |m|) && AllParented(t, x, x + 1, c) && AllParented(t, c, c + 1, |t|)
  }

  lemma {:induction false} GrowOver(s: seq<CNode>, t: seq<CNode>, m: Mapping, t': seq<CNode>, m': Mapping, x: nat,
                                    k: nat,
                                    c: nat, n: nat)
    requires Grown(s, t, m, x, k) && t <= t' && m <= m' && c == |t| && Subtree(s, t', m', c, n)
    ensures Pending(s, t', m', x, k, c)
  {
    KeepCopied(s, t, m, t', m', x - |s|, k);
    KeepWhole(s, t, m, t', m', x - |s| + 1, |m|);
    KeepParented(t, t', x, x, x + 1, c);
    forall i | x - |s| + 1 <= i < |m'|
      ensures Whole(s, t', m', i)
    {
    }
  }

  lemma {:induction false} GrowNext(s: seq<CNode>, t: seq<CNode>, t': seq<CNode>, m: Mapping, x: nat, k: nat, c: nat,
                                    name: bytes)
    requires Pending(s, t, m, x, k, c) && Copied(s, t', m, x - |s|, k + 1)
    requires t' == t[x := t[x].(children := t[x].children + [Entry(name, c)])][c := t[c].(named := true)]
    ensures Grown(s, t', m, x, k + 1)
  {
    KeepWhole(s, t, m, t', m, x - |s| + 1, |m|);
    KeepParented(t, t', x, x, x + 1, c);
    KeepParented(t, t', x, c, c + 1, |t|);
    assert t'[x].children[|t[x].children|].node == c;
    assert IsChild(t', x, c);
    assert Parented(t', x, c);
  }
}
