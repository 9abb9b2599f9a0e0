/**
 The pass over the tree that puts its nodes into a list and numbers them.  The list is threaded through the nodes
 themselves and grows at its end while it is walked; hard links are not put on it.
 */
module TreeOrder {
  import opened Common
  import opened LevelLists
  import opened HardLinks

  /** The children that are not hard links. */
  function Own(t: Tree, cs: seq<nat>): seq<nat> {
    if cs == [] then [] else
    var c := cs[|cs| - 1];
    Own(t, cs[..|cs| - 1]) + if c < |t| && t[c].link.None? then [c] else []
  }

  /** `picks` are the places of the children that are no hard links, in the order of the directory. */
  ghost predicate Picks(t: Tree, cs: seq<nat>, own: seq<nat>, picks: seq<nat>) {
    && |picks| == |own|
    && (forall i, k {:trigger picks[i], picks[k]} :: 0 <= i < k < |picks| ==> picks[i] < picks[k])
    && (forall i {:trigger picks[i]} :: 0 <= i < |picks| ==> picks[i] < |cs| && own[i] == cs[picks[i]])
    && forall a {:trigger cs[a]} :: 0 <= a < |cs| ==> (a in picks <==> cs[a] < |t| && t[cs[a]].link.None?)
  }

  lemma {:induction false} OwnPicks(t: Tree, cs: seq<nat>) returns (picks: seq<nat>)
    ensures Picks(t, cs, Own(t, cs), picks)
  {
    picks := [];
    if cs != [] {
      var n := |cs| - 1;
      var before := OwnPicks(t, cs[..n]);
      picks := before + if cs[n] < |t| && t[cs[n]].link.None? then [n] else [];
      assert forall a {:trigger cs[a]} :: 0 <= a < n ==> cs[a] == cs[..n][a];
      assert forall a :: a in before ==> a < n;
    }
  }

  ghost function KidsIn(t: Tree): Kids { (p: nat) => if p < |t| then Own(t, t[p].children) else [] }

  lemma {:induction false} OwnIn(t: Tree, cs: seq<nat>)
    ensures forall x | x in Own(t, cs) :: x in cs && x < |t| && t[x].link.None?
  {
    if cs != [] { OwnIn(t, cs[..|cs| - 1]); }
  }

  lemma {:induction false} OwnPrefix(t: Tree, cs: seq<nat>, m: nat)
    requires m <= |cs|
    ensures Own(t, cs[..m]) <= Own(t, cs)
  {
    if m < |cs| {
      var n := |cs| - 1;
      OwnPrefix(t, cs[..n], m);
      assert cs[..n][..m] == cs[..m];
    } else {
      assert cs[..m] == cs;
    }
  }

  lemma {:induction false} ListIn(t: Tree, root: nat, q: seq<nat>)
    requires root < |t|
    ensures forall x | x in KidsOf(KidsIn(t), q) :: x < |t| && t[x].link.None?
  {
    if q != [] {
      var n := |q| - 1;
      ListIn(t, root, q[..n]);
      if q[n] < |t| { OwnIn(t, t[q[n]].children); }
    }
  }

  // ---------- the pass ----------

  datatype TreeError = NotDirectory | DirectoryLink | LinkLoop | LinkOutside

  /** Links lead from one listed node to the next, and nowhere from the others. */
  ghost predicate Chained(next: seq<Option<nat>>, q: seq<nat>) {
    && (forall k {:trigger q[k]} :: 0 <= k < |q| ==> q[k] < |next|)
    && (forall k {:trigger next[q[k]]} :: 0 <= k < |q| ==> next[q[k]] == if k + 1 < |q| then Some(q[k + 1]) else None)
    && forall n {:trigger next[n]} :: 0 <= n < |next| && n !in q ==> next[n].None?
  }

  ghost predicate First(q: seq<nat>, n: nat) { |q| > 0 && q[0] == n }

  ghost predicate Last(q: seq<nat>, n: nat) { |q| > 0 && q[|q| - 1] == n }

  lemma {:induction false} ChainStep(next: seq<Option<nat>>, q: seq<nat>, c: nat)
    requires Chained(next, q) && NoDup(q) && |q| > 0 && c < |next| && c !in q
    ensures Chained(next[q[|q| - 1] := Some(c)], q + [c])
  {
    var end := q[|q| - 1];
    var next', q' := next[end := Some(c)], q + [c];
    forall k | 0 <= k < |q'|
      ensures q'[k] < |next'| && next'[q'[k]] == if k + 1 < |q'| then Some(q'[k + 1]) else None
    {
      assert k < |q| - 1 ==> q[k] != end;
    }
    assert forall x :: x in q ==> x in q';
    assert end in q;
  }

  /** Earlier in time. */
  predicate Earlier(sec: int, nsec: nat, sec': int, nsec': nat) { sec < sec' || (sec == sec' && nsec < nsec') }

  predicate HasTime(t: Tree, x: nat, sec: int, nsec: nat) { x < |t| && t[x].sec == sec && t[x].nsec == nsec }

  predicate HasAcl(t: Tree, x: nat) { x < |t| && t[x].acl }

  /** The time of one of the first `n` nodes, and none of them is earlier. */
  ghost predicate LeastTime(t: Tree, q: seq<nat>, n: nat, sec: int, nsec: nat) {
    && n <= |q| && (exists k :: 0 <= k < n && HasTime(t, q[k], sec, nsec))
    && forall k {:trigger q[k]} :: 0 <= k < n && q[k] < |t| ==> !Earlier(t[q[k]].sec, t[q[k]].nsec, sec, nsec)
  }

  function Directories(t: Tree, cs: seq<nat>): nat {
    if cs == [] then 0 else
    var c := cs[|cs| - 1];
    Directories(t, cs[..|cs| - 1]) + if c < |t| && t[c].isDir then 1 else 0
  }

  /** The positions of the children that are directories. */
  ghost function DirPlaces(t: Tree, cs: seq<nat>): set<nat> {
    set j: nat | j < |cs| && cs[j] < |t| && t[cs[j]].isDir
  }

  /** The loop counts each of them once. */
  lemma {:induction false} DirectoriesAre(t: Tree, cs: seq<nat>)
    ensures Directories(t, cs) == |set j: nat | j < |cs| && cs[j] < |t| && t[cs[j]].isDir|
  {
    assert DirPlaces(t, cs) == set j: nat | j < |cs| && cs[j] < |t| && t[cs[j]].isDir;
    if cs != [] {
      var n := |cs| - 1;
      DirectoriesAre(t, cs[..n]);
      var last := if cs[n] < |t| && t[cs[n]].isDir then {n} else {};
      assert DirPlaces(t, cs) == DirPlaces(t, cs[..n]) + last;
    }
  }

  ghost predicate IsTree(t: Tree, root: nat, up: map<nat, nat>) {
    Closed(t) && root < |t| && OneParent(KidsIn(t), root, up)
  }

  class Pass {
    const t: Tree
    const root: nat
    var next: seq<Option<nat>>
    var inTree: seq<bool>
    var number: seq<nat>
    var links: seq<nat>
    var queueEnd: nat
    var minSec: int
    var minNsec: nat
    var hasAcl: bool
    ghost var q: seq<nat>

    constructor (t: Tree, root: nat)
      requires root < |t|
      ensures this.t == t && this.root == root && q == [root] && Fields() && Chained(next, q) && queueEnd == root
      ensures inTree == seq(|t|, n => n == root)
      ensures minSec == t[root].sec && minNsec == t[root].nsec && !hasAcl
    {
      this.t, this.root := t, root;
      next, number, links := seq(|t|, n => None), seq(|t|, n => 0), seq(|t|, n => 0);
      inTree := seq(|t|, n => n == root);
      queueEnd, q := root, [root];
      minSec, minNsec, hasAcl := t[root].sec, t[root].nsec, false;
    }

    ghost predicate Fields()
      reads this
    {
      |next| == |t| && |inTree| == |t| && |number| == |t| && |links| == |t|
    }

    method Enqueue(child: nat)
      requires Fields() && Chained(next, q) && Last(q, queueEnd) && NoDup(q)
      requires child < |t| && child !in q
      modifies `next, `queueEnd, `q
      ensures Fields() && q == old(q) + [child] && Chained(next, q) && Last(q, queueEnd)
    {
      ChainStep(next, q, child);
      next := next[queueEnd := Some(child)];
      queueEnd := child;
      q := q + [child];
    }

    /** Puts the children of a node at the end of the list.  None of them has been there before. */
    method Append(p: nat, ghost i: nat)
      requires Fields() && Closed(t) && p < |t| && i < |q| && q[i] == p
      requires Chained(next, q) && Last(q, queueEnd) && First(q, root) && Marked(root, q, inTree, i + 1)
      requires NoDup(q + Own(t, t[p].children))
      modifies `next, `queueEnd, `q
      ensures Fields() && q == old(q) + Own(t, t[p].children) && Chained(next, q) && Last(q, queueEnd)
      ensures Marked(root, q, inTree, i + 1)
    {
      var cs, j := t[p].children, 0;
      ghost var q0 := q;
      while j < |cs|
        invariant 0 <= j <= |cs| && Fields()
        invariant q == q0 + Own(t, cs[..j]) && Chained(next, q) && Last(q, queueEnd)
      {
        var child := cs[j];
        assert child in cs;
        OwnStep(t, cs, j);
        if t[child].link.None? {
          ChildFresh(t, q0, cs, j);
          assert !inTree[child] by { Unmarked(root, q0, inTree, i, child); }
          Enqueue(child);
        }
        j := j + 1;
      }
      assert cs[..j] == cs;
      assert q0[..i + 1] == q[..i + 1];
    }

    method CountDirectories(cs: seq<nat>) returns (n: nat)
      requires forall c | c in cs :: c < |t|
      ensures n == 2 + Directories(t, cs)
    {
      n := 2;
      var j := 0;
      while j < |cs|
        invariant 0 <= j <= |cs| && n == 2 + Directories(t, cs[..j])
      {
        assert cs[j] in cs && cs[..j + 1][..j] == cs[..j];
        if t[cs[j]].isDir { n := n + 1; }
        j := j + 1;
      }
      assert cs[..j] == cs;
    }

    /** Sets the link count of a directory and refuses what cannot be written. */
    method Check(p: nat) returns (e: Option<TreeError>)
      requires |links| == |t| && Closed(t) && p < |t|
      modifies `links
      ensures e.None? <==> Plain(t, p)
      ensures e.None? <==>
                && (t[p].isDir || t[p].children == [])
                && (t[p].link.Some? ==> !t[p].isDir && !t[t[p].link.value].isDir)
      ensures e.Some? ==> e.value == if t[p].isDir || t[p].children == [] then DirectoryLink else NotDirectory
      ensures links == if t[p].isDir then old(links)[p := 2 + Directories(t, t[p].children)] else old(links)
      ensures t[p].isDir && (e.None? || e == Some(DirectoryLink)) ==>
                var cs := t[p].children; links[p] == 2 + |set j: nat | j < |cs| && cs[j] < |t| && t[cs[j]].isDir|
    {
      DirectoriesAre(t, t[p].children);
      if !t[p].isDir && t[p].children != [] { return Some(NotDirectory); }
      if t[p].isDir {
        var n := CountDirectories(t[p].children);
        links := links[p := n];
      }
      if t[p].link.Some? && (t[p].isDir || t[t[p].link.value].isDir) { return Some(DirectoryLink); }
      return None;
    }

    /** Gathers the time and the attributes of a node, numbers it and marks it. */
    method Record(p: nat, index: nat)
      requires Fields() && p < |t| && index < |q| && q[index] == p
      requires Gathered(t, q, index, minSec, minNsec, hasAcl) && Marked(root, q, inTree, index)
      modifies `number, `minSec, `minNsec, `hasAcl, `inTree
      ensures Fields() && number == old(number)[p := index] && Marked(root, q, inTree, index + 1)
      ensures Gathered(t, q, index + 1, minSec, minNsec, hasAcl)
    {
      GatherStep(t, q, index, minSec, minNsec, hasAcl);
      if Earlier(t[p].sec, t[p].nsec, minSec, minNsec) { minSec, minNsec := t[p].sec, t[p].nsec; }
      number := number[p := index];
      if t[p].acl { hasAcl := true; }
      MarkStep(root, q, inTree, index);
      inTree := inTree[p := true];
    }

    /** What is known when the first `i` nodes have been dealt with. */
    ghost predicate Known(i: nat)
      reads this
    {
      && Numbered(t, q, number, links, i) && Gathered(t, q, i, minSec, minNsec, hasAcl) && Marked(root, q, inTree, i)
    }

    /** Everything the pass does at one node but for its children. */
    method Take(p: nat, index: nat) returns (e: Option<TreeError>)
      requires Fields() && Closed(t) && NoDup(q) && index < |q| && q[index] == p && p < |t| && Known(index)
      modifies `number, `links, `minSec, `minNsec, `hasAcl, `inTree
      ensures Fields() && (e.None? <==> Plain(t, p)) && (e.None? ==> Known(index + 1))
      ensures e.Some? ==> e.value == if t[p].isDir || t[p].children == [] then DirectoryLink else NotDirectory
    {
      e := Check(p);
      if e.Some? { return; }
      NumberStep(t, q, number, old(links), number[p := index], links, index);
      Record(p, index);
    }

    /** The state of the first round when `i` nodes have had their turn. */
    ghost predicate Going(i: nat)
      reads this
    {
      Fields() && NoDup(q) && Listed(i) && Known(i) && AllPlain(t, q[..i])
    }

    /** Everything the pass does at one node. */
    method Visit(p: nat, index: nat, ghost up: map<nat, nat>) returns (e: Option<TreeError>, next': Option<nat>)
      requires Going(index) && IsTree(t, root, up) && NodeAt(q, index) == Some(p)
      modifies `next, `queueEnd, `q, `number, `links, `minSec, `minNsec, `hasAcl, `inTree
      ensures index < |t| && (e.Some? ==> NoDup(q) && Refused(t, root, q, e.value))
      ensures e.None? ==> Going(index + 1) && next' == NodeAt(q, index + 1)
    {
      ListBound(t, root, q, index);
      e := Take(p, index);
      if e.Some? {
        RefusedAt(t, root, q, index, e.value);
        return e, None;
      }
      GrowTree(t, root, up, q, index, p);
      ghost var q0 := q;
      Append(p, index);
      Extended(t, root, q0, q, index, number, links, minSec, minNsec, hasAcl);
      NextIs(next, q, index);
      return None, next[p];
    }

    /** The first round: the list. */
    method List(ghost up: map<nat, nat>) returns (e: Option<TreeError>, count: nat)
      requires Going(0) && IsTree(t, root, up)
      modifies this
      ensures e.None? ==> count == |q| && Going(count)
      ensures e.Some? ==> NoDup(q) && Refused(t, root, q, e.value)
    {
      var node := Some(root);
      e, count := None, 0;
      while node.Some?
        invariant e.None? && count <= |q| && Going(count) && node == NodeAt(q, count)
        decreases |t| - count
      {
        e, node := Visit(node.value, count, up);
        if e.Some? { return; }
        count := count + 1;
      }
    }

    method CheckLink(c: nat) returns (e: Option<TreeError>)
      requires |inTree| == |t| && LinksStop(t) && c < |t| && MarksList(q, inTree)
      ensures e.None? <==> LinkGood(t, q, c)
      ensures e.Some? ==> e.value == if exists x: nat :: EndsAt(t, c, x) then LinkOutside else LinkLoop
    {
      assert Halts(t, c);
      ghost var k: nat :| Stops(t, c, k);
      var end := FollowLinks(t, c, k);
      if end.None? { return Some(LinkLoop); }
      assert EndsAt(t, c, end.value);
      if t[c].link.Some? && !inTree[end.value] {
        forall x: nat | EndsAt(t, c, x)
          ensures x !in q
        {
          EndUnique(t, c, x, end.value);
        }
        return Some(LinkOutside);
      }
      return None;
    }

    method CheckChildren(p: nat) returns (e: Option<TreeError>)
      requires |inTree| == |t| && LinksStop(t) && p < |t| && MarksList(q, inTree)
      ensures e.None? <==> ChildLinksGood(t, q, p)
      ensures e.Some? ==> e.value == LinkLoop || e.value == LinkOutside
    {
      var cs, j := t[p].children, 0;
      while j < |cs|
        invariant 0 <= j <= |cs| && forall k {:trigger cs[k]} :: 0 <= k < j ==> cs[k] < |t| && LinkGood(t, q, cs[k])
      {
        assert cs[j] in cs;
        e := CheckLink(cs[j]);
        if e.Some? { return; }
        j := j + 1;
      }
      return None;
    }

    /** The second round: every hard link leads to a node of the list. */
    method CheckLinks() returns (e: Option<TreeError>)
      requires Fields() && LinksStop(t) && Chained(next, q) && First(q, root) && MarksList(q, inTree)
      ensures e.None? <==> forall x | x in q :: x < |t| && ChildLinksGood(t, q, x)
      ensures e.Some? ==> e.value == LinkLoop || e.value == LinkOutside
    {
      var node := Some(root);
      ghost var i := 0;
      while node.Some?
        invariant 0 <= i <= |q| && node == NodeAt(q, i)
        invariant forall k {:trigger q[k]} :: 0 <= k < i ==> ChildLinksGood(t, q, q[k])
        decreases |q| - i
      {
        e := CheckChildren(node.value);
        if e.Some? {
          assert node.value in q;
          return;
        }
        NextIs(next, q, i);
        node := next[node.value];
        i := i + 1;
      }
      return None;
    }

    /** The third round takes the marks away again. */
    method Unmark()
      requires Fields() && Chained(next, q) && First(q, root) && MarksList(q, inTree)
      modifies `inTree
      ensures |inTree| == |t| && forall n {:trigger inTree[n]} :: 0 <= n < |t| ==> !inTree[n]
    {
      var node := Some(root);
      ghost var i := 0;
      assert q[0..] == q;
      while node.Some?
        invariant |inTree| == |t| && 0 <= i <= |q| && node == NodeAt(q, i)
        invariant forall n {:trigger inTree[n]} :: 0 <= n < |t| && inTree[n] ==> n in q[i..]
        decreases |q| - i
      {
        assert q[i..] == [q[i]] + q[i + 1..];
        NextIs(next, q, i);
        inTree := inTree[node.value := false];
        node := next[node.value];
        i := i + 1;
      }
    }

    ghost predicate Listed(i: nat)
      reads this
    {
      Growing(KidsIn(t), root, q, i) && Chained(next, q) && First(q, root) && Last(q, queueEnd)
    }
  }

  ghost predicate AllPlain(t: Tree, q: seq<nat>) {
    Closed(t) && forall x | x in q :: x < |t| && Plain(t, x)
  }

  ghost predicate MarksList(q: seq<nat>, marks: seq<bool>) {
    forall n {:trigger marks[n]} :: 0 <= n < |marks| ==> (marks[n] <==> n in q)
  }

  /** A child that is a link leads to a node of the list. */
  ghost predicate LinkGood(t: Tree, q: seq<nat>, c: nat)
    requires Closed(t) && c < |t|
  {
    exists e: nat :: EndsAt(t, c, e) && (t[c].link.Some? ==> e in q)
  }

  ghost predicate ChildLinksGood(t: Tree, q: seq<nat>, p: nat)
    requires Closed(t) && p < |t|
  {
    forall c | c in t[p].children :: LinkGood(t, q, c)
  }

  function NodeAt(q: seq<nat>, i: nat): Option<nat> { if i < |q| then Some(q[i]) else None }

  lemma {:induction false} PlainStep(t: Tree, q: seq<nat>, q': seq<nat>, i: nat)
    requires i < |q| && q <= q' && AllPlain(t, q[..i]) && q[i] < |t| && Plain(t, q[i])
    ensures AllPlain(t, q'[..i + 1])
  {
    assert q'[..i + 1] == q[..i] + [q[i]];
  }

  /** The list had come to a node that cannot be written. */
  ghost predicate Refused(t: Tree, root: nat, q: seq<nat>, e: TreeError) {
    Closed(t) && exists i :: RefusedHere(t, root, q, i, e)
  }

  ghost predicate RefusedHere(t: Tree, root: nat, q: seq<nat>, i: nat, e: TreeError)
    requires Closed(t)
  {
    && i < |q| && q[i] < |t| && Growing(KidsIn(t), root, q, i) && !Plain(t, q[i])
    && e == if t[q[i]].isDir || t[q[i]].children == [] then DirectoryLink else NotDirectory
  }

  lemma {:induction false} RefusedAt(t: Tree, root: nat, q: seq<nat>, i: nat, e: TreeError)
    requires Closed(t) && i < |q| && q[i] < |t| && Growing(KidsIn(t), root, q, i) && !Plain(t, q[i])
    requires e == if t[q[i]].isDir || t[q[i]].children == [] then DirectoryLink else NotDirectory
    ensures Refused(t, root, q, e)
  {
    assert RefusedHere(t, root, q, i, e);
  }

  lemma {:induction false} ListBound(t: Tree, root: nat, q: seq<nat>, i: nat)
    requires root < |t| && NoDup(q) && Growing(KidsIn(t), root, q, i) && i < |q|
    ensures |q| <= |t| && q[i] < |t|
  {
    ListIn(t, root, q[..i]);
    NoDupBound(q, |t|);
    assert q[i] in q;
  }

  lemma {:induction false} GrowTree(t: Tree, root: nat, up: map<nat, nat>, q: seq<nat>, i: nat, p: nat)
    requires IsTree(t, root, up) && NoDup(q) && Growing(KidsIn(t), root, q, i) && i < |q| && q[i] == p && p < |t|
    ensures Growing(KidsIn(t), root, q + Own(t, t[p].children), i + 1) && NoDup(q + Own(t, t[p].children))
  {
    GrowStep(KidsIn(t), root, q, i);
    assert KidsIn(t)(q[i]) == Own(t, t[p].children);
    var q' := q + Own(t, t[p].children);
    assert q'[..i + 1] == q[..i + 1];
    ListNoDup(KidsIn(t), root, up, q', i + 1);
  }

  /** What is known of the first nodes does not change when others come behind. */
  lemma {:induction false} Extended(t: Tree, root: nat, q: seq<nat>, q': seq<nat>, i: nat,
                                    number: seq<nat>, links: seq<nat>, sec: int, nsec: nat, acl: bool)
    requires q <= q' && Numbered(t, q, number, links, i + 1) && Gathered(t, q, i + 1, sec, nsec, acl)
    requires i < |q| && AllPlain(t, q[..i]) && q[i] < |t| && Plain(t, q[i])
    ensures Numbered(t, q', number, links, i + 1) && Gathered(t, q', i + 1, sec, nsec, acl) && AllPlain(t, q'[..i + 1])
  {
    assert q'[..i + 1] == q[..i + 1];
    PlainStep(t, q, q', i);
    forall k | 0 <= k < i + 1
      ensures q'[k] == q[k]
    {
    }
  }

  lemma {:induction false} NextIs(next: seq<Option<nat>>, q: seq<nat>, i: nat)
    requires Chained(next, q) && i < |q|
    ensures q[i] < |next| && next[q[i]] == NodeAt(q, i + 1)
  {
  }

  /** The marks are on the first `i` nodes and on the root. */
  ghost predicate Marked(root: nat, q: seq<nat>, marks: seq<bool>, i: nat) {
    i <= |q| && forall n {:trigger marks[n]} :: 0 <= n < |marks| ==> (marks[n] <==> n == root || n in q[..i])
  }

  lemma {:induction false} MarkStep(root: nat, q: seq<nat>, marks: seq<bool>, i: nat)
    requires Marked(root, q, marks, i) && i < |q| && q[i] < |marks|
    ensures Marked(root, q, marks[q[i] := true], i + 1)
  {
    assert q[..i + 1] == q[..i] + [q[i]];
  }

  lemma {:induction false} Unmarked(root: nat, q: seq<nat>, marks: seq<bool>, i: nat, child: nat)
    requires Marked(root, q, marks, i + 1) && child < |marks| && First(q, root) && child !in q
    ensures !marks[child]
  {
    assert root == q[0] && root in q;
    assert forall x :: x in q[..i + 1] ==> x in q;
  }

  /** The first `i` nodes have their place in the list as their number, and directories their link count. */
  ghost predicate Numbered(t: Tree, q: seq<nat>, number: seq<nat>, links: seq<nat>, i: nat) {
    && i <= |q| && |number| == |links| == |t|
    && (forall k {:trigger q[k]} :: 0 <= k < i ==> q[k] < |t|)
    && (forall k {:trigger number[q[k]]} :: 0 <= k < i ==> number[q[k]] == k)
    && forall k {:trigger links[q[k]]} :: 0 <= k < i && t[q[k]].isDir ==>
         links[q[k]] == 2 + Directories(t, t[q[k]].children)
  }

  lemma {:induction false} NumberStep(t: Tree, q: seq<nat>, number: seq<nat>, links: seq<nat>, number': seq<nat>,
                                    links': seq<nat>, i: nat)
    requires Numbered(t, q, number, links, i) && NoDup(q) && i < |q| && q[i] < |t| && number' == number[q[i] := i]
    requires links' == if t[q[i]].isDir then links[q[i] := 2 + Directories(t, t[q[i]].children)] else links
    ensures Numbered(t, q, number', links', i + 1)
  {
    forall k | 0 <= k < i
      ensures number'[q[k]] == k && links'[q[k]] == links[q[k]]
    {
      assert q[k] != q[i];
    }
  }

  /** What has been gathered from the first `i` nodes; the time of the root counts from the start. */
  ghost predicate Gathered(t: Tree, q: seq<nat>, i: nat, sec: int, nsec: nat, acl: bool) {
    && i <= |q| && LeastTime(t, q, if i == 0 then 1 else i, sec, nsec)
    && (acl <==> exists k :: 0 <= k < i && HasAcl(t, q[k]))
  }

  lemma {:induction false} GatherStep(t: Tree, q: seq<nat>, i: nat, sec: int, nsec: nat, acl: bool)
    requires Gathered(t, q, i, sec, nsec, acl) && i < |q| && q[i] < |t|
    ensures var n := t[q[i]];
            if Earlier(n.sec, n.nsec, sec, nsec) then Gathered(t, q, i + 1, n.sec, n.nsec, acl || n.acl)
            else Gathered(t, q, i + 1, sec, nsec, acl || n.acl)
  {
    var n := t[q[i]];
    assert HasTime(t, q[i], n.sec, n.nsec) && (HasAcl(t, q[i]) <==> n.acl);
  }

  /** What the pass accepts at one node. */
  predicate Plain(t: Tree, p: nat)
    requires Closed(t) && p < |t|
  {
    && (t[p].isDir || t[p].children == [])
    && (t[p].link.Some? ==> !t[p].isDir && !t[t[p].link.value].isDir)
  }

  lemma {:induction false} OwnStep(t: Tree, cs: seq<nat>, j: nat)
    requires j < |cs|
    ensures Own(t, cs[..j + 1]) == Own(t, cs[..j]) + if cs[j] < |t| && t[cs[j]].link.None? then [cs[j]] else []
  {
    assert cs[..j + 1][..j] == cs[..j];
  }

  lemma {:induction false} ChildFresh(t: Tree, q0: seq<nat>, cs: seq<nat>, j: nat)
    requires j < |cs| && cs[j] < |t| && t[cs[j]].link.None? && NoDup(q0 + Own(t, cs))
    ensures cs[j] !in q0 + Own(t, cs[..j]) && NoDup(q0 + Own(t, cs[..j])) && cs[j] !in q0
  {
    OwnStep(t, cs, j);
    OwnPrefix(t, cs, j + 1);
    assert (q0 + Own(t, cs[..j])) + [cs[j]] == q0 + Own(t, cs[..j + 1]);
    FreshAt(q0 + Own(t, cs), q0 + Own(t, cs[..j]), cs[j]);
    assert forall x :: x in q0 ==> x in q0 + Own(t, cs[..j]);
  }

  lemma {:induction false} FreshAt(all: seq<nat>, q: seq<nat>, c: nat)
    requires NoDup(all) && q + [c] <= all
    ensures c !in q && NoDup(q)
  {
    assert (q + [c])[|q|] == c && all[|q|] == c;
    forall k | 0 <= k < |q|
      ensures q[k] != c
    {
      assert all[k] == (q + [c])[k];
    }
    forall i, j | 0 <= i < j < |q|
      ensures q[i] != q[j]
    {
      assert all[i] == (q + [c])[i] && all[j] == (q + [c])[j];
    }
  }

  // ---------- the whole pass ----------

  lemma {:induction false} StartKnown(t: Tree, root: nat, q: seq<nat>)
    requires root < |t| && q == [root]
    ensures Growing(KidsIn(t), root, q, 0) && Gathered(t, q, 0, t[root].sec, t[root].nsec, false)
  {
    assert q[..0] == [];
    assert HasTime(t, q[0], t[root].sec, t[root].nsec);
  }

  lemma {:induction false} AllMarked(t: Tree, root: nat, q: seq<nat>, marks: seq<bool>)
    requires Marked(root, q, marks, |q|) && First(q, root) && AllPlain(t, q[..|q|])
    ensures MarksList(q, marks) && AllPlain(t, q)
  {
    assert q[..|q|] == q;
    assert root == q[0] && root in q;
  }

  /** What the first round leaves behind, but for the marks. */
  /** Node `x` has its number, and as a directory one link for each child that is one, and two more. */
  ghost predicate Counted(t: Tree, x: nat, k: nat, number: seq<nat>, links: seq<nat>) {
    && x < |t| == |number| == |links| && number[x] == k
    && (t[x].isDir ==>
          var cs := t[x].children; links[x] == 2 + |set j: nat | j < |cs| && cs[j] < |t| && t[cs[j]].isDir|)
  }

  /** The time of a listed node, and no listed node has an earlier one. */
  ghost predicate OldestOf(t: Tree, q: seq<nat>, sec: int, nsec: nat) {
    && (exists k :: 0 <= k < |q| && q[k] < |t| && t[q[k]].sec == sec && t[q[k]].nsec == nsec)
    && forall k {:trigger q[k]} :: 0 <= k < |q| && q[k] < |t| ==>
         sec < t[q[k]].sec || (sec == t[q[k]].sec && nsec <= t[q[k]].nsec)
  }

  lemma {:induction false} NumberedCounts(t: Tree, q: seq<nat>, number: seq<nat>, links: seq<nat>, k: nat)
    requires Numbered(t, q, number, links, |q|) && k < |q|
    ensures Counted(t, q[k], k, number, links)
  {
    assert number[q[k]] == k;
    DirectoriesAre(t, t[q[k]].children);
    assert t[q[k]].isDir ==> links[q[k]] == 2 + Directories(t, t[q[k]].children);
  }

  lemma {:induction false} GatheredMeans(t: Tree, q: seq<nat>, sec: int, nsec: nat, acl: bool)
    requires Gathered(t, q, |q|, sec, nsec, acl) && q != []
    ensures OldestOf(t, q, sec, nsec) && (acl <==> exists k :: 0 <= k < |q| && q[k] < |t| && t[q[k]].acl)
  {
    var k :| 0 <= k < |q| && HasTime(t, q[k], sec, nsec);
    assert q[k] < |t|;
    forall k | 0 <= k < |q| && q[k] < |t|
      ensures sec < t[q[k]].sec || (sec == t[q[k]].sec && nsec <= t[q[k]].nsec)
    {
      assert !Earlier(t[q[k]].sec, t[q[k]].nsec, sec, nsec);
    }
    if acl {
      var k :| 0 <= k < |q| && HasAcl(t, q[k]);
      assert q[k] < |t| && t[q[k]].acl;
    }
    if k :| 0 <= k < |q| && q[k] < |t| && t[q[k]].acl { assert HasAcl(t, q[k]); }
  }

  ghost predicate Done(p: Pass, count: nat)
    reads p`next, p`number, p`links, p`minSec, p`minNsec, p`hasAcl, p`q
  {
    && Complete(KidsIn(p.t), p.root, p.q) && NoDup(p.q) && count == |p.q| && Chained(p.next, p.q)
    && Numbered(p.t, p.q, p.number, p.links, count) && Gathered(p.t, p.q, count, p.minSec, p.minNsec, p.hasAcl)
    && AllPlain(p.t, p.q)
  }

  ghost predicate LinksInside(t: Tree, q: seq<nat>) {
    Closed(t) && forall x | x in q :: x < |t| && ChildLinksGood(t, q, x)
  }

  /** The first round from the start. */
  method ListTree(t: Tree, root: nat, ghost up: map<nat, nat>) returns (e: Option<TreeError>, count: nat, p: Pass)
    requires IsTree(t, root, up)
    ensures fresh(p) && p.t == t && p.root == root
    ensures e.Some? ==> Refused(t, root, p.q, e.value)
    ensures e.None? ==> p.Fields() && Done(p, count) && First(p.q, root) && MarksList(p.q, p.inTree)
  {
    p := new Pass(t, root);
    StartKnown(t, root, p.q);
    e, count := p.List(up);
    if e.Some? { return; }
    AllMarked(t, root, p.q, p.inTree);
  }

  /** What the pass takes: every listed node is as it should be, and links lead to listed nodes. */
  ghost predicate Acceptable(t: Tree, root: nat) {
    exists q :: Complete(KidsIn(t), root, q) && AllPlain(t, q) && LinksInside(t, q)
  }

  /** A tree that is refused half way has such a node on its finished list: acceptance is a property of the tree. */
  lemma {:induction false} RefusedMeans(t: Tree, root: nat, q: seq<nat>, e: TreeError, full: seq<nat>)
    requires Refused(t, root, q, e) && Complete(KidsIn(t), root, full)
    ensures !AllPlain(t, full)
  {
    var i: nat :| RefusedHere(t, root, q, i, e);
    Prefix(KidsIn(t), root, q, i, full, i);
    assert full[..i] == q[..i];
    NextPrefix(KidsIn(t), root, full, |full|, i);
    assert q[i] == full[i] && q[i] in full;
  }

  lemma {:induction false} RefusedUnacceptable(t: Tree, root: nat, q: seq<nat>, e: TreeError)
    requires Refused(t, root, q, e)
    ensures !Acceptable(t, root)
  {
    if full :| Complete(KidsIn(t), root, full) && AllPlain(t, full) { RefusedMeans(t, root, q, e, full); }
  }

  lemma {:induction false} BadLinksUnacceptable(t: Tree, root: nat, q: seq<nat>)
    requires Complete(KidsIn(t), root, q) && !LinksInside(t, q)
    ensures !Acceptable(t, root)
  {
    if full :| Complete(KidsIn(t), root, full) && LinksInside(t, full) { ListUnique(KidsIn(t), root, q, full); }
  }

  lemma {:induction false} PassMeans(t: Tree, root: nat, q: seq<nat>, number: seq<nat>, links: seq<nat>, sec: int,
                                     nsec: nat, acl: bool)
    requires Complete(KidsIn(t), root, q) && Numbered(t, q, number, links, |q|) && Gathered(t, q, |q|, sec, nsec, acl)
    ensures forall k {:trigger q[k]} :: 0 <= k < |q| ==> Counted(t, q[k], k, number, links)
    ensures OldestOf(t, q, sec, nsec) && (acl <==> exists k :: 0 <= k < |q| && q[k] < |t| && t[q[k]].acl)
  {
    CompleteIs(KidsIn(t), root, q);
    forall k | 0 <= k < |q|
      ensures Counted(t, q[k], k, number, links)
    {
      NumberedCounts(t, q, number, links, k);
    }
    GatheredMeans(t, q, sec, nsec, acl);
  }

  /** The whole pass; it refuses exactly the trees that are not acceptable. */
  method ComputeTree(t: Tree, root: nat, ghost up: map<nat, nat>) returns (r: Result<nat, TreeError>, p: Pass)
    requires IsTree(t, root, up) && LinksStop(t)
    ensures fresh(p) && p.t == t && p.root == root
    ensures r.Ok? <==> Acceptable(t, root)
    ensures r.Ok? ==> Done(p, r.value) && LinksInside(t, p.q)
    ensures r.Ok? ==> forall n {:trigger p.inTree[n]} :: 0 <= n < |p.inTree| ==> !p.inTree[n]
    ensures r.Ok? ==> forall k {:trigger p.q[k]} :: 0 <= k < |p.q| ==> Counted(t, p.q[k], k, p.number, p.links)
    ensures r.Ok? ==> r.value == |p.q| && OldestOf(t, p.q, p.minSec, p.minNsec)
    ensures r.Ok? ==> (p.hasAcl <==> exists k :: 0 <= k < |p.q| && p.q[k] < |t| && t[p.q[k]].acl)
    ensures r.Err? ==> Refused(t, root, p.q, r.error) || r.error.LinkLoop? || r.error.LinkOutside?
  {
    var e, count;
    e, count, p := ListTree(t, root, up);
    if e.Some? {
      RefusedUnacceptable(t, root, p.q, e.value);
      return Err(e.value), p;
    }
    e := p.CheckLinks();
    if e.Some? {
      BadLinksUnacceptable(t, root, p.q);
      return Err(e.value), p;
    }
    p.Unmark();
    PassMeans(t, root, p.q, p.number, p.links, p.minSec, p.minNsec, p.hasAcl);
    return Ok(count), p;
  }

  /** The check against links to directories only ever meets a link at the root. */
  lemma {:induction false} OnlyRootIsLink(t: Tree, root: nat, q: seq<nat>, i: nat, k: nat)
    requires Growing(KidsIn(t), root, q, i) && root < |t| && 0 < k < |q|
    ensures q[k] < |t| && t[q[k]].link.None?
  {
    ListIn(t, root, q[..i]);
    assert q[k] == KidsOf(KidsIn(t), q[..i])[k - 1];
    assert q[k] in KidsOf(KidsIn(t), q[..i]);
  }

  /** What the test against hard links to directories looks for. */
  ghost predicate LinksDirectory(t: Tree, x: nat)
    requires Closed(t) && x < |t|
  {
    t[x].link.Some? && (t[x].isDir || t[t[x].link.value].isDir)
  }

  /** It only ever finds the root: a link to a directory anywhere else is not on the list. */
  lemma {:induction false} DirectoryLinkFound(t: Tree, root: nat, q: seq<nat>)
    requires Closed(t) && root < |t| && Complete(KidsIn(t), root, q)
    ensures (exists x :: x in q && x < |t| && LinksDirectory(t, x)) <==> LinksDirectory(t, root)
  {
    CompleteIs(KidsIn(t), root, q);
    assert root == q[0] && root in q;
    forall x | x in q && x < |t| && x != root
      ensures t[x].link.None?
    {
      var k: nat :| k < |q| && q[k] == x;
      OnlyRootIsLink(t, root, q, |q|, k);
    }
  }

  /** The root with a directory and a link to it. */
  function LinkedDirectory(sec: int): Tree {
    [Node(true, [1, 2], None, sec, 0, false),
     Node(true, [], None, sec, 0, false),
     Node(false, [], Some(1), sec, 0, false)]
  }

  lemma {:induction false} LinkedList(t: Tree, sec: int)
    requires t == LinkedDirectory(sec)
    ensures Complete(KidsIn(t), 0, [0, 1])
  {
    var kids := KidsIn(t);
    OwnStep(t, [1, 2], 0);
    OwnStep(t, [1, 2], 1);
    assert [1, 2][..0] == [] && [1, 2][..2] == [1, 2];
    assert kids(0) == [1] && kids(1) == [];
    KidsAppend(kids, [], 0);
    KidsAppend(kids, [0], 1);
    assert [] + [0] == [0] && [0] + [1] == [0, 1];
    var q: seq<nat> := [0, 1];
    assert q[..2] == q && q[..1] == [0];
  }

  /** A hard link to a directory is accepted. */
  lemma {:induction false} DirectoryLinkAccepted(t: Tree, sec: int)
    requires t == LinkedDirectory(sec)
    ensures IsTree(t, 0, map[1 := 0]) && LinksStop(t) && Acceptable(t, 0)
  {
    LinkedList(t, sec);
    assert Closed(t);
    assert Chase(t, 0, 0) == 0 && Chase(t, 1, 0) == 1 && Chase(t, 2, 0) == 2 && Chase(t, 2, 1) == 1;
    assert Stops(t, 0, 0) && Stops(t, 1, 0) && Stops(t, 2, 1);
    assert EndsAt(t, 1, 1) && EndsAt(t, 2, 1);
    assert AllPlain(t, [0, 1]) && LinksInside(t, [0, 1]);
    LinkedKids(t, sec);
  }

  lemma {:induction false} LinkedKids(t: Tree, sec: int)
    requires t == LinkedDirectory(sec)
    ensures OneParent(KidsIn(t), 0, map[1 := 0])
  {
    OwnStep(t, [1, 2], 0);
    OwnStep(t, [1, 2], 1);
    assert [1, 2][..0] == [] && [1, 2][..2] == [1, 2];
  }
}
