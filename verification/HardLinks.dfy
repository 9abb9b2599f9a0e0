/** Nodes of a tree as they are linked in memory, and chains of hard links. */
module HardLinks {
  import opened Common
  import opened LevelLists

  /** What listing the tree looks at; nodes are numbered. */
  datatype Node = Node(isDir: bool, children: seq<nat>, link: Option<nat>, sec: int, nsec: nat, acl: bool)

  type Tree = seq<Node>

  ghost predicate Closed(t: Tree) {
    forall p {:trigger t[p]} :: 0 <= p < |t| ==>
      && (forall c | c in t[p].children :: c < |t|)
      && (t[p].link.Some? ==> t[p].link.value < |t|)
  }

  /** Where `k` links lead; the end of the chain leads to itself. */
  ghost function Chase(t: Tree, n: nat, k: nat): (r: nat)
    requires Closed(t) && n < |t|
    ensures r < |t|
  {
    if k == 0 then n else
    var m := Chase(t, n, k - 1);
    if t[m].link.Some? then t[m].link.value else m
  }

  /** After `k` links the loop is over: at the end of the chain, or back at the start. */
  ghost predicate Stops(t: Tree, n: nat, k: nat)
    requires Closed(t) && n < |t|
  {
    t[Chase(t, n, k)].link.None? || (k > 0 && Chase(t, n, k) == n)
  }

  lemma {:induction false} ChaseRepeats(t: Tree, n: nat, i: nat, j: nat, k: nat)
    requires Closed(t) && n < |t| && i < j && Chase(t, n, i) == Chase(t, n, j) && i <= k
    ensures exists m :: i <= m < j && Chase(t, n, k) == Chase(t, n, m)
  {
    if k >= j {
      ChaseRepeats(t, n, i, j, k - 1);
      var m :| i <= m < j && Chase(t, n, k - 1) == Chase(t, n, m);
      assert Chase(t, n, k) == Chase(t, n, m + 1);
    }
  }

  lemma {:induction false} EndStays(t: Tree, n: nat, j: nat, k: nat)
    requires Closed(t) && n < |t| && t[Chase(t, n, j)].link.None? && j <= k
    ensures Chase(t, n, k) == Chase(t, n, j)
  {
    if j < k { EndStays(t, n, j, k - 1); }
  }

  /** The chain ends at `e`. */
  ghost predicate EndsAt(t: Tree, n: nat, e: nat)
    requires Closed(t) && n < |t|
  {
    e < |t| && t[e].link.None? && exists k :: 0 <= k && Chase(t, n, k) == e
  }

  lemma {:induction false} EndUnique(t: Tree, n: nat, a: nat, b: nat)
    requires Closed(t) && n < |t| && EndsAt(t, n, a) && EndsAt(t, n, b)
    ensures a == b
  {
    var j: nat, k: nat :| Chase(t, n, j) == a && Chase(t, n, k) == b;
    if j <= k { EndStays(t, n, j, k); } else { EndStays(t, n, k, j); }
  }

  lemma {:induction false} LoopHasNoEnd(t: Tree, n: nat, j: nat, e: nat)
    requires Closed(t) && n < |t| && j > 0 && Chase(t, n, j) == n
    requires forall i: nat {:trigger Chase(t, n, i)} :: i < j ==> t[Chase(t, n, i)].link.Some?
    ensures !EndsAt(t, n, e)
  {
    if EndsAt(t, n, e) {
      var k: nat :| Chase(t, n, k) == e;
      ChaseRepeats(t, n, 0, j, k);
    }
  }

  /** The end of a chain of links, or the news that it has none. */
  method FollowLinks(t: Tree, n: nat, ghost k: nat) returns (end: Option<nat>)
    requires Closed(t) && n < |t| && Stops(t, n, k)
    ensures match end case Some(e) => EndsAt(t, n, e) case None => forall e: nat :: !EndsAt(t, n, e)
  {
    var node := n;
    ghost var j: nat := 0;
    while t[node].link.Some?
      invariant node < |t| && j <= k && node == Chase(t, n, j)
      invariant forall i: nat {:trigger Chase(t, n, i)} :: 0 < i <= j ==> Chase(t, n, i) != n
      invariant forall i: nat {:trigger Chase(t, n, i)} :: i < j ==> t[Chase(t, n, i)].link.Some?
      decreases k - j
    {
      node := t[node].link.value;
      j := j + 1;
      if node == n {
        forall e: nat
          ensures !EndsAt(t, n, e)
        {
          LoopHasNoEnd(t, n, j, e);
        }
        return None;
      }
    }
    return Some(node);
  }

  ghost predicate Halts(t: Tree, n: nat)
    requires Closed(t) && n < |t|
  {
    exists k: nat :: Stops(t, n, k)
  }

  /** Every chain of links ends or comes back to where it started. */
  ghost predicate LinksStop(t: Tree) {
    Closed(t) && forall n {:trigger Halts(t, n)} :: 0 <= n < |t| ==> Halts(t, n)
  }

  // ---------- when a chain can be followed ----------

  lemma {:induction false} ChaseAdd(t: Tree, n: nat, i: nat, k: nat)
    requires Closed(t) && n < |t|
    ensures Chase(t, Chase(t, n, i), k) == Chase(t, n, i + k)
  {
    if k > 0 { ChaseAdd(t, n, i, k - 1); }
  }

  /** The node is on a cycle of links. */
  ghost predicate OnCycle(t: Tree, m: nat)
    requires Closed(t) && m < |t|
  {
    t[m].link.Some? && exists k: nat :: k > 0 && Chase(t, m, k) == m
  }

  /** A cycle goes on for ever. */
  lemma {:induction false} CycleGoesOn(t: Tree, m: nat, p: nat, k: nat)
    requires Closed(t) && m < |t| && t[m].link.Some? && p > 0 && Chase(t, m, p) == m
    ensures t[Chase(t, m, k)].link.Some?
  {
    if t[Chase(t, m, k)].link.None? {
      CycleReturns(t, m, p, k);
      EndStays(t, m, k, p * k);
    }
  }

  lemma {:induction false} CycleReturns(t: Tree, m: nat, p: nat, k: nat)
    requires Closed(t) && m < |t| && p > 0 && Chase(t, m, p) == m
    ensures p * k >= k && Chase(t, m, p * k) == m
  {
    if k > 0 {
      CycleReturns(t, m, p, k - 1);
      ChaseAdd(t, m, p * (k - 1), p);
      assert p * k == p * (k - 1) + p;
    } else {
      assert p * 0 == 0;
    }
  }

  ghost function Chased(t: Tree, n: nat, k: nat): (s: seq<nat>)
    requires Closed(t) && n < |t|
    ensures |s| == k && forall i {:trigger s[i]} :: 0 <= i < k ==> s[i] == Chase(t, n, i)
  {
    if k == 0 then [] else Chased(t, n, k - 1) + [Chase(t, n, k - 1)]
  }

  /** A chain that goes on long enough meets a cycle. */
  lemma {:induction false} LongChainRepeats(t: Tree, n: nat) returns (i: nat)
    requires Closed(t) && n < |t|
    ensures t[Chase(t, n, i)].link.None? || OnCycle(t, Chase(t, n, i))
  {
    var s := Chased(t, n, |t| + 1);
    if NoDup(s) {
      assert forall x | x in s :: x < |t|;
      NoDupBound(s, |t|);
      assert false;
    }
    var j: nat;
    i, j :| 0 <= i < j < |s| && s[i] == s[j];
    ChaseAdd(t, n, i, j - i);
  }

  /** The chain meets a cycle, and its start is not on it. */
  ghost predicate MeetsForeignCycle(t: Tree, n: nat)
    requires Closed(t) && n < |t|
  {
    !OnCycle(t, n) && exists i: nat :: OnCycle(t, Chase(t, n, i))
  }

  /** Following links comes to an end exactly when the chain does not run into a cycle that misses its start. */
  lemma {:induction false} HaltsWhen(t: Tree, n: nat)
    requires Closed(t) && n < |t|
    ensures Halts(t, n) <==> !MeetsForeignCycle(t, n)
  {
    if MeetsForeignCycle(t, n) {
      var i: nat :| OnCycle(t, Chase(t, n, i));
      forall k: nat
        ensures !Stops(t, n, k)
      {
        ForeignGoesOn(t, n, i, k);
      }
    } else if OnCycle(t, n) {
      var k: nat :| k > 0 && Chase(t, n, k) == n;
      assert Stops(t, n, k);
    } else {
      var i := LongChainRepeats(t, n);
      assert Stops(t, n, i);
    }
  }

  lemma {:induction false} ForeignGoesOn(t: Tree, n: nat, i: nat, k: nat)
    requires Closed(t) && n < |t| && !OnCycle(t, n) && OnCycle(t, Chase(t, n, i))
    ensures !Stops(t, n, k)
  {
    var m := Chase(t, n, i);
    var p: nat :| p > 0 && Chase(t, m, p) == m;
    if t[Chase(t, n, k)].link.None? {
      EndStays(t, n, k, i + k);
      CycleGoesOn(t, m, p, k);
      ChaseAdd(t, n, i, k);
    }
  }

  /** Three links, made by linking the first to the second, the second to the third and the third to the second. */
  predicate Lasso(t: Tree) {
    |t| == 3 && t[0].link == Some(1) && t[1].link == Some(2) && t[2].link == Some(1)
  }

  lemma {:induction false} LassoChase(t: Tree, k: nat)
    requires Closed(t) && Lasso(t)
    ensures Chase(t, 0, k) == if k == 0 then 0 else if k % 2 == 1 then 1 else 2
  {
    if k > 0 { LassoChase(t, k - 1); }
  }

  /** A cycle that does not go through the start is not noticed. */
  lemma {:induction false} FollowHangs(t: Tree, k: nat)
    requires Closed(t) && Lasso(t)
    ensures !Stops(t, 0, k)
  {
    LassoChase(t, k);
  }
}
