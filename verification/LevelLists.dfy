/**
 Breadth-first lists.  The list starts with the root; whoever's turn it is puts its children at the end.  `kids`
 gives the children of a node that count.
 */
module LevelLists {
  type Kids = nat -> seq<nat>

  /** The children of several nodes, one after the other. */
  ghost function KidsOf(kids: Kids, q: seq<nat>): seq<nat> {
    if q == [] then [] else KidsOf(kids, q[..|q| - 1]) + kids(q[|q| - 1])
  }

  lemma {:induction false} KidsAppend(kids: Kids, a: seq<nat>, p: nat)
    ensures KidsOf(kids, a + [p]) == KidsOf(kids, a) + kids(p)
  {
    assert (a + [p])[..|a + [p]| - 1] == a;
  }

  lemma {:induction false} KidsJoin(kids: Kids, a: seq<nat>, b: seq<nat>)
    ensures KidsOf(kids, a + b) == KidsOf(kids, a) + KidsOf(kids, b)
    decreases |b|
  {
    if b == [] {
      assert a + b == a;
    } else {
      var n := |b| - 1;
      KidsJoin(kids, a, b[..n]);
      KidsAppend(kids, a + b[..n], b[n]);
      LastOff(a, b, n);
      Regroup(KidsOf(kids, a), KidsOf(kids, b[..n]), kids(b[n]));
    }
  }

  lemma {:induction false} LastOff(a: seq<nat>, b: seq<nat>, n: nat)
    requires n == |b| - 1
    ensures a + b == (a + b[..n]) + [b[n]]
  {
  }

  lemma {:induction false} KidsMonotone(kids: Kids, b: seq<nat>, n: nat)
    requires n <= |b|
    ensures KidsOf(kids, b[..n]) <= KidsOf(kids, b)
  {
    assert b == b[..n] + b[n..];
    KidsJoin(kids, b[..n], b[n..]);
  }

  /** The list when its first `i` nodes have had their turn; each of them was on it by then. */
  ghost predicate Growing(kids: Kids, root: nat, q: seq<nat>, i: nat) {
    && i <= |q| && q == [root] + KidsOf(kids, q[..i])
    && forall j {:trigger q[..j]} :: 0 <= j < i ==> j <= |KidsOf(kids, q[..j])|
  }

  /** Every node on the list has had its turn. */
  ghost predicate Complete(kids: Kids, root: nat, q: seq<nat>) { Growing(kids, root, q, |q|) }

  lemma {:induction false} CompleteIs(kids: Kids, root: nat, q: seq<nat>)
    requires Complete(kids, root, q)
    ensures q == [root] + KidsOf(kids, q)
  {
    assert q[..|q|] == q;
  }

  lemma {:induction false} GrowStep(kids: Kids, root: nat, q: seq<nat>, i: nat)
    requires Growing(kids, root, q, i) && i < |q|
    ensures Growing(kids, root, q + kids(q[i]), i + 1)
  {
    var q' := q + kids(q[i]);
    assert q'[..i + 1] == q[..i] + [q[i]];
    KidsAppend(kids, q[..i], q[i]);
    forall j | 0 <= j < i + 1
      ensures j <= |KidsOf(kids, q'[..j])|
    {
      assert q'[..j] == q[..j];
    }
  }

  lemma {:induction false} NextPrefix(kids: Kids, root: nat, q: seq<nat>, n: nat, m: nat)
    requires m <= n <= |q| && q == [root] + KidsOf(kids, q[..n])
    ensures [root] + KidsOf(kids, q[..m]) <= q
  {
    KidsMonotone(kids, q[..n], m);
    assert q[..n][..m] == q[..m];
  }

  /** A growing list is the beginning of the finished one. */
  lemma {:induction false} Prefix(kids: Kids, root: nat, q: seq<nat>, i: nat, full: seq<nat>, m: nat)
    requires Growing(kids, root, q, i) && Complete(kids, root, full) && m <= i
    ensures q[..m] <= full
  {
    if m > 0 {
      var j := m - 1;
      Prefix(kids, root, q, i, full, j);
      NextPrefix(kids, root, q, i, j);
      NextPrefix(kids, root, full, |full|, j);
      assert full[..j] == q[..j];
      assert q[..m] == ([root] + KidsOf(kids, q[..j]))[..m];
    }
  }

  /** The finished list is determined by the children. */
  lemma {:induction false} ListUnique(kids: Kids, root: nat, a: seq<nat>, b: seq<nat>)
    requires Complete(kids, root, a) && Complete(kids, root, b)
    ensures a == b
  {
    Prefix(kids, root, a, |a|, b, |a|);
    Prefix(kids, root, b, |b|, a, |b|);
    assert a[..|a|] == a && b[..|b|] == b;
  }

  // ---------- level by level ----------

  ghost function Level(kids: Kids, root: nat, k: nat): seq<nat> {
    if k == 0 then [root] else KidsOf(kids, Level(kids, root, k - 1))
  }

  /** The first `k` levels, one behind the other. */
  ghost function Levels(kids: Kids, root: nat, k: nat): seq<nat> {
    if k == 0 then [] else Levels(kids, root, k - 1) + Level(kids, root, k - 1)
  }

  lemma {:induction false} FirstLevels(kids: Kids, root: nat)
    ensures Levels(kids, root, 1) == [root] + KidsOf(kids, Levels(kids, root, 0))
  {
    assert Levels(kids, root, 0) == [] && Level(kids, root, 0) == [root];
  }

  lemma {:induction false} LevelsSplit(kids: Kids, root: nat, k: nat)
    requires k > 0
    ensures Levels(kids, root, k) == Levels(kids, root, k - 1) + Level(kids, root, k - 1)
    ensures Level(kids, root, k) == KidsOf(kids, Level(kids, root, k - 1))
  {
  }

  lemma {:induction false} Regroup(a: seq<nat>, b: seq<nat>, c: seq<nat>)
    ensures (a + b) + c == a + (b + c)
  {
  }

  lemma {:induction false} LevelsStep(kids: Kids, root: nat, k: nat)
    ensures Levels(kids, root, k + 1) == [root] + KidsOf(kids, Levels(kids, root, k))
  {
    if k == 0 {
      FirstLevels(kids, root);
    } else {
      LevelsStep(kids, root, k - 1);
      KidsJoin(kids, Levels(kids, root, k - 1), Level(kids, root, k - 1));
      LevelsSplit(kids, root, k + 1);
      LevelsSplit(kids, root, k);
      Regroup([root], KidsOf(kids, Levels(kids, root, k - 1)), Level(kids, root, k));
    }
  }

  lemma {:induction false} LevelAdds(kids: Kids, root: nat, q: seq<nat>, done: seq<nat>)
    requires Complete(kids, root, q) && done <= q
    ensures [root] + KidsOf(kids, done) <= q && (done == q || |done| < |[root] + KidsOf(kids, done)|)
    ensures done == q ==> [root] + KidsOf(kids, done) == q
  {
    var m := |done|;
    assert q[..m] == done;
    NextPrefix(kids, root, q, |q|, m);
    if done == q { CompleteIs(kids, root, q); }
  }

  lemma {:induction false} LevelsPrefix(kids: Kids, root: nat, q: seq<nat>, k: nat)
    requires Complete(kids, root, q)
    ensures Levels(kids, root, k) <= q && (Levels(kids, root, k) == q || k <= |Levels(kids, root, k)|)
  {
    if k > 0 {
      LevelsPrefix(kids, root, q, k - 1);
      LevelsStep(kids, root, k - 1);
      LevelAdds(kids, root, q, Levels(kids, root, k - 1));
    }
  }

  /** The finished list is the levels in order, all of them; any number of levels is the beginning of it. */
  lemma {:induction false} LevelOrder(kids: Kids, root: nat, q: seq<nat>, k: nat)
    requires Complete(kids, root, q)
    ensures Levels(kids, root, k) <= q && Levels(kids, root, |q|) == q
  {
    LevelsPrefix(kids, root, q, k);
    LevelsPrefix(kids, root, q, |q|);
  }

  ghost predicate Path(kids: Kids, root: nat, path: seq<nat>) {
    |path| > 0 && path[0] == root
    && forall i {:trigger path[i]} :: 0 <= i < |path| - 1 ==> path[i + 1] in kids(path[i])
  }

  lemma {:induction false} KidsOn(kids: Kids, root: nat, q: seq<nat>, k: nat, x: nat)
    requires Complete(kids, root, q) && k < |q| && x in kids(q[k])
    ensures x in q
  {
    CompleteIs(kids, root, q);
    KidsAppend(kids, q[..k], q[k]);
    assert q[..k] + [q[k]] == q[..k + 1];
    KidsMonotone(kids, q, k + 1);
    assert x in KidsOf(kids, q[..k + 1]);
  }

  /** Whatever can be reached from the root is on the finished list. */
  lemma {:induction false} AllReached(kids: Kids, root: nat, q: seq<nat>, path: seq<nat>)
    requires Complete(kids, root, q) && Path(kids, root, path)
    ensures path[|path| - 1] in q
  {
    if |path| == 1 {
      CompleteIs(kids, root, q);
    } else {
      var n := |path| - 1;
      AllReached(kids, root, q, path[..n]);
      var k: nat :| k < |q| && q[k] == path[n - 1];
      KidsOn(kids, root, q, k, path[n - 1 + 1]);
    }
  }

  // ---------- no node twice ----------

  ghost predicate NoDup(s: seq<nat>) {
    forall i, j {:trigger s[i], s[j]} :: 0 <= i < j < |s| ==> s[i] != s[j]
  }

  lemma {:induction false} NoDupJoin(a: seq<nat>, b: seq<nat>)
    requires NoDup(a) && NoDup(b) && forall x {:trigger x in a} :: x in a ==> x !in b
    ensures NoDup(a + b)
  {
    var s := a + b;
    forall i, j | 0 <= i < j < |s|
      ensures s[i] != s[j]
    {
      if i < |a| <= j { assert s[i] in a && s[j] in b; }
    }
  }

  /** Every child has one parent, is its child once, and the root has none. */
  ghost predicate OneParent(kids: Kids, root: nat, up: map<nat, nat>) {
    root !in up && forall p: nat {:trigger kids(p)} :: NoDup(kids(p)) && forall x | x in kids(p) ::
      x in up && up[x] == p
  }

  lemma {:induction false} KidsUp(kids: Kids, root: nat, up: map<nat, nat>, q: seq<nat>)
    requires OneParent(kids, root, up) && NoDup(q)
    ensures NoDup(KidsOf(kids, q)) && forall x | x in KidsOf(kids, q) :: x in up && up[x] in q
  {
    if q != [] {
      var n := |q| - 1;
      KidsUp(kids, root, up, q[..n]);
      assert q[n] !in q[..n];
      NoDupJoin(KidsOf(kids, q[..n]), kids(q[n]));
    }
  }

  /** In a tree no node gets on the list twice. */
  lemma {:induction false} ListNoDup(kids: Kids, root: nat, up: map<nat, nat>, q: seq<nat>, i: nat)
    requires OneParent(kids, root, up) && i <= |q| && q == [root] + KidsOf(kids, q[..i]) && NoDup(q[..i])
    ensures NoDup(q)
  {
    KidsUp(kids, root, up, q[..i]);
    NoDupJoin([root], KidsOf(kids, q[..i]));
  }

  /** A list without repetitions is no longer than what it draws from. */
  lemma {:induction false} NoDupBound(s: seq<nat>, n: nat)
    requires NoDup(s) && forall x | x in s :: x < n
    ensures |s| <= n
  {
    if s == [] { return; }
    assert s[0] in s;
    if k: nat :| k < |s| && s[k] == n - 1 {
      var r := s[..k] + s[k + 1..];
      forall x | x in r
        ensures x < n - 1
      {
        var a: nat :| a < |r| && r[a] == x;
        assert x == s[if a < k then a else a + 1] && x in s;
      }
      NoDupBound(r, n - 1);
    } else {
      NoDupBound(s, n - 1);
    }
  }
}
