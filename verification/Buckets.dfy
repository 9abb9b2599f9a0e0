/**
 The value of a chained hash table: one sequence of entries per bucket, the bucket head first and
 the overflow entries after it.  The counting facts that make a failed rehash reversible live here.
 */
module Buckets {

  type Chains<E> = seq<seq<E>>

  /** A hash function restricted to table sizes it is asked about: in range and deterministic. */
  ghost predicate InRange<E(!new)>(hasher: (E, nat) -> nat) {
    forall e: E, n: nat {:trigger hasher(e, n)} :: 0 < n ==> hasher(e, n) < n
  }

  /** Number of entries. */
  ghost function Size<E>(b: Chains<E>): (n: nat) {
    if b == [] then 0 else Size(b[..|b| - 1]) + |b[|b| - 1]|
  }

  /** Number of nonempty buckets. */
  ghost function Used<E>(b: Chains<E>): (n: nat) {
    if b == [] then 0 else Used(b[..|b| - 1]) + (if b[|b| - 1] == [] then 0 else 1)
  }

  /** All entries, with multiplicity. */
  ghost function Entries<E>(b: Chains<E>): (m: multiset<E>) {
    if b == [] then multiset{} else Entries(b[..|b| - 1]) + multiset(b[|b| - 1])
  }

  /** Every entry sits in the bucket its hash selects. */
  ghost predicate Placed<E(!new)>(b: Chains<E>, hasher: (E, nat) -> nat) {
    forall i, k {:trigger b[i][k]} :: 0 <= i < |b| && 0 <= k < |b[i]| ==> hasher(b[i][k], |b|) == i
  }

  /** A new entry becomes the head of an empty bucket, or goes right behind the head. */
  ghost function Put<E>(b: Chains<E>, h: nat, e: E): (r: Chains<E>)
    requires h < |b|
  {
    b[h := if b[h] == [] then [e] else [b[h][0], e] + b[h][1..]]
  }

  ghost function HashImage<E(!new)>(m: multiset<E>, n: nat, hasher: (E, nat) -> nat): (s: set<nat>) {
    set e | e in m :: hasher(e, n)
  }

  /** Overflow nodes a table of n buckets needs to hold exactly the entries m. */
  ghost function OverflowNeed<E(!new)>(m: multiset<E>, n: nat, hasher: (E, nat) -> nat): (k: int) {
    |m| - |HashImage(m, n, hasher)|
  }

  // ---------- replacing one bucket ----------

  lemma {:induction false} Rearrange<E>(a: multiset<E>, b: multiset<E>, c: multiset<E>, d: multiset<E>, m: multiset<E>)
    requires a + b == c + d
    ensures (a + m) + b == (c + m) + d
  {
    assert (a + m) + b == (a + b) + m;
    assert (c + m) + d == (c + d) + m;
  }

  lemma {:induction false} Cancel<E>(a: multiset<E>, b: multiset<E>, m: multiset<E>)
    requires a + m == b + m
    ensures a == b
  {
    assert a == (a + m) - m;
    assert b == (b + m) - m;
  }

  lemma {:induction false} Replace<E>(b: Chains<E>, h: nat, c: seq<E>)
    requires h < |b|
    ensures Size(b[h := c]) == Size(b) - |b[h]| + |c|
    ensures Used(b[h := c]) == Used(b) - (if b[h] == [] then 0 else 1) + (if c == [] then 0 else 1)
    ensures Entries(b[h := c]) + multiset(b[h]) == Entries(b) + multiset(c)
  {
    var last := |b| - 1;
    var b' := b[h := c];
    if h == last {
      assert b'[..last] == b[..last];
    } else {
      var p := b[..last];
      assert b'[..last] == p[h := c];
      Replace(p, h, c);
      Rearrange(Entries(p[h := c]), multiset(b[h]), Entries(p), multiset(c), multiset(b[last]));
    }
  }

  lemma {:induction false} InsertSecond<E>(c: seq<E>, e: E)
    requires c != []
    ensures multiset([c[0], e] + c[1..]) == multiset(c) + multiset{e}
  {
    assert c == [c[0]] + c[1..];
    assert [c[0], e] + c[1..] == [c[0]] + ([e] + c[1..]);
  }

  lemma {:induction false} PutCounts<E>(b: Chains<E>, h: nat, e: E)
    requires h < |b|
    ensures Size(Put(b, h, e)) == Size(b) + 1
    ensures Used(Put(b, h, e)) == Used(b) + (if b[h] == [] then 1 else 0)
    ensures Entries(Put(b, h, e)) == Entries(b) + multiset{e}
  {
    var c := if b[h] == [] then [e] else [b[h][0], e] + b[h][1..];
    Replace(b, h, c);
    assert multiset(c) == multiset(b[h]) + multiset{e} by {
      if b[h] != [] { InsertSecond(b[h], e); }
    }
    var m := multiset(b[h]);
    assert Entries(b[h := c]) + m == (Entries(b) + multiset{e}) + m;
    Cancel(Entries(b[h := c]), Entries(b) + multiset{e}, m);
  }

  lemma {:induction false} CutCounts<E>(b: Chains<E>, h: nat)
    requires h < |b| && b[h] != []
    ensures Size(b[h := [b[h][0]]]) == Size(b) - (|b[h]| - 1)
    ensures Used(b[h := [b[h][0]]]) == Used(b)
    ensures Entries(b[h := [b[h][0]]]) + multiset(b[h][1..]) == Entries(b)
  {
    var c, b' := [b[h][0]], b[h := [b[h][0]]];
    Replace(b, h, c);
    assert b[h] == c + b[h][1..];
    assert (Entries(b') + multiset(b[h][1..])) + multiset(c) == Entries(b) + multiset(c);
    Cancel(Entries(b') + multiset(b[h][1..]), Entries(b), multiset(c));
  }

  lemma {:induction false} UsedAtMostSize<E>(b: Chains<E>)
    ensures Used(b) <= Size(b)
    ensures |Entries(b)| == Size(b)
  {
    if b != [] { UsedAtMostSize(b[..|b| - 1]); }
  }

  ghost predicate HeadsOnly<E>(b: Chains<E>) {
    forall i {:trigger b[i]} :: 0 <= i < |b| ==> |b[i]| <= 1
  }

  lemma {:induction false} HeadsNeedNoOverflow<E>(b: Chains<E>)
    requires HeadsOnly(b)
    ensures Size(b) == Used(b)
  {
    if b != [] { HeadsNeedNoOverflow(b[..|b| - 1]); }
  }

  lemma {:induction false} EntryHasPlace<E>(b: Chains<E>, e: E)
    ensures e in Entries(b) <==> exists i :: 0 <= i < |b| && e in b[i]
  {
    if b != [] {
      var last := |b| - 1;
      EntryHasPlace(b[..last], e);
      if i :| 0 <= i < |b| && e in b[i] {
        assert i < last ==> e in b[..last][i];
      }
      if e in Entries(b[..last]) {
        var i :| 0 <= i < last && e in b[..last][i];
        assert e in b[i];
      }
    }
  }

  lemma {:induction false} PutPlaced<E(!new)>(b: Chains<E>, h: nat, e: E, hasher: (E, nat) -> nat)
    requires h < |b| && Placed(b, hasher) && hasher(e, |b|) == h
    ensures Placed(Put(b, h, e), hasher)
  {
    var b' := Put(b, h, e);
    forall i, k | 0 <= i < |b'| && 0 <= k < |b'[i]|
      ensures hasher(b'[i][k], |b'|) == i
    {
      if i == h && b[h] != [] {
        assert b'[i][k] == if k == 0 then b[h][0] else if k == 1 then e else b[h][k - 1];
      }
    }
  }

  // ---------- the used buckets are the image of the hash ----------

  ghost function NonEmpty<E>(b: Chains<E>): (s: set<nat>) {
    set i: nat | i < |b| && b[i] != []
  }

  lemma {:induction false} UsedIsCard<E>(b: Chains<E>)
    ensures Used(b) == |NonEmpty(b)|
  {
    if b != [] {
      var last := |b| - 1;
      UsedIsCard(b[..last]);
      assert NonEmpty(b) == NonEmpty(b[..last]) + if b[last] == [] then {} else {last};
    }
  }

  /** How many buckets are used depends only on which entries are stored, not on the order. */
  lemma {:induction false} UsedIsImage<E(!new)>(b: Chains<E>, hasher: (E, nat) -> nat)
    requires Placed(b, hasher)
    ensures Used(b) == |HashImage(Entries(b), |b|, hasher)|
    ensures Size(b) - Used(b) == OverflowNeed(Entries(b), |b|, hasher)
  {
    UsedIsCard(b);
    UsedAtMostSize(b);
    var img := HashImage(Entries(b), |b|, hasher);
    forall i: nat | i in NonEmpty(b)
      ensures i in img
    {
      assert b[i][0] in b[i];
      EntryHasPlace(b, b[i][0]);
      assert hasher(b[i][0], |b|) == i;
    }
    forall e | e in Entries(b)
      ensures hasher(e, |b|) in NonEmpty(b)
    {
      EntryHasPlace(b, e);
      var i :| 0 <= i < |b| && e in b[i];
      var k :| 0 <= k < |b[i]| && b[i][k] == e;
    }
    assert img == NonEmpty(b);
  }

  lemma {:induction false} ImageGrowth<E(!new)>(x: multiset<E>, r: multiset<E>, n: nat, hasher: (E, nat) -> nat)
    ensures |HashImage(x + r, n, hasher)| <= |HashImage(x, n, hasher)| + |r|
    decreases |r|
  {
    if r == multiset{} {
      assert x + r == x;
    } else {
      var e :| e in r;
      var r' := r - multiset{e};
      ImageGrowth(x, r', n, hasher);
      assert x + r == (x + r') + multiset{e};
      assert HashImage(x + r, n, hasher) == HashImage(x + r', n, hasher) + {hasher(e, n)};
    }
  }

  /**
   Storing more entries never lowers the number of overflow nodes in use.  So a partially filled
   table b that is about to put e behind an occupied head needs at most as many nodes as the table
   holding everything.
   */
  lemma {:induction false} PartialNeed<E(!new)>(b: Chains<E>, e: E, rest: multiset<E>, hasher: (E, nat) -> nat)
    requires Placed(b, hasher)
    requires hasher(e, |b|) < |b| && b[hasher(e, |b|)] != []
    ensures Size(b) - Used(b) + 1 <= OverflowNeed(Entries(b) + multiset{e} + rest, |b|, hasher)
  {
    UsedIsImage(b, hasher);
    var x := Entries(b) + multiset{e};
    var h := hasher(e, |b|);
    assert b[h][0] in b[h];
    EntryHasPlace(b, b[h][0]);
    assert hasher(b[h][0], |b|) == h;
    assert HashImage(x, |b|, hasher) == HashImage(Entries(b), |b|, hasher);
    ImageGrowth(x, rest, |b|, hasher);
  }

  // ---------- entries modulo the comparator ----------

  predicate Match<E(==)>(comparator: (E, E) -> bool, a: E, b: E) {
    a == b || comparator(a, b)
  }

  /** What the table demands of the functions it is created with. */
  ghost predicate Sound<E(!new)>(hasher: (E, nat) -> nat, comparator: (E, E) -> bool) {
    && InRange(hasher)
    && (forall a, b {:trigger comparator(a, b)} :: comparator(a, b) ==> Match(comparator, b, a))
    && (forall a, b, c {:trigger comparator(a, b), comparator(b, c)} :: comparator(a, b) && comparator(b, c) ==>
          Match(comparator, a, c))
    && (forall a, b, n: nat {:trigger comparator(a, b), hasher(a, n)} :: 0 < n && comparator(a, b) ==>
          hasher(a, n) == hasher(b, n))
  }

  /** No two stored entries match. */
  ghost predicate Unique<E(!new)>(m: multiset<E>, comparator: (E, E) -> bool) {
    && (forall x {:trigger m[x]} :: m[x] <= 1)
    && forall x, y {:trigger comparator(x, y)} :: x in m && y in m && comparator(x, y) ==> x == y
  }

  /** A bucket without a match means a table without a match. */
  lemma {:induction false} NoMatchAnywhere<E(!new)>(b: Chains<E>, hasher: (E, nat) -> nat,
                                   comparator: (E, E) -> bool, e: E, x: E)
    requires Sound(hasher, comparator) && Placed(b, hasher) && b != []
    requires var h := hasher(e, |b|); forall k {:trigger b[h][k]} :: 0 <= k < |b[h]| ==> !Match(comparator, e, b[h][k])
    requires x in Entries(b)
    ensures !Match(comparator, e, x)
  {
    EntryHasPlace(b, x);
    var i :| 0 <= i < |b| && x in b[i];
    var k :| 0 <= k < |b[i]| && b[i][k] == x;
    assert hasher(x, |b|) == i;
  }

  lemma {:induction false} UniqueAdd<E(!new)>(m: multiset<E>, comparator: (E, E) -> bool, hasher: (E, nat) -> nat, e: E)
    requires Sound(hasher, comparator) && Unique(m, comparator)
    requires forall x :: x in m ==> !Match(comparator, e, x)
    ensures Unique(m + multiset{e}, comparator)
  {
    assert forall x {:trigger comparator(x, e)} :: comparator(x, e) ==> Match(comparator, e, x);
    assert forall x {:trigger comparator(e, x)} :: comparator(e, x) ==> Match(comparator, e, x);
  }

  lemma {:induction false} UniqueRemove<E(!new)>(m: multiset<E>, m': multiset<E>, comparator: (E, E) -> bool, e: E)
    requires Unique(m, comparator) && m' + multiset{e} == m
    ensures Unique(m', comparator)
  {
    assert forall x {:trigger m'[x]} :: m'[x] <= m[x];
    assert forall x :: x in m' ==> x in m;
  }

  lemma {:induction false} WithoutOne<E>(c: seq<E>, j: nat)
    requires j < |c|
    ensures multiset(c) == multiset(c[..j] + c[j + 1..]) + multiset{c[j]}
  {
    assert c == c[..j] + [c[j]] + c[j + 1..];
  }

  lemma {:induction false} RemoveCounts<E>(b: Chains<E>, h: nat, j: nat)
    requires h < |b| && j < |b[h]|
    ensures var b' := b[h := b[h][..j] + b[h][j + 1..]];
            && Size(b') == Size(b) - 1
            && Used(b') == Used(b) - (if |b[h]| == 1 then 1 else 0)
            && Entries(b') + multiset{b[h][j]} == Entries(b)
  {
    var e, c := b[h][j], b[h][..j] + b[h][j + 1..];
    Replace(b, h, c);
    WithoutOne(b[h], j);
    Cancel(Entries(b[h := c]) + multiset{e}, Entries(b), multiset(c));
  }

  lemma {:induction false} RemovePlaced<E(!new)>(b: Chains<E>, h: nat, j: nat, hasher: (E, nat) -> nat)
    requires h < |b| && j < |b[h]| && Placed(b, hasher)
    ensures Placed(b[h := b[h][..j] + b[h][j + 1..]], hasher)
  {
    var b' := b[h := b[h][..j] + b[h][j + 1..]];
    forall i, k | 0 <= i < |b'| && 0 <= k < |b'[i]|
      ensures hasher(b'[i][k], |b'|) == i
    {
      if i == h { assert b'[i][k] == b[h][if k < j then k else k + 1]; }
    }
  }

  /** Everything a removal keeps. */
  lemma {:induction false} RemoveKeeps<E(!new)>(b: Chains<E>, h: nat, j: nat, hasher: (E, nat) -> nat,
                                   comparator: (E, E) -> bool)
    requires h < |b| && j < |b[h]| && Placed(b, hasher) && Unique(Entries(b), comparator)
    ensures var b' := b[h := b[h][..j] + b[h][j + 1..]];
            && Size(b') == Size(b) - 1
            && Used(b') == Used(b) - (if b'[h] == [] then 1 else 0)
            && Entries(b') + multiset{b[h][j]} == Entries(b)
            && Placed(b', hasher) && Unique(Entries(b'), comparator)
  {
    RemoveCounts(b, h, j);
    RemovePlaced(b, h, j, hasher);
    UniqueRemove(Entries(b), Entries(b[h := b[h][..j] + b[h][j + 1..]]), comparator, b[h][j]);
  }
}
