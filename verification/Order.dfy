/** The order of byte strings that strcmp and memcmp define, and the uniqueness of sorted sequences. */
module Order {
  import opened Bytes

  /** Lexicographic order on unsigned bytes; a proper prefix comes first. */
  predicate Less(a: bytes, b: bytes) {
    b != [] && (a == [] || a[0] < b[0] || (a[0] == b[0] && Less(a[1..], b[1..])))
  }

  /** The first place where two strings differ has a smaller byte in the first one, or is its end. */
  ghost predicate DiffersAt(a: bytes, b: bytes, k: nat) {
    k <= |a| && k < |b| && a[..k] == b[..k] && (k == |a| || a[k] < b[k])
  }

  lemma {:induction false} LessMeans(a: bytes, b: bytes)
    ensures Less(a, b) <==> exists k: nat :: DiffersAt(a, b, k)
  {
    if Less(a, b) {
      var k := FirstDifference(a, b);
    }
    if k: nat :| DiffersAt(a, b, k) { DifferenceLess(a, b, k); }
  }

  lemma {:induction false} FirstDifference(a: bytes, b: bytes) returns (k: nat)
    requires Less(a, b)
    ensures DiffersAt(a, b, k)
  {
    if a == [] || a[0] < b[0] {
      k := 0;
    } else {
      var k' := FirstDifference(a[1..], b[1..]);
      k := k' + 1;
      assert a[..k] == [a[0]] + a[1..][..k'] && b[..k] == [b[0]] + b[1..][..k'];
    }
  }

  lemma {:induction false} DifferenceLess(a: bytes, b: bytes, k: nat)
    requires DiffersAt(a, b, k)
    ensures Less(a, b)
    decreases k
  {
    if k > 0 {
      assert a[..k][0] == b[..k][0] && a[..k][1..] == b[..k][1..];
      assert a[1..][..k - 1] == a[..k][1..] && b[1..][..k - 1] == b[..k][1..];
      DifferenceLess(a[1..], b[1..], k - 1);
    }
  }

  lemma {:induction false} LessIrreflexive(a: bytes)
    ensures !Less(a, a)
  {
    if a != [] { LessIrreflexive(a[1..]); }
  }

  lemma {:induction false} LessTransitive(a: bytes, b: bytes, c: bytes)
    requires Less(a, b) && Less(b, c)
    ensures Less(a, c)
  {
    if a != [] && a[0] == b[0] == c[0] { LessTransitive(a[1..], b[1..], c[1..]); }
  }

  lemma {:induction false} LessTotal(a: bytes, b: bytes)
    ensures a == b || Less(a, b) || Less(b, a)
  {
    if a != [] && b != [] && a[0] == b[0] {
      LessTotal(a[1..], b[1..]);
      assert a == [a[0]] + a[1..] && b == [b[0]] + b[1..];
    }
  }

  // ---------- sorted sequences ----------

  ghost predicate StrictOrder<T(!new)>(less: (T, T) -> bool) {
    && (forall x {:trigger less(x, x)} :: !less(x, x))
    && (forall x, y, z {:trigger less(x, y), less(y, z)} :: less(x, y) && less(y, z) ==> less(x, z))
    && (forall x, y {:trigger less(x, y)} {:trigger less(y, x)} :: x == y || less(x, y) || less(y, x))
  }

  ghost predicate Increasing<T>(s: seq<T>, less: (T, T) -> bool) {
    forall i, j {:trigger s[i], s[j]} :: 0 <= i < j < |s| ==> less(s[i], s[j])
  }

  ghost predicate SameElements<T(!new)>(a: seq<T>, b: seq<T>) {
    forall x {:trigger x in a} {:trigger x in b} :: x in a <==> x in b
  }

  lemma {:induction false} HeadSmallest<T(!new)>(a: seq<T>, less: (T, T) -> bool, x: T)
    requires Increasing(a, less) && x in a
    ensures x == a[0] || less(a[0], x)
  {
    var i :| 0 <= i < |a| && a[i] == x;
  }

  lemma {:induction false} InTail<T(!new)>(a: seq<T>, less: (T, T) -> bool, x: T)
    requires StrictOrder(less) && Increasing(a, less) && a != []
    ensures x in a[1..] <==> x in a && x != a[0]
  {
    assert a == [a[0]] + a[1..];
  }

  /** A set of elements has one sorted listing. */
  lemma {:induction false} SortedUnique<T(!new)>(a: seq<T>, b: seq<T>, less: (T, T) -> bool)
    requires StrictOrder(less) && Increasing(a, less) && Increasing(b, less) && SameElements(a, b)
    ensures a == b
  {
    assert b != [] ==> b[0] in b;
    if a != [] {
      assert a[0] in a;
      HeadSmallest(b, less, a[0]);
      HeadSmallest(a, less, b[0]);
      assert a[0] == b[0];
      forall x
        ensures x in a[1..] <==> x in b[1..]
      {
        InTail(a, less, x);
        InTail(b, less, x);
      }
      assert a == [a[0]] + a[1..] && b == [b[0]] + b[1..];
      SortedUnique(a[1..], b[1..], less);
    }
  }

  function Insert<T>(s: seq<T>, x: T, less: (T, T) -> bool): seq<T> {
    if s == [] then [x] else
    if less(s[0], x) then [s[0]] + Insert(s[1..], x, less) else [x] + s
  }

  lemma {:induction false} InsertElements<T(!new)>(s: seq<T>, x: T, less: (T, T) -> bool)
    ensures forall y {:trigger y in Insert(s, x, less)} :: y in Insert(s, x, less) <==> y == x || y in s
  {
    if s != [] && less(s[0], x) {
      InsertElements(s[1..], x, less);
      assert s == [s[0]] + s[1..];
    }
  }

  lemma {:induction false} InsertIncreasing<T(!new)>(s: seq<T>, x: T, less: (T, T) -> bool)
    requires StrictOrder(less) && Increasing(s, less) && x !in s
    ensures Increasing(Insert(s, x, less), less)
  {
    if s != [] {
      if less(s[0], x) {
        InsertIncreasing(s[1..], x, less);
        InsertElements(s[1..], x, less);
        HeadFirst(s[0], Insert(s[1..], x, less), less);
      } else {
        HeadFirst(x, s, less);
      }
    }
  }

  lemma {:induction false} HeadFirst<T(!new)>(x: T, s: seq<T>, less: (T, T) -> bool)
    requires Increasing(s, less) && forall y {:trigger y in s} :: y in s ==> less(x, y)
    ensures Increasing([x] + s, less)
  {
    var r := [x] + s;
    forall i, j | 0 <= i < j < |r|
      ensures less(r[i], r[j])
    {
      assert r[j] == s[j - 1] && s[j - 1] in s;
      if i > 0 { assert r[i] == s[i - 1]; }
    }
  }
}
