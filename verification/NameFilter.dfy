/**
 The name filter of an inode: a word with a bit for each of 32 classes of attribute names, cleared for the classes that
 are in use.  Whoever looks for a name whose bit is set need not look further.  The hash xxh32 stays arbitrary.
 */
module NameFilter {
  import opened Bytes
  import opened Chunking
  import opened Xattrs

  /** The hash of a string with a seed. */
  type Xxh32 = (bytes, nat) -> nat

  /** The class of a name: the hash of its suffix, seeded with the number of its prefix. */
  function ClassOf(xx: Xxh32, x: Xattr): (b: nat)
    ensures b < 32
  {
    xx(Store(x).rest, 0x25BBE08F + Store(x).index) % 32
  }

  /** One of the first `n` names is of class `b`. */
  predicate Used(xx: Xxh32, xs: seq<Xattr>, n: nat, b: nat)
    requires n <= |xs|
  {
    exists i :: 0 <= i < n && ClassOf(xx, xs[i]) == b
  }

  /** The number with these bits, the lowest first. */
  function Value(bits: seq<bool>): nat {
    if bits == [] then 0 else (if bits[0] then 1 else 0) + 2 * Value(bits[1..])
  }

  predicate HasBit(n: nat, b: nat) {
    if b == 0 then n % 2 == 1 else HasBit(n / 2, b - 1)
  }

  lemma {:induction false} ValueBit(bits: seq<bool>, b: nat)
    requires b < |bits|
    ensures HasBit(Value(bits), b) == bits[b]
  {
    if b > 0 {
      ValueBit(bits[1..], b - 1);
      assert Value(bits) / 2 == Value(bits[1..]);
    }
  }

  lemma {:induction false} ValueBound(bits: seq<bool>)
    ensures Value(bits) < Pow2(|bits|)
  {
    if bits != [] { ValueBound(bits[1..]); }
  }

  function FilterOf(xx: Xxh32, xs: seq<Xattr>): nat {
    Value(seq(32, b requires 0 <= b < 32 => !Used(xx, xs, |xs|, b)))
  }

  lemma {:induction false} FilterMeans(xx: Xxh32, xs: seq<Xattr>, b: nat)
    requires b < 32
    ensures FilterOf(xx, xs) < 0x1_0000_0000
    ensures HasBit(FilterOf(xx, xs), b) <==>
            forall i {:trigger xs[i]} :: 0 <= i < |xs| ==>
              xx(Store(xs[i]).rest, 0x25BBE08F + Store(xs[i]).index) % 32 != b
  {
    var bits := seq(32, b requires 0 <= b < 32 => !Used(xx, xs, |xs|, b));
    ValueBit(bits, b);
    ValueBound(bits);
    assert Pow2(8) == 0x100;
    assert Pow2(16) == 0x1_0000;
    assert Pow2(24) == 0x100_0000;
    assert Pow2(32) == 0x1_0000_0000;
  }

  /** The filter never hides an attribute: the bit of a name that is there is clear. */
  lemma {:induction false} NeverHides(xx: Xxh32, xs: seq<Xattr>, key: bytes)
    requires exists x :: x in xs && x.key == key
    ensures !HasBit(FilterOf(xx, xs), ClassOf(xx, Xattr(key, [])))
  {
    var x :| x in xs && x.key == key;
    var i :| 0 <= i < |xs| && xs[i] == x;
    FilterMeans(xx, xs, ClassOf(xx, Xattr(key, [])));
    assert ClassOf(xx, x) == ClassOf(xx, Xattr(key, []));
  }

  /** The loop over the attributes; the word is taken bit by bit. */
  method ComputeFilter(xx: Xxh32, xs: seq<Xattr>) returns (filter: nat)
    ensures filter == FilterOf(xx, xs)
  {
    var word := seq(32, _ => false);
    for i := 0 to |xs|
      invariant |word| == 32
      invariant forall b: nat {:trigger word[b]} :: b < 32 ==> word[b] == Used(xx, xs, i, b)
    {
      var bit := ClassOf(xx, xs[i]);
      ghost var before := word;
      word := word[bit := true];
      forall b: nat | b < 32
        ensures word[b] == Used(xx, xs, i + 1, b)
      {
        UsedMore(xx, xs, i, b);
        assert before[b] == Used(xx, xs, i, b);
      }
    }
    var bits := seq(32, b requires 0 <= b < 32 => !word[b]);
    assert bits == seq(32, b requires 0 <= b < 32 => !Used(xx, xs, |xs|, b));
    filter := Value(bits);
  }

  lemma {:induction false} UsedMore(xx: Xxh32, xs: seq<Xattr>, i: nat, b: nat)
    requires i < |xs|
    ensures Used(xx, xs, i + 1, b) <==> Used(xx, xs, i, b) || ClassOf(xx, xs[i]) == b
  {
    if Used(xx, xs, i, b) {
      var k :| 0 <= k < i && ClassOf(xx, xs[k]) == b;
    }
  }
}
