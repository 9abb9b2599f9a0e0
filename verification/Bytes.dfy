/** Byte strings: little-endian numbers, zero padding, alignment and concatenation. */
module Bytes {
  import opened Common

  type bytes = seq<byte>

  function Zeros(n: nat): (z: bytes)
    ensures |z| == n
  {
    seq(n, _ => 0)
  }

  // ---------- little-endian numbers ----------

  function Pow256(w: nat): (p: nat)
    ensures p > 0
  {
    if w == 0 then 1 else 256 * Pow256(w - 1)
  }

  /** The low `w` bytes of `n`, least significant first; higher bytes are cut off as a C cast would. */
  function LE(n: nat, w: nat): (s: bytes)
    ensures |s| == w
  {
    if w == 0 then [] else [n % 256] + LE(n / 256, w - 1)
  }

  lemma {:induction false} ModSplit(n: nat, p: nat)
    requires p > 0
    ensures n % (256 * p) == n % 256 + 256 * (n / 256 % p)
  {
    var q, r := n / 256, n % 256;
    var a, b := q / p, q % p;
    assert n == 256 * (p * a + b) + r;
    assert n == (256 * p) * a + (256 * b + r);
    assert 256 * b + r < 256 * p;
    DivModUnique(n, 256 * p, a, 256 * b + r);
  }

  lemma {:induction false} DivModUnique(n: nat, d: nat, q: nat, r: nat)
    requires d > 0 && n == d * q + r && r < d
    ensures n % d == r && n / d == q
  {
    var q', r' := n / d, n % d;
    EuclidSplit(n, d);
    assert d * (q - q') == d * q - d * q' == r' - r;
    if q > q' { MulAtLeast(d, q - q'); }
    if q < q' {
      assert d * (q' - q) == d * q' - d * q == r - r';
      MulAtLeast(d, q' - q);
    }
  }

  lemma {:induction false} EuclidSplit(n: nat, d: nat)
    requires d > 0
    ensures n == d * (n / d) + n % d && 0 <= n % d < d
  {
  }

  lemma {:induction false} MulAtLeast(d: nat, k: int)
    requires k >= 1
    ensures d * k >= d
  {
    if k > 1 {
      MulAtLeast(d, k - 1);
      assert d * k == d * (k - 1) + d;
    }
  }

  lemma {:induction false} Widths()
    ensures Pow256(1) == 0x100 && Pow256(2) == 0x1_0000 && Pow256(4) == 0x1_0000_0000
    ensures Pow256(8) == 0x1_0000_0000_0000_0000
  {
    assert Pow256(3) == 0x100_0000 && Pow256(5) == 0x100_0000_0000 && Pow256(6) == 0x1_0000_0000_0000;
    assert Pow256(7) == 0x100_0000_0000_0000;
  }

  // ---------- alignment ----------

  function RoundUp(x: nat, y: nat): (r: nat)
    requires y > 0
    ensures x <= r < x + y && r % y == 0
  {
    EuclidSplit(x, y);
    if x % y == 0 then x else
      DivModUnique(y * (x / y + 1), y, x / y + 1, 0);
      y * (x / y + 1)
  }

  // ---------- concatenation ----------

  ghost function Flat(parts: seq<bytes>): (s: bytes) {
    if parts == [] then [] else Flat(parts[..|parts| - 1]) + parts[|parts| - 1]
  }

  /** Where part `i` starts. */
  ghost function Offset(parts: seq<bytes>, i: nat): (o: nat)
    requires i <= |parts|
  {
    |Flat(parts[..i])|
  }

  lemma {:induction false} FlatAppend(parts: seq<bytes>, x: bytes)
    ensures Flat(parts + [x]) == Flat(parts) + x
  {
    assert (parts + [x])[..|parts|] == parts;
  }

  lemma {:induction false} FlatSplit(parts: seq<bytes>, i: nat)
    requires i <= |parts|
    ensures Flat(parts) == Flat(parts[..i]) + Flat(parts[i..])
  {
    if i == |parts| {
      assert parts[..i] == parts;
    } else {
      var last := |parts| - 1;
      FlatSplit(parts[..last], i);
      assert parts[..last][..i] == parts[..i] && parts[..last][i..] == parts[i..][..last - i];
    }
  }

  lemma {:induction false} FlatSlice(parts: seq<bytes>, i: nat)
    requires i < |parts|
    ensures Offset(parts, i + 1) == Offset(parts, i) + |parts[i]| <= |Flat(parts)|
    ensures Flat(parts)[Offset(parts, i)..Offset(parts, i) + |parts[i]|] == parts[i]
  {
    FlatSplit(parts, i + 1);
    assert parts[..i + 1][..i] == parts[..i];
  }

  lemma {:induction false} Assoc(a: bytes, b: bytes, c: bytes)
    ensures a + b + c == a + (b + c)
  {
  }

  lemma {:induction false} FlatPrefix(parts: seq<bytes>, i: nat)
    requires i < |parts|
    ensures Flat(parts[..i + 1]) == Flat(parts[..i]) + parts[i]
  {
    assert parts[..i + 1] == parts[..i] + [parts[i]];
    FlatAppend(parts[..i], parts[i]);
  }

  lemma {:induction false} FlatFirst(parts: seq<bytes>)
    requires parts != []
    ensures Flat(parts) == parts[0] + Flat(parts[1..])
  {
    FlatSplit(parts, 1);
    assert Flat(parts[..1]) == [] + parts[0];
  }

  lemma {:induction false} FlatUniform(parts: seq<bytes>, n: nat)
    requires forall i {:trigger parts[i]} :: 0 <= i < |parts| ==> |parts[i]| == n
    ensures |Flat(parts)| == n * |parts|
  {
    if parts != [] {
      FlatUniform(parts[..|parts| - 1], n);
      assert n * |parts| == n * (|parts| - 1) + n;
    }
  }

  // ---------- finding a string inside another ----------

  /** `x` stands at offset `o` of `b`. */
  ghost predicate At(b: bytes, o: nat, x: bytes) {
    o + |x| <= |b| && b[o..o + |x|] == x
  }

  lemma {:induction false} AtJoin(b: bytes, o: nat, x: bytes, y: bytes)
    ensures At(b, o, x + y) <==> At(b, o, x) && At(b, o + |x|, y)
  {
    if o + |x| + |y| <= |b| {
      assert b[o..o + |x| + |y|] == b[o..o + |x|] + b[o + |x|..o + |x| + |y|];
      var s := b[o..o + |x| + |y|];
      if At(b, o, x + y) {
        assert b[o..o + |x|] == s[..|x|] && b[o + |x|..o + |x| + |y|] == s[|x|..];
      }
    }
  }

  /** What stands inside a string that stands in `b` stands in `b`. */
  lemma {:induction false} AtInside(b: bytes, o: nat, x: bytes, k: nat, y: bytes)
    requires At(b, o, x) && At(x, k, y)
    ensures At(b, o + k, y)
  {
    assert x == x[..k] + y + x[k + |y|..];
    AtJoin(b, o, x[..k] + y, x[k + |y|..]);
    AtJoin(b, o, x[..k], y);
  }

  lemma {:induction false} AtZeros(b: bytes, o: nat, n: nat)
    requires At(b, o, Zeros(n))
    ensures forall i {:trigger b[i]} :: o <= i < o + n ==> b[i] == 0
  {
    forall i | o <= i < o + n
      ensures b[i] == 0
    {
      assert b[i] == b[o..o + n][i - o];
    }
  }

  lemma {:induction false} AtFlat(parts: seq<bytes>, i: nat)
    requires i < |parts|
    ensures At(Flat(parts), Offset(parts, i), parts[i])
  {
    FlatSlice(parts, i);
  }

  lemma {:induction false} AtPart(b: bytes, o: nat, parts: seq<bytes>, i: nat)
    requires At(b, o, Flat(parts)) && i < |parts|
    ensures At(b, o + Offset(parts, i), parts[i])
  {
    AtFlat(parts, i);
    AtInside(b, o, Flat(parts), Offset(parts, i), parts[i]);
  }

  /** The `w`-byte number at offset `o`. */
  function Num(b: bytes, o: nat, w: nat): nat
    requires o + w <= |b|
    decreases w
  {
    if w == 0 then 0 else b[o] + 256 * Num(b, o + 1, w - 1)
  }

  /** Reading a number back gives what was written, cut to the width. */
  lemma {:induction false} AtNum(b: bytes, o: nat, n: nat, w: nat)
    requires At(b, o, LE(n, w))
    ensures o + w <= |b| && Num(b, o, w) == n % Pow256(w)
    decreases w
  {
    if w > 0 {
      AtJoin(b, o, [n % 256], LE(n / 256, w - 1));
      AtNum(b, o + 1, n / 256, w - 1);
      ModSplit(n, Pow256(w - 1));
      assert b[o] == b[o..o + 1][0];
    }
  }
}
