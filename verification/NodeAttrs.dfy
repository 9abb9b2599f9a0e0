/**
 The attributes of a node in memory: set and removed by name, with a running total that stands in for the room
 they will take in the image.
 */
module NodeAttrs {
  import opened Common
  import opened Bytes
  import opened Order
  import opened Xattrs

  // ---------- the total ----------

  /** What one attribute is counted with: its head, its bytes, and the worst padding. */
  function Charge(x: Xattr): nat { 7 + |x.key| + |x.value| }

  function Charges(xs: seq<Xattr>): nat {
    if xs == [] then 0 else Charges(xs[..|xs| - 1]) + Charge(xs[|xs| - 1])
  }

  /** The first attribute also pays for the header. */
  function Total(xs: seq<Xattr>): nat { if xs == [] then 0 else 12 + Charges(xs) }

  lemma {:induction false} ChargesAppend(xs: seq<Xattr>, x: Xattr)
    ensures Charges(xs + [x]) == Charges(xs) + Charge(x)
  {
    assert (xs + [x])[..|xs|] == xs;
  }

  /** 12 bytes for the header, and for each attribute 4 for its head, up to 3 of padding, its name and its value. */
  lemma {:induction false} TotalIs(xs: seq<Xattr>, x: Xattr)
    ensures Total([]) == 0 && Total([x]) == 12 + 4 + 3 + |x.key| + |x.value|
    ensures xs != [] ==> Total(xs + [x]) == Total(xs) + 4 + 3 + |x.key| + |x.value|
    ensures Limit(true) == 32767 && Limit(false) == 65535
  {
    ChargesAppend([], x);
    assert [] + [x] == [x];
    ChargesAppend(xs, x);
  }

  lemma {:induction false} ChargesJoin(a: seq<Xattr>, b: seq<Xattr>)
    ensures Charges(a + b) == Charges(a) + Charges(b)
    decreases |b|
  {
    if b == [] {
      assert a + b == a;
    } else {
      var n := |b| - 1;
      ChargesJoin(a, b[..n]);
      ChargesAppend(a + b[..n], b[n]);
      assert a + b == (a + b[..n]) + [b[n]];
    }
  }

  /** The list without its `i`th attribute; the last one takes its place. */
  function Removed(xs: seq<Xattr>, i: nat): seq<Xattr>
    requires i < |xs|
  {
    if i == |xs| - 1 then xs[..i] else xs[i := xs[|xs| - 1]][..|xs| - 1]
  }

  lemma {:induction false} RemovedParts(xs: seq<Xattr>, i: nat, n: nat)
    requires i < n == |xs| - 1
    ensures xs == (xs[..i] + [xs[i]] + xs[i + 1..n]) + [xs[n]] && Removed(xs, i) == xs[..i] + [xs[n]] + xs[i + 1..n]
  {
  }

  lemma {:induction false} RemovedCharges(xs: seq<Xattr>, i: nat)
    requires i < |xs|
    ensures Charges(xs) == Charges(Removed(xs, i)) + Charge(xs[i])
  {
    var n := |xs| - 1;
    if i < n {
      RemovedParts(xs, i, n);
      var a, b := xs[..i], xs[i + 1..n];
      ChargesJoin(a + [xs[i]], b);
      ChargesJoin(a + [xs[n]], b);
      ChargesAppend(a, xs[i]);
      ChargesAppend(a, xs[n]);
      ChargesAppend(a + [xs[i]] + b, xs[n]);
    }
  }

  lemma {:induction false} RemovedElements(xs: seq<Xattr>, i: nat)
    requires i < |xs|
    ensures multiset(xs) == multiset(Removed(xs, i)) + multiset{xs[i]}
  {
    var n := |xs| - 1;
    if i < n {
      RemovedParts(xs, i, n);
      assert multiset(xs) == multiset((xs[..i] + [xs[i]] + xs[i + 1..n]) + [xs[n]]);
    } else {
      assert xs == xs[..n] + [xs[n]];
    }
  }

  lemma {:induction false} RemovedDistinct(xs: seq<Xattr>, i: nat)
    requires i < |xs| && DistinctKeys(xs)
    ensures DistinctKeys(Removed(xs, i)) && !HasKey(Removed(xs, i), xs[i].key)
  {
    var r, n := Removed(xs, i), |xs| - 1;
    forall j, k | 0 <= j < k < |r|
      ensures r[j].key != r[k].key
    {
      assert r[j] == xs[if j == i then n else j] && r[k] == xs[if k == i then n else k];
    }
    forall k | 0 <= k < |r|
      ensures r[k].key != xs[i].key
    {
      assert r[k] == xs[if k == i then n else k];
    }
  }

  lemma {:induction false} RemovedIs(xs: seq<Xattr>, i: nat)
    requires i < |xs| && DistinctKeys(xs)
    ensures DistinctKeys(Removed(xs, i)) && Without(xs, xs[i].key, Removed(xs, i))
  {
    RemovedDistinct(xs, i);
    RemovedElements(xs, i);
    var gone := multiset{xs[i]};
    assert multiset(xs) == multiset(Removed(xs, i)) + gone && |gone| <= 1;
  }

  // ---------- setting and removing ----------

  datatype SetError = BadName | BadValue | TooLarge | NoMemory

  ghost predicate HasKey(xs: seq<Xattr>, name: bytes) {
    exists i :: 0 <= i < |xs| && xs[i].key == name
  }

  /** `ys` holds what `xs` holds under other names, and nothing under this one. */
  ghost predicate Without(xs: seq<Xattr>, name: bytes, ys: seq<Xattr>) {
    !HasKey(ys, name) && exists gone: multiset<Xattr> ::
      multiset(xs) == multiset(ys) + gone && |gone| <= 1 && forall x | x in gone :: x.key == name
  }

  /** Where the attribute is, or the length of the list. */
  function Position(xs: seq<Xattr>, name: bytes): (i: nat)
    ensures i <= |xs| && (i < |xs| ==> xs[i].key == name)
    ensures forall j {:trigger xs[j]} :: 0 <= j < i ==> xs[j].key != name
  {
    if xs == [] then 0 else if xs[0].key == name then 0 else 1 + Position(xs[1..], name)
  }

  function Dropped(xs: seq<Xattr>, name: bytes): seq<Xattr> {
    var i := Position(xs, name);
    if i < |xs| then Removed(xs, i) else xs
  }

  lemma {:induction false} DroppedIs(xs: seq<Xattr>, name: bytes)
    requires DistinctKeys(xs)
    ensures DistinctKeys(Dropped(xs, name)) && Without(xs, name, Dropped(xs, name))
  {
    if Position(xs, name) < |xs| {
      RemovedIs(xs, Position(xs, name));
    } else {
      assert multiset(xs) == multiset(xs) + multiset{};
    }
  }

  /**
   What setting an attribute comes to when there is memory: the old value goes first, then the total is checked.  A
   copied node starts to count at zero, so its total lacks the `base` it was copied with; it comes out too large when
   more would be taken off than was counted, because the counter is unsigned.
   */
  function SetOn(xs: seq<Xattr>, base: nat, x: Xattr, limit: nat): Result<seq<Xattr>, SetError> {
    if !(1 <= |x.key| <= 255) then Err(BadName) else
    if |x.value| > 0xffff then Err(BadValue) else
    var rest := Dropped(xs, x.key);
    if BaseOf(rest, base) <= Total(rest + [x]) <= BaseOf(rest, base) + limit then Ok(rest + [x]) else Err(TooLarge)
  }

  /** Which of the refusals it is, for a node that was not copied. */
  lemma {:induction false} SetMeans(xs: seq<Xattr>, x: Xattr, limit: nat)
    ensures var r := SetOn(xs, 0, x, limit);
            && (r == Err(BadName) <==> |x.key| == 0 || |x.key| > 255)
            && (r == Err(BadValue) <==> 1 <= |x.key| <= 255 && |x.value| > 65535)
            && (r == Err(TooLarge) <==>
                  && 1 <= |x.key| <= 255 && |x.value| <= 65535
                  && 12 + Charges(Dropped(xs, x.key)) + 7 + |x.key| + |x.value| > limit)
  {
    ChargesAppend(Dropped(xs, x.key), x);
  }

  /** Removing the last attribute starts the count afresh. */
  function BaseOf(xs: seq<Xattr>, base: nat): nat { if xs == [] then 0 else base }

  /** What is not counted afterwards. */
  function BaseAfter(xs: seq<Xattr>, base: nat, x: Xattr): nat {
    if 1 <= |x.key| <= 255 && |x.value| <= 0xffff then BaseOf(Dropped(xs, x.key), base) else base
  }

  /** The same for a node that was not copied. */
  function SetOutcome(xs: seq<Xattr>, x: Xattr, limit: nat): Result<seq<Xattr>, SetError> { SetOn(xs, 0, x, limit) }

  /** The list afterwards, whether or not the value was taken. */
  function SetLeaves(xs: seq<Xattr>, base: nat, x: Xattr, limit: nat): seq<Xattr> {
    match SetOn(xs, base, x, limit)
    case Ok(ys) => ys
    case Err(TooLarge) => Dropped(xs, x.key)
    case Err(_) => xs
  }

  /** A refused value leaves the list alone unless there was one to replace and only the total stands against it. */
  lemma {:induction false} RefusalKeeps(xs: seq<Xattr>, base: nat, x: Xattr, limit: nat)
    requires DistinctKeys(xs) && SetOn(xs, base, x, limit).Err?
    ensures SetLeaves(xs, base, x, limit) == xs <==>
            !(1 <= |x.key| <= 255) || |x.value| > 0xffff || !HasKey(xs, x.key)
  {
    DroppedIs(xs, x.key);
    if HasKey(xs, x.key) {
      assert Position(xs, x.key) < |xs|;
    }
  }

  /** The value of an attribute is lost when one of 40000 bytes is to take its place. */
  lemma {:induction false} RefusalRemoves(name: bytes, value: bytes)
    requires |name| == 6 && |value| == 40000
    ensures var xs := [Xattr(name, [1])];
            SetOn(xs, 0, Xattr(name, value), Limit(true)) == Err(TooLarge) &&
            SetLeaves(xs, 0, Xattr(name, value), Limit(true)) == []
  {
    var xs := [Xattr(name, [1])];
    assert Dropped(xs, name) == [];
    ChargesAppend([], Xattr(name, value));
    assert [] + [Xattr(name, value)] == [Xattr(name, value)];
  }

  /** On a copied node an attribute can only be replaced by one that does not bring the total below that of the copy. */
  lemma {:induction false} CopyShrinks(xs: seq<Xattr>, x: Xattr, limit: nat)
    requires DistinctKeys(xs) && |xs| > 1 && HasKey(xs, x.key) && 1 <= |x.key| <= 255 && |x.value| <= 0xffff
    ensures SetOn(xs, Total(xs), x, limit).Ok? <==>
            |xs[Position(xs, x.key)].value| <= |x.value| <= |xs[Position(xs, x.key)].value| + limit
  {
    var i := Position(xs, x.key);
    RemovedCharges(xs, i);
    ChargesAppend(Removed(xs, i), x);
  }

  /** So a mark of one byte cannot take the place of a longer value that the user had given it. */
  lemma {:induction false} CopyRefuses(name: bytes, other: Xattr, limit: nat)
    requires 1 <= |name| <= 255 && other.key != name
    ensures var xs := [Xattr(name, [1, 2]), other]; SetOn(xs, Total(xs), Xattr(name, [1]), limit) == Err(TooLarge)
  {
    var xs := [Xattr(name, [1, 2]), other];
    assert HasKey(xs, name) && xs[0].key == name;
    assert Position(xs, name) == 0;
    CopyShrinks(xs, Xattr(name, [1]), limit);
  }

  // ---------- the counter ----------

  /** Arithmetic on size_t. */
  function Plus64(a: nat, b: nat): nat {
    if a + b < 0x1_0000_0000_0000_0000 then a + b else a + b - 0x1_0000_0000_0000_0000
  }

  function Minus64(a: nat, b: nat): int { if a >= b then a - b else a + 0x1_0000_0000_0000_0000 - b }

  /** The counter of a node whose first `base` bytes were not counted. */
  ghost predicate Tallied(xs: seq<Xattr>, size: nat, base: nat) {
    && DistinctKeys(xs) && base <= 0x4_0000 && Total(xs) <= base + 0xffff && (xs == [] ==> base == 0)
    && size == Minus64(Total(xs), base)
  }

  method FindIn(xs: seq<Xattr>, name: bytes) returns (i: Option<nat>)
    ensures i == if HasKey(xs, name) then Some(Position(xs, name)) else None
  {
    for k := 0 to |xs|
      invariant forall j {:trigger xs[j]} :: 0 <= j < k ==> xs[j].key != name
    {
      if xs[k].key == name { return Some(k); }
    }
    return None;
  }

  method UnsetIn(xs: seq<Xattr>, size: nat, ghost base: nat, name: bytes)
    returns (ok: bool, xs': seq<Xattr>, size': nat)
    requires Tallied(xs, size, base)
    ensures xs' == Dropped(xs, name) && Tallied(xs', size', BaseOf(xs', base)) && (ok <==> HasKey(xs, name))
  {
    DroppedIs(xs, name);
    var i := FindIn(xs, name);
    if i.None? { return false, xs, size; }
    RemovedCharges(xs, i.value);
    xs' := Removed(xs, i.value);
    size' := if xs' != [] then Minus64(size, 7 + |name| + |xs[i.value].value|) else 0;
    ok := true;
  }

  /** Counting one more attribute. */
  lemma {:induction false} TallyMore(ys: seq<Xattr>, n: nat, base: nat, x: Xattr, cost: nat, limit: nat)
    requires Tallied(ys, n, base) && !HasKey(ys, x.key) && limit <= 0xffff && |x.key| <= 255 && |x.value| <= 0xffff
    requires cost == Charge(x) + (if ys == [] then 12 else 0)
    ensures Plus64(n, cost) <= limit <==> base <= Total(ys + [x]) <= base + limit
    ensures Plus64(n, cost) <= limit ==> Tallied(ys + [x], Plus64(n, cost), base)
  {
    ChargesAppend(ys, x);
  }

  /** Adds an attribute whose name is not there. */
  method AppendIn(ys: seq<Xattr>, size: nat, ghost base: nat, x: Xattr, limit: nat, ample: bool)
    returns (error: Option<SetError>, xs': seq<Xattr>, size': nat)
    requires Tallied(ys, size, base) && !HasKey(ys, x.key) && limit <= 0xffff && |x.key| <= 255 && |x.value| <= 0xffff
    ensures Tallied(xs', size', base) && (error.Some? ==> xs' == ys) && (error.None? ==> xs' == ys + [x])
    ensures error.None? || error == Some(TooLarge) || (error == Some(NoMemory) && !ample)
    ensures if error == Some(TooLarge) then !(base <= Total(ys + [x]) <= base + limit) else
              base <= Total(ys + [x]) <= base + limit
  {
    var cost := 7 + |x.key| + |x.value| + if ys == [] then 12 else 0;
    TallyMore(ys, size, base, x, cost, limit);
    if Plus64(size, cost) > limit { return Some(TooLarge), ys, size; }
    CountBound(ys);
    assert |ys| < 0xffff;
    var granted: bool := *;
    if !ample && !granted { return Some(NoMemory), ys, size; }
    return None, ys + [x], Plus64(size, cost);
  }

  /** Sets an attribute; if memory is ample no allocation fails. */
  method SetIn(xs: seq<Xattr>, size: nat, ghost base: nat, x: Xattr, limit: nat, ample: bool)
    returns (error: Option<SetError>, xs': seq<Xattr>, size': nat, ghost base': nat)
    requires Tallied(xs, size, base) && limit <= 0xffff
    ensures Tallied(xs', size', base') && base' == BaseAfter(xs, base, x)
    ensures error != Some(NoMemory) ==>
              SetOn(xs, base, x, limit) == if error.None? then Ok(xs') else Err(error.value)
    ensures error != Some(NoMemory) ==> xs' == SetLeaves(xs, base, x, limit)
    ensures error == Some(NoMemory) ==> xs' == Dropped(xs, x.key) && !ample
  {
    if |x.key| == 0 || |x.key| > 255 { return Some(BadName), xs, size, base; }
    if |x.value| > 0xffff { return Some(BadValue), xs, size, base; }
    var _, ys, n := UnsetIn(xs, size, base, x.key);
    base' := BaseOf(ys, base);
    DroppedIs(xs, x.key);
    error, xs', size' := AppendIn(ys, n, base', x, limit, ample);
  }

  /** The attributes of one node. */
  class Attrs {
    var xattrs: seq<Xattr>
    var size: nat
    ghost var base: nat

    constructor ()
      ensures Valid() && xattrs == [] && base == 0
    {
      xattrs, size, base := [], 0, 0;
    }

    ghost predicate Valid()
      reads this
    {
      Tallied(xattrs, size, base)
    }

    method Find(name: bytes) returns (i: Option<nat>)
      ensures i == if HasKey(xattrs, name) then Some(Position(xattrs, name)) else None
    {
      i := FindIn(xattrs, name);
    }

    method Unset(name: bytes) returns (ok: bool)
      requires Valid()
      modifies this
      ensures Valid() && xattrs == Dropped(old(xattrs), name) && (ok <==> HasKey(old(xattrs), name))
      ensures base == BaseOf(xattrs, old(base))
    {
      ok, xattrs, size := UnsetIn(xattrs, size, base, name);
      base := BaseOf(xattrs, base);
    }

    /** A refused value may still have removed the one it was to replace. */
    method Set(name: bytes, value: bytes, external: bool, ample: bool) returns (error: Option<SetError>)
      requires Valid()
      modifies this
      ensures Valid() && base == BaseAfter(old(xattrs), old(base), Xattr(name, value))
      ensures error != Some(NoMemory) ==>
                SetOn(old(xattrs), old(base), Xattr(name, value), Limit(external)) ==
                if error.None? then Ok(xattrs) else Err(error.value)
      ensures error != Some(NoMemory) ==>
                xattrs == SetLeaves(old(xattrs), old(base), Xattr(name, value), Limit(external))
      ensures error == Some(NoMemory) ==> xattrs == Dropped(old(xattrs), name) && !ample
    {
      error, xattrs, size, base := SetIn(xattrs, size, base, Xattr(name, value), Limit(external), ample);
    }
  }

  function Limit(external: bool): nat { if external then 0xffff / 2 else 0xffff }

  /** The total bounds the number of attributes. */
  lemma {:induction false} CountBound(xs: seq<Xattr>)
    ensures 7 * |xs| <= Charges(xs)
  {
    if xs != [] { CountBound(xs[..|xs| - 1]); }
  }

  // ---------- order ----------

  /** The order the attributes are sorted into before they are written. */
  predicate KeyBefore(a: Xattr, b: Xattr) { Less(a.key, b.key) }

  /** However the attributes of a node were set, sorting them by name gives one list. */
  lemma {:induction false} OrderCanonical(a: seq<Xattr>, b: seq<Xattr>)
    requires Increasing(a, KeyBefore) && Increasing(b, KeyBefore) && multiset(a) == multiset(b)
    ensures a == b
  {
    if a != [] && b != [] {
      KeyFirst(a, b);
      KeyFirst(b, a);
      if a[0] != b[0] {
        LessTransitive(a[0].key, b[0].key, a[0].key);
        LessIrreflexive(a[0].key);
      }
      assert a == [a[0]] + a[1..] && b == [b[0]] + b[1..];
      assert multiset(a[1..]) == multiset(a) - multiset{a[0]} && multiset(b[1..]) == multiset(b) - multiset{b[0]};
      OrderCanonical(a[1..], b[1..]);
    } else {
      assert |multiset(a)| == |a| && |multiset(b)| == |b|;
    }
  }

  lemma {:induction false} KeyFirst(a: seq<Xattr>, b: seq<Xattr>)
    requires Increasing(a, KeyBefore) && a != [] && b != [] && multiset(a) == multiset(b)
    ensures a[0] == b[0] || Less(a[0].key, b[0].key)
  {
    assert b[0] in multiset(b);
    var k :| 0 <= k < |a| && a[k] == b[0];
    if k > 0 { assert KeyBefore(a[0], a[k]); }
  }
}
