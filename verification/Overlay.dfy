/**
 The attributes of one node on their way into the image and back: names of the user are escaped, the writer adds marks
 for overlayfs, the loader takes the marks for the node itself and the escapes off again.
 */
module Overlay {
  import opened Common
  import opened Bytes
  import opened Xattrs
  import opened NodeAttrs
  import opened Escaping

  function Opaque(): bytes { OverlayPrefix() + Ascii("opaque") }
  function EscapedOpaque(): bytes { EscapePrefix() + Ascii("opaque") }
  function UserOpaque(): bytes { UserPrefix() + Ascii("opaque") }

  // ---------- sets of attributes ----------

  ghost function Items(xs: seq<Xattr>): set<Xattr> { set x | x in xs }

  ghost predicate KeyIn(s: set<Xattr>, key: bytes) { exists x :: x in s && x.key == key }

  ghost predicate OneEach(s: set<Xattr>) {
    forall x, y {:trigger x in s, y in s} :: x in s && y in s && x.key == y.key ==> x == y
  }

  ghost function Put(s: set<Xattr>, x: Xattr): set<Xattr> { {x} + set y | y in s && y.key != x.key }

  ghost function PutAll(s: set<Xattr>, ms: seq<Xattr>): set<Xattr> {
    if ms == [] then s else Put(PutAll(s, ms[..|ms| - 1]), ms[|ms| - 1])
  }

  lemma {:induction false} PutAllFrom(s: set<Xattr>, ms: seq<Xattr>, x: Xattr)
    requires x in PutAll(s, ms)
    ensures x in s || x in ms
  {
    if ms != [] && x != ms[|ms| - 1] { PutAllFrom(s, ms[..|ms| - 1], x); }
  }

  lemma {:induction false} ItemsOneEach(xs: seq<Xattr>)
    requires DistinctKeys(xs)
    ensures OneEach(Items(xs))
  {
  }

  lemma {:induction false} DroppedItems(xs: seq<Xattr>, name: bytes)
    requires DistinctKeys(xs)
    ensures Items(Dropped(xs, name)) == set y | y in Items(xs) && y.key != name
  {
    var i := Position(xs, name);
    if i < |xs| {
      RemovedDistinct(xs, i);
      RemovedElements(xs, i);
      var r := Removed(xs, i);
      forall y
        ensures y in r <==> y in xs && y.key != name
      {
        assert y in r <==> y in multiset(r);
        assert y in xs <==> y in multiset(xs);
        if y in r { assert y.key != name; }
      }
    }
  }

  /** An attribute that is taken replaces the one of its name. */
  lemma {:induction false} SetItems(xs: seq<Xattr>, base: nat, x: Xattr, limit: nat)
    requires DistinctKeys(xs) && SetOn(xs, base, x, limit).Ok?
    ensures var ys := SetOn(xs, base, x, limit).value; DistinctKeys(ys) && Items(ys) == Put(Items(xs), x)
  {
    DroppedItems(xs, x.key);
    DroppedIs(xs, x.key);
  }

  // ---------- writing ----------

  /** What a node holds for the writer beside its attributes. */
  datatype Extra = Extra(payload: Option<bytes>, digest: Option<bytes>)

  /** What the setters leave of payload and digest. */
  ghost predicate UserExtra(x: Extra) {
    && (x.payload.Some? ==> |x.payload.value| < 4096 && 0 !in x.payload.value)
    && (x.digest.Some? ==> |x.digest.value| == 32)
  }

  function MetacopyValue(digest: Option<bytes>): bytes {
    if digest.None? then [] else [0, 36, 0, 1] + digest.value
  }

  /** The marks of a file whose content is elsewhere, and of a whiteout. */
  function OwnMarks(external: bool, whiteout: bool, x: Extra): seq<Xattr> {
    (if external then [Xattr(Metacopy(), MetacopyValue(x.digest))] else []) +
    (if external && x.payload.Some? && x.payload.value != [] then [Xattr(Redirect(), [47] + x.payload.value)] else []) +
    (if whiteout then [Xattr(EscapedWhiteout(), []), Xattr(UserWhiteout(), [])] else [])
  }

  /** The marks of a directory with a whiteout in it. */
  function DirMarks(version: nat): seq<Xattr> {
    [Xattr(EscapedWhiteouts(), []), Xattr(UserWhiteouts(), [])] +
    (if version >= 1 then [Xattr(EscapedOpaque(), [120]), Xattr(UserOpaque(), [120])] else [])
  }

  function RootMark(): Xattr { Xattr(Opaque(), [121]) }

  ghost function EscapedItems(s: set<Xattr>): set<Xattr> { set x | x in s :: Xattr(Escape(x.key), x.value) }

  /** What is written for a node that has `s`. */
  ghost function WrittenItems(s: set<Xattr>, own: seq<Xattr>, marked: bool, version: nat, root: bool): set<Xattr> {
    var a := PutAll(EscapedItems(s), own);
    var b := if marked then PutAll(a, DirMarks(version)) else a;
    if root then Put(b, RootMark()) else b
  }

  /** Escapes the names of a copied node; the counter stays where it is. */
  method EscapeIn(xs: seq<Xattr>, ghost size: nat, ghost base: nat) returns (ys: seq<Xattr>, ghost base': nat)
    requires Tallied(xs, size, base) && base == Total(xs) <= 0xffff
    ensures Tallied(ys, size, base') && base' == Total(ys) && DistinctKeys(ys) && |ys| == |xs|
    ensures forall i {:trigger ys[i]} :: 0 <= i < |xs| ==> ys[i] == Xattr(Escape(xs[i].key), xs[i].value)
    ensures Items(ys) == EscapedItems(Items(xs))
  {
    var a := new Xattr[|xs|](i requires 0 <= i < |xs| => xs[i]);
    assert a[..] == xs;
    EscapeAll(a);
    ys := a[..];
    base' := Total(ys);
    EscapedCharges(xs, ys);
    CountBound(xs);
    forall y
      ensures y in Items(ys) <==> y in EscapedItems(Items(xs))
    {
      if y in ys {
        var i :| 0 <= i < |ys| && ys[i] == y;
        assert xs[i] in Items(xs);
      }
      if y in EscapedItems(Items(xs)) {
        var x :| x in Items(xs) && y == Xattr(Escape(x.key), x.value);
        var i :| 0 <= i < |xs| && xs[i] == x;
        assert ys[i] == y;
      }
    }
  }

  lemma {:induction false} EscapedCharges(xs: seq<Xattr>, ys: seq<Xattr>)
    requires |ys| == |xs|
    requires forall i {:trigger ys[i]} :: 0 <= i < |xs| ==> ys[i] == Xattr(Escape(xs[i].key), xs[i].value)
    ensures Charges(xs) <= Charges(ys) <= Charges(xs) + 8 * |xs|
  {
    if xs != [] {
      var n := |xs| - 1;
      EscapedCharges(xs[..n], ys[..n]);
      EscapeShape(xs[n].key);
    }
  }

  // ---------- room for marks ----------

  ghost predicate MarksFit(ms: seq<Xattr>) {
    DistinctKeys(ms) && forall m {:trigger m in ms} :: m in ms ==> 1 <= |m.key| <= 255 && |m.value| <= 0xffff
  }

  /** No mark is there with another value. */
  ghost predicate Agree(xs: seq<Xattr>, ms: seq<Xattr>) {
    forall m {:trigger m in ms} :: m in ms && HasKey(xs, m.key) ==> m in xs
  }

  /** Something is there that no mark replaces. */
  ghost predicate Anchored(xs: seq<Xattr>, ms: seq<Xattr>) { exists y :: y in xs && !HasKey(ms, y.key) }

  /** There is room for marks on a list that is counted down to `base`. */
  ghost predicate Roomy(xs: seq<Xattr>, base: nat, ms: seq<Xattr>) {
    && MarksFit(ms) && Agree(xs, ms) && base <= Total(xs) && 12 + Charges(xs) + Charges(ms) <= base + Limit(true)
    && (base == 0 || Anchored(xs, ms))
  }

  lemma {:induction false} KeysOfRest(m: Xattr, rest: seq<Xattr>, x: Xattr)
    requires DistinctKeys([m] + rest)
    ensures DistinctKeys(rest) && (x in rest ==> x.key != m.key)
    ensures !HasKey([m] + rest, x.key) ==> !HasKey(rest, x.key) && x.key != m.key
  {
    var ms := [m] + rest;
    assert forall i {:trigger rest[i]} :: 0 <= i < |rest| ==> rest[i] == ms[i + 1];
    assert ms[0] == m;
  }

  lemma {:induction false} DroppedCharges(xs: seq<Xattr>, m: Xattr)
    requires DistinctKeys(xs) && (HasKey(xs, m.key) ==> m in xs)
    ensures Charges(Dropped(xs, m.key) + [m]) == Charges(xs) + if m in xs then 0 else Charge(m)
  {
    ChargesAppend(Dropped(xs, m.key), m);
    if m in xs {
      var i := Position(xs, m.key);
      var j :| 0 <= j < |xs| && xs[j] == m;
      assert xs[i].key == xs[j].key;
      RemovedCharges(xs, i);
    } else {
      assert Position(xs, m.key) == |xs|;
    }
  }

  lemma {:induction false} FitRest(m: Xattr, rest: seq<Xattr>)
    requires MarksFit([m] + rest)
    ensures MarksFit(rest) && 1 <= |m.key| <= 255 && |m.value| <= 0xffff
  {
    assert m in [m] + rest;
    KeysOfRest(m, rest, m);
    assert forall x | x in rest :: x in [m] + rest;
  }

  lemma {:induction false} AgreeRest(xs: seq<Xattr>, m: Xattr, rest: seq<Xattr>)
    requires DistinctKeys(xs) && MarksFit([m] + rest) && Agree(xs, [m] + rest)
    ensures Agree(Dropped(xs, m.key) + [m], rest) && (HasKey(xs, m.key) ==> m in xs)
  {
    var ys := Dropped(xs, m.key) + [m];
    assert m in [m] + rest;
    forall m' | m' in rest
      ensures HasKey(ys, m'.key) ==> m' in ys
    {
      KeysOfRest(m, rest, m');
      assert m' in [m] + rest;
      KeptKey(xs, m, m');
    }
  }

  lemma {:induction false} AnchorRest(xs: seq<Xattr>, m: Xattr, rest: seq<Xattr>)
    requires DistinctKeys(xs) && MarksFit([m] + rest) && Anchored(xs, [m] + rest)
    ensures Anchored(Dropped(xs, m.key) + [m], rest) && Dropped(xs, m.key) != []
  {
    var y :| y in xs && !HasKey([m] + rest, y.key);
    KeysOfRest(m, rest, y);
    DroppedItems(xs, m.key);
    assert y in Items(xs) && y in Items(Dropped(xs, m.key));
    assert y in Dropped(xs, m.key) + [m];
  }

  lemma {:induction false} OneFits(xs: seq<Xattr>, base: nat, m: Xattr, rest: seq<Xattr>)
    requires DistinctKeys(xs) && Roomy(xs, base, [m] + rest) && (xs == [] ==> base == 0)
    ensures SetOn(xs, base, m, Limit(true)) == Ok(Dropped(xs, m.key) + [m]) && BaseAfter(xs, base, m) == base
  {
    FitRest(m, rest);
    AgreeRest(xs, m, rest);
    if base != 0 { AnchorRest(xs, m, rest); }
    DroppedCharges(xs, m);
    ChargesJoin([m], rest);
    ChargesAppend([], m);
    assert [] + [m] == [m];
  }

  lemma {:induction false} RestRoomy(xs: seq<Xattr>, base: nat, m: Xattr, rest: seq<Xattr>)
    requires DistinctKeys(xs) && Roomy(xs, base, [m] + rest) && (xs == [] ==> base == 0)
    ensures Roomy(Dropped(xs, m.key) + [m], base, rest)
  {
    FitRest(m, rest);
    AgreeRest(xs, m, rest);
    if base != 0 { AnchorRest(xs, m, rest); }
    DroppedCharges(xs, m);
    ChargesJoin([m], rest);
    ChargesAppend([], m);
    assert [] + [m] == [m];
  }

  /** Such a mark is taken, and there is room for the others. */
  lemma {:induction false} RoomForOne(xs: seq<Xattr>, base: nat, m: Xattr, rest: seq<Xattr>)
    requires DistinctKeys(xs) && Roomy(xs, base, [m] + rest) && (xs == [] ==> base == 0)
    ensures SetOn(xs, base, m, Limit(true)).Ok? && BaseAfter(xs, base, m) == base
    ensures Roomy(SetOn(xs, base, m, Limit(true)).value, base, rest)
  {
    OneFits(xs, base, m, rest);
    RestRoomy(xs, base, m, rest);
  }

  lemma {:induction false} KeptKey(xs: seq<Xattr>, m: Xattr, m': Xattr)
    requires DistinctKeys(xs) && m'.key != m.key && (HasKey(xs, m'.key) ==> m' in xs)
    ensures HasKey(Dropped(xs, m.key) + [m], m'.key) ==> m' in Dropped(xs, m.key) + [m]
  {
    DroppedItems(xs, m.key);
    var ys := Dropped(xs, m.key) + [m];
    if HasKey(ys, m'.key) {
      var i :| 0 <= i < |ys| && ys[i].key == m'.key;
      assert ys[i] in Items(Dropped(xs, m.key));
      var j :| 0 <= j < |xs| && xs[j] == ys[i];
      assert m' in Items(xs);
      assert m' in Items(Dropped(xs, m.key));
    }
  }

  /** Sets one attribute, with `rest` still to come. */
  method SetOne(xs: seq<Xattr>, size: nat, ghost base: nat, m: Xattr, ghost rest: seq<Xattr>, ample: bool)
    returns (error: Option<SetError>, xs': seq<Xattr>, size': nat, ghost base': nat)
    requires Tallied(xs, size, base)
    ensures Tallied(xs', size', base')
    ensures error.None? ==> Items(xs') == Put(Items(xs), m)
    ensures Roomy(xs, base, [m] + rest) ==>
              (error.None? && base' == base && Roomy(xs', base', rest)) || error == Some(NoMemory)
    ensures ample ==> error != Some(NoMemory)
  {
    if Roomy(xs, base, [m] + rest) { RoomForOne(xs, base, m, rest); }
    error, xs', size', base' := SetIn(xs, size, base, m, Limit(true), ample);
    if error.None? { SetItems(xs, base, m, Limit(true)); }
  }

  /** Sets attributes one after the other, as given from outside. */
  method SetAll(xs: seq<Xattr>, size: nat, ghost base: nat, ms: seq<Xattr>, ample: bool)
    returns (error: Option<SetError>, xs': seq<Xattr>, size': nat, ghost base': nat)
    requires Tallied(xs, size, base)
    ensures Tallied(xs', size', base')
    ensures error.None? ==> Items(xs') == PutAll(Items(xs), ms)
    ensures Roomy(xs, base, ms) ==> (error.None? && base' == base) || error == Some(NoMemory)
    ensures ample ==> error != Some(NoMemory)
  {
    xs', size', base', error := xs, size, base, None;
    ghost var roomy := Roomy(xs, base, ms);
    assert ms[0..] == ms;
    for i := 0 to |ms|
      invariant Tallied(xs', size', base') && Items(xs') == PutAll(Items(xs), ms[..i])
      invariant roomy ==> Roomy(xs', base', ms[i..]) && base' == base
    {
      assert ms[i..] == [ms[i]] + ms[i + 1..];
      error, xs', size', base' := SetOne(xs', size', base', ms[i], ms[i + 1..], ample);
      if error.Some? { return; }
      assert ms[..i + 1][..i] == ms[..i];
    }
    assert ms[..|ms|] == ms;
    error := None;
  }

  /** Lists of different attributes, by what they are made of. */
  lemma {:induction false} ChargesWithin(xs: seq<Xattr>, ys: seq<Xattr>, zs: seq<Xattr>)
    requires DistinctKeys(xs) && forall x {:trigger x in xs} :: x in xs ==> x in ys || x in zs
    ensures Charges(xs) <= Charges(ys) + Charges(zs)
    decreases |xs|
  {
    if xs != [] {
      var n := |xs| - 1;
      var x := xs[n];
      assert x in xs;
      if x in ys {
        var i :| 0 <= i < |ys| && ys[i] == x;
        RemovedCharges(ys, i);
        OthersStay(xs, ys, i);
        ChargesWithin(xs[..n], Removed(ys, i), zs);
      } else {
        var i :| 0 <= i < |zs| && zs[i] == x;
        RemovedCharges(zs, i);
        OthersStay(xs, zs, i);
        ChargesWithin(xs[..n], ys, Removed(zs, i));
      }
    }
  }

  lemma {:induction false} OthersStay(xs: seq<Xattr>, ys: seq<Xattr>, i: nat)
    requires DistinctKeys(xs) && xs != [] && i < |ys| && ys[i] == xs[|xs| - 1]
    ensures forall x {:trigger x in xs[..|xs| - 1]} :: x in xs[..|xs| - 1] ==>
              x in xs && (x in ys ==> x in Removed(ys, i))
  {
    var n := |xs| - 1;
    RemovedElements(ys, i);
    forall x | x in xs[..n]
      ensures x in xs && (x in ys ==> x in Removed(ys, i))
    {
      var j :| 0 <= j < n && xs[j] == x;
      assert x != xs[n];
      assert x in ys <==> x in multiset(ys);
      assert x in Removed(ys, i) <==> x in multiset(Removed(ys, i));
    }
  }

  // ---------- reading ----------

  /** A node while its attributes are read: the redirect is kept as it is stored. */
  datatype Absorbed = Absorbed(regular: bool, whiteout: bool, xattrs: seq<Xattr>, redirect: Option<bytes>,
                               digest: Option<bytes>)

  /** One attribute of the image. */
  function Absorb(a: Absorbed, x: Xattr): Result<Absorbed, SetError> {
    match ReadName(x.key, a.regular)
    case Use => Ok(
      if !a.regular then a else
      if x.key == Redirect() then a.(redirect := Some(x.value)) else
      if |x.value| == 36 then a.(digest := Some(x.value[4..])) else a)
    case MakeWhiteout => Ok(a.(regular := false, whiteout := true))
    case Drop => Ok(a)
    case Keep(name) =>
      var r := SetOutcome(a.xattrs, Xattr(name, x.value), Limit(false));
      if r.Err? then Err(r.error) else Ok(a.(xattrs := r.value))
  }

  function AbsorbAll(a: Absorbed, es: seq<Xattr>): Result<Absorbed, SetError> {
    if es == [] then Ok(a) else
    var b := AbsorbAll(a, es[..|es| - 1]);
    if b.Err? then b else Absorb(b.value, es[|es| - 1])
  }

  lemma {:induction false} AbsorbPrefix(a: Absorbed, es: seq<Xattr>, i: nat)
    requires i <= |es| && AbsorbAll(a, es[..i]).Err?
    ensures AbsorbAll(a, es) == AbsorbAll(a, es[..i])
  {
    if i < |es| {
      var n := |es| - 1;
      assert es[..n][..i] == es[..i];
      AbsorbPrefix(a, es[..n], i);
    } else {
      assert es[..i] == es;
    }
  }

  /** Reads the attributes of a new node. */
  method AbsorbXattrs(regular: bool, es: seq<Xattr>, ample: bool) returns (r: Result<Absorbed, SetError>)
    ensures r != Err(NoMemory) ==> r == AbsorbAll(Absorbed(regular, false, [], None, None), es)
    ensures ample ==> r != Err(NoMemory)
  {
    var attrs := new Attrs();
    var regular', whiteout, redirect, digest := regular, false, None, None;
    ghost var start := Absorbed(regular, false, [], None, None);
    for i := 0 to |es|
      invariant attrs.Valid() && attrs.base == 0 && fresh(attrs)
      invariant AbsorbAll(start, es[..i]) == Ok(Absorbed(regular', whiteout, attrs.xattrs, redirect, digest))
    {
      var x := es[i];
      assert es[..i + 1][..i] == es[..i];
      match ReadName(x.key, regular') {
        case Use =>
          if regular' {
            if x.key == Redirect() {
              redirect := Some(x.value);
            } else if |x.value| == 36 {
              digest := Some(x.value[4..]);
            }
          }
        case MakeWhiteout =>
          regular', whiteout := false, true;
        case Drop =>
        case Keep(name) =>
          var e := attrs.Set(name, x.value, false, ample);
          if e.Some? {
            if e.value != NoMemory { AbsorbPrefix(start, es, i + 1); }
            return Err(e.value);
          }
      }
    }
    assert es[..|es|] == es;
    return Ok(Absorbed(regular', whiteout, attrs.xattrs, redirect, digest));
  }

  // ---------- what reading comes to ----------

  /** The attributes that are kept, under the names they get. */
  function KeptList(es: seq<Xattr>, regular: bool): seq<Xattr> {
    if es == [] then [] else
    var x, front := es[|es| - 1], KeptList(es[..|es| - 1], regular);
    var fate := ReadName(x.key, regular);
    if fate.Keep? then front + [Xattr(fate.name, x.value)] else front
  }

  /** The setter takes them. */
  predicate Taken(xs: seq<Xattr>) {
    && Total(xs) <= 0xffff
    && forall i {:trigger xs[i]} :: 0 <= i < |xs| ==> 1 <= |xs[i].key| <= 255 && |xs[i].value| <= 0xffff
  }

  lemma {:induction false} FateSame(key: bytes)
    requires key != EscapedWhiteout()
    ensures ReadName(key, true) == ReadName(key, false)
  {
  }

  lemma {:induction false} KeptName(key: bytes, regular: bool)
    requires ReadName(key, regular).Keep?
    ensures var name := ReadName(key, regular).name;
            if OverlayPrefix() <= key then EscapePrefix() <= key && OverlayPrefix() <= name && Escape(name) == key
            else name == key
  {
    if OverlayPrefix() <= key {
      var rest := key[|EscapePrefix()|..];
      assert key == EscapePrefix() + rest;
      Assoc(OverlayPrefix(), Word(), rest);
      Unescaped(rest, key);
      assert (OverlayPrefix() + rest)[|OverlayPrefix()|..] == rest;
    }
  }

  lemma {:induction false} KeptDiffer(a: bytes, b: bytes, regular: bool)
    requires ReadName(a, regular).Keep? && ReadName(b, regular).Keep?
    requires ReadName(a, regular).name == ReadName(b, regular).name
    ensures a == b
  {
    KeptName(a, regular);
    KeptName(b, regular);
  }

  lemma {:induction false} KeptFrom(es: seq<Xattr>, regular: bool, y: Xattr)
    ensures y in KeptList(es, regular) <==>
            exists x :: x in es && ReadName(x.key, regular) == Keep(y.key) && x.value == y.value
  {
    if es != [] {
      var n := |es| - 1;
      KeptFrom(es[..n], regular, y);
      assert es == es[..n] + [es[n]];
      if x :| x in es && ReadName(x.key, regular) == Keep(y.key) && x.value == y.value {
        assert x in es[..n] || x == es[n];
      }
    }
  }

  lemma {:induction false} KeptDistinct(es: seq<Xattr>, regular: bool)
    requires DistinctKeys(es)
    ensures DistinctKeys(KeptList(es, regular))
  {
    if es != [] {
      var n := |es| - 1;
      KeptDistinct(es[..n], regular);
      if ReadName(es[n].key, regular).Keep? { KeptNew(es, regular); }
    }
  }

  /** The name of the last one is new. */
  lemma {:induction false} KeptNew(es: seq<Xattr>, regular: bool)
    requires DistinctKeys(es) && es != [] && ReadName(es[|es| - 1].key, regular).Keep?
    ensures !HasKey(KeptList(es[..|es| - 1], regular), ReadName(es[|es| - 1].key, regular).name)
  {
    var n := |es| - 1;
    var front, name := KeptList(es[..n], regular), ReadName(es[n].key, regular).name;
    if HasKey(front, name) {
      var i :| 0 <= i < |front| && front[i].key == name;
      assert front[i] in front;
      KeptFrom(es[..n], regular, front[i]);
      var x :| x in es[..n] && ReadName(x.key, regular) == Keep(name) && x.value == front[i].value;
      KeptDiffer(x.key, es[n].key, regular);
    }
  }

  ghost predicate WhiteoutMarked(es: seq<Xattr>) { HasKey(es, EscapedWhiteout()) }

  /** Redirect and digest, of a node that has not turned into a whiteout. */
  ghost function RedirectOf(es: seq<Xattr>, regular: bool): Option<bytes> {
    if es == [] then None else
    var n := |es| - 1;
    if regular && !WhiteoutMarked(es[..n]) && es[n].key == Redirect() then Some(es[n].value) else
    RedirectOf(es[..n], regular)
  }

  ghost function DigestOf(es: seq<Xattr>, regular: bool): Option<bytes> {
    if es == [] then None else
    var n := |es| - 1;
    if regular && !WhiteoutMarked(es[..n]) && es[n].key == Metacopy() && |es[n].value| == 36
    then Some(es[n].value[4..]) else
    DigestOf(es[..n], regular)
  }

  ghost function After(es: seq<Xattr>, regular: bool): Absorbed {
    Absorbed(regular && !WhiteoutMarked(es), regular && WhiteoutMarked(es), KeptList(es, regular),
             RedirectOf(es, regular), DigestOf(es, regular))
  }

  lemma {:induction false} MarkedMore(es: seq<Xattr>)
    requires es != []
    ensures WhiteoutMarked(es) <==> WhiteoutMarked(es[..|es| - 1]) || es[|es| - 1].key == EscapedWhiteout()
  {
    var n := |es| - 1;
    if WhiteoutMarked(es[..n]) {
      var i :| 0 <= i < n && es[..n][i].key == EscapedWhiteout();
      assert es[i].key == EscapedWhiteout();
    }
    if i :| 0 <= i < |es| && es[i].key == EscapedWhiteout() {
      if i < n { assert es[..n][i].key == EscapedWhiteout(); }
    }
  }

  lemma {:induction false} MarkedOnce(es: seq<Xattr>)
    requires DistinctKeys(es) && es != [] && es[|es| - 1].key == EscapedWhiteout()
    ensures !WhiteoutMarked(es[..|es| - 1])
  {
  }

  /** The fate of the last attribute does not depend on what the others made of the node. */
  lemma {:induction false} FateOfLast(es: seq<Xattr>, regular: bool)
    requires DistinctKeys(es) && es != []
    ensures ReadName(es[|es| - 1].key, regular && !WhiteoutMarked(es[..|es| - 1])) ==
            ReadName(es[|es| - 1].key, regular)
  {
    if es[|es| - 1].key == EscapedWhiteout() { MarkedOnce(es); } else { FateSame(es[|es| - 1].key); }
  }

  lemma {:induction false} TakenMore(xs: seq<Xattr>, x: Xattr)
    ensures Taken(xs + [x]) <==>
            Taken(xs) && 1 <= |x.key| <= 255 && |x.value| <= 0xffff && Total(xs + [x]) <= 0xffff
  {
    ChargesAppend(xs, x);
    var ys := xs + [x];
    if Taken(ys) {
      forall i | 0 <= i < |xs|
        ensures 1 <= |xs[i].key| <= 255 && |xs[i].value| <= 0xffff
      {
        assert ys[i] == xs[i];
      }
      assert ys[|xs|] == x;
    }
  }

  lemma {:induction false} SetNewName(xs: seq<Xattr>, x: Xattr)
    requires !HasKey(xs, x.key) && Taken(xs)
    ensures var r := SetOutcome(xs, x, Limit(false)); if Taken(xs + [x]) then r == Ok(xs + [x]) else r.Err?
  {
    TakenMore(xs, x);
    assert Position(xs, x.key) == |xs|;
  }

  lemma {:induction false} MarkNames()
    ensures |OverlayPrefix()| == 16 && |EscapePrefix()| == 24 && |UserPrefix()| == 13
    ensures Redirect() != Metacopy() && Redirect() != EscapedWhiteout() && Metacopy() != EscapedWhiteout()
  {
    assert Redirect()[16] == 'r' as int && Metacopy()[16] == 'm' as int;
    assert |Redirect()| == 24 && |Metacopy()| == 24 && |EscapedWhiteout()| == 32;
  }

  lemma {:induction false} AbsorbLast(es: seq<Xattr>, regular: bool)
    requires DistinctKeys(es) && es != [] && Taken(KeptList(es[..|es| - 1], regular))
    ensures var r := Absorb(After(es[..|es| - 1], regular), es[|es| - 1]);
            if Taken(KeptList(es, regular)) then r == Ok(After(es, regular)) else r.Err?
  {
    FateOfLast(es, regular);
    MarkedMore(es);
    MarkNames();
    var n := |es| - 1;
    var fate := ReadName(es[n].key, regular);
    if fate.Keep? {
      KeptNew(es, regular);
      SetNewName(KeptList(es[..n], regular), Xattr(fate.name, es[n].value));
    }
  }

  /** Attributes with different names are taken together or not at all, in any order. */
  lemma {:induction false} AbsorbMeans(es: seq<Xattr>, regular: bool)
    requires DistinctKeys(es)
    ensures var r := AbsorbAll(Absorbed(regular, false, [], None, None), es);
            if Taken(KeptList(es, regular)) then r == Ok(After(es, regular)) else r.Err?
  {
    if es != [] {
      var n := |es| - 1;
      AbsorbMeans(es[..n], regular);
      if Taken(KeptList(es[..n], regular)) {
        AbsorbLast(es, regular);
      } else {
        KeptLess(es, regular);
      }
    }
  }

  lemma {:induction false} KeptLess(es: seq<Xattr>, regular: bool)
    requires es != [] && !Taken(KeptList(es[..|es| - 1], regular))
    ensures !Taken(KeptList(es, regular))
  {
    var x := es[|es| - 1];
    var fate := ReadName(x.key, regular);
    if fate.Keep? { TakenMore(KeptList(es[..|es| - 1], regular), Xattr(fate.name, x.value)); }
  }
}
