/** The marks of the writer are refused only where a user has given an attribute the name of one. */
module MarkRoom {
  import opened Common
  import opened Bytes
  import opened Xattrs
  import opened NodeAttrs
  import opened Escaping
  import opened Overlay
  import opened AttrReturn

  // ---------- sizes ----------

  ghost predicate Small(ms: seq<Xattr>, cap: nat) {
    forall i {:trigger ms[i]} :: 0 <= i < |ms| ==> 1 <= |ms[i].key| <= 33 && |ms[i].value| <= cap
  }

  lemma {:induction false} MarksSmall(external: bool, whiteout: bool, x: Extra, version: nat)
    requires UserExtra(x)
    ensures Small(OwnMarks(external, whiteout, x), 4096) && Small(DirMarks(version), 1) && Small([RootMark()], 1)
    ensures |OwnMarks(external, whiteout, x)| <= 4 && |DirMarks(version)| <= 4
  {
    MarkNames();
    assert |EscapedWhiteouts()| == 33 && |UserWhiteout()| == 21 && |UserWhiteouts()| == 22;
    assert |EscapedOpaque()| == 30 && |UserOpaque()| == 19 && |Opaque()| == 22 && |EscapedWhiteout()| == 32;
    assert |Redirect()| == 24 && |Metacopy()| == 24;
  }

  lemma {:induction false} SmallCharges(ms: seq<Xattr>, cap: nat)
    requires Small(ms, cap)
    ensures Charges(ms) <= |ms| * (40 + cap)
  {
    if ms != [] {
      var n := |ms| - 1;
      SmallCharges(ms[..n], cap);
      assert Charge(ms[n]) <= 40 + cap;
      assert (n + 1) * (40 + cap) == n * (40 + cap) + (40 + cap);
    }
  }

  lemma {:induction false} TotalBounds(xs: seq<Xattr>, k: nat)
    requires k < |xs|
    ensures |xs[k].value| <= Total(xs)
  {
    if k < |xs| - 1 { TotalBounds(xs[..|xs| - 1], k); }
  }

  lemma {:induction false} SmallFit(ms: seq<Xattr>, cap: nat)
    requires Small(ms, cap) && cap <= 4096 && DistinctKeys(ms)
    ensures MarksFit(ms)
  {
    forall m | m in ms
      ensures 1 <= |m.key| <= 255 && |m.value| <= 0xffff
    {
      var i :| 0 <= i < |ms| && ms[i] == m;
    }
  }

  // ---------- names ----------

  /** Names of marks that an attribute of a user can have when it has been escaped. */
  predicate MarkName(key: bytes) {
    || key == EscapedWhiteout() || key == UserWhiteout() || key == EscapedWhiteouts() || key == UserWhiteouts()
    || key == EscapedOpaque() || key == UserOpaque()
  }

  ghost predicate Clashes(xs: seq<Xattr>) { exists x :: x in xs && MarkName(Escape(x.key)) }

  function EscapedList(xs: seq<Xattr>): (ys: seq<Xattr>)
    ensures |ys| == |xs|
  {
    seq(|xs|, i requires 0 <= i < |xs| => Xattr(Escape(xs[i].key), xs[i].value))
  }

  ghost predicate MarkKey(key: bytes) {
    key == Redirect() || key == Metacopy() || key == Opaque() || MarkName(key)
  }

  lemma {:induction false} OwnKeys(external: bool, whiteout: bool, x: Extra, key: bytes)
    requires HasKey(OwnMarks(external, whiteout, x), key)
    ensures MarkKey(key)
  {
  }

  lemma {:induction false} DirKeys(version: nat, key: bytes)
    requires HasKey(DirMarks(version), key) || HasKey([RootMark()], key)
    ensures MarkKey(key)
  {
  }

  lemma {:induction false} NotOpaque(key: bytes)
    ensures Escape(key) != Opaque()
  {
    assert |Opaque()| == 22 && OverlayPrefix() <= Opaque();
    EscapeShape(key);
  }

  /** No attribute of such a list is in the way of a mark. */
  lemma {:induction false} OutOfTheWay(xs: seq<Xattr>, key: bytes)
    requires !Clashes(xs) && HasKey(EscapedList(xs), key)
    ensures !MarkKey(key)
  {
    var i :| 0 <= i < |xs| && EscapedList(xs)[i].key == key;
    assert xs[i] in xs;
    NotEscape(xs[i].key);
    NotOpaque(xs[i].key);
  }

  // ---------- room ----------

  ghost predicate MarkKeys(ms: seq<Xattr>) { forall key: bytes :: HasKey(ms, key) ==> MarkKey(key) }

  lemma {:induction false} NotThere(xs: seq<Xattr>, ms: seq<Xattr>, m: Xattr)
    requires !Clashes(xs) && MarkKeys(ms) && m in ms
    ensures !HasKey(EscapedList(xs), m.key)
  {
    var i :| 0 <= i < |ms| && ms[i] == m;
    assert HasKey(ms, m.key);
    if HasKey(EscapedList(xs), m.key) { OutOfTheWay(xs, m.key); }
  }

  /** No mark is among the attributes of the user. */
  lemma {:induction false} FreeAgrees(xs: seq<Xattr>, ms: seq<Xattr>)
    requires !Clashes(xs) && MarkKeys(ms)
    ensures Agree(EscapedList(xs), ms) && (xs != [] ==> Anchored(EscapedList(xs), ms))
  {
    var ys := EscapedList(xs);
    forall m | m in ms
      ensures !HasKey(ys, m.key)
    {
      NotThere(xs, ms, m);
    }
    if xs != [] {
      assert ys[0] in ys && HasKey(ys, ys[0].key);
      OutOfTheWay(xs, ys[0].key);
    }
  }

  lemma {:induction false} OwnMarksKnown(external: bool, whiteout: bool, x: Extra)
    requires UserExtra(x)
    ensures var ms := OwnMarks(external, whiteout, x); MarksFit(ms) && MarkKeys(ms) && Charges(ms) <= 16544
  {
    var ms := OwnMarks(external, whiteout, x);
    MarksSmall(external, whiteout, x, 0);
    MarksDistinct(external, whiteout, x, 0, Redirect());
    SmallFit(ms, 4096);
    SmallCharges(ms, 4096);
    forall key: bytes | HasKey(ms, key)
      ensures MarkKey(key)
    {
      OwnKeys(external, whiteout, x, key);
    }
  }

  lemma {:induction false} RoomForFew(xs: seq<Xattr>, ms: seq<Xattr>)
    requires !Clashes(xs) && MarksFit(ms) && MarkKeys(ms) && Charges(ms) <= 16544
    ensures Roomy(EscapedList(xs), Total(EscapedList(xs)), ms)
  {
    FreeAgrees(xs, ms);
  }

  /** The marks of a node itself. */
  lemma {:induction false} OwnRoom(xs: seq<Xattr>, external: bool, whiteout: bool, x: Extra)
    requires !Clashes(xs) && UserExtra(x)
    ensures Roomy(EscapedList(xs), Total(EscapedList(xs)), OwnMarks(external, whiteout, x))
  {
    OwnMarksKnown(external, whiteout, x);
    RoomForFew(xs, OwnMarks(external, whiteout, x));
  }

  /** A directory that has been marked or not: its own attributes, and perhaps the marks. */
  ghost predicate MarkedList(xs: seq<Xattr>, zs: seq<Xattr>, ms: seq<Xattr>) {
    && DistinctKeys(zs) && (forall z {:trigger z in zs} :: z in zs ==> z in EscapedList(xs) || z in ms)
    && forall y {:trigger y in EscapedList(xs)} :: y in EscapedList(xs) ==> y in zs
  }

  lemma {:induction false} MarkedCharges(xs: seq<Xattr>, zs: seq<Xattr>, ms: seq<Xattr>)
    requires MarkedList(xs, zs, ms) && DistinctKeys(EscapedList(xs))
    ensures Charges(EscapedList(xs)) <= Charges(zs) <= Charges(EscapedList(xs)) + Charges(ms)
    ensures Total(EscapedList(xs)) <= Total(zs)
  {
    ChargesWithin(zs, EscapedList(xs), ms);
    ChargesWithin(EscapedList(xs), zs, []);
    if xs != [] { assert EscapedList(xs)[0] in EscapedList(xs); }
  }

  lemma {:induction false} MarkedAgrees(xs: seq<Xattr>, zs: seq<Xattr>, ms: seq<Xattr>, more: seq<Xattr>)
    requires MarkedList(xs, zs, ms) && !Clashes(xs) && MarkKeys(more)
    requires forall m, z {:trigger m in more, z in ms} :: m in more && z in ms && m.key == z.key ==> m == z
    ensures Agree(zs, more) && (xs != [] ==> Anchored(zs, more))
  {
    FreeAgrees(xs, more);
    forall m | m in more && HasKey(zs, m.key)
      ensures m in zs
    {
      var i :| 0 <= i < |zs| && zs[i].key == m.key;
      assert zs[i] in zs;
      NotThere(xs, more, m);
      assert zs[i] in EscapedList(xs) ==> HasKey(EscapedList(xs), m.key);
    }
    if xs != [] {
      var y :| y in EscapedList(xs) && !HasKey(more, y.key);
      assert y in zs;
    }
  }

  /** What is known of the marks of a directory and of the root. */
  lemma {:induction false} DirMarksKnown(version: nat)
    ensures MarksFit(DirMarks(version)) && MarksFit([RootMark()])
    ensures MarkKeys(DirMarks(version)) && MarkKeys([RootMark()])
    ensures Charges(DirMarks(version)) <= 164 && Charges([RootMark()]) <= 41 && !HasKey(DirMarks(version), Opaque())
  {
    var x := Extra(None, None);
    MarksSmall(false, false, x, version);
    MarksDistinct(false, false, x, version, Redirect());
    SmallFit(DirMarks(version), 1);
    SmallFit([RootMark()], 1);
    SmallCharges(DirMarks(version), 1);
    SmallCharges([RootMark()], 1);
    forall key: bytes | HasKey(DirMarks(version), key) || HasKey([RootMark()], key)
      ensures MarkKey(key)
    {
      DirKeys(version, key);
    }
    assert |EscapedWhiteouts()| == 33 && |UserWhiteouts()| == 22 && |Opaque()| == 22;
    assert |EscapedOpaque()| == 30 && |UserOpaque()| == 19 && UserWhiteouts()[0] != Opaque()[0];
  }

  /** However often it is marked, a directory has room for the marks, and the root for its own. */
  lemma {:induction false} DirRoom(xs: seq<Xattr>, zs: seq<Xattr>, marked: bool, version: nat)
    requires !Clashes(xs) && DistinctKeys(EscapedList(xs))
    requires MarkedList(xs, zs, if marked then DirMarks(version) else [])
    ensures Roomy(zs, Total(EscapedList(xs)), DirMarks(version)) && Roomy(zs, Total(EscapedList(xs)), [RootMark()])
  {
    var ms: seq<Xattr> := if marked then DirMarks(version) else [];
    DirMarksKnown(version);
    MarkedCharges(xs, zs, ms);
    SameMarks(DirMarks(version), ms);
    MarkedAgrees(xs, zs, ms, DirMarks(version));
    RootDiffers(ms, version);
    MarkedAgrees(xs, zs, ms, [RootMark()]);
  }

  lemma {:induction false} SameMarks(more: seq<Xattr>, ms: seq<Xattr>)
    requires DistinctKeys(more) && (ms == more || ms == [])
    ensures forall m, z {:trigger m in more, z in ms} :: m in more && z in ms && m.key == z.key ==> m == z
  {
  }

  lemma {:induction false} RootDiffers(ms: seq<Xattr>, version: nat)
    requires ms == DirMarks(version) || ms == []
    ensures forall m, z {:trigger m in [RootMark()], z in ms} ::
              m in [RootMark()] && z in ms && m.key == z.key ==> m == z
  {
    DirMarksKnown(version);
    forall z | z in ms
      ensures z.key != Opaque()
    {
      var i :| 0 <= i < |ms| && ms[i] == z;
    }
  }

  /** What the items of a directory say of its list. */
  lemma {:induction false} ItemsMarked(xs: seq<Xattr>, zs: seq<Xattr>, marked: bool, version: nat)
    requires !Clashes(xs) && DistinctKeys(zs) && Items(zs) == WrittenItems(Items(xs), [], marked, version, false)
    ensures MarkedList(xs, zs, if marked then DirMarks(version) else [])
  {
    var ms, ys := DirMarks(version), EscapedList(xs);
    DirMarksKnown(version);
    assert PutAll(EscapedItems(Items(xs)), []) == EscapedItems(Items(xs));
    forall z
      ensures z in zs <==> z in ys || (marked && z in ms)
    {
      assert z in zs <==> z in Items(zs);
      EscapedIs(xs, z);
      if marked {
        PutAllIs(EscapedItems(Items(xs)), ms, z);
        if z in ys { KeyNotMark(xs, ms, z); }
      }
    }
  }

  lemma {:induction false} KeyNotMark(xs: seq<Xattr>, ms: seq<Xattr>, z: Xattr)
    requires !Clashes(xs) && MarkKeys(ms) && z in EscapedList(xs)
    ensures !HasKey(ms, z.key)
  {
    var i :| 0 <= i < |xs| && EscapedList(xs)[i] == z;
    assert HasKey(EscapedList(xs), z.key);
    OutOfTheWay(xs, z.key);
  }

  lemma {:induction false} EscapedIs(xs: seq<Xattr>, z: Xattr)
    ensures z in EscapedItems(Items(xs)) <==> z in EscapedList(xs)
  {
    if z in EscapedItems(Items(xs)) {
      var x :| x in Items(xs) && z == Xattr(Escape(x.key), x.value);
      var i :| 0 <= i < |xs| && xs[i] == x;
      assert EscapedList(xs)[i] == z;
    }
    if z in EscapedList(xs) {
      var i :| 0 <= i < |xs| && EscapedList(xs)[i] == z;
      assert xs[i] in Items(xs);
    }
  }

  lemma {:induction false} EscapedDistinct(xs: seq<Xattr>)
    requires DistinctKeys(xs)
    ensures DistinctKeys(EscapedList(xs))
  {
    forall i, j | 0 <= i < j < |xs|
      ensures EscapedList(xs)[i].key != EscapedList(xs)[j].key
    {
      if Escape(xs[i].key) == Escape(xs[j].key) { EscapeInjective(xs[i].key, xs[j].key); }
    }
  }

  /** A directory whose attributes are those of the user and perhaps the marks. */
  lemma {:induction false} WrittenRoom(xs: seq<Xattr>, zs: seq<Xattr>, marked: bool, version: nat)
    requires !Clashes(xs) && DistinctKeys(xs) && DistinctKeys(zs)
    requires Items(zs) == WrittenItems(Items(xs), [], marked, version, false)
    ensures Roomy(zs, Total(EscapedList(xs)), DirMarks(version)) && Roomy(zs, Total(EscapedList(xs)), [RootMark()])
  {
    EscapedDistinct(xs);
    ItemsMarked(xs, zs, marked, version);
    DirRoom(xs, zs, marked, version);
  }
}
