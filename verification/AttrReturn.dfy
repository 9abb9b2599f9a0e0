/** Which attributes a node has again after it was written and loaded. */
module AttrReturn {
  import opened Common
  import opened Bytes
  import opened Xattrs
  import opened NodeAttrs
  import opened Escaping
  import opened Overlay

  /** What the loader keeps of a set of attributes. */
  ghost function KeptItems(s: set<Xattr>, regular: bool): set<Xattr> {
    set x | x in s && ReadName(x.key, regular).Keep? :: Xattr(ReadName(x.key, regular).name, x.value)
  }

  lemma {:induction false} KeptOfList(es: seq<Xattr>, regular: bool)
    ensures Items(KeptList(es, regular)) == KeptItems(Items(es), regular)
  {
    forall y
      ensures y in Items(KeptList(es, regular)) <==> y in KeptItems(Items(es), regular)
    {
      KeptFrom(es, regular, y);
      if x :| x in es && ReadName(x.key, regular) == Keep(y.key) && x.value == y.value {
        assert x in Items(es);
      }
    }
  }

  /** A mark that is not kept leaves no trace. */
  lemma {:induction false} PutUnseen(s: set<Xattr>, m: Xattr, regular: bool)
    requires !ReadName(m.key, regular).Keep?
    ensures KeptItems(Put(s, m), regular) == KeptItems(s, regular)
  {
    forall y
      ensures y in KeptItems(Put(s, m), regular) <==> y in KeptItems(s, regular)
    {
      if x :| x in Put(s, m) && ReadName(x.key, regular).Keep? && y == Xattr(ReadName(x.key, regular).name, x.value) {
        assert x in s;
      }
      if x :| x in s && ReadName(x.key, regular).Keep? && y == Xattr(ReadName(x.key, regular).name, x.value) {
        assert x in Put(s, m);
      }
    }
  }

  /** One that is kept is found under its name. */
  lemma {:induction false} PutSeen(s: set<Xattr>, m: Xattr, regular: bool, name: bytes)
    requires ReadName(m.key, regular) == Keep(name)
    ensures KeptItems(Put(s, m), regular) == Put(KeptItems(s, regular), Xattr(name, m.value))
  {
    var a, b := KeptItems(Put(s, m), regular), Put(KeptItems(s, regular), Xattr(name, m.value));
    forall y
      ensures y in a <==> y in b
    {
      if y in a {
        var x :| x in Put(s, m) && ReadName(x.key, regular).Keep? && y == Xattr(ReadName(x.key, regular).name, x.value);
        if x != m {
          assert x in s;
          if y.key == name { KeptDiffer(x.key, m.key, regular); }
        }
      }
      if y in b {
        if y.key == name {
          assert m in Put(s, m);
        } else {
          var x :| x in s && ReadName(x.key, regular).Keep? && y == Xattr(ReadName(x.key, regular).name, x.value);
          assert x in Put(s, m);
        }
      }
    }
  }

  ghost predicate Unseen(ms: seq<Xattr>, regular: bool) {
    forall i {:trigger ms[i]} :: 0 <= i < |ms| ==> !ReadName(ms[i].key, regular).Keep?
  }

  lemma {:induction false} PutAllUnseen(s: set<Xattr>, ms: seq<Xattr>, regular: bool)
    requires Unseen(ms, regular)
    ensures KeptItems(PutAll(s, ms), regular) == KeptItems(s, regular)
  {
    if ms != [] {
      var n := |ms| - 1;
      PutAllUnseen(s, ms[..n], regular);
      PutUnseen(PutAll(s, ms[..n]), ms[n], regular);
    }
  }

  // ---------- fates ----------

  /** A name of the user comes back as it was, unless it is reserved. */
  lemma {:induction false} NameFate(key: bytes, regular: bool)
    ensures if Reserved(key, regular) then !ReadName(Escape(key), regular).Keep? else
              ReadName(Escape(key), regular) == Keep(key)
  {
    NameRoundTrip(key, regular);
    if OverlayPrefix() <= key {
      Unescape(key, regular);
    }
  }

  lemma {:induction false} EscapedKept(s: set<Xattr>, regular: bool)
    ensures KeptItems(EscapedItems(s), regular) == set y | y in s && !Reserved(y.key, regular)
  {
    var a, b := KeptItems(EscapedItems(s), regular), set y | y in s && !Reserved(y.key, regular);
    forall y
      ensures y in a <==> y in b
    {
      if y in a {
        var x :| x in EscapedItems(s) && ReadName(x.key, regular).Keep? &&
                 y == Xattr(ReadName(x.key, regular).name, x.value);
        var z :| z in s && x == Xattr(Escape(z.key), z.value);
        NameFate(z.key, regular);
        assert y == z;
      }
      if y in b {
        NameFate(y.key, regular);
        assert Xattr(Escape(y.key), y.value) in EscapedItems(s);
      }
    }
  }

  /** What becomes of the marks of the writer. */
  lemma {:induction false} MarkFates()
    ensures ReadName(Redirect(), true).Use? && ReadName(Metacopy(), true).Use?
    ensures ReadName(EscapedWhiteout(), true).MakeWhiteout? && ReadName(UserWhiteout(), true).Drop?
    ensures forall r :: ReadName(EscapedWhiteouts(), r).Drop? && ReadName(UserWhiteouts(), r).Drop?
    ensures forall r :: ReadName(Opaque(), r).Drop? && ReadName(UserOpaque(), r) == Keep(UserOpaque())
    ensures forall r :: ReadName(EscapedOpaque(), r) == Keep(Opaque())
  {
    OtherFates();
    var o := OverlayPrefix() + Ascii("opaque");
    assert Escape(o) == EscapedOpaque() by { assert o[|OverlayPrefix()|..] == Ascii("opaque"); }
    forall r: bool
      ensures ReadName(EscapedOpaque(), r) == Keep(Opaque())
    {
      OpaqueFree(r);
      NameFate(o, r);
    }
  }

  lemma {:induction false} OpaqueFree(regular: bool)
    ensures !Reserved(Opaque(), regular) && !Reserved(UserOpaque(), regular)
  {
    MarkNames();
    assert |Opaque()| == 22 && |UserOpaque()| == 19;
    assert |UserWhiteout()| == 21 && |UserWhiteouts()| == 22;
    assert Opaque()[0] == 't' as int && UserWhiteouts()[0] == 'u' as int;
  }

  lemma {:induction false} OtherFates()
    ensures ReadName(Redirect(), true).Use? && ReadName(Metacopy(), true).Use?
    ensures ReadName(EscapedWhiteout(), true).MakeWhiteout? && ReadName(UserWhiteout(), true).Drop?
    ensures forall r :: ReadName(EscapedWhiteouts(), r).Drop? && ReadName(UserWhiteouts(), r).Drop?
    ensures forall r :: ReadName(Opaque(), r).Drop? && ReadName(UserOpaque(), r) == Keep(UserOpaque())
  {
    MarkNames();
    assert |EscapedWhiteouts()| == 33 && |UserWhiteout()| == 21 && |UserWhiteouts()| == 22;
    assert |Opaque()| == 22 && |UserOpaque()| == 19 && |EscapedWhiteout()| == 32 && |Redirect()| == |Metacopy()| == 24;
    assert Opaque()[0] == 't' as int && UserWhiteouts()[0] == 'u' as int && UserOpaque()[0] == 'u' as int;
    assert OverlayPrefix()[0] == 't' as int;
    assert !(EscapePrefix() <= Opaque());
    assert OverlayPrefix() <= Opaque();
  }

  // ---------- there and back ----------

  function OpaqueMarks(): seq<Xattr> { [Xattr(Opaque(), [120]), Xattr(UserOpaque(), [120])] }

  /** What a node that had `s` has afterwards; `marked` if it is a directory with a whiteout in it. */
  ghost function ReturnedItems(s: set<Xattr>, regular: bool, marked: bool, version: nat): set<Xattr> {
    var kept := set y | y in s && !Reserved(y.key, regular);
    if marked && version >= 1 then PutAll(kept, OpaqueMarks()) else kept
  }

  lemma {:induction false} OwnUnseen(external: bool, whiteout: bool, x: Extra, regular: bool)
    requires external || whiteout ==> regular
    ensures Unseen(OwnMarks(external, whiteout, x), regular)
  {
    MarkFates();
  }

  lemma {:induction false} PutTwo(s: set<Xattr>, a: Xattr, b: Xattr)
    ensures PutAll(s, [a, b]) == Put(Put(s, a), b)
  {
    assert [a, b][..1] == [a] && [a][..0] == [];
    assert PutAll(s, [a]) == Put(s, a);
  }

  lemma {:induction false} PutJoin(s: set<Xattr>, ms: seq<Xattr>, ns: seq<Xattr>)
    ensures PutAll(s, ms + ns) == PutAll(PutAll(s, ms), ns)
    decreases |ns|
  {
    if ns == [] {
      assert ms + ns == ms;
    } else {
      var n := |ns| - 1;
      assert (ms + ns)[..|ms + ns| - 1] == ms + ns[..n] && (ms + ns)[|ms + ns| - 1] == ns[n];
      PutJoin(s, ms, ns[..n]);
    }
  }

  /** The marks of a directory show as two attributes, from version 1 on. */
  lemma {:induction false} DirMarksSeen(s: set<Xattr>, version: nat, regular: bool)
    ensures KeptItems(PutAll(s, DirMarks(version)), regular) ==
            if version >= 1 then PutAll(KeptItems(s, regular), OpaqueMarks()) else KeptItems(s, regular)
  {
    MarkFates();
    var ms := [Xattr(EscapedWhiteouts(), []), Xattr(UserWhiteouts(), [])];
    PutAllUnseen(s, ms, regular);
    if version >= 1 {
      var a, b := Xattr(EscapedOpaque(), [120]), Xattr(UserOpaque(), [120]);
      PutJoin(s, ms, [a, b]);
      PutTwo(PutAll(s, ms), a, b);
      PutSeen(PutAll(s, ms), a, regular, Opaque());
      PutSeen(Put(PutAll(s, ms), a), b, regular, UserOpaque());
      PutTwo(KeptItems(s, regular), OpaqueMarks()[0], OpaqueMarks()[1]);
    } else {
      assert DirMarks(version) == ms + [];
      assert ms + [] == ms;
    }
  }

  /** What is written for a node, read again. */
  lemma {:induction false} WrittenReturns(s: set<Xattr>, external: bool, whiteout: bool, x: Extra, marked: bool,
                                          version: nat, root: bool, regular: bool)
    requires external || whiteout ==> regular
    ensures KeptItems(WrittenItems(s, OwnMarks(external, whiteout, x), marked, version, root), regular) ==
            ReturnedItems(s, regular, marked, version)
  {
    var own := OwnMarks(external, whiteout, x);
    var a := PutAll(EscapedItems(s), own);
    var b := if marked then PutAll(a, DirMarks(version)) else a;
    EscapedKept(s, regular);
    OwnUnseen(external, whiteout, x, regular);
    PutAllUnseen(EscapedItems(s), own, regular);
    DirMarksSeen(a, version, regular);
    MarkFates();
    PutUnseen(b, RootMark(), regular);
  }

  /**
   A node has its attributes again exactly when none of them has a reserved name and, if it is a directory with a
   whiteout in it and the version is at least 1, it was already marked as opaque in the two ways the writer does it.
   */
  lemma {:induction false} ReturnedExactly(s: set<Xattr>, regular: bool, marked: bool, version: nat)
    requires OneEach(s)
    ensures ReturnedItems(s, regular, marked, version) == s <==>
            && (forall x {:trigger x in s} :: x in s ==> !Reserved(x.key, regular))
            && (marked && version >= 1 ==> OpaqueMarks()[0] in s && OpaqueMarks()[1] in s)
  {
    var kept := set y | y in s && !Reserved(y.key, regular);
    var a, b := OpaqueMarks()[0], OpaqueMarks()[1];
    PutTwo(kept, a, b);
    OpaqueFree(regular);
    OpaqueDiffer();
    var r := ReturnedItems(s, regular, marked, version);
    if marked && version >= 1 {
      assert a in r && b in r;
      forall x | x in r
        ensures x in kept || x == a || x == b
      {
      }
      if r == s {
        forall x | x in s
          ensures !Reserved(x.key, regular)
        {
          assert x in r;
        }
      }
      if a in s && b in s && forall x {:trigger x in s} :: x in s ==> !Reserved(x.key, regular) {
        assert kept == s;
        forall x
          ensures x in r <==> x in s
        {
        }
      }
    }
  }

  lemma {:induction false} OpaqueDiffer()
    ensures Opaque() != UserOpaque()
  {
    MarkNames();
    assert |Opaque()| == 22 && |UserOpaque()| == 19;
  }

  /** An attribute that was on the node, before the writer's own. */
  lemma {:induction false} PutAllHas(s: set<Xattr>, ms: seq<Xattr>, key: bytes)
    ensures KeyIn(PutAll(s, ms), key) <==> KeyIn(s, key) || HasKey(ms, key)
  {
    if ms != [] {
      var n := |ms| - 1;
      PutAllHas(s, ms[..n], key);
      var t := PutAll(s, ms[..n]);
      if x :| x in t && x.key == key {
        if key == ms[n].key { assert ms[n] in Put(t, ms[n]); } else { assert x in Put(t, ms[n]); }
      }
      if key == ms[n].key { assert ms[n] in Put(t, ms[n]); }
      if HasKey(ms, key) {
        var i :| 0 <= i < |ms| && ms[i].key == key;
        if i < n { assert ms[..n][i].key == key; }
      }
      if HasKey(ms[..n], key) {
        var i :| 0 <= i < n && ms[..n][i].key == key;
        assert ms[i].key == key;
      }
    }
  }

  /** A node comes back as a whiteout exactly when it was one, or was a file with the name that stands for one. */
  lemma {:induction false} WhiteoutReturns(s: set<Xattr>, external: bool, whiteout: bool, x: Extra, marked: bool,
                                           version: nat, root: bool)
    ensures KeyIn(WrittenItems(s, OwnMarks(external, whiteout, x), marked, version, root), EscapedWhiteout()) <==>
            whiteout || KeyIn(s, OverlayPrefix() + Ascii("whiteout"))
  {
    var own, k := OwnMarks(external, whiteout, x), EscapedWhiteout();
    var e := EscapedItems(s);
    var a := PutAll(e, own);
    var b := if marked then PutAll(a, DirMarks(version)) else a;
    PutAllHas(e, own, k);
    PutAllHas(a, DirMarks(version), k);
    PutAllHas(b, [RootMark()], k);
    assert PutAll(b, [RootMark()]) == Put(b, RootMark()) by { assert [RootMark()][..0] == []; }
    OtherKeys(external, whiteout, x, version);
    EscapedHas(s);
  }

  lemma {:induction false} EscapedHas(s: set<Xattr>)
    ensures KeyIn(EscapedItems(s), EscapedWhiteout()) <==> KeyIn(s, OverlayPrefix() + Ascii("whiteout"))
  {
    var w := OverlayPrefix() + Ascii("whiteout");
    assert Escape(w) == EscapedWhiteout() by { assert w[|OverlayPrefix()|..] == Ascii("whiteout"); }
    if x :| x in EscapedItems(s) && x.key == EscapedWhiteout() {
      var z :| z in s && x == Xattr(Escape(z.key), z.value);
      EscapeInjective(z.key, w);
    }
    if z :| z in s && z.key == w {
      assert Xattr(Escape(z.key), z.value) in EscapedItems(s);
    }
  }

  lemma {:induction false} OtherKeys(external: bool, whiteout: bool, x: Extra, version: nat)
    ensures HasKey(OwnMarks(external, whiteout, x), EscapedWhiteout()) <==> whiteout
    ensures !HasKey(DirMarks(version), EscapedWhiteout()) && !HasKey([RootMark()], EscapedWhiteout())
  {
    MarkNames();
    var own := OwnMarks(external, whiteout, x);
    if whiteout { assert own[|own| - 2].key == EscapedWhiteout(); }
    assert |EscapedWhiteouts()| == 33 && |UserWhiteout()| == 21 && |UserWhiteouts()| == 22;
    assert |EscapedOpaque()| == 30 && |UserOpaque()| == 19 && |Opaque()| == 22 && |EscapedWhiteout()| == 32;
  }

  // ---------- redirect and digest ----------

  lemma {:induction false} PutAllIs(s: set<Xattr>, ms: seq<Xattr>, x: Xattr)
    requires DistinctKeys(ms)
    ensures x in PutAll(s, ms) <==> x in ms || (x in s && !HasKey(ms, x.key))
  {
    if ms != [] {
      var n := |ms| - 1;
      PutAllIs(s, ms[..n], x);
      assert ms == ms[..n] + [ms[n]];
      if HasKey(ms[..n], x.key) {
        var i :| 0 <= i < n && ms[..n][i].key == x.key;
        assert ms[i].key == x.key;
      }
      if HasKey(ms, x.key) && x.key != ms[n].key {
        var i :| 0 <= i < |ms| && ms[i].key == x.key;
        assert ms[..n][i].key == x.key;
      }
      if x in ms[..n] {
        var i :| 0 <= i < n && ms[..n][i] == x;
        assert ms[i].key != ms[n].key;
      }
    }
  }

  lemma {:induction false} RedirectIs(es: seq<Xattr>, v: bytes)
    requires DistinctKeys(es) && !WhiteoutMarked(es)
    ensures RedirectOf(es, true) == Some(v) <==> Xattr(Redirect(), v) in es
  {
    if es != [] {
      var n := |es| - 1;
      MarkedMore(es);
      RedirectIs(es[..n], v);
      assert es == es[..n] + [es[n]];
    }
  }

  lemma {:induction false} DigestIs(es: seq<Xattr>, v: bytes)
    requires DistinctKeys(es) && !WhiteoutMarked(es)
    ensures DigestOf(es, true) == Some(v) <==>
            exists x :: x in es && x.key == Metacopy() && |x.value| == 36 && x.value[4..] == v
  {
    if es != [] {
      var n := |es| - 1;
      MarkedMore(es);
      DigestIs(es[..n], v);
      assert es == es[..n] + [es[n]];
    }
  }

  /** The names the user gave do not get in the way of the two marks. */
  lemma {:induction false} MarkInWritten(s: set<Xattr>, external: bool, whiteout: bool, x: Extra, marked: bool,
                                         version: nat, root: bool, y: Xattr)
    requires y.key == Redirect() || y.key == Metacopy()
    ensures y in WrittenItems(s, OwnMarks(external, whiteout, x), marked, version, root) <==>
            y in OwnMarks(external, whiteout, x)
  {
    var own := OwnMarks(external, whiteout, x);
    var e := EscapedItems(s);
    var a := PutAll(e, own);
    MarksDistinct(external, whiteout, x, version, y.key);
    PutAllIs(e, own, y);
    PutAllIs(a, DirMarks(version), y);
    if y in e {
      var z :| z in s && y == Xattr(Escape(z.key), z.value);
      NotEscape(z.key);
    }
  }

  lemma {:induction false} NotEscape(key: bytes)
    ensures Escape(key) != Redirect() && Escape(key) != Metacopy()
  {
    EscapeShape(key);
    if OverlayPrefix() <= key {
      EscapedNames(key[|OverlayPrefix()|..], Escape(key));
    } else {
      assert OverlayPrefix() <= Redirect() && OverlayPrefix() <= Metacopy();
    }
  }

  lemma {:induction false} MarksDistinct(external: bool, whiteout: bool, x: Extra, version: nat, key: bytes)
    requires key == Redirect() || key == Metacopy()
    ensures DistinctKeys(OwnMarks(external, whiteout, x)) && DistinctKeys(DirMarks(version))
    ensures !HasKey(DirMarks(version), key) && RootMark().key != key
  {
    MarkNames();
    assert |EscapedWhiteouts()| == 33 && |UserWhiteout()| == 21 && |UserWhiteouts()| == 22;
    assert |EscapedOpaque()| == 30 && |UserOpaque()| == 19 && |Opaque()| == 22 && |EscapedWhiteout()| == 32;
    assert |Redirect()| == 24 && |Metacopy()| == 24;
  }

  /** A file whose content is elsewhere has its digest again, and its redirect as it was written. */
  lemma {:induction false} ExtraReturns(s: set<Xattr>, x: Extra, marked: bool, version: nat, root: bool, es: seq<Xattr>)
    requires DistinctKeys(es) && Items(es) == WrittenItems(s, OwnMarks(true, false, x), marked, version, root)
    requires !KeyIn(s, OverlayPrefix() + Ascii("whiteout")) && (x.digest.Some? ==> |x.digest.value| == 32)
    ensures !WhiteoutMarked(es) && DigestOf(es, true) == x.digest
    ensures RedirectOf(es, true) ==
              if x.payload.Some? && x.payload.value != [] then Some([47] + x.payload.value) else None
  {
    NotMarked(s, x, marked, version, root, es);
    var own := OwnMarks(true, false, x);
    forall y: Xattr | y.key == Redirect() || y.key == Metacopy()
      ensures y in es <==> y in own
    {
      assert y in es <==> y in Items(es);
      MarkInWritten(s, true, false, x, marked, version, root, y);
    }
    MarkNames();
    var m := Xattr(Metacopy(), MetacopyValue(x.digest));
    assert own[0] == m;
    assert m in own;
    forall y | y in own && y.key == Metacopy()
      ensures y == m
    {
    }
    match DigestOf(es, true) {
      case Some(v) => DigestIs(es, v);
      case None =>
        if x.digest.Some? {
          assert m.value[4..] == x.digest.value;
          DigestIs(es, x.digest.value);
        }
    }
    RedirectBack(x, es);
  }

  lemma {:induction false} RedirectBack(x: Extra, es: seq<Xattr>)
    requires DistinctKeys(es) && !WhiteoutMarked(es)
    requires forall v: bytes :: Xattr(Redirect(), v) in es <==> Xattr(Redirect(), v) in OwnMarks(true, false, x)
    ensures RedirectOf(es, true) ==
              if x.payload.Some? && x.payload.value != [] then Some([47] + x.payload.value) else None
  {
    MarkNames();
    var own := OwnMarks(true, false, x);
    match RedirectOf(es, true) {
      case Some(v) =>
        RedirectIs(es, v);
        assert Xattr(Redirect(), v) in own;
      case None =>
        if x.payload.Some? && x.payload.value != [] {
          assert own[1] == Xattr(Redirect(), [47] + x.payload.value);
          RedirectIs(es, [47] + x.payload.value);
        }
    }
  }

  lemma {:induction false} NotMarked(s: set<Xattr>, x: Extra, marked: bool, version: nat, root: bool, es: seq<Xattr>)
    requires Items(es) == WrittenItems(s, OwnMarks(true, false, x), marked, version, root)
    requires !KeyIn(s, OverlayPrefix() + Ascii("whiteout"))
    ensures !WhiteoutMarked(es)
  {
    WhiteoutReturns(s, true, false, x, marked, version, root);
  }

  // ---------- what does not come back ----------

  /** An attribute of the user that has a reserved name is gone. */
  lemma {:induction false} ReservedIsLost(value: bytes, regular: bool, version: nat)
    ensures ReturnedItems({Xattr(UserWhiteout(), value)}, regular, false, version) == {}
  {
    assert Reserved(UserWhiteout(), regular);
  }

  /** A directory without attributes has two when there is a whiteout in it. */
  lemma {:induction false} OpaqueAppears(version: nat)
    requires version >= 1
    ensures ReturnedItems({}, false, true, version) == {Xattr(Opaque(), [120]), Xattr(UserOpaque(), [120])}
  {
    OpaqueDiffer();
    var a, b := OpaqueMarks()[0], OpaqueMarks()[1];
    PutTwo({}, a, b);
    var none: set<Xattr> := {};
    assert (set y | y in none && !Reserved(y.key, false)) == none;
    assert Put(none, a) == {a};
    assert Put({a}, b) == {a, b};
  }
}
