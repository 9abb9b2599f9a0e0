/** The marks of the writer written out: names as text, values byte by byte. */
module MarkText {
  import opened Common
  import opened Bytes
  import opened Xattrs
  import opened NodeAttrs
  import opened Escaping
  import opened Overlay
  import opened AttrReturn

  lemma {:induction false} AsciiJoin(a: string, b: string)
    ensures Ascii(a + b) == Ascii(a) + Ascii(b)
  {
  }

  lemma {:induction false} Prefixes()
    ensures OverlayPrefix() == Ascii("trusted.overlay.") && EscapePrefix() == Ascii("trusted.overlay.overlay.")
    ensures UserPrefix() == Ascii("user.overlay.")
  {
    AsciiJoin("trusted.", "overlay.");
    assert "trusted." + "overlay." == "trusted.overlay.";
    AsciiJoin("trusted.overlay.", "overlay.");
    assert "trusted.overlay." + "overlay." == "trusted.overlay.overlay.";
    AsciiJoin("user.", "overlay.");
    assert "user." + "overlay." == "user.overlay.";
  }

  lemma {:induction false} TrustedNames()
    ensures Redirect() == Ascii("trusted.overlay.redirect") && Metacopy() == Ascii("trusted.overlay.metacopy")
    ensures Opaque() == Ascii("trusted.overlay.opaque")
  {
    Prefixes();
    AsciiJoin("trusted.overlay.", "redirect");
    assert "trusted.overlay." + "redirect" == "trusted.overlay.redirect";
    AsciiJoin("trusted.overlay.", "metacopy");
    assert "trusted.overlay." + "metacopy" == "trusted.overlay.metacopy";
    AsciiJoin("trusted.overlay.", "opaque");
    assert "trusted.overlay." + "opaque" == "trusted.overlay.opaque";
  }

  lemma {:induction false} EscapedNames()
    ensures EscapedWhiteout() == Ascii("trusted.overlay.overlay.whiteout")
    ensures EscapedWhiteouts() == Ascii("trusted.overlay.overlay.whiteouts")
    ensures EscapedOpaque() == Ascii("trusted.overlay.overlay.opaque")
  {
    Prefixes();
    AsciiJoin("trusted.overlay.overlay.", "whiteout");
    assert "trusted.overlay.overlay." + "whiteout" == "trusted.overlay.overlay.whiteout";
    AsciiJoin("trusted.overlay.overlay.", "whiteouts");
    assert "trusted.overlay.overlay." + "whiteouts" == "trusted.overlay.overlay.whiteouts";
    AsciiJoin("trusted.overlay.overlay.", "opaque");
    assert "trusted.overlay.overlay." + "opaque" == "trusted.overlay.overlay.opaque";
  }

  lemma {:induction false} UserNames()
    ensures UserWhiteout() == Ascii("user.overlay.whiteout") && UserWhiteouts() == Ascii("user.overlay.whiteouts")
    ensures UserOpaque() == Ascii("user.overlay.opaque")
  {
    Prefixes();
    AsciiJoin("user.overlay.", "whiteout");
    assert "user.overlay." + "whiteout" == "user.overlay.whiteout";
    AsciiJoin("user.overlay.", "whiteouts");
    assert "user.overlay." + "whiteouts" == "user.overlay.whiteouts";
    AsciiJoin("user.overlay.", "opaque");
    assert "user.overlay." + "opaque" == "user.overlay.opaque";
  }

  // ---------- the marks ----------

  /** A digest is stored behind version, length, flags and the number of SHA-256. */
  ghost predicate IsMetacopy(v: bytes, digest: Option<bytes>) {
    match digest
    case None => v == []
    case Some(d) => |v| == 4 + |d| && v[0] == 0 && v[1] == 36 && v[2] == 0 && v[3] == 1 && v[4..] == d
  }

  /** The marks of a node itself: of a file whose content is elsewhere, and of a whiteout. */
  ghost predicate IsOwnMark(a: Xattr, external: bool, whiteout: bool, x: Extra) {
    || (external && a.key == Ascii("trusted.overlay.metacopy") && IsMetacopy(a.value, x.digest))
    || (external && x.payload.Some? && x.payload.value != [] && a.key == Ascii("trusted.overlay.redirect")
        && a.value == Ascii("/") + x.payload.value)
    || (whiteout && a.key == Ascii("trusted.overlay.overlay.whiteout") && a.value == [])
    || (whiteout && a.key == Ascii("user.overlay.whiteout") && a.value == [])
  }

  /** The marks of a directory with a whiteout in it. */
  ghost predicate IsDirMark(a: Xattr, version: nat) {
    || (a.key == Ascii("trusted.overlay.overlay.whiteouts") && a.value == [])
    || (a.key == Ascii("user.overlay.whiteouts") && a.value == [])
    || (version >= 1 && a.key == Ascii("trusted.overlay.overlay.opaque") && a.value == Ascii("x"))
    || (version >= 1 && a.key == Ascii("user.overlay.opaque") && a.value == Ascii("x"))
  }

  lemma {:induction false} OwnMarksAre(external: bool, whiteout: bool, x: Extra, a: Xattr)
    ensures a in OwnMarks(external, whiteout, x) <==> IsOwnMark(a, external, whiteout, x)
  {
    TrustedNames();
    EscapedNames();
    UserNames();
    assert Ascii("/") == [47];
    if x.digest.Some? {
      assert MetacopyValue(x.digest)[4..] == x.digest.value;
      if IsMetacopy(a.value, x.digest) { assert a.value == [0, 36, 0, 1] + a.value[4..]; }
    }
  }

  lemma {:induction false} DirMarksAre(version: nat, a: Xattr)
    ensures a in DirMarks(version) <==> IsDirMark(a, version)
  {
    EscapedNames();
    UserNames();
    assert Ascii("x") == [120];
  }

  lemma {:induction false} RootMarkIs()
    ensures RootMark() == Xattr(Ascii("trusted.overlay.opaque"), Ascii("y"))
  {
    TrustedNames();
    assert Ascii("y") == [121];
  }

  // ---------- all attributes of a node ----------

  /** Everything the writer puts on a node. */
  ghost function AllMarks(external: bool, whiteout: bool, x: Extra, marked: bool, version: nat, root: bool)
    : seq<Xattr>
  {
    OwnMarks(external, whiteout, x) + (if marked then DirMarks(version) else []) + (if root then [RootMark()] else [])
  }

  ghost predicate IsMark(a: Xattr, external: bool, whiteout: bool, x: Extra, marked: bool, version: nat, root: bool) {
    || IsOwnMark(a, external, whiteout, x) || (marked && IsDirMark(a, version))
    || (root && a == Xattr(Ascii("trusted.overlay.opaque"), Ascii("y")))
  }

  /** A name below "trusted.overlay." gets one more "overlay.". */
  ghost predicate IsEscaped(key: bytes, name: bytes) {
    if Ascii("trusted.overlay.") <= name then key == Ascii("trusted.overlay.overlay.") + name[16..] else key == name
  }

  lemma {:induction false} EscapeIs(name: bytes, key: bytes)
    ensures key == Escape(name) <==> IsEscaped(key, name)
  {
    Prefixes();
  }

  lemma {:induction false} MarksAre(a: Xattr, external: bool, whiteout: bool, x: Extra, marked: bool, version: nat,
                                    root: bool)
    ensures a in AllMarks(external, whiteout, x, marked, version, root) <==>
            IsMark(a, external, whiteout, x, marked, version, root)
  {
    OwnMarksAre(external, whiteout, x, a);
    DirMarksAre(version, a);
    RootMarkIs();
  }

  lemma {:induction false} Lengths()
    ensures |Redirect()| == 24 && |Metacopy()| == 24 && |Opaque()| == 22 && |EscapedWhiteout()| == 32
    ensures |EscapedWhiteouts()| == 33 && |EscapedOpaque()| == 30 && |UserWhiteout()| == 21 && |UserWhiteouts()| == 22
    ensures |UserOpaque()| == 19 && UserWhiteouts() != Opaque() && Redirect() != Metacopy()
  {
    MarkNames();
    assert UserWhiteouts()[0] == 'u' as int && Opaque()[0] == 't' as int;
  }

  lemma {:induction false} DistinctJoin(a: seq<Xattr>, b: seq<Xattr>)
    requires DistinctKeys(a) && DistinctKeys(b) && forall x {:trigger x in b} :: x in b ==> !HasKey(a, x.key)
    ensures DistinctKeys(a + b)
  {
    var c := a + b;
    forall i, j | 0 <= i < j < |c|
      ensures c[i].key != c[j].key
    {
      if i < |a| <= j {
        assert c[j] == b[j - |a|] && b[j - |a|] in b;
        assert a[i].key == c[i].key;
      }
    }
  }

  lemma {:induction false} OwnLengths(external: bool, whiteout: bool, x: Extra, i: nat)
    requires i < |OwnMarks(external, whiteout, x)|
    ensures |OwnMarks(external, whiteout, x)[i].key| in {21, 24, 32}
  {
    Lengths();
  }

  lemma {:induction false} DirLengths(version: nat, i: nat)
    requires i < |DirMarks(version)|
    ensures |DirMarks(version)[i].key| in {19, 22, 30, 33} && DirMarks(version)[i].key != Opaque()
  {
    Lengths();
  }

  lemma {:induction false} NotTop(external: bool, whiteout: bool, x: Extra, version: nat, dir: seq<Xattr>)
    requires dir == DirMarks(version) || dir == []
    ensures !HasKey(OwnMarks(external, whiteout, x) + dir, Opaque())
  {
    Lengths();
    var own := OwnMarks(external, whiteout, x);
    if HasKey(own + dir, Opaque()) {
      var j :| 0 <= j < |own + dir| && (own + dir)[j].key == Opaque();
      if j < |own| { OwnLengths(external, whiteout, x, j); } else { DirLengths(version, j - |own|); }
    }
  }

  lemma {:induction false} NotOwn(external: bool, whiteout: bool, x: Extra, version: nat, d: Xattr)
    requires d in DirMarks(version)
    ensures !HasKey(OwnMarks(external, whiteout, x), d.key)
  {
    var own, dir := OwnMarks(external, whiteout, x), DirMarks(version);
    var i :| 0 <= i < |dir| && dir[i] == d;
    DirLengths(version, i);
    if HasKey(own, d.key) {
      var j :| 0 <= j < |own| && own[j].key == d.key;
      OwnLengths(external, whiteout, x, j);
    }
  }

  lemma {:induction false} MarksDiffer(external: bool, whiteout: bool, x: Extra, marked: bool, version: nat, root: bool)
    ensures DistinctKeys(AllMarks(external, whiteout, x, marked, version, root))
  {
    var own := OwnMarks(external, whiteout, x);
    var dir: seq<Xattr> := if marked then DirMarks(version) else [];
    var top: seq<Xattr> := if root then [RootMark()] else [];
    MarksDistinct(external, whiteout, x, version, Redirect());
    Lengths();
    forall d | d in dir
      ensures !HasKey(own, d.key)
    {
      NotOwn(external, whiteout, x, version, d);
    }
    DistinctJoin(own, dir);
    NotTop(external, whiteout, x, version, dir);
    DistinctJoin(own + dir, top);
  }

  lemma {:induction false} WrittenIsPut(s: set<Xattr>, external: bool, whiteout: bool, x: Extra, marked: bool,
                                        version: nat, root: bool)
    ensures WrittenItems(s, OwnMarks(external, whiteout, x), marked, version, root) ==
            PutAll(EscapedItems(s), AllMarks(external, whiteout, x, marked, version, root))
  {
    var own, e := OwnMarks(external, whiteout, x), EscapedItems(s);
    var dir: seq<Xattr> := if marked then DirMarks(version) else [];
    var top: seq<Xattr> := if root then [RootMark()] else [];
    PutJoin(e, own, dir);
    PutJoin(e, own + dir, top);
    var b := PutAll(e, own + dir);
    assert [RootMark()][..0] == [];
    assert PutAll(b, [RootMark()]) == Put(PutAll(b, []), RootMark());
  }

  /** The attributes of a node in the image: the marks, and the given ones, escaped, unless a mark has the name. */
  ghost predicate AttrsWritten(given: seq<Xattr>, written: seq<Xattr>, external: bool, whiteout: bool, x: Extra,
                               marked: bool, version: nat, root: bool) {
    forall a {:trigger a in written} :: a in written <==>
      || IsMark(a, external, whiteout, x, marked, version, root)
      || (IsGiven(a, given) && forall m {:trigger IsMark(m, external, whiteout, x, marked, version, root)} ::
                                 IsMark(m, external, whiteout, x, marked, version, root) ==> m.key != a.key)
  }

  ghost predicate IsGiven(a: Xattr, given: seq<Xattr>) {
    exists z :: z in given && IsEscaped(a.key, z.key) && a.value == z.value
  }

  lemma {:induction false} GivenIs(a: Xattr, given: seq<Xattr>)
    ensures a in EscapedItems(Items(given)) <==> IsGiven(a, given)
  {
    if a in EscapedItems(Items(given)) {
      var z :| z in Items(given) && a == Xattr(Escape(z.key), z.value);
      EscapeIs(z.key, a.key);
      assert z in given;
    }
    if IsGiven(a, given) {
      var z :| z in given && IsEscaped(a.key, z.key) && a.value == z.value;
      EscapeIs(z.key, a.key);
      assert z in Items(given);
    }
  }

  lemma {:induction false} NoMarkNamed(ms: seq<Xattr>, key: bytes)
    ensures HasKey(ms, key) <==> exists m :: m in ms && m.key == key
  {
    if HasKey(ms, key) {
      var i :| 0 <= i < |ms| && ms[i].key == key;
      assert ms[i] in ms;
    }
  }

  lemma {:induction false} WrittenOut(given: seq<Xattr>, written: seq<Xattr>, external: bool, whiteout: bool, x: Extra,
                                      marked: bool, version: nat, root: bool)
    requires Items(written) == WrittenItems(Items(given), OwnMarks(external, whiteout, x), marked, version, root)
    ensures AttrsWritten(given, written, external, whiteout, x, marked, version, root)
  {
    var ms := AllMarks(external, whiteout, x, marked, version, root);
    WrittenIsPut(Items(given), external, whiteout, x, marked, version, root);
    MarksDiffer(external, whiteout, x, marked, version, root);
    forall m
      ensures m in ms <==> IsMark(m, external, whiteout, x, marked, version, root)
    {
      MarksAre(m, external, whiteout, x, marked, version, root);
    }
    forall a
      ensures a in written <==> a in ms || (IsGiven(a, given) && forall m | m in ms :: m.key != a.key)
    {
      assert a in written <==> a in Items(written);
      PutAllIs(EscapedItems(Items(given)), ms, a);
      GivenIs(a, given);
      NoMarkNamed(ms, a.key);
    }
  }

  // ---------- what comes back ----------

  /** Names that do not come back, because they stand for whiteouts; one of them only for files. */
  ghost predicate IsReservedName(key: bytes, regular: bool) {
    || (regular && key == Ascii("trusted.overlay.whiteout")) || key == Ascii("trusted.overlay.whiteouts")
    || key == Ascii("user.overlay.whiteout") || key == Ascii("user.overlay.whiteouts")
  }

  /** Attributes of a loaded node: those it was given, and two marks if it is a directory with a whiteout in it. */
  ghost predicate IsReturned(z: Xattr, given: seq<Xattr>, regular: bool, marked: bool, version: nat) {
    if marked && version >= 1 && (z.key == Ascii("trusted.overlay.opaque") || z.key == Ascii("user.overlay.opaque"))
    then z.value == Ascii("x")
    else z in given && !IsReservedName(z.key, regular)
  }

  lemma {:induction false} WhiteoutNames()
    ensures OverlayPrefix() + Ascii("whiteout") == Ascii("trusted.overlay.whiteout")
    ensures OverlayPrefix() + Ascii("whiteouts") == Ascii("trusted.overlay.whiteouts")
  {
    Prefixes();
    AsciiJoin("trusted.overlay.", "whiteout");
    assert "trusted.overlay." + "whiteout" == "trusted.overlay.whiteout";
    AsciiJoin("trusted.overlay.", "whiteouts");
    assert "trusted.overlay." + "whiteouts" == "trusted.overlay.whiteouts";
  }

  lemma {:induction false} ReservedIs(key: bytes, regular: bool)
    ensures Reserved(key, regular) <==> IsReservedName(key, regular)
  {
    WhiteoutNames();
    UserNames();
  }

  lemma {:induction false} OpaqueMarksAre(z: Xattr)
    ensures z in OpaqueMarks() <==>
            (z.key == Ascii("trusted.overlay.opaque") || z.key == Ascii("user.overlay.opaque")) && z.value == Ascii("x")
    ensures HasKey(OpaqueMarks(), z.key) <==>
            z.key == Ascii("trusted.overlay.opaque") || z.key == Ascii("user.overlay.opaque")
    ensures DistinctKeys(OpaqueMarks())
  {
    TrustedNames();
    UserNames();
    OpaqueDiffer();
    assert Ascii("x") == [120];
    assert OpaqueMarks()[0].key == Opaque() && OpaqueMarks()[1].key == UserOpaque();
  }

  lemma {:induction false} ReturnedAre(z: Xattr, given: seq<Xattr>, regular: bool, marked: bool, version: nat)
    ensures z in ReturnedItems(Items(given), regular, marked, version) <==>
            IsReturned(z, given, regular, marked, version)
  {
    var kept := set y | y in Items(given) && !Reserved(y.key, regular);
    ReservedIs(z.key, regular);
    OpaqueMarksAre(z);
    assert z in kept <==> z in given && !IsReservedName(z.key, regular);
    if marked && version >= 1 { PutAllIs(kept, OpaqueMarks(), z); }
  }
}
