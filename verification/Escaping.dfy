/**
 Attributes that overlayfs would interpret.  The writer moves the names a user gave below "trusted.overlay." out
 of the way, the reader moves them back and drops the attributes that the writer adds for its own use.
 */
module Escaping {
  import opened Bytes
  import opened Xattrs

  function Trusted(): bytes { Ascii("trusted.") }
  function Word(): bytes { Ascii("overlay.") }
  function OverlayPrefix(): bytes { Trusted() + Word() }
  function EscapePrefix(): bytes { OverlayPrefix() + Word() }
  function UserPrefix(): bytes { Ascii("user.") + Word() }

  // ---------- writing ----------

  function Escape(key: bytes): bytes {
    if OverlayPrefix() <= key then EscapePrefix() + key[|OverlayPrefix()|..] else key
  }

  /** Escapes the names in place, one attribute after the other. */
  method EscapeAll(xattrs: array<Xattr>)
    modifies xattrs
    ensures forall i :: 0 <= i < xattrs.Length ==> xattrs[i] == Xattr(Escape(old(xattrs[i]).key), old(xattrs[i]).value)
    ensures DistinctKeys(old(xattrs[..])) ==> DistinctKeys(xattrs[..])
  {
    for i := 0 to xattrs.Length
      invariant forall k :: 0 <= k < i ==> xattrs[k] == Xattr(Escape(old(xattrs[k]).key), old(xattrs[k]).value)
      invariant forall k :: i <= k < xattrs.Length ==> xattrs[k] == old(xattrs[k])
    {
      var name := xattrs[i].key;
      if OverlayPrefix() <= name {
        xattrs[i] := xattrs[i].(key := EscapePrefix() + name[|OverlayPrefix()|..]);
      }
    }
    if DistinctKeys(old(xattrs[..])) { EscapeKeepsDistinct(old(xattrs[..]), xattrs[..]); }
  }

  lemma {:induction false} EscapeShape(key: bytes)
    ensures OverlayPrefix() <= Escape(key) <==> OverlayPrefix() <= key
    ensures OverlayPrefix() <= key ==>
              Escape(key) == OverlayPrefix() + (Word() + key[|OverlayPrefix()|..]) && EscapePrefix() <= Escape(key)
  {
    if OverlayPrefix() <= key {
      assert Escape(key) == OverlayPrefix() + (Word() + key[|OverlayPrefix()|..]);
    }
  }

  /** No two names fall together, so renaming in place is safe. */
  lemma {:induction false} EscapeInjective(a: bytes, b: bytes)
    requires Escape(a) == Escape(b)
    ensures a == b
  {
    EscapeShape(a);
    EscapeShape(b);
    var n, m := |OverlayPrefix()|, |EscapePrefix()|;
    if OverlayPrefix() <= a {
      assert Escape(a)[m..] == a[n..] && Escape(b)[m..] == b[n..];
      assert a == a[..n] + a[n..] && b == b[..n] + b[n..];
      assert a[..n] == OverlayPrefix() == b[..n];
    }
  }

  lemma {:induction false} EscapeKeepsDistinct(xs: seq<Xattr>, ys: seq<Xattr>)
    requires DistinctKeys(xs) && |ys| == |xs|
    requires forall i {:trigger ys[i]} :: 0 <= i < |xs| ==> ys[i] == Xattr(Escape(xs[i].key), xs[i].value)
    ensures DistinctKeys(ys)
  {
    forall i, j | 0 <= i < j < |ys|
      ensures ys[i].key != ys[j].key
    {
      if Escape(xs[i].key) == Escape(xs[j].key) { EscapeInjective(xs[i].key, xs[j].key); }
    }
  }

  /** A name of at most 255 bytes is stored with a suffix of at most 255 bytes, escaped or not. */
  lemma {:induction false} StoredSuffix(key: bytes, value: bytes)
    requires |key| <= 255
    ensures |Store(Xattr(Escape(key), value)).rest| <= 255
  {
    FetchStore(Xattr(Escape(key), value));
    EscapeShape(key);
    if OverlayPrefix() <= key {
      TrustedIndex(Escape(key));
    }
  }

  lemma {:induction false} TrustedIndex(key: bytes)
    requires Trusted() <= key
    ensures Index(key) == 4
  {
    assert PrefixName(4) == Trusted();
    assert key[0] == Trusted()[0] == 't' as int;
    assert PrefixName(1)[0] == 'u' as int && PrefixName(2)[0] == 's' as int && PrefixName(3)[0] == 's' as int;
  }

  // ---------- reading ----------

  /** What the reader does with an attribute: keep it under a name, use it for the node itself, or drop it. */
  datatype Fate = Keep(name: bytes) | Use | MakeWhiteout | Drop

  function Redirect(): bytes { OverlayPrefix() + Ascii("redirect") }
  function Metacopy(): bytes { OverlayPrefix() + Ascii("metacopy") }
  function EscapedWhiteout(): bytes { EscapePrefix() + Ascii("whiteout") }
  function EscapedWhiteouts(): bytes { EscapePrefix() + Ascii("whiteouts") }
  function UserWhiteout(): bytes { UserPrefix() + Ascii("whiteout") }
  function UserWhiteouts(): bytes { UserPrefix() + Ascii("whiteouts") }

  function ReadName(name: bytes, regular: bool): Fate {
    if name == Redirect() || name == Metacopy() then Use else
    if name == EscapedWhiteout() && regular then MakeWhiteout else
    if name == EscapedWhiteouts() || name == UserWhiteout() || name == UserWhiteouts() then Drop else
    if OverlayPrefix() <= name then
      if EscapePrefix() <= name then Keep(name[..|Trusted()|] + name[|OverlayPrefix()|..]) else Drop
    else Keep(name)
  }

  /** Names that the writer itself puts on whiteouts and their directories. */
  predicate Reserved(key: bytes, regular: bool) {
    || (key == OverlayPrefix() + Ascii("whiteout") && regular) || key == OverlayPrefix() + Ascii("whiteouts")
    || key == UserWhiteout() || key == UserWhiteouts()
  }

  lemma {:induction false} Joined(p: bytes, a: bytes, b: bytes)
    ensures p + a == p + b <==> a == b
    ensures p + a <= p + b <==> a <= b
  {
    if p + a == p + b {
      assert (p + a)[|p|..] == a && (p + b)[|p|..] == b;
    }
    if p + a <= p + b {
      assert (p + b)[..|p + a|] == p + a;
      assert forall i :: 0 <= i < |a| ==> (p + b)[|p| + i] == b[i] && (p + a)[|p| + i] == a[i];
    }
  }

  lemma {:induction false} OtherWords()
    ensures !(Word() <= Ascii("redirect")) && !(Word() <= Ascii("metacopy"))
    ensures !(OverlayPrefix() <= UserWhiteout()) && !(OverlayPrefix() <= UserWhiteouts())
  {
    assert Word()[0] == 'o' as int && Ascii("redirect")[0] == 'r' as int && Ascii("metacopy")[0] == 'm' as int;
    assert OverlayPrefix()[0] == 't' as int && UserWhiteout()[0] == 'u' as int && UserWhiteouts()[0] == 'u' as int;
  }

  /** An escaped name has a meaning of its own only if what was escaped is one of two words. */
  lemma {:induction false} EscapedNames(rest: bytes, e: bytes)
    requires e == OverlayPrefix() + (Word() + rest)
    ensures e != Redirect() && e != Metacopy() && e != UserWhiteout() && e != UserWhiteouts()
    ensures e == EscapedWhiteout() <==> rest == Ascii("whiteout")
    ensures e == EscapedWhiteouts() <==> rest == Ascii("whiteouts")
  {
    OtherWords();
    assert Word() <= Word() + rest && e == EscapePrefix() + rest;
    Joined(OverlayPrefix(), Word() + rest, Ascii("redirect"));
    Joined(OverlayPrefix(), Word() + rest, Ascii("metacopy"));
    Joined(EscapePrefix(), rest, Ascii("whiteout"));
    Joined(EscapePrefix(), rest, Ascii("whiteouts"));
  }

  lemma {:induction false} Unescaped(rest: bytes, e: bytes)
    requires e == OverlayPrefix() + (Word() + rest)
    ensures e[..|Trusted()|] + e[|OverlayPrefix()|..] == OverlayPrefix() + rest && EscapePrefix() <= e
    ensures OverlayPrefix() <= e
  {
    assert e == EscapePrefix() + rest;
    assert e[..|Trusted()|] == Trusted() && e[|OverlayPrefix()|..] == Word() + rest;
    Assoc(Trusted(), Word(), rest);
  }

  lemma {:induction false} ReservedWords(rest: bytes, regular: bool)
    ensures Reserved(OverlayPrefix() + rest, regular) <==>
              (rest == Ascii("whiteout") && regular) || rest == Ascii("whiteouts")
  {
    OtherWords();
    Joined(OverlayPrefix(), rest, Ascii("whiteout"));
    Joined(OverlayPrefix(), rest, Ascii("whiteouts"));
    assert OverlayPrefix() <= OverlayPrefix() + rest;
  }

  /** Unescaping an escaped name gives the name back. */
  lemma {:induction false} Unescape(key: bytes, regular: bool)
    requires OverlayPrefix() <= key
    ensures if Reserved(key, regular) then !ReadName(Escape(key), regular).Keep? else
              ReadName(Escape(key), regular) == Keep(key)
  {
    var rest, e := key[|OverlayPrefix()|..], Escape(key);
    EscapeShape(key);
    assert key == OverlayPrefix() + rest;
    EscapedNames(rest, e);
    Unescaped(rest, e);
    ReservedWords(rest, regular);
  }

  /** Every name comes back, except exactly the reserved ones. */
  lemma {:induction false} NameRoundTrip(key: bytes, regular: bool)
    ensures ReadName(Escape(key), regular) == Keep(key) <==> !Reserved(key, regular)
  {
    if OverlayPrefix() <= key {
      Unescape(key, regular);
    } else {
      assert !(OverlayPrefix() <= key) ==>
               key != Redirect() && key != Metacopy() && key != EscapedWhiteout() && key != EscapedWhiteouts();
    }
  }
}
