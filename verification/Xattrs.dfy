/**
 Extended attributes on disk.  A key is stored as the index of a well-known prefix and the rest of the key;
 an entry is a 4-byte head, that rest and the value, padded to a multiple of 4.
 */
module Xattrs {
  import opened Common
  import opened Bytes

  datatype Xattr = Xattr(key: bytes, value: bytes)

  /** An attribute as the image stores it. */
  datatype Stored = Stored(index: byte, rest: bytes, value: bytes)

  datatype XattrError = OutOfBounds | BadIndex

  ghost predicate DistinctKeys(xs: seq<Xattr>) {
    forall i, j {:trigger xs[i], xs[j]} :: 0 <= i < j < |xs| ==> xs[i].key != xs[j].key
  }

  // ---------- keys ----------

  function Ascii(s: string): (b: bytes)
    ensures |b| == |s|
  {
    seq(|s|, i requires 0 <= i < |s| => s[i] as int % 256)
  }

  function PrefixName(index: nat): bytes {
    if index == 1 then Ascii("user.") else
    if index == 2 then Ascii("system.posix_acl_access") else
    if index == 3 then Ascii("system.posix_acl_default") else
    if index == 4 then Ascii("trusted.") else
    if index == 5 then Ascii("lustre.") else
    if index == 6 then Ascii("security.") else []
  }

  /** The first prefix of the writer's list that `key` starts with. */
  function Index(key: bytes): (index: byte)
    ensures PrefixName(index) <= key && index < 7
  {
    if PrefixName(1) <= key then 1 else
    if PrefixName(2) <= key then 2 else
    if PrefixName(3) <= key then 3 else
    if PrefixName(4) <= key then 4 else
    if PrefixName(6) <= key then 6 else 0
  }

  function Store(x: Xattr): (e: Stored) {
    var index := Index(x.key);
    Stored(index, x.key[|PrefixName(index)|..], x.value)
  }

  function Fetch(e: Stored): Xattr {
    Xattr(PrefixName(e.index) + e.rest, e.value)
  }

  /** The reader puts together the key that the writer took apart. */
  lemma {:induction false} FetchStore(x: Xattr)
    ensures Fetch(Store(x)) == x && Store(x).index < 7 && |Store(x).rest| <= |x.key|
  {
    var index := Index(x.key);
    assert PrefixName(index) + x.key[|PrefixName(index)|..] == x.key;
  }

  /** The number of a prefix, and what is left of the name; of two prefixes that fit no name has both. */
  lemma {:induction false} StoredAs(rest: bytes, value: bytes)
    ensures Store(Xattr(Ascii("user.") + rest, value)) == Stored(1, rest, value)
    ensures Store(Xattr(Ascii("system.posix_acl_access") + rest, value)) == Stored(2, rest, value)
    ensures Store(Xattr(Ascii("system.posix_acl_default") + rest, value)) == Stored(3, rest, value)
    ensures Store(Xattr(Ascii("trusted.") + rest, value)) == Stored(4, rest, value)
    ensures Store(Xattr(Ascii("security.") + rest, value)) == Stored(6, rest, value)
  {
    PrefixFound(1, rest);
    PrefixFound(2, rest);
    PrefixFound(3, rest);
    PrefixFound(4, rest);
    PrefixFound(6, rest);
  }

  lemma {:induction false} NotPrefix(a: bytes, key: bytes, i: nat)
    requires i < |a| && i < |key| && a[i] != key[i]
    ensures !(a <= key)
  {
  }

  lemma {:induction false} PrefixStarts()
    ensures PrefixName(1)[0] == 'u' as int && PrefixName(4)[0] == 't' as int
    ensures PrefixName(2)[0] == PrefixName(3)[0] == PrefixName(6)[0] == 's' as int
    ensures PrefixName(2)[1] == PrefixName(3)[1] == 'y' as int && PrefixName(6)[1] == 'e' as int
    ensures PrefixName(2)[17] == 'a' as int && PrefixName(3)[17] == 'd' as int
  {
  }

  lemma {:induction false} PrefixFound(index: nat, rest: bytes)
    requires index in {1, 2, 3, 4, 6}
    ensures Index(PrefixName(index) + rest) == index
    ensures (PrefixName(index) + rest)[|PrefixName(index)|..] == rest
  {
    var key := PrefixName(index) + rest;
    PrefixStarts();
    assert forall i | 0 <= i < |PrefixName(index)| :: key[i] == PrefixName(index)[i];
    if index > 1 { NotPrefix(PrefixName(1), key, 0); }
    if index == 3 { NotPrefix(PrefixName(2), key, 17); }
    if index == 4 {
      NotPrefix(PrefixName(2), key, 0);
      NotPrefix(PrefixName(3), key, 0);
    }
    if index == 6 {
      NotPrefix(PrefixName(2), key, 1);
      NotPrefix(PrefixName(3), key, 1);
      NotPrefix(PrefixName(4), key, 0);
    }
  }

  /** Any other name is stored whole. */
  lemma {:induction false} StoredWhole(x: Xattr)
    ensures Store(x).index == 0 <==>
            !(Ascii("user.") <= x.key) && !(Ascii("trusted.") <= x.key) && !(Ascii("security.") <= x.key) &&
            !(Ascii("system.posix_acl_access") <= x.key) && !(Ascii("system.posix_acl_default") <= x.key)
    ensures Store(x).value == x.value && (Store(x).index == 0 ==> Store(x).rest == x.key)
  {
    assert PrefixName(0) == [] && x.key[0..] == x.key;
  }

  // ---------- one entry ----------

  /** What fits the fields of an entry. */
  predicate Fits(e: Stored) {
    e.index < 7 && |e.rest| <= 255 && |e.value| <= 0xffff
  }

  function EntryLength(e: Stored): nat {
    4 + |e.rest| + |e.value|
  }

  function EntrySize(e: Stored): (n: nat)
    ensures n % 4 == 0 && n >= 4
  {
    RoundUp(EntryLength(e), 4)
  }

  /** An entry of nothing but a head. */
  predicate Bare(e: Stored) {
    e.rest == [] && e.value == []
  }

  function EntryHead(e: Stored): (b: bytes)
    ensures |b| == 4
  {
    [|e.rest| % 256, e.index] + LE(|e.value|, 2)
  }

  function EntryBytes(e: Stored): (b: bytes)
    ensures |b| == EntrySize(e)
  {
    EntryHead(e) + e.rest + e.value + Zeros(EntrySize(e) - EntryLength(e))
  }

  /** An entry and the space it takes. */
  datatype Sized = Sized(e: Stored, size: nat)

  function DecodeEntry(img: bytes, o: nat): (r: Result<Sized, XattrError>) {
    if |img| < o + 4 then Err(OutOfBounds) else
    var name, value := img[o], Num(img, o + 2, 2);
    if |img| < o + 4 + name + value then Err(OutOfBounds) else
    if img[o + 1] >= 7 then Err(BadIndex) else
    var e := Stored(img[o + 1], img[o + 4..o + 4 + name], img[o + 4 + name..o + 4 + name + value]);
    Ok(Sized(e, RoundUp(4 + name + value, 4)))
  }

  lemma {:induction false} HeadAt(img: bytes, o: nat, e: Stored)
    requires Fits(e) && At(img, o, EntryHead(e))
    ensures o + 4 <= |img| && img[o] == |e.rest| && img[o + 1] == e.index && Num(img, o + 2, 2) == |e.value|
  {
    AtJoin(img, o, [|e.rest| % 256, e.index], LE(|e.value|, 2));
    AtNum(img, o + 2, |e.value|, 2);
    Widths();
    var h := img[o..o + 2];
    assert img[o] == h[0] && img[o + 1] == h[1];
  }

  lemma {:induction false} EntryParts(img: bytes, o: nat, e: Stored)
    requires At(img, o, EntryBytes(e))
    ensures At(img, o, EntryHead(e)) && At(img, o + 4, e.rest) && At(img, o + 4 + |e.rest|, e.value)
  {
    var h, z := EntryHead(e), Zeros(EntrySize(e) - EntryLength(e));
    AtJoin(img, o, h + e.rest + e.value, z);
    AtJoin(img, o, h + e.rest, e.value);
    AtJoin(img, o, h, e.rest);
  }

  /** An entry reads back as written, wherever it stands. */
  lemma {:induction false} EntryRoundTrip(img: bytes, o: nat, e: Stored)
    requires Fits(e) && At(img, o, EntryBytes(e))
    ensures DecodeEntry(img, o) == Ok(Sized(e, EntrySize(e)))
  {
    EntryParts(img, o, e);
    HeadAt(img, o, e);
  }

  // ---------- entries behind the inode ----------

  ghost function Encoded(es: seq<Stored>): (p: seq<bytes>)
    ensures |p| == |es|
  {
    seq(|es|, i requires 0 <= i < |es| => EntryBytes(es[i]))
  }

  ghost predicate AllFit(es: seq<Stored>) {
    forall i {:trigger es[i]} :: 0 <= i < |es| ==> Fits(es[i])
  }

  /** Reads the entry at an offset; DecodeEntry on the image is the one the format needs. */
  type EntryReader = nat -> Result<Sized, XattrError>

  function ReaderOf(img: bytes): EntryReader {
    (o: nat) => DecodeEntry(img, o)
  }

  function Behind(es: seq<Stored>, r: Result<seq<Stored>, XattrError>): Result<seq<Stored>, XattrError> {
    if r.Err? then r else Ok(es + r.value)
  }

  lemma {:induction false} BehindNothing(r: Result<seq<Stored>, XattrError>)
    ensures Behind([], r) == r
  {
    if r.Ok? { assert [] + r.value == r.value; }
  }

  /** Entries from `p` on; an entry is read while more than its head lies before `end`. */
  function DecodeInline(read: EntryReader, p: nat, end: nat): (r: Result<seq<Stored>, XattrError>)
    decreases end - p
  {
    if p + 4 >= end then Ok([]) else
    var e := read(p);
    if e.Err? then Err(e.error) else Behind([e.value.e], DecodeInline(read, p + Max(e.value.size, 4), end))
  }

  method ReadInline(read: EntryReader, start: nat, end: nat) returns (r: Result<seq<Stored>, XattrError>)
    ensures r == DecodeInline(read, start, end)
  {
    var p, es := start, [];
    BehindNothing(DecodeInline(read, start, end));
    while p + 4 < end
      invariant DecodeInline(read, start, end) == Behind(es, DecodeInline(read, p, end))
      decreases end - p
    {
      var e := read(p);
      if e.Err? { return Err(e.error); }
      ghost var rest := DecodeInline(read, p + Max(e.value.size, 4), end);
      assert rest.Ok? ==> es + ([e.value.e] + rest.value) == es + [e.value.e] + rest.value;
      es := es + [e.value.e];
      p := p + Max(e.value.size, 4);
    }
    assert es + [] == es;
    return Ok(es);
  }

  /** What the strict bound of the reader leaves: a last entry that is only a head is passed over. */
  function Visible(es: seq<Stored>): (v: seq<Stored>)
    ensures v == es <==> es == [] || !Bare(es[|es| - 1])
  {
    if es != [] && Bare(es[|es| - 1]) then es[..|es| - 1] else es
  }

  lemma {:induction false} BareSize(e: Stored)
    ensures Bare(e) <==> EntrySize(e) == 4
  {
  }

  lemma {:induction false} Peel(img: bytes, p: nat, es: seq<Stored>)
    requires At(img, p, Flat(Encoded(es))) && es != []
    ensures At(img, p, EntryBytes(es[0])) && At(img, p + EntrySize(es[0]), Flat(Encoded(es[1..])))
    ensures |Flat(Encoded(es))| == EntrySize(es[0]) + |Flat(Encoded(es[1..]))|
  {
    assert Encoded(es)[1..] == Encoded(es[1..]);
    FlatFirst(Encoded(es));
    AtJoin(img, p, EntryBytes(es[0]), Flat(Encoded(es[1..])));
  }

  /** `read` sees entries laid out one behind the other from `p` to `end`. */
  ghost predicate Sees(read: EntryReader, p: nat, es: seq<Stored>, end: nat)
    decreases |es|
  {
    if es == [] then p == end else
    && read(p) == Ok(Sized(es[0], EntrySize(es[0])))
    && Sees(read, p + EntrySize(es[0]), es[1..], end)
  }

  lemma {:induction false} SeesEnd(read: EntryReader, p: nat, es: seq<Stored>, end: nat)
    requires Sees(read, p, es, end)
    ensures p <= end && (es != [] ==> p + EntrySize(es[0]) <= end)
    decreases |es|
  {
    if es != [] { SeesEnd(read, p + EntrySize(es[0]), es[1..], end); }
  }

  /** `read` gives back every entry that stands in `img`. */
  ghost predicate Reads(read: EntryReader, img: bytes) {
    forall o: nat, e {:trigger At(img, o, EntryBytes(e))} ::
      Fits(e) && At(img, o, EntryBytes(e)) ==> read(o) == Ok(Sized(e, EntrySize(e)))
  }

  lemma {:induction false} ReaderOfReads(img: bytes)
    ensures Reads(ReaderOf(img), img)
  {
    forall o: nat, e | Fits(e) && At(img, o, EntryBytes(e))
      ensures ReaderOf(img)(o) == Ok(Sized(e, EntrySize(e)))
    {
      EntryRoundTrip(img, o, e);
    }
  }

  lemma {:induction false} EncodedSeen(read: EntryReader, img: bytes, p: nat, es: seq<Stored>, end: nat)
    requires Reads(read, img) && AllFit(es) && At(img, p, Flat(Encoded(es))) && end == p + |Flat(Encoded(es))|
    ensures Sees(read, p, es, end)
    decreases |es|
  {
    if es != [] {
      Peel(img, p, es);
      EncodedSeen(read, img, p + EntrySize(es[0]), es[1..], end);
    }
  }

  /** The reader finds every entry but a bare last one. */
  lemma {:induction false} InlineRoundTrip(read: EntryReader, p: nat, es: seq<Stored>, end: nat)
    requires Sees(read, p, es, end)
    ensures DecodeInline(read, p, end) == Ok(Visible(es))
    decreases |es|
  {
    if es != [] {
      var q, rest := p + EntrySize(es[0]), es[1..];
      BareSize(es[0]);
      SeesEnd(read, q, rest, end);
      InlineRoundTrip(read, q, rest, end);
      if rest == [] {
        assert es == [es[0]] + [] && es[..0] == [];
      } else {
        assert Visible(es) == [es[0]] + Visible(rest);
      }
    }
  }
}
