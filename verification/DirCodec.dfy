/**
 The on-disk form of a directory block: fixed-size dirents first, the names behind them.  A name ends
 where the next one starts; the last name ends at the first zero byte or at the end of the block.
 */
module DirCodec {
  import opened Common
  import opened Bytes

  const NAME_MAX: int := 255

  datatype Dirent = Dirent(name: bytes, nid: nat, ftype: byte)

  /** What lcfs_node_add_child lets through: a C string of 1 to 255 bytes. */
  predicate NameOk(name: bytes) {
    1 <= |name| <= NAME_MAX && 0 !in name
  }

  ghost predicate EntriesOk(ds: seq<Dirent>) {
    forall i {:trigger ds[i]} :: 0 <= i < |ds| ==> NameOk(ds[i].name) && ds[i].nid < Pow256(8)
  }

  // ---------- encoding ----------

  ghost function Names(ds: seq<Dirent>): (p: seq<bytes>)
    ensures |p| == |ds|
  {
    seq(|ds|, i requires 0 <= i < |ds| => ds[i].name)
  }

  /** Space entries with these names take in a block. */
  ghost function Space(names: seq<bytes>): nat {
    12 * |names| + |Flat(names)|
  }

  ghost function ChunkSize(ds: seq<Dirent>): nat {
    Space(Names(ds))
  }

  /** Offset of name `i` from the start of the block. */
  ghost function NameOff(ds: seq<Dirent>, i: nat): nat
    requires i <= |ds|
  {
    12 * |ds| + Offset(Names(ds), i)
  }

  function DirentBytes(d: Dirent, nameoff: nat): (b: bytes)
    ensures |b| == 12
  {
    LE(d.nid, 8) + LE(nameoff, 2) + [d.ftype, 0]
  }

  ghost function Heads(ds: seq<Dirent>): (p: seq<bytes>)
    ensures |p| == |ds|
  {
    seq(|ds|, i requires 0 <= i < |ds| => DirentBytes(ds[i], NameOff(ds, i)))
  }

  ghost function EncodeChunk(ds: seq<Dirent>): (b: bytes) {
    Flat(Heads(ds)) + Flat(Names(ds))
  }

  lemma {:induction false} ChunkLength(ds: seq<Dirent>)
    ensures |EncodeChunk(ds)| == ChunkSize(ds)
    ensures |Flat(Heads(ds))| == 12 * |ds|
  {
    FlatUniform(Heads(ds), 12);
  }

  /** Dirent `i` stands where the format puts it. */
  lemma {:induction false} HeadAt(ds: seq<Dirent>, i: nat)
    requires i < |ds|
    ensures At(EncodeChunk(ds), 12 * i, DirentBytes(ds[i], NameOff(ds, i)))
  {
    AtFlat(Heads(ds), i);
    var hs := Heads(ds)[..i];
    assert forall k {:trigger hs[k]} :: 0 <= k < |hs| ==> |hs[k]| == 12;
    FlatUniform(hs, 12);
    var h, n := Flat(Heads(ds)), Flat(Names(ds));
    assert At(h + n, 0, h);
    AtInside(h + n, 0, h, 12 * i, DirentBytes(ds[i], NameOff(ds, i)));
  }

  /** Name `i` stands where dirent `i` says, and ends where the next one starts. */
  lemma {:induction false} NameAt(ds: seq<Dirent>, i: nat)
    requires i < |ds|
    ensures At(EncodeChunk(ds), NameOff(ds, i), ds[i].name)
    ensures NameOff(ds, i) + |ds[i].name| == NameOff(ds, i + 1) <= ChunkSize(ds)
  {
    ChunkLength(ds);
    AtFlat(Names(ds), i);
    FlatSlice(Names(ds), i);
    var h, n := Flat(Heads(ds)), Flat(Names(ds));
    assert At(h + n, |h|, n);
    AtInside(h + n, |h|, n, Offset(Names(ds), i), ds[i].name);
  }

  // ---------- decoding ----------

  datatype DecodeError = BadBlock | OutOfBounds

  /** strnlen: the distance to the first zero byte, at most to the end. */
  function StrnLen(s: bytes): (n: nat)
    ensures n <= |s|
  {
    if s == [] || s[0] == 0 then 0 else 1 + StrnLen(s[1..])
  }

  /** How many dirents the block `b` holds, read off the offset of the first name. */
  function DirentCount(b: bytes): (r: Result<nat, DecodeError>)
    ensures r.Ok? ==> 12 * r.value <= |b|
  {
    if |b| < 12 then Err(OutOfBounds) else
    var size := Num(b, 8, 2);
    if size % 12 != 0 then Err(BadBlock) else
    if |b| < size then Err(OutOfBounds) else Ok(size / 12)
  }

  /** Dirent `i` of the `n` in block `b`; lengths are 16-bit numbers. */
  function DecodeEntry(b: bytes, n: nat, i: nat): (r: Result<Dirent, DecodeError>)
    requires i < n && 12 * n <= |b|
  {
    var o := 12 * i;
    var nameoff := Num(b, o + 8, 2);
    if |b| < nameoff then Err(OutOfBounds) else
    var len := if i + 1 < n then (Num(b, o + 20, 2) - nameoff) % 0x1_0000 else StrnLen(b[nameoff..]);
    if |b| < nameoff + len then Err(OutOfBounds) else
    Ok(Dirent(b[nameoff..nameoff + len], Num(b, o, 8), b[o + 10]))
  }

  lemma {:induction false} DirentFields(b: bytes, o: nat, d: Dirent, nameoff: nat)
    requires At(b, o, DirentBytes(d, nameoff)) && d.nid < Pow256(8) && nameoff < 0x1_0000
    ensures o + 12 <= |b| && Num(b, o, 8) == d.nid && Num(b, o + 8, 2) == nameoff && b[o + 10] == d.ftype
    ensures b[o + 11] == 0
  {
    AtJoin(b, o, LE(d.nid, 8) + LE(nameoff, 2), [d.ftype, 0]);
    AtJoin(b, o, LE(d.nid, 8), LE(nameoff, 2));
    AtNum(b, o, d.nid, 8);
    AtNum(b, o + 8, nameoff, 2);
    Widths();
    assert b[o + 10] == b[o + 10..o + 12][0] && b[o + 11] == b[o + 10..o + 12][1];
  }

  lemma {:induction false} StrnLenIs(s: bytes, n: nat)
    requires n <= |s| && 0 !in s[..n] && (n < |s| ==> s[n] == 0)
    ensures StrnLen(s) == n
  {
    if n > 0 {
      assert s[0] == s[..n][0];
      assert s[1..][..n - 1] == s[..n][1..];
      StrnLenIs(s[1..], n - 1);
    }
  }

  /** `b` begins with the encoded chunk and goes on with zeros, if at all. */
  ghost predicate Holds(b: bytes, ds: seq<Dirent>) {
    && At(b, 0, EncodeChunk(ds))
    && (ChunkSize(ds) < |b| ==> b[ChunkSize(ds)] == 0)
  }

  lemma {:induction false} LastName(b: bytes, ds: seq<Dirent>, i: nat)
    requires Holds(b, ds) && EntriesOk(ds) && i + 1 == |ds|
    ensures NameOff(ds, i) <= |b| && StrnLen(b[NameOff(ds, i)..]) == |ds[i].name|
  {
    var o, len := NameOff(ds, i), |ds[i].name|;
    NameAt(ds, i);
    ChunkLength(ds);
    AtInside(b, 0, EncodeChunk(ds), o, ds[i].name);
    assert Names(ds)[..|ds|] == Names(ds);
    assert b[o..][..len] == b[o..o + len];
    StrnLenIs(b[o..], len);
  }

  /** What entry `i` of the block, at offset `o`, says about where its name is. */
  lemma {:induction false} EntryNumbers(b: bytes, ds: seq<Dirent>, i: nat, o: nat)
    requires Holds(b, ds) && EntriesOk(ds) && i < |ds| && ChunkSize(ds) <= 4096 && o == 12 * i
    ensures o + 12 <= |b|
    ensures Num(b, o, 8) == ds[i].nid && Num(b, o + 8, 2) == NameOff(ds, i) && b[o + 10] == ds[i].ftype
  {
    HeadAt(ds, i);
    assert NameOff(ds, i) <= 4096 by { NameAt(ds, i); }
    DirentInside(b, EncodeChunk(ds), o, ds[i], NameOff(ds, i));
  }

  lemma {:induction false} DirentInside(b: bytes, c: bytes, o: nat, d: Dirent, nameoff: nat)
    requires At(b, 0, c) && At(c, o, DirentBytes(d, nameoff)) && d.nid < Pow256(8) && nameoff < 0x1_0000
    ensures o + 12 <= |b| && Num(b, o, 8) == d.nid && Num(b, o + 8, 2) == nameoff && b[o + 10] == d.ftype
  {
    AtInside(b, 0, c, o, DirentBytes(d, nameoff));
    DirentFields(b, o, d, nameoff);
  }

  /** Of the `n` entries in `b`, the one at `o` describes `d`, whose name stands at `nameoff`. */
  ghost predicate Describes(b: bytes, last: bool, o: nat, d: Dirent, nameoff: nat) {
    && o + 12 <= |b| && NameOk(d.name) && At(b, nameoff, d.name)
    && Num(b, o, 8) == d.nid && Num(b, o + 8, 2) == nameoff && b[o + 10] == d.ftype
    && (last ==> StrnLen(b[nameoff..]) == |d.name|)
    && (!last ==> o + 24 <= |b| && Num(b, o + 20, 2) == nameoff + |d.name|)
  }

  lemma {:induction false} DecodesTo(b: bytes, n: nat, i: nat, d: Dirent, nameoff: nat)
    requires i < n && 12 * n <= |b| && Describes(b, i + 1 == n, 12 * i, d, nameoff)
    ensures DecodeEntry(b, n, i) == Ok(d)
  {
  }

  lemma {:induction false} NextOffset(b: bytes, ds: seq<Dirent>, i: nat, o: nat)
    requires Holds(b, ds) && EntriesOk(ds) && i + 1 < |ds| && ChunkSize(ds) <= 4096 && o == 12 * i
    ensures o + 24 <= |b| && Num(b, o + 20, 2) == NameOff(ds, i) + |ds[i].name|
  {
    EntryNumbers(b, ds, i + 1, o + 12);
    assert o + 12 + 8 == o + 20;
    NameInside(b, ds, i);
  }

  lemma {:induction false} ChunkDescribes(b: bytes, ds: seq<Dirent>, i: nat, o: nat)
    requires Holds(b, ds) && EntriesOk(ds) && i < |ds| && ChunkSize(ds) <= 4096 && o == 12 * i
    ensures Describes(b, i + 1 == |ds|, o, ds[i], NameOff(ds, i))
  {
    EntryNumbers(b, ds, i, o);
    NameInside(b, ds, i);
    if i + 1 < |ds| {
      NextOffset(b, ds, i, o);
    } else {
      LastName(b, ds, i);
    }
  }

  /** Decoding entry `i` of an encoded chunk gives entry `i` back, the last one included. */
  lemma {:induction false} EntryRoundTrip(b: bytes, ds: seq<Dirent>, i: nat)
    requires Holds(b, ds) && EntriesOk(ds) && i < |ds| && ChunkSize(ds) <= 4096
    ensures 12 * |ds| <= |b| && DecodeEntry(b, |ds|, i) == Ok(ds[i])
  {
    ChunkFits(b, ds);
    ChunkDescribes(b, ds, i, 12 * i);
    DecodesTo(b, |ds|, i, ds[i], NameOff(ds, i));
  }

  lemma {:induction false} NameInside(b: bytes, ds: seq<Dirent>, i: nat)
    requires Holds(b, ds) && i < |ds|
    ensures At(b, NameOff(ds, i), ds[i].name) && NameOff(ds, i) + |ds[i].name| == NameOff(ds, i + 1)
  {
    NameAt(ds, i);
    AtInside(b, 0, EncodeChunk(ds), NameOff(ds, i), ds[i].name);
  }

  lemma {:induction false} ChunkFits(b: bytes, ds: seq<Dirent>)
    requires Holds(b, ds)
    ensures 12 * |ds| <= ChunkSize(ds) <= |b|
  {
    ChunkLength(ds);
  }

  lemma {:induction false} CountOf(b: bytes, n: nat, o: nat)
    requires 1 <= n && 12 * n <= |b| && o == 0 && Num(b, o + 8, 2) == 12 * n
    ensures DirentCount(b) == Ok(n)
  {
    assert o + 8 == 8;
  }

  lemma {:induction false} CountRoundTrip(b: bytes, ds: seq<Dirent>)
    requires Holds(b, ds) && EntriesOk(ds) && ds != [] && ChunkSize(ds) <= 4096
    ensures DirentCount(b) == Ok(|ds|)
  {
    var o: nat := 0;
    ChunkFits(b, ds);
    EntryNumbers(b, ds, 0, o);
    CountOf(b, |ds|, o);
  }

  function DecodePrefix(b: bytes, n: nat, k: nat): (r: Result<seq<Dirent>, DecodeError>)
    requires k <= n && 12 * n <= |b|
  {
    if k == 0 then Ok([]) else
    match DecodePrefix(b, n, k - 1)
    case Err(e) => Err(e)
    case Ok(ds) => match DecodeEntry(b, n, k - 1)
                   case Err(e) => Err(e)
                   case Ok(d) => Ok(ds + [d])
  }

  function DecodeBlock(b: bytes): (r: Result<seq<Dirent>, DecodeError>) {
    match DirentCount(b)
    case Err(e) => Err(e)
    case Ok(n) => DecodePrefix(b, n, n)
  }

  /** A name ends where the next one starts, the last one at the first zero byte or the end of the block. */
  ghost predicate NameEnds(b: bytes, n: nat, i: nat, start: nat, name: bytes)
    requires i < n && 12 * n <= |b|
  {
    if i + 1 < n then |name| == (Num(b, 12 * i + 20, 2) - start) % 0x1_0000 else
    0 !in name && (start + |name| == |b| || (start + |name| < |b| && b[start + |name|] == 0))
  }

  /** Entry `i` as the block has it, whatever is in the block. */
  ghost predicate Stands(b: bytes, n: nat, i: nat, d: Dirent)
    requires i < n && 12 * n <= |b|
  {
    var start := Num(b, 12 * i + 8, 2);
    At(b, start, d.name) && NameEnds(b, n, i, start, d.name) && d.nid == Num(b, 12 * i, 8) && d.ftype == b[12 * i + 10]
  }

  lemma {:induction false} StrnLenMeans(s: bytes, n: nat)
    ensures StrnLen(s) == n <==> n <= |s| && 0 !in s[..n] && (n == |s| || s[n] == 0)
  {
    if s != [] && s[0] != 0 && n > 0 {
      StrnLenMeans(s[1..], n - 1);
      if n <= |s| { assert s[..n] == [s[0]] + s[1..][..n - 1]; }
    } else if s != [] && s[0] == 0 && 0 < n <= |s| {
      assert s[..n][0] == 0;
    }
  }

  lemma {:induction false} MiddleMeans(b: bytes, n: nat, i: nat, d: Dirent)
    requires i + 1 < n && 12 * n <= |b|
    ensures DecodeEntry(b, n, i) == Ok(d) <==> Stands(b, n, i, d)
  {
  }

  lemma {:induction false} ZeroEnds(b: bytes, start: nat, name: bytes)
    requires start <= |b|
    ensures At(b, start, name) && StrnLen(b[start..]) == |name| <==>
            && At(b, start, name) && 0 !in name
            && (start + |name| == |b| || (start + |name| < |b| && b[start + |name|] == 0))
  {
    StrnLenMeans(b[start..], |name|);
    if At(b, start, name) { assert b[start..][..|name|] == name; }
  }

  lemma {:induction false} LastMeans(b: bytes, n: nat, d: Dirent)
    requires 0 < n && 12 * n <= |b|
    ensures DecodeEntry(b, n, n - 1) == Ok(d) <==> Stands(b, n, n - 1, d)
  {
    var start := Num(b, 12 * (n - 1) + 8, 2);
    if start <= |b| { ZeroEnds(b, start, d.name); }
  }

  lemma {:induction false} EntryMeans(b: bytes, n: nat, i: nat, d: Dirent)
    requires i < n && 12 * n <= |b|
    ensures DecodeEntry(b, n, i) == Ok(d) <==> Stands(b, n, i, d)
  {
    if i + 1 < n { MiddleMeans(b, n, i, d); } else { LastMeans(b, n, d); }
  }

  lemma {:induction false} PrefixStands(b: bytes, n: nat, k: nat)
    requires k <= n && 12 * n <= |b| && DecodePrefix(b, n, k).Ok?
    ensures var ds := DecodePrefix(b, n, k).value;
            |ds| == k && forall i: nat {:trigger Stands(b, n, i, ds[i])} :: i < k ==> Stands(b, n, i, ds[i])
  {
    if k > 0 {
      PrefixStands(b, n, k - 1);
      EntryMeans(b, n, k - 1, DecodeEntry(b, n, k - 1).value);
    }
  }

  lemma {:induction false} StandsPrefix(b: bytes, n: nat, ds: seq<Dirent>)
    requires |ds| <= n && 12 * n <= |b|
    requires forall i: nat {:trigger Stands(b, n, i, ds[i])} :: i < |ds| ==> Stands(b, n, i, ds[i])
    ensures DecodePrefix(b, n, |ds|) == Ok(ds)
    decreases |ds|
  {
    if ds != [] {
      var k := |ds| - 1;
      forall i: nat | i < k
        ensures Stands(b, n, i, ds[..k][i])
      {
        assert Stands(b, n, i, ds[i]);
      }
      StandsPrefix(b, n, ds[..k]);
      assert Stands(b, n, k, ds[k]);
      EntryMeans(b, n, k, ds[k]);
      assert ds == ds[..k] + [ds[k]];
    }
  }

  /** A block of these entries: the first name behind the last entry, and every entry as the block has it. */
  ghost predicate IsBlock(b: bytes, ds: seq<Dirent>) {
    && 12 <= |b| && 12 * |ds| == Num(b, 8, 2) <= |b|
    && forall i: nat {:trigger Stands(b, |ds|, i, ds[i])} :: i < |ds| ==> Stands(b, |ds|, i, ds[i])
  }

  lemma {:induction false} DecodedIsBlock(b: bytes, n: nat)
    requires DirentCount(b) == Ok(n) && DecodePrefix(b, n, n).Ok?
    ensures IsBlock(b, DecodePrefix(b, n, n).value)
  {
    PrefixStands(b, n, n);
  }

  lemma {:induction false} BlockDecoded(b: bytes, ds: seq<Dirent>)
    requires IsBlock(b, ds)
    ensures DirentCount(b) == Ok(|ds|) && DecodePrefix(b, |ds|, |ds|) == Ok(ds)
  {
    StandsPrefix(b, |ds|, ds);
  }

  /** Which blocks are taken, and what is read from them. */
  lemma {:induction false} BlockMeans(b: bytes, ds: seq<Dirent>)
    ensures DecodeBlock(b) == Ok(ds) <==> IsBlock(b, ds)
  {
    if IsBlock(b, ds) {
      BlockDecoded(b, ds);
    } else if DecodeBlock(b).Ok? {
      DecodedIsBlock(b, DirentCount(b).value);
    }
  }

  lemma {:induction false} ErrorStays(b: bytes, n: nat, k: nat, m: nat)
    requires k <= m <= n && 12 * n <= |b| && DecodePrefix(b, n, k).Err?
    ensures DecodePrefix(b, n, m) == DecodePrefix(b, n, k)
    decreases m
  {
    if k < m { ErrorStays(b, n, k, m - 1); }
  }

  /** Reads a block entry by entry; nothing is read outside it. */
  method ReadBlock(b: bytes) returns (r: Result<seq<Dirent>, DecodeError>)
    ensures r == DecodeBlock(b)
  {
    var count := DirentCount(b);
    if count.Err? { return Err(count.error); }
    var n, ds := count.value, [];
    for i := 0 to n
      invariant DecodePrefix(b, n, i) == Ok(ds)
    {
      var e := DecodeEntry(b, n, i);
      if e.Err? {
        ErrorStays(b, n, i + 1, n);
        return Err(e.error);
      }
      ds := ds + [e.value];
    }
    return Ok(ds);
  }

  lemma {:induction false} PrefixRoundTrip(b: bytes, ds: seq<Dirent>, k: nat)
    requires Holds(b, ds) && EntriesOk(ds) && k <= |ds| && ChunkSize(ds) <= 4096 && 12 * |ds| <= |b|
    ensures DecodePrefix(b, |ds|, k) == Ok(ds[..k])
  {
    if k > 0 {
      PrefixRoundTrip(b, ds, k - 1);
      EntryRoundTrip(b, ds, k - 1);
      assert ds[..k] == ds[..k - 1] + [ds[k - 1]];
    }
  }

  /** Decoding an encoded, zero-padded block gives its entries back. */
  lemma {:induction false} BlockRoundTrip(b: bytes, ds: seq<Dirent>)
    requires Holds(b, ds) && EntriesOk(ds) && ds != [] && ChunkSize(ds) <= 4096
    ensures DecodeBlock(b) == Ok(ds)
  {
    CountRoundTrip(b, ds);
    ChunkFits(b, ds);
    PrefixRoundTrip(b, ds, |ds|);
    assert ds[..|ds|] == ds;
  }
}
