/** One line of a dump file: printing the fields of a node and parsing them back. */
module DumpLine {
  import opened Common
  import opened Bytes
  import opened DumpText
  import opened Xattrs
  import opened NodeAttrs

  /** The fields of a node; the digest is in hexadecimal. */
  datatype Record = Record(path: bytes, size: nat, mode: nat, nlink: nat, uid: nat, gid: nat, rdev: nat, sec: int,
                         nsec: nat, payload: Option<bytes>, content: Option<bytes>, digest: Option<bytes>,
                         xattrs: seq<Xattr>)

  /** What a line says: a node, or a further name for one, of which only the type and the target matter. */
  datatype Parsed = Node(e: Record) | Hardlink(path: bytes, mode: nat, target: Option<bytes>)

  const AT: byte := 0x40
  const DOT: byte := 0x2e

  // ---------- printing ----------

  function OptionalText(v: Option<bytes>): bytes {
    if v.None? then [DASH] else Escaped(v.value, false, true)
  }

  function DigestText(d: Option<bytes>): bytes {
    if d.None? then [DASH] else d.value
  }

  function TimeText(sec: int, nsec: nat): bytes {
    SignedDigits(sec) + [DOT] + Digits(nsec, 10)
  }

  function ModeText(mode: nat, isLink: bool): bytes {
    (if isLink then [AT] else []) + Digits(mode, 8)
  }

  /** The fixed fields; for a hard link `link` is the path of its target. */
  function FieldTexts(e: Record, link: Option<bytes>): (f: seq<bytes>)
    ensures |f| == 11
  {
    [Escaped(e.path, false, false), Digits(e.size, 10), ModeText(e.mode, link.Some?), Digits(e.nlink, 10),
     Digits(e.uid, 10), Digits(e.gid, 10), Digits(e.rdev, 10), TimeText(e.sec, e.nsec),
     OptionalText(if link.Some? then link else e.payload),
     OptionalText(e.content), DigestText(e.digest)]
  }

  function AttrText(x: Xattr): bytes {
    Escaped(x.key, true, false) + [EQUALS] + Escaped(x.value, true, false)
  }

  /** Attributes, separated by spaces. */
  function AttrTexts(xs: seq<Xattr>): bytes {
    if xs == [] then [] else if |xs| == 1 then AttrText(xs[0]) else AttrText(xs[0]) + [SPACE] + AttrTexts(xs[1..])
  }

  /** Fields and, if there is any, more text, separated by spaces. */
  function Joined(fs: seq<bytes>, t: bytes): bytes
    requires fs != []
  {
    if |fs| == 1 then if t == [] then fs[0] else fs[0] + [SPACE] + t
    else fs[0] + [SPACE] + Joined(fs[1..], t)
  }

  function LineText(e: Record, link: Option<bytes>): bytes {
    Joined(FieldTexts(e, link), AttrTexts(e.xattrs))
  }

  // ---------- parsing ----------

  datatype Fields = Fields(fs: seq<bytes>, rest: bytes)

  function SplitFields(line: bytes, n: nat): (r: Fields)
    ensures |r.fs| == n
    decreases n
  {
    if n == 0 then Fields([], line) else
    var s := SplitAt(line, SPACE);
    var r := SplitFields(s.rest, n - 1);
    Fields([s.part] + r.fs, r.rest)
  }

  ghost function Behind(fs: seq<bytes>, f: Fields): Fields { Fields(fs + f.fs, f.rest) }

  lemma {:induction false} SplitMore(fs: seq<bytes>, line: bytes, n: nat)
    requires n > 0
    ensures var s := SplitAt(line, SPACE);
            Behind(fs, SplitFields(line, n)) == Behind(fs + [s.part], SplitFields(s.rest, n - 1))
  {
    var s := SplitAt(line, SPACE);
    var q := SplitFields(s.rest, n - 1);
    assert fs + ([s.part] + q.fs) == fs + [s.part] + q.fs;
  }

  method SplitLine(line: bytes, n: nat) returns (r: Fields)
    ensures r == SplitFields(line, n)
  {
    var fs, rest := [], line;
    for i := 0 to n
      invariant SplitFields(line, n) == Behind(fs, SplitFields(rest, n - i))
    {
      var s := SplitOff(rest, SPACE);
      SplitMore(fs, rest, n - i);
      fs, rest := fs + [s.part], s.rest;
    }
    assert fs + [] == fs;
    return Fields(fs, rest);
  }

  /** What a C string holds: everything before the first zero byte. */
  function CString(s: bytes): (t: bytes)
    ensures 0 !in t
  {
    if s == [] || s[0] == 0 then [] else [s[0]] + CString(s[1..])
  }

  lemma {:induction false} CStringSame(s: bytes)
    requires 0 !in s
    ensures CString(s) == s
  {
    if s != [] { CStringSame(s[1..]); }
  }

  function ParseOptional(t: bytes): Result<Option<bytes>, ParseError> {
    if t == [DASH] then Ok(None) else
    var r := Unescape(t);
    if r.Err? then Err(r.error) else Ok(Some(r.value))
  }

  function ParseOptionalString(t: bytes): Result<Option<bytes>, ParseError> {
    var r := ParseOptional(t);
    if r.Ok? && r.value.Some? then Ok(Some(CString(r.value.value))) else r
  }

  function ParseAttr(t: bytes): (r: Result<Xattr, ParseError>) {
    var s := SplitAt(t, EQUALS);
    if s.partial then Err(NoEquals) else
    var name, value := Unescape(s.part), Unescape(s.rest);
    if name.Err? then Err(name.error) else if value.Err? then Err(value.error) else
      Ok(Xattr(CString(name.value), value.value))
  }

  lemma {:induction false} AttrErrors(t: bytes)
    ensures ParseAttr(t).Err? ==> ParseAttr(t).error in {NoEquals, NoCharacter, NoHex, BadHex, BadEscape}
  {
    var s := SplitAt(t, EQUALS);
    UnescapeErrors(s.part);
    UnescapeErrors(s.rest);
  }

  /** Sets the attributes in the text one after the other on a node that has `xs`. */
  function ParseAttrs(t: bytes, xs: seq<Xattr>): (r: Result<seq<Xattr>, ParseError>)
    decreases |t|
  {
    if t == [] then Ok(xs) else
    var s := SplitAt(t, SPACE);
    var x := ParseAttr(s.part);
    if x.Err? then Err(x.error) else
    var set' := SetOutcome(xs, x.value, Limit(true));
    if set'.Err? then Err(CantSetXattr) else
    assert |s.rest| < |t| by { if !s.partial { assert |s.part + [SPACE] + s.rest| == |t|; } }
    ParseAttrs(s.rest, set'.value)
  }

  method ReadAttrs(t: bytes, node: Attrs, ample: bool) returns (error: Option<ParseError>)
    requires node.Valid() && node.base == 0
    modifies node
    ensures node.Valid() && node.base == 0
    ensures error != Some(OutOfMemory) ==>
              ParseAttrs(t, old(node.xattrs)) == if error.None? then Ok(node.xattrs) else Err(error.value)
    ensures ample ==> error != Some(OutOfMemory)
  {
    var rest := t;
    while rest != []
      invariant node.Valid() && node.base == 0 && ParseAttrs(t, old(node.xattrs)) == ParseAttrs(rest, node.xattrs)
      decreases |rest|
    {
      var s := SplitOff(rest, SPACE);
      var x := ParseAttr(s.part);
      AttrErrors(s.part);
      if x.Err? { return Some(x.error); }
      var e := node.Set(x.value.key, x.value.value, true, ample);
      if e == Some(NoMemory) { return Some(OutOfMemory); }
      if e.Some? { return Some(CantSetXattr); }
      assert |s.rest| < |rest| by { if !s.partial { assert |s.part + [SPACE] + s.rest| == |rest|; } }
      rest := s.rest;
    }
    return None;
  }

  function ParseTime(t: bytes): Result<(int, nat), ParseError> {
    var s := SplitAt(t, DOT);
    var sec, nsec := ParseInt(s.part, 10), ParseInt(s.rest, 10);
    if sec.Err? then Err(sec.error) else if nsec.Err? then Err(nsec.error) else
      Ok((Signed64(sec.value), Low32(nsec.value)))
  }

  /** Storing into a 32-bit field. */
  function Low32(n: nat): (r: nat)
    ensures r < 0x1_0000_0000 && (n < 0x1_0000_0000 ==> r == n)
  {
    if n < 0x1_0000_0000 then n else Low32(n - 0x1_0000_0000)
  }

  datatype Owner = Owner(uid: nat, gid: nat, rdev: nat)

  /** A bad group or device number is only noticed when the user number is zero. */
  function ParseOwner(uidText: bytes, gidText: bytes, rdevText: bytes): (r: Result<Owner, ParseError>) {
    var uid, gid, rdev := ParseInt(uidText, 10), ParseInt(gidText, 10), ParseInt(rdevText, 10);
    if uid.Err? then Err(uid.error) else
    if gid.Err? && uid.value == 0 then Err(gid.error) else if rdev.Err? && uid.value == 0 then Err(rdev.error) else
    Ok(Owner(Low32(uid.value), if gid.Ok? then Low32(gid.value) else 0, if rdev.Ok? then rdev.value else 0))
  }

  datatype Numbers = Numbers(size: nat, nlink: nat, owner: Owner, sec: int, nsec: nat)

  function ParseNumbers(fs: seq<bytes>): (r: Result<Numbers, ParseError>)
    requires |fs| == 11
  {
    var size, nlink := ParseInt(fs[1], 10), ParseInt(fs[3], 10);
    var owner, time := ParseOwner(fs[4], fs[5], fs[6]), ParseTime(fs[7]);
    if size.Err? then Err(size.error) else if nlink.Err? then Err(nlink.error) else
    if owner.Err? then Err(owner.error) else if time.Err? then Err(time.error) else
    Ok(Numbers(size.value, Low32(nlink.value), owner.value, time.value.0, time.value.1))
  }

  datatype Texts = Texts(payload: Option<bytes>, content: Option<bytes>, digest: Option<bytes>)

  function ParseTexts(fs: seq<bytes>, size: nat): (r: Result<Texts, ParseError>)
    requires |fs| == 11
  {
    var payload, content, digest := ParseOptionalString(fs[8]), ParseOptional(fs[9]), ParseOptionalString(fs[10]);
    if payload.Err? then Err(payload.error) else if content.Err? then Err(content.error) else
    if content.value.Some? && |content.value.value| != size then Err(BadSize) else
    if digest.Err? then Err(digest.error) else Ok(Texts(payload.value, content.value, digest.value))
  }

  function Type(mode: nat): nat { mode / 4096 % 16 }

  const FIFO: nat := 1
  const CHAR: nat := 2
  const DIRECTORY: nat := 4
  const BLOCK: nat := 6
  const REGULAR: nat := 8
  const SYMLINK: nat := 10
  const SOCKET: nat := 12

  predicate ModeOk(mode: nat) { Type(mode) in {FIFO, CHAR, DIRECTORY, BLOCK, REGULAR, SYMLINK, SOCKET} }

  predicate IsDevice(mode: nat) { Type(mode) == CHAR || Type(mode) == BLOCK }

  const PATH_MAX: nat := 4096
  const CONTENT_MAX: nat := 5000

  /** A symlink needs a target, which also gives its size; its content is ignored unless the parser is strict. */
  function SetSymlink(size: nat, t: Texts, strict: bool): (r: Result<(nat, Texts), ParseError>) {
    if t.payload.None? || t.payload.value == [] || |t.payload.value| >= PATH_MAX then Err(BadSymlink) else
    if strict && size != |t.payload.value| then Err(BadSize) else
    if strict && t.content.Some? && t.content.value != [] then Err(BadSymlink) else
    Ok((|t.payload.value|, t.(content := None)))
  }

  /** Empty content is the same as none. */
  function SetContent(size: nat, t: Texts): (r: Result<(nat, Texts), ParseError>) {
    if t.payload.Some? && |t.payload.value| >= PATH_MAX then Err(BadPayload) else
    if t.content.Some? && |t.content.value| > CONTENT_MAX then Err(ContentTooLong) else
    Ok((size, if t.content == Some([]) then t.(content := None) else t))
  }

  /** The fields of a node that is not a hard link, before its attributes. */
  function ParseBody(fs: seq<bytes>, path: bytes, mode: nat, strict: bool): (r: Result<Record, ParseError>)
    requires |fs| == 11
    ensures r.Ok? ==> r.value.xattrs == []
  {
    var n := ParseNumbers(fs);
    if n.Err? then Err(n.error) else
    var t := ParseTexts(fs, n.value.size);
    if t.Err? then Err(t.error) else
    if !IsDevice(mode) && strict && n.value.owner.rdev != 0 then Err(BadDevice) else
    var b := if Type(mode) == SYMLINK then SetSymlink(n.value.size, t.value, strict)
             else SetContent(n.value.size, t.value);
    if b.Err? then Err(b.error) else
    var rdev := if IsDevice(mode) then Low32(n.value.owner.rdev) else 0;
    Ok(Record(path, b.value.0, mode, n.value.nlink, n.value.owner.uid, n.value.owner.gid, rdev, n.value.sec,
             n.value.nsec,
             b.value.1.payload, b.value.1.content, b.value.1.digest, []))
  }

  function WithAttrs(e: Result<Record, ParseError>, rest: bytes): (r: Result<Parsed, ParseError>) {
    if e.Err? then Err(e.error) else
    if |rest| > 0xffff then Err(TooManyXattrs) else
    var xs := ParseAttrs(rest, []);
    if xs.Err? then Err(xs.error) else Ok(Node(e.value.(xattrs := xs.value)))
  }

  function ParseNode(fs: seq<bytes>, rest: bytes, path: bytes, mode: nat, strict: bool): (r: Result<Parsed, ParseError>)
    requires |fs| == 11
  {
    WithAttrs(ParseBody(fs, path, mode, strict), rest)
  }

  function ParseFields(fs: seq<bytes>, rest: bytes, strict: bool): (r: Result<Parsed, ParseError>)
    requires |fs| == 11
  {
    var path := Unescape(fs[0]);
    if path.Err? then Err(path.error) else if CString(path.value) == [] then Err(EmptyPath) else
    var isLink := fs[2] != [] && fs[2][0] == AT;
    var field := ParseInt(if isLink then fs[2][1..] else fs[2], 8);
    if field.Err? then Err(field.error) else
    var mode := Low32(field.value);
    if !ModeOk(mode) then Err(BadMode) else
    if !isLink then ParseNode(fs, rest, CString(path.value), mode, strict) else
    if Type(mode) == DIRECTORY then Err(DirectoryLink) else
    var target := ParseOptionalString(fs[8]);
    if target.Err? then Err(target.error) else Ok(Hardlink(CString(path.value), mode, target.value))
  }

  /** One line, but for putting the node under its parent. */
  function ParseLine(line: bytes, strict: bool): (r: Result<Parsed, ParseError>) {
    if 0 in line then Err(EmbeddedNul) else
    var f := SplitFields(line, 11);
    ParseFields(f.fs, f.rest, strict)
  }

  // ---------- reading back ----------

  lemma {:induction false} FieldsBack(fs: seq<bytes>, t: bytes)
    requires fs != [] && forall i {:trigger fs[i]} :: 0 <= i < |fs| ==> SPACE !in fs[i]
    ensures SplitFields(Joined(fs, t), |fs|) == Fields(fs, t)
    decreases |fs|
  {
    if |fs| == 1 {
      if t == [] { SplitNone(fs[0], SPACE); } else { SplitFound(fs[0], SPACE, t); }
      assert fs == [fs[0]] + [];
      assert SplitFields(t, 0) == Fields([], t);
    } else {
      SplitFound(fs[0], SPACE, Joined(fs[1..], t));
      FieldsBack(fs[1..], t);
      assert fs == [fs[0]] + fs[1..];
    }
  }

  lemma {:induction false} AttrBack(x: Xattr)
    requires 0 !in x.key
    ensures ParseAttr(AttrText(x)) == Ok(x) && SPACE !in AttrText(x) && AttrText(x) != [] && 0 !in AttrText(x)
  {
    var name, value := Escaped(x.key, true, false), Escaped(x.value, true, false);
    EscapedIsClean(x.key, true, false);
    EscapedIsClean(x.value, true, false);
    CleanLacks(name, true);
    CleanLacks(value, true);
    SplitFound(name, EQUALS, value);
    UnescapeEscaped(x.key, true, false);
    UnescapeEscaped(x.value, true, false);
    CStringSame(x.key);
  }

  /** The attributes of a node: different names, which are C strings. */
  ghost predicate AttrsOk(xs: seq<Xattr>) {
    DistinctKeys(xs) && forall i {:trigger xs[i]} :: 0 <= i < |xs| ==> 0 !in xs[i].key
  }

  lemma {:induction false} AttrsClean(xs: seq<Xattr>)
    requires AttrsOk(xs)
    ensures 0 !in AttrTexts(xs) && (xs != [] ==> AttrTexts(xs) != [])
    decreases |xs|
  {
    if xs != [] {
      AttrBack(xs[0]);
      AttrsClean(xs[1..]);
    }
  }

  /** The first attribute of the text is set, then the others. */
  lemma {:induction false} AttrsStep(ys: seq<Xattr>, xs: seq<Xattr>)
    requires xs != [] && AttrsOk(xs)
    ensures var o := SetOutcome(ys, xs[0], Limit(true));
            ParseAttrs(AttrTexts(xs), ys) ==
            if o.Err? then Err(CantSetXattr) else ParseAttrs(AttrTexts(xs[1..]), o.value)
  {
    AttrBack(xs[0]);
    if |xs| == 1 {
      SplitNone(AttrText(xs[0]), SPACE);
      assert AttrTexts(xs[1..]) == [];
    } else {
      SplitFound(AttrText(xs[0]), SPACE, AttrTexts(xs[1..]));
    }
  }

  /** What the parser lets a node have: names of 1 to 255 bytes, and the total for input from outside. */
  predicate AttrsFit(xs: seq<Xattr>) {
    Total(xs) <= Limit(true) && forall i {:trigger xs[i]} :: 0 <= i < |xs| ==> 1 <= |xs[i].key| <= 255
  }

  lemma {:induction false} TotalGrows(xs: seq<Xattr>, k: nat)
    requires k <= |xs|
    ensures Total(xs[..k]) <= Total(xs) && (k < |xs| ==> |xs[k].value| <= Total(xs))
  {
    ChargesJoin(xs[..k], xs[k..]);
    assert xs == xs[..k] + xs[k..];
    if k < |xs| {
      ChargesJoin([xs[k]], xs[k + 1..]);
      assert xs[k..] == [xs[k]] + xs[k + 1..];
      ChargesAppend([], xs[k]);
      assert [] + [xs[k]] == [xs[k]];
    }
  }

  /** A name that is new is added at the end, when it fits. */
  lemma {:induction false} SetNew(xs: seq<Xattr>, k: nat)
    requires AttrsOk(xs) && k < |xs|
    ensures var o := SetOutcome(xs[..k], xs[k], Limit(true));
            if 1 <= |xs[k].key| <= 255 && |xs[k].value| <= 0xffff && Total(xs[..k + 1]) <= Limit(true) then o ==
              Ok(xs[..k + 1]) else o.Err?
  {
    assert Position(xs[..k], xs[k].key) == k;
    assert xs[..k + 1] == xs[..k] + [xs[k]];
  }

  lemma {:induction false} AttrsFrom(xs: seq<Xattr>, k: nat)
    requires AttrsOk(xs) && k <= |xs| && AttrsFit(xs[..k])
    ensures var r := ParseAttrs(AttrTexts(xs[k..]), xs[..k]);
            if AttrsFit(xs) then r == Ok(xs) else r == Err(CantSetXattr)
    decreases |xs| - k
  {
    TotalGrows(xs, k);
    if k == |xs| {
      assert xs[..k] == xs;
    } else {
      var rest := xs[k..];
      assert AttrsOk(rest);
      AttrsStep(xs[..k], rest);
      SetNew(xs, k);
      TotalGrows(xs, k + 1);
      if SetOutcome(xs[..k], xs[k], Limit(true)).Ok? {
        FitNext(xs, k);
        assert rest[1..] == xs[k + 1..];
        AttrsFrom(xs, k + 1);
      }
    }
  }

  lemma {:induction false} FitNext(xs: seq<Xattr>, k: nat)
    requires k < |xs| && AttrsFit(xs[..k]) && Total(xs[..k + 1]) <= Limit(true) && 1 <= |xs[k].key| <= 255
    ensures AttrsFit(xs[..k + 1])
  {
    var a, b := xs[..k], xs[..k + 1];
    forall i | 0 <= i < |b|
      ensures 1 <= |b[i].key| <= 255
    {
      if i < k { assert b[i] == a[i]; }
    }
  }

  lemma {:induction false} AttrsBack(xs: seq<Xattr>)
    requires AttrsOk(xs)
    ensures ParseAttrs(AttrTexts(xs), []) == if AttrsFit(xs) then Ok(xs) else Err(CantSetXattr)
  {
    assert xs[..0] == [] && xs[0..] == xs;
    AttrsFrom(xs, 0);
  }

  lemma {:induction false} OptionalBack(v: Option<bytes>)
    ensures ParseOptional(OptionalText(v)) == Ok(v) && Clean(OptionalText(v), false)
  {
    if v.Some? {
      NotAbsent(v.value, false);
      UnescapeEscaped(v.value, false, true);
      EscapedIsClean(v.value, false, true);
    }
  }

  lemma {:induction false} TimeBack(sec: int, nsec: nat)
    requires -0x8000_0000_0000_0000 <= sec < 0x8000_0000_0000_0000 && nsec < 0x1_0000_0000
    ensures ParseTime(TimeText(sec, nsec)) == Ok((sec, nsec)) && Clean(TimeText(sec, nsec), false)
  {
    ParseSigned(sec);
    ParseDigits(nsec, 10);
    SplitFound(SignedDigits(sec), DOT, Digits(nsec, 10));
  }

  ghost predicate HexText(d: bytes) {
    |d| == 64 && forall i {:trigger d[i]} :: 0 <= i < |d| ==> HexDigit(d[i]) >= 0
  }

  /** What a node can hold: C integers and strings, content as long as its size and never empty, a whole digest. */
  ghost predicate EntryOk(e: Record) {
    && e.path != [] && 0 !in e.path && e.size < 0x1_0000_0000_0000_0000 && e.rdev < 0x1_0000_0000
    && e.mode < 0x1_0000_0000 && e.nlink < 0x1_0000_0000 && e.uid < 0x1_0000_0000 && e.gid < 0x1_0000_0000
    && -0x8000_0000_0000_0000 <= e.sec < 0x8000_0000_0000_0000 && e.nsec < 0x1_0000_0000
    && (e.payload.Some? ==> 0 !in e.payload.value)
    && (e.content.Some? ==> 0 < |e.content.value| == e.size)
    && (e.digest.Some? ==> HexText(e.digest.value)) && AttrsOk(e.xattrs)
  }

  lemma {:induction false} PlainText(d: bytes)
    requires forall i {:trigger d[i]} :: 0 <= i < |d| ==> HexDigit(d[i]) >= 0
    ensures EscapeBytes(d, false) == d
  {
    if d != [] {
      PlainText(d[..|d| - 1]);
      assert d == d[..|d| - 1] + [d[|d| - 1]];
    }
  }

  lemma {:induction false} StringBack(v: Option<bytes>)
    requires v.Some? ==> 0 !in v.value
    ensures ParseOptionalString(OptionalText(v)) == Ok(v)
  {
    OptionalBack(v);
    if v.Some? { CStringSame(v.value); }
  }

  lemma {:induction false} DigestBack(d: Option<bytes>)
    requires d.Some? ==> HexText(d.value)
    ensures ParseOptionalString(DigestText(d)) == Ok(d) && Clean(DigestText(d), false)
  {
    if d.Some? {
      PlainText(d.value);
      OptionalBack(d);
      StringBack(d);
    }
  }

  lemma {:induction false} OwnerBack(uid: nat, gid: nat, rdev: nat)
    requires uid < 0x1_0000_0000 && gid < 0x1_0000_0000 && rdev < 0x1_0000_0000
    ensures ParseOwner(Digits(uid, 10), Digits(gid, 10), Digits(rdev, 10)) == Ok(Owner(uid, gid, rdev))
  {
    ParseDigits(uid, 10);
    ParseDigits(gid, 10);
    ParseDigits(rdev, 10);
  }

  lemma {:induction false} NumbersBack(e: Record, link: Option<bytes>)
    requires EntryOk(e)
    ensures ParseNumbers(FieldTexts(e, link)) ==
              Ok(Numbers(e.size, e.nlink, Owner(e.uid, e.gid, e.rdev), e.sec, e.nsec))
  {
    ParseDigits(e.size, 10);
    ParseDigits(e.nlink, 10);
    OwnerBack(e.uid, e.gid, e.rdev);
    TimeBack(e.sec, e.nsec);
  }

  lemma {:induction false} TextsBack(e: Record)
    requires EntryOk(e)
    ensures ParseTexts(FieldTexts(e, None), e.size) == Ok(Texts(e.payload, e.content, e.digest))
  {
    StringBack(e.payload);
    OptionalBack(e.content);
    DigestBack(e.digest);
  }

  lemma {:induction false} FieldClean(e: Record, link: Option<bytes>, i: nat)
    requires EntryOk(e) && i < 11
    ensures Clean(FieldTexts(e, link)[i], false)
  {
    if i == 0 {
      EscapedIsClean(e.path, false, false);
    } else if i == 7 {
      TimeBack(e.sec, e.nsec);
    } else if i == 8 {
      OptionalBack(if link.Some? then link else e.payload);
    } else if i == 9 {
      OptionalBack(e.content);
    } else if i == 10 {
      DigestBack(e.digest);
    } else {
      NumberClean(e, link, i);
    }
  }

  lemma {:induction false} NumberClean(e: Record, link: Option<bytes>, i: nat)
    requires 1 <= i <= 6
    ensures Clean(FieldTexts(e, link)[i], false)
  {
    if i == 2 { ClearMark(Digits(e.mode, 8)); }
  }

  lemma {:induction false} ClearMark(d: bytes)
    requires Clean(d, true)
    ensures Clean([] + d, false) && Clean([AT] + d, false)
  {
  }

  lemma {:induction false} JoinedNoNul(fs: seq<bytes>, t: bytes)
    requires fs != [] && 0 !in t && forall i {:trigger fs[i]} :: 0 <= i < |fs| ==> 0 !in fs[i]
    ensures 0 !in Joined(fs, t)
    decreases |fs|
  {
    if |fs| > 1 { JoinedNoNul(fs[1..], t); }
  }

  lemma {:induction false} Marked(d: bytes)
    ensures ([AT] + d)[1..] == d && [] + d == d
  {
  }

  lemma {:induction false} ModeBack(mode: nat, isLink: bool)
    requires mode < 0x1_0000_0000
    ensures var f := ModeText(mode, isLink);
            f != [] && (f[0] == AT <==> isLink) && ParseInt(if isLink then f[1..] else f, 8) == Ok(mode)
  {
    ParseDigits(mode, 8);
    AllDigits(mode, 8);
    Marked(Digits(mode, 8));
  }

  lemma {:induction false} LineSplits(e: Record, link: Option<bytes>)
    requires EntryOk(e)
    ensures 0 !in LineText(e, link)
    ensures SplitFields(LineText(e, link), 11) == Fields(FieldTexts(e, link), AttrTexts(e.xattrs))
  {
    var fs := FieldTexts(e, link);
    forall i | 0 <= i < |fs|
      ensures SPACE !in fs[i] && 0 !in fs[i]
    {
      FieldClean(e, link, i);
      CleanLacks(fs[i], false);
    }
    AttrsClean(e.xattrs);
    FieldsBack(fs, AttrTexts(e.xattrs));
    JoinedNoNul(fs, AttrTexts(e.xattrs));
  }

  lemma {:induction false} LineToFields(line: bytes, fs: seq<bytes>, rest: bytes, strict: bool)
    requires |fs| == 11 && 0 !in line && SplitFields(line, 11) == Fields(fs, rest)
    ensures ParseLine(line, strict) == ParseFields(fs, rest, strict)
  {
  }

  lemma {:induction false} FieldsToLink(fs: seq<bytes>, rest: bytes, path: bytes, mode: nat, target: bytes,
                                    strict: bool)
    requires |fs| == 11 && path != [] && 0 !in path && Unescape(fs[0]) == Ok(path)
    requires mode < 0x1_0000_0000 && fs[2] == ModeText(mode, true) && 0 !in target
    requires fs[8] == OptionalText(Some(target))
    ensures ParseFields(fs, rest, strict) ==
            if !ModeOk(mode) then Err(BadMode) else
            if Type(mode) == DIRECTORY then Err(DirectoryLink) else Ok(Hardlink(path, mode, Some(target)))
  {
    CStringSame(path);
    ModeBack(mode, true);
    StringBack(Some(target));
  }

  /** What a node must be like for its line to be taken: the checks of the parser, as a caller could make them. */
  ghost predicate Accepted(e: Record) {
    && e.mode / 0x1000 % 16 in {1, 2, 4, 6, 8, 10, 12} && BodyAccepted(e)
    && |AttrTexts(e.xattrs)| <= 65535 && AttrsFit(e.xattrs)
  }

  /** Only devices have a number, targets and paths are below 4096 bytes, contents at most 5000. */
  ghost predicate BodyAccepted(e: Record) {
    && (e.rdev == 0 || e.mode / 0x1000 % 16 in {2, 6})
    && (e.payload.Some? ==> |e.payload.value| < 4096) && (e.content.Some? ==> |e.content.value| <= 5000)
    && (e.mode / 0x1000 % 16 == 10 ==> e.payload.Some? && 0 < |e.payload.value| == e.size && e.content.None?)
  }

  lemma {:induction false} BodyBack(e: Record, strict: bool)
    requires EntryOk(e)
    ensures ParseBody(FieldTexts(e, None), e.path, e.mode, strict) == Ok(e.(xattrs := [])) <==> BodyAccepted(e)
  {
    NumbersBack(e, None);
    TextsBack(e);
  }

  lemma {:induction false} AttrsOnto(b: Result<Record, ParseError>, e: Record)
    requires AttrsOk(e.xattrs) && (b.Ok? ==> b.value.xattrs == [])
    ensures WithAttrs(b, AttrTexts(e.xattrs)) == Ok(Node(e)) <==>
            b == Ok(e.(xattrs := [])) && |AttrTexts(e.xattrs)| <= 0xffff && AttrsFit(e.xattrs)
  {
    AttrsBack(e.xattrs);
    assert e.(xattrs := []).(xattrs := e.xattrs) == e;
    if b.Ok? { assert b.value.(xattrs := e.xattrs).(xattrs := []) == b.value; }
  }

  lemma {:induction false} NodeBack(e: Record, strict: bool)
    requires EntryOk(e)
    ensures ParseNode(FieldTexts(e, None), AttrTexts(e.xattrs), e.path, e.mode, strict) == Ok(Node(e)) <==>
            BodyAccepted(e) && |AttrTexts(e.xattrs)| <= 0xffff && AttrsFit(e.xattrs)
  {
    BodyBack(e, strict);
    AttrsOnto(ParseBody(FieldTexts(e, None), e.path, e.mode, strict), e);
  }

  lemma {:induction false} FieldsToNode(fs: seq<bytes>, rest: bytes, path: bytes, mode: nat, strict: bool)
    requires |fs| == 11 && path != [] && 0 !in path && Unescape(fs[0]) == Ok(path)
    requires mode < 0x1_0000_0000 && fs[2] == ModeText(mode, false)
    ensures ParseFields(fs, rest, strict) == if ModeOk(mode) then ParseNode(fs, rest, path, mode, strict) else
              Err(BadMode)
  {
    CStringSame(path);
    ModeBack(mode, false);
  }

  lemma {:induction false} NodeFields(e: Record, fs: seq<bytes>, rest: bytes, strict: bool)
    requires EntryOk(e) && fs == FieldTexts(e, None) && rest == AttrTexts(e.xattrs)
    ensures ParseFields(fs, rest, strict) == Ok(Node(e)) <==> Accepted(e)
  {
    UnescapeEscaped(e.path, false, false);
    FieldsToNode(fs, rest, e.path, e.mode, strict);
    NodeBack(e, strict);
  }

  /**
   A printed line parses back to the node it was printed for exactly when the node passes the checks, whether the
   parser is strict or not.
   */
  lemma {:induction false} LineRoundTrip(e: Record, strict: bool)
    requires EntryOk(e)
    ensures ParseLine(LineText(e, None), strict) == Ok(Node(e)) <==> Accepted(e)
  {
    var line, fs, rest := LineText(e, None), FieldTexts(e, None), AttrTexts(e.xattrs);
    LineSplits(e, None);
    LineToFields(line, fs, rest, strict);
    NodeFields(e, fs, rest, strict);
  }

  // ---------- bad numbers ----------

  function Repair(t: bytes): bytes { if ParseInt(t, 10).Ok? then t else Digits(0, 10) }

  /** The same fields with 0 in place of a group or a device that is no number. */
  function Repaired(fs: seq<bytes>): (r: seq<bytes>)
    requires |fs| == 11
    ensures |r| == 11
  {
    fs[5 := Repair(fs[5])][6 := Repair(fs[6])]
  }

  predicate NumbersGood(fs: seq<bytes>)
    requires |fs| == 11
  {
    ParseInt(fs[5], 10).Ok? && ParseInt(fs[6], 10).Ok?
  }

  predicate IsLinkLine(fs: seq<bytes>)
    requires |fs| == 11
  {
    fs[2] != [] && fs[2][0] == AT
  }

  lemma {:induction false} OwnerRepaired(fs: seq<bytes>)
    requires |fs| == 11 && ParseInt(fs[4], 10).Ok?
    ensures ParseInt(fs[4], 10).value != 0 || NumbersGood(fs) ==> ParseNumbers(fs) == ParseNumbers(Repaired(fs))
    ensures ParseInt(fs[4], 10).value == 0 && !NumbersGood(fs) ==> ParseNumbers(fs).Err?
  {
    ParseDigits(0, 10);
  }

  lemma {:induction false} BodyRepaired(fs: seq<bytes>, path: bytes, mode: nat, strict: bool)
    requires |fs| == 11 && ParseInt(fs[4], 10).Ok?
    ensures ParseInt(fs[4], 10).value != 0 || NumbersGood(fs) ==>
              ParseBody(fs, path, mode, strict) == ParseBody(Repaired(fs), path, mode, strict)
    ensures ParseInt(fs[4], 10).value == 0 && !NumbersGood(fs) ==> ParseBody(fs, path, mode, strict).Err?
  {
    OwnerRepaired(fs);
    var n := ParseNumbers(fs);
    if n.Ok? { assert ParseTexts(fs, n.value.size) == ParseTexts(Repaired(fs), n.value.size); }
  }

  lemma {:induction false} FieldsRepaired(fs: seq<bytes>, rest: bytes, strict: bool)
    requires |fs| == 11 && !IsLinkLine(fs) && ParseInt(fs[4], 10).Ok?
    ensures ParseInt(fs[4], 10).value != 0 || NumbersGood(fs) ==>
              ParseFields(fs, rest, strict) == ParseFields(Repaired(fs), rest, strict)
    ensures ParseInt(fs[4], 10).value == 0 && !NumbersGood(fs) ==> ParseFields(fs, rest, strict).Err?
  {
    var path, field := Unescape(fs[0]), ParseInt(fs[2], 8);
    if path.Ok? && field.Ok? {
      BodyRepaired(fs, CString(path.value), Low32(field.value), strict);
    }
  }

  /**
   A line for a node whose group or device is no number is refused exactly when its user is 0, however that is
   written, or when the line with 0 in their place is refused; otherwise it means the same as that line.
   */
  lemma {:induction false} BadNumberNoticed(line: bytes, fs: seq<bytes>, rest: bytes, strict: bool)
    requires |fs| == 11 && 0 !in line && SplitFields(line, 11) == Fields(fs, rest)
    requires !IsLinkLine(fs) && !NumbersGood(fs) && ParseInt(fs[4], 10).Ok?
    ensures ParseLine(line, strict).Err? <==>
            ParseInt(fs[4], 10).value == 0 || ParseFields(Repaired(fs), rest, strict).Err?
    ensures ParseLine(line, strict).Ok? ==> ParseLine(line, strict) == ParseFields(Repaired(fs), rest, strict)
  {
    LineToFields(line, fs, rest, strict);
    FieldsRepaired(fs, rest, strict);
  }

  lemma {:induction false} NodeChecked(fs: seq<bytes>, rest: bytes, strict: bool)
    requires |fs| == 11 && ParseFields(fs, rest, strict).Ok? && ParseFields(fs, rest, strict).value.Node?
    ensures !IsLinkLine(fs) && ParseInt(fs[4], 10).Ok?
  {
  }

  /** Every accepted line for a node has numbers for group and device, or a user that is not 0. */
  lemma {:induction false} OwnerChecked(line: bytes, fs: seq<bytes>, rest: bytes, strict: bool)
    requires |fs| == 11 && SplitFields(line, 11) == Fields(fs, rest)
    requires ParseLine(line, strict).Ok? && ParseLine(line, strict).value.Node?
    ensures ParseInt(fs[4], 10).Ok? && (NumbersGood(fs) || ParseInt(fs[4], 10).value != 0)
  {
    LineToFields(line, fs, rest, strict);
    NodeChecked(fs, rest, strict);
    FieldsRepaired(fs, rest, strict);
  }

  lemma {:induction false} GroupLine(line: bytes, fs: seq<bytes>, rest: bytes, e0: Record, uid: nat, strict: bool)
    requires |fs| == 11 && 0 !in line && SplitFields(line, 11) == Fields(fs, rest)
    requires Repaired(fs) == FieldTexts(e0, None) && rest == AttrTexts(e0.xattrs) && EntryOk(e0) && Accepted(e0)
    requires !IsLinkLine(fs) && ParseInt(fs[4], 10) == Ok(uid) && uid != 0
    ensures ParseLine(line, strict) == Ok(Node(e0))
  {
    LineToFields(line, fs, rest, strict);
    FieldsRepaired(fs, rest, strict);
    NodeFields(e0, Repaired(fs), rest, strict);
  }

  lemma {:induction false} GroupRepaired(e: Record, gidText: bytes)
    requires EntryOk(e) && ParseInt(gidText, 10).Err?
    ensures Repaired(FieldTexts(e, None)[5 := gidText]) == FieldTexts(e.(gid := 0), None)
  {
    ParseDigits(e.rdev, 10);
  }

  lemma {:induction false} GroupFree(e: Record)
    requires EntryOk(e) && Accepted(e)
    ensures EntryOk(e.(gid := 0)) && Accepted(e.(gid := 0))
  {
  }

  lemma {:induction false} GroupOthers(e: Record, fs: seq<bytes>, gidText: bytes)
    requires EntryOk(e) && fs == FieldTexts(e, None)[5 := gidText]
    ensures !IsLinkLine(fs) && ParseInt(fs[4], 10) == Ok(e.uid)
  {
    assert fs[2] == ModeText(e.mode, false) && fs[4] == Digits(e.uid, 10);
    ParseDigits(e.uid, 10);
    ModeBack(e.mode, false);
  }

  /** The line of a node that does not belong to user 0, with any other text for the group: accepted, with group 0. */
  lemma {:induction false} BadGroupAccepted(e: Record, gidText: bytes, strict: bool)
    requires EntryOk(e) && Accepted(e) && e.uid != 0
    requires ParseInt(gidText, 10).Err? && SPACE !in gidText && 0 !in gidText
    ensures ParseLine(Joined(FieldTexts(e, None)[5 := gidText], AttrTexts(e.xattrs)), strict) == Ok(Node(e.(gid := 0)))
  {
    var fs, rest := FieldTexts(e, None)[5 := gidText], AttrTexts(e.xattrs);
    GroupSplits(e, gidText);
    GroupRepaired(e, gidText);
    GroupFree(e);
    GroupOthers(e, fs, gidText);
    GroupLine(Joined(fs, rest), fs, rest, e.(gid := 0), e.uid, strict);
  }

  lemma {:induction false} GroupSplits(e: Record, gidText: bytes)
    requires EntryOk(e) && SPACE !in gidText && 0 !in gidText
    ensures var fs, rest := FieldTexts(e, None)[5 := gidText], AttrTexts(e.xattrs);
            0 !in Joined(fs, rest) && SplitFields(Joined(fs, rest), 11) == Fields(fs, rest)
  {
    var fs := FieldTexts(e, None)[5 := gidText];
    forall i | 0 <= i < |fs|
      ensures SPACE !in fs[i] && 0 !in fs[i]
    {
      FieldClean(e, None, i);
      CleanLacks(FieldTexts(e, None)[i], false);
    }
    AttrsClean(e.xattrs);
    FieldsBack(fs, AttrTexts(e.xattrs));
    JoinedNoNul(fs, AttrTexts(e.xattrs));
  }

  lemma {:induction false} LinkFields(e: Record, fs: seq<bytes>, rest: bytes, target: bytes, strict: bool)
    requires EntryOk(e) && 0 !in target && ModeOk(e.mode) && fs == FieldTexts(e, Some(target))
    ensures ParseFields(fs, rest, strict) == Ok(Hardlink(e.path, e.mode, Some(target))) <==> Type(e.mode) != DIRECTORY
  {
    UnescapeEscaped(e.path, false, false);
    FieldsToLink(fs, rest, e.path, e.mode, target, strict);
  }

  /** A printed hard link parses back to the link, unless it is one to a directory. */
  lemma {:induction false} LinkRoundTrip(e: Record, target: bytes, strict: bool)
    requires EntryOk(e) && 0 !in target && ModeOk(e.mode)
    ensures ParseLine(LineText(e, Some(target)), strict) == Ok(Hardlink(e.path, e.mode, Some(target))) <==>
              Type(e.mode) != DIRECTORY
  {
    var line, fs, rest := LineText(e, Some(target)), FieldTexts(e, Some(target)), AttrTexts(e.xattrs);
    LineSplits(e, Some(target));
    LineToFields(line, fs, rest, strict);
    LinkFields(e, fs, rest, target, strict);
  }

  // ---------- nodes that are printed and then refused ----------

  /** A directory with one attribute. */
  function OneAttribute(value: bytes): Record {
    Record([0x2f], 0, 0x41ed, 2, 0, 0, 0, 0, 0, None, None, None, [Xattr(Ascii("user.a"), value)])
  }

  lemma {:induction false} OneAttributeOk(value: bytes)
    ensures EntryOk(OneAttribute(value)) && Total(OneAttribute(value).xattrs) == 25 + |value|
  {
    var xs := OneAttribute(value).xattrs;
    assert xs == [] + [xs[0]];
    ChargesAppend([], xs[0]);
  }

  /** A value of 40000 bytes fits into an image, and into a line, but not into the total for input from outside. */
  lemma {:induction false} LargeValueRefused(value: bytes, strict: bool)
    requires |value| == 40000
    ensures var e := OneAttribute(value);
            EntryOk(e) && Total(e.xattrs) <= Limit(false) && ParseLine(LineText(e, None), strict) != Ok(Node(e))
  {
    OneAttributeOk(value);
    LineRoundTrip(OneAttribute(value), strict);
  }

  /** 20000 zero bytes are within that total, but their escapes do not fit into a line. */
  lemma {:induction false} LongTextRefused(strict: bool)
    ensures var e := OneAttribute(Zeros(20000));
            EntryOk(e) && AttrsFit(e.xattrs) && ParseLine(LineText(e, None), strict) != Ok(Node(e))
  {
    var value := Zeros(20000);
    OneAttributeOk(value);
    ZerosEscaped(20000);
    LineRoundTrip(OneAttribute(value), strict);
  }

  lemma {:induction false} ZerosEscaped(n: nat)
    ensures |EscapeBytes(Zeros(n), true)| == 4 * n
  {
    if n > 0 {
      ZerosEscaped(n - 1);
      assert Zeros(n)[..n - 1] == Zeros(n - 1);
    }
  }
}
