/** The dump format in its own characters, apart from the code that prints and parses it. */
module DumpFormat {
  import opened Common
  import opened Bytes
  import opened DumpText
  import opened DumpLine
  import opened Xattrs

  // ---------- characters ----------

  /** A hexadecimal digit of either case. */
  ghost predicate IsHex(c: byte, v: int) {
    0 <= v < 16 && (c == Ascii("0123456789abcdef")[v] || c == Ascii("0123456789ABCDEF")[v])
  }

  lemma {:induction false} HexDigitIs(c: byte, v: int)
    ensures IsHex(c, v) <==> 0 <= v == HexDigit(c)
    ensures -1 <= HexDigit(c) < 16
  {
    if 0 <= v < 16 { HexRows(v); }
    if HexDigit(c) >= 0 { HexRows(HexDigit(c)); }
  }

  lemma {:induction false} HexRows(v: nat)
    requires v < 16
    ensures Ascii("0123456789abcdef")[v] == if v < 10 then '0' as int + v else 'a' as int + v - 10
    ensures Ascii("0123456789ABCDEF")[v] == if v < 10 then '0' as int + v else 'A' as int + v - 10
  {
    var low, high := "0123456789abcdef", "0123456789ABCDEF";
    assert low[v] as int == if v < 10 then '0' as int + v else 'a' as int + v - 10;
    assert high[v] as int == if v < 10 then '0' as int + v else 'A' as int + v - 10;
  }

  /** The ways to write one byte. */
  ghost predicate Denotes(t: bytes, c: byte) {
    || (t == [c] && c != '\\' as int)
    || (t == Ascii("\\\\") && c == '\\' as int)
    || (t == Ascii("\\n") && c == '\n' as int)
    || (t == Ascii("\\r") && c == '\r' as int)
    || (t == Ascii("\\t") && c == '\t' as int)
    || (|t| == 4 && t[..2] == Ascii("\\x") && IsHex(t[2], c / 16) && IsHex(t[3], c % 16))
  }

  lemma {:induction false} Pairs()
    ensures Ascii("\\\\") == [0x5c, 0x5c] && Ascii("\\n") == [0x5c, 0x6e] && Ascii("\\r") == [0x5c, 0x72]
    ensures Ascii("\\t") == [0x5c, 0x74] && Ascii("\\x") == [0x5c, 0x78]
  {
  }

  /** The first character of a text. */
  lemma {:induction false} OneMeans(s: bytes, k: nat, c: byte)
    requires s != []
    ensures UnescapeOne(s) == Ok(Char(c, k)) <==> k <= |s| && Denotes(s[..k], c)
  {
    Pairs();
    if |s| >= 4 {
      HexDigitIs(s[2], c / 16);
      HexDigitIs(s[3], c % 16);
      assert s[..4][..2] == s[..2] == [s[0], s[1]];
    }
    if |s| >= 2 { assert s[..2] == [s[0], s[1]]; }
    assert s[..1] == [s[0]];
  }

  /** A text that writes some bytes, one after the other. */
  ghost predicate Writes(s: bytes, v: bytes)
    decreases |v|
  {
    if v == [] then s == [] else
    exists k {:trigger s[..k]} :: 0 < k <= |s| && Denotes(s[..k], v[0]) && Writes(s[k..], v[1..])
  }

  /** Unescaping takes exactly the texts of the format, and gives what they write. */
  lemma {:induction false} UnescapeMeans(s: bytes, v: bytes)
    ensures Unescape(s) == Ok(v) <==> Writes(s, v)
    decreases |s|
  {
    if s != [] && v != [] {
      var one := UnescapeOne(s);
      if one.Ok? {
        OneMeans(s, one.value.taken, one.value.c);
        UnescapeMeans(s[one.value.taken..], v[1..]);
        assert v == [v[0]] + v[1..];
      }
      forall k | 0 < k <= |s| && Denotes(s[..k], v[0])
        ensures one == Ok(Char(v[0], k))
      {
        OneMeans(s, k, v[0]);
      }
    }
  }

  // ---------- printing ----------

  /** How a byte is printed: itself if it shows and separates nothing, else the shortest escape. */
  ghost predicate PrintsAs(c: byte, noEqual: bool, t: bytes) {
    if c == '\\' as int then t == Ascii("\\\\") else
    if c == '\n' as int then t == Ascii("\\n") else
    if c == '\r' as int then t == Ascii("\\r") else
    if c == '\t' as int then t == Ascii("\\t") else
    if '!' as int <= c <= '~' as int && !(noEqual && c == '=' as int) then t == [c] else
    t == Ascii("\\x") + [Ascii("0123456789abcdef")[c / 16], Ascii("0123456789abcdef")[c % 16]]
  }

  lemma {:induction false} BytePrints(c: byte, noEqual: bool)
    ensures PrintsAs(c, noEqual, EscapeByte(c, noEqual))
  {
    Pairs();
    HexRows(c / 16);
    HexRows(c % 16);
  }

  ghost predicate Prints(s: bytes, noEqual: bool, t: bytes)
    decreases |s|
  {
    var n := |s| - 1;
    if s == [] then t == [] else
    exists k {:trigger t[k..]} :: 0 <= k <= |t| && Prints(s[..n], noEqual, t[..k]) && PrintsAs(s[n], noEqual, t[k..])
  }

  /** Escaping prints every byte in turn as the format asks. */
  lemma {:induction false} EscapePrints(s: bytes, noEqual: bool)
    ensures Prints(s, noEqual, EscapeBytes(s, noEqual))
    decreases |s|
  {
    if s != [] {
      var n := |s| - 1;
      EscapePrints(s[..n], noEqual);
      BytePrints(s[n], noEqual);
      PrintsNext(s, noEqual, EscapeBytes(s[..n], noEqual), EscapeByte(s[n], noEqual));
    }
  }

  lemma {:induction false} PrintsNext(s: bytes, noEqual: bool, front: bytes, last: bytes)
    requires s != [] && Prints(s[..|s| - 1], noEqual, front) && PrintsAs(s[|s| - 1], noEqual, last)
    ensures Prints(s, noEqual, front + last)
  {
    var t := front + last;
    assert t[..|front|] == front && t[|front|..] == last;
  }

  // ---------- numbers ----------

  /** A number in positional notation, without leading zeros. */
  ghost predicate IsNumber(t: bytes, n: nat, base: nat)
    requires 2 <= base <= 10
    decreases |t|
  {
    var k := |t| - 1;
    t != [] && t[k] == Ascii("0123456789")[n % base] &&
    if n < base then k == 0 else IsNumber(t[..k], n / base, base)
  }

  lemma {:induction false} DigitIs(d: nat)
    requires d < 10
    ensures Ascii("0123456789")[d] == 0x30 + d
  {
    var row := "0123456789";
    assert row[d] as int == '0' as int + d;
  }

  lemma {:induction false} DigitsAre(n: nat, base: nat)
    requires 2 <= base <= 10
    ensures IsNumber(Digits(n, base), n, base)
  {
    DigitIs(n % base);
    var t := Digits(n, base);
    if n >= base {
      DigitsAre(n / base, base);
      assert t[..|t| - 1] == Digits(n / base, base);
    }
  }

  ghost predicate IsSigned(t: bytes, n: int) {
    if n < 0 then t != [] && t[0] == '-' as int && IsNumber(t[1..], -n, 10) else IsNumber(t, n, 10)
  }

  lemma {:induction false} SignedIs(n: int)
    ensures IsSigned(SignedDigits(n), n)
  {
    DigitsAre(if n < 0 then -n else n, 10);
    if n < 0 { assert SignedDigits(n)[1..] == Digits(-n, 10); }
  }

  // ---------- reading numbers ----------

  ghost predicate IsWhite(c: byte) { c == ' ' as int || '\t' as int <= c <= '\r' as int }

  ghost predicate AreDigits(d: bytes, base: nat) {
    forall i {:trigger d[i]} :: 0 <= i < |d| ==> '0' as int <= d[i] < '0' as int + base
  }

  ghost function NumberOf(d: bytes, base: nat): int {
    if d == [] then 0 else NumberOf(d[..|d| - 1], base) * base + d[|d| - 1] - '0' as int
  }

  lemma {:induction false} ValueMeans(d: bytes, base: nat)
    requires 2 <= base <= 10
    ensures Value(d, base).Some? <==> AreDigits(d, base)
    ensures AreDigits(d, base) ==> NumberOf(d, base) >= 0 && Value(d, base) == Some(NumberOf(d, base))
  {
    if d != [] {
      var n := |d| - 1;
      ValueMeans(d[..n], base);
      assert d == d[..n] + [d[n]];
      if AreDigits(d, base) { assert '0' as int <= d[n]; }
    }
  }

  lemma {:induction false} SkipStops(s: bytes)
    ensures var k := |s| - |SkipWhite(s)|;
            && 0 <= k <= |s| && SkipWhite(s) == s[k..] && (k < |s| ==> !IsWhite(s[k]))
            && forall i {:trigger s[i]} :: 0 <= i < k ==> IsWhite(s[i])
  {
    if s != [] && White(s[0]) {
      SkipStops(s[1..]);
      var k := |s| - |SkipWhite(s)|;
      forall i | 0 <= i < k
        ensures IsWhite(s[i])
      {
        if i > 0 { assert s[i] == s[1..][i - 1]; }
      }
    }
  }

  lemma {:induction false} SkipIs(s: bytes, k: nat)
    requires k < |s| && !IsWhite(s[k]) && forall i {:trigger s[i]} :: 0 <= i < k ==> IsWhite(s[i])
    ensures SkipWhite(s) == s[k..]
  {
    if k > 0 {
      assert IsWhite(s[0]);
      SkipIs(s[1..], k - 1);
    }
  }

  /** What a sign and digits are worth as a 64-bit number: a number that is too large is cut off at the greatest. */
  ghost function Worth(minus: bool, v: int): int {
    if v >= 0x1_0000_0000_0000_0000 then 0xffff_ffff_ffff_ffff else
    if minus && v > 0 then 0x1_0000_0000_0000_0000 - v else v
  }

  /** White space up to `k`, then a sign or none, then digits. */
  ghost predicate IsInteger(s: bytes, base: nat, k: nat, n: int) {
    && k < |s| && (forall i {:trigger s[i]} :: 0 <= i < k ==> IsWhite(s[i]))
    && var signed := s[k] == '-' as int || s[k] == '+' as int;
       var d := if signed then s[k + 1..] else s[k..];
       d != [] && AreDigits(d, base) && n == Worth(s[k] == '-' as int, NumberOf(d, base))
  }

  lemma {:induction false} DigitsHere(t: bytes, base: nat)
    requires 2 <= base <= 10 && t != []
    ensures var signed := t[0] == '-' as int || t[0] == '+' as int;
            var d := if signed then t[1..] else t;
            d != [] && AreDigits(d, base) ==> !IsWhite(t[0])
  {
  }

  /** Which texts are taken for numbers, and for which. */
  lemma {:induction false} ParseMeans(s: bytes, base: nat, n: nat)
    requires 2 <= base <= 10
    ensures ParseInt(s, base) == Ok(n) <==> exists k: nat :: IsInteger(s, base, k, n)
  {
    SkipStops(s);
    var k := |s| - |SkipWhite(s)|;
    ParseAt(s, base, k, n);
    if j: nat :| IsInteger(s, base, j, n) {
      DigitsHere(s[j..], base);
      SkipIs(s, j);
      assert j == k;
    }
  }

  lemma {:induction false} ParseAt(s: bytes, base: nat, k: nat, n: nat)
    requires 2 <= base <= 10 && k <= |s| && SkipWhite(s) == s[k..]
    requires forall i {:trigger s[i]} :: 0 <= i < k ==> IsWhite(s[i])
    ensures ParseInt(s, base) == Ok(n) <==> IsInteger(s, base, k, n)
  {
    if k < |s| {
      var t := s[k..];
      assert t[0] == s[k] && t[1..] == s[k + 1..];
      ValueMeans(t, base);
      ValueMeans(t[1..], base);
    }
  }

  // ---------- fields ----------

  /** Seconds and nanoseconds around a dot. */
  ghost predicate IsTime(t: bytes, sec: int, nsec: nat) {
    exists k {:trigger t[k]} ::
      0 <= k < |t| && t[k] == '.' as int && IsSigned(t[..k], sec) && IsNumber(t[k + 1..], nsec, 10)
  }

  lemma {:induction false} TimeIs(sec: int, nsec: nat)
    ensures IsTime(TimeText(sec, nsec), sec, nsec)
  {
    var a, b := SignedDigits(sec), Digits(nsec, 10);
    SignedIs(sec);
    DigitsAre(nsec, 10);
    var t := TimeText(sec, nsec);
    assert t[|a|] == 0x2e && t[..|a|] == a && t[|a| + 1..] == b;
  }

  /** A dash for an absent value; a value that is a dash is written in hexadecimal. */
  ghost predicate IsOptional(t: bytes, v: Option<bytes>) {
    if v.None? then t == Ascii("-") else
    if v.value == Ascii("-") then t == Ascii("\\x2d") else Prints(v.value, false, t)
  }

  lemma {:induction false} OptionalIs(v: Option<bytes>)
    ensures IsOptional(OptionalText(v), v)
  {
    assert Ascii("-") == [0x2d] && Ascii("\\x2d") == [0x5c, 0x78, 0x32, 0x64];
    if v.Some? { EscapePrints(v.value, false); }
  }

  /** Octal, after an at sign for a further name of a node. */
  ghost predicate IsMode(t: bytes, mode: nat, isLink: bool) {
    if isLink then t != [] && t[0] == '@' as int && IsNumber(t[1..], mode, 8) else IsNumber(t, mode, 8)
  }

  lemma {:induction false} ModeIs(mode: nat, isLink: bool)
    ensures IsMode(ModeText(mode, isLink), mode, isLink)
  {
    DigitsAre(mode, 8);
    Marked(Digits(mode, 8));
  }

  /** The size, the link count, the owner and the device, in decimal. */
  ghost predicate AreNumbers(fs: seq<bytes>, e: Record)
    requires |fs| == 11
  {
    && IsNumber(fs[1], e.size, 10) && IsNumber(fs[3], e.nlink, 10) && IsNumber(fs[4], e.uid, 10)
    && IsNumber(fs[5], e.gid, 10) && IsNumber(fs[6], e.rdev, 10)
  }

  ghost predicate AreTexts(fs: seq<bytes>, e: Record, link: Option<bytes>)
    requires |fs| == 11
  {
    && Prints(e.path, false, fs[0]) && IsOptional(fs[8], if link.Some? then link else e.payload)
    && IsOptional(fs[9], e.content) && fs[10] == if e.digest.None? then Ascii("-") else e.digest.value
  }

  /** The eleven fields, in their order: PATH SIZE MODE NLINK UID GID RDEV MTIME PAYLOAD CONTENT DIGEST. */
  ghost predicate AreFields(fs: seq<bytes>, e: Record, link: Option<bytes>) {
    && |fs| == 11 && AreNumbers(fs, e) && AreTexts(fs, e, link)
    && IsMode(fs[2], e.mode, link.Some?) && IsTime(fs[7], e.sec, e.nsec)
  }

  lemma {:induction false} NumbersHold(fs: seq<bytes>, e: Record)
    requires |fs| == 11 && IsNumber(fs[1], e.size, 10) && IsNumber(fs[3], e.nlink, 10) && IsNumber(fs[4], e.uid, 10)
    requires IsNumber(fs[5], e.gid, 10) && IsNumber(fs[6], e.rdev, 10)
    ensures AreNumbers(fs, e)
  {
  }

  lemma {:induction false} NumbersAre(e: Record, link: Option<bytes>)
    ensures AreNumbers(FieldTexts(e, link), e)
  {
    DigitsAre(e.size, 10);
    DigitsAre(e.nlink, 10);
    DigitsAre(e.uid, 10);
    DigitsAre(e.gid, 10);
    DigitsAre(e.rdev, 10);
    NumbersHold(FieldTexts(e, link), e);
  }

  lemma {:induction false} PathIs(path: bytes)
    ensures Prints(path, false, Escaped(path, false, false))
  {
    EscapePrints(path, false);
  }

  lemma {:induction false} DigestIs(d: Option<bytes>)
    ensures DigestText(d) == if d.None? then Ascii("-") else d.value
  {
    assert Ascii("-") == [0x2d];
  }

  lemma {:induction false} TextsHold(fs: seq<bytes>, e: Record, link: Option<bytes>, payload: Option<bytes>)
    requires |fs| == 11 && Prints(e.path, false, fs[0]) && IsOptional(fs[8], payload) && IsOptional(fs[9], e.content)
    requires payload == (if link.Some? then link else e.payload)
    requires fs[10] == if e.digest.None? then Ascii("-") else e.digest.value
    ensures AreTexts(fs, e, link)
  {
  }

  lemma {:induction false} TextsAre(e: Record, link: Option<bytes>)
    ensures AreTexts(FieldTexts(e, link), e, link)
  {
    var payload := if link.Some? then link else e.payload;
    PathIs(e.path);
    OptionalIs(payload);
    OptionalIs(e.content);
    DigestIs(e.digest);
    TextsHold(FieldTexts(e, link), e, link, payload);
  }

  lemma {:induction false} FieldsAre(e: Record, link: Option<bytes>)
    ensures AreFields(FieldTexts(e, link), e, link)
  {
    NumbersAre(e, link);
    TextsAre(e, link);
    ModeIs(e.mode, link.Some?);
    TimeIs(e.sec, e.nsec);
  }

  // ---------- lines ----------

  /** Fields with one space between them and, after one more, the rest of the line if there is any. */
  ghost predicate Spaced(line: bytes, fs: seq<bytes>, rest: bytes)
    decreases |fs|
  {
    && fs != [] && ' ' as int !in fs[0]
    && if |fs| == 1 && rest == [] then line == fs[0] else
       |fs[0]| < |line| && line[..|fs[0]|] == fs[0] && line[|fs[0]|] == ' ' as int &&
       var tail := line[|fs[0]| + 1..];
       if |fs| == 1 then tail == rest else Spaced(tail, fs[1..], rest)
  }

  lemma {:induction false} JoinedSpaced(fs: seq<bytes>, t: bytes)
    requires fs != [] && forall i {:trigger fs[i]} :: 0 <= i < |fs| ==> SPACE !in fs[i]
    ensures Spaced(Joined(fs, t), fs, t)
    decreases |fs|
  {
    var line, n := Joined(fs, t), |fs[0]|;
    if |fs| == 1 {
      if t != [] { assert line[..n] == fs[0] && line[n + 1..] == t; }
    } else {
      JoinedSpaced(fs[1..], t);
      assert line[..n] == fs[0] && line[n + 1..] == Joined(fs[1..], t);
    }
  }

  /** A name and a value around an equals sign. */
  ghost predicate IsPair(t: bytes, x: Xattr) {
    exists k {:trigger t[k]} ::
      0 <= k < |t| && t[k] == '=' as int && Prints(x.key, true, t[..k]) && Prints(x.value, true, t[k + 1..])
  }

  lemma {:induction false} PairHolds(x: Xattr, a: bytes, b: bytes)
    requires Prints(x.key, true, a) && Prints(x.value, true, b)
    ensures IsPair(a + [EQUALS] + b, x)
  {
    var t := a + [EQUALS] + b;
    assert t[|a|] == 0x3d && t[..|a|] == a && t[|a| + 1..] == b;
  }

  lemma {:induction false} PairIs(x: Xattr)
    ensures IsPair(AttrText(x), x)
  {
    EscapePrints(x.key, true);
    EscapePrints(x.value, true);
    PairHolds(x, EscapeBytes(x.key, true), EscapeBytes(x.value, true));
  }

  /** The attributes, in their order, with one space between two of them. */
  ghost predicate ArePairs(t: bytes, xs: seq<Xattr>)
    decreases |xs|
  {
    if xs == [] then t == [] else if |xs| == 1 then IsPair(t, xs[0]) else
    exists k {:trigger t[k]} ::
      0 <= k < |t| && t[k] == ' ' as int && IsPair(t[..k], xs[0]) && ArePairs(t[k + 1..], xs[1..])
  }

  lemma {:induction false} PairsAre(xs: seq<Xattr>)
    ensures ArePairs(AttrTexts(xs), xs)
    decreases |xs|
  {
    if xs != [] {
      PairIs(xs[0]);
      if |xs| > 1 {
        PairsAre(xs[1..]);
        var t, n := AttrTexts(xs), |AttrText(xs[0])|;
        assert t[n] == 0x20 && t[..n] == AttrText(xs[0]) && t[n + 1..] == AttrTexts(xs[1..]);
      }
    }
  }

  /** A line of the format for a node or, when there is a link, for a further name of it. */
  ghost predicate IsLine(line: bytes, e: Record, link: Option<bytes>) {
    exists fs, rest {:trigger Spaced(line, fs, rest)} ::
      Spaced(line, fs, rest) && AreFields(fs, e, link) && ArePairs(rest, e.xattrs)
  }

  /** Whatever is printed is a line of the format. */
  lemma {:induction false} LineConforms(e: Record, link: Option<bytes>)
    requires EntryOk(e)
    ensures IsLine(LineText(e, link), e, link)
  {
    var fs, rest := FieldTexts(e, link), AttrTexts(e.xattrs);
    forall i | 0 <= i < |fs|
      ensures SPACE !in fs[i]
    {
      FieldClean(e, link, i);
      CleanLacks(fs[i], false);
    }
    JoinedSpaced(fs, rest);
    FieldsAre(e, link);
    PairsAre(e.xattrs);
  }
}
