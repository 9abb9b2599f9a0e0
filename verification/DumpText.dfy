/** The text of dump files: escaping, splitting and numbers. */
module DumpText {
  import opened Common
  import opened Bytes

  const SPACE: byte := 0x20
  const EQUALS: byte := 0x3d
  const DASH: byte := 0x2d
  const BACKSLASH: byte := 0x5c
  const PLUS: byte := 0x2b

  // ---------- escaping ----------

  /** isgraph in the C locale. */
  predicate Graph(c: byte) { 0x21 <= c <= 0x7e }

  function HexChar(d: nat): byte
    requires d < 16
  {
    if d < 10 then 0x30 + d else 0x61 + d - 10
  }

  function HexEscape(c: byte): bytes {
    [BACKSLASH, 0x78, HexChar(c / 16), HexChar(c % 16)]
  }

  function EscapeByte(c: byte, escapeEqual: bool): bytes {
    if c == BACKSLASH then [BACKSLASH, BACKSLASH] else
    if c == 0x0a then [BACKSLASH, 0x6e] else
    if c == 0x0d then [BACKSLASH, 0x72] else
    if c == 0x09 then [BACKSLASH, 0x74] else
    if (c == EQUALS && escapeEqual) || !Graph(c) then HexEscape(c) else [c]
  }

  function EscapeBytes(s: bytes, escapeEqual: bool): bytes {
    if s == [] then [] else EscapeBytes(s[..|s| - 1], escapeEqual) + EscapeByte(s[|s| - 1], escapeEqual)
  }

  /** A value that is just a dash would read as an absent one, so it can be escaped as well. */
  function Escaped(s: bytes, escapeEqual: bool, escapeLoneDash: bool): bytes {
    if escapeLoneDash && s == [DASH] then HexEscape(DASH) else EscapeBytes(s, escapeEqual)
  }

  method PrintEscaped(s: bytes, escapeEqual: bool, escapeLoneDash: bool) returns (out: bytes)
    ensures out == Escaped(s, escapeEqual, escapeLoneDash)
  {
    if escapeLoneDash && |s| == 1 && s[0] == DASH {
      return HexEscape(s[0]);
    }
    out := [];
    for i := 0 to |s|
      invariant out == EscapeBytes(s[..i], escapeEqual)
    {
      assert s[..i + 1][..i] == s[..i];
      out := out + EscapeByte(s[i], escapeEqual);
    }
    assert s[..|s|] == s;
  }

  // ---------- unescaping ----------

  datatype ParseError =
    | NoCharacter | NoHex | BadHex | BadEscape | BadInteger | NoEquals | EmbeddedNul | EmptyPath | BadSize
    | TooManyXattrs | BadMode | DirectoryLink | BadDevice | BadSymlink | BadPayload | ContentTooLong | CantSetXattr
    | OutOfMemory

  function HexDigit(c: byte): int {
    if 0x30 <= c <= 0x39 then c - 0x30 else
    if 0x61 <= c <= 0x66 then c - 0x61 + 10 else
    if 0x41 <= c <= 0x46 then c - 0x41 + 10 else -1
  }

  /** One character of the value, and how much of the text it took. */
  datatype Char = Char(c: byte, taken: nat)

  function UnescapeOne(s: bytes): (r: Result<Char, ParseError>)
    requires s != []
    ensures r.Ok? ==> 1 <= r.value.taken <= |s|
  {
    if s[0] != BACKSLASH then Ok(Char(s[0], 1)) else
    if |s| < 2 then Err(NoCharacter) else
    if s[1] == BACKSLASH then Ok(Char(BACKSLASH, 2)) else
    if s[1] == 0x6e then Ok(Char(0x0a, 2)) else
    if s[1] == 0x72 then Ok(Char(0x0d, 2)) else
    if s[1] == 0x74 then Ok(Char(0x09, 2)) else
    if s[1] == 0x78 then
      if |s| < 4 then Err(NoHex) else
      if HexDigit(s[2]) < 0 || HexDigit(s[3]) < 0 then Err(BadHex) else
        Ok(Char(HexDigit(s[2]) * 16 + HexDigit(s[3]), 4))
    else Err(BadEscape)
  }

  function Prepend(x: bytes, r: Result<bytes, ParseError>): Result<bytes, ParseError> {
    if r.Err? then r else Ok(x + r.value)
  }

  function Unescape(s: bytes): (r: Result<bytes, ParseError>)
    decreases |s|
  {
    if s == [] then Ok([]) else
    var one := UnescapeOne(s);
    if one.Err? then Err(one.error) else Prepend([one.value.c], Unescape(s[one.value.taken..]))
  }

  /** What can be wrong with a text. */
  lemma {:induction false} UnescapeErrors(s: bytes)
    ensures Unescape(s).Err? ==> Unescape(s).error in {NoCharacter, NoHex, BadHex, BadEscape}
    decreases |s|
  {
    if s != [] && UnescapeOne(s).Ok? { UnescapeErrors(s[UnescapeOne(s).value.taken..]); }
  }

  /** Walks the text with a cursor and appends to the result. */
  method UnescapeString(s: bytes) returns (r: Result<bytes, ParseError>)
    ensures r == Unescape(s)
  {
    var i, out := 0, [];
    assert s[0..] == s;
    PrependNothing(Unescape(s));
    while i < |s|
      invariant i <= |s| && Unescape(s) == Prepend(out, Unescape(s[i..]))
      decreases |s| - i
    {
      var one := UnescapeOne(s[i..]);
      if one.Err? { return Err(one.error); }
      ghost var rest := Unescape(s[i..][one.value.taken..]);
      assert s[i..][one.value.taken..] == s[i + one.value.taken..];
      PrependTwice(out, [one.value.c], rest);
      out := out + [one.value.c];
      i := i + one.value.taken;
    }
    assert s[|s|..] == [] && out + [] == out;
    return Ok(out);
  }

  lemma {:induction false} PrependNothing(r: Result<bytes, ParseError>)
    ensures Prepend([], r) == r
  {
    if r.Ok? { assert [] + r.value == r.value; }
  }

  lemma {:induction false} PrependTwice(a: bytes, b: bytes, r: Result<bytes, ParseError>)
    ensures Prepend(a, Prepend(b, r)) == Prepend(a + b, r)
  {
    if r.Ok? { assert a + (b + r.value) == a + b + r.value; }
  }

  // ---------- reading back ----------

  lemma {:induction false} HexBack(c: byte)
    ensures HexDigit(HexChar(c / 16)) == c / 16 && HexDigit(HexChar(c % 16)) == c % 16
    ensures Graph(HexChar(c / 16)) && Graph(HexChar(c % 16)) && HexChar(c / 16) != EQUALS && HexChar(c % 16) != EQUALS
  {
  }

  lemma {:induction false} OneBack(c: byte, escapeEqual: bool, rest: bytes)
    ensures UnescapeOne(EscapeByte(c, escapeEqual) + rest) == Ok(Char(c, |EscapeByte(c, escapeEqual)|))
  {
    HexBack(c);
    var e := EscapeByte(c, escapeEqual);
    assert forall i :: 0 <= i < |e| ==> (e + rest)[i] == e[i];
  }

  lemma {:induction false} UnescapeJoin(s: bytes, escapeEqual: bool, rest: bytes)
    ensures Unescape(EscapeBytes(s, escapeEqual) + rest) == Prepend(s, Unescape(rest))
    decreases |s|
  {
    if s == [] {
      assert EscapeBytes(s, escapeEqual) + rest == rest;
      PrependNothing(Unescape(rest));
    } else {
      var n := |s| - 1;
      var front, e := EscapeBytes(s[..n], escapeEqual), EscapeByte(s[n], escapeEqual);
      assert EscapeBytes(s, escapeEqual) + rest == front + (e + rest);
      UnescapeJoin(s[..n], escapeEqual, e + rest);
      OneBack(s[n], escapeEqual, rest);
      assert (e + rest)[|e|..] == rest;
      PrependTwice(s[..n], [s[n]], Unescape(rest));
      assert s[..n] + [s[n]] == s;
    }
  }

  /** What was printed reads back as it was, whichever characters are escaped. */
  lemma {:induction false} UnescapeEscaped(s: bytes, escapeEqual: bool, escapeLoneDash: bool)
    ensures Unescape(Escaped(s, escapeEqual, escapeLoneDash)) == Ok(s)
  {
    UnescapeJoin(s, escapeEqual, []);
    assert EscapeBytes(s, escapeEqual) + [] == EscapeBytes(s, escapeEqual) && s + [] == s;
    if escapeLoneDash && s == [DASH] {
      HexBack(DASH);
      var h := HexEscape(DASH);
      assert h[4..] == [];
    }
  }

  /** Text without separators: no spaces, line ends or NULs and, if asked for, no equals signs. */
  ghost predicate Clean(t: bytes, noEqual: bool) {
    forall i {:trigger t[i]} :: 0 <= i < |t| ==> Graph(t[i]) && (noEqual ==> t[i] != EQUALS)
  }

  lemma {:induction false} BytesClean(s: bytes, escapeEqual: bool)
    ensures Clean(EscapeBytes(s, escapeEqual), escapeEqual)
  {
    if s != [] {
      BytesClean(s[..|s| - 1], escapeEqual);
      HexBack(s[|s| - 1]);
    }
  }

  /** Printed text has no separator in it. */
  lemma {:induction false} EscapedIsClean(s: bytes, escapeEqual: bool, escapeLoneDash: bool)
    ensures Clean(Escaped(s, escapeEqual, escapeLoneDash), escapeEqual)
  {
    BytesClean(s, escapeEqual);
    HexBack(DASH);
  }

  /** A value never prints as the dash that stands for an absent one. */
  lemma {:induction false} NotAbsent(s: bytes, escapeEqual: bool)
    ensures Escaped(s, escapeEqual, true) != [DASH]
  {
    UnescapeEscaped(s, escapeEqual, true);
    assert [DASH][1..] == [];
    assert Unescape([DASH]) == Prepend([DASH], Ok([]));
    assert [DASH] + [] == [DASH];
  }

  // ---------- splitting ----------

  /** The text up to a separator, what follows it, and whether there was none. */
  datatype Split = Split(part: bytes, rest: bytes, partial: bool)

  function SplitAt(s: bytes, c: byte): (r: Split)
    ensures c !in r.part && (if r.partial then r.part == s && r.rest == [] else r.part + [c] + r.rest == s)
  {
    if s == [] then Split([], [], true) else
    if s[0] == c then
      assert [] + [c] + s[1..] == s;
      Split([], s[1..], false)
    else
      var r := SplitAt(s[1..], c);
      assert r.partial ==> [s[0]] + r.part == s;
      assert !r.partial ==> [s[0]] + r.part + [c] + r.rest == [s[0]] + (r.part + [c] + r.rest) == s;
      Split([s[0]] + r.part, r.rest, r.partial)
  }

  /** Looks for the separator byte by byte. */
  method SplitOff(s: bytes, c: byte) returns (r: Split)
    ensures r == SplitAt(s, c)
  {
    for i := 0 to |s|
      invariant c !in s[..i]
    {
      if s[i] == c {
        SplitFound(s[..i], c, s[i + 1..]);
        assert s[..i] + [c] + s[i + 1..] == s;
        return Split(s[..i], s[i + 1..], false);
      }
      assert s[..i + 1] == s[..i] + [s[i]];
    }
    assert s[..|s|] == s;
    SplitNone(s, c);
    return Split(s, [], true);
  }

  lemma {:induction false} SplitFound(a: bytes, c: byte, b: bytes)
    requires c !in a
    ensures SplitAt(a + [c] + b, c) == Split(a, b, false)
  {
    if a == [] {
      assert (a + [c] + b)[1..] == b;
    } else {
      assert (a + [c] + b)[1..] == a[1..] + [c] + b;
      SplitFound(a[1..], c, b);
      assert a == [a[0]] + a[1..];
    }
  }

  lemma {:induction false} SplitNone(a: bytes, c: byte)
    requires c !in a
    ensures SplitAt(a, c) == Split(a, [], true)
  {
    if a != [] { SplitNone(a[1..], c); }
  }

  lemma {:induction false} CleanLacks(t: bytes, noEqual: bool)
    requires Clean(t, noEqual)
    ensures SPACE !in t && 0 !in t && 0x0a !in t && (noEqual ==> EQUALS !in t)
  {
  }

  // ---------- numbers ----------

  function Digits(n: nat, base: nat): (s: bytes)
    requires 2 <= base <= 10
    ensures s != [] && Clean(s, true) && DASH !in s
  {
    if n < base then [0x30 + n] else Digits(n / base, base) + [0x30 + n % base]
  }

  /** The value of a digit string, or nothing. */
  function Value(s: bytes, base: nat): (r: Option<nat>)
    requires 2 <= base <= 10
  {
    if s == [] then Some(0) else
    var last: int := s[|s| - 1];
    var front, d := Value(s[..|s| - 1], base), last - 0x30;
    if front.None? || d < 0 || d >= base then None else Some(front.value * base + d)
  }

  /** isspace in the C locale. */
  predicate White(c: byte) { c == SPACE || 0x09 <= c <= 0x0d }

  function SkipWhite(s: bytes): bytes {
    if s != [] && White(s[0]) then SkipWhite(s[1..]) else s
  }

  /**
   strtoull on a whole string: white space, a sign, digits.  Too large values give the greatest value whatever the
   sign, other negative ones wrap around.
   */
  function ParseInt(s: bytes, base: nat): (r: Result<nat, ParseError>)
    requires 2 <= base <= 10
  {
    var t := SkipWhite(s);
    var signed := t != [] && (t[0] == DASH || t[0] == PLUS);
    var digits := if signed then t[1..] else t;
    if digits == [] then Err(BadInteger) else
    var v := Value(digits, base);
    if v.None? then Err(BadInteger) else
    if v.value > 0xffff_ffff_ffff_ffff then Ok(0xffff_ffff_ffff_ffff) else
    Ok(if signed && t[0] == DASH && v.value > 0 then 0x1_0000_0000_0000_0000 - v.value else v.value)
  }

  lemma {:induction false} ValueDigits(n: nat, base: nat)
    requires 2 <= base <= 10
    ensures Value(Digits(n, base), base) == Some(n)
  {
    var s := Digits(n, base);
    if n >= base {
      ValueDigits(n / base, base);
      assert s[..|s| - 1] == Digits(n / base, base);
      EuclidSplit(n, base);
    } else {
      assert s[..0] == [];
    }
  }

  lemma {:induction false} AllDigits(n: nat, base: nat)
    requires 2 <= base <= 10
    ensures forall i {:trigger Digits(n, base)[i]} :: 0 <= i < |Digits(n, base)| ==>
              0x30 <= Digits(n, base)[i] < 0x30 + base
  {
    if n >= base { AllDigits(n / base, base); }
  }

  lemma {:induction false} ParseDigits(n: nat, base: nat)
    requires 2 <= base <= 10 && n < 0x1_0000_0000_0000_0000
    ensures ParseInt(Digits(n, base), base) == Ok(n)
  {
    ValueDigits(n, base);
    AllDigits(n, base);
  }

  /** Seconds are signed. */
  function SignedDigits(n: int): bytes {
    if n < 0 then [DASH] + Digits(-n, 10) else Digits(n, 10)
  }

  /** They are parsed as an unsigned number and stored back into a signed one. */
  function Signed64(n: nat): int {
    if n < 0x8000_0000_0000_0000 then n else n - 0x1_0000_0000_0000_0000
  }

  lemma {:induction false} ParseSigned(n: int)
    requires -0x8000_0000_0000_0000 <= n < 0x8000_0000_0000_0000
    ensures ParseInt(SignedDigits(n), 10).Ok? && Signed64(ParseInt(SignedDigits(n), 10).value) == n
    ensures Clean(SignedDigits(n), true) && 0x2e !in SignedDigits(n)
  {
    if n < 0 {
      ValueDigits(-n, 10);
      assert SignedDigits(n)[1..] == Digits(-n, 10);
      NoDot(-n);
    } else {
      ParseDigits(n, 10);
      NoDot(n);
    }
  }

  lemma {:induction false} NoDot(n: nat)
    ensures 0x2e !in Digits(n, 10)
  {
    if n >= 10 { NoDot(n / 10); }
  }
}
