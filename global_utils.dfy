/** GlobalUtils: the CSV field escaping used for the report files, and the
    URL escaping used to build browse links and search URIs.

    Uri.EscapeDataString is modelled as RFC 3986 percent-encoding: the
    unreserved characters (section 2.3 of RFC 3986: ASCII letters, digits,
    '-', '.', '_', '~') are copied and every other character is written as
    its UTF-8 bytes, each as '%' and two upper-case hexadecimal digits.
    UnescapeDataString is the inverse the model proves against it. */
module GlobalUtils {
  import opened Common

  // ---------------------------------------------------------------------
  // CsvEscape

  /** char.IsControl: U+0000..U+001F and U+007F..U+009F. */
  predicate IsControl(c: char) {
    c <= '\U{1F}' || ('\U{7F}' <= c <= '\U{9F}')
  }

  /** Control characters, comma and double quote must be escaped. */
  predicate MustEscape(c: char) {
    IsControl(c) || c == ',' || c == '"'
  }

  predicate HasMustEscape(s: string) {
    exists i :: 0 <= i < |s| && MustEscape(s[i])
  }

  function CountMustEscape(s: string): (n: nat)
    ensures n <= |s|
    ensures n == 0 <==> !HasMustEscape(s)
  {
    if s == [] then 0
    else
      assert forall i :: 0 <= i < |s[1..]| ==> s[1..][i] == s[i + 1];
      (if MustEscape(s[0]) then 1 else 0) + CountMustEscape(s[1..])
  }

  /** What DoEscape appends for one input character. */
  function EscapeChunk(c: char): string {
    if MustEscape(c) then ['\\', c] else [c]
  }

  /** The text DoEscape produces: a backslash before every character that
      must be escaped, every other character copied. */
  function Escaped(s: string): string {
    if s == [] then [] else EscapeChunk(s[0]) + Escaped(s[1..])
  }

  lemma {:induction false} EscapedAppend(a: string, b: string)
    ensures Escaped(a + b) == Escaped(a) + Escaped(b)
  {
    if a == [] {
      assert a + b == b;
    } else {
      assert (a + b)[1..] == a[1..] + b;
      EscapedAppend(a[1..], b);
    }
  }

  /** DoEscape: one pass over the input appending to a StringBuilder. */
  method DoEscape(input: string) returns (output: string)
    ensures output == Escaped(input)
  {
    var builder := "";
    var i := 0;
    while i < |input|
      invariant 0 <= i <= |input|
      invariant builder == Escaped(input[..i])
    {
      var ch := input[i];
      EscapedAppend(input[..i], [ch]);
      assert input[..i + 1] == input[..i] + [ch];
      if MustEscape(ch) { builder := builder + ['\\']; }
      builder := builder + [ch];
      i := i + 1;
    }
    assert input[..i] == input;
    output := builder;
  }

  /** The escaped text is the input plus one backslash per character that
      must be escaped. */
  lemma {:induction false} EscapedLength(s: string)
    ensures |Escaped(s)| == |s| + CountMustEscape(s)
  {
    if s != [] { EscapedLength(s[1..]); }
  }

  /** Removes the backslash in front of every character that must be escaped. */
  function Unescaped(t: string): string
    decreases |t|
  {
    if t == [] then []
    else if |t| >= 2 && t[0] == '\\' && MustEscape(t[1]) then [t[1]] + Unescaped(t[2..])
    else [t[0]] + Unescaped(t[1..])
  }

  /** No escaped text starts with a character that must be escaped: such a
      character always gets its backslash first. */
  lemma EscapedStart(s: string)
    requires s != []
    ensures Escaped(s) != [] && !MustEscape(Escaped(s)[0])
  {
  }

  /** Deleting the backslash before each escaped character recovers the input. */
  lemma {:induction false} UnescapedEscaped(s: string)
    ensures Unescaped(Escaped(s)) == s
  {
    if s != [] {
      var c, rest := s[0], s[1..];
      var t := Escaped(s);
      assert t == EscapeChunk(c) + Escaped(rest);
      UnescapedEscaped(rest);
      if MustEscape(c) {
        assert t[2..] == Escaped(rest);
      } else {
        assert t[1..] == Escaped(rest);
        if rest != [] && c == '\\' {
          EscapedStart(rest);
          assert !MustEscape(t[1]);
        }
      }
    }
  }

  /** CsvEscape: null stays null; text with nothing to escape is returned as
      it is; otherwise the escaped text between a backslash-quote pair (the
      quotes are themselves backslash-escaped, not doubled as in RFC 4180). */
  function CsvEscape(input: Option<string>): (r: Option<string>)
    ensures input.None? ==> r.None?
    ensures input.Some? && !HasMustEscape(input.value) ==> r == input
    ensures input.Some? && HasMustEscape(input.value) ==>
      r.Some? && |r.value| == |input.value| + CountMustEscape(input.value) + 4
      && r.value[..2] == "\\\"" && r.value[|r.value| - 2..] == "\\\""
      && Unescaped(r.value[2..|r.value| - 2]) == input.value
  {
    match input
    case None => None
    case Some(s) =>
      if HasMustEscape(s) then
        var e := Escaped(s);
        EscapedLength(s);
        UnescapedEscaped(s);
        var r := "\\\"" + e + "\\\"";
        assert r[2..|r| - 2] == e;
        Some(r)
      else input
  }

  // ---------------------------------------------------------------------
  // Percent-encoding (Uri.EscapeDataString) and its inverse

  type Byte = x: int | 0 <= x < 256

  /** RFC 3986 section 2.3 unreserved characters. */
  predicate IsUnreserved(c: char) {
    IsAsciiLetterOrDigit(c) || c == '-' || c == '.' || c == '_' || c == '~'
  }

  /** The UTF-8 encoding of one Unicode scalar value. */
  function Utf8Encode(c: char): (bs: seq<Byte>)
    ensures 1 <= |bs| <= 4
    ensures |bs| == 1 <==> c as int < 0x80
    ensures |bs| == 1 ==> bs[0] == c as int
    ensures |bs| > 1 ==> forall i :: 0 <= i < |bs| ==> bs[i] >= 0x80
  {
    var cp := c as int;
    if cp < 0x80 then [cp]
    else if cp < 0x800 then [0xC0 + cp / 64, 0x80 + cp % 64]
    else if cp < 0x10000 then [0xE0 + cp / 4096, 0x80 + (cp / 64) % 64, 0x80 + cp % 64]
    else [0xF0 + cp / 262144, 0x80 + (cp / 4096) % 64, 0x80 + (cp / 64) % 64, 0x80 + cp % 64]
  }

  /** The number of bytes a UTF-8 sequence starting with lead has (0: not a lead byte). */
  function Utf8SequenceLength(lead: Byte): nat {
    if lead < 0x80 then 1
    else if 0xC0 <= lead < 0xE0 then 2
    else if 0xE0 <= lead < 0xF0 then 3
    else if 0xF0 <= lead < 0xF8 then 4
    else 0
  }

  predicate IsContinuation(b: Byte) { 0x80 <= b < 0xC0 }

  predicate IsScalarValue(cp: int) {
    (0 <= cp < 0xD800) || (0xE000 <= cp < 0x110000)
  }

  /** Decodes one complete UTF-8 sequence. */
  function Utf8Decode(bs: seq<Byte>): Option<char> {
    if |bs| == 0 || Utf8SequenceLength(bs[0]) != |bs| then None
    else if exists i :: 1 <= i < |bs| && !IsContinuation(bs[i]) then None
    else
      var cp :=
        if |bs| == 1 then bs[0] as int
        else if |bs| == 2 then (bs[0] as int - 0xC0) * 64 + (bs[1] as int - 0x80)
        else if |bs| == 3 then (bs[0] as int - 0xE0) * 4096 + (bs[1] as int - 0x80) * 64 + (bs[2] as int - 0x80)
        else (bs[0] as int - 0xF0) * 262144 + (bs[1] as int - 0x80) * 4096 + (bs[2] as int - 0x80) * 64 + (bs[3] as int - 0x80);
      if IsScalarValue(cp) then Some(cp as char) else None
  }

  lemma Utf8RoundTrip(c: char)
    ensures Utf8SequenceLength(Utf8Encode(c)[0]) == |Utf8Encode(c)|
    ensures Utf8Decode(Utf8Encode(c)) == Some(c)
  {
    var cp := c as int;
    if cp >= 0x10000 {
      Utf8RoundTrip4(c);
    } else if cp >= 0x800 {
      Utf8RoundTrip3(c);
    } else if cp >= 0x80 {
      Utf8RoundTrip2(c);
    }
  }

  lemma Utf8RoundTrip2(c: char)
    requires 0x80 <= c as int < 0x800
    ensures Utf8SequenceLength(Utf8Encode(c)[0]) == |Utf8Encode(c)|
    ensures Utf8Decode(Utf8Encode(c)) == Some(c)
  {
    var cp := c as int;
    var bs := Utf8Encode(c);
    assert bs == [0xC0 + cp / 64, 0x80 + cp % 64];
    assert (cp / 64) * 64 + cp % 64 == cp;
  }

  lemma Utf8RoundTrip3(c: char)
    requires 0x800 <= c as int < 0x10000
    ensures Utf8SequenceLength(Utf8Encode(c)[0]) == |Utf8Encode(c)|
    ensures Utf8Decode(Utf8Encode(c)) == Some(c)
  {
    var cp := c as int;
    var bs := Utf8Encode(c);
    var q, d := cp / 64, cp % 64;
    assert cp == 64 * q + d;
    var a, b := q / 64, q % 64;
    assert q == 64 * a + b;
    assert cp == 4096 * a + 64 * b + d;
    assert cp / 4096 == a;
    assert bs == [0xE0 + a, 0x80 + b, 0x80 + d];
  }

  lemma Utf8RoundTrip4(c: char)
    requires 0x10000 <= c as int
    ensures Utf8SequenceLength(Utf8Encode(c)[0]) == |Utf8Encode(c)|
    ensures Utf8Decode(Utf8Encode(c)) == Some(c)
  {
    var cp := c as int;
    assert IsScalarValue(cp);
    var bs := Utf8Encode(c);
    var q, d := cp / 64, cp % 64;
    assert cp == 64 * q + d;
    var q2, e := q / 64, q % 64;
    assert q == 64 * q2 + e;
    var a, b := q2 / 64, q2 % 64;
    assert q2 == 64 * a + b;
    assert cp == 262144 * a + 4096 * b + 64 * e + d;
    assert cp / 4096 == q2;
    assert cp / 262144 == a;
    assert bs == [0xF0 + a, 0x80 + b, 0x80 + e, 0x80 + d];
  }

  /** Upper-case hexadecimal digit of a value below 16. */
  function HexDigit(n: nat): char
    requires n < 16
  {
    if n < 10 then ('0' as int + n) as char else ('A' as int + n - 10) as char
  }

  function HexValue(c: char): Option<nat> {
    if '0' <= c <= '9' then Some(c as int - '0' as int)
    else if 'A' <= c <= 'F' then Some(c as int - 'A' as int + 10)
    else if 'a' <= c <= 'f' then Some(c as int - 'a' as int + 10)
    else None
  }

  /** '%' and the two hexadecimal digits of one byte. */
  function PercentEncodeByte(b: Byte): (r: string)
    ensures |r| == 3 && r[0] == '%' && r[1] != '%' && r[2] != '%'
  {
    ['%', HexDigit(b / 16), HexDigit(b % 16)]
  }

  function PercentEncodeBytes(bs: seq<Byte>): (r: string)
    ensures |r| == 3 * |bs|
  {
    if bs == [] then [] else PercentEncodeByte(bs[0]) + PercentEncodeBytes(bs[1..])
  }

  /** The escaped form of one character. */
  function EscapeChar(c: char): (r: string)
    ensures |r| >= 1
    ensures IsUnreserved(c) ==> r == [c]
  {
    if IsUnreserved(c) then [c] else PercentEncodeBytes(Utf8Encode(c))
  }

  /** Uri.EscapeDataString */
  function EscapeDataString(s: string): string {
    if s == [] then [] else EscapeChar(s[0]) + EscapeDataString(s[1..])
  }

  /** Reads n percent-encoded bytes from the start of t. */
  function PercentDecodeBytes(t: string, n: nat): Option<seq<Byte>> {
    if n == 0 then Some([])
    else if |t| < 3 || t[0] != '%' || HexValue(t[1]).None? || HexValue(t[2]).None? then None
    else
      var b := HexValue(t[1]).value * 16 + HexValue(t[2]).value;
      match PercentDecodeBytes(t[3..], n - 1)
      case None => None
      case Some(rest) => if b < 256 then Some([b as Byte] + rest) else None
  }

  /** Uri.UnescapeDataString, for percent-encoded UTF-8: the partner of
      EscapeDataString. */
  function UnescapeDataString(t: string): Option<string>
    decreases |t|
  {
    if t == [] then Some([])
    else if t[0] != '%' then
      match UnescapeDataString(t[1..])
      case None => None
      case Some(rest) => Some([t[0]] + rest)
    else if |t| < 3 || HexValue(t[1]).None? || HexValue(t[2]).None? then None
    else
      var lead := HexValue(t[1]).value * 16 + HexValue(t[2]).value;
      if lead >= 256 || Utf8SequenceLength(lead) == 0 || |t| < 3 * Utf8SequenceLength(lead) then None
      else
        var n := Utf8SequenceLength(lead);
        match PercentDecodeBytes(t, n)
        case None => None
        case Some(bs) =>
          match Utf8Decode(bs)
          case None => None
          case Some(c) =>
            match UnescapeDataString(t[3 * n..])
            case None => None
            case Some(rest) => Some([c] + rest)
  }

  lemma HexRoundTrip(n: nat)
    requires n < 16
    ensures HexValue(HexDigit(n)) == Some(n)
  {
  }

  /** The two hexadecimal digits after '%' give back the byte. */
  lemma PercentEncodeByteValue(b: Byte)
    ensures HexValue(PercentEncodeByte(b)[1]).Some? && HexValue(PercentEncodeByte(b)[2]).Some?
    ensures HexValue(PercentEncodeByte(b)[1]).value * 16 + HexValue(PercentEncodeByte(b)[2]).value == b
  {
    HexRoundTrip(b / 16);
    HexRoundTrip(b % 16);
  }

  lemma {:induction false} PercentDecodeEncoded(bs: seq<Byte>, rest: string)
    ensures PercentDecodeBytes(PercentEncodeBytes(bs) + rest, |bs|) == Some(bs)
  {
    if bs != [] {
      var p, u := PercentEncodeByte(bs[0]), PercentEncodeBytes(bs[1..]) + rest;
      assert PercentEncodeBytes(bs) + rest == p + u;
      PercentEncodeByteValue(bs[0]);
      PercentDecodeEncoded(bs[1..], rest);
      PercentDecodeStep(p, u, bs[0], bs[1..]);
      assert [bs[0]] + bs[1..] == bs;
    }
  }

  /** A '%' and two hexadecimal digits in front of n encoded bytes add one
      byte in front of what they decode to. */
  lemma PercentDecodeStep(p: string, u: string, b: Byte, tail: seq<Byte>)
    requires |p| == 3 && p[0] == '%'
    requires HexValue(p[1]).Some? && HexValue(p[2]).Some?
    requires HexValue(p[1]).value * 16 + HexValue(p[2]).value == b
    requires PercentDecodeBytes(u, |tail|) == Some(tail)
    ensures PercentDecodeBytes(p + u, |tail| + 1) == Some([b] + tail)
  {
    var t := p + u;
    assert t[0] == '%' && t[1] == p[1] && t[2] == p[2];
    assert t[3..] == u;
  }

  /** One step of UnescapeDataString at a '%' that starts a well-formed
      encoded character. */
  lemma UnescapeAtPercent(t: string, bs: seq<Byte>, c: char)
    requires 1 <= |bs| && |t| >= 3 * |bs| && t[0] == '%'
    requires HexValue(t[1]).Some? && HexValue(t[2]).Some?
    requires HexValue(t[1]).value * 16 + HexValue(t[2]).value == bs[0]
    requires Utf8SequenceLength(bs[0]) == |bs|
    requires PercentDecodeBytes(t, |bs|) == Some(bs)
    requires Utf8Decode(bs) == Some(c)
    ensures UnescapeDataString(t) ==
      match UnescapeDataString(t[3 * |bs|..])
      case None => None
      case Some(r) => Some([c] + r)
  {
  }

  /** Unescaping one escaped character, followed by anything, yields that
      character followed by the unescaping of the rest. */
  lemma UnescapeEscapeChar(c: char, rest: string)
    ensures UnescapeDataString(EscapeChar(c) + rest) ==
      match UnescapeDataString(rest)
      case None => None
      case Some(r) => Some([c] + r)
  {
    var t := EscapeChar(c) + rest;
    if IsUnreserved(c) {
      assert t[0] == c && t[1..] == rest;
    } else {
      var bs := Utf8Encode(c);
      Utf8RoundTrip(c);
      var p := PercentEncodeByte(bs[0]);
      assert t == p + (PercentEncodeBytes(bs[1..]) + rest);
      PercentEncodeByteValue(bs[0]);
      assert t[0] == '%' && t[1] == p[1] && t[2] == p[2];
      PercentDecodeEncoded(bs, rest);
      assert t[3 * |bs|..] == rest;
      UnescapeAtPercent(t, bs, c);
    }
  }

  /** Percent-encoding loses nothing: UnescapeDataString inverts EscapeDataString. */
  lemma {:induction false} UnescapeEscapeDataString(s: string)
    ensures UnescapeDataString(EscapeDataString(s)) == Some(s)
  {
    if s != [] {
      var e := EscapeDataString(s[1..]);
      assert EscapeDataString(s) == EscapeChar(s[0]) + e;
      UnescapeEscapeDataString(s[1..]);
      UnescapeEscapeChar(s[0], e);
      assert [s[0]] + s[1..] == s;
    }
  }

  /** Every character of an escaped string is unreserved, '%' or an
      upper-case hexadecimal digit; in particular it holds no '/', '?', '&'. */
  predicate IsEscapedText(t: string) {
    forall i :: 0 <= i < |t| ==> IsUnreserved(t[i]) || t[i] == '%'
  }

  lemma {:induction false} PercentEncodeBytesIsEscaped(bs: seq<Byte>)
    ensures IsEscapedText(PercentEncodeBytes(bs))
  {
    if bs != [] {
      PercentEncodeBytesIsEscaped(bs[1..]);
      var t := PercentEncodeBytes(bs);
      assert t == PercentEncodeByte(bs[0]) + PercentEncodeBytes(bs[1..]);
      var b := bs[0];
      assert IsUnreserved(HexDigit(b / 16)) && IsUnreserved(HexDigit(b % 16));
    }
  }

  lemma {:induction false} EscapeDataStringIsEscaped(s: string)
    ensures IsEscapedText(EscapeDataString(s))
  {
    if s != [] {
      EscapeDataStringIsEscaped(s[1..]);
      if !IsUnreserved(s[0]) { PercentEncodeBytesIsEscaped(Utf8Encode(s[0])); }
    }
  }

  /** Text made only of unreserved characters is left as it is. */
  lemma {:induction false} EscapeDataStringUnreserved(s: string)
    requires forall i :: 0 <= i < |s| ==> IsUnreserved(s[i])
    ensures EscapeDataString(s) == s
  {
    if s != [] { EscapeDataStringUnreserved(s[1..]); }
  }

  // ---------------------------------------------------------------------
  // UrlEncode and QueryEncode

  /** UrlEncode: null or empty input is returned as it is, anything else is
      percent-encoded. */
  function UrlEncode(input: Option<string>): (r: Option<string>)
    ensures input.None? || input == Some("") ==> r == input
    ensures input.Some? ==> r.Some? && UnescapeDataString(r.value) == Some(input.value)
    ensures input.Some? ==> IsEscapedText(r.value)
  {
    match input
    case None => None
    case Some(s) =>
      if s == [] then input
      else
        UnescapeEscapeDataString(s);
        EscapeDataStringIsEscaped(s);
        Some(EscapeDataString(s))
  }

  /** String.Replace(pat, rep): every non-overlapping occurrence of pat,
      found from left to right, replaced by rep. */
  function ReplaceAll(s: string, pat: string, rep: string): string
    requires pat != []
    decreases |s|
  {
    if |s| < |pat| then s
    else if s[..|pat|] == pat then rep + ReplaceAll(s[|pat|..], pat, rep)
    else [s[0]] + ReplaceAll(s[1..], pat, rep)
  }

  lemma ReplaceAllSkips(x: char, t: string)
    requires x != '%'
    ensures ReplaceAll([x] + t, "%2F", "/") == [x] + ReplaceAll(t, "%2F", "/")
  {
    assert ([x] + t)[1..] == t;
  }

  /** What QueryEncode makes of one character: '/' stays literal, every
      other character is escaped as by EscapeDataString. */
  function QueryEscapeChar(c: char): string {
    if c == '/' then "/" else EscapeChar(c)
  }

  function QueryEscape(s: string): string {
    if s == [] then [] else QueryEscapeChar(s[0]) + QueryEscape(s[1..])
  }

  lemma ReplaceAllPercentByte(b: Byte, t: string)
    requires b != 0x2F
    ensures ReplaceAll(PercentEncodeByte(b) + t, "%2F", "/") ==
      PercentEncodeByte(b) + ReplaceAll(t, "%2F", "/")
  {
    var p := PercentEncodeByte(b);
    assert p != "%2F" by { PercentEncodeByteValue(b); }
    var s := p + t;
    assert s[..3] == p;
    assert s[1..] == [p[1]] + ([p[2]] + t);
    ReplaceAllSkips(p[1], [p[2]] + t);
    ReplaceAllSkips(p[2], t);
  }

  lemma {:induction false} ReplaceAllPercentBytes(bs: seq<Byte>, rest: string)
    requires forall i :: 0 <= i < |bs| ==> bs[i] != 0x2F
    ensures ReplaceAll(PercentEncodeBytes(bs) + rest, "%2F", "/") ==
      PercentEncodeBytes(bs) + ReplaceAll(rest, "%2F", "/")
  {
    if bs != [] {
      ReplaceAllPercentBytes(bs[1..], rest);
      var p, q := PercentEncodeByte(bs[0]), PercentEncodeBytes(bs[1..]);
      ReplaceAllPercentByte(bs[0], q + rest);
      ReplaceAllPrefixes(p, q, rest, "%2F", "/");
      assert PercentEncodeBytes(bs) == PercentEncodeByte(bs[0]) + PercentEncodeBytes(bs[1..]);
    } else {
      assert PercentEncodeBytes(bs) + rest == rest;
    }
  }

  /** Two prefixes that ReplaceAll leaves alone one after the other are left
      alone together. */
  lemma ReplaceAllPrefixes(p: string, q: string, rest: string, pat: string, rep: string)
    requires pat != []
    requires ReplaceAll(p + (q + rest), pat, rep) == p + ReplaceAll(q + rest, pat, rep)
    requires ReplaceAll(q + rest, pat, rep) == q + ReplaceAll(rest, pat, rep)
    ensures ReplaceAll(p + q + rest, pat, rep) == p + q + ReplaceAll(rest, pat, rep)
  {
    assert p + q + rest == p + (q + rest);
  }

  /** Replacing "%2F" in escaped text touches exactly the escaped slashes. */
  lemma ReplaceAllEscapeChar(c: char, rest: string)
    ensures ReplaceAll(EscapeChar(c) + rest, "%2F", "/") == QueryEscapeChar(c) + ReplaceAll(rest, "%2F", "/")
  {
    if IsUnreserved(c) {
      ReplaceAllSkips(c, rest);
    } else if c == '/' {
      assert Utf8Encode(c) == [0x2F];
      assert EscapeChar(c) == "%2F";
      assert (EscapeChar(c) + rest)[3..] == rest;
    } else {
      var bs := Utf8Encode(c);
      assert forall i :: 0 <= i < |bs| ==> bs[i] != 0x2F;
      ReplaceAllPercentBytes(bs, rest);
    }
  }

  lemma {:induction false} QueryEscapeIsReplace(s: string)
    ensures ReplaceAll(EscapeDataString(s), "%2F", "/") == QueryEscape(s)
  {
    if s != [] {
      QueryEscapeIsReplace(s[1..]);
      ReplaceAllEscapeChar(s[0], EscapeDataString(s[1..]));
    }
  }

  lemma {:induction false} UnescapeQueryEscape(s: string)
    ensures UnescapeDataString(QueryEscape(s)) == Some(s)
  {
    if s != [] {
      UnescapeQueryEscape(s[1..]);
      var t := QueryEscape(s);
      if s[0] == '/' {
        assert t[0] == '/' && t[1..] == QueryEscape(s[1..]);
      } else {
        UnescapeEscapeChar(s[0], QueryEscape(s[1..]));
      }
      assert [s[0]] + s[1..] == s;
    }
  }

  /** Every character of query-escaped text is unreserved, '%' or '/';
      in particular it holds no '&'. */
  predicate IsQueryEscapedText(t: string) {
    forall i :: 0 <= i < |t| ==> IsUnreserved(t[i]) || t[i] == '%' || t[i] == '/'
  }

  lemma {:induction false} QueryEscapeIsQueryEscaped(s: string)
    ensures IsQueryEscapedText(QueryEscape(s))
  {
    if s != [] {
      QueryEscapeIsQueryEscaped(s[1..]);
      if s[0] != '/' && !IsUnreserved(s[0]) { PercentEncodeBytesIsEscaped(Utf8Encode(s[0])); }
    }
  }

  /** QueryEncode: UrlEncode, then every "%2F" turned back into '/'; so
      slashes survive literally and everything else is escaped, and the
      result still unescapes to the input. */
  function QueryEncode(input: Option<string>): (r: Option<string>)
    ensures input.None? || input == Some("") ==> r == input
    ensures input.Some? ==> r.Some? && r.value == QueryEscape(input.value)
    ensures input.Some? ==> UnescapeDataString(r.value) == Some(input.value)
    ensures input.Some? ==> IsQueryEscapedText(r.value)
  {
    var urlEncoded := UrlEncode(input);
    match urlEncoded
    case None => urlEncoded
    case Some(u) =>
      if u == [] then urlEncoded
      else
        QueryEscapeIsReplace(input.value);
        UnescapeQueryEscape(input.value);
        QueryEscapeIsQueryEscaped(input.value);
        Some(ReplaceAll(u, "%2F", "/"))
  }
}
