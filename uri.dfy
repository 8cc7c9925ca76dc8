/**
 * `encodeURIComponent` of ECMA-262 (section 19.2.6, "URI Handling Functions"),
 * which percent-encodes as in section 2.1 of RFC 3986, together with its
 * inverse: percent-decoding followed by strict UTF-8 decoding (RFC 3629).
 *
 * Dafny's `char` is a Unicode scalar value, so a string here never holds a
 * lone surrogate; every character is encoded as the UTF-8 bytes of its code point.
 */
module Uri {
  import opened Wrappers

  /** The characters `encodeURIComponent` leaves as they are. */
  predicate Unreserved(c: char) {
    ('A' <= c <= 'Z') || ('a' <= c <= 'z') || ('0' <= c <= '9') ||
    c == '-' || c == '_' || c == '.' || c == '!' || c == '~' ||
    c == '*' || c == '\'' || c == '(' || c == ')'
  }

  /** Upper-case hexadecimal digit for a value below 16, as `encodeURIComponent` writes it. */
  function HexDigit(d: int): (c: char)
    requires 0 <= d < 16
    ensures Unreserved(c) && c != '%'
  {
    if d < 10 then ('0' as int + d) as char else ('A' as int + d - 10) as char
  }

  /** The value of a hexadecimal digit of either case, or None. */
  function HexValue(c: char): (r: Option<int>)
    ensures r.Some? ==> 0 <= r.value < 16
  {
    if '0' <= c <= '9' then Some(c as int - '0' as int)
    else if 'A' <= c <= 'F' then Some(c as int - 'A' as int + 10)
    else if 'a' <= c <= 'f' then Some(c as int - 'a' as int + 10)
    else None
  }

  lemma HexValueOfDigit(d: int)
    requires 0 <= d < 16
    ensures HexValue(HexDigit(d)) == Some(d)
  {
  }

  /** UTF-8 encoding of one code point: one to four bytes. */
  function CharBytes(c: char): (bs: seq<Byte>)
    ensures 1 <= |bs| <= 4
  {
    var cp := c as int;
    if cp < 0x80 then [cp]
    else if cp < 0x800 then [0xC0 + cp / 64, 0x80 + cp % 64]
    else if cp < 0x10000 then [0xE0 + cp / 64 / 64, 0x80 + cp / 64 % 64, 0x80 + cp % 64]
    else [0xF0 + cp / 64 / 64 / 64, 0x80 + cp / 64 / 64 % 64, 0x80 + cp / 64 % 64, 0x80 + cp % 64]
  }

  /** UTF-8 encoding of a string. */
  function Utf8Encode(s: string): (bs: seq<Byte>)
    ensures |s| <= |bs| <= 4 * |s|
  {
    if s == [] then [] else CharBytes(s[0]) + Utf8Encode(s[1..])
  }

  /** `%XX` for every byte, with upper-case hexadecimal digits. */
  function PercentEncodeBytes(bs: seq<Byte>): (r: string)
    ensures |r| == 3 * |bs|
    ensures forall i :: 0 <= i < |r| ==> Unreserved(r[i]) || r[i] == '%'
  {
    if bs == [] then [] else Triple(bs[0]) + PercentEncodeBytes(bs[1..])
  }

  /** `%XX` for one byte. */
  function Triple(b: Byte): (r: string)
    ensures |r| == 3 && r[0] == '%' && Unreserved(r[1]) && Unreserved(r[2])
  {
    ['%', HexDigit(b / 16), HexDigit(b % 16)]
  }

  /** One character as `encodeURIComponent` writes it. */
  function EncodeChar(c: char): (r: string)
    ensures Unreserved(c) ==> r == [c]
    ensures !Unreserved(c) ==> r == PercentEncodeBytes(CharBytes(c))
  {
    if Unreserved(c) then [c] else PercentEncodeBytes(CharBytes(c))
  }

  /**
   * `encodeURIComponent(s)`: every output character is unreserved or the `%`
   * that opens a triple, and the output is never shorter than the input.
   */
  function EncodeURIComponent(s: string): (r: string)
    ensures |s| <= |r|
    ensures forall i :: 0 <= i < |r| ==> Unreserved(r[i]) || r[i] == '%'
  {
    if s == [] then [] else EncodeChar(s[0]) + EncodeURIComponent(s[1..])
  }

  /** Only unreserved characters and `%XX` triples of hexadecimal digits. */
  predicate WellEncoded(s: string)
    decreases |s|
  {
    if s == [] then true
    else if s[0] == '%' then
      |s| >= 3 && HexValue(s[1]).Some? && HexValue(s[2]).Some? && WellEncoded(s[3..])
    else Unreserved(s[0]) && WellEncoded(s[1..])
  }

  /**
   * Percent-decoding: each `%XX` triple gives one byte, any other character
   * gives its own UTF-8 bytes; a `%` not followed by two hexadecimal digits is an error.
   */
  function PercentDecode(s: string): (r: Option<seq<Byte>>)
    decreases |s|
  {
    if s == [] then Some([])
    else if s[0] == '%' then
      if |s| >= 3 && HexValue(s[1]).Some? && HexValue(s[2]).Some? then
        match PercentDecode(s[3..])
        case None => None
        case Some(rest) => Some([16 * HexValue(s[1]).value + HexValue(s[2]).value] + rest)
      else None
    else
      match PercentDecode(s[1..])
      case None => None
      case Some(rest) => Some(CharBytes(s[0]) + rest)
  }

  predicate IsContinuation(b: Byte) { 0x80 <= b < 0xC0 }

  /**
   * Strict UTF-8 decoding of the code point at the head of `bs` (no overlong
   * forms, no surrogates, nothing above U+10FFFF): the character and the number
   * of bytes it used.
   */
  function DecodeScalar(bs: seq<Byte>): (r: Option<(char, nat)>)
    requires |bs| >= 1
    ensures r.Some? ==> 1 <= r.value.1 <= |bs| && r.value.1 <= 4
  {
    var b0: int := bs[0];
    if b0 < 0x80 then Some((b0 as char, 1))
    else if 0xC2 <= b0 < 0xE0 then
      if |bs| >= 2 && IsContinuation(bs[1]) then
        Some((((b0 - 0xC0) * 64 + (bs[1] as int - 0x80)) as char, 2))
      else None
    else if 0xE0 <= b0 < 0xF0 then
      if |bs| >= 3 && IsContinuation(bs[1]) && IsContinuation(bs[2]) then
        var cp := ((b0 - 0xE0) * 64 + (bs[1] as int - 0x80)) * 64 + (bs[2] as int - 0x80);
        if 0x800 <= cp && !(0xD800 <= cp < 0xE000) then Some((cp as char, 3)) else None
      else None
    else if 0xF0 <= b0 < 0xF5 then
      if |bs| >= 4 && IsContinuation(bs[1]) && IsContinuation(bs[2]) && IsContinuation(bs[3]) then
        var cp := (((b0 - 0xF0) * 64 + (bs[1] as int - 0x80)) * 64 + (bs[2] as int - 0x80)) * 64 + (bs[3] as int - 0x80);
        if 0x10000 <= cp <= 0x10FFFF then Some((cp as char, 4)) else None
      else None
    else None
  }

  /** Strict UTF-8 decoding of a whole byte sequence. */
  function Utf8Decode(bs: seq<Byte>): (r: Option<string>)
    decreases |bs|
  {
    if bs == [] then Some([])
    else match DecodeScalar(bs)
      case None => None
      case Some((c, n)) =>
        match Utf8Decode(bs[n..])
        case None => None
        case Some(rest) => Some([c] + rest)
  }

  /** `decodeURIComponent`: percent-decoding, then UTF-8 decoding. */
  function DecodeURIComponent(s: string): Option<string>
  {
    match PercentDecode(s)
    case None => None
    case Some(bs) => Utf8Decode(bs)
  }

  // ---------------------------------------------------------------------------
  // Properties

  /** The encoding consists of unreserved characters and `%XX` triples only. */
  lemma {:induction false} EncodeIsWellEncoded(s: string)
    ensures WellEncoded(EncodeURIComponent(s))
  {
    if s != [] {
      EncodeIsWellEncoded(s[1..]);
      EncodeCharThenWellEncoded(s[0], EncodeURIComponent(s[1..]));
    }
  }

  lemma EncodeCharThenWellEncoded(c: char, t: string)
    requires WellEncoded(t)
    ensures WellEncoded(EncodeChar(c) + t)
  {
    if Unreserved(c) {
      assert ([c] + t)[1..] == t;
    } else {
      PercentBytesThenWellEncoded(CharBytes(c), t);
    }
  }

  lemma TripleThenWellEncoded(b: Byte, u: string)
    requires WellEncoded(u)
    ensures WellEncoded(Triple(b) + u)
  {
    assert (Triple(b) + u)[3..] == u;
    HexValueOfDigit(b / 16);
    HexValueOfDigit(b % 16);
  }

  lemma {:induction false} PercentBytesThenWellEncoded(bs: seq<Byte>, t: string)
    requires WellEncoded(t)
    ensures WellEncoded(PercentEncodeBytes(bs) + t)
  {
    if bs != [] {
      PercentBytesThenWellEncoded(bs[1..], t);
      ConcatAssoc(Triple(bs[0]), PercentEncodeBytes(bs[1..]), t);
      TripleThenWellEncoded(bs[0], PercentEncodeBytes(bs[1..]) + t);
    } else {
      assert PercentEncodeBytes(bs) + t == t;
    }
  }

  /** The encoding never contains a raw query delimiter or path separator. */
  lemma NoQueryDelimiters(s: string)
    ensures forall i :: 0 <= i < |EncodeURIComponent(s)| ==> EncodeURIComponent(s)[i] !in "?&=/#+ "
  {
  }

  /** A string of unreserved characters is encoded as itself. */
  lemma {:induction false} EncodeUnreservedIsIdentity(s: string)
    requires forall i :: 0 <= i < |s| ==> Unreserved(s[i])
    ensures EncodeURIComponent(s) == s
  {
    if s != [] {
      EncodeUnreservedIsIdentity(s[1..]);
    }
  }

  /** Encoding works character by character, so it distributes over concatenation. */
  lemma {:induction false} EncodeConcat(s: string, t: string)
    ensures EncodeURIComponent(s + t) == EncodeURIComponent(s) + EncodeURIComponent(t)
  {
    if s == [] {
      assert s + t == t;
    } else {
      assert (s + t)[1..] == s[1..] + t;
      EncodeConcat(s[1..], t);
    }
  }

  /** Upper-case hexadecimal digits for reserved ASCII characters; an unreserved one is kept. */
  lemma EncodeCharExamples()
    ensures EncodeChar(':') == "%3A" && EncodeChar('/') == "%2F" && EncodeChar(' ') == "%20"
    ensures EncodeChar('~') == "~"
  {
  }

  /** A non-ASCII character becomes one triple per UTF-8 byte. */
  lemma EncodeNonAsciiExample()
    ensures EncodeChar('\U{E9}') == "%C3%A9"
  {
    assert CharBytes('\U{E9}') == [0xC3, 0xA9];
    assert Triple(0xC3) == "%C3";
    assert Triple(0xA9) == "%A9";
    assert PercentEncodeBytes([0xA9]) == Triple(0xA9) + PercentEncodeBytes([]);
  }

  /** A single character is encoded as `EncodeChar` encodes it. */
  lemma EncodeSingle(c: char)
    ensures EncodeURIComponent([c]) == EncodeChar(c)
  {
    assert [c][1..] == [];
  }

  /** The separators of a `scheme://host/path` URL. */
  lemma EncodeSeparators()
    ensures EncodeURIComponent("://") == "%3A%2F%2F"
    ensures EncodeURIComponent("/") == "%2F"
  {
    EncodeCharExamples();
    EncodeSingle('/');
    EncodeSingle(':');
    assert "//" == "/" + "/";
    EncodeConcat("/", "/");
    assert "://" == ":" + "//";
    EncodeConcat(":", "//");
  }

  /** Between unreserved parts, only the two separators change. */
  lemma EncodeJoin(a: string, sep1: string, b: string, sep2: string, c: string)
    requires forall i :: 0 <= i < |a| ==> Unreserved(a[i])
    requires forall i :: 0 <= i < |b| ==> Unreserved(b[i])
    requires forall i :: 0 <= i < |c| ==> Unreserved(c[i])
    ensures EncodeURIComponent(a + sep1 + b + sep2 + c) ==
            a + EncodeURIComponent(sep1) + b + EncodeURIComponent(sep2) + c
  {
    EncodeUnreservedIsIdentity(a);
    EncodeUnreservedIsIdentity(b);
    EncodeUnreservedIsIdentity(c);
    EncodeConcat(a, sep1);
    EncodeConcat(a + sep1, b);
    EncodeConcat(a + sep1 + b, sep2);
    EncodeConcat(a + sep1 + b + sep2, c);
  }

  /** A `scheme://host/path` URL whose three parts are unreserved keeps them and escapes its separators. */
  lemma EncodeSchemeHostPath(scheme: string, host: string, path: string)
    requires forall i :: 0 <= i < |scheme| ==> Unreserved(scheme[i])
    requires forall i :: 0 <= i < |host| ==> Unreserved(host[i])
    requires forall i :: 0 <= i < |path| ==> Unreserved(path[i])
    ensures EncodeURIComponent(scheme + "://" + host + "/" + path) == scheme + "%3A%2F%2F" + host + "%2F" + path
  {
    EncodeJoin(scheme, "://", host, "/", path);
    EncodeSeparators();
  }

  lemma DecodeTriple(b: Byte, u: string, rest: seq<Byte>)
    requires PercentDecode(u) == Some(rest)
    ensures PercentDecode(Triple(b) + u) == Some([b] + rest)
  {
    assert (Triple(b) + u)[3..] == u;
    HexValueOfDigit(b / 16);
    HexValueOfDigit(b % 16);
  }

  lemma ConcatAssoc<T>(a: seq<T>, b: seq<T>, c: seq<T>)
    ensures (a + b) + c == a + (b + c)
  {
  }

  /** Percent-decoding undoes percent-encoding of raw bytes. */
  lemma {:induction false} PercentDecodeBytes(bs: seq<Byte>, t: string, rest: seq<Byte>)
    requires PercentDecode(t) == Some(rest)
    ensures PercentDecode(PercentEncodeBytes(bs) + t) == Some(bs + rest)
  {
    if bs != [] {
      var u := PercentEncodeBytes(bs[1..]) + t;
      PercentDecodeBytes(bs[1..], t, rest);
      ConcatAssoc(Triple(bs[0]), PercentEncodeBytes(bs[1..]), t);
      DecodeTriple(bs[0], u, bs[1..] + rest);
      ConcatAssoc([bs[0]], bs[1..], rest);
      assert [bs[0]] + bs[1..] == bs;
    } else {
      assert PercentEncodeBytes(bs) + t == t;
      assert bs + rest == rest;
    }
  }

  /** Percent-decoding the encoding gives the UTF-8 bytes of the original. */
  lemma {:induction false} PercentDecodeOfEncode(s: string)
    ensures PercentDecode(EncodeURIComponent(s)) == Some(Utf8Encode(s))
  {
    if s != [] {
      PercentDecodeOfEncode(s[1..]);
      var t := EncodeURIComponent(s[1..]);
      if Unreserved(s[0]) {
        assert ([s[0]] + t)[1..] == t;
      } else {
        PercentDecodeBytes(CharBytes(s[0]), t, Utf8Encode(s[1..]));
      }
    }
  }

  /** Decoding the UTF-8 bytes of a character gives back that character. */
  lemma DecodeScalarOfCharBytes(c: char, t: seq<Byte>)
    ensures DecodeScalar(CharBytes(c) + t) == Some((c, |CharBytes(c)|))
  {
  }

  /** UTF-8 decoding undoes UTF-8 encoding. */
  lemma {:induction false} Utf8RoundTrip(s: string)
    ensures Utf8Decode(Utf8Encode(s)) == Some(s)
  {
    if s != [] {
      var bs := Utf8Encode(s);
      DecodeScalarOfCharBytes(s[0], Utf8Encode(s[1..]));
      assert bs[|CharBytes(s[0])|..] == Utf8Encode(s[1..]);
      Utf8RoundTrip(s[1..]);
      assert [s[0]] + s[1..] == s;
    }
  }

  /** `decodeURIComponent(encodeURIComponent(s)) == s` for every string. */
  lemma EncodeRoundTrip(s: string)
    ensures DecodeURIComponent(EncodeURIComponent(s)) == Some(s)
  {
    PercentDecodeOfEncode(s);
    Utf8RoundTrip(s);
  }
}
