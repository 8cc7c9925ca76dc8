/**
 * Base64 decoding as Node's `Buffer.from(s, "base64")` performs it on
 * well-formed input: both the alphabet of section 4 of RFC 4648 (`+`, `/`)
 * and the URL-safe alphabet of section 5 (`-`, `_`) are accepted, and the
 * trailing `=` padding is optional. An encoder for either alphabet, with or
 * without padding, is the decoder's inverse.
 */
module Base64 {
  import opened Wrappers

  datatype Alphabet = Standard | UrlSafe

  /** The character for a six-bit value in the given alphabet. */
  function SextetChar(v: int, a: Alphabet): (c: char)
    requires 0 <= v < 64
    ensures c != '=' && c != '.'
  {
    if v < 26 then ('A' as int + v) as char
    else if v < 52 then ('a' as int + v - 26) as char
    else if v < 62 then ('0' as int + v - 52) as char
    else if v == 62 then (if a == Standard then '+' else '-')
    else (if a == Standard then '/' else '_')
  }

  /** The six-bit value of a character of either alphabet, or None. */
  function SextetValue(c: char): (r: Option<int>)
    ensures r.Some? ==> 0 <= r.value < 64
  {
    if 'A' <= c <= 'Z' then Some(c as int - 'A' as int)
    else if 'a' <= c <= 'z' then Some(c as int - 'a' as int + 26)
    else if '0' <= c <= '9' then Some(c as int - '0' as int + 52)
    else if c == '+' || c == '-' then Some(62)
    else if c == '/' || c == '_' then Some(63)
    else None
  }

  lemma SextetValueOfChar(v: int, a: Alphabet)
    requires 0 <= v < 64
    ensures SextetValue(SextetChar(v, a)) == Some(v)
  {
  }

  predicate IsSextets(vs: seq<int>) {
    forall i :: 0 <= i < |vs| ==> 0 <= vs[i] < 64
  }

  /** Length of the unpadded encoding of `n` bytes. */
  function UnpaddedLength(n: nat): nat {
    4 * (n / 3) + (if n % 3 == 0 then 0 else n % 3 + 1)
  }

  /** Every three bytes become four six-bit values; a final one or two bytes become two or three. */
  function EncodeSextets(bs: seq<Byte>): (vs: seq<int>)
    ensures IsSextets(vs)
    ensures |vs| == UnpaddedLength(|bs|)
  {
    if |bs| == 0 then []
    else if |bs| == 1 then [bs[0] / 4, (bs[0] % 4) * 16]
    else if |bs| == 2 then [bs[0] / 4, (bs[0] % 4) * 16 + bs[1] / 16, (bs[1] % 16) * 4]
    else EncodeGroup(bs[0], bs[1], bs[2]) + EncodeSextets(bs[3..])
  }

  /** Three bytes, 24 bits, as four six-bit values, most significant first. */
  function EncodeGroup(b0: Byte, b1: Byte, b2: Byte): (vs: seq<int>)
    ensures |vs| == 4 && IsSextets(vs)
  {
    [b0 / 4, (b0 % 4) * 16 + b1 / 16, (b1 % 16) * 4 + b2 / 64, b2 % 64]
  }

  function SextetsToChars(vs: seq<int>, a: Alphabet): (s: string)
    requires IsSextets(vs)
    ensures |s| == |vs|
    ensures forall i :: 0 <= i < |s| ==> s[i] != '=' && s[i] != '.' && SextetValue(s[i]) == Some(vs[i])
  {
    seq(|vs|, i requires 0 <= i < |vs| => SextetValueOfChar(vs[i], a); SextetChar(vs[i], a))
  }

  function Padding(n: nat): string {
    if n % 3 == 1 then "==" else if n % 3 == 2 then "=" else ""
  }

  /** Base64 encoding of bytes in the given alphabet, padded to a multiple of four or not. */
  function Encode(bs: seq<Byte>, a: Alphabet, pad: bool): (s: string)
    ensures pad ==> |s| % 4 == 0
    ensures '.' !in s
  {
    PaddedLength(|bs|);
    SextetsToChars(EncodeSextets(bs), a) + (if pad then Padding(|bs|) else "")
  }

  /** The unpadded length and the padding together fill whole groups of four. */
  lemma PaddedLength(n: nat)
    ensures (UnpaddedLength(n) + |Padding(n)|) % 4 == 0
  {
    var q, r := n / 3, n % 3;
    assert UnpaddedLength(n) + |Padding(n)| == 4 * q + (if r == 0 then 0 else 4);
  }

  /** Drops one or two trailing `=` from a string whose length is a multiple of four. */
  function Unpad(s: string): (r: string)
    ensures r <= s && |s| - 2 <= |r|
  {
    if |s| % 4 == 0 && |s| >= 2 && s[|s| - 1] == '=' then
      if s[|s| - 2] == '=' then s[..|s| - 2] else s[..|s| - 1]
    else s
  }

  /** The six-bit values of the characters of `s`, or None if one is outside both alphabets. */
  function Sextets(s: string): (r: Option<seq<int>>)
    ensures r.Some? <==> forall i :: 0 <= i < |s| ==> SextetValue(s[i]).Some?
    ensures r.Some? ==> |r.value| == |s| && IsSextets(r.value)
    ensures r.Some? ==> forall i :: 0 <= i < |s| ==> SextetValue(s[i]) == Some(r.value[i])
  {
    if s == [] then Some([])
    else match SextetValue(s[0])
      case None => None
      case Some(v) =>
        match Sextets(s[1..])
        case None => None
        case Some(vs) => Some([v] + vs)
  }

  /** Groups of four six-bit values give three bytes; a final two or three give one or two; a final one is malformed. */
  function DecodeSextets(vs: seq<int>): (r: Option<seq<Byte>>)
    requires IsSextets(vs)
  {
    if |vs| == 0 then Some([])
    else if |vs| == 1 then None
    else if |vs| == 2 then Some([vs[0] * 4 + vs[1] / 16])
    else if |vs| == 3 then Some([vs[0] * 4 + vs[1] / 16, (vs[1] % 16) * 16 + vs[2] / 4])
    else
      match DecodeSextets(vs[4..])
      case None => None
      case Some(rest) =>
        Some([vs[0] * 4 + vs[1] / 16, (vs[1] % 16) * 16 + vs[2] / 4, (vs[2] % 4) * 64 + vs[3]] + rest)
  }

  /** `Buffer.from(s, "base64")` on well-formed input; None where the input is not well formed. */
  function Decode(s: string): (r: Option<seq<Byte>>)
    ensures r.Some? <==> (forall i :: 0 <= i < |Unpad(s)| ==> SextetValue(Unpad(s)[i]).Some?) && |Unpad(s)| % 4 != 1
    ensures var n := |Unpad(s)|;
            r.Some? ==> |r.value| == 3 * (n / 4) + (if n % 4 == 0 then 0 else n % 4 - 1)
  {
    match Sextets(Unpad(s))
    case None => None
    case Some(vs) => DecodedLength(vs); DecodeSextets(vs)
  }

  // ---------------------------------------------------------------------------
  // Properties

  lemma {:induction false} SextetsOfChars(vs: seq<int>, a: Alphabet)
    requires IsSextets(vs)
    ensures Sextets(SextetsToChars(vs, a)) == Some(vs)
  {
    if vs != [] {
      var s := SextetsToChars(vs, a);
      assert s[1..] == SextetsToChars(vs[1..], a);
      SextetsOfChars(vs[1..], a);
      assert [vs[0]] + vs[1..] == vs;
    }
  }

  /** The bit arithmetic of one group: the decoder's shifts and masks undo the encoder's. */
  lemma GroupArithmetic(b0: Byte, b1: Byte, b2: Byte)
    ensures (b0 / 4) * 4 + ((b0 % 4) * 16 + b1 / 16) / 16 == b0
    ensures (((b0 % 4) * 16 + b1 / 16) % 16) * 16 + ((b1 % 16) * 4 + b2 / 64) / 4 == b1
    ensures (((b1 % 16) * 4 + b2 / 64) % 4) * 64 + b2 % 64 == b2
  {
    assert ((b0 % 4) * 16 + b1 / 16) / 16 == b0 % 4;
    assert ((b0 % 4) * 16 + b1 / 16) % 16 == b1 / 16;
    assert ((b1 % 16) * 4 + b2 / 64) / 4 == b1 % 16;
    assert ((b1 % 16) * 4 + b2 / 64) % 4 == b2 / 64;
  }

  lemma DecodeGroupThen(b0: Byte, b1: Byte, b2: Byte, t: seq<int>, rest: seq<Byte>)
    requires IsSextets(t) && DecodeSextets(t) == Some(rest)
    ensures DecodeSextets(EncodeGroup(b0, b1, b2) + t) == Some([b0, b1, b2] + rest)
  {
    var g := EncodeGroup(b0, b1, b2);
    DecodeSextetsCons(g, t, rest);
    GroupArithmetic(b0, b1, b2);
    assert [g[0] * 4 + g[1] / 16, (g[1] % 16) * 16 + g[2] / 4, (g[2] % 4) * 64 + g[3]] == [b0, b1, b2];
  }

  /** A full group of four values decodes to three bytes, followed by the decoding of the rest. */
  lemma DecodeSextetsCons(g: seq<int>, t: seq<int>, rest: seq<Byte>)
    requires |g| == 4 && IsSextets(g) && IsSextets(t) && DecodeSextets(t) == Some(rest)
    ensures DecodeSextets(g + t) ==
            Some([g[0] * 4 + g[1] / 16, (g[1] % 16) * 16 + g[2] / 4, (g[2] % 4) * 64 + g[3]] + rest)
  {
    assert (g + t)[4..] == t;
    assert (g + t)[..4] == g;
  }

  lemma {:induction false} DecodeEncodeSextets(bs: seq<Byte>)
    ensures DecodeSextets(EncodeSextets(bs)) == Some(bs)
  {
    if |bs| == 1 {
      GroupArithmetic(bs[0], 0, 0);
      assert [bs[0]] == bs;
    } else if |bs| == 2 {
      GroupArithmetic(bs[0], bs[1], 0);
      assert [bs[0], bs[1]] == bs;
    } else if |bs| >= 3 {
      DecodeEncodeSextets(bs[3..]);
      DecodeGroupThen(bs[0], bs[1], bs[2], EncodeSextets(bs[3..]), bs[3..]);
      assert [bs[0], bs[1], bs[2]] + bs[3..] == bs;
    }
  }

  /** Removing the padding of an encoding gives the unpadded encoding. */
  lemma UnpadOfEncode(bs: seq<Byte>, a: Alphabet, pad: bool)
    ensures Unpad(Encode(bs, a, pad)) == Encode(bs, a, false)
  {
  }

  /** Decoding undoes encoding, whichever alphabet and padding the encoder used. */
  lemma DecodeEncode(bs: seq<Byte>, a: Alphabet, pad: bool)
    ensures Decode(Encode(bs, a, pad)) == Some(bs)
  {
    UnpadOfEncode(bs, a, pad);
    assert Encode(bs, a, false) == SextetsToChars(EncodeSextets(bs), a);
    SextetsOfChars(EncodeSextets(bs), a);
    DecodeEncodeSextets(bs);
  }

  /** A leftover single character can never be decoded. */
  lemma {:induction false} DecodedLength(vs: seq<int>)
    requires IsSextets(vs)
    ensures DecodeSextets(vs).Some? <==> |vs| % 4 != 1
    ensures DecodeSextets(vs).Some? ==> |DecodeSextets(vs).value| == 3 * (|vs| / 4) + (if |vs| % 4 == 0 then 0 else |vs| % 4 - 1)
  {
    if |vs| >= 4 {
      DecodedLength(vs[4..]);
    }
  }
}
