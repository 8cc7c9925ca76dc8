/**
 * The part of a JWS compact serialization (section 7.1 of RFC 7515) that the
 * client inspects: the access token is split on `.`, its second segment is
 * base64-decoded and the bytes are handed to a JSON parser. No signature is checked.
 */
module Jwt {
  import opened Wrappers
  import Base64

  /** A token pair as the server returns it (`access_token`, `refresh_token`). */
  datatype TokenPair = TokenPair(accessToken: string, refreshToken: string)

  /**
   * The claim the client reads. `pid` is `Some(s)` when the payload holds a
   * string `pid`; None when it is absent or not a string (such a value can
   * never be strictly equal to a client id).
   */
  datatype Claims = Claims(pid: Option<string>)

  /**
   * `JSON.parse(payload.toString())`, left uninterpreted: None when it throws
   * (the bytes are not JSON, or the value cannot be destructured).
   */
  type ClaimsParser = seq<Byte> -> Option<Claims>

  /** Parts joined with the separator between them. */
  function Join(parts: seq<string>, sep: char): string
    requires |parts| >= 1
  {
    if |parts| == 1 then parts[0] else parts[0] + [sep] + Join(parts[1..], sep)
  }

  /**
   * `s.split(sep)` for a one-character separator: the parts hold no separator
   * and joining them back gives `s`.
   */
  function Split(s: string, sep: char): (parts: seq<string>)
    ensures |parts| >= 1
    ensures forall i :: 0 <= i < |parts| ==> sep !in parts[i]
    ensures Join(parts, sep) == s
    decreases |s|
  {
    if s == [] then [""]
    else
      var rest := Split(s[1..], sep);
      if s[0] == sep then
        assert ([""] + rest)[1..] == rest;
        [""] + rest
      else
        var parts := [[s[0]] + rest[0]] + rest[1..];
        assert |rest| > 1 ==> parts[1..] == rest[1..];
        assert s == [s[0]] + s[1..];
        parts
  }

  /** There is a second segment exactly when the separator occurs. */
  lemma SplitHasSecondPart(s: string, sep: char)
    ensures |Split(s, sep)| >= 2 <==> sep in s
  {
  }

  lemma SplitWithoutSeparator(a: string, sep: char)
    requires sep !in a
    ensures Split(a, sep) == [a]
  {
  }

  lemma {:induction false} SplitAfterFirst(a: string, sep: char, t: string)
    requires sep !in a
    ensures Split(a + [sep] + t, sep) == [a] + Split(t, sep)
    decreases |a|
  {
    var s := a + [sep] + t;
    if a == [] {
      assert s[1..] == t;
    } else {
      assert s[1..] == a[1..] + [sep] + t;
      SplitAfterFirst(a[1..], sep, t);
      assert [a[0]] + a[1..] == a;
    }
  }

  /** Splitting undoes joining parts that hold no separator. */
  lemma {:induction false} SplitJoin(parts: seq<string>, sep: char)
    requires |parts| >= 1
    requires forall i :: 0 <= i < |parts| ==> sep !in parts[i]
    ensures Split(Join(parts, sep), sep) == parts
    decreases |parts|
  {
    if |parts| == 1 {
      SplitWithoutSeparator(parts[0], sep);
    } else {
      SplitJoin(parts[1..], sep);
      SplitAfterFirst(parts[0], sep, Join(parts[1..], sep));
      assert [parts[0]] + parts[1..] == parts;
    }
  }

  /** `token.split(".")[1]`: None (JavaScript's `undefined`) when the token has no `.`. */
  function PayloadSegment(token: string): (r: Option<string>)
    ensures r.Some? <==> '.' in token
    ensures r.Some? ==> '.' !in r.value
  {
    SplitHasSecondPart(token, '.');
    var parts := Split(token, '.');
    if |parts| >= 2 then Some(parts[1]) else None
  }

  /**
   * The claims of the token's payload: None where the client would throw
   * (no second segment, a segment that is not base64, or a parse failure).
   */
  function PayloadClaims(token: string, parse: ClaimsParser): (r: Option<Claims>)
    ensures '.' !in token ==> r == None
  {
    match PayloadSegment(token)
    case None => None
    case Some(segment) =>
      match Base64.Decode(segment)
      case None => None
      case Some(bytes) => parse(bytes)
  }

  /** A compact serialization `header.payload.signature` with a base64-encoded payload. */
  function Compact(header: string, payload: seq<Byte>, a: Base64.Alphabet, pad: bool, signature: string): string
  {
    header + "." + Base64.Encode(payload, a, pad) + "." + signature
  }

  /** The client reads back exactly the payload that was encoded into a well-formed token. */
  lemma PayloadOfCompact(header: string, payload: seq<Byte>, a: Base64.Alphabet, pad: bool,
                         signature: string, parse: ClaimsParser)
    requires '.' !in header && '.' !in signature
    ensures PayloadSegment(Compact(header, payload, a, pad, signature)) == Some(Base64.Encode(payload, a, pad))
    ensures PayloadClaims(Compact(header, payload, a, pad, signature), parse) == parse(payload)
  {
    var e := Base64.Encode(payload, a, pad);
    var token := Compact(header, payload, a, pad, signature);
    assert token == header + ['.'] + (e + ['.'] + signature);
    SplitAfterFirst(header, '.', e + ['.'] + signature);
    SplitAfterFirst(e, '.', signature);
    SplitWithoutSeparator(signature, '.');
    assert Split(token, '.') == [header, e, signature];
    Base64.DecodeEncode(payload, a, pad);
  }
}
