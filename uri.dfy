/** Percent-decoding of a URI component, as `decodeURIComponent` does it
    (the Decode operation of ECMA-262, section 18.2.6.1.2 of the 10th edition,
    over the percent-encoding of section 2.1 of RFC 3986), together with
    `encodeURIComponent` (section 18.2.6.1.1) as its inverse. */
module Uri {
  import opened Common

  /** The outcome of `decodeURIComponent`: the decoded string, or the URIError it throws. */
  datatype Decoded = Ok(value: string) | UriError

  /** Puts `c` in front of a successful result; an error stays an error. */
  function Prepend(c: char, d: Decoded): (r: Decoded)
    ensures r.Ok? <==> d.Ok?
    ensures d.Ok? ==> r.value == [c] + d.value
  {
    match d
    case Ok(v) => Ok([c] + v)
    case UriError => UriError
  }

  /** The value of a hexadecimal digit, in either case. */
  function HexValue(c: char): (r: Option<int>)
    ensures r.Some? ==> 0 <= r.value < 16
  {
    if '0' <= c <= '9' then Some(c as int - '0' as int)
    else if 'a' <= c <= 'f' then Some(c as int - 'a' as int + 10)
    else if 'A' <= c <= 'F' then Some(c as int - 'A' as int + 10)
    else None
  }

  /** The octet written "%XY" at the front of `s`, if `s` starts with one. */
  function Octet(s: string): (r: Option<int>)
    ensures r.Some? ==> 0 <= r.value < 256 && |s| >= 3 && s[0] == '%'
  {
    if |s| >= 3 && s[0] == '%' then
      match (HexValue(s[1]), HexValue(s[2]))
      case (Some(h), Some(l)) => Some(16 * h + l)
      case _ => None
    else None
  }

  /** The number of octets a UTF-8 sequence has when it starts with the
      non-ASCII octet `b`: the count of its leading one bits (1 and 5 are invalid). */
  function LeadLength(b: int): (n: int)
    requires 0x80 <= b < 0x100
    ensures 1 <= n <= 5
    ensures n == 2 <==> 0xC0 <= b < 0xE0
    ensures n == 3 <==> 0xE0 <= b < 0xF0
    ensures n == 4 <==> 0xF0 <= b < 0xF8
  {
    if b < 0xC0 then 1 else if b < 0xE0 then 2 else if b < 0xF0 then 3 else if b < 0xF8 then 4 else 5
  }

  /** Reads `m` continuation octets (each of the form 10xxxxxx) written "%XY" from the front of `s`. */
  function Continuations(s: string, m: nat): (r: Option<seq<int>>)
    ensures r.Some? ==> |r.value| == m && 3 * m <= |s|
    ensures r.Some? ==> forall i :: 0 <= i < m ==> 0x80 <= r.value[i] < 0xC0
  {
    if m == 0 then Some([])
    else match Octet(s)
      case None => None
      case Some(b) =>
        if 0x80 <= b < 0xC0 then
          match Continuations(s[3..], m - 1)
          case None => None
          case Some(rest) => Some([b] + rest)
        else None
  }

  /** A Unicode scalar value: what a `char` holds. */
  predicate IsScalar(v: int) {
    0 <= v < 0xD800 || 0xE000 <= v < 0x11_0000
  }

  /** The code point a UTF-8 sequence encodes, given its lead octet and continuation
      octets, or None when the sequence is overlong, a surrogate or beyond U+10FFFF. */
  function CodePoint(lead: int, cont: seq<int>): (r: Option<char>)
    requires 0xC0 <= lead < 0xF8 && |cont| == LeadLength(lead) - 1
    requires forall i :: 0 <= i < |cont| ==> 0x80 <= cont[i] < 0xC0
    ensures r.Some? ==> r.value as int >= 0x80
  {
    if |cont| == 1 then
      var v := (lead - 0xC0) * 64 + (cont[0] - 0x80);
      if v >= 0x80 then Some(v as char) else None
    else if |cont| == 2 then
      var v := (lead - 0xE0) * 4096 + (cont[0] - 0x80) * 64 + (cont[1] - 0x80);
      if v >= 0x800 && IsScalar(v) then Some(v as char) else None
    else
      var v := (lead - 0xF0) * 262144 + (cont[0] - 0x80) * 4096 + (cont[1] - 0x80) * 64 + (cont[2] - 0x80);
      if 0x1_0000 <= v < 0x11_0000 then Some(v as char) else None
  }

  /** `decodeURIComponent`: every "%XY" escape, or run of escapes forming one UTF-8
      sequence, becomes the character it encodes; anything else is copied. A '%' not
      followed by two hexadecimal digits, or octets that are not valid UTF-8, make it throw. */
  function DecodeComponent(s: string): (r: Decoded)
    ensures r.Ok? ==> |r.value| <= |s|
    decreases |s|
  {
    if s == [] then Ok([])
    else if s[0] != '%' then Prepend(s[0], DecodeComponent(s[1..]))
    else match Octet(s)
      case None => UriError
      case Some(b) =>
        if b < 0x80 then Prepend(b as char, DecodeComponent(s[3..]))
        else
          var n := LeadLength(b);
          if n == 1 || n == 5 then UriError
          else match Continuations(s[3..], n - 1)
            case None => UriError
            case Some(cont) =>
              match CodePoint(b, cont)
              case None => UriError
              case Some(c) => Prepend(c, DecodeComponent(s[3 * n..]))
  }

  /** A string with no '%' in it decodes to itself. */
  lemma {:induction false} DecodeWithoutPercent(s: string)
    requires forall i :: 0 <= i < |s| ==> s[i] != '%'
    ensures DecodeComponent(s) == Ok(s)
  {
    if s != [] {
      DecodeWithoutPercent(s[1..]);
      assert [s[0]] + s[1..] == s;
    }
  }

  /** A '%' that is not followed by two hexadecimal digits makes decoding throw. */
  lemma DecodeMalformedEscape(s: string)
    requires |s| > 0 && s[0] == '%'
    requires |s| < 3 || HexValue(s[1]).None? || HexValue(s[2]).None?
    ensures DecodeComponent(s) == UriError
  {
  }

  // ---- encodeURIComponent, the inverse ----

  /** The characters `encodeURIComponent` leaves as they are: letters, digits and - _ . ! ~ * ' ( ). */
  predicate Unreserved(c: char) {
    ('a' <= c <= 'z') || ('A' <= c <= 'Z') || ('0' <= c <= '9')
    || c in {'-', '_', '.', '!', '~', '*', '\'', '(', ')'}
  }

  /** An upper-case hexadecimal digit. */
  function HexChar(d: int): (c: char)
    requires 0 <= d < 16
    ensures HexValue(c) == Some(d)
    ensures '0' <= c <= '9' || 'A' <= c <= 'F'
  {
    if d < 10 then (d + '0' as int) as char else (d - 10 + 'A' as int) as char
  }

  /** The three characters "%XY" for the octet `b`. */
  function Escape(b: int): (r: string)
    requires 0 <= b < 256
    ensures |r| == 3 && Octet(r) == Some(b)
  {
    ['%', HexChar(b / 16), HexChar(b % 16)]
  }

  /** The UTF-8 octets of a character. */
  function Utf8(c: char): (r: seq<int>)
    ensures 1 <= |r| <= 4
    ensures forall i :: 0 <= i < |r| ==> 0 <= r[i] < 256
  {
    var v := c as int;
    if v < 0x80 then [v]
    else if v < 0x800 then [0xC0 + v / 64, 0x80 + v % 64]
    else if v < 0x1_0000 then [0xE0 + v / 4096, 0x80 + (v / 64) % 64, 0x80 + v % 64]
    else [0xF0 + v / 262144, 0x80 + (v / 4096) % 64, 0x80 + (v / 64) % 64, 0x80 + v % 64]
  }

  /** The escapes of a sequence of octets, one after the other. */
  function Escapes(bs: seq<int>): (r: string)
    requires forall i :: 0 <= i < |bs| ==> 0 <= bs[i] < 256
    ensures |r| == 3 * |bs|
    ensures forall i :: 0 <= i < |r| ==> Unreserved(r[i]) || r[i] == '%'
  {
    if bs == [] then [] else Escape(bs[0]) + Escapes(bs[1..])
  }

  /** How `encodeURIComponent` writes one character. */
  function EncodeChar(c: char): (r: string)
    ensures |r| >= 1
    ensures forall i :: 0 <= i < |r| ==> Unreserved(r[i]) || r[i] == '%'
  {
    if Unreserved(c) then [c] else Escapes(Utf8(c))
  }

  /** `encodeURIComponent`: every character is written as itself when unreserved
      and as the escapes of its UTF-8 octets otherwise, so the result is at least as
      long and holds nothing but unreserved characters and '%'. */
  function EncodeComponent(s: string): (r: string)
    ensures |r| >= |s|
    ensures forall i :: 0 <= i < |r| ==> Unreserved(r[i]) || r[i] == '%'
  {
    if s == [] then [] else EncodeChar(s[0]) + EncodeComponent(s[1..])
  }

  /** Escaped continuation octets in front of `t` read back as those octets. */
  lemma {:induction false} ContinuationsOfEscapes(bs: seq<int>, t: string)
    requires forall i :: 0 <= i < |bs| ==> 0x80 <= bs[i] < 0xC0
    ensures Continuations(Escapes(bs) + t, |bs|) == Some(bs)
  {
    if bs != [] {
      var s := Escapes(bs) + t;
      assert s == Escape(bs[0]) + (Escapes(bs[1..]) + t);
      assert s[..3] == Escape(bs[0]);
      assert Octet(s) == Octet(Escape(bs[0]));
      assert s[3..] == Escapes(bs[1..]) + t;
      ContinuationsOfEscapes(bs[1..], t);
      assert [bs[0]] + bs[1..] == bs;
    }
  }

  /** Utf8Decodes for the two-octet forms. */
  lemma Utf8DecodesTwo(c: char)
    requires 0x80 <= c as int < 0x800
    ensures var bs := Utf8(c);
      0xC0 <= bs[0] < 0xF8 && LeadLength(bs[0]) == |bs|
      && (forall i :: 1 <= i < |bs| ==> 0x80 <= bs[i] < 0xC0)
      && CodePoint(bs[0], bs[1..]) == Some(c)
  {
    var v := c as int;
    assert v == (v / 64) * 64 + v % 64;
  }

  /** Utf8Decodes for the three-octet forms. */
  lemma Utf8DecodesThree(c: char)
    requires 0x800 <= c as int < 0x1_0000
    ensures var bs := Utf8(c);
      0xC0 <= bs[0] < 0xF8 && LeadLength(bs[0]) == |bs|
      && (forall i :: 1 <= i < |bs| ==> 0x80 <= bs[i] < 0xC0)
      && CodePoint(bs[0], bs[1..]) == Some(c)
  {
    var v := c as int;
    assert v / 64 == (v / 4096) * 64 + (v / 64) % 64;
    assert v == (v / 64) * 64 + v % 64;
  }

  /** Utf8Decodes for the four-octet forms. */
  lemma Utf8DecodesFour(c: char)
    requires 0x1_0000 <= c as int
    ensures var bs := Utf8(c);
      0xC0 <= bs[0] < 0xF8 && LeadLength(bs[0]) == |bs|
      && (forall i :: 1 <= i < |bs| ==> 0x80 <= bs[i] < 0xC0)
      && CodePoint(bs[0], bs[1..]) == Some(c)
  {
    var v := c as int;
    assert v / 4096 == (v / 262144) * 64 + (v / 4096) % 64;
    assert v / 64 == (v / 4096) * 64 + (v / 64) % 64;
    assert v == (v / 64) * 64 + v % 64;
  }

  /** The UTF-8 octets of a non-ASCII character decode back to it. */
  lemma Utf8Decodes(c: char)
    requires c as int >= 0x80
    ensures var bs := Utf8(c);
      0xC0 <= bs[0] < 0xF8 && LeadLength(bs[0]) == |bs|
      && (forall i :: 1 <= i < |bs| ==> 0x80 <= bs[i] < 0xC0)
      && CodePoint(bs[0], bs[1..]) == Some(c)
  {
    if c as int < 0x800 {
      Utf8DecodesTwo(c);
    } else if c as int < 0x1_0000 {
      Utf8DecodesThree(c);
    } else {
      Utf8DecodesFour(c);
    }
  }

  /** Decoding an encoded character in front of `t` yields that character in front of `t`'s decoding. */
  lemma DecodeEncodedChar(c: char, t: string)
    ensures DecodeComponent(EncodeChar(c) + t) == Prepend(c, DecodeComponent(t))
  {
    if Unreserved(c) {
      assert (EncodeChar(c) + t)[1..] == t;
    } else if c as int < 0x80 {
      DecodeEscapedAscii(c, t);
    } else {
      DecodeEscapedMultiByte(c, t);
    }
  }

  /** An ASCII character written as one escape decodes back to it. */
  lemma DecodeEscapedAscii(c: char, t: string)
    requires c as int < 0x80
    ensures DecodeComponent(Escape(c as int) + t) == Prepend(c, DecodeComponent(t))
  {
    var s := Escape(c as int) + t;
    assert s[..3] == Escape(c as int);
    assert Octet(s) == Octet(Escape(c as int));
    assert s[3..] == t;
  }

  /** A non-ASCII character written as the escapes of its UTF-8 octets decodes back to it. */
  lemma DecodeEscapedMultiByte(c: char, t: string)
    requires c as int >= 0x80
    ensures DecodeComponent(Escapes(Utf8(c)) + t) == Prepend(c, DecodeComponent(t))
  {
    var bs := Utf8(c);
    var s := Escapes(bs) + t;
    Utf8Decodes(c);
    assert bs == [bs[0]] + bs[1..];
    assert Escapes(bs) == Escape(bs[0]) + Escapes(bs[1..]);
    assert s == Escape(bs[0]) + (Escapes(bs[1..]) + t);
    assert s[..3] == Escape(bs[0]);
    assert Octet(s) == Some(bs[0]);
    assert s[3..] == Escapes(bs[1..]) + t;
    ContinuationsOfEscapes(bs[1..], t);
    assert s[3 * |bs|..] == t;
    DecodeMultiByteStep(s, bs[0], bs[1..], c);
  }

  /** One decoding step over a valid multi-octet escape sequence. */
  lemma DecodeMultiByteStep(s: string, b: int, cont: seq<int>, c: char)
    requires Octet(s) == Some(b) && 0xC0 <= b < 0xF8 && |cont| == LeadLength(b) - 1
    requires Continuations(s[3..], |cont|) == Some(cont)
    requires CodePoint(b, cont) == Some(c)
    ensures DecodeComponent(s) == Prepend(c, DecodeComponent(s[3 * LeadLength(b)..]))
  {
  }

  /** decodeURIComponent(encodeURIComponent(s)) == s for every string. */
  lemma {:induction false} DecodeEncode(s: string)
    ensures DecodeComponent(EncodeComponent(s)) == Ok(s)
  {
    if s != [] {
      DecodeEncode(s[1..]);
      DecodeEncodedChar(s[0], EncodeComponent(s[1..]));
      assert [s[0]] + s[1..] == s;
    }
  }

  /** `encodeURIComponent` changes nothing in a string of unreserved characters. */
  lemma {:induction false} EncodeUnreserved(s: string)
    requires forall i :: 0 <= i < |s| ==> Unreserved(s[i])
    ensures EncodeComponent(s) == s
  {
    if s != [] {
      EncodeUnreserved(s[1..]);
      assert [s[0]] + s[1..] == s;
    }
  }
}
