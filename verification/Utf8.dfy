/** The UTF-8 encoding of section 3 of RFC 3629. */
module Utf8 {

  import opened Bytes

  function EncodeChar(c: char): (r: seq<byte>)
    ensures 1 <= |r| <= 4
  {
    var n := c as int;
    if n < 0x80 then [n]
    else if n < 0x800 then [0xC0 + n / 64, 0x80 + n % 64]
    else if n < 0x1_0000 then [0xE0 + n / 64 / 64, 0x80 + n / 64 % 64, 0x80 + n % 64]
    else [0xF0 + n / 64 / 64 / 64, 0x80 + n / 64 / 64 % 64, 0x80 + n / 64 % 64, 0x80 + n % 64]
  }

  function Encode(text: string): (r: seq<byte>)
    ensures |r| >= |text|
  {
    if text == "" then [] else EncodeChar(text[0]) + Encode(text[1..])
  }

  /** `Buffer.byteLength(text, "utf8")` */
  /** The shortest form of section 3 of RFC 3629: the first byte tells how many bytes there are, six bits in each other. */
  lemma ShortestForm(c: char)
    ensures var e, n := EncodeChar(c), c as int;
      && |e| == (if n <= 0x7F then 1 else if n <= 0x7FF then 2 else if n <= 0xFFFF then 3 else 4)
      && (|e| == 1 ==> n == e[0] as int < 0x80)
      && (|e| == 2 ==> 0xC2 <= e[0] < 0xE0 && n == 0x40 * ((e[0] as int) - 0xC0) + ((e[1] as int) - 0x80))
      && (|e| == 3 ==> 0xE0 <= e[0] < 0xF0 && n == 0x1000 * ((e[0] as int) - 0xE0) + 0x40 * ((e[1] as int) - 0x80)
                              + ((e[2] as int) - 0x80))
      && (|e| == 4 ==> 0xF0 <= e[0] < 0xF5
                       && n == 0x4_0000 * ((e[0] as int) - 0xF0) + 0x1000 * ((e[1] as int) - 0x80)
                              + 0x40 * ((e[2] as int) - 0x80) + ((e[3] as int) - 0x80))
      && forall i :: 1 <= i < |e| ==> 0x80 <= e[i] < 0xC0
  {
  }

  function ByteLength(text: string): (n: nat)
    ensures n >= |text|
  {
    |Encode(text)|
  }

  lemma {:induction false} EncodeConcat(a: string, b: string)
    ensures Encode(a + b) == Encode(a) + Encode(b)
  {
    if a == "" {
      assert a + b == b;
    } else {
      assert (a + b)[1..] == a[1..] + b;
      EncodeConcat(a[1..], b);
    }
  }

  lemma {:induction false} EncodeAscii(text: string)
    requires forall c :: c in text ==> c as int < 0x80
    ensures |Encode(text)| == |text|
  {
    if text != "" {
      assert text[0] in text && forall c :: c in text[1..] ==> c in text;
      EncodeAscii(text[1..]);
    }
  }

  predicate Continuation(b: byte) {
    0x80 <= b < 0xC0
  }

  /** The number of bytes announced by a leading byte. */
  function CharLength(b: byte): (n: nat)
    ensures 1 <= n <= 4
  {
    if b < 0xC0 then 1 else if b < 0xE0 then 2 else if b < 0xF0 then 3 else 4
  }

  /** The code point in the first bytes of a text; only well-formed texts are ever decoded here. */
  function CodePoint(s: seq<byte>): int
    requires s != [] && CharLength(s[0]) <= |s|
  {
    match CharLength(s[0])
    case 1 => s[0] as int
    case 2 => (s[0] as int - 0xC0) * 64 + (s[1] as int - 0x80)
    case 3 => ((s[0] as int - 0xE0) * 64 + (s[1] as int - 0x80)) * 64 + (s[2] as int - 0x80)
    case _ => (((s[0] as int - 0xF0) * 64 + (s[1] as int - 0x80)) * 64 + (s[2] as int - 0x80)) * 64 + (s[3] as int - 0x80)
  }

  predicate IsScalar(n: int) {
    0 <= n < 0xD800 || 0xE000 <= n < 0x11_0000
  }

  const REPLACEMENT: char := '\U{FFFD}'

  /** Decoding; a byte that begins no character gives the replacement character. */
  function Decode(s: seq<byte>): string
    decreases |s|
  {
    if s == [] then ""
    else if CharLength(s[0]) <= |s| && IsScalar(CodePoint(s)) then
      [CodePoint(s) as char] + Decode(s[CharLength(s[0])..])
    else [REPLACEMENT] + Decode(s[1..])
  }

  lemma DecodeFirst(c: char, rest: seq<byte>)
    ensures var s := EncodeChar(c) + rest;
      && CharLength(s[0]) == |EncodeChar(c)| && CodePoint(s) == c as int && IsScalar(c as int)
      && s[|EncodeChar(c)|..] == rest
  {
    var s, e := EncodeChar(c) + rest, EncodeChar(c);
    assert forall i :: 0 <= i < |e| ==> s[i] == e[i];
    assert s[|e|..] == rest;
    CodePointEncoded(c);
    assert CodePoint(s) == CodePoint(e);
    hide EncodeChar;
  }

  lemma CodePointEncoded(c: char)
    ensures var e := EncodeChar(c);
      CharLength(e[0]) == |e| && CodePoint(e) == c as int
  {
    var n := c as int;
    assert n == n / 64 * 64 + n % 64;
    assert n / 64 == n / 64 / 64 * 64 + n / 64 % 64;
    assert n / 64 / 64 == n / 64 / 64 / 64 * 64 + n / 64 / 64 % 64;
  }

  lemma {:induction false} DecodeEncode(text: string)
    ensures Decode(Encode(text)) == text
  {
    if text != "" {
      DecodeFirst(text[0], Encode(text[1..]));
      DecodeEncode(text[1..]);
      hide EncodeChar, CodePoint, CharLength;
      assert text == [text[0]] + text[1..];
    }
  }

  /** A character is a leading byte followed by continuation bytes. */
  lemma CharShape(c: char)
    ensures var e := EncodeChar(c);
      !Continuation(e[0]) && forall i :: 1 <= i < |e| ==> Continuation(e[i])
  {
  }
}
