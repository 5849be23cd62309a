/** UTF-8 as section 3 of RFC 3629 defines it: encoding, and decoding that accepts nothing else. */
module Utf8 {
  import opened Options

  type Byte = b: int | 0 <= b < 256

  /** Six bits at a time from the low end; `/ 64` is the shift `>> 6`. */
  function EncodeChar(c: char): (bytes: seq<Byte>)
    ensures 1 <= |bytes| <= 4
  {
    var n := c as int;
    var n6 := n / 64;
    var n12 := n6 / 64;
    if n < 0x80 then [n]
    else if n < 0x800 then [0xC0 + n6, 0x80 + n % 64]
    else if n < 0x1_0000 then [0xE0 + n12, 0x80 + n6 % 64, 0x80 + n % 64]
    else [0xF0 + n12 / 64, 0x80 + n12 % 64, 0x80 + n6 % 64, 0x80 + n % 64]
  }

  function Encode(s: string): seq<Byte> {
    if s == [] then [] else EncodeChar(s[0]) + Encode(s[1..])
  }

  predicate Tail(b: Byte) {
    0x80 <= b < 0xC0
  }

  /** Appends the six bits of a tail byte to a number. */
  function Push(n: int, b: Byte): int {
    n * 64 + (b - 0x80)
  }

  /** The character a byte sequence starts with, and how many bytes spell it. */
  function DecodeFirst(bytes: seq<Byte>): Option<(char, nat)>
    requires bytes != []
  {
    var b0: int := bytes[0];
    if b0 < 0x80 then
      Some((b0 as char, 1))
    else if 0xC2 <= b0 < 0xE0 && |bytes| >= 2 && Tail(bytes[1]) then
      Some((Push(b0 - 0xC0, bytes[1]) as char, 2))
    else if 0xE0 <= b0 < 0xF0 && |bytes| >= 3 && Tail(bytes[1]) && Tail(bytes[2])
      && (b0 == 0xE0 ==> bytes[1] >= 0xA0) && (b0 == 0xED ==> bytes[1] < 0xA0) then
      Some((Push(Push(b0 - 0xE0, bytes[1]), bytes[2]) as char, 3))
    else if 0xF0 <= b0 < 0xF5 && |bytes| >= 4 && Tail(bytes[1]) && Tail(bytes[2]) && Tail(bytes[3])
      && (b0 == 0xF0 ==> bytes[1] >= 0x90) && (b0 == 0xF4 ==> bytes[1] < 0x90) then
      Some((Push(Push(Push(b0 - 0xF0, bytes[1]), bytes[2]), bytes[3]) as char, 4))
    else
      None
  }

  function Decode(bytes: seq<Byte>): Option<string> {
    if bytes == [] then Some([])
    else match DecodeFirst(bytes)
      case None => None
      case Some((c, n)) =>
        if n <= |bytes| && n > 0 then
          match Decode(bytes[n..])
          case None => None
          case Some(rest) => Some([c] + rest)
        else None
  }

  lemma FirstInvertsEncode(c: char, rest: seq<Byte>)
    ensures DecodeFirst(EncodeChar(c) + rest) == Some((c, |EncodeChar(c)|))
  {
    var n, bytes := c as int, EncodeChar(c) + rest;
    assert forall i :: 0 <= i < |EncodeChar(c)| ==> bytes[i] == EncodeChar(c)[i];
    var n6 := n / 64;
    var n12 := n6 / 64;
    assert n == n6 * 64 + n % 64 && n6 == n12 * 64 + n6 % 64;
  }

  lemma FirstIsEncoded(bytes: seq<Byte>)
    requires bytes != [] && DecodeFirst(bytes).Some?
    ensures var (c, n) := DecodeFirst(bytes).value; 0 < n <= |bytes| && bytes[..n] == EncodeChar(c)
  {
    var (c, n) := DecodeFirst(bytes).value;
    if n == 2 {
      PushPops(bytes[0] - 0xC0, bytes[1]);
    } else if n == 3 {
      PushPops(bytes[0] - 0xE0, bytes[1]);
      PushPops(Push(bytes[0] - 0xE0, bytes[1]), bytes[2]);
    } else if n == 4 {
      PushPops(bytes[0] - 0xF0, bytes[1]);
      PushPops(Push(bytes[0] - 0xF0, bytes[1]), bytes[2]);
      PushPops(Push(Push(bytes[0] - 0xF0, bytes[1]), bytes[2]), bytes[3]);
    }
  }

  lemma PushPops(n: int, b: Byte)
    requires Tail(b)
    ensures Push(n, b) / 64 == n && 0x80 + Push(n, b) % 64 == b
  {}

  lemma {:induction false} DecodeInvertsEncode(s: string)
    ensures Decode(Encode(s)) == Some(s)
  {
    if s != [] {
      var first, rest := EncodeChar(s[0]), Encode(s[1..]);
      FirstInvertsEncode(s[0], rest);
      assert (first + rest)[|first|..] == rest;
      DecodeInvertsEncode(s[1..]);
      assert s == [s[0]] + s[1..];
    }
  }

  lemma {:induction false} DecodedIsEncoded(bytes: seq<Byte>)
    requires Decode(bytes).Some?
    ensures Encode(Decode(bytes).value) == bytes
  {
    if bytes != [] {
      FirstIsEncoded(bytes);
      var (c, n) := DecodeFirst(bytes).value;
      DecodedIsEncoded(bytes[n..]);
      var rest := Decode(bytes[n..]).value;
      assert ([c] + rest)[1..] == rest;
      assert bytes == bytes[..n] + bytes[n..];
    }
  }

  /** Decoding is the inverse of encoding in both directions. */
  lemma DecodesExactlyEncodings(bytes: seq<Byte>, s: string)
    ensures Decode(bytes) == Some(s) <==> bytes == Encode(s)
  {
    DecodeInvertsEncode(s);
    if Decode(bytes) == Some(s) {
      DecodedIsEncoded(bytes);
    }
  }

  lemma EncodeAscii(c: char, rest: string)
    requires c as int < 0x80
    ensures Encode([c] + rest) == [c as int] + Encode(rest)
  {
    assert ([c] + rest)[1..] == rest;
  }

  lemma {:induction false} EncodeConcat(s: string, t: string)
    ensures Encode(s + t) == Encode(s) + Encode(t)
  {
    if s == [] {
      assert s + t == t;
    } else {
      EncodeConcat(s[1..], t);
      assert (s + t)[1..] == s[1..] + t;
    }
  }
}
