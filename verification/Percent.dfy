/** Percent-encoding over UTF-8 (sections 2.1 and 2.3 of RFC 3986) and form decoding. */
module Percent {
  import opened Options
  import Utf8

  predicate Unreserved(c: char) {
    'a' <= c <= 'z' || 'A' <= c <= 'Z' || '0' <= c <= '9' || c == '-' || c == '_' || c == '.' || c == '~'
  }

  function HexDigit(n: int): char
    requires 0 <= n < 16
  {
    if n < 10 then '0' + n as char else 'A' + (n - 10) as char
  }

  function HexValue(b: Utf8.Byte): Option<int> {
    if '0' as int <= b <= '9' as int then Some(b - '0' as int)
    else if 'a' as int <= b <= 'f' as int then Some(b - 'a' as int + 10)
    else if 'A' as int <= b <= 'F' as int then Some(b - 'A' as int + 10)
    else None
  }

  function EscapeByte(b: Utf8.Byte): string {
    ['%', HexDigit(b / 16), HexDigit(b % 16)]
  }

  function EscapeBytes(bytes: seq<Utf8.Byte>): string {
    if bytes == [] then [] else EscapeByte(bytes[0]) + EscapeBytes(bytes[1..])
  }

  function EncodeChar(c: char): string {
    if Unreserved(c) then [c] else EscapeBytes(Utf8.EncodeChar(c))
  }

  function UrlEncode(s: string): string {
    if s == [] then [] else EncodeChar(s[0]) + UrlEncode(s[1..])
  }

  /** A percent sign that two hex digits do not follow stands for itself. */
  function UnescapeBytes(bytes: seq<Utf8.Byte>): seq<Utf8.Byte> {
    if bytes == [] then []
    else if bytes[0] == '%' as int && |bytes| >= 3 && HexValue(bytes[1]).Some? && HexValue(bytes[2]).Some? then
      var b: Utf8.Byte := HexValue(bytes[1]).value * 16 + HexValue(bytes[2]).value;
      [b] + UnescapeBytes(bytes[3..])
    else
      [bytes[0]] + UnescapeBytes(bytes[1..])
  }

  function UrlDecode(s: string): Option<string> {
    Utf8.Decode(UnescapeBytes(Utf8.Encode(s)))
  }

  function PlusToSpace(s: string): string {
    seq(|s|, i requires 0 <= i < |s| => if s[i] == '+' then ' ' else s[i])
  }

  /** How a query value is read: text that is not UTF-8 after unescaping is left as it came. */
  function FormDecode(s: string): string {
    var plain := PlusToSpace(s);
    var decoded := UrlDecode(plain);
    if decoded.Some? then decoded.value else plain
  }

  /** The encoder emits unreserved characters, percent signs and upper-case hex digits only. */
  predicate Inert(s: string) {
    forall c <- s :: Unreserved(c) || c == '%'
  }

  lemma {:induction false} EscapedIsInert(bytes: seq<Utf8.Byte>)
    ensures Inert(EscapeBytes(bytes))
  {
    if bytes != [] {
      EscapedIsInert(bytes[1..]);
    }
  }

  lemma {:induction false} EncodedIsInert(s: string)
    ensures Inert(UrlEncode(s))
  {
    if s != [] {
      EscapedIsInert(Utf8.EncodeChar(s[0]));
      EncodedIsInert(s[1..]);
    }
  }

  lemma {:induction false} UnreservedEncodesToItself(s: string)
    requires forall c <- s :: Unreserved(c)
    ensures UrlEncode(s) == s
  {
    if s != [] {
      assert s[0] in s;
      UnreservedEncodesToItself(s[1..]);
    }
  }

  lemma HexDigitValue(n: int)
    requires 0 <= n < 16
    ensures HexDigit(n) as int < 0x80 && HexValue(HexDigit(n) as int) == Some(n)
    ensures Unreserved(HexDigit(n))
  {}

  /** An escaped byte string, as bytes. */
  function EscapedAscii(bytes: seq<Utf8.Byte>): seq<Utf8.Byte> {
    if bytes == [] then []
    else ['%' as int, HexDigit(bytes[0] / 16) as int, HexDigit(bytes[0] % 16) as int] + EscapedAscii(bytes[1..])
  }

  lemma EncodeTriple(high: char, low: char, rest: string)
    requires high as int < 0x80 && low as int < 0x80
    ensures Utf8.Encode(['%', high, low] + rest) == ['%' as int, high as int, low as int] + Utf8.Encode(rest)
  {
    assert ['%', high, low] + rest == ['%'] + ([high] + ([low] + rest));
    Utf8.EncodeAscii('%', [high] + ([low] + rest));
    Utf8.EncodeAscii(high, [low] + rest);
    Utf8.EncodeAscii(low, rest);
  }

  lemma {:induction false} EncodeEscaped(bytes: seq<Utf8.Byte>, rest: string)
    ensures Utf8.Encode(EscapeBytes(bytes) + rest) == EscapedAscii(bytes) + Utf8.Encode(rest)
  {
    if bytes == [] {
      assert EscapeBytes(bytes) + rest == rest;
    } else {
      var high, low := HexDigit(bytes[0] / 16), HexDigit(bytes[0] % 16);
      assert EscapeBytes(bytes) + rest == ['%', high, low] + (EscapeBytes(bytes[1..]) + rest);
      EncodeTriple(high, low, EscapeBytes(bytes[1..]) + rest);
      EncodeEscaped(bytes[1..], rest);
    }
  }

  lemma UnescapeTriple(high: Utf8.Byte, low: Utf8.Byte, rest: seq<Utf8.Byte>)
    requires HexValue(high).Some? && HexValue(low).Some?
    ensures UnescapeBytes(['%' as int, high, low] + rest) ==
            [HexValue(high).value * 16 + HexValue(low).value] + UnescapeBytes(rest)
  {
    var bytes: seq<Utf8.Byte> := ['%' as int, high, low] + rest;
    assert bytes[3..] == rest;
  }

  /** Unescaping what escaped bytes spell yields those bytes. */
  lemma {:induction false} UnescapeEscaped(bytes: seq<Utf8.Byte>, rest: seq<Utf8.Byte>)
    ensures UnescapeBytes(EscapedAscii(bytes) + rest) == bytes + UnescapeBytes(rest)
  {
    if bytes == [] {
      assert EscapedAscii(bytes) + rest == rest;
    } else {
      var b := bytes[0];
      HexDigitValue(b / 16);
      HexDigitValue(b % 16);
      var tail := EscapedAscii(bytes[1..]) + rest;
      assert EscapedAscii(bytes) + rest == ['%' as int, HexDigit(b / 16) as int, HexDigit(b % 16) as int] + tail;
      UnescapeTriple(HexDigit(b / 16) as int, HexDigit(b % 16) as int, tail);
      UnescapeEscaped(bytes[1..], rest);
    }
  }

  lemma UnescapeCharThen(c: char, rest: string)
    ensures UnescapeBytes(Utf8.Encode(EncodeChar(c) + rest)) == Utf8.EncodeChar(c) + UnescapeBytes(Utf8.Encode(rest))
  {
    if Unreserved(c) {
      Utf8.EncodeAscii(c, rest);
      UnescapePlain(c as int, Utf8.Encode(rest));
    } else {
      EncodeEscaped(Utf8.EncodeChar(c), rest);
      UnescapeEscaped(Utf8.EncodeChar(c), Utf8.Encode(rest));
    }
  }

  /** Unescaping what the encoder wrote yields the UTF-8 bytes, whatever follows. */
  lemma {:induction false} UnescapeEncodedThen(s: string, rest: string)
    ensures UnescapeBytes(Utf8.Encode(UrlEncode(s) + rest)) == Utf8.Encode(s) + UnescapeBytes(Utf8.Encode(rest))
  {
    if s == [] {
      assert UrlEncode(s) + rest == rest;
    } else {
      var tail := UrlEncode(s[1..]) + rest;
      UnescapeEncodedThen(s[1..], rest);
      UnescapeCharThen(s[0], tail);
      FirstCharEncoded(s, rest, tail);
      Associates(Utf8.EncodeChar(s[0]), Utf8.Encode(s[1..]), UnescapeBytes(Utf8.Encode(rest)));
    }
  }

  lemma FirstCharEncoded(s: string, rest: string, tail: string)
    requires s != [] && tail == UrlEncode(s[1..]) + rest
    ensures UrlEncode(s) + rest == EncodeChar(s[0]) + tail
    ensures Utf8.Encode(s) == Utf8.EncodeChar(s[0]) + Utf8.Encode(s[1..])
  {
    Associates(EncodeChar(s[0]), UrlEncode(s[1..]), rest);
  }

  lemma Associates<T>(a: seq<T>, b: seq<T>, c: seq<T>)
    ensures a + b + c == a + (b + c)
  {}

  lemma UnescapePlain(b: Utf8.Byte, rest: seq<Utf8.Byte>)
    requires b != '%' as int
    ensures UnescapeBytes([b] + rest) == [b] + UnescapeBytes(rest)
  {
    assert ([b] + rest)[1..] == rest;
  }

  lemma UnescapeEncoded(s: string)
    ensures UnescapeBytes(Utf8.Encode(UrlEncode(s))) == Utf8.Encode(s)
  {
    UnescapeEncodedThen(s, []);
    assert UrlEncode(s) + [] == UrlEncode(s);
  }

  lemma InertHasNoPlus(s: string)
    requires Inert(s)
    ensures PlusToSpace(s) == s
  {
    assert forall i :: 0 <= i < |s| ==> s[i] in s;
  }

  /** Three layers deep, decoding what the encoder wrote gives back every string. */
  lemma DecodeInvertsUrlEncode(s: string)
    ensures UrlDecode(UrlEncode(s)) == Some(s)
    ensures FormDecode(UrlEncode(s)) == s
  {
    UnescapeEncoded(s);
    Utf8.DecodeInvertsEncode(s);
    EncodedIsInert(s);
    InertHasNoPlus(UrlEncode(s));
  }

  // ---------------------------------------------------------------- what the encoder writes, character by character

  const UPPER_HEX := "0123456789ABCDEF"
  const LOWER_HEX := "0123456789abcdef"

  /** Section 2.3 of RFC 3986: letters, digits, hyphen, period, underscore and tilde. */
  predicate Rfc3986Unreserved(c: char) {
    var n := c as int;
    65 <= n <= 90 || 97 <= n <= 122 || 48 <= n <= 57 || n == 45 || n == 46 || n == 95 || n == 126
  }

  /** Any other byte is a percent sign and two upper-case hex digits, the high half first. */
  lemma {:induction false} EscapesAreUpperHex(bytes: seq<Utf8.Byte>, k: nat)
    requires k < |bytes|
    ensures |EscapeBytes(bytes)| == 3 * |bytes|
    ensures EscapeBytes(bytes)[3 * k] == '%'
    ensures EscapeBytes(bytes)[3 * k + 1] == UPPER_HEX[bytes[k] / 16]
    ensures EscapeBytes(bytes)[3 * k + 2] == UPPER_HEX[bytes[k] % 16]
  {
    HexDigitIs(bytes[0] / 16);
    HexDigitIs(bytes[0] % 16);
    if k > 0 {
      EscapesAreUpperHex(bytes[1..], k - 1);
    } else if |bytes| > 1 {
      EscapesAreUpperHex(bytes[1..], 0);
    }
  }

  lemma HexDigitIs(n: int)
    requires 0 <= n < 16
    ensures HexDigit(n) == UPPER_HEX[n]
  {}

  /** One character at a time: unreserved ones stand for themselves, others for their UTF-8 bytes. */
  lemma UrlEncodeIs(s: string)
    requires s != []
    ensures UrlEncode(s) ==
      (if Rfc3986Unreserved(s[0]) then [s[0]] else EscapeBytes(Utf8.EncodeChar(s[0]))) + UrlEncode(s[1..])
  {}

  // ---------------------------------------------------------------- what the decoder reads

  /** Hex digits read alike in either case: a percent triple is the byte its digits spell. */
  lemma TripleReads(i: nat, j: nat, high: char, low: char, rest: string)
    requires i < 16 && j < 16
    requires high == UPPER_HEX[i] || high == LOWER_HEX[i]
    requires low == UPPER_HEX[j] || low == LOWER_HEX[j]
    ensures UnescapeBytes(Utf8.Encode(['%', high, low] + rest)) == [16 * i + j] + UnescapeBytes(Utf8.Encode(rest))
  {
    HexReads(i, high);
    HexReads(j, low);
    EncodeTriple(high, low, rest);
    UnescapeTriple(high as int, low as int, Utf8.Encode(rest));
  }

  lemma HexReads(i: nat, c: char)
    requires i < 16 && (c == UPPER_HEX[i] || c == LOWER_HEX[i])
    ensures c as int < 0x80 && HexValue(c as int) == Some(i)
  {}

  lemma HexValueIs(b: Utf8.Byte)
    ensures HexValue(b).Some? ==> b as char in UPPER_HEX || b as char in LOWER_HEX
  {
    var v := HexValue(b);
    if v.Some? {
      assert UPPER_HEX[v.value] == b as char || LOWER_HEX[v.value] == b as char;
    }
  }

  predicate StartsTriple(bytes: seq<Utf8.Byte>) {
    && |bytes| >= 3 && bytes[0] as char == '%'
    && (bytes[1] as char in UPPER_HEX || bytes[1] as char in LOWER_HEX)
    && (bytes[2] as char in UPPER_HEX || bytes[2] as char in LOWER_HEX)
  }

  /** Everything that is not such a triple stands for itself, a percent sign included. */
  lemma OthersStandForThemselves(bytes: seq<Utf8.Byte>)
    requires bytes != [] && !StartsTriple(bytes)
    ensures UnescapeBytes(bytes) == [bytes[0]] + UnescapeBytes(bytes[1..])
  {
    if |bytes| >= 3 {
      HexValueIs(bytes[1]);
      HexValueIs(bytes[2]);
    }
  }

  /** Text whose unescaped bytes are no string's UTF-8 comes back as it was, with spaces for its pluses. */
  lemma NotUtf8ComesBack(s: string)
    ensures var r, bytes := FormDecode(s), UnescapeBytes(Utf8.Encode(SpacesForPluses(s)));
      if exists t :: Utf8.Encode(t) == bytes then Utf8.Encode(r) == bytes else r == SpacesForPluses(s)
  {
    PlusesAreSpaces(s);
    var bytes := UnescapeBytes(Utf8.Encode(SpacesForPluses(s)));
    if t :| Utf8.Encode(t) == bytes {
      Utf8.DecodesExactlyEncodings(bytes, t);
    } else if Utf8.Decode(bytes).Some? {
      Utf8.DecodedIsEncoded(bytes);
    }
  }

  function SpaceForPlus(c: char): char {
    if c == '+' then ' ' else c
  }

  function SpacesForPluses(s: string): string {
    if s == [] then [] else [SpaceForPlus(s[0])] + SpacesForPluses(s[1..])
  }

  lemma {:induction false} PlusesAreSpaces(s: string)
    ensures PlusToSpace(s) == SpacesForPluses(s)
  {
    if s != [] {
      PlusesAreSpaces(s[1..]);
      assert PlusToSpace(s)[1..] == PlusToSpace(s[1..]) && PlusToSpace(s) == [PlusToSpace(s)[0]] + PlusToSpace(s)[1..];
    }
  }

  lemma SpacesOfConcat(a: string, b: string)
    ensures SpacesForPluses(a + b) == SpacesForPluses(a) + SpacesForPluses(b)
  {
    PlusesAreSpaces(a);
    PlusesAreSpaces(b);
    PlusesAreSpaces(a + b);
    assert PlusToSpace(a + b) == PlusToSpace(a) + PlusToSpace(b);
  }

  /** Encoded words with pluses between them, as a form sends them. */
  function FormText(words: seq<string>): string {
    if words == [] then [] else if |words| == 1 then UrlEncode(words[0])
    else UrlEncode(words[0]) + "+" + FormText(words[1..])
  }

  function Spaced(words: seq<string>): string {
    if words == [] then [] else if |words| == 1 then words[0] else words[0] + " " + Spaced(words[1..])
  }

  lemma EncodedKeepsItsCharacters(s: string)
    ensures SpacesForPluses(UrlEncode(s)) == UrlEncode(s)
  {
    EncodedIsInert(s);
    InertHasNoPlus(UrlEncode(s));
    PlusesAreSpaces(UrlEncode(s));
  }

  /** An encoded word, a plus, and more. */
  lemma WordThenMore(word: string, more: string)
    ensures SpacesForPluses(UrlEncode(word) + "+" + more) == UrlEncode(word) + ([' '] + SpacesForPluses(more))
  {
    EncodedKeepsItsCharacters(word);
    SpacesOfConcat(UrlEncode(word), ['+'] + more);
    PlusFirst(more);
    assert UrlEncode(word) + "+" + more == UrlEncode(word) + (['+'] + more);
  }

  lemma PlusFirst(more: string)
    ensures SpacesForPluses(['+'] + more) == [' '] + SpacesForPluses(more)
  {
    assert (['+'] + more)[1..] == more;
  }

  lemma SpaceThenMore(word: string, tail: string)
    ensures UnescapeBytes(Utf8.Encode(UrlEncode(word) + ([' '] + tail))) ==
            Utf8.Encode(word) + ([' ' as int] + UnescapeBytes(Utf8.Encode(tail)))
  {
    UnescapeEncodedThen(word, [' '] + tail);
    Utf8.EncodeAscii(' ', tail);
    UnescapePlain(' ' as int, Utf8.Encode(tail));
  }

  lemma {:induction false} FormTextUnescapes(words: seq<string>)
    ensures UnescapeBytes(Utf8.Encode(SpacesForPluses(FormText(words)))) == Utf8.Encode(Spaced(words))
  {
    if |words| == 1 {
      EncodedKeepsItsCharacters(words[0]);
      UnescapeEncoded(words[0]);
    } else if |words| > 1 {
      FormTextUnescapes(words[1..]);
      WordThenMore(words[0], FormText(words[1..]));
      SpaceThenMore(words[0], SpacesForPluses(FormText(words[1..])));
      EncodedSpaced(words[0], Spaced(words[1..]));
    }
  }

  lemma EncodedSpaced(word: string, rest: string)
    ensures Utf8.Encode(word + " " + rest) == Utf8.Encode(word) + ([' ' as int] + Utf8.Encode(rest))
  {
    Utf8.EncodeConcat(word, [' '] + rest);
    Utf8.EncodeAscii(' ', rest);
    assert word + " " + rest == word + ([' '] + rest);
  }

  /** A form's pluses are read as spaces: the words come back with single spaces between them. */
  lemma PlusReadsAsSpace(words: seq<string>)
    ensures FormDecode(FormText(words)) == Spaced(words)
  {
    FormTextUnescapes(words);
    PlusesAreSpaces(FormText(words));
    Utf8.DecodeInvertsEncode(Spaced(words));
  }
}
