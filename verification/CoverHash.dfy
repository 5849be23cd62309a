/** The FNV-1a hash that seeds a generated course cover, and what the cover derives from it. */
module CoverHash {
  import opened Utf8

  const MODULUS := 0x1_0000_0000_0000_0000
  const OFFSET_BASIS: U64 := 0xcbf2_9ce4_8422_2325
  const PRIME := 0x0000_0100_0000_01b3

  type U64 = n: int | 0 <= n < MODULUS

  /** Exclusive-or of the low `bits` bits. */
  function XorBits(a: nat, b: nat, bits: nat): nat {
    if bits == 0 then 0
    else (if a % 2 == b % 2 then 0 else 1) + 2 * XorBits(a / 2, b / 2, bits - 1)
  }

  /** A byte reaches only the low eight bits of the state. */
  function XorByte(h: U64, b: Byte): U64 {
    XorInRange(h % 256, b, 8);
    h / 256 * 256 + XorBits(h % 256, b, 8)
  }

  function WrappingMul(h: U64, factor: nat): U64 {
    h * factor % MODULUS
  }

  function Step(h: U64, b: Byte): U64 {
    WrappingMul(XorByte(h, b), PRIME)
  }

  function HashBytes(h: U64, bytes: seq<Byte>): U64
    decreases bytes
  {
    if bytes == [] then h else HashBytes(Step(h, bytes[0]), bytes[1..])
  }

  method HashSeed(seed: string) returns (h: U64)
    ensures h == HashBytes(OFFSET_BASIS, Encode(seed))
  {
    var bytes := Encode(seed);
    h := OFFSET_BASIS;
    for i := 0 to |bytes|
      invariant HashBytes(h, bytes[i..]) == HashBytes(OFFSET_BASIS, bytes)
    {
      assert bytes[i..][1..] == bytes[i + 1..];
      h := XorByte(h, bytes[i]);
      h := WrappingMul(h, PRIME);
    }
  }

  // ---------------------------------------------------------------- each step is a permutation

  function Pow2(n: nat): nat {
    if n == 0 then 1 else 2 * Pow2(n - 1)
  }

  lemma {:induction false} XorBelow(a: nat, b: nat, bits: nat)
    ensures XorBits(a, b, bits) < Pow2(bits)
  {
    if bits > 0 {
      XorBelow(a / 2, b / 2, bits - 1);
    }
  }

  lemma XorInRange(a: nat, b: nat, bits: nat)
    requires bits == 8
    ensures XorBits(a, b, bits) < 256
  {
    XorBelow(a, b, 8);
    assert Pow2(8) == 2 * (2 * (2 * (2 * Pow2(4)))) && Pow2(4) == 16;
  }

  lemma {:induction false} XorTwice(a: nat, b: nat, bits: nat)
    requires a < Pow2(bits)
    ensures XorBits(XorBits(a, b, bits), b, bits) == a
  {
    if bits > 0 {
      XorTwice(a / 2, b / 2, bits - 1);
    }
  }

  lemma {:induction false} XorSeparates(a: nat, b: nat, b': nat, bits: nat)
    requires b < Pow2(bits) && b' < Pow2(bits) && b != b'
    ensures XorBits(a, b, bits) != XorBits(a, b', bits)
  {
    if bits > 0 && b / 2 != b' / 2 {
      XorSeparates(a / 2, b / 2, b' / 2, bits - 1);
    }
  }

  lemma Pow2Of8()
    ensures Pow2(8) == 256
  {
    assert Pow2(4) == 16 && Pow2(8) == 2 * (2 * (2 * (2 * Pow2(4))));
  }

  lemma XorByteTwice(h: U64, b: Byte)
    ensures XorByte(XorByte(h, b), b) == h
  {
    Pow2Of8();
    XorInRange(h % 256, b, 8);
    XorTwice(h % 256, b, 8);
    LowByte(h / 256, XorBits(h % 256, b, 8));
  }

  lemma LowByte(high: nat, low: nat)
    requires low < 256
    ensures (high * 256 + low) % 256 == low && (high * 256 + low) / 256 == high
  {}

  /** The prime is odd, so a wrapping multiplication by it is undone by multiplying by this. */
  const INVERSE: U64 := 0xce96_5057_aff6_957b

  lemma MulUndone(h: U64, p: nat, q: nat)
    requires p * q % MODULUS == 1
    ensures WrappingMul(WrappingMul(h, p), q) == h
  {
    var r, k := WrappingMul(h, p), p * q / MODULUS;
    var w := h * p / MODULUS;
    calc {
      r * q;
      (h * p - w * MODULUS) * q;
      h * (p * q) - w * q * MODULUS;
      h * (k * MODULUS + 1) - w * q * MODULUS;
      h + (h * k - w * q) * MODULUS;
    }
    ModOfShifted(h, h * k - w * q);
  }

  lemma ModOfShifted(h: U64, n: int)
    ensures (h + n * MODULUS) % MODULUS == h
  {}

  lemma PrimeIsInvertible()
    ensures PRIME * INVERSE % MODULUS == 1 && INVERSE * PRIME % MODULUS == 1
  {}

  function Unstep(h: U64, b: Byte): U64 {
    XorByte(WrappingMul(h, INVERSE), b)
  }

  /** For a given byte, a step is a permutation of the 64-bit states. */
  lemma StepIsPermutation(h: U64, b: Byte)
    ensures Unstep(Step(h, b), b) == h && Step(Unstep(h, b), b) == h
  {
    PrimeIsInvertible();
    MulUndone(XorByte(h, b), PRIME, INVERSE);
    MulUndone(h, INVERSE, PRIME);
    XorByteTwice(h, b);
    XorByteTwice(WrappingMul(h, INVERSE), b);
  }

  /** From one state, different bytes lead to different states. */
  lemma StepSeparatesBytes(h: U64, b: Byte, b': Byte)
    requires b != b'
    ensures Step(h, b) != Step(h, b')
  {
    PrimeIsInvertible();
    MulUndone(XorByte(h, b), PRIME, INVERSE);
    MulUndone(XorByte(h, b'), PRIME, INVERSE);
    Pow2Of8();
    XorSeparates(h % 256, b, b', 8);
  }

  function Unhash(h: U64, bytes: seq<Byte>): U64 {
    if bytes == [] then h else Unstep(Unhash(h, bytes[1..]), bytes[0])
  }

  /** For fixed remaining bytes the hash is a permutation of the 64-bit states. */
  lemma {:induction false} HashIsPermutation(h: U64, bytes: seq<Byte>)
    ensures Unhash(HashBytes(h, bytes), bytes) == h && HashBytes(Unhash(h, bytes), bytes) == h
    decreases bytes
  {
    if bytes != [] {
      HashIsPermutation(Step(h, bytes[0]), bytes[1..]);
      StepIsPermutation(h, bytes[0]);
      HashIsPermutation(h, bytes[1..]);
      StepIsPermutation(Unhash(h, bytes[1..]), bytes[0]);
    }
  }

  lemma {:induction false} HashConcat(h: U64, a: seq<Byte>, b: seq<Byte>)
    ensures HashBytes(h, a + b) == HashBytes(HashBytes(h, a), b)
    decreases a
  {
    if a == [] {
      assert a + b == b;
    } else {
      assert (a + b)[1..] == a[1..] + b;
      HashConcat(Step(h, a[0]), a[1..], b);
    }
  }

  // ---------------------------------------------------------------- what a cover shows

  function HexDigit(n: nat): char
    requires n < 16
  {
    if n < 10 then '0' + n as char else 'a' + (n - 10) as char
  }

  /** The low `digits` hex digits, most significant first. */
  function Hex(h: nat, digits: nat): (s: string)
    ensures |s| == digits
  {
    if digits == 0 then [] else Hex(h / 16, digits - 1) + [HexDigit(h % 16)]
  }

  lemma {:induction false} HexIsInjective(h: nat, h': nat, digits: nat)
    requires Hex(h, digits) == Hex(h', digits) && h < Pow2(4 * digits) && h' < Pow2(4 * digits)
    ensures h == h'
  {
    if digits > 0 {
      HexSplits(h, digits);
      HexSplits(h', digits);
      HexDigitIsInjective(h % 16, h' % 16);
      Pow2Adds(4 * (digits - 1), 4);
      DivBelow(h, Pow2(4 * (digits - 1)));
      DivBelow(h', Pow2(4 * (digits - 1)));
      HexIsInjective(h / 16, h' / 16, digits - 1);
    }
  }

  lemma DivBelow(h: nat, p: nat)
    requires h < p * Pow2(4)
    ensures h / 16 < p && h == h / 16 * 16 + h % 16
  {
    assert Pow2(4) == 16;
  }

  lemma HexSplits(h: nat, digits: nat)
    requires digits > 0
    ensures Hex(h, digits)[..digits - 1] == Hex(h / 16, digits - 1)
    ensures Hex(h, digits)[digits - 1] == HexDigit(h % 16)
  {}

  lemma HexDigitIsInjective(n: nat, n': nat)
    requires n < 16 && n' < 16
    ensures HexDigit(n) == HexDigit(n') ==> n == n'
  {}

  function GradientId(h: U64): string {
    "ccg" + Hex(h, 16)
  }

  lemma GradientIdIsInjective(h: U64, h': U64)
    requires GradientId(h) == GradientId(h')
    ensures h == h'
  {
    assert GradientId(h)[3..] == Hex(h, 16) && GradientId(h')[3..] == Hex(h', 16);
    Pow2Of64();
    HexIsInjective(h, h', 16);
  }

  lemma Pow2Of64()
    ensures Pow2(4 * 16) == MODULUS
  {
    Pow2Of8();
    Pow2Adds(8, 8);
    Pow2Adds(16, 16);
    Pow2Adds(32, 32);
  }

  lemma {:induction false} Pow2Adds(m: nat, n: nat)
    ensures Pow2(m + n) == Pow2(m) * Pow2(n)
  {
    if n > 0 {
      Pow2Adds(m, n - 1);
      assert Pow2(m + n) == 2 * Pow2(m + (n - 1));
    }
  }

  /** Seeds whose bytes differ in exactly one place always get different gradient ids. */
  lemma OneByteApartNeverCollide(before: seq<Byte>, b: Byte, b': Byte, after: seq<Byte>)
    requires b != b'
    ensures GradientId(HashBytes(OFFSET_BASIS, before + [b] + after)) !=
            GradientId(HashBytes(OFFSET_BASIS, before + [b'] + after))
  {
    var h := HashBytes(OFFSET_BASIS, before);
    HashThrough(before, b, after);
    HashThrough(before, b', after);
    StepSeparatesBytes(h, b, b');
    HashIsPermutation(Step(h, b), after);
    HashIsPermutation(Step(h, b'), after);
    if GradientId(HashBytes(Step(h, b), after)) == GradientId(HashBytes(Step(h, b'), after)) {
      GradientIdIsInjective(HashBytes(Step(h, b), after), HashBytes(Step(h, b'), after));
    }
  }

  lemma HashThrough(before: seq<Byte>, b: Byte, after: seq<Byte>)
    ensures HashBytes(OFFSET_BASIS, before + [b] + after) == HashBytes(Step(HashBytes(OFFSET_BASIS, before), b), after)
  {
    assert before + [b] + after == before + ([b] + after);
    HashConcat(OFFSET_BASIS, before, [b] + after);
    assert ([b] + after)[1..] == after;
  }

  const GRADIENTS := 6

  /** The palette entry and the horizontal place of the motif. */
  function Palette(h: U64): int {
    h % GRADIENTS
  }

  function MotifX(h: U64): int {
    70 + h / 131072 % 260
  }

  /** Both stay in range, and some state reaches each place. */
  lemma CoverRanges(h: U64, palette: int, x: int)
    requires 0 <= palette < GRADIENTS && 70 <= x <= 329
    ensures 0 <= Palette(h) < GRADIENTS && 70 <= MotifX(h) <= 329
    ensures exists h': U64 :: Palette(h') == palette && MotifX(h') == x
  {
    var base := (x - 70) * 131072;
    var h': U64 := base + (palette + GRADIENTS - base % GRADIENTS) % GRADIENTS;
    assert Palette(h') == palette && MotifX(h') == x;
  }

  // ---------------------------------------------------------------- by known answers and bit by bit

  /** Bit `k` of an exclusive-or is the sum of the two bits without carry. */
  lemma {:induction false} XorBitIs(a: nat, b: nat, bits: nat, k: nat)
    requires k < bits
    ensures Bit(XorBits(a, b, bits), k) == (Bit(a, k) + Bit(b, k)) % 2
  {
    if k > 0 {
      XorBitIs(a / 2, b / 2, bits - 1, k - 1);
    }
  }

  function Bit(n: nat, k: nat): nat {
    if k == 0 then n % 2 else Bit(n / 2, k - 1)
  }

  /** The published values of the 64-bit FNV-1a hash for no bytes and for the letter a. */
  lemma KnownHashes(h: U64, letter: Byte)
    requires h == OFFSET_BASIS && letter == 0x61
    ensures HashBytes(h, []) == 0xcbf2_9ce4_8422_2325
    ensures HashBytes(h, [letter]) == 0xaf63_dc4c_8601_ec8c
  {
    HashOfOne(h, letter);
    KnownStep(h, letter);
  }

  lemma HashOfOne(h: U64, b: Byte)
    ensures HashBytes(h, [b]) == Step(h, b)
  {
    assert [b][1..] == [];
  }

  lemma KnownStep(h: U64, b: Byte)
    requires h == 0xcbf2_9ce4_8422_2325 && b == 0x61
    ensures Step(h, b) == 0xaf63_dc4c_8601_ec8c
  {
    KnownXor(h % 256, b);
    StepIs(h, b, 0x44);
  }

  lemma StepIs(h: U64, b: Byte, low: nat)
    requires XorBits(h % 256, b, 8) == low
    ensures Step(h, b) == (h / 256 * 256 + low) * PRIME % MODULUS
  {}

  lemma KnownXor(a: nat, b: nat)
    requires a == 0x25 && b == 0x61
    ensures XorBits(a, b, 8) == 0x44
  {
    XorHalves(a, b, 8, 0x22);
    XorHalves(a / 2, b / 2, 7, 0x11);
    XorHalves(a / 4, b / 4, 6, 0x8);
    XorHalves(a / 8, b / 8, 5, 0x4);
  }

  lemma XorHalves(a: nat, b: nat, bits: nat, half: nat)
    requires bits > 0
    ensures XorBits(a / 2, b / 2, bits - 1) == half ==>
      XorBits(a, b, bits) == 2 * half + if a % 2 == b % 2 then 0 else 1
  {}

  const LOWER_HEX := "0123456789abcdef"

  /** Place `k` from the right of the id shows the digit of weight 16 to the `k`, in lower case. */
  lemma {:induction false} HexShows(h: nat, digits: nat, k: nat)
    requires k < digits
    ensures Hex(h, digits)[digits - 1 - k] == LOWER_HEX[Shifted(h, k) % 16]
  {
    if k > 0 {
      HexShows(h / 16, digits - 1, k - 1);
    }
  }

  /** A number without its last `k` hex digits. */
  function Shifted(h: nat, k: nat): nat {
    if k == 0 then h else Shifted(h / 16, k - 1)
  }

  lemma GradientIdIs(h: U64)
    ensures |GradientId(h)| == 19 && GradientId(h)[..3] == ['c', 'c', 'g'] && GradientId(h)[3..] == Hex(h, 16)
  {}

  /** The palette goes by the remainder of the hash by six, the motif by that of its upper bits by 260. */
  lemma CoverIs(h: U64)
    ensures exists q :: h == 6 * q + Palette(h)
    ensures exists q :: h / 131_072 == 260 * q + (MotifX(h) - 70)
    ensures 0 <= Palette(h) <= 5 && 0 <= MotifX(h) - 70 <= 259
  {
    assert h == 6 * (h / 6) + Palette(h);
    assert h / 131_072 == 260 * (h / 131_072 / 260) + (MotifX(h) - 70);
  }
}
