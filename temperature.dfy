/** `parse_temperature` of src/lib.rs: the value field of a row, one of
    `d.d`, `dd.d`, `-d.d`, `-dd.d`, decoded as tenths by word arithmetic on
    the first four bytes loaded as a little-endian 64-bit word. */
module Temperature {
  import opened Bytes
  import opened Bits

  const MAGIC_MULTIPLIER: bv64 := 100 * 0x1000000 + 10 * 0x10000 + 1
  const DOT_BITS: bv64 := 0x10101000
  const ALL_ONES: bv64 := 0xFFFF_FFFF_FFFF_FFFF

  const TWO64: int := 0x1_0000_0000_0000_0000

  const DOT: byte := 0x2E
  const MINUS: byte := 0x2D
  const ZERO: byte := 0x30

  predicate IsDigit(b: byte) { ZERO <= b <= ZERO + 9 }

  /** The decimal value of a digit byte (`b - b'0'`). */
  function Digit(b: byte): int { b as int - ZERO as int }

  /** `dot`: the bit position of bit 4 of the first byte among bytes 1..3
      of `n` that has that bit clear ('.' and '-' do, digits do not). */
  function Dot(n: bv64): bv64
  {
    TrailingZeros(!n & DOT_BITS)
  }

  /** Reading a `u64` as the `i64` it is cast to. */
  function AsI64(x: bv64): int
  {
    if x < 0x8000_0000_0000_0000 then x as int else x as int - TWO64
  }

  /** `(!w).wrapping_shl(59).wrapping_shr(63)`: bit 4 of the lowest byte,
      negated; 1 for a leading '-' (0x2D), 0 for a leading digit. The shift
      is on a `u64`, so it is logical. */
  function SignBit(w: bv64): bv64
  {
    ((!w) << 59) >> 63
  }

  /** The digit nibbles after the sign mask and the shift by `28 - dot`
      (a `u64` subtraction that wraps, and a shift that takes its amount
      modulo 64). */
  function Digits(w: bv64, signed: bv64, dot: bv64): bv64
  {
    var mask := !(signed & 0xFF);
    ((w & mask) << ((28 - dot) & 63)) & 0x0F000F0F00
  }

  /** `digits.wrapping_mul(MAGIC_MULTIPLIER) >> 32 & 0x3FF` (`bv64`
      multiplication wraps). */
  function Magnitude(digits: bv64): bv64
  {
    ((digits * MAGIC_MULTIPLIER) >> 32) & 0x3FF
  }

  /** `((abs as i64) ^ (signed as i64)) - (signed as i64)`, on the bits. */
  function Finish(abs: bv64, signed: bv64): bv64
  {
    (abs ^ signed) - signed
  }

  /** `value` as written. */
  function Value(w: bv64, dot: bv64): int
  {
    var signed := SignBit(w);
    AsI64(Finish(Magnitude(Digits(w, signed, dot)), signed))
  }

  /** Four bytes as a little-endian word (`ptr::read` of a `u32`, widened). */
  function Word(b0: byte, b1: byte, b2: byte, b3: byte): bv64
  {
    (b0 as bv64) | ((b1 as bv64) << 8) | ((b2 as bv64) << 16) | ((b3 as bv64) << 24)
  }

  /** The word `parse_temperature` loads: the field's first four bytes; a
      field shorter than that is followed in memory by `pad`. */
  function LoadWord(field: seq<byte>, pad: byte): bv64
  {
    var b := field + [pad, pad, pad, pad];
    Word(b[0], b[1], b[2], b[3])
  }

  /** `parse_temperature`, in tenths (the division by 10 into `f32` is not modelled). */
  function ParseTemperature(field: seq<byte>, pad: byte): int
  {
    var n := LoadWord(field, pad);
    Value(n, Dot(n))
  }

  /** The digit-by-digit decoder the word code stands in for (the
      commented-out code of src/lib.rs:139-153): None where it would panic. */
  function Reference(field: seq<byte>): Option<int>
  {
    if |field| == 0 then None
    else
      var neg := field[0] == MINUS;
      var len := |field|;
      if !neg && len == 3 then Some(10 * Digit(field[0]) + Digit(field[2]))
      else if !neg && len == 4 then Some(100 * Digit(field[0]) + 10 * Digit(field[1]) + Digit(field[3]))
      else if neg && len == 4 then Some(-(10 * Digit(field[1]) + Digit(field[3])))
      else if neg && len == 5 then Some(-(100 * Digit(field[1]) + 10 * Digit(field[2]) + Digit(field[4])))
      else None
  }

  /** The four accepted shapes. */
  predicate OneDigit(f: seq<byte>) { |f| == 3 && IsDigit(f[0]) && f[1] == DOT && IsDigit(f[2]) }
  predicate TwoDigits(f: seq<byte>) { |f| == 4 && IsDigit(f[0]) && IsDigit(f[1]) && f[2] == DOT && IsDigit(f[3]) }
  predicate NegOneDigit(f: seq<byte>) { |f| == 4 && f[0] == MINUS && IsDigit(f[1]) && f[2] == DOT && IsDigit(f[3]) }
  predicate NegTwoDigits(f: seq<byte>) { |f| == 5 && f[0] == MINUS && IsDigit(f[1]) && IsDigit(f[2]) && f[3] == DOT && IsDigit(f[4]) }

  predicate Shaped(f: seq<byte>) { OneDigit(f) || TwoDigits(f) || NegOneDigit(f) || NegTwoDigits(f) }

  /** What the digit decoder gives for each shape. */
  lemma ReferenceOfShapes(f: seq<byte>)
    requires Shaped(f)
    ensures Reference(f)
         == Some(if OneDigit(f) then 10 * Digit(f[0]) + Digit(f[2])
                 else if TwoDigits(f) then 100 * Digit(f[0]) + 10 * Digit(f[1]) + Digit(f[3])
                 else if NegOneDigit(f) then -(10 * Digit(f[1]) + Digit(f[3]))
                 else -(100 * Digit(f[1]) + 10 * Digit(f[2]) + Digit(f[4])))
  {
  }

  // ---------------------------------------------------------------------------
  // Where the decimal point is found

  /** `dot` finds the first of bytes 1..3 whose bit 4 is clear and returns
      12, 20 or 28 for byte 1, 2 or 3; 64 when there is none
      (src/lib.rs:119-124). */
  lemma DotPosition(b0: byte, b1: byte, b2: byte, b3: byte)
    ensures Dot(Word(b0, b1, b2, b3))
         == if b1 & 0x10 == 0 then 12
            else if b2 & 0x10 == 0 then 20
            else if b3 & 0x10 == 0 then 28
            else 64
  {
  }

  /** The loaded word of a field of three or more bytes. */
  lemma LoadWordBytes(f: seq<byte>, pad: byte)
    requires |f| >= 3
    ensures LoadWord(f, pad) == Word(f[0], f[1], f[2], if |f| == 3 then pad else f[3])
  {
    var b := f + [pad, pad, pad, pad];
    assert b[0] == f[0] && b[1] == f[1] && b[2] == f[2];
    assert b[3] == if |f| == 3 then pad else f[3];
  }

  /** `d.d` puts the point at 12, `dd.d` and `-d.d` at 20, `-dd.d` at 28,
      whatever byte follows a three-byte field. */
  lemma DotOfShapes(f: seq<byte>, pad: byte)
    requires Shaped(f)
    ensures Dot(LoadWord(f, pad)) == (if OneDigit(f) then 12 else if NegTwoDigits(f) then 28 else 20)
  {
    LoadWordBytes(f, pad);
    DotPosition(f[0], f[1], f[2], if |f| == 3 then pad else f[3]);
  }

  // ---------------------------------------------------------------------------
  // The steps of `value`

  /** The low nibble of a byte, widened. */
  function Nibble(b: byte): bv64 { (b & 0x0F) as bv64 }

  /** The digits h, t and u placed at bits 8, 16 and 32, where `Digits`
      leaves them. */
  function Packed(h: bv64, t: bv64, u: bv64): bv64
  {
    (h << 8) + (t << 16) + (u << 32)
  }

  lemma NibbleDigit(b: byte)
    requires IsDigit(b)
    ensures Nibble(b) < 10 && Nibble(b) as int == Digit(b)
    ensures (Nibble(b) & 1 == 1) == (Digit(b) % 2 == 1)
  {
  }

  lemma SignBitOf(b0: byte, b1: byte, b2: byte, b3: byte)
    ensures SignBit(Word(b0, b1, b2, b3)) == if b0 & 0x10 == 0 then 1 else 0
  {
  }

  lemma SignBitRange(w: bv64)
    ensures SignBit(w) == 0 || SignBit(w) == 1
  {
  }

  /** The multiplication by MAGIC_MULTIPLIER: digits h, t and u at bits 8,
      16 and 32 come out as 100h + 10t + u. */
  lemma MagnitudeOf(h: bv64, t: bv64, u: bv64)
    requires h < 10 && t < 10 && u < 10
    ensures Magnitude(Packed(h, t, u)) as int == 100 * (h as int) + 10 * (t as int) + u as int
    ensures Magnitude(Packed(h, t, u)) & 1 == u & 1
  {
  }

  /** With the nibble 0xC of '-' in the hundreds place: 1200 + 10t + u,
      cut to ten bits. */
  lemma MagnitudeOfMinus(t: bv64, u: bv64)
    requires t < 10 && u < 10
    ensures Magnitude(Packed(0xC, t, u)) as int == 176 + 10 * (t as int) + u as int
    ensures Magnitude(Packed(0xC, t, u)) & 1 == u & 1
  {
  }

  lemma MagnitudeRange(digits: bv64)
    ensures Magnitude(digits) < 1024
  {
  }

  lemma FinishUnsigned(abs: bv64)
    requires abs < 1024
    ensures AsI64(Finish(abs, 0)) == abs as int
  {
  }

  /** A `signed` of 1 leaves an even magnitude alone and takes 2 from an odd one. */
  lemma FinishOne(abs: bv64)
    requires abs < 1024
    ensures AsI64(Finish(abs, 1)) == abs as int - (if abs & 1 == 1 then 2 else 0)
  {
  }

  lemma FinishAllOnes(abs: bv64)
    requires abs < 1024
    ensures AsI64(Finish(abs, ALL_ONES)) == -(abs as int)
  {
  }

  /** The result is never below -1 nor above 1023 for any digits: the
      `& 0x3FF` mask bounds the magnitude, and a `signed` of 0 or 1 never
      negates it. */
  lemma FinishRange(abs: bv64, signed: bv64)
    requires abs < 1024
    requires signed == 0 || signed == 1
    ensures -1 <= AsI64(Finish(abs, signed)) <= 1023
  {
    if signed == 0 {
      FinishUnsigned(abs);
    } else {
      FinishOne(abs);
    }
  }

  /** `value` never leaves -1..1023 (src/lib.rs:126-133). */
  lemma ValueRange(w: bv64, dot: bv64)
    ensures -1 <= Value(w, dot) <= 1023
  {
    var digits := Digits(w, SignBit(w), dot);
    SignBitRange(w);
    MagnitudeRange(digits);
    FinishRange(Magnitude(digits), SignBit(w));
  }

  /** A leading digit: `value` is the packed number. */
  lemma UnsignedValue(w: bv64, dot: bv64, h: bv64, t: bv64, u: bv64)
    requires h < 10 && t < 10 && u < 10
    requires SignBit(w) == 0 && Digits(w, 0, dot) == Packed(h, t, u)
    ensures Value(w, dot) == 100 * (h as int) + 10 * (t as int) + u as int
  {
    MagnitudeOf(h, t, u);
    MagnitudeRange(Packed(h, t, u));
    FinishUnsigned(Magnitude(Packed(h, t, u)));
  }

  /** A leading '-' as written: the packed number with the sign bit `1`. */
  lemma NegativeValue(w: bv64, dot: bv64, h: bv64, t: bv64, u: bv64)
    requires (h < 10 || h == 0xC) && t < 10 && u < 10
    requires SignBit(w) == 1 && Digits(w, 1, dot) == Packed(h, t, u)
    ensures Value(w, dot)
         == (if h == 0xC then 176 else 100 * (h as int)) + 10 * (t as int) + u as int - (if u & 1 == 1 then 2 else 0)
  {
    if h == 0xC {
      MagnitudeOfMinus(t, u);
    } else {
      MagnitudeOf(h, t, u);
    }
    MagnitudeRange(Packed(h, t, u));
    FinishOne(Magnitude(Packed(h, t, u)));
  }

  lemma OneDigitDigits(x: byte, y: byte, p: byte)
    ensures Digits(Word(x, DOT, y, p), 0, 12) == Packed(0, Nibble(x), Nibble(y))
  {
  }

  lemma TwoDigitsDigits(x: byte, y: byte, z: byte)
    ensures Digits(Word(x, y, DOT, z), 0, 20) == Packed(Nibble(x), Nibble(y), Nibble(z))
  {
  }

  /** With `signed` = 1 the mask clears only bit 0, so '-' (0x2D) keeps its
      low nibble as 0xC and it lands in the hundreds place. */
  lemma NegOneDigitDigits(x: byte, y: byte)
    ensures Digits(Word(MINUS, x, DOT, y), 1, 20) == Packed(0xC, Nibble(x), Nibble(y))
  {
  }

  /** Only four bytes are loaded and the point is byte 3: the fraction
      digit is not in the word. */
  lemma NegTwoDigitsDigits(x: byte, y: byte)
    ensures Digits(Word(MINUS, x, y, DOT), 1, 28) == Packed(Nibble(x), Nibble(y), 0)
  {
  }

  /** For the non-negative shapes the word code agrees with the digit
      decoder: `d.d` gives 10a+b and `dd.d` gives 100a+10b+c
      (src/lib.rs:126-136 against 142-151). */
  lemma NonNegativeAgrees(f: seq<byte>, pad: byte)
    requires OneDigit(f) || TwoDigits(f)
    ensures Reference(f).Some?
    ensures ParseTemperature(f, pad) == Reference(f).value
  {
    var b3 := if |f| == 3 then pad else f[3];
    LoadWordBytes(f, pad);
    DotPosition(f[0], f[1], f[2], b3);
    SignBitOf(f[0], f[1], f[2], b3);
    if OneDigit(f) {
      OneDigitDigits(f[0], f[2], pad);
      NibbleDigit(f[0]);
      NibbleDigit(f[2]);
      UnsignedValue(Word(f[0], f[1], f[2], b3), 12, 0, Nibble(f[0]), Nibble(f[2]));
    } else {
      TwoDigitsDigits(f[0], f[1], f[3]);
      NibbleDigit(f[0]);
      NibbleDigit(f[1]);
      NibbleDigit(f[3]);
      UnsignedValue(Word(f[0], f[1], f[2], b3), 20, Nibble(f[0]), Nibble(f[1]), Nibble(f[3]));
    }
  }

  /** What the code does for `-a.b`: the '-' byte keeps its low nibble 0xC,
      which lands in the hundreds place (1200 + 10a + b, cut to 10 bits), and
      the 0-or-1 `signed` only clears bit 0 of an odd result, so the value is
      positive and at least 175 where -(10a+b) was meant. */
  lemma NegOneDigitAsWritten(f: seq<byte>, pad: byte)
    requires NegOneDigit(f)
    ensures ParseTemperature(f, pad)
         == 176 + 10 * Digit(f[1]) + Digit(f[3]) - (if Digit(f[3]) % 2 == 1 then 2 else 0)
    ensures ParseTemperature(f, pad) >= 175 && Reference(f).Some? && Reference(f).value <= 0
  {
    LoadWordBytes(f, pad);
    DotPosition(f[0], f[1], f[2], f[3]);
    SignBitOf(f[0], f[1], f[2], f[3]);
    NegOneDigitDigits(f[1], f[3]);
    NibbleDigit(f[1]);
    NibbleDigit(f[3]);
    NegativeValue(Word(f[0], f[1], f[2], f[3]), 20, 0xC, Nibble(f[1]), Nibble(f[3]));
  }

  /** What the code does for `-ab.c`: only four bytes are loaded, so the
      fraction digit is never read, and the sign is lost as above: the result
      is 100a+10b where -(100a+10b+c) was meant. */
  lemma NegTwoDigitsAsWritten(f: seq<byte>, pad: byte)
    requires NegTwoDigits(f)
    ensures ParseTemperature(f, pad) == 100 * Digit(f[1]) + 10 * Digit(f[2])
    ensures ParseTemperature(f, pad) >= 0 && Reference(f).Some? && Reference(f).value <= 0
  {
    LoadWordBytes(f, pad);
    DotPosition(f[0], f[1], f[2], f[3]);
    SignBitOf(f[0], f[1], f[2], f[3]);
    NegTwoDigitsDigits(f[1], f[2]);
    NibbleDigit(f[1]);
    NibbleDigit(f[2]);
    NegativeValue(Word(f[0], f[1], f[2], f[3]), 28, Nibble(f[1]), Nibble(f[2]), 0);
  }

  /** "-5.3" decodes to 227 (22.7 degrees) rather than -53. */
  lemma MinusFivePointThree(pad: byte)
    ensures ParseTemperature([MINUS, ZERO + 5, DOT, ZERO + 3], pad) == 227
    ensures Reference([MINUS, ZERO + 5, DOT, ZERO + 3]) == Some(-53)
  {
    var f := [MINUS, ZERO + 5, DOT, ZERO + 3];
    assert Digit(f[1]) == 5 && Digit(f[3]) == 3;
    NegOneDigitAsWritten(f, pad);
  }

  /** "-12.3" decodes to 120 (12.0 degrees) rather than -123. */
  lemma MinusTwelvePointThree(pad: byte)
    ensures ParseTemperature([MINUS, ZERO + 1, ZERO + 2, DOT, ZERO + 3], pad) == 120
    ensures Reference([MINUS, ZERO + 1, ZERO + 2, DOT, ZERO + 3]) == Some(-123)
  {
    var f := [MINUS, ZERO + 1, ZERO + 2, DOT, ZERO + 3];
    assert Digit(f[1]) == 1 && Digit(f[2]) == 2;
    NegTwoDigitsAsWritten(f, pad);
  }

  // ---------------------------------------------------------------------------
  // The word code with an arithmetic sign shift and a five-byte load

  /** `signed` computed by an arithmetic shift (`(!w as i64) << 59 >> 63`):
      all ones for a leading '-', 0 otherwise, as the sign mask and the
      negation `(abs ^ signed) - signed` need. */
  function SignMask(w: bv64): bv64
  {
    if SignBit(w) == 1 then ALL_ONES else 0
  }

  function ValueSigned(w: bv64, dot: bv64): int
  {
    var signed := SignMask(w);
    AsI64(Finish(Magnitude(Digits(w, signed, dot)), signed))
  }

  /** Five bytes as a little-endian word. */
  function Word5(b0: byte, b1: byte, b2: byte, b3: byte, b4: byte): bv64
  {
    Word(b0, b1, b2, b3) | ((b4 as bv64) << 32)
  }

  /** The first five bytes of the field, padded with `pad`. */
  function LoadWord5(field: seq<byte>, pad: byte): bv64
  {
    var b := field + [pad, pad, pad, pad, pad];
    Word5(b[0], b[1], b[2], b[3], b[4])
  }

  /** `parse_temperature` with the arithmetic shift and a load wide enough
      for `-dd.d`. */
  function ParseTemperatureSigned(field: seq<byte>, pad: byte): int
  {
    var n := LoadWord5(field, pad);
    ValueSigned(n, Dot(n))
  }

  /** The fifth byte changes neither the sign nor the point. */
  lemma Word5Low(b0: byte, b1: byte, b2: byte, b3: byte, b4: byte)
    ensures SignBit(Word5(b0, b1, b2, b3, b4)) == SignBit(Word(b0, b1, b2, b3))
    ensures !Word5(b0, b1, b2, b3, b4) & DOT_BITS == !Word(b0, b1, b2, b3) & DOT_BITS
  {
  }

  /** Only the low four bytes decide the sign mask and the position of '.'. */
  lemma Word5Facts(b0: byte, b1: byte, b2: byte, b3: byte, b4: byte)
    ensures SignMask(Word5(b0, b1, b2, b3, b4)) == SignMask(Word(b0, b1, b2, b3))
    ensures Dot(Word5(b0, b1, b2, b3, b4)) == Dot(Word(b0, b1, b2, b3))
  {
    Word5Low(b0, b1, b2, b3, b4);
  }

  /** With `signed` all ones the packed number is negated. */
  lemma SignedValueOf(w: bv64, dot: bv64, h: bv64, t: bv64, u: bv64)
    requires h < 10 && t < 10 && u < 10
    requires SignMask(w) == ALL_ONES || SignMask(w) == 0
    requires Digits(w, SignMask(w), dot) == Packed(h, t, u)
    ensures ValueSigned(w, dot)
         == if SignMask(w) == 0 then 100 * (h as int) + 10 * (t as int) + u as int
            else -(100 * (h as int) + 10 * (t as int) + u as int)
  {
    MagnitudeOf(h, t, u);
    MagnitudeRange(Packed(h, t, u));
    if SignMask(w) == 0 {
      FinishUnsigned(Magnitude(Packed(h, t, u)));
    } else {
      FinishAllOnes(Magnitude(Packed(h, t, u)));
    }
  }

  lemma SignedOneDigitDigits(x: byte, y: byte, p: byte, q: byte)
    ensures Digits(Word5(x, DOT, y, p, q), 0, 12) == Packed(0, Nibble(x), Nibble(y))
  {
  }

  lemma SignedTwoDigitsDigits(x: byte, y: byte, z: byte, p: byte)
    ensures Digits(Word5(x, y, DOT, z, p), 0, 20) == Packed(Nibble(x), Nibble(y), Nibble(z))
  {
  }

  lemma SignedNegOneDigitDigits(x: byte, y: byte, p: byte)
    ensures Digits(Word5(MINUS, x, DOT, y, p), ALL_ONES, 20) == Packed(0, Nibble(x), Nibble(y))
  {
  }

  lemma SignedNegTwoDigitsDigits(x: byte, y: byte, z: byte)
    ensures Digits(Word5(MINUS, x, y, DOT, z), ALL_ONES, 28) == Packed(Nibble(x), Nibble(y), Nibble(z))
  {
  }

  /** The five-byte word of a field of three or more bytes. */
  lemma LoadWord5Bytes(f: seq<byte>, pad: byte)
    requires |f| >= 3
    ensures LoadWord5(f, pad)
         == Word5(f[0], f[1], f[2], if |f| == 3 then pad else f[3], if |f| <= 4 then pad else f[4])
  {
    var b := f + [pad, pad, pad, pad, pad];
    assert b[0] == f[0] && b[1] == f[1] && b[2] == f[2];
    assert b[3] == if |f| == 3 then pad else f[3];
    assert b[4] == if |f| <= 4 then pad else f[4];
  }

  /** The corrected decoder on a field of three or more bytes, in terms of
      those bytes. */
  lemma ParseSignedBytes(f: seq<byte>, pad: byte)
    requires |f| >= 3
    ensures var w := Word5(f[0], f[1], f[2], if |f| == 3 then pad else f[3], if |f| <= 4 then pad else f[4]);
            ParseTemperatureSigned(f, pad) == ValueSigned(w, Dot(w))
  {
    LoadWord5Bytes(f, pad);
  }

  /** The corrected decoder on `a.b`, whatever two bytes follow. */
  lemma SignedOneDigit(x: byte, y: byte, p: byte, q: byte)
    requires IsDigit(x) && IsDigit(y)
    ensures ValueSigned(Word5(x, DOT, y, p, q), Dot(Word5(x, DOT, y, p, q))) == 10 * Digit(x) + Digit(y)
  {
    Word5Facts(x, DOT, y, p, q);
    SignBitOf(x, DOT, y, p);
    DotPosition(x, DOT, y, p);
    SignedOneDigitDigits(x, y, p, q);
    NibbleDigit(x);
    NibbleDigit(y);
    SignedValueOf(Word5(x, DOT, y, p, q), 12, 0, Nibble(x), Nibble(y));
  }

  /** The corrected decoder on `ab.c`. */
  lemma SignedTwoDigits(x: byte, y: byte, z: byte, p: byte)
    requires IsDigit(x) && IsDigit(y) && IsDigit(z)
    ensures ValueSigned(Word5(x, y, DOT, z, p), Dot(Word5(x, y, DOT, z, p)))
         == 100 * Digit(x) + 10 * Digit(y) + Digit(z)
  {
    Word5Facts(x, y, DOT, z, p);
    SignBitOf(x, y, DOT, z);
    DotPosition(x, y, DOT, z);
    SignedTwoDigitsDigits(x, y, z, p);
    NibbleDigit(x);
    NibbleDigit(y);
    NibbleDigit(z);
    SignedValueOf(Word5(x, y, DOT, z, p), 20, Nibble(x), Nibble(y), Nibble(z));
  }

  /** The corrected decoder on `-a.b`. */
  lemma SignedNegOneDigit(x: byte, y: byte, p: byte)
    requires IsDigit(x) && IsDigit(y)
    ensures ValueSigned(Word5(MINUS, x, DOT, y, p), Dot(Word5(MINUS, x, DOT, y, p)))
         == -(10 * Digit(x) + Digit(y))
  {
    var w := Word5(MINUS, x, DOT, y, p);
    Word5Facts(MINUS, x, DOT, y, p);
    SignBitOf(MINUS, x, DOT, y);
    DotPosition(MINUS, x, DOT, y);
    assert Dot(w) == 20 && SignMask(w) == ALL_ONES;
    SignedNegOneDigitDigits(x, y, p);
    SignedValueOf(w, 20, 0, Nibble(x), Nibble(y));
    NibbleDigit(x);
    NibbleDigit(y);
  }

  /** The corrected decoder on `-ab.c`. */
  lemma SignedNegTwoDigits(x: byte, y: byte, z: byte)
    requires IsDigit(x) && IsDigit(y) && IsDigit(z)
    ensures ValueSigned(Word5(MINUS, x, y, DOT, z), Dot(Word5(MINUS, x, y, DOT, z)))
         == -(100 * Digit(x) + 10 * Digit(y) + Digit(z))
  {
    var w := Word5(MINUS, x, y, DOT, z);
    Word5Facts(MINUS, x, y, DOT, z);
    SignBitOf(MINUS, x, y, DOT);
    DotPosition(MINUS, x, y, DOT);
    assert Dot(w) == 28 && SignMask(w) == ALL_ONES;
    SignedNegTwoDigitsDigits(x, y, z);
    SignedValueOf(w, 28, Nibble(x), Nibble(y), Nibble(z));
    NibbleDigit(x);
    NibbleDigit(y);
    NibbleDigit(z);
  }

  /** With the arithmetic shift and a five-byte load the word code agrees
      with the digit decoder on all four shapes. */
  lemma SignedAgrees(f: seq<byte>, pad: byte)
    requires Shaped(f)
    ensures Reference(f).Some?
    ensures ParseTemperatureSigned(f, pad) == Reference(f).value
  {
    ReferenceOfShapes(f);
    if OneDigit(f) {
      SignedAgreesOneDigit(f, pad);
    } else if TwoDigits(f) {
      SignedAgreesTwoDigits(f, pad);
    } else if NegOneDigit(f) {
      SignedAgreesNegOneDigit(f, pad);
    } else {
      SignedAgreesNegTwoDigits(f, pad);
    }
  }

  lemma SignedAgreesOneDigit(f: seq<byte>, pad: byte)
    requires OneDigit(f)
    ensures ParseTemperatureSigned(f, pad) == 10 * Digit(f[0]) + Digit(f[2])
  {
    ParseSignedBytes(f, pad);
    SignedOneDigit(f[0], f[2], pad, pad);
  }

  lemma SignedAgreesTwoDigits(f: seq<byte>, pad: byte)
    requires TwoDigits(f)
    ensures ParseTemperatureSigned(f, pad) == 100 * Digit(f[0]) + 10 * Digit(f[1]) + Digit(f[3])
  {
    ParseSignedBytes(f, pad);
    SignedTwoDigits(f[0], f[1], f[3], pad);
  }

  lemma SignedAgreesNegOneDigit(f: seq<byte>, pad: byte)
    requires NegOneDigit(f)
    ensures ParseTemperatureSigned(f, pad) == -(10 * Digit(f[1]) + Digit(f[3]))
  {
    ParseSignedBytes(f, pad);
    SignedNegOneDigit(f[1], f[3], pad);
  }

  lemma SignedAgreesNegTwoDigits(f: seq<byte>, pad: byte)
    requires NegTwoDigits(f)
    ensures ParseTemperatureSigned(f, pad) == -(100 * Digit(f[1]) + 10 * Digit(f[2]) + Digit(f[4]))
  {
    ParseSignedBytes(f, pad);
    SignedNegTwoDigits(f[1], f[2], f[4]);
  }
}
