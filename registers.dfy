/** How the driver assembles register bytes into integers. Each `Byte`
    parameter stands for one `Wire.read()` result, named in the order the
    source reads it; the bus transaction around the reads is not modelled.
    The bodies use the source's own bit operations on bit-vectors, and the
    contracts state the arithmetic value they produce. */
module Registers {
  import opened FixedPoint

  type Byte = bv8

  /** `read16_lsb`: the first byte read is the low byte. */
  function Read16Lsb(first: Byte, second: Byte): (v: Uint16)
    ensures v == first as int + 0x100 * second as int
  {
    ((first as bv16) | ((second as bv16) << 8)) as int
  }

  /** `read16_msb`: the first byte read is the high byte. */
  function Read16Msb(first: Byte, second: Byte): (v: Uint16)
    ensures v == 0x100 * first as int + second as int
  {
    (((first as bv16) << 8) | (second as bv16)) as int
  }

  /** `read24`: three bytes, most significant first, accumulated by
      shifting left by eight and or-ing in the next byte. After each shift
      the low eight bits are zero, so the `|=` of a byte adds it. The result
      holds each byte in its own eight bits. */
  function Read24(first: Byte, second: Byte, third: Byte): (v: int)
    ensures 0 <= v < 0x100_0000
    ensures v / 0x1_0000 == first as int
    ensures v / 0x100 % 0x100 == second as int
    ensures v % 0x100 == third as int
  {
    var a, b, c := first as int, second as int, third as int;
    BigEndianDigits(a, b, c);
    0x100 * (0x100 * a + b) + c
  }

  /** `read24(reg) >> 4`, how the temperature and pressure ADC values are
      taken: the top 20 of the 24 bits read; the low nibble of the third byte
      is dropped. */
  function Adc20(first: Byte, second: Byte, third: Byte): (adc: int)
    ensures 0 <= adc < 0x10_0000
    ensures adc == 0x1000 * first as int + 0x10 * second as int + third as int / 0x10
  {
    var v := Read24(first, second, third);
    assert Pow2(4) == 0x10;
    TopTwentyBits(first as int, second as int, third as int);
    Shr(Const(v), 4).value
  }

  /** The conversion `(int8_t)v` of an unsigned byte: the two's-complement
      reading of the same eight bits. */
  function ToInt8(v: Uint8): (s: Int8)
    ensures (s - v) % 0x100 == 0
    ensures s < 0 <==> v >= 0x80
  {
    if v < 0x80 then v else v - 0x100
  }

  /** The conversion `(int16_t)v` of an unsigned 16-bit value. */
  function ToInt16(v: Uint16): (s: Int16)
    ensures (s - v) % 0x1_0000 == 0
    ensures s < 0 <==> v >= 0x8000
  {
    if v < 0x8000 then v else v - 0x1_0000
  }

  /** `read8S`: a register read as a signed byte. */
  function Read8S(b: Byte): (s: Int8)
    ensures (s - b as int) % 0x100 == 0
    ensures s < 0 <==> b >= 0x80
  {
    ToInt8(b as int)
  }

  /** `readS16_lsb`: `read16_lsb` read as signed; the sign is the top bit of
      the second byte. */
  function ReadS16Lsb(first: Byte, second: Byte): (s: Int16)
    ensures (s - (first as int + 0x100 * second as int)) % 0x1_0000 == 0
    ensures s < 0 <==> second >= 0x80
  {
    ToInt16(Read16Lsb(first, second))
  }

  /** `readS16_msb`: `read16_msb` read as signed; the sign is the top bit of
      the first byte. */
  function ReadS16Msb(first: Byte, second: Byte): (s: Int16)
    ensures (s - (0x100 * first as int + second as int)) % 0x1_0000 == 0
    ensures s < 0 <==> first >= 0x80
  {
    ToInt16(Read16Msb(first, second))
  }

  /** dig_H4: register 0xE4 shifted up a nibble, or-ed with the LOW nibble of
      the shared register 0xE5. Both operands are unsigned bytes, so the
      12-bit result is never sign-extended. */
  function PackH4(e4: Byte, e5: Byte): (h4: Int16)
    ensures 0 <= h4 < 0x1000
    ensures h4 == 0x10 * e4 as int + e5 as int % 0x10
  {
    ToInt16((((e4 as bv16) << 4) | ((e5 as bv16) & 0x0F)) as int)
  }

  /** dig_H5: the HIGH nibble of the shared register 0xE5, or-ed with register
      0xE6 shifted up a nibble; again never sign-extended. */
  function PackH5(e5: Byte, e6: Byte): (h5: Int16)
    ensures 0 <= h5 < 0x1000
    ensures h5 == 0x10 * e6 as int + e5 as int / 0x10
  {
    ToInt16(((((e5 as bv16) & 0xF0) >> 4) | ((e6 as bv16) << 4)) as int)
  }

  // Each decoder above is inverted by the layout it reads: the lemmas below
  // say which bytes produce a given value, in both directions.

  /** The two's-complement bit pattern of a signed 16-bit value. */
  function ToUint16(s: Int16): (u: Uint16)
    ensures (u - s) % 0x1_0000 == 0
  {
    if s < 0 then s + 0x1_0000 else s
  }

  lemma Digits256(hi: int, lo: int)
    requires 0 <= lo < 0x100
    ensures (0x100 * hi + lo) / 0x100 == hi && (0x100 * hi + lo) % 0x100 == lo
  {
  }

  lemma Digits16(hi: int, lo: int)
    requires 0 <= lo < 0x10
    ensures (0x10 * hi + lo) / 0x10 == hi && (0x10 * hi + lo) % 0x10 == lo
  {
  }

  lemma BigEndianDigits(b0: int, b1: int, b2: int)
    requires 0 <= b0 < 0x100 && 0 <= b1 < 0x100 && 0 <= b2 < 0x100
    ensures var v := 0x1_0000 * b0 + 0x100 * b1 + b2;
      v / 0x1_0000 == b0 && v / 0x100 % 0x100 == b1 && v % 0x100 == b2
  {
    Digits256(0x100 * b0 + b1, b2);
    Digits256(b0, b1);
  }

  lemma TopTwentyBits(b0: int, b1: int, b2: int)
    requires 0 <= b0 < 0x100 && 0 <= b1 < 0x100 && 0 <= b2 < 0x100
    ensures (0x1_0000 * b0 + 0x100 * b1 + b2) / 0x10 == 0x1000 * b0 + 0x10 * b1 + b2 / 0x10
  {
    var hi := 0x1000 * b0 + 0x10 * b1 + b2 / 0x10;
    assert 0x1_0000 * b0 + 0x100 * b1 + b2 == 0x10 * hi + b2 % 0x10;
  }

  /** `read16_lsb` yields `v` from exactly one byte pair: the low byte of `v`
      read first and its high byte second. */
  lemma Read16LsbInverse(first: Byte, second: Byte, v: Uint16)
    ensures Read16Lsb(first, second) == v <==> first as int == v % 0x100 && second as int == v / 0x100
  {
    Digits256(second as int, first as int);
  }

  /** `read16_msb` is `read16_lsb` with the bytes read in the other order. */
  lemma Read16ByteOrder(first: Byte, second: Byte)
    ensures Read16Msb(first, second) == Read16Lsb(second, first)
    ensures ReadS16Msb(first, second) == ReadS16Lsb(second, first)
  {
  }

  /** `readS16_lsb` is two's complement: its result has the bit pattern that
      was read, and every int16 value is read from its own bit pattern. */
  lemma ReadS16LsbInverse(first: Byte, second: Byte, s: Int16)
    ensures ToUint16(ReadS16Lsb(first, second)) == Read16Lsb(first, second)
    ensures ReadS16Lsb(first, second) == s <==> Read16Lsb(first, second) == ToUint16(s)
  {
  }

  /** `read8S` is two's complement in the same sense. */
  lemma Read8SInverse(b: Byte, s: Int8)
    ensures Read8S(b) == s <==> b as int == s % 0x100
  {
  }

  /** The overlapping-nibble packing of dig_H4 and dig_H5 loses nothing: a
      pair of 12-bit coefficients is decoded from exactly one triple of
      registers 0xE4, 0xE5, 0xE6, whose shared middle byte holds the low
      nibble of dig_H4 below the low nibble of dig_H5. */
  lemma NibblePackingInverse(e4: Byte, e5: Byte, e6: Byte, h4: int, h5: int)
    requires 0 <= h4 < 0x1000 && 0 <= h5 < 0x1000
    ensures PackH4(e4, e5) == h4 && PackH5(e5, e6) == h5
        <==> e4 as int == h4 / 0x10 && e5 as int == h4 % 0x10 + 0x10 * (h5 % 0x10) && e6 as int == h5 / 0x10
  {
    var a, b, c := e4 as int, e5 as int, e6 as int;
    assert PackH4(e4, e5) == 0x10 * a + b % 0x10;
    assert PackH5(e5, e6) == 0x10 * c + b / 0x10;
    NibbleDigits(a, b, c, h4, h5);
  }

  /** The 12-bit two's-complement pattern of `h`, which agrees with `h` in
      its residues modulo 4096 and modulo 16. */
  function TwelveBitPattern(h: int): (u: int)
    requires -0x800 <= h < 0x800
    ensures u == (if h < 0 then h + 0x1000 else h)
    ensures u == h % 0x1000 && u % 0x10 == h % 0x10
  {
    var j := if h < 0 then 1 else 0;
    var u := h + 0x1000 * j;
    DivModUnique(h, 0x1000, -j, u);
    assert h == 0x10 * (h / 0x10) + h % 0x10;
    DivModUnique(u, 0x10, h / 0x10 + 0x100 * j, h % 0x10);
    u
  }

  /** A pair of signed 12-bit values laid out as their 12-bit patterns is
      decoded as the unsigned readings of those patterns. */
  lemma SignedNibblesDecodeUnsigned(e4: Byte, e5: Byte, e6: Byte, h4: int, h5: int)
    requires -0x800 <= h4 < 0x800 && -0x800 <= h5 < 0x800
    requires e4 as int == h4 % 0x1000 / 0x10
    requires e5 as int == h4 % 0x10 + 0x10 * (h5 % 0x10)
    requires e6 as int == h5 % 0x1000 / 0x10
    ensures PackH4(e4, e5) == if h4 < 0 then h4 + 0x1000 else h4
    ensures PackH5(e5, e6) == if h5 < 0 then h5 + 0x1000 else h5
  {
    var u4 := TwelveBitPattern(h4);
    var u5 := TwelveBitPattern(h5);
    NibblePackingInverse(e4, e5, e6, u4, u5);
  }

  lemma NibbleDigits(a: int, b: int, c: int, h4: int, h5: int)
    requires 0 <= a < 0x100 && 0 <= b < 0x100 && 0 <= c < 0x100
    requires 0 <= h4 < 0x1000 && 0 <= h5 < 0x1000
    ensures 0x10 * a + b % 0x10 == h4 && 0x10 * c + b / 0x10 == h5
        <==> a == h4 / 0x10 && b == h4 % 0x10 + 0x10 * (h5 % 0x10) && c == h5 / 0x10
  {
    Digits16(a, b % 0x10);
    Digits16(c, b / 0x10);
    Digits16(h5 % 0x10, h4 % 0x10);
    Digits16(b / 0x10, b % 0x10);
  }
}
