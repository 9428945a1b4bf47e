/** The calibration store: the factory coefficients in the sensor's
    non-volatile registers and how the driver decodes them. */
module Calibration {
  import opened FixedPoint
  import opened Registers

  /** The coefficients, each in the C type the driver keeps it in. */
  datatype Coefficients = Coefficients(
    digT1: Uint16, digT2: Int16, digT3: Int16,
    digP1: Uint16, digP2: Int16, digP3: Int16, digP4: Int16, digP5: Int16,
    digP6: Int16, digP7: Int16, digP8: Int16, digP9: Int16,
    digH1: Uint8, digH2: Int16, digH3: Uint8, digH4: Int16, digH5: Int16, digH6: Int8)

  /** The sensor's 256 one-byte registers, indexed by address. */
  type RegisterFile = s: seq<Byte> | |s| == 0x100 witness seq(0x100, _ => 0 as bv8)

  // Register addresses of the coefficients, from the vendor register map.
  const T1Address := 0x88
  const T2Address := 0x8A
  const T3Address := 0x8C
  const P1Address := 0x8E
  const P2Address := 0x90
  const P3Address := 0x92
  const P4Address := 0x94
  const P5Address := 0x96
  const P6Address := 0x98
  const P7Address := 0x9A
  const P8Address := 0x9C
  const P9Address := 0x9E
  const H1Address := 0xA1
  const H2Address := 0xE1
  const H3Address := 0xE3
  const H4MsbAddress := 0xE4
  const H4LsbAddress := 0xE5
  const H5LsbAddress := 0xE5
  const H5MsbAddress := 0xE6
  const H6Address := 0xE7

  /** `read16_lsb(reg)` on the register file: the register and the next one. */
  function Word(regs: RegisterFile, reg: int): (v: Uint16)
    requires 0 <= reg < 0xFF
    ensures v == regs[reg] as int + 0x100 * regs[reg + 1] as int
  {
    Read16Lsb(regs[reg], regs[reg + 1])
  }

  /** What `readCalibrationData` leaves in the coefficient fields. dig_P2 to
      dig_P9 are read with the unsigned `read16_lsb` and stored in 16-bit
      signed fields, which reinterprets the bits. Decoding never sign-extends
      dig_H4 or dig_H5: both come out as 12-bit values in [0, 4095]. */
  function DecodeCalibration(regs: RegisterFile): (c: Coefficients)
    ensures 0 <= c.digH4 < 0x1000 && 0 <= c.digH5 < 0x1000
  {
    var c := Coefficients(
      digT1 := Word(regs, T1Address),
      digT2 := ReadS16Lsb(regs[T2Address], regs[T2Address + 1]),
      digT3 := ReadS16Lsb(regs[T3Address], regs[T3Address + 1]),
      digP1 := Word(regs, P1Address),
      digP2 := ToInt16(Word(regs, P2Address)),
      digP3 := ToInt16(Word(regs, P3Address)),
      digP4 := ToInt16(Word(regs, P4Address)),
      digP5 := ToInt16(Word(regs, P5Address)),
      digP6 := ToInt16(Word(regs, P6Address)),
      digP7 := ToInt16(Word(regs, P7Address)),
      digP8 := ToInt16(Word(regs, P8Address)),
      digP9 := ToInt16(Word(regs, P9Address)),
      digH1 := regs[H1Address] as int,
      digH2 := ReadS16Lsb(regs[H2Address], regs[H2Address + 1]),
      digH3 := regs[H3Address] as int,
      digH4 := PackH4(regs[H4MsbAddress], regs[H4LsbAddress]),
      digH5 := PackH5(regs[H5LsbAddress], regs[H5MsbAddress]),
      digH6 := Read8S(regs[H6Address]));
    c
  }

  /** The 16-bit value `v` is stored little-endian at `reg`, `reg + 1`. */
  predicate HoldsWord(regs: RegisterFile, reg: int, v: Uint16)
    requires 0 <= reg < 0xFF
  {
    regs[reg] as int == v % 0x100 && regs[reg + 1] as int == v / 0x100
  }

  /** The register file holds the coefficient set `c` in the vendor layout:
      16-bit coefficients little-endian in two's complement, dig_H1, dig_H3
      and dig_H6 in one byte each, and dig_H4, dig_H5 as 12-bit values
      sharing the middle byte of 0xE4..0xE6. */
  predicate Holds(regs: RegisterFile, c: Coefficients) {
    HoldsWord(regs, T1Address, c.digT1) && HoldsWord(regs, T2Address, ToUint16(c.digT2)) &&
    HoldsWord(regs, T3Address, ToUint16(c.digT3)) && HoldsWord(regs, P1Address, c.digP1) &&
    HoldsWord(regs, P2Address, ToUint16(c.digP2)) && HoldsWord(regs, P3Address, ToUint16(c.digP3)) &&
    HoldsWord(regs, P4Address, ToUint16(c.digP4)) && HoldsWord(regs, P5Address, ToUint16(c.digP5)) &&
    HoldsWord(regs, P6Address, ToUint16(c.digP6)) && HoldsWord(regs, P7Address, ToUint16(c.digP7)) &&
    HoldsWord(regs, P8Address, ToUint16(c.digP8)) && HoldsWord(regs, P9Address, ToUint16(c.digP9)) &&
    regs[H1Address] as int == c.digH1 && HoldsWord(regs, H2Address, ToUint16(c.digH2)) &&
    regs[H3Address] as int == c.digH3 &&
    regs[H4MsbAddress] as int == c.digH4 / 0x10 &&
    regs[H4LsbAddress] as int == c.digH4 % 0x10 + 0x10 * (c.digH5 % 0x10) &&
    regs[H5MsbAddress] as int == c.digH5 / 0x10 &&
    regs[H6Address] as int == c.digH6 % 0x100
  }

  /** The vendor layout stores dig_H4 and dig_H5 as signed 12-bit values,
      but decoding reads them as unsigned: a negative coefficient comes back
      4096 too large. */
  lemma NibbleFieldsDecodeUnsigned(regs: RegisterFile, h4: int, h5: int)
    requires -0x800 <= h4 < 0x800 && -0x800 <= h5 < 0x800
    requires regs[H4MsbAddress] as int == h4 % 0x1000 / 0x10
    requires regs[H4LsbAddress] as int == h4 % 0x10 + 0x10 * (h5 % 0x10)
    requires regs[H5MsbAddress] as int == h5 % 0x1000 / 0x10
    ensures DecodeCalibration(regs).digH4 == if h4 < 0 then h4 + 0x1000 else h4
    ensures DecodeCalibration(regs).digH5 == if h5 < 0 then h5 + 0x1000 else h5
  {
    var d := DecodeCalibration(regs);
    assert d.digH4 == PackH4(regs[H4MsbAddress], regs[H4LsbAddress]);
    assert d.digH5 == PackH5(regs[H5LsbAddress], regs[H5MsbAddress]);
    SignedNibblesDecodeUnsigned(regs[H4MsbAddress], regs[H4LsbAddress], regs[H5MsbAddress], h4, h5);
  }

  /** Decoding is exact: it yields the coefficient set `c` precisely when the
      registers hold `c` in the vendor layout. Together with the lemma above,
      the sets it can yield are exactly those whose dig_H4 and dig_H5 lie in
      [0, 4095]. */
  lemma DecodeCalibrationExact(regs: RegisterFile, c: Coefficients)
    requires 0 <= c.digH4 < 0x1000 && 0 <= c.digH5 < 0x1000
    ensures DecodeCalibration(regs) == c <==> Holds(regs, c)
  {
    var d := DecodeCalibration(regs);
    WordExact(regs, T1Address, c.digT1);
    SignedWordExact(regs, T2Address, c.digT2);
    SignedWordExact(regs, T3Address, c.digT3);
    WordExact(regs, P1Address, c.digP1);
    ReinterpretedWordExact(regs, P2Address, c.digP2);
    ReinterpretedWordExact(regs, P3Address, c.digP3);
    ReinterpretedWordExact(regs, P4Address, c.digP4);
    ReinterpretedWordExact(regs, P5Address, c.digP5);
    ReinterpretedWordExact(regs, P6Address, c.digP6);
    ReinterpretedWordExact(regs, P7Address, c.digP7);
    ReinterpretedWordExact(regs, P8Address, c.digP8);
    ReinterpretedWordExact(regs, P9Address, c.digP9);
    SignedWordExact(regs, H2Address, c.digH2);
    NibblePackingInverse(regs[H4MsbAddress], regs[H4LsbAddress], regs[H5MsbAddress], c.digH4, c.digH5);
    Read8SInverse(regs[H6Address], c.digH6);
  }

  lemma WordExact(regs: RegisterFile, reg: int, v: Uint16)
    requires 0 <= reg < 0xFF
    ensures Word(regs, reg) == v <==> HoldsWord(regs, reg, v)
  {
    Read16LsbInverse(regs[reg], regs[reg + 1], v);
  }

  lemma SignedWordExact(regs: RegisterFile, reg: int, s: Int16)
    requires 0 <= reg < 0xFF
    ensures ReadS16Lsb(regs[reg], regs[reg + 1]) == s <==> HoldsWord(regs, reg, ToUint16(s))
  {
    ReadS16LsbInverse(regs[reg], regs[reg + 1], s);
    WordExact(regs, reg, ToUint16(s));
  }

  lemma ReinterpretedWordExact(regs: RegisterFile, reg: int, s: Int16)
    requires 0 <= reg < 0xFF
    ensures ToInt16(Word(regs, reg)) == s <==> HoldsWord(regs, reg, ToUint16(s))
  {
    SignedWordExact(regs, reg, s);
  }
}
