/** The three integer compensation formulas of the BME280 datasheet
    (section 4.2.3, "Compensation formulas"), as the driver writes them.
    Each is a `Checked` expression that follows the source operation by
    operation, in the C++ type it computes in: 32-bit for temperature and
    humidity, 64-bit for pressure. */
module Compensation {
  import opened FixedPoint
  import opened Calibration

  // ---------------------------------------------------------------------
  // Temperature

  /** var1: the linear term of the temperature polynomial,
      ⌊(⌊adc_T/8⌋ − 2·dig_T1)·dig_T2 / 2048⌋. */
  function TemperatureVar1(c: Coefficients, adcT: Int32): (var1: Checked)
    ensures 0x800 * var1.value <= (adcT / 8 - 2 * c.digT1) * c.digT2 < 0x800 * (var1.value + 1)
    ensures var1.defined ==> InRange(W32, var1.value)
  {
    assert Pow2(1) == 2 && Pow2(3) == 8 && Pow2(11) == 0x800;
    Shr(Mul(W32, Sub(W32, Shr(Const(adcT), 3), Shl(W32, Const(c.digT1), 1)), Const(c.digT2)), 11)
  }

  /** var2: the quadratic term of the temperature polynomial,
      ⌊⌊d²/4096⌋·dig_T3 / 16384⌋ with d = ⌊adc_T/16⌋ − dig_T1. */
  function TemperatureVar2(c: Coefficients, adcT: Int32): (var2: Checked)
    ensures var d := adcT / 16 - c.digT1;
      0x4000 * var2.value <= (d * d / 0x1000) * c.digT3 < 0x4000 * (var2.value + 1)
    ensures var2.defined ==> InRange(W32, var2.value)
  {
    assert Pow2(4) == 16 && Pow2(12) == 0x1000 && Pow2(14) == 0x4000;
    var d := Sub(W32, Shr(Const(adcT), 4), Const(c.digT1));
    Shr(Mul(W32, Shr(Mul(W32, d, d), 12), Const(c.digT3)), 14)
  }

  /** t_fine, the fine temperature that `compensateTemperature` leaves in its
      field for pressure and humidity compensation: the sum of the two terms.
      When defined it fits the int32 field. */
  function FineTemperature(c: Coefficients, adcT: Int32): (tFine: Checked)
    ensures tFine.defined ==> InRange(W32, tFine.value)
  {
    Add(W32, TemperatureVar1(c, adcT), TemperatureVar2(c, adcT))
  }

  /** The temperature in hundredths of a degree Celsius: t_fine / 51.2
      rounded to the nearest integer, halves rounded up. */
  function Temperature(tFine: Int32): (t: Checked)
    ensures 0x100 * t.value - 0x80 <= 5 * tFine < 0x100 * t.value + 0x80
  {
    assert Pow2(8) == 0x100;
    Shr(Add(W32, Mul(W32, Const(tFine), Const(5)), Const(128)), 8)
  }

  /** `compensateTemperature(adcT)` computes without overflow. */
  predicate TemperatureDefined(c: Coefficients, adcT: Int32) {
    var tFine := FineTemperature(c, adcT);
    tFine.defined && Temperature(tFine.value).defined
  }

  /** The temperature is a non-decreasing function of t_fine. */
  lemma TemperatureMonotone(tFine: Int32, tFine': Int32)
    requires tFine <= tFine'
    ensures Temperature(tFine).value <= Temperature(tFine').value
  {
  }

  /** Over the range where both coefficient terms rise with the reading
      (dig_T2 and dig_T3 non-negative and `adc_T >> 4` at least dig_T1),
      t_fine, and hence the temperature, never falls as adc_T rises. */
  lemma FineTemperatureMonotone(c: Coefficients, adcT: Int32, adcT': Int32)
    requires c.digT2 >= 0 && c.digT3 >= 0
    requires c.digT1 <= adcT / 16 && adcT <= adcT'
    ensures FineTemperature(c, adcT).value <= FineTemperature(c, adcT').value
  {
    TemperatureVar1Monotone(c, adcT, adcT');
    TemperatureVar2Monotone(c, adcT, adcT');
  }

  lemma TemperatureVar1Monotone(c: Coefficients, adcT: Int32, adcT': Int32)
    requires c.digT2 >= 0 && adcT <= adcT'
    ensures TemperatureVar1(c, adcT).value <= TemperatureVar1(c, adcT').value
  {
    ShrMonotone(Const(adcT), Const(adcT'), 3);
    var t1 := Shl(W32, Const(c.digT1), 1);
    var s, s' := Sub(W32, Shr(Const(adcT), 3), t1), Sub(W32, Shr(Const(adcT'), 3), t1);
    MulMonotone(W32, s, s', Const(c.digT2));
    ShrMonotone(Mul(W32, s, Const(c.digT2)), Mul(W32, s', Const(c.digT2)), 11);
  }

  lemma TemperatureVar2Monotone(c: Coefficients, adcT: Int32, adcT': Int32)
    requires c.digT3 >= 0
    requires c.digT1 <= adcT / 16 && adcT <= adcT'
    ensures TemperatureVar2(c, adcT).value <= TemperatureVar2(c, adcT').value
  {
    ShrMonotone(Const(adcT), Const(adcT'), 4);
    var d := Sub(W32, Shr(Const(adcT), 4), Const(c.digT1));
    var d' := Sub(W32, Shr(Const(adcT'), 4), Const(c.digT1));
    var sq, sq' := Mul(W32, d, d), Mul(W32, d', d');
    SquareMonotone(d.value, d'.value);
    ShrMonotone(sq, sq', 12);
    var u, u' := Shr(sq, 12), Shr(sq', 12);
    MulMonotone(W32, u, u', Const(c.digT3));
    ShrMonotone(Mul(W32, u, Const(c.digT3)), Mul(W32, u', Const(c.digT3)), 14);
  }

  lemma SquareMonotone(x: int, y: int)
    requires 0 <= x <= y
    ensures x * x <= y * y
  {
    assert y * y - x * x == (y - x) * (y + x);
  }

  // ---------------------------------------------------------------------
  // Pressure

  /** var1 and var2 as they stand after line 173: the offset of t_fine from
      25 degrees Celsius, and the pressure offset built from it. */
  function PressureOffset(c: Coefficients, tFine: Int32): (var2: Checked)
    ensures var2.defined ==> InRange(W64, var2.value)
  {
    var var1 := Sub(W64, Const(tFine), Const(128000));
    var var2 := Mul(W64, Mul(W64, var1, var1), Const(c.digP6));
    var var2 := Add(W64, var2, Shl(W64, Mul(W64, var1, Const(c.digP5)), 17));
    Add(W64, var2, Shl(W64, Const(c.digP4), 35))
  }

  /** var1 after line 175: the sensitivity the raw pressure is divided by. */
  function PressureDivisor(c: Coefficients, tFine: Int32): (var1: Checked)
    ensures var1.defined ==> InRange(W64, var1.value)
    ensures c.digP1 == 0 ==> var1.value == 0
  {
    var var1 := Sub(W64, Const(tFine), Const(128000));
    var var1 := Add(W64, Shr(Mul(W64, Mul(W64, var1, var1), Const(c.digP3)), 8),
                         Shl(W64, Mul(W64, var1, Const(c.digP2)), 12));
    Shr(Mul(W64, Add(W64, Shl(W64, Const(1), 47), var1), Const(c.digP1)), 33)
  }

  /** The pressure in Pa as a Q24.8 value. A zero divisor yields exactly 0
      instead of a division; otherwise the result is the final int64 value
      converted to uint32. */
  function Pressure(c: Coefficients, tFine: Int32, adcP: Int32): (r: Checked)
    ensures 0 <= r.value < 0x1_0000_0000
    ensures PressureDivisor(c, tFine).value == 0 ==> r.value == 0
    ensures r.defined ==> PressureOffset(c, tFine).defined && PressureDivisor(c, tFine).defined
  {
    var var2 := PressureOffset(c, tFine);
    var var1 := PressureDivisor(c, tFine);
    if var1.value == 0 then
      Checked(0, var2.defined && var1.defined)
    else
      var p := Sub(W32, Const(1048576), Const(adcP));
      var p := Div(W64, Mul(W64, Sub(W64, Shl(W64, p, 31), var2), Const(3125)), var1);
      var var1 := Shr(Mul(W64, Mul(W64, Const(c.digP9), Shr(p, 13)), Shr(p, 13)), 25);
      var var2 := Shr(Mul(W64, Const(c.digP8), p), 19);
      var p := Add(W64, Shr(Add(W64, Add(W64, p, var1), var2), 8), Shl(W64, Const(c.digP7), 4));
      Checked(ToUint32(p.value), p.defined)
  }

  /** `compensatePressure(adcP)` computes without overflow. */
  predicate PressureDefined(c: Coefficients, tFine: Int32, adcP: Int32) {
    Pressure(c, tFine, adcP).defined
  }

  /** A calibration set with dig_P1 == 0 forces a zero divisor, so pressure
      compensation returns exactly 0 whatever t_fine and the reading are. */
  lemma PressureZeroWithoutP1(c: Coefficients, tFine: Int32, adcP: Int32)
    requires c.digP1 == 0
    ensures PressureDivisor(c, tFine).value == 0
    ensures Pressure(c, tFine, adcP).value == 0
  {
  }

  // ---------------------------------------------------------------------
  // Humidity

  /** The first factor of line 194: the reading less the dig_H4 offset and
      the temperature-dependent dig_H5 term, rounded back down by 15 bits. */
  function HumidityOffsetReading(c: Coefficients, tFine: Int32, adcH: Int32): (r: Checked)
    ensures r.defined ==> InRange(W32, r.value)
  {
    var x := Sub(W32, Const(tFine), Const(76800));
    Shr(Add(W32, Sub(W32, Sub(W32, Shl(W32, Const(adcH), 14), Shl(W32, Const(c.digH4), 20)),
                          Mul(W32, Const(c.digH5), x)),
                 Const(16384)), 15)
  }

  /** The inner part of the second factor of line 194: the quadratic in
      t_fine built from dig_H6 and dig_H3. */
  function HumidityTemperatureTerm(c: Coefficients, tFine: Int32): (r: Checked)
    ensures r.defined ==> InRange(W32, r.value)
  {
    var x := Sub(W32, Const(tFine), Const(76800));
    Shr(Mul(W32, Shr(Mul(W32, x, Const(c.digH6)), 10),
                 Add(W32, Shr(Mul(W32, x, Const(c.digH3)), 11), Const(32768))), 10)
  }

  /** The second factor of line 194: the sensitivity, scaled by dig_H2. */
  function HumidityGain(c: Coefficients, tFine: Int32): (r: Checked)
    ensures r.defined ==> InRange(W32, r.value)
  {
    Shr(Add(W32, Mul(W32, Add(W32, HumidityTemperatureTerm(c, tFine), Const(2097152)), Const(c.digH2)),
                 Const(8192)), 14)
  }

  /** v_x1_u32r after line 200, before it is clamped: the product of the two
      factors, less the dig_H1 correction of line 199. */
  function HumidityUnclamped(c: Coefficients, tFine: Int32, adcH: Int32): (r: Checked)
    ensures r.defined ==> InRange(W32, r.value)
  {
    var x := Mul(W32, HumidityOffsetReading(c, tFine, adcH), HumidityGain(c, tFine));
    Sub(W32, x, Shr(Mul(W32, Shr(Mul(W32, Shr(x, 15), Shr(x, 15)), 7), Const(c.digH1)), 4))
  }

  /** The largest humidity before the final shift: 100 %RH in Q22.10 shifted
      up by twelve bits. */
  const HumidityCeiling := 419430400

  /** The relative humidity in %RH as a Q22.10 value: the polynomial clamped
      to [0, 419430400] and then shifted right by twelve, so never more than
      102400 (100 %RH). Clamping before the shift gives the same value as
      clamping the shifted polynomial to [0, 102400]. */
  function Humidity(c: Coefficients, tFine: Int32, adcH: Int32): (r: Checked)
    ensures 0 <= r.value <= 102400
    ensures r.value == Clamp(HumidityUnclamped(c, tFine, adcH).value / 4096, 0, 102400)
    ensures r.defined == HumidityUnclamped(c, tFine, adcH).defined
  {
    var x := HumidityUnclamped(c, tFine, adcH);
    var x := Checked(if x.value < 0 then 0 else x.value, x.defined);
    var x := Checked(if x.value > HumidityCeiling then HumidityCeiling else x.value, x.defined);
    assert Pow2(12) == 4096;
    Shr(x, 12)
  }

  /** `compensateHumidity(adcH)` computes without overflow. */
  predicate HumidityDefined(c: Coefficients, tFine: Int32, adcH: Int32) {
    Humidity(c, tFine, adcH).defined
  }

  /** Decoding never sign-extends dig_H4, so a negative coefficient arrives
      4096 too large. The shift `dig_H4 << 20` wraps that surplus away: the
      humidity equals the one computed with the sign-extended coefficient. */
  lemma UnextendedH4IsHarmless(c: Coefficients, tFine: Int32, adcH: Int32)
    requires 0x800 <= c.digH4
    ensures Humidity(c, tFine, adcH) == Humidity(c.(digH4 := c.digH4 - 0x1000), tFine, adcH)
  {
    var c' := c.(digH4 := c.digH4 - 0x1000);
    assert Pow2(20) == 0x10_0000;
    WrapPeriodic(W32, 0x10_0000 * c.digH4);
    assert Shl(W32, Const(c.digH4), 20) == Shl(W32, Const(c'.digH4), 20);
    assert HumidityOffsetReading(c, tFine, adcH) == HumidityOffsetReading(c', tFine, adcH);
  }

  // ---------------------------------------------------------------------
  // A worked example

  /** A calibration set of the kind the datasheet uses for its examples. */
  const ExampleCoefficients := Coefficients(
    digT1 := 27504, digT2 := 26435, digT3 := -1000,
    digP1 := 36477, digP2 := -10685, digP3 := 3024, digP4 := 2855, digP5 := 140,
    digP6 := -7, digP7 := 15500, digP8 := -14600, digP9 := 6000,
    digH1 := 75, digH2 := 362, digH3 := 0, digH4 := 313, digH5 := 50, digH6 := 30)

  lemma ExampleTemperature()
    ensures FineTemperature(ExampleCoefficients, 519888) == Checked(128422, true)
    ensures Temperature(128422) == Checked(2508, true)
  {
    assert Pow2(1) == 2 && Pow2(3) == 8 && Pow2(4) == 16 && Pow2(8) == 256;
    assert Pow2(11) == 2048 && Pow2(12) == 4096 && Pow2(14) == 16384;
    var c := ExampleCoefficients;
    assert TemperatureVar1(c, 519888) == Checked(128793, true);
    assert TemperatureVar2(c, 519888) == Checked(-371, true);
  }

  lemma ExamplePressureOffset()
    ensures PressureOffset(ExampleCoefficients, 128422) == Checked(98104795527812, true)
  {
    assert Pow2(17) == 0x2_0000 && Pow2(35) == 0x8_0000_0000;
    var v1 := Sub(W64, Const(128422), Const(128000));
    assert v1 == Checked(422, true);
    var sq := Mul(W64, v1, v1);
    assert sq == Checked(178084, true);
    assert Mul(W64, sq, Const(-7)) == Checked(-1246588, true);
    assert Mul(W64, v1, Const(140)) == Checked(59080, true);
    assert Shl(W64, Checked(59080, true), 17) == Checked(7743733760, true);
    assert Shl(W64, Const(2855), 35) == Checked(98097053040640, true);
  }

  lemma ExamplePressureDivisor()
    ensures PressureDivisor(ExampleCoefficients, 128422) == Checked(597560748, true)
  {
    assert Pow2(8) == 256 && Pow2(12) == 4096;
    assert Pow2(33) == 0x2_0000_0000 && Pow2(47) == 0x8000_0000_0000;
    var v1 := Sub(W64, Const(128422), Const(128000));
    assert v1 == Checked(422, true);
    var sq := Mul(W64, v1, v1);
    assert sq == Checked(178084, true);
    assert Shr(Mul(W64, sq, Const(3024)), 8) == Checked(2103617, true);
    assert Shl(W64, Mul(W64, v1, Const(-10685)), 12) == Checked(-18469150720, true);
  }

  /** The 64-bit numerator of the division on line 181 for the worked example. */
  lemma ExamplePressureNumerator()
    ensures Mul(W64, Sub(W64, Shl(W64, Checked(633428, true), 31), PressureOffset(ExampleCoefficients, 128422)),
                Const(3125)) == Checked(3944285864554787500, true)
  {
    ExamplePressureOffset();
    assert Pow2(31) == 0x8000_0000;
    assert Shl(W64, Checked(633428, true), 31) == Checked(1360276272185344, true);
    assert Sub(W64, Checked(1360276272185344, true), Checked(98104795527812, true)) == Checked(1262171476657532, true);
  }

  /** The two correction terms of lines 182-183 for the example quotient. */
  lemma ExamplePressureCorrections()
    ensures Shr(Mul(W64, Mul(W64, Const(ExampleCoefficients.digP9), Shr(Checked(6600644165, true), 13)),
                    Shr(Checked(6600644165, true), 13)), 25) == Checked(116089612, true)
    ensures Shr(Mul(W64, Const(ExampleCoefficients.digP8), Checked(6600644165, true)), 19) == Checked(-183810053, true)
  {
    assert Pow2(13) == 8192 && Pow2(19) == 0x8_0000 && Pow2(25) == 0x200_0000;
    var q := Checked(6600644165, true);
    assert Shr(q, 13) == Checked(805742, true);
  }

  lemma ExamplePressure()
    ensures Pressure(ExampleCoefficients, 128422, 415148) == Checked(25767233, true)
  {
    ExamplePressureDivisor();
    ExamplePressureNumerator();
    ExamplePressureCorrections();
    assert Pow2(4) == 16 && Pow2(8) == 256;
    assert Sub(W32, Const(1048576), Const(415148)) == Checked(633428, true);
    assert Div(W64, Checked(3944285864554787500, true), Checked(597560748, true)) == Checked(6600644165, true);
    var sum := Add(W64, Add(W64, Checked(6600644165, true), Checked(116089612, true)), Checked(-183810053, true));
    assert sum == Checked(6532923724, true);
    assert Shr(sum, 8) == Checked(25519233, true);
    assert Shl(W64, Const(15500), 4) == Checked(248000, true);
  }

  lemma ExampleHumidityOffsetReading()
    ensures HumidityOffsetReading(ExampleCoefficients, 128422, 30000) == Checked(4905, true)
  {
    assert Pow2(14) == 16384 && Pow2(15) == 32768 && Pow2(20) == 0x10_0000;
  }

  lemma ExampleHumidityTemperatureTerm()
    ensures HumidityTemperatureTerm(ExampleCoefficients, 128422) == Checked(48384, true)
  {
    assert Pow2(10) == 1024 && Pow2(11) == 2048;
  }

  lemma ExampleHumidityTerms()
    ensures HumidityOffsetReading(ExampleCoefficients, 128422, 30000) == Checked(4905, true)
    ensures HumidityTemperatureTerm(ExampleCoefficients, 128422) == Checked(48384, true)
  {
    ExampleHumidityOffsetReading();
    ExampleHumidityTemperatureTerm();
  }

  lemma ExampleHumidityGain()
    ensures HumidityGain(ExampleCoefficients, 128422) == Checked(47405, true)
  {
    ExampleHumidityTerms();
    assert Pow2(14) == 16384;
    var sum := Add(W32, HumidityTemperatureTerm(ExampleCoefficients, 128422), Const(2097152));
    assert sum == Checked(2145536, true);
    assert Mul(W32, sum, Const(362)) == Checked(776684032, true);
  }

  lemma ExampleHumidityUnclamped()
    ensures HumidityUnclamped(ExampleCoefficients, 128422, 30000) == Checked(230678058, true)
  {
    ExampleHumidityTerms();
    ExampleHumidityGain();
    assert Pow2(4) == 16 && Pow2(7) == 128 && Pow2(15) == 32768;
    var x := Mul(W32, HumidityOffsetReading(ExampleCoefficients, 128422, 30000), HumidityGain(ExampleCoefficients, 128422));
    assert x == Checked(232521525, true);
    assert Shr(x, 15) == Checked(7095, true);
    assert Shr(Mul(W32, Shr(x, 15), Shr(x, 15)), 7) == Checked(393273, true);
    assert Shr(Mul(W32, Checked(393273, true), Const(75)), 4) == Checked(1843467, true);
  }

  lemma ExampleHumidity()
    ensures Humidity(ExampleCoefficients, 128422, 30000) == Checked(56317, true)
  {
    ExampleHumidityUnclamped();
    assert Pow2(12) == 4096;
  }

  /** The same example with dig_H5 = −1, and with 4095, the value decoding
      produces from the vendor encoding of −1 (lines 41-42 do not
      sign-extend). The offset readings of line 194 differ. */
  lemma ExampleH5OffsetReadings()
    ensures HumidityOffsetReading(ExampleCoefficients.(digH5 := -1), 128422, 30000) == Checked(4986, true)
    ensures HumidityOffsetReading(ExampleCoefficients.(digH5 := 0xFFF), 128422, 30000) == Checked(-1467, true)
  {
    assert Pow2(14) == 16384 && Pow2(15) == 32768 && Pow2(20) == 0x10_0000;
  }

  /** The missing sign extension of dig_H5 changes the result: registers
      holding dig_H5 = −1 give 57240 (55.9 %RH) where the sign-extended
      coefficient is meant, but the decoded 4095 gives 0. */
  /** With the sign-extended dig_H5 = −1 the example humidity is 57240. */
  lemma SignedH5Humidity()
    ensures Humidity(ExampleCoefficients.(digH5 := -1), 128422, 30000) == Checked(57240, true)
  {
    ExampleH5OffsetReadings();
    ExampleHumidityGain();
    assert Pow2(4) == 16 && Pow2(7) == 128 && Pow2(12) == 4096 && Pow2(15) == 32768;
    var neg := ExampleCoefficients.(digH5 := -1);
    assert HumidityGain(neg, 128422) == Checked(47405, true);
    var x := Mul(W32, HumidityOffsetReading(neg, 128422, 30000), HumidityGain(neg, 128422));
    assert x == Checked(236361330, true);
    assert Shr(x, 15) == Checked(7213, true);
    assert Shr(Mul(W32, Shr(x, 15), Shr(x, 15)), 7) == Checked(406463, true);
    assert Shr(Mul(W32, Checked(406463, true), Const(75)), 4) == Checked(1905295, true);
    assert HumidityUnclamped(neg, 128422, 30000) == Checked(234456035, true);
  }

  /** With the unextended dig_H5 = 4095 the example humidity is 0. */
  lemma UnextendedH5Humidity()
    ensures Humidity(ExampleCoefficients.(digH5 := 0xFFF), 128422, 30000) == Checked(0, true)
  {
    ExampleH5OffsetReadings();
    ExampleHumidityGain();
    assert Pow2(4) == 16 && Pow2(7) == 128 && Pow2(12) == 4096 && Pow2(15) == 32768;
    var unext := ExampleCoefficients.(digH5 := 0xFFF);
    assert HumidityGain(unext, 128422) == Checked(47405, true);
    var y := Mul(W32, HumidityOffsetReading(unext, 128422, 30000), HumidityGain(unext, 128422));
    assert y == Checked(-69543135, true);
    assert Shr(y, 15) == Checked(-2123, true);
    assert Shr(Mul(W32, Shr(y, 15), Shr(y, 15)), 7) == Checked(35211, true);
    assert Shr(Mul(W32, Checked(35211, true), Const(75)), 4) == Checked(165051, true);
    assert HumidityUnclamped(unext, 128422, 30000) == Checked(-69708186, true);
  }

  /** The missing sign extension of dig_H5 changes the result: registers
      holding dig_H5 = −1 give 57240 (55.9 %RH) where the sign-extended
      coefficient is meant, but the decoded 4095 gives 0. */
  lemma UnextendedH5ChangesHumidity()
    ensures Humidity(ExampleCoefficients.(digH5 := -1), 128422, 30000) == Checked(57240, true)
    ensures Humidity(ExampleCoefficients.(digH5 := 0xFFF), 128422, 30000) == Checked(0, true)
  {
    SignedH5Humidity();
    UnextendedH5Humidity();
  }
}
