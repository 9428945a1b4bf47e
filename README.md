# BME280 driver core in Dafny

This project models the integer core of the `BME280` Arduino driver
(`src/BME280.cpp`). That core has four parts:

- **Byte assembly.** `read8S`, `read16_lsb`, `read16_msb`, `readS16_lsb`, `readS16_msb` and `read24` build
  integers from the bytes the sensor returns over I2C.
- **Calibration decoding.** `readCalibrationData` decodes the eighteen factory coefficients `dig_T1` ..
  `dig_H6`. This includes the 12-bit `dig_H4` and `dig_H5`, which share a register between them.
- **Compensation.** `compensateTemperature`, `compensatePressure` and `compensateHumidity` are fixed-point
  formulas that turn raw ADC readings into temperature (0.01 °C), pressure (Pa, Q24.8) and relative
  humidity (%RH, Q22.10).
- **Reading order.** `getPressure`, `getHumidity` and `getAll` sequence their reads so that every
  pressure and humidity value is compensated with the fine temperature `t_fine` of a temperature read
  made in the same getter.

The project has five modules:

- `FixedPoint` (`fixed_point.dfy`) holds the C++ integer types and operators over unbounded integers.
  Signed overflow is undefined behaviour in C++. So each formula is a `Checked` value: the exact result,
  plus a flag that is true exactly when no step left its `int32_t`/`int64_t` type and no division by zero
  happened.
  - Both shifts follow C++20.
  - `>>` on a signed value is floor division by 2^k.
  - `<<` is multiplication by 2^k, reduced into the type (two's-complement wrap-around). So it is defined for
    negative operands and for carries into the sign bit.
  - `/` truncates toward zero.
  - `(uint32_t)` reduces modulo 2^32.
- `Registers` (`registers.dfy`) holds the byte assemblers. Each `Wire.read()` result is a `bv8`
  parameter, named in the order the source reads it. The contracts state the integer value that results.
  - `Read16Lsb`, `Read16Msb`, `PackH4` and `PackH5` use the source's shifts, ors and masks on
    bit-vectors.
  - `Read24` writes the `<<= 8; |=` accumulation of lines 108-112 as the arithmetic `256·(256·a + b) + c`.
    After each shift the low byte is zero, so the `|=` is an addition.
  - `ToInt8` and `ToInt16` write the casts as integer arithmetic.
- `Calibration` (`calibration.dfy`) decodes the coefficient set from the sensor's register file. It
  proves that decoding is exactly inverted by the vendor register layout.
- `Compensation` (`compensation.dfy`) holds the three formulas, operation by operation. Around them it
  has:
  - ordering, range and zero-guard properties;
  - what the missing sign extension of `dig_H4` and `dig_H5` does to the humidity;
  - a worked example evaluated end to end.
- `Sensor` (`sensor.dfy`) holds the `Bme280` class. Its fields are the coefficient record and `t_fine`.
  Its methods follow the source's getters, and its frames show which of them overwrite `t_fine`.

## Model

| member | source | states |
|---|---|---|
| FixedPoint.Shr | src/BME280.cpp:158-159 | `a >> k` on a signed value rounds toward minus infinity: 2^k·r ≤ a < 2^k·(r+1), and it never makes an expression undefined |
| FixedPoint.Add | src/BME280.cpp:158-203 | signed `+` in int32/int64: the value is the exact sum, and it is defined exactly when both operands are and the sum fits the type, since overflow is undefined |
| FixedPoint.Sub | src/BME280.cpp:158-203 | signed `-`: the exact difference, defined exactly when both operands are and it fits the type |
| FixedPoint.Mul | src/BME280.cpp:158-203 | signed `*`: the exact product, defined exactly when both operands are and it fits the type |
| FixedPoint.Shl | src/BME280.cpp:158-194 | `a << k` as C++20 defines it: the result lies in the type, is congruent to a·2^k modulo 2^32 or 2^64, and is a·2^k itself when that fits; it is defined whenever a is and k is below the width |
| FixedPoint.Div | src/BME280.cpp:181 | signed `/` by a nonzero divisor: it rounds toward zero (magnitude bound and sign), and it is defined exactly when both operands are and the quotient fits |
| FixedPoint.TruncDiv | src/BME280.cpp:181 | the quotient of `/` has magnitude ⌊\|n\|/\|d\|⌋ and the sign of n·d, so it rounds toward zero |
| FixedPoint.Clamp | src/BME280.cpp:201-202 | the two guarded assignments put the value in [lo, hi], leave it alone when it is already there, and give lo below and hi above |
| FixedPoint.ToUint32 | src/BME280.cpp:185 | `(uint32_t)p` is congruent to p modulo 2^32, lies in [0, 2^32), and is p itself when p already fits |
| FixedPoint.ShrMonotone | src/BME280.cpp:158-159 | an arithmetic right shift never reorders two values |
| FixedPoint.MulMonotone | src/BME280.cpp:158-159 | multiplying by a non-negative coefficient never reorders two values |
| Registers.Read16Lsb | src/BME280.cpp:65-74 | the value is first + 256·second, so the first byte read is the low byte |
| Registers.Read16Msb | src/BME280.cpp:77-86 | the value is 256·first + second, so the first byte read is the high byte |
| Registers.Read24 | src/BME280.cpp:101-114 | the result is below 2^24 and holds the three bytes read, most significant first, each in its own eight bits |
| Registers.Adc20 | src/BME280.cpp:119 | `read24(..) >> 4` is the top twenty of the 24 bits: 4096·first + 16·second + ⌊third/16⌋, in [0, 2^20) |
| Registers.ToInt8 | src/BME280.cpp:61 | `(int8_t)` keeps the bits modulo 256 and is negative exactly when bit 7 is set |
| Registers.ToInt16 | src/BME280.cpp:91 | `(int16_t)` keeps the bits modulo 2^16 and is negative exactly when bit 15 is set |
| Registers.Read8S | src/BME280.cpp:59-62 | the signed byte is congruent to the byte read and is negative exactly when the byte is at least 0x80 |
| Registers.ReadS16Lsb | src/BME280.cpp:89-92 | the signed value is congruent to first + 256·second, and its sign is the top bit of the second byte |
| Registers.ReadS16Msb | src/BME280.cpp:95-98 | the signed value is congruent to 256·first + second, and its sign is the top bit of the first byte |
| Registers.PackH4 | src/BME280.cpp:41 | dig_H4 is 16·reg[0xE4] + (reg[0xE5] mod 16), a 12-bit value that is never negative |
| Registers.PackH5 | src/BME280.cpp:42 | dig_H5 is 16·reg[0xE6] + ⌊reg[0xE5]/16⌋, a 12-bit value that is never negative |
| Registers.Read16LsbInverse | src/BME280.cpp:65-74 | `read16_lsb` gives v exactly when the low byte of v is read first and the high byte second |
| Registers.Read16ByteOrder | src/BME280.cpp:65-98 | the MSB-first reads equal the LSB-first reads with the two bytes swapped, both unsigned and signed |
| Registers.ReadS16LsbInverse | src/BME280.cpp:89-92 | `readS16_lsb` is two's complement: its result has the bit pattern read, and it gives s exactly when the bytes are s's bit pattern |
| Registers.Read8SInverse | src/BME280.cpp:59-62 | `read8S` gives s exactly when the byte is s mod 256 |
| Registers.NibblePackingInverse | src/BME280.cpp:41-42 | two 12-bit values are decoded from exactly one register triple 0xE4..0xE6, whose middle byte holds both low nibbles |
| Registers.SignedNibblesDecodeUnsigned | src/BME280.cpp:41-42 | the packing reads the 12-bit pattern of a signed value back as unsigned: −h comes back as 4096 − h |
| Calibration.DecodeCalibrationExact | src/BME280.cpp:24-44 | decoding yields a coefficient set exactly when the registers hold that set in the vendor layout, for every set with 12-bit dig_H4 and dig_H5 |
| Calibration.DecodeCalibration | src/BME280.cpp:26-43 | the eighteen reads of `readCalibrationData`; decoding never sign-extends dig_H4 or dig_H5, so both lie in [0, 4095] |
| Calibration.NibbleFieldsDecodeUnsigned | src/BME280.cpp:41-42 | registers holding signed 12-bit dig_H4 and dig_H5 in the vendor layout decode to those values when they are non-negative, and to the value plus 4096 when negative |
| Compensation.FineTemperature | src/BME280.cpp:158-160 | t_fine = var1 + var2, and when it is defined it fits the int32 field |
| Compensation.TemperatureVar1 | src/BME280.cpp:158 | var1 = ⌊(⌊adc_T/8⌋ − 2·dig_T1)·dig_T2 / 2048⌋, and when defined it fits int32 |
| Compensation.TemperatureVar2 | src/BME280.cpp:159 | var2 = ⌊⌊d²/4096⌋·dig_T3 / 16384⌋ with d = ⌊adc_T/16⌋ − dig_T1, and when defined it fits int32 |
| Compensation.Temperature | src/BME280.cpp:161 | T is 5·t_fine/256 rounded to nearest, halves up: 256·T − 128 ≤ 5·t_fine < 256·T + 128 |
| Compensation.TemperatureMonotone | src/BME280.cpp:161 | the temperature never falls as t_fine rises |
| Compensation.FineTemperatureMonotone | src/BME280.cpp:158-160 | with dig_T2, dig_T3 ≥ 0 and adc_T/16 ≥ dig_T1, t_fine never falls as adc_T rises |
| Compensation.Pressure | src/BME280.cpp:167-186 | the result is a uint32; a zero divisor gives exactly 0 and no division; a defined result needs both intermediate terms defined |
| Compensation.PressureOffset | src/BME280.cpp:170-173 | var2 after line 173, built operator by operator in int64; when defined it fits int64 |
| Compensation.PressureDivisor | src/BME280.cpp:170-175 | var1 after line 175, built operator by operator in int64; when defined it fits int64, and it is 0 whenever dig_P1 is 0 |
| Compensation.PressureZeroWithoutP1 | src/BME280.cpp:175-179 | with dig_P1 = 0 the divisor is 0, so the pressure is 0 for every t_fine and reading |
| Compensation.Humidity | src/BME280.cpp:190-204 | the result lies in [0, 102400] and equals the polynomial shifted right by 12 and clamped to [0, 102400]; clamping before the shift agrees with clamping after it |
| Compensation.HumidityOffsetReading | src/BME280.cpp:193-195 | the first factor of line 194, built operator by operator in int32; when defined it fits int32 |
| Compensation.HumidityTemperatureTerm | src/BME280.cpp:195-197 | the quadratic in t_fine inside the second factor; when defined it fits int32 |
| Compensation.HumidityGain | src/BME280.cpp:195-198 | the second factor of line 194, scaled by dig_H2; when defined it fits int32 |
| Compensation.HumidityUnclamped | src/BME280.cpp:193-200 | v_x1_u32r after line 200, the product of the two factors less the dig_H1 correction; when defined it fits int32 |
| Compensation.UnextendedH4IsHarmless | src/BME280.cpp:194 | a dig_H4 decoded 4096 too large gives the same humidity as the sign-extended value, because `dig_H4 << 20` wraps the surplus away |
| Compensation.ExampleTemperature | src/BME280.cpp:155-163 | for T1..T3 = 27504, 26435, −1000 and adc_T = 519888: t_fine = 128422, T = 2508 (25.08 °C), with no overflow |
| Compensation.ExamplePressureOffset | src/BME280.cpp:170-173 | for the example P coefficients and t_fine = 128422, var2 after line 173 is 98104795527812 |
| Compensation.ExamplePressureDivisor | src/BME280.cpp:174-175 | for the example P coefficients and t_fine = 128422, var1 after line 175 is 597560748 |
| Compensation.ExamplePressureNumerator | src/BME280.cpp:180-181 | for adc_P = 415148 and t_fine = 128422, the dividend `((p << 31) - var2) * 3125` of line 181 is 3944285864554787500, with no overflow |
| Compensation.ExamplePressureCorrections | src/BME280.cpp:182-183 | for the example quotient p = 6600644165, the dig_P9 correction of line 182 is 116089612 and the dig_P8 correction of line 183 is −183810053 |
| Compensation.ExamplePressure | src/BME280.cpp:167-186 | for adc_P = 415148 and t_fine = 128422 the pressure is 25767233 (≈ 100653 Pa), with no overflow |
| Compensation.ExampleHumidityOffsetReading | src/BME280.cpp:193-195 | for the example H coefficients, adc_H = 30000 and t_fine = 128422, the first factor of line 194 is 4905 |
| Compensation.ExampleHumidityTemperatureTerm | src/BME280.cpp:195-197 | for the example H coefficients and t_fine = 128422, the quadratic temperature term inside the second factor is 48384 |
| Compensation.ExampleHumidityTerms | src/BME280.cpp:193-198 | for the example H coefficients and adc_H = 30000, the first factor of line 194 is 4905 and the quadratic temperature term inside the second is 48384 |
| Compensation.ExampleHumidityGain | src/BME280.cpp:195-198 | for the example H coefficients and t_fine = 128422 the second factor of line 194 is 47405 |
| Compensation.ExampleHumidityUnclamped | src/BME280.cpp:193-200 | for adc_H = 30000 and t_fine = 128422, v_x1_u32r after line 200 is 230678058, with no overflow |
| Compensation.ExampleHumidity | src/BME280.cpp:190-204 | for adc_H = 30000 and t_fine = 128422 the humidity is 56317 (≈ 55.0 %RH), with no overflow |
| Compensation.ExampleH5OffsetReadings | src/BME280.cpp:193-195 | for the example set with dig_H5 = −1 the first factor of line 194 is 4986; with the decoded 4095 it is −1467 |
| Compensation.SignedH5Humidity | src/BME280.cpp:190-204 | for the example set with the sign-extended dig_H5 = −1, t_fine = 128422 and adc_H = 30000, the humidity is 57240 (55.9 %RH) |
| Compensation.UnextendedH5Humidity | src/BME280.cpp:190-204 | for the same inputs with the decoded dig_H5 = 4095, the humidity is 0 |
| Compensation.UnextendedH5ChangesHumidity | src/BME280.cpp:190-204 | for the example set, t_fine = 128422 and adc_H = 30000, dig_H5 = −1 gives 57240 (55.9 %RH), but the 4095 decoded from the vendor encoding of −1 gives 0 |
| Sensor.Adc | src/BME280.cpp:119 | a temperature or pressure reading lies in [0, 2^20) |
| Sensor.HumidityAdc | src/BME280.cpp:137 | a humidity reading lies in [0, 2^16) |
| Sensor.Bme280.constructor | src/BME280.cpp:4-5 | the constructor stores the bus address |
| Sensor.Bme280.ReadCalibrationData | src/BME280.cpp:24-44 | afterwards the coefficient fields hold the decoded register file; t_fine is outside the frame |
| Sensor.Bme280.Begin | src/BME280.cpp:8-21 | loads the calibration and returns true |
| Sensor.Bme280.CompensateTemperature | src/BME280.cpp:155-163 | writes only t_fine, which becomes the fine temperature of adc_T, and returns the temperature derived from it |
| Sensor.Bme280.CompensatePressure | src/BME280.cpp:167-186 | reads the t_fine currently stored, changes nothing, and returns 0 when that t_fine gives a zero divisor |
| Sensor.Bme280.CompensateHumidity | src/BME280.cpp:190-204 | reads the t_fine currently stored, changes nothing, and never returns more than 102400 |
| Sensor.Bme280.GetTemperature | src/BME280.cpp:117-122 | t_fine becomes the fine temperature of the bytes read, and the temperature is derived from it |
| Sensor.Bme280.GetPressure | src/BME280.cpp:125-131 | the pressure is compensated with the t_fine of the temperature bytes read just before it, never a stale one |
| Sensor.Bme280.GetHumidity | src/BME280.cpp:134-140 | the humidity is compensated with the t_fine of the temperature bytes read just before it, and is at most 102400 |
| Sensor.Bme280.GetAll | src/BME280.cpp:143-149 | the temperature comes from the first temperature read, the pressure uses the t_fine of the second and the humidity that of the third, and t_fine is left at the third |

## Left out

- All bus traffic. The model leaves out `Wire.begin`, `beginTransmission`, `write`, `endTransmission` and
  `requestFrom`. So `Begin` does not model the writes of `ctrl_hum` and `ctrl_meas` (lines 13-18) or its
  `mode` argument. Each byte read is a parameter, and the calibration registers are a 256-byte register
  file.
- A `Wire.read()` that returns −1 when no byte is available. Every read here yields a byte.
- The order of the two `Wire.read()` calls at lines 72 and 84. C++ leaves unspecified which operand of
  `|` is evaluated first. The model assumes left to right, as the comments there intend.
- The floating-point conversions in the getters (`/ 100.0`, `/ 25600.0`, `/ 1024.0`). The getters and
  `SensorData` return the integers those conversions start from.
- The register address constants and the field declarations. `include/BME280.hpp` does not declare them,
  so they are not part of this model.
  - Addresses are taken from the BME280 register map (0x88..0x9F, 0xA1, 0xE1..0xE7).
  - The coefficient types are those the reads imply: `dig_T1`, `dig_P1` uint16; `dig_H1`, `dig_H3` uint8;
    `dig_H6` int8; all others int16.
  - So `dig_P2`..`dig_P9`, read with the unsigned `read16_lsb`, are reinterpreted as int16.
- `src/main.cpp` (an example sketch) is not part of this model.
- Sensor.Bme280.ReadCalibrationData: the eighteen `dig_*` fields are held as one `Coefficients` record
  field, so the model does not show the order in which the fields are written.
- Sensor.Bme280.CompensateTemperature, CompensatePressure, CompensateHumidity and the getters require the
  computation to stay within defined behaviour (the `Defined` predicates). On signed overflow the C++
  behaviour is undefined, and the model says nothing about it.
- FixedPoint.Shl: follows C++20, where a left shift of a negative operand, or one that carries into the
  sign bit, wraps. Before C++20 a negative left operand is undefined and a carry into the sign bit is
  implementation-defined. Lines 172 and 174 shift negative values on most readings. Line 194 shifts
  dig_H4 values of 2048 and up into the sign bit.
- FixedPoint.Shr: a right shift of a negative value is implementation-defined before C++20. The model
  takes the arithmetic shift that C++20 mandates.
- Compensation.FineTemperatureMonotone: proved only where dig_T2, dig_T3 ≥ 0 and `adc_T >> 4 ≥ dig_T1`.
  Outside that range the quadratic term can fall.
- Compensation.Pressure: its contract gives the range and the zero guard, not a closed form. The formula
  is checked against a worked example (`ExamplePressure`).
- Sign extension of `dig_H4` and `dig_H5`. Lines 41-42 never sign-extend, so a negative coefficient in
  the vendor layout decodes 4096 too large. The model keeps this as written.
  - For `dig_H4` this is harmless, because the shift at line 194 wraps (`UnextendedH4IsHarmless`).
  - For `dig_H5` it changes the humidity (`UnextendedH5ChangesHumidity`).
- Compensation.PressureOffset, PressureDivisor, HumidityOffsetReading, HumidityTemperatureTerm,
  HumidityGain, HumidityUnclamped: their contracts give only the int range of a defined result. Their
  values are pinned by the worked examples.
