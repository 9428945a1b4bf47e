/** The driver object. It keeps the coefficients that `readCalibrationData`
    stores and the fine temperature `t_fine` that temperature compensation
    leaves behind for pressure and humidity compensation. The bytes of each
    measurement read are parameters, named in the order the source reads
    them; the calibration registers are a register file. */
module Sensor {
  import opened FixedPoint
  import opened Registers
  import opened Calibration
  import opened Compensation

  /** The three bytes one `read24` receives, most significant first. */
  datatype Burst24 = Burst24(first: Byte, second: Byte, third: Byte)

  /** The two bytes one `read16_msb` receives. */
  datatype Burst16 = Burst16(first: Byte, second: Byte)

  /** `read24(...) >> 4`, the raw temperature or pressure reading. */
  function Adc(raw: Burst24): (adc: Int32)
    ensures 0 <= adc < 0x10_0000
  {
    Adc20(raw.first, raw.second, raw.third)
  }

  /** `read16_msb(hum_address)`, the raw humidity reading. */
  function HumidityAdc(raw: Burst16): (adc: Int32)
    ensures 0 <= adc < 0x1_0000
  {
    Read16Msb(raw.first, raw.second)
  }

  /** The t_fine that compensating the temperature bytes `raw` produces. */
  function FineOf(c: Coefficients, raw: Burst24): (tFine: Int32)
    requires TemperatureDefined(c, Adc(raw))
  {
    FineTemperature(c, Adc(raw)).value
  }

  /** The integer readings `getAll` converts to floating point. */
  datatype SensorData = SensorData(temperature: Int32, pressure: Uint32, humidity: Uint32)

  class Bme280 {
    const sensorAddress: Uint8
    /** The dig_T1 .. dig_H6 fields, held as one record. */
    var coefficients: Coefficients
    /** The fine temperature of the most recent temperature compensation. */
    var tFine: Int32

    /** The constructor records the bus address and nothing else. */
    constructor (address: Uint8)
      ensures sensorAddress == address
    {
      sensorAddress := address;
    }

    /** `readCalibrationData`: fills every coefficient field from its
        registers; t_fine is outside its frame. */
    method ReadCalibrationData(regs: RegisterFile)
      modifies this`coefficients
      ensures coefficients == DecodeCalibration(regs)
    {
      coefficients := DecodeCalibration(regs);
    }

    /** `begin`: reads the calibration and reports success; it cannot fail. */
    method Begin(regs: RegisterFile) returns (ok: bool)
      modifies this`coefficients
      ensures ok
      ensures coefficients == DecodeCalibration(regs)
    {
      ReadCalibrationData(regs);
      ok := true;
    }

    /** `compensateTemperature`: writes t_fine and only t_fine, and returns
        the temperature in hundredths of a degree derived from it. */
    method CompensateTemperature(adcT: Int32) returns (t: Int32)
      requires TemperatureDefined(coefficients, adcT)
      modifies this`tFine
      ensures coefficients == old(coefficients)
      ensures tFine == FineTemperature(coefficients, adcT).value
      ensures t == Temperature(tFine).value
    {
      var c := coefficients;
      var var1 := TemperatureVar1(c, adcT).value;
      var var2 := TemperatureVar2(c, adcT).value;
      tFine := var1 + var2;
      t := Temperature(tFine).value;
    }

    /** `compensatePressure`: the pressure for the t_fine currently stored,
        whichever temperature compensation last wrote it; 0 when that
        t_fine and the coefficients give a zero divisor. */
    function CompensatePressure(adcP: Int32): (r: Uint32)
      reads this
      requires PressureDefined(coefficients, tFine, adcP)
      ensures r == Pressure(coefficients, tFine, adcP).value
      ensures PressureDivisor(coefficients, tFine).value == 0 ==> r == 0
    {
      Pressure(coefficients, tFine, adcP).value
    }

    /** `compensateHumidity`: the humidity for the t_fine currently stored,
        never above 102400 (100 %RH). */
    function CompensateHumidity(adcH: Int32): (r: Uint32)
      reads this
      requires HumidityDefined(coefficients, tFine, adcH)
      ensures r == Humidity(coefficients, tFine, adcH).value
      ensures r <= 102400
    {
      Humidity(coefficients, tFine, adcH).value
    }

    /** `getTemperature`: one temperature read, compensated. */
    method GetTemperature(raw: Burst24) returns (t: Int32)
      requires TemperatureDefined(coefficients, Adc(raw))
      modifies this`tFine
      ensures coefficients == old(coefficients)
      ensures tFine == FineOf(coefficients, raw)
      ensures t == Temperature(tFine).value
    {
      var adcT := Adc(raw);
      t := CompensateTemperature(adcT);
    }

    /** `getPressure`: compensates a fresh temperature read first, so the
        pressure uses the t_fine of that read and not a stale one. */
    method GetPressure(tRaw: Burst24, pRaw: Burst24) returns (p: Uint32)
      requires TemperatureDefined(coefficients, Adc(tRaw))
      requires PressureDefined(coefficients, FineOf(coefficients, tRaw), Adc(pRaw))
      modifies this`tFine
      ensures coefficients == old(coefficients)
      ensures tFine == FineOf(coefficients, tRaw)
      ensures p == Pressure(coefficients, tFine, Adc(pRaw)).value
    {
      var _ := GetTemperature(tRaw);
      var adcP := Adc(pRaw);
      p := CompensatePressure(adcP);
    }

    /** `getHumidity`: likewise compensates a fresh temperature read first. */
    method GetHumidity(tRaw: Burst24, hRaw: Burst16) returns (h: Uint32)
      requires TemperatureDefined(coefficients, Adc(tRaw))
      requires HumidityDefined(coefficients, FineOf(coefficients, tRaw), HumidityAdc(hRaw))
      modifies this`tFine
      ensures coefficients == old(coefficients)
      ensures tFine == FineOf(coefficients, tRaw)
      ensures h == Humidity(coefficients, tFine, HumidityAdc(hRaw)).value
      ensures h <= 102400
    {
      var _ := GetTemperature(tRaw);
      var adcH := HumidityAdc(hRaw);
      h := CompensateHumidity(adcH);
    }

    /** `getAll`: three getters in turn. The temperature register is read
        three times (`t1`, then `t2` inside `getPressure`, then `t3` inside
        `getHumidity`), and each of pressure and humidity uses the t_fine of
        the temperature read in its own getter. */
    method GetAll(t1: Burst24, t2: Burst24, pRaw: Burst24, t3: Burst24, hRaw: Burst16) returns (data: SensorData)
      requires TemperatureDefined(coefficients, Adc(t1))
      requires TemperatureDefined(coefficients, Adc(t2))
      requires PressureDefined(coefficients, FineOf(coefficients, t2), Adc(pRaw))
      requires TemperatureDefined(coefficients, Adc(t3))
      requires HumidityDefined(coefficients, FineOf(coefficients, t3), HumidityAdc(hRaw))
      modifies this`tFine
      ensures data.temperature == Temperature(FineOf(coefficients, t1)).value
      ensures data.pressure == Pressure(coefficients, FineOf(coefficients, t2), Adc(pRaw)).value
      ensures data.humidity == Humidity(coefficients, FineOf(coefficients, t3), HumidityAdc(hRaw)).value
      ensures tFine == FineOf(coefficients, t3)
    {
      ghost var c := coefficients;
      var temperature := GetTemperature(t1);
      assert temperature == Temperature(FineOf(c, t1)).value;
      var pressure := GetPressure(t2, pRaw);
      assert pressure == Pressure(c, FineOf(c, t2), Adc(pRaw)).value;
      var humidity := GetHumidity(t3, hRaw);
      assert humidity == Humidity(c, FineOf(c, t3), HumidityAdc(hRaw)).value;
      data := SensorData(temperature, pressure, humidity);
    }
  }
}
