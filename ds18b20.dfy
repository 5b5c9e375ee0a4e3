/** `Ds18b20Wrapper`: the DS18B20 1-Wire thermometer, read with up to twenty
    convert-then-read attempts. Temperatures are integers in sixteenths of a
    degree Celsius, the sensor's own unit; the firmware's `f32` result is
    that number times 0.0625, which is exact for every value below. */
module Ds18b20 {
  import opened ByteText

  /** A device found on the bus: its 8-byte ROM address. */
  datatype Device = Device(address: seq<Byte>)

  /** The wrapper holds the driver built for one device and never changes. */
  datatype Wrapper = Wrapper(device: Device)

  /** `Ds18b20Wrapper::new`. Whether the driver accepts the device is
      decided by `DS18B20::new`, which is not part of this model, so its
      verdict is a parameter; `None` is the panic of its `unwrap`. The test
      of the ROM address's first byte against the DS18B20 family code 0x28
      has an empty body, so `New` does not look at the address at all: a
      device of another family is accepted or refused exactly as a DS18B20
      would be. */
  function New(dev: Device, driverAccepts: bool): (r: Option<Wrapper>)
    ensures r.Some? <==> driverAccepts
    ensures r.Some? ==> r.value.device == dev
  {
    if driverAccepts then Some(Wrapper(dev)) else None
  }

  // ---------------------------------------------------------------------
  // `raw_to_cel`.

  /** The reference reading of a scratchpad word: its `i16` value in two's
      complement. */
  function Int16(raw: U16): (v: int)
    ensures -0x8000 <= v < 0x8000
    ensures (v - raw) % 0x1_0000 == 0
  {
    if raw < 0x8000 then raw else raw - 0x1_0000
  }

  /** `raw_to_cel`, in sixteenths: a word above `0x7FFF` is taken as
      negative by subtracting `0xFFFF`. */
  function RawToCel(raw: U16): (t: int)
  {
    var ti := raw;
    if ti > 0x7FFF then ti - 0xFFFF else ti
  }

  /** Non-negative words are read as they are; negative ones come out one
      sixteenth above their two's-complement value, so the result lies in
      [-32767, 32767]. */
  lemma RawToCelVsInt16(raw: U16)
    ensures raw <= 0x7FFF ==> RawToCel(raw) == raw == Int16(raw)
    ensures raw > 0x7FFF ==> RawToCel(raw) == Int16(raw) + 1
    ensures -32767 <= RawToCel(raw) <= 32767
  {
  }

  /** -0.5 degrees (`0xFFF8`) is read as -7/16, and `0xFFFF` (-1/16) and
      `0x0000` both as 0: two words share a reading. */
  lemma RawToCelSamples()
    ensures Int16(0xFFF8) == -8 && RawToCel(0xFFF8) == -7
    ensures RawToCel(0xFFFF) == 0 && RawToCel(0x0000) == 0
    ensures RawToCel(0x0191) == 401 && RawToCel(0x7FFF) == 32767 && RawToCel(0x8000) == -32767
  {
  }

  /** Apart from `0xFFFF`, which collides with zero, distinct words give
      distinct readings. */
  lemma RawToCelInjective(a: U16, b: U16)
    requires a != 0xFFFF && b != 0xFFFF && a != b
    ensures RawToCel(a) != RawToCel(b)
  {
    RawToCelVsInt16(a);
    RawToCelVsInt16(b);
  }

  // ---------------------------------------------------------------------
  // `measurement`.

  const Trials: nat := 20
  /** `wt`'s starting value, 100.0 degrees, in sixteenths. */
  const Sentinel: int := 1600

  /** The `u16` microsecond count handed to `delay_us`: `time_ms() * 1000`
      wraps modulo 2^16, as in a release build; a debug build panics
      from 66 ms on. */
  function WaitUs(timeMs: U16): (us: U16)
    ensures timeMs <= 65 <==> us == timeMs * 1000
  {
    (timeMs * 1000) % 0x1_0000
  }

  /** A 750 ms conversion time asks for a wait of 29104 microseconds. */
  lemma WaitWraps()
    ensures WaitUs(750) == 29104 && WaitUs(65) == 65000 && WaitUs(66) == 464
  {
  }

  /** One operation on the bus, as the wrapper drives it. */
  datatype BusOp = StartConversion(device: Device) | Delay(us: U16) | ReadScratchpad(device: Device)

  /** The `i`-th answer of a script, and an error past its end. The scripts
      hold the answers to `measure_temperature` (the conversion time in ms of
      the configured resolution, or an error) and to `read_temperature` (the
      raw word, or an error such as a CRC mismatch). */
  function AnswerAt(script: seq<Option<U16>>, i: nat): Option<U16>
  {
    if i < |script| then script[i] else None
  }

  /** The 1-Wire bus with the thermometer on it and the delay provider. The
      answers are scripted, and the bus counts the answers it has given;
      past the end of a script every call fails. */
  class OneWireBus {
    const conversions: seq<Option<U16>>
    const readings: seq<Option<U16>>
    var conversionsTaken: nat
    var readingsTaken: nat
    var log: seq<BusOp>

    constructor (conversions: seq<Option<U16>>, readings: seq<Option<U16>>)
      ensures this.conversions == conversions && this.readings == readings
      ensures conversionsTaken == 0 && readingsTaken == 0 && log == []
    {
      this.conversions := conversions;
      this.readings := readings;
      conversionsTaken := 0;
      readingsTaken := 0;
      log := [];
    }

    /** `measure_temperature`. */
    method MeasureTemperature(dev: Device) returns (r: Option<U16>)
      modifies this
      ensures r == AnswerAt(conversions, old(conversionsTaken))
      ensures conversionsTaken == old(conversionsTaken) + 1 && readingsTaken == old(readingsTaken)
      ensures log == old(log) + [StartConversion(dev)]
    {
      r := AnswerAt(conversions, conversionsTaken);
      conversionsTaken := conversionsTaken + 1;
      log := log + [StartConversion(dev)];
    }

    /** `delay_us`. */
    method DelayUs(us: U16)
      modifies this
      ensures conversionsTaken == old(conversionsTaken) && readingsTaken == old(readingsTaken)
      ensures log == old(log) + [Delay(us)]
    {
      log := log + [Delay(us)];
    }

    /** `read_temperature`. */
    method ReadTemperature(dev: Device) returns (r: Option<U16>)
      modifies this
      ensures r == AnswerAt(readings, old(readingsTaken))
      ensures readingsTaken == old(readingsTaken) + 1 && conversionsTaken == old(conversionsTaken)
      ensures log == old(log) + [ReadScratchpad(dev)]
    {
      r := AnswerAt(readings, readingsTaken);
      readingsTaken := readingsTaken + 1;
      log := log + [ReadScratchpad(dev)];
    }
  }

  /** How `measurement` ends: a reading in sixteenths after `attempts`
      attempts, or the panic of the `unwrap` on a failed conversion in
      attempt `attempt` (counted from 1). */
  datatype Measured = Reading(sixteenths: int, attempts: nat) | ConversionPanic(attempt: nat)

  /** The attempts from the `i`-th on (counted from 0). */
  function MeasurementFrom(conversions: seq<Option<U16>>, readings: seq<Option<U16>>, i: nat): Measured
    requires i <= Trials
    decreases Trials - i
  {
    if i == Trials then Reading(Sentinel, Trials)
    else if AnswerAt(conversions, i).None? then ConversionPanic(i + 1)
    else match AnswerAt(readings, i)
      case Some(raw) => Reading(RawToCel(raw), i + 1)
      case None => MeasurementFrom(conversions, readings, i + 1)
  }

  /** The conversion time the `i`-th attempt waits for (0 stands in where
      the conversion failed, which no wait follows). */
  function TimeAt(conversions: seq<Option<U16>>, i: nat): U16
  {
    match AnswerAt(conversions, i)
    case Some(t) => t
    case None => 0
  }

  /** The bus operations of `n` whole attempts. */
  function AttemptOps(dev: Device, conversions: seq<Option<U16>>, n: nat): seq<BusOp>
  {
    if n == 0 then []
    else AttemptOps(dev, conversions, n - 1)
         + [StartConversion(dev), Delay(WaitUs(TimeAt(conversions, n - 1))), ReadScratchpad(dev)]
  }

  /** The operations `measurement` performs: whole attempts, and after a
      failed conversion only its start. */
  function MeasurementOps(dev: Device, m: Measured, conversions: seq<Option<U16>>): seq<BusOp>
  {
    match m
    case Reading(_, n) => AttemptOps(dev, conversions, n)
    case ConversionPanic(n) => AttemptOps(dev, conversions, if n > 0 then n - 1 else 0) + [StartConversion(dev)]
  }

  /** Which attempts the outcome from attempt `i` on covers: every
      conversion before the last attempt succeeded, and the count is at most
      twenty. */
  lemma {:induction false} MeasurementFromShape(conversions: seq<Option<U16>>, readings: seq<Option<U16>>, i: nat)
    requires i <= Trials
    requires forall j :: 0 <= j < i ==> AnswerAt(conversions, j).Some?
    ensures var m := MeasurementFrom(conversions, readings, i);
            && (m.Reading? ==> i <= m.attempts <= Trials
                               && forall j :: 0 <= j < m.attempts ==> AnswerAt(conversions, j).Some?)
            && (m.ConversionPanic? ==> i + 1 <= m.attempt <= Trials
                                       && AnswerAt(conversions, m.attempt - 1).None?
                                       && forall j :: 0 <= j < m.attempt - 1 ==> AnswerAt(conversions, j).Some?)
    decreases Trials - i
  {
    if i < Trials && AnswerAt(conversions, i).Some? && AnswerAt(readings, i).None? {
      MeasurementFromShape(conversions, readings, i + 1);
    }
  }

  /** The answers of a script not yet given once `n` have been taken. */
  function Remaining(script: seq<Option<U16>>, n: nat): (r: seq<Option<U16>>)
    ensures forall i: nat :: AnswerAt(r, i) == AnswerAt(script, n + i)
  {
    if n >= |script| then [] else script[n..]
  }

  /** `measurement`: up to twenty attempts, each a conversion, a wait and a
      read; the first successful read ends the loop with its reading, and
      when all twenty reads fail the result is the sentinel. The answers
      are the ones the bus has not given yet. */
  method Measurement(sensor: Wrapper, wire: OneWireBus) returns (m: Measured)
    modifies wire
    ensures m == MeasurementFrom(Remaining(wire.conversions, old(wire.conversionsTaken)),
                                 Remaining(wire.readings, old(wire.readingsTaken)), 0)
    ensures wire.log == old(wire.log)
                        + MeasurementOps(sensor.device, m, Remaining(wire.conversions, old(wire.conversionsTaken)))
  {
    var dev := sensor.device;
    var nTrial := Trials;
    var wt := Sentinel;
    ghost var c0, r0 := wire.conversionsTaken, wire.readingsTaken;
    ghost var conversions, readings := Remaining(wire.conversions, c0), Remaining(wire.readings, r0);
    for i := 0 to nTrial
      invariant wire.conversionsTaken == c0 + i && wire.readingsTaken == r0 + i
      invariant MeasurementFrom(conversions, readings, 0) == MeasurementFrom(conversions, readings, i)
      invariant wire.log == old(wire.log) + AttemptOps(dev, conversions, i)
    {
      var resolution := wire.MeasureTemperature(dev);
      if resolution.None? {
        return ConversionPanic(i + 1);
      }
      wire.DelayUs(WaitUs(resolution.value));
      var ret := wire.ReadTemperature(dev);
      if ret.Some? {
        wt := RawToCel(ret.value);
        return Reading(wt, i + 1);
      }
    }
    m := Reading(wt, Trials);
  }

  // ---------------------------------------------------------------------
  // What `measurement` returns, stated per attempt.

  /** The first successful read, in attempt `k` after `k - 1` failed ones,
      gives its own reading after exactly `k` attempts. */
  lemma FirstReadWins(conversions: seq<Option<U16>>, readings: seq<Option<U16>>, k: nat, raw: U16)
    requires 1 <= k <= Trials
    requires forall j :: 0 <= j < k ==> AnswerAt(conversions, j).Some?
    requires forall j :: 0 <= j < k - 1 ==> AnswerAt(readings, j).None?
    requires AnswerAt(readings, k - 1) == Some(raw)
    ensures MeasurementFrom(conversions, readings, 0) == Reading(RawToCel(raw), k)
  {
    FirstReadFrom(conversions, readings, 0, k, raw);
  }

  lemma {:induction false} FirstReadFrom(conversions: seq<Option<U16>>, readings: seq<Option<U16>>, i: nat, k: nat, raw: U16)
    requires i < k <= Trials
    requires forall j :: i <= j < k ==> AnswerAt(conversions, j).Some?
    requires forall j :: i <= j < k - 1 ==> AnswerAt(readings, j).None?
    requires AnswerAt(readings, k - 1) == Some(raw)
    ensures MeasurementFrom(conversions, readings, i) == Reading(RawToCel(raw), k)
    decreases k - i
  {
    if i < k - 1 {
      FirstReadFrom(conversions, readings, i + 1, k, raw);
    }
  }

  /** Twenty failed reads give the sentinel 100.0 degrees. */
  lemma AllReadsFail(conversions: seq<Option<U16>>, readings: seq<Option<U16>>)
    requires forall j :: 0 <= j < Trials ==> AnswerAt(conversions, j).Some? && AnswerAt(readings, j).None?
    ensures MeasurementFrom(conversions, readings, 0) == Reading(Sentinel, Trials)
  {
    AllFailFrom(conversions, readings, 0);
  }

  lemma {:induction false} AllFailFrom(conversions: seq<Option<U16>>, readings: seq<Option<U16>>, i: nat)
    requires i <= Trials
    requires forall j :: i <= j < Trials ==> AnswerAt(conversions, j).Some? && AnswerAt(readings, j).None?
    ensures MeasurementFrom(conversions, readings, i) == Reading(Sentinel, Trials)
    decreases Trials - i
  {
    if i < Trials {
      AllFailFrom(conversions, readings, i + 1);
    }
  }

  /** A failed conversion is not a failed trial: it ends the measurement
      with a panic, whatever later attempts would have read. */
  lemma ConversionErrorPanics(conversions: seq<Option<U16>>, readings: seq<Option<U16>>, k: nat)
    requires 1 <= k <= Trials
    requires forall j :: 0 <= j < k - 1 ==> AnswerAt(conversions, j).Some? && AnswerAt(readings, j).None?
    requires AnswerAt(conversions, k - 1).None?
    ensures MeasurementFrom(conversions, readings, 0) == ConversionPanic(k)
  {
    PanicFrom(conversions, readings, 0, k);
  }

  lemma {:induction false} PanicFrom(conversions: seq<Option<U16>>, readings: seq<Option<U16>>, i: nat, k: nat)
    requires i < k <= Trials
    requires forall j :: i <= j < k - 1 ==> AnswerAt(conversions, j).Some? && AnswerAt(readings, j).None?
    requires AnswerAt(conversions, k - 1).None?
    ensures MeasurementFrom(conversions, readings, i) == ConversionPanic(k)
    decreases k - i
  {
    if i < k - 1 {
      PanicFrom(conversions, readings, i + 1, k);
    }
  }

  /** A reading is either the sentinel or a reading of some word. */
  lemma {:induction false} ReadingRange(conversions: seq<Option<U16>>, readings: seq<Option<U16>>, i: nat)
    requires i <= Trials
    ensures var m := MeasurementFrom(conversions, readings, i);
            m.Reading? ==> m.sixteenths == Sentinel || -32767 <= m.sixteenths <= 32767
    decreases Trials - i
  {
    if i < Trials && AnswerAt(conversions, i).Some? {
      match AnswerAt(readings, i)
      case Some(raw) => RawToCelVsInt16(raw);
      case None => ReadingRange(conversions, readings, i + 1);
    }
  }
}
