/** `SHT3X`: the SHT3x temperature and humidity sensor of the ENV II unit on
    the I2C bus. A measurement sends one command, reads six bytes and keeps
    the two decoded readings in the driver. Readings are exact reals; the
    firmware computes them in `f32`. */
module EnvIISensor {
  import opened ByteText

  /** The single-shot, high-repeatability command with clock stretching. */
  const MeasureCommand: seq<Byte> := [0x2C, 0x06]
  /** The reply: temperature word, its CRC, humidity word, its CRC. */
  const ReplyLength: nat := 6

  /** One transfer on the I2C bus. */
  datatype I2cOp = Write(address: Byte, bytes: seq<Byte>) | Read(address: Byte, count: nat)

  /** What one read does: whether it reports success, and what the caller's
      buffer holds afterwards. The HAL promises nothing about the buffer when
      a read fails, so a failed read also carries the bytes it leaves. */
  datatype ReadReply = ReadReply(ok: bool, bytes: seq<Byte>)

  /** The I2C master. Its answers to reads are scripted; past the end of the
      script, or when a scripted reply does not have the buffer's length,
      the read fails and leaves the buffer as it was. Writes always report
      success; their result is discarded anyway. */
  class I2cBus {
    const replies: seq<ReadReply>
    var readsTaken: nat
    var log: seq<I2cOp>

    constructor (replies: seq<ReadReply>)
      ensures this.replies == replies && readsTaken == 0 && log == []
    {
      this.replies := replies;
      readsTaken := 0;
      log := [];
    }

    /** `write`. */
    method WriteBytes(address: Byte, bytes: seq<Byte>) returns (ok: bool)
      modifies this
      ensures readsTaken == old(readsTaken) && log == old(log) + [Write(address, bytes)]
    {
      log := log + [Write(address, bytes)];
      ok := true;
    }

    /** `read`: leaves the next scripted bytes in `buffer`, whether or not
        it reports success. */
    method ReadBytes(address: Byte, buffer: array<Byte>) returns (ok: bool)
      modifies this, buffer
      ensures readsTaken == old(readsTaken) + 1 && log == old(log) + [Read(address, buffer.Length)]
      ensures buffer[..] == Delivered(replies, old(readsTaken), old(buffer[..]))
      ensures ok <==> Fits(replies, old(readsTaken), buffer.Length) && replies[old(readsTaken)].ok
    {
      log := log + [Read(address, buffer.Length)];
      ok := Fits(replies, readsTaken, buffer.Length) && replies[readsTaken].ok;
      if Fits(replies, readsTaken, buffer.Length) {
        var reply := replies[readsTaken].bytes;
        forall k | 0 <= k < buffer.Length {
          buffer[k] := reply[k];
        }
      }
      readsTaken := readsTaken + 1;
    }
  }

  /** Whether the `i`-th read is scripted with `n` bytes. */
  predicate Fits(replies: seq<ReadReply>, i: nat, n: nat)
  {
    i < |replies| && |replies[i].bytes| == n
  }

  /** The buffer after the `i`-th read: the scripted bytes, or what it held. */
  function Delivered(replies: seq<ReadReply>, i: nat, before: seq<Byte>): (after: seq<Byte>)
    ensures |after| == |before|
  {
    if Fits(replies, i, |before|) then replies[i].bytes else before
  }

  /** A big-endian 16-bit word. */
  function RawWord(hi: Byte, lo: Byte): (w: nat)
    ensures w <= 0xFFFF
  {
    hi * 256 + lo
  }

  function TempFromRaw(raw: nat): real
  {
    (raw as real * 175.0) / 65535.0 - 45.0
  }

  function HumidFromRaw(raw: nat): real
  {
    (raw as real * 100.0) / 65535.0
  }

  /** The readings `measure` decodes from the six reply bytes; the CRC
      bytes 2 and 5 are not looked at. */
  datatype Readings = Readings(temperature: real, humidity: real)

  function Decode(rdata: seq<Byte>): Readings
    requires |rdata| == ReplyLength
  {
    Readings(TempFromRaw(RawWord(rdata[0], rdata[1])), HumidFromRaw(RawWord(rdata[3], rdata[4])))
  }

  class Sht3x {
    const address: Byte
    const i2c: I2cBus
    var cTemp: real
    var humid: real

    /** Both readings stay within the sensor's range: -45 to 130 degrees
        and 0 to 100 percent. */
    ghost predicate Valid()
      reads this
    {
      -45.0 <= cTemp <= 130.0 && 0.0 <= humid <= 100.0
    }

    /** `SHT3X::new`. */
    constructor (i2cm: I2cBus, addr: Byte)
      ensures address == addr && i2c == i2cm
      ensures cTemp == 0.0 && humid == 0.0 && Valid()
    {
      address := addr;
      i2c := i2cm;
      cTemp := 0.0;
      humid := 0.0;
    }

    /** `measure`: the command, then a six-byte read into a zeroed buffer;
        both bus results are ignored, and the readings are decoded from
        whatever the buffer then holds. */
    method Measure()
      requires Valid()
      modifies this, i2c
      ensures Valid()
      ensures Readings(cTemp, humid) == Decode(Delivered(i2c.replies, old(i2c.readsTaken), [0, 0, 0, 0, 0, 0]))
      ensures i2c.log == old(i2c.log) + [Write(address, MeasureCommand), Read(address, ReplyLength)]
      ensures i2c.readsTaken == old(i2c.readsTaken) + 1
    {
      var wdata := MeasureCommand;
      var _ := i2c.WriteBytes(address, wdata);
      var rdata := new Byte[ReplyLength](_ => 0);
      assert rdata[..] == [0, 0, 0, 0, 0, 0];
      var _ := i2c.ReadBytes(address, rdata);
      cTemp := TempFromRaw(RawWord(rdata[0], rdata[1]));
      humid := HumidFromRaw(RawWord(rdata[3], rdata[4]));
      ReadingsInRange(rdata[..]);
    }

    /** `get_temp`. */
    function GetTemp(): (t: real)
      reads this
      requires Valid()
      ensures -45.0 <= t <= 130.0
      ensures t == cTemp
    {
      cTemp
    }

    /** `get_humid`. */
    function GetHumid(): (h: real)
      reads this
      requires Valid()
      ensures 0.0 <= h <= 100.0
      ensures h == humid
    {
      humid
    }
  }

  // ---------------------------------------------------------------------
  // Properties of the decoding.

  /** Any reply decodes to a temperature in [-45, 130] and a humidity in
      [0, 100], the ends reached by the all-zero and all-one words. */
  lemma ReadingsInRange(rdata: seq<Byte>)
    requires |rdata| == ReplyLength
    ensures -45.0 <= Decode(rdata).temperature <= 130.0
    ensures 0.0 <= Decode(rdata).humidity <= 100.0
  {
    var t := RawWord(rdata[0], rdata[1]) as real;
    var h := RawWord(rdata[3], rdata[4]) as real;
    assert t * 175.0 <= 65535.0 * 175.0;
    assert h * 100.0 <= 65535.0 * 100.0;
  }

  /** A failed read leaves the zeroed buffer: -45 degrees and 0 percent. */
  lemma ZeroReplyReadings()
    ensures Decode([0, 0, 0, 0, 0, 0]) == Readings(-45.0, 0.0)
  {
    var z: seq<Byte> := [0, 0, 0, 0, 0, 0];
    assert RawWord(z[0], z[1]) == 0 && RawWord(z[3], z[4]) == 0;
    assert TempFromRaw(0) == -45.0;
    assert HumidFromRaw(0) == 0.0;
  }

  /** The full-scale words give the top of each range. */
  lemma FullScaleReadings()
    ensures Decode([0xFF, 0xFF, 0, 0xFF, 0xFF, 0]) == Readings(130.0, 100.0)
  {
    var f: seq<Byte> := [0xFF, 0xFF, 0, 0xFF, 0xFF, 0];
    assert RawWord(f[0], f[1]) == 0xFFFF && RawWord(f[3], f[4]) == 0xFFFF;
    assert TempFromRaw(0xFFFF) == 130.0;
    assert HumidFromRaw(0xFFFF) == 100.0;
  }

  /** The CRC bytes do not affect the readings. */
  lemma CrcBytesIgnored(a: seq<Byte>, b: seq<Byte>)
    requires |a| == ReplyLength && |b| == ReplyLength
    requires a[0] == b[0] && a[1] == b[1] && a[3] == b[3] && a[4] == b[4]
    ensures Decode(a) == Decode(b)
  {
  }

  /** The temperature word `0x663A` decodes to 24.88 degrees (to two
      places). */
  lemma SampleTemperature()
    ensures 24.88 <= TempFromRaw(RawWord(0x66, 0x3A)) < 24.89
  {
  }

  /** Readings rise with the raw words. */
  lemma DecodeMonotone(r1: nat, r2: nat)
    requires r1 <= r2
    ensures TempFromRaw(r1) <= TempFromRaw(r2) && HumidFromRaw(r1) <= HumidFromRaw(r2)
  {
    assert r1 as real * 175.0 <= r2 as real * 175.0;
    assert r1 as real * 100.0 <= r2 as real * 100.0;
  }
}
