/** The deployment constants: the Ambient channel, its write key, and the
    server's address and port as the Wi-Fi coprocessor expects them. */
module Secrets {
  import opened ByteText
  import AmbientRequest

  const ChannelId: U32 := 12345
  const WriteKey: seq<Byte> := Ascii("123456789")
  /** 54.65.206.59, stored so that its bytes in memory (lowest first) are
      the address in network order. */
  const Ip: U32 := 0x3BCE4136
  /** Port 80 in network byte order, read as a little-endian `u16`. */
  const Port: U16 := 0x5000

  /** The bytes of a `u32` as a little-endian machine stores them. */
  function LittleEndianBytes(x: U32): (b: seq<Byte>)
    ensures |b| == 4
  {
    [x % 0x100, (x / 0x100) % 0x100, (x / 0x1_0000) % 0x100, x / 0x100_0000]
  }

  /** The `u32` four little-endian bytes stand for. */
  function FromLittleEndian(b: seq<Byte>): int
    requires |b| == 4
  {
    b[0] as int + 0x100 * (b[1] as int + 0x100 * (b[2] as int + 0x100 * b[3] as int))
  }

  lemma LittleEndianRoundTrip(x: U32)
    ensures FromLittleEndian(LittleEndianBytes(x)) == x
  {
    var q1, q2 := x / 0x100, x / 0x1_0000;
    assert x == x % 0x100 + 0x100 * q1;
    assert q1 == q1 % 0x100 + 0x100 * (q1 / 0x100);
    assert q1 / 0x100 == q2;
    assert q2 == q2 % 0x100 + 0x100 * (q2 / 0x100);
    assert q2 / 0x100 == x / 0x100_0000;
  }

  /** A `u16` whose two little-endian bytes are read in network order. */
  function NetworkOrder(x: U16): U16
  {
    (x % 0x100) * 0x100 + x / 0x100
  }

  /** Dotted-decimal notation of four address bytes. */
  function Dotted(b: seq<Byte>): seq<Byte>
    requires |b| == 4
  {
    var dot := [0x2E];
    Decimal(b[0]) + dot + Decimal(b[1]) + dot + Decimal(b[2]) + dot + Decimal(b[3])
  }

  /** The address the coprocessor connects to is 54.65.206.59 and the port
      is 80. */
  lemma AddressIsAmbientHost()
    ensures LittleEndianBytes(Ip) == [54, 65, 206, 59]
    ensures NetworkOrder(Port) == 80
  {
  }

  /** The address the coprocessor connects to, in dotted-decimal notation,
      is the host the request's `Host:` line names. */
  lemma HostLineNamesAddress()
    ensures Dotted(LittleEndianBytes(Ip)) == AmbientRequest.AmbientHost
  {
    AddressIsAmbientHost();
    AddressDigits();
    HostLiteral();
  }

  lemma AddressDigits()
    ensures Decimal(54) == [0x35, 0x34] && Decimal(65) == [0x36, 0x35]
    ensures Decimal(206) == [0x32, 0x30, 0x36] && Decimal(59) == [0x35, 0x39]
  {
  }

  lemma HostLiteral()
    ensures AmbientRequest.AmbientHost == [0x35, 0x34, 0x2E, 0x36, 0x35, 0x2E, 0x32, 0x30, 0x36, 0x2E, 0x35, 0x39]
  {
  }

  /** With this write key and channel, three readings of at most 83 bytes
      in all always fit both buffers when `msg` starts empty. */
  lemma ConfiguredRequestFits(d1: seq<Byte>, d2: seq<Byte>, d3: seq<Byte>)
    requires |d1| + |d2| + |d3| <= 83
    ensures |AmbientRequest.Body(WriteKey, d1, d2, d3)| <= AmbientRequest.BodyCapacity
    ensures |AmbientRequest.Request(ChannelId, AmbientRequest.Body(WriteKey, d1, d2, d3))| <= 256
  {
    AmbientRequest.ShortReadingsFit(ChannelId, WriteKey, d1, d2, d3);
  }
}
