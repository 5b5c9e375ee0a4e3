/** `create_request_for_ambient`: the HTTP request that posts three readings
    to an Ambient channel, built in a caller's 256-byte buffer. */
module AmbientRequest {
  import opened ByteText
  import opened Heapless
  import ContentLength

  /** The capacity of the local `bodybuffer`, a `String<U256>`. */
  const BodyCapacity: nat := 256

  // The literal pieces of the two format strings.
  const KeyOpen: seq<Byte> := Ascii("{\"writeKey\":\"")
  const D1Open: seq<Byte> := Ascii("\",\"d1\":\"")
  const D2Open: seq<Byte> := Ascii("\",\"d2\":\"")
  const D3Open: seq<Byte> := Ascii("\",\"d3\":\"")
  const BodyClose: seq<Byte> := Ascii("\"}\n")
  const RequestLine: seq<Byte> := Ascii("POST /api/v2/channels/")
  /** The server the `Host:` line names. */
  const AmbientHost: seq<Byte> := Ascii("54.65.206.59")
  const HeaderMiddle: seq<Byte> :=
    Ascii("/data HTTP/1.1\r\nHost: ") + AmbientHost
    + Ascii("\r\nContent-Type: application/json\r\nContent-Length: ")
  const BlankLine: seq<Byte> := Ascii("\r\n\r\n")

  /** The pieces `writeln!` writes into `bodybuffer`: the JSON object with the
      write key and the three rendered readings, and the newline `writeln!`
      adds. The readings come already rendered, as `{}` renders an `f32`. */
  function BodyPieces(writeKey: seq<Byte>, d1: seq<Byte>, d2: seq<Byte>, d3: seq<Byte>): seq<seq<Byte>>
  {
    [KeyOpen, writeKey,
     D1Open, d1,
     D2Open, d2,
     D3Open, d3,
     BodyClose]
  }

  function Body(writeKey: seq<Byte>, d1: seq<Byte>, d2: seq<Byte>, d3: seq<Byte>): seq<Byte>
  {
    Flatten(BodyPieces(writeKey, d1, d2, d3))
  }

  /** The request template up to and including the blank line. */
  function HeaderPieces(channelId: U32, bodyLength: nat): seq<seq<Byte>>
  {
    [RequestLine, Decimal(channelId),
     HeaderMiddle,
     Decimal(bodyLength), BlankLine]
  }

  /** The pieces of the second `writeln!`: the header, the body and the
      newline `writeln!` adds after it. */
  function RequestPieces(channelId: U32, body: seq<Byte>): seq<seq<Byte>>
  {
    HeaderPieces(channelId, |body|) + [body, Newline]
  }

  function Request(channelId: U32, body: seq<Byte>): seq<Byte>
  {
    Flatten(RequestPieces(channelId, body))
  }

  /** `create_request_for_ambient`. It returns false where one of its two
      `unwrap`s panics: the body does not fit its 256-byte buffer, or the
      request does not fit what is left of `msg`. Otherwise the request is
      appended to what `msg` already holds. */
  method CreateRequestForAmbient(channelId: U32, writeKey: seq<Byte>,
                                 d1: seq<Byte>, d2: seq<Byte>, d3: seq<Byte>,
                                 msg: BoundedString) returns (ok: bool)
    requires msg.Valid()
    modifies msg, msg.data
    ensures msg.Valid()
    ensures ok <==> |Body(writeKey, d1, d2, d3)| <= BodyCapacity
                    && old(msg.len) + |Request(channelId, Body(writeKey, d1, d2, d3))| <= msg.capacity
    ensures ok ==> msg.Bytes() == old(msg.Bytes()) + Request(channelId, Body(writeKey, d1, d2, d3))
  {
    var bodybuffer := new BoundedString(BodyCapacity);
    assert bodybuffer.len == 0;
    var bodyOk := bodybuffer.WriteFmt(BodyPieces(writeKey, d1, d2, d3));
    assert msg.len == old(msg.len);
    assert msg.Bytes() == old(msg.Bytes());
    if !bodyOk {
      return false;
    }
    assert bodybuffer.Bytes() == Body(writeKey, d1, d2, d3);
    ok := msg.WriteFmt(RequestPieces(channelId, bodybuffer.Bytes()));
  }

  // ---------------------------------------------------------------------
  // What the request says.

  /** The body written out. */
  lemma BodyText(writeKey: seq<Byte>, d1: seq<Byte>, d2: seq<Byte>, d3: seq<Byte>)
    ensures Body(writeKey, d1, d2, d3)
            == KeyOpen + writeKey + D1Open + d1
               + D2Open + d2 + D3Open + d3 + BodyClose
  {
    FlattenNine(KeyOpen, writeKey, D1Open, d1, D2Open, d2, D3Open, d3, BodyClose);
  }

  /** The header written out. */
  lemma HeaderText(channelId: U32, bodyLength: nat)
    ensures Header(channelId, bodyLength)
            == RequestLine + Decimal(channelId)
               + HeaderMiddle
               + Decimal(bodyLength) + BlankLine
  {
    FlattenFive(RequestLine, Decimal(channelId), HeaderMiddle, Decimal(bodyLength), BlankLine);
  }

  function Header(channelId: U32, bodyLength: nat): seq<Byte>
  {
    Flatten(HeaderPieces(channelId, bodyLength))
  }

  /** The request is the header, then the body, then one more newline. */
  lemma RequestLayout(channelId: U32, body: seq<Byte>)
    ensures Request(channelId, body) == Header(channelId, |body|) + body + [LF]
  {
    var tail := [body, Newline];
    FlattenAppend(HeaderPieces(channelId, |body|), tail);
    assert tail[2..] == [];
    FlattenFrom(tail, 1);
    FlattenFrom(tail, 0);
    assert tail[0..] == tail;
    assert Newline == [LF];
  }

  /** The digits of the `Content-Length:` line read back as the byte length
      of the body, and the line ends in the blank line that opens the body. */
  lemma DeclaredLengthIsBodyLength(channelId: U32, body: seq<Byte>)
    ensures var h := Header(channelId, |body|);
            var n := |Decimal(|body|)|;
            && |h| >= n + 4
            && h[|h| - 4..] == [CR, LF, CR, LF]
            && ContentLength.DigitsValue(h[|h| - 4 - n..|h| - 4]) == |body|
  {
    var d := Decimal(|body|);
    var front := RequestLine + Decimal(channelId) + HeaderMiddle;
    var h := Header(channelId, |body|);
    HeaderText(channelId, |body|);
    assert h == front + d + BlankLine;
    BlankLineBytes();
    FieldBeforeTail(front, d, BlankLine);
    ContentLength.DecimalRoundTrip(|body|);
  }

  lemma BlankLineBytes()
    ensures BlankLine == [CR, LF, CR, LF]
  {
  }

  lemma FieldBeforeTail(front: seq<Byte>, d: seq<Byte>, tail: seq<Byte>)
    ensures var h := front + d + tail;
            && h[|h| - |tail|..] == tail
            && h[|h| - |tail| - |d|..|h| - |tail|] == d
  {
  }

  /** More bytes follow the header than it declares: the body and the extra
      newline of the outer `writeln!`. */
  lemma OneByteBeyondDeclared(channelId: U32, body: seq<Byte>)
    ensures var r := Request(channelId, body);
            var h := |Header(channelId, |body|)|;
            |r| - h == |body| + 1 && r[h..] == body + [LF]
  {
    RequestLayout(channelId, body);
  }

  /** The body ends in the newline of its own `writeln!`. */
  lemma BodyShape(writeKey: seq<Byte>, d1: seq<Byte>, d2: seq<Byte>, d3: seq<Byte>)
    ensures var b := Body(writeKey, d1, d2, d3);
            && |b| == 40 + |writeKey| + |d1| + |d2| + |d3|
            && b[0] == 0x7B && b[|b| - 1] == LF
  {
    BodyText(writeKey, d1, d2, d3);
  }

  /** The body overflows its buffer exactly when the key and the three
      readings take more than 216 bytes together. */
  lemma BodyFitsIff(writeKey: seq<Byte>, d1: seq<Byte>, d2: seq<Byte>, d3: seq<Byte>)
    ensures |Body(writeKey, d1, d2, d3)| <= BodyCapacity <==> |writeKey| + |d1| + |d2| + |d3| <= 216
  {
    BodyShape(writeKey, d1, d2, d3);
  }

  /** The length of the request: 111 template bytes, the two numbers and the
      body. */
  lemma RequestLength(channelId: U32, body: seq<Byte>)
    ensures |Request(channelId, body)| == 111 + |Decimal(channelId)| + |Decimal(|body|)| + |body|
  {
    RequestLayout(channelId, body);
    HeaderText(channelId, |body|);
  }

  /** With at most 92 bytes of key and readings, any channel id, and an empty
      `msg`, neither `unwrap` panics. */
  lemma ShortReadingsFit(channelId: U32, writeKey: seq<Byte>, d1: seq<Byte>, d2: seq<Byte>, d3: seq<Byte>)
    requires |writeKey| + |d1| + |d2| + |d3| <= 92
    ensures |Body(writeKey, d1, d2, d3)| <= BodyCapacity
    ensures |Request(channelId, Body(writeKey, d1, d2, d3))| <= 256
  {
    var b := Body(writeKey, d1, d2, d3);
    BodyShape(writeKey, d1, d2, d3);
    RequestLength(channelId, b);
    ContentLength.DecimalLength(channelId, 10);
    ContentLength.DecimalLength(|b|, 3);
  }
}
