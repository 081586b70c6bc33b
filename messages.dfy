/** The fixed layouts of the RFB messages the client handles (RFC 6143):
    the constants it uses, the 16-byte PixelFormat record of ServerInit
    (section 7.4), and the two client-to-server messages it sends,
    SetEncodings (section 7.5.2) and FramebufferUpdateRequest (section 7.5.3),
    each with the decoder a server applies to it. */
module Messages {
  import opened Wire

  // Server-to-client message types the client decodes.
  const FramebufferUpdateType: byte := 0
  const ServerCutTextType: byte := 3
  // Client-to-server message types the client sends.
  const SetEncodingsType: byte := 2
  const FramebufferUpdateRequestType: byte := 3
  // Encoding types the dispatch knows.
  const EncodingRaw: u16 := 0
  const EncodingCopyRect: u16 := 1
  // The "None" security type, the only one the client implements.
  const AuthNone: byte := 1
  // The byte-order tags the client records in the pixel format.
  const BigEndianTag := 4321
  const LittleEndianTag := 1234
  // Bounds the client enforces on the server's length fields.
  const MaxNameLength := 4096
  const MaxCutTextLength := 32 * 0x10_0000
  const ReasonBufferSize := 1024
  const MaxSecurityTypes := 10

  datatype PixelFormat = PixelFormat(
    bitsPerPixel: byte, depth: byte, byteOrder: int, trueColor: byte,
    redMax: u16, greenMax: u16, blueMax: u16,
    redShift: byte, greenShift: byte, blueShift: byte)

  /** Decodes the 16-byte record field by field: four u8 header fields (a
      non-zero byte-order byte means big-endian), three big-endian u16 channel
      maxima, three u8 shifts and three padding bytes the client ignores. */
  function DecodePixelFormat(w: seq<byte>): (f: PixelFormat)
    requires |w| == 16
    ensures f.byteOrder == BigEndianTag || f.byteOrder == LittleEndianTag
    ensures f.byteOrder == BigEndianTag <==> w[2] != 0
  {
    PixelFormat(w[0], w[1], if w[2] != 0 then BigEndianTag else LittleEndianTag, w[3],
                FromBE(w[4..6]), FromBE(w[6..8]), FromBE(w[8..10]),
                w[10], w[11], w[12])
  }

  /** The record as a server puts it on the wire, with zero padding. */
  function EncodePixelFormat(f: PixelFormat): (w: seq<byte>)
    ensures |w| == 16
  {
    [f.bitsPerPixel, f.depth, if f.byteOrder == BigEndianTag then 1 else 0, f.trueColor]
      + BE16(f.redMax) + BE16(f.greenMax) + BE16(f.blueMax)
      + [f.redShift, f.greenShift, f.blueShift, 0, 0, 0]
  }

  /** Every pixel format the client can record travels through the 16-byte record unchanged. */
  lemma PixelFormatRoundTrip(f: PixelFormat)
    requires f.byteOrder == BigEndianTag || f.byteOrder == LittleEndianTag
    ensures DecodePixelFormat(EncodePixelFormat(f)) == f
  {
    var w := EncodePixelFormat(f);
    assert w[4..6] == BE16(f.redMax);
    assert w[6..8] == BE16(f.greenMax);
    assert w[8..10] == BE16(f.blueMax);
    BE16RoundTrip(f.redMax);
    BE16RoundTrip(f.greenMax);
    BE16RoundTrip(f.blueMax);
  }

  /** The fields of a FramebufferUpdateRequest, as the client records them in lastUpdateRequest. */
  datatype UpdateRequest = UpdateRequest(incremental: bool, x: u16, y: u16, width: u16, height: u16)

  /** The 10-byte FramebufferUpdateRequest: type 3, the incremental flag as 0 or 1,
      then x, y, width and height as big-endian u16. */
  function UpdateRequestMessage(r: UpdateRequest): (m: seq<byte>)
    ensures |m| == 10 && m[0] == FramebufferUpdateRequestType
    ensures m[1] == if r.incremental then 1 else 0
  {
    [FramebufferUpdateRequestType, if r.incremental then 1 else 0]
      + BE16(r.x) + BE16(r.y) + BE16(r.width) + BE16(r.height)
  }

  /** The four u16 fields of a request, as the client writes them. */
  function RectFields(x: u16, y: u16, w: u16, h: u16): (m: seq<byte>)
    ensures |m| == 8
  {
    BE16(x) + BE16(y) + BE16(w) + BE16(h)
  }

  /** A request is its type byte, its flag byte and its four fields. */
  lemma UpdateRequestFields(r: UpdateRequest)
    ensures UpdateRequestMessage(r)
         == [FramebufferUpdateRequestType] + [if r.incremental then 1 else 0] + RectFields(r.x, r.y, r.width, r.height)
  {
  }

  /** A server's decoding of a FramebufferUpdateRequest. */
  function ParseUpdateRequest(m: seq<byte>): Option<UpdateRequest> {
    if |m| == 10 && m[0] == FramebufferUpdateRequestType && m[1] <= 1 then
      Some(UpdateRequest(m[1] == 1, FromBE(m[2..4]), FromBE(m[4..6]), FromBE(m[6..8]), FromBE(m[8..10])))
    else None
  }

  /** The server reads back exactly the request the client meant, ... */
  lemma UpdateRequestRoundTrip(r: UpdateRequest)
    ensures ParseUpdateRequest(UpdateRequestMessage(r)) == Some(r)
  {
    var m := UpdateRequestMessage(r);
    var head := [FramebufferUpdateRequestType, if r.incremental then 1 else 0];
    var a, b, c, d := BE16(r.x), BE16(r.y), BE16(r.width), BE16(r.height);
    assert m == head + a + b + c + d;
    assert m[2..4] == a;
    assert m[4..6] == b;
    assert m[6..8] == c;
    assert m[8..10] == d;
    BE16RoundTrip(r.x);
    BE16RoundTrip(r.y);
    BE16RoundTrip(r.width);
    BE16RoundTrip(r.height);
  }

  /** ... and every well-formed request on the wire is one the client can send. */
  lemma UpdateRequestMessageOnto(m: seq<byte>, r: UpdateRequest)
    requires ParseUpdateRequest(m) == Some(r)
    ensures UpdateRequestMessage(r) == m
  {
    ToFromBE(m[2..4]);
    ToFromBE(m[4..6]);
    ToFromBE(m[6..8]);
    ToFromBE(m[8..10]);
    assert m == m[..2] + m[2..4] + m[4..6] + m[6..8] + m[8..10];
  }

  /** The encoding list of SetEncodings: each encoding as four big-endian bytes. */
  function EncodingList(encodings: seq<u32>): (m: seq<byte>)
    ensures |m| == 4 * |encodings|
  {
    if encodings == [] then [] else BE32(encodings[0]) + EncodingList(encodings[1..])
  }

  /** The list of a + b is the list of a followed by the list of b. */
  lemma {:induction false} EncodingListAppend(a: seq<u32>, b: seq<u32>)
    ensures EncodingList(a + b) == EncodingList(a) + EncodingList(b)
  {
    if a == [] {
      assert a + b == b;
    } else {
      assert (a + b)[0] == a[0] && (a + b)[1..] == a[1..] + b;
      EncodingListAppend(a[1..], b);
    }
  }

  /** The list of the first i + 1 encodings: the list of the first i, then encoding i. */
  lemma EncodingListStep(encodings: seq<u32>, i: nat)
    requires i < |encodings|
    ensures EncodingList(encodings[..i + 1]) == EncodingList(encodings[..i]) + BE32(encodings[i])
  {
    assert encodings[..i + 1] == encodings[..i] + [encodings[i]];
    EncodingListAppend(encodings[..i], [encodings[i]]);
    assert EncodingList([encodings[i]]) == BE32(encodings[i]) + EncodingList([]);
  }

  /** SetEncodings: type 2, one padding byte, the count as a big-endian u16
      (the low 16 bits of the length), then the list. */
  function SetEncodingsMessage(encodings: seq<u32>): (m: seq<byte>)
    ensures |m| == 4 + 4 * |encodings|
    ensures m[..2] == [SetEncodingsType, 0]
  {
    [SetEncodingsType, 0] + BE16(U16(|encodings|)) + EncodingList(encodings)
  }

  /** A server's decoding of n four-byte encodings. */
  function ParseEncodingList(m: seq<byte>, n: nat): seq<u32>
    requires |m| == 4 * n
  {
    if n == 0 then [] else
      assert FromBE(m[..4]) < Pow256(4);
      [FromBE(m[..4]) as u32] + ParseEncodingList(m[4..], n - 1)
  }

  /** A server's decoding of SetEncodings. */
  function ParseSetEncodings(m: seq<byte>): Option<seq<u32>> {
    if |m| >= 4 && m[0] == SetEncodingsType && |m| - 4 == 4 * FromBE(m[2..4]) then
      Some(ParseEncodingList(m[4..], FromBE(m[2..4])))
    else None
  }

  lemma {:induction false} EncodingListRoundTrip(encodings: seq<u32>)
    ensures ParseEncodingList(EncodingList(encodings), |encodings|) == encodings
  {
    if encodings != [] {
      var m := EncodingList(encodings);
      assert m[..4] == BE32(encodings[0]);
      assert m[4..] == EncodingList(encodings[1..]);
      BE32RoundTrip(encodings[0]);
      EncodingListRoundTrip(encodings[1..]);
    }
  }

  /** A list of fewer than 65536 encodings reaches the server intact. */
  lemma SetEncodingsRoundTrip(encodings: seq<u32>)
    requires |encodings| < 0x1_0000
    ensures ParseSetEncodings(SetEncodingsMessage(encodings)) == Some(encodings)
  {
    var m := SetEncodingsMessage(encodings);
    assert m[2..4] == BE16(|encodings|);
    BE16RoundTrip(|encodings|);
    assert m[4..] == EncodingList(encodings);
    EncodingListRoundTrip(encodings);
  }

  /** The ServerCutText guard: a length above 32 MiB is refused, 32 MiB itself is not. */
  predicate CutTextAllowed(n: u32) {
    n <= MaxCutTextLength
  }

  /** The DisplayName guard, applied to the length read into a signed int:
      lengths up to 4096 pass, and so does every length of 2^31 or more,
      which the signed reading turns negative. */
  predicate NameLengthAllowed(n: u32) {
    S32(n) <= MaxNameLength
  }

  lemma NameLengthGuard(n: u32)
    ensures NameLengthAllowed(n) <==> n <= MaxNameLength || n >= 0x8000_0000
  {
  }

  /** The guard on a failure reason: it must be non-empty and fit the 1024-byte buffer
      with its terminator. */
  predicate ReasonLengthAllowed(n: u32) {
    1 <= S32(n) < ReasonBufferSize
  }

  lemma ReasonLengthGuard(n: u32)
    ensures ReasonLengthAllowed(n) <==> 1 <= n <= 1023
  {
  }

  /** The two messages a new connection sends once initialised: SetEncodings
      offering RAW only, and a full request for the 32x32 view at the origin. */
  lemma StartupMessages()
    ensures SetEncodingsMessage([EncodingRaw as u32]) == [2, 0, 0, 1, 0, 0, 0, 0]
    ensures UpdateRequestMessage(UpdateRequest(false, 0, 0, 32, 32)) == [3, 0, 0, 0, 0, 0, 0, 32, 0, 32]
  {
    BE32Bytes(0);
    assert EncodingList([0]) == BE32(0) + EncodingList([]);
    assert BE16(1) == [0, 1] && BE16(0) == [0, 0] && BE16(32) == [0, 32];
  }
}
