# vnc_tiny_view: a Dafny model of its RFB client engine

`vnc/vnc_tiny_view.c` is a tiny VNC viewer for a 32x32 LED panel.  It
connects to an RFB server (RFC 6143) and negotiates the protocol version and
the "None" security type.  It reads ServerInit, offers the RAW encoding and
keeps a 32x32 view of the remote framebuffer up to date.  A position written
to a control FIFO moves the view.  This project models the protocol engine of
that client, and proves what it does to the bytes it reads and writes, to its
connection state and to its framebuffer.

Structure of the model:

- **Transport.** The server's side of the connection is one finite byte
  string `input` with a read cursor `pos`.  The client's side is an `output`
  byte string to which writes append, and the peer accepts at most `outCap`
  bytes.
  - A read past the end delivers what is left and is *short*.
  - A write past the capacity is short.
  - Either sets the sticky `hasError` flag, and nothing clears it.
  - Each `exit(n)` of the program is the outcome `Exit(n)`; a step that
    returns is `Done(value)`.
- **Modules.** They follow the parts of the program:
  - `Wire`: integer widths, narrowing, big-endian and little-endian byte codecs.
  - `Stream`: the cursor, delivered windows, short reads and capped writes.
  - `Messages`: PixelFormat, SetEncodings, FramebufferUpdateRequest and the length guards.
  - `Version`: `before_version`/`after_version`, negotiation, the 12-byte banner.
  - `Handshake`: the Security and SecurityResult phases, and a well-behaved server's bytes.
  - `Framebuffer`: the RGB24 array and RAW blits.
  - `Updates`: FramebufferUpdate, rectangles, ServerCutText and unknown messages as functions of the input.
  - `Viewport`: the view, the clamp, the main loop's events and the crop arithmetic.
  - `Render`: the colour classification, the ascii ramp and the LED frame copy.
  - `Client`: the class `Connection`, whose fields are the connection and
    `priv` fields the program updates in place, with one method per C
    function.
- **Specification.** Each method of `Connection` is proved against a
  function of `Updates`, `Handshake`, `Version` or `Messages`.  The
  properties the program promises are proved as lemmas about those functions.
- **The main loop's wait.** `select`, `ioctl(FIONREAD)` and the FIFO read
  with its `sscanf` are one input event each:
  - `Timeout`;
  - `Control(fields, x, y)`, where `fields` is the number of values parsed;
  - `ControlReadFailed`;
  - `SocketReady`.
- **Display callback.** The expose callback is the ghost log `shown`, which
  holds the framebuffer contents at each call.
- **Where the code and the protocol text disagree, the model follows the code:**
  - A ServerCutText length of exactly 32 MiB is accepted, because the guard
    is `n_text > (32 << 20)` (`Messages.CutTextAllowed`, `Updates.CutTextLimit`).
  - A DisplayName length of 2^31 or more passes the 4096 limit, because it is
    read into a signed `int` (`Messages.NameLengthGuard`).
  - A 3.6 or older server never sets `auth_type`.
  - A view larger than the framebuffer is clamped to a negative origin.
  - In any pixel format but 32 bits per pixel, a RAW rectangle of at least
    one row reads its first scanline and then exits with status 11; with no
    rows it is shown unchanged.
  - The 32-bit pixel is read in host order, which the model fixes as
    little-endian, the order of the ARM board the program targets.

## Model

| member | source | states |
|---|---|---|
| Wire.U16 | vnc/vnc_tiny_view.c:376-380 | the u_int16_t conversion keeps the value modulo 2^16, and is the identity on values that fit |
| Wire.U32 | vnc/vnc_tiny_view.c:388-392 | the u_int32_t conversion keeps the value modulo 2^32, and is the identity on values that fit |
| Wire.S32 | vnc/vnc_tiny_view.c:344-350 | the signed reading of a 32-bit word lies in the int32 range, converts back to the same word, and is negative exactly when the top bit is set |
| Wire.FromToBE | vnc/vnc_tiny_view.c:328-342 | decoding the n-byte big-endian encoding of any value below 256^n gives back that value |
| Wire.ToFromBE | vnc/vnc_tiny_view.c:328-342 | re-encoding the decoded value of any byte string gives back exactly that byte string |
| Wire.BE16RoundTrip | vnc/vnc_tiny_view.c:328-334 | a u16 written with htons reads back with ntohs unchanged |
| Wire.BE32RoundTrip | vnc/vnc_tiny_view.c:336-342 | a u32 written with htonl reads back with ntohl unchanged |
| Wire.S32RoundTrip | vnc/vnc_tiny_view.c:344-350 | every int32 written by write_s32 is read back by read_s32 unchanged |
| Wire.BE32Bytes | vnc/vnc_tiny_view.c:382-386 | a 32-bit field goes on the wire most significant byte first |
| Wire.Channel | vnc/vnc_tiny_view.c:634-636 | `(v >> shift) & 0xff` for a 32-bit pixel; a shift of 32 or more gives 0 |
| Stream.Advance | vnc/vnc_tiny_view.c:302-318 | a read never moves the cursor backwards or past the end of the input |
| Stream.Window | vnc/vnc_tiny_view.c:320-350 | the buffer after a read always has the requested length, zero-padded where the input runs out |
| Stream.WindowIsDeliveredThenZeros | vnc/vnc_tiny_view.c:302-318 | what lands in a zeroed buffer is exactly the available input bytes followed by the untouched zeros |
| Stream.WindowSplit | vnc/vnc_tiny_view.c:302-318 | reading a bytes and then b bytes fills the buffer exactly as one read of a+b bytes does |
| Stream.AdvanceSplit | vnc/vnc_tiny_view.c:302-318 | two consecutive reads leave the cursor and the error flag as one read of their total length does |
| Stream.Field | vnc/vnc_tiny_view.c:448-465 | reading a record field by field gives each field the bytes, cursor and error of the record read whole |
| Stream.WindowOfMessage | vnc/vnc_tiny_view.c:302-318 | when the input holds a message, every read inside it delivers exactly the matching part of the message |
| Stream.Emit | vnc/vnc_tiny_view.c:353-369 | a write only appends to the output and never exceeds the peer's capacity |
| Stream.EmitConcat | vnc/vnc_tiny_view.c:353-369 | two consecutive writes give the output and error of one write of both, so a message written piecewise is the message |
| Stream.EmitAll | vnc/vnc_tiny_view.c:353-369 | a write that does not overflow puts all its bytes on the output |
| Messages.DecodePixelFormat | vnc/vnc_tiny_view.c:448-465 | the recorded byte order is always exactly one of the two tags, big-endian for a non-zero byte |
| Messages.PixelFormatRoundTrip | vnc/vnc_tiny_view.c:448-465 | every pixel format a server can send is read back field for field from its 16-byte record |
| Messages.UpdateRequestMessage | vnc/vnc_tiny_view.c:774-779 | the request is 10 bytes, type 3, with incremental sent as exactly 1 or 0 |
| Messages.UpdateRequestRoundTrip | vnc/vnc_tiny_view.c:768-779 | a server's decoder reads from the request exactly the flag and the four fields the client recorded |
| Messages.UpdateRequestMessageOnto | vnc/vnc_tiny_view.c:774-779 | every well-formed request a server can decode is the message of the request it decodes to |
| Messages.UpdateRequestFields | vnc/vnc_tiny_view.c:774-779 | the request is the type byte, the flag byte, then x, y, width and height in that order |
| Messages.EncodingListAppend | vnc/vnc_tiny_view.c:793-795 | the encoding list of a+b is the list of a followed by the list of b |
| Messages.EncodingListStep | vnc/vnc_tiny_view.c:793-795 | after i+1 loop iterations the output holds the first i encodings followed by encoding i |
| Messages.EncodingListRoundTrip | vnc/vnc_tiny_view.c:793-795 | a server decodes the four-byte encodings back to the list the client sent |
| Messages.SetEncodingsMessage | vnc/vnc_tiny_view.c:786-798 | SetEncodings is 4+4n bytes and starts with type 2 and a zero pad byte |
| Messages.SetEncodingsRoundTrip | vnc/vnc_tiny_view.c:786-798 | for fewer than 65536 encodings a server decodes SetEncodings back to exactly the list offered |
| Messages.NameLengthGuard | vnc/vnc_tiny_view.c:578-580 | the name guard lets a length through exactly when it is at most 4096 or at least 2^31 |
| Messages.ReasonLengthGuard | vnc/vnc_tiny_view.c:485-487 | a failure reason is accepted exactly when its length is 1 to 1023 |
| Messages.StartupMessages | vnc/vnc_tiny_view.c:1041-1044 | the client's first messages are the bytes 2,0,0,1,0,0,0,0 and then 3,0,0,0,0,0,0,32,0,32 |
| Version.After | vnc/vnc_tiny_view.c:436-439 | "after version (m1, m2)" holds exactly when the version is strictly later than (m1, m2) |
| Version.Negotiate | vnc/vnc_tiny_view.c:546-554 | below 3.3 is unsupported; 3.3 to 3.6 becomes 3.3; 3.7 and 3.8 stay; anything later becomes 3.8; the result is 3.3, 3.7 or 3.8 |
| Version.NegotiateIdempotent | vnc/vnc_tiny_view.c:546-554 | the version the client settles on is one it would keep if a server announced it |
| Version.Digits3 | vnc/vnc_tiny_view.c:555 | every number below 1000 is printed as three ASCII digits |
| Version.FormatBanner | vnc/vnc_tiny_view.c:555-556 | the echoed banner is 12 bytes starting with "RFB " and ending in a newline |
| Version.Digits3RoundTrip | vnc/vnc_tiny_view.c:538 | scanning three printed digits gives back the number |
| Version.Digits3Onto | vnc/vnc_tiny_view.c:538 | every three digits that scan are the printing of the number they scan to |
| Version.BannerRoundTrip | vnc/vnc_tiny_view.c:538-556 | the banner the client echoes parses back to the version it carries |
| Version.BannerOnto | vnc/vnc_tiny_view.c:538-556 | every banner that parses and ends in a newline is the printing of the version it parses to |
| Version.Exchange | vnc/vnc_tiny_view.c:535-556 | the exchange fails on a banner exactly when it does not parse; an agreed version is 3.3, 3.7 or 3.8 and comes from a server of at least 3.3 |
| Version.ExchangeExamples | vnc/vnc_tiny_view.c:546-556 | 3.8 gets 3.8, 3.5 gets 3.3, 4.0 gets 3.8, 3.2 is refused, and the 3.8 banner has the expected bytes |
| Handshake.SecurityResult | vnc/vnc_tiny_view.c:476-494 | success exactly for a zero word; exit 4 only from 3.8 on; 4 bytes read before 3.8; from 3.8 a non-zero word exits 4 exactly when the reason length is outside the accepted range, and otherwise fails after 8 + length bytes |
| Handshake.Security | vnc/vnc_tiny_view.c:496-527 | up to 3.6: 4 bytes, nothing written, success; from 3.7: exit 2 exactly for a count outside 1..10, else the byte 1 is written after reading the count and the types, and 3.7 succeeds; in 3.8 the outcome and the remaining bytes are those of `Handshake.SecurityResult` after the types |
| Handshake.SecurityWithServer38 | vnc/vnc_tiny_view.c:496-527 | against a 3.8 server the client reads exactly the types and result, answers "None" and succeeds exactly when the result is 0 |
| Handshake.SecurityResultFromServer | vnc/vnc_tiny_view.c:476-494 | against a server's SecurityResult the client reads exactly the message and succeeds exactly for a zero result |
| Handshake.SecurityWithServer37 | vnc/vnc_tiny_view.c:502-522 | against a 3.7 server the client reads the count and the types, answers "None" and succeeds |
| Handshake.ServerInitFields | vnc/vnc_tiny_view.c:568-583 | reading a ServerInit gives back the server's width, height, pixel format and name, with nothing short |
| Handshake.HandshakeWithServer38 | vnc/vnc_tiny_view.c:529-588 | against a 3.8 server offering "None" the version is 3.8, the security phase reads 6 bytes and writes the byte 1, and ServerInit at byte 18 yields the server's fields |
| Framebuffer.BlitRow | vnc/vnc_tiny_view.c:629-638 | blitting a scanline never changes the framebuffer size |
| Framebuffer.Paint | vnc/vnc_tiny_view.c:671-675 | blitting any number of rows keeps the framebuffer size |
| Framebuffer.TimesIsProduct | vnc/vnc_tiny_view.c:671-675 | the bytes of i scanlines read one after another are i times the scanline size |
| Framebuffer.ChannelSelectsByte | vnc/vnc_tiny_view.c:633-636 | with shift 8k the channel of a little-endian pixel is its byte k |
| Framebuffer.PaintAt | vnc/vnc_tiny_view.c:622-647 | after n rows each framebuffer byte inside the rectangle holds its channel of its scanline pixel, and every byte outside is unchanged |
| Framebuffer.PaintPixel | vnc/vnc_tiny_view.c:629-638 | pixel (x+j, y+i) holds the three channels of pixel j of scanline i |
| Framebuffer.BlitRowStep | vnc/vnc_tiny_view.c:631-637 | blitting one more pixel writes its three channels and nothing else |
| Framebuffer.PaintNextRow | vnc/vnc_tiny_view.c:671-675 | painting one more row is the blit of that row over the rows before |
| Framebuffer.PaintPrefix | vnc/vnc_tiny_view.c:671-675 | painting n rows depends on the first n scanlines only |
| Framebuffer.Scanlines | vnc/vnc_tiny_view.c:628-639 | a w*h pixel buffer splits into h scanlines of 4w bytes, scanline i being bytes 4wi to 4w(i+1) |
| Framebuffer.ScratchLines | vnc/vnc_tiny_view.c:670-675 | the scratch line of a RAW rectangle holds one scanline per read, each of 4w bytes |
| Framebuffer.ScratchLinesFull | vnc/vnc_tiny_view.c:670-675 | when the input holds the whole rectangle, scanline i is the i-th run of 4w input bytes |
| Framebuffer.RawPixel | vnc/vnc_tiny_view.c:656-677 | after a whole RAW rectangle, pixel (x+j, y+i) holds the channels of the 32-bit pixel at input offset pos+4(wi+j) |
| Framebuffer.RawPixelAligned | vnc/vnc_tiny_view.c:656-677 | with a byte-aligned shift, channel c of pixel (x+j, y+i) is one input byte of that pixel |
| Updates.HeaderEncoding | vnc/vnc_tiny_view.c:883-885 | the encoding passed to dispatch is the low 16 bits of the s32 read from the header |
| Updates.Rect | vnc/vnc_tiny_view.c:698-756 | with the error set nothing happens; an unknown encoding or an out-of-bounds rectangle sets the error and changes nothing else; exit 11 exactly for a RAW rectangle with rows in a non-32-bit format; a successful rectangle shows the framebuffer exactly once |
| Updates.NextRect | vnc/vnc_tiny_view.c:876-886 | one rectangle never moves the cursor back, keeps the framebuffer size, and shows the new framebuffer once when it succeeds |
| Updates.RectsNext | vnc/vnc_tiny_view.c:875-887 | the rectangle loop stops at an exit or at the first failing rectangle, and otherwise goes on with the rest |
| Updates.RectsShown | vnc/vnc_tiny_view.c:875-887 | the rectangles of one update add at most one frame each after the earlier ones, and exactly one each when none fails |
| Updates.RectsExit | vnc/vnc_tiny_view.c:641-645 | rectangles end the process only with status 11, and only in a non-32-bit pixel format |
| Updates.RectsKeepCurrent | vnc/vnc_tiny_view.c:710-722 | once the last frame shown is the framebuffer, it still is after any rectangles |
| Updates.RectOutside | vnc/vnc_tiny_view.c:622-647 | a rectangle changes no framebuffer byte outside itself |
| Updates.RawRectPixel | vnc/vnc_tiny_view.c:656-677 | a whole 32-bit RAW rectangle leaves no error, moves the cursor by 4wh bytes and puts each input pixel's channels at its framebuffer pixel |
| Updates.Incoming | vnc/vnc_tiny_view.c:865-913 | handling a server message never moves the cursor back and keeps the framebuffer size; the only exits are status 9 (cut text too long) and 11 (unsupported pixel size) |
| Updates.HeaderRoundTrip | vnc/vnc_tiny_view.c:879-883 | reading a rectangle header gives back the server's x, y, width and height, and the encoding modulo 2^16 |
| Updates.CutTextHandled | vnc/vnc_tiny_view.c:890-904 | a cut text above 32 MiB is exit 9 and nothing else is; a smaller whole one moves the cursor past the text and changes nothing else |
| Updates.CutTextLimit | vnc/vnc_tiny_view.c:897 | 32 MiB exactly is accepted and one byte more is refused |
| Updates.UnknownMessage | vnc/vnc_tiny_view.c:906-910 | any type other than 0 and 3 sets the error after the type byte and changes nothing else |
| Updates.RawProgressNext | vnc/vnc_tiny_view.c:671-675 | each iteration of the RAW loop reads one scanline and paints it as the next row |
| Updates.RawProgressStart | vnc/vnc_tiny_view.c:670 | the RAW loop starts with nothing read and nothing painted; the scratch line from `malloc` starts as the model's stand-in contents, zeros (see Left out) |
| Updates.RawProgressDone | vnc/vnc_tiny_view.c:671-676 | after the loop the cursor is 4wh bytes further and the framebuffer is the RAW frame |
| Updates.RawUpdateFromServer | vnc/vnc_tiny_view.c:865-887 | a FramebufferUpdate of one whole 32-bit RAW rectangle is read exactly, painted and shown once, with no error |
| Updates.IncomingUpdate | vnc/vnc_tiny_view.c:865-875 | a FramebufferUpdate head hands the rest of the message to the rectangle loop with the server's count |
| Updates.NextRectFromHeader | vnc/vnc_tiny_view.c:876-886 | a rectangle whose header is all there is dispatched with the header's own fields |
| Updates.UpdateHeadRead | vnc/vnc_tiny_view.c:865-874 | the head of an update gives the type 0 and the server's rectangle count |
| Updates.RawRectWhole | vnc/vnc_tiny_view.c:711-716 | a whole 32-bit RAW rectangle succeeds, advances past its bytes and shows the painted framebuffer |
| Viewport.ClampCoord | vnc/vnc_tiny_view.c:853-856 | the clamped coordinate keeps the window inside the limit, is unchanged when it already fits, is 0 for a negative request, and is negative only when the window is too large |
| Viewport.ClampIdempotent | vnc/vnc_tiny_view.c:853-856 | clamping a clamped coordinate changes nothing |
| Viewport.ClampNearest | vnc/vnc_tiny_view.c:853-856 | when the window fits, the clamped coordinate is the allowed position nearest to the request |
| Viewport.MoveTo | vnc/vnc_tiny_view.c:840-862 | no value parsed leaves the view; one value moves x only; the size never changes; `moved` is set exactly when it was or the origin changed |
| Viewport.MoveToInside | vnc/vnc_tiny_view.c:853-859 | when the window fits the framebuffer, a control line leaves the view inside it |
| Viewport.TimeoutRequest | vnc/vnc_tiny_view.c:828-834 | the timeout request is incremental exactly when the view has not moved, and asks for the view's own rectangle |
| Viewport.ViewStep | vnc/vnc_tiny_view.c:828-863 | a timeout clears `moved`, a control line moves the view, and nothing else changes it |
| Viewport.RunSnoc | vnc/vnc_tiny_view.c:1045-1046 | one more event at the end of a run is one more step from where the run left the view |
| Viewport.RequestAfterEvents | vnc/vnc_tiny_view.c:828-863 | between timeouts the next request is incremental exactly when the last left the view unmoved and no control line changed the origin since |
| Viewport.FirstRequestIsFull | vnc/vnc_tiny_view.c:275 | since a connection starts with `moved` set, the first timeout request is a full update whatever came earlier |
| Viewport.TimeoutThenTimeout | vnc/vnc_tiny_view.c:832-833 | the request after a timeout with no move in between is incremental |
| Viewport.CropIndexIsPixel | vnc/vnc_tiny_view.c:916-920 | with stride 3*width the callbacks read channel c of framebuffer pixel (x+col, y+row) |
| Viewport.CropInBounds | vnc/vnc_tiny_view.c:963-993 | a view inside the framebuffer is read inside the 3*width*height bytes |
| Viewport.RunStaysInside | vnc/vnc_tiny_view.c:1045-1046 | a view that fits stays inside the framebuffer and keeps its size after any events |
| Render.Tty8c | vnc/vnc_tiny_view.c:87-106 | the colour code has one bit per channel of at least 100, the background is the code plus 10, and the glyph is blank unless a channel reaches 200 |
| Render.Tty8cThreshold | vnc/vnc_tiny_view.c:87-106 | pixels whose channels agree on the 100 threshold get the same colours |
| Render.RampIndex | vnc/vnc_tiny_view.c:75-85 | the index is always inside the 68-character ramp; black gets the last glyph and white the first |
| Render.RampMonotone | vnc/vnc_tiny_view.c:75-85 | a brighter pixel never gets a later glyph of the ramp |
| Render.RampEnds | vnc/vnc_tiny_view.c:80-83 | the ramp has 68 glyphs, a blank for black and '$' for white |
| Render.SourceIndexIsCropIndex | vnc/vnc_tiny_view.c:971-991 | the LED copy reads channel c of pixel col of a row, as the ascii callback does |
| Render.LedPanelFrame | vnc/vnc_tiny_view.c:963-997 | the LED frame is 32 rows of 96 bytes, byte b of row r copied from the framebuffer at the view's origin plus r strides plus b |
| Render.AsciiArtCell | vnc/vnc_tiny_view.c:916-922 | the cell drawn for pixel (col, row) of the view is the colour classification of framebuffer pixel (x+col, y+row) |
| Client.Connection.constructor | vnc/vnc_tiny_view.c:268-284 | a new connection has read and written nothing, has no error, the 32x32 view at the origin with a full update pending and the shared flag set |
| Client.Connection.Read | vnc/vnc_tiny_view.c:302-318 | a read delivers the available bytes, returns -1 and sets the error exactly when short |
| Client.Connection.ReadField | vnc/vnc_tiny_view.c:302-318 | a read into a zeroed buffer leaves it holding the window of the input |
| Client.Connection.ReadU8 | vnc/vnc_tiny_view.c:320-326 | read_u8 returns the next byte (0 past the end) and sets the error when short |
| Client.Connection.ReadU16 | vnc/vnc_tiny_view.c:328-334 | read_u16 returns the big-endian value of the next two bytes |
| Client.Connection.ReadU32 | vnc/vnc_tiny_view.c:336-342 | read_u32 returns the big-endian value of the next four bytes |
| Client.Connection.ReadS32 | vnc/vnc_tiny_view.c:344-350 | read_s32 returns the signed reading of the next four bytes |
| Client.Connection.Write | vnc/vnc_tiny_view.c:353-369 | a write appends what the peer accepts, and returns -1 and sets the error exactly when it overflows |
| Client.Connection.WriteU8 | vnc/vnc_tiny_view.c:371-374 | write_u8 appends its byte |
| Client.Connection.WriteU16 | vnc/vnc_tiny_view.c:376-380 | write_u16 appends the low 16 bits of its argument, big-endian |
| Client.Connection.WriteU32 | vnc/vnc_tiny_view.c:382-386 | write_u32 appends its value big-endian |
| Client.Connection.WriteS32 | vnc/vnc_tiny_view.c:388-392 | write_s32 appends the two's-complement pattern of its value, big-endian |
| Client.Connection.ValidateBoundary | vnc/vnc_tiny_view.c:601-614 | the error is set by a rectangle outside the framebuffer and kept otherwise; the result is the absence of an error |
| Client.Connection.BlitLine | vnc/vnc_tiny_view.c:631-638 | the pixel loop writes exactly the blit of one scanline and moves the destination by 3w bytes |
| Client.Connection.PutPixel | vnc/vnc_tiny_view.c:633-636 | one pixel's three channels land in three consecutive bytes |
| Client.Connection.Blt | vnc/vnc_tiny_view.c:622-647 | a 32-bit format paints the rows into the framebuffer; any other is exit 11 and leaves it unchanged |
| Client.Connection.BltRow | vnc/vnc_tiny_view.c:629-639 | one iteration of the row loop paints one more row and steps the source and destination to the next |
| Client.Connection.RawUpdate | vnc/vnc_tiny_view.c:656-677 | a RAW rectangle with rows in a non-32-bit format is exit 11; otherwise the cursor advances by 4wh and the framebuffer becomes the RAW frame |
| Client.Connection.RawRows | vnc/vnc_tiny_view.c:670-676 | the scanline loop reads 4wh bytes and leaves the framebuffer holding the RAW frame |
| Client.Connection.RawNext | vnc/vnc_tiny_view.c:671-675 | one scanline read and blitted keeps the RAW loop invariant |
| Client.Connection.RawRow | vnc/vnc_tiny_view.c:673-674 | one scanline is read into the scratch line and blitted, or exit 11 outside the 32-bit format |
| Client.Connection.CopyRectUpdate | vnc/vnc_tiny_view.c:680-694 | CopyRect reads its 4-byte source position and leaves the framebuffer alone |
| Client.Connection.Expose | vnc/vnc_tiny_view.c:649-654 | the callback is handed the current framebuffer |
| Client.Connection.FramebufferUpdate | vnc/vnc_tiny_view.c:698-756 | the dispatch does exactly what `Updates.Rect` says and returns whether the error is clear |
| Client.Connection.ReadRectHeader | vnc/vnc_tiny_view.c:879-883 | the header fields are read in order, and the encoding narrows to the header's encoding |
| Client.Connection.NextRect | vnc/vnc_tiny_view.c:876-886 | one iteration of the rectangle loop is one step of `Updates.Rects` |
| Client.Connection.ReadRects | vnc/vnc_tiny_view.c:873-887 | the rectangle loop ends in exactly the state `Updates.Rects` gives, or exits with its status |
| Client.Connection.ReadPixelFormat | vnc/vnc_tiny_view.c:448-473 | the pixel format read is the decoding of the next 16 bytes, padding included in what is consumed |
| Client.Connection.ReadFormatHeader | vnc/vnc_tiny_view.c:452-455 | the four u8 header fields are the next four bytes |
| Client.Connection.ReadChannelMaxima | vnc/vnc_tiny_view.c:457-459 | the three maxima are the next three big-endian u16 |
| Client.Connection.ReadChannelShifts | vnc/vnc_tiny_view.c:461-465 | the three shifts are the next three bytes, then three padding bytes are skipped |
| Client.Connection.VersionExchange | vnc/vnc_tiny_view.c:535-557 | a bad banner is exit 2, an old version exit 3; otherwise the negotiated version is recorded and its banner written |
| Client.Connection.CheckAuthResult | vnc/vnc_tiny_view.c:476-494 | the outcome and the bytes read are those of `Handshake.SecurityResult` |
| Client.Connection.SkipTypes | vnc/vnc_tiny_view.c:510-514 | the loop over the offered types reads exactly n bytes |
| Client.Connection.PerformAuth | vnc/vnc_tiny_view.c:496-527 | the outcome, bytes read and bytes written are those of `Handshake.Security`; auth_type becomes "None" only from 3.7 on |
| Client.Connection.ChooseSecurity | vnc/vnc_tiny_view.c:505-526 | the 3.7+ branch reads the count and types, writes "None" and reads the 3.8 result as `Handshake.Security` says |
| Client.Connection.ClientServerInit | vnc/vnc_tiny_view.c:565-588 | ClientInit writes the shared flag; a short size read stops before allocation; otherwise a zeroed framebuffer of 3*width*height bytes, the pixel format, and the name unless it is longer than 4096 |
| Client.Connection.SendFlagReadSize | vnc/vnc_tiny_view.c:565-569 | the shared flag is written, then width and height are read |
| Client.Connection.ReadDesktopName | vnc/vnc_tiny_view.c:578-588 | a name longer than 4096 fails before reading it; otherwise exactly that many bytes (none for a negative length) are read |
| Client.Connection.Initialize | vnc/vnc_tiny_view.c:529-599 | the handshake ends as version, security and ServerInit decide (exits 2, 3, 4 included); once security succeeds, the result is true exactly when no error is set and a whole ServerInit with an accepted name was read; on success a zeroed framebuffer exists, and the output is the banner, the security answer and the shared flag |
| Client.Connection.SecureAndInit | vnc/vnc_tiny_view.c:561-588 | after the version, failure reported by security is exit 4; otherwise the result is true exactly when no error is set and a whole ServerInit with an accepted name was read after the security bytes |
| Client.Connection.FramebufferUpdateRequest | vnc/vnc_tiny_view.c:758-783 | the request is recorded in lastUpdateRequest and its 10-byte message written |
| Client.Connection.WriteRectFields | vnc/vnc_tiny_view.c:776-779 | x, y, width and height go out as four big-endian u16 |
| Client.Connection.SetEncodings | vnc/vnc_tiny_view.c:786-798 | SetEncodings writes exactly its message and reports whether the error is clear |
| Client.Connection.WriteEncodingList | vnc/vnc_tiny_view.c:793-795 | the loop writes each encoding as four big-endian bytes, in order |
| Client.Connection.MoveView | vnc/vnc_tiny_view.c:845-860 | a control line moves the view as `Viewport.MoveTo` says |
| Client.Connection.ReadServerMessage | vnc/vnc_tiny_view.c:865-913 | a server message ends in exactly the state `Updates.Incoming` gives, or exits with its status |
| Client.Connection.ServerMessage | vnc/vnc_tiny_view.c:800-914 | with the error set nothing happens and the result is false; a timeout sends the request for the view and clears `moved`, and only a timeout records a request; a control line moves the view and writes nothing; a failed control read is false, writes nothing and sets no error; socket data is one server message and writes nothing |
| Client.Connection.Startup | vnc/vnc_tiny_view.c:1018-1044 | a failed initialisation is exit 8 and other handshake exits pass through; after a good one the view is the 32x32 origin window and SetEncodings and a full request have gone out |
| Client.Connection.Welcome | vnc/vnc_tiny_view.c:1022-1044 | after a good handshake the view is reset and the two startup messages are written |
| Client.Connection.Greet | vnc/vnc_tiny_view.c:1041-1044 | RAW only is offered, then a full update of the 32x32 view at the origin is requested and recorded |
| Client.Connection.RunSession | vnc/vnc_tiny_view.c:1045-1056 | the loop stops with exit status 1, 9 or 11 or runs through every event, and the view follows the events handled |
| Client.NameBytes | vnc/vnc_tiny_view.c:581-584 | a negative name length reads no bytes, any other reads exactly that many |
| Client.PixelFormatGroups | vnc/vnc_tiny_view.c:452-463 | reading the record's header fields, maxima and shifts as three groups gives the decoded pixel format |

## Left out

- Socket setup, the control FIFO's creation and opening, `select` with its
  refresh timer, and `ioctl(FIONREAD)` are operating-system I/O.  They are
  the `Event` input of `Viewport`.  The FIFO's `read` and `sscanf` of the
  control line are also in that event: how many values were parsed and
  their values.
- `sscanf` and `snprintf` are modelled only for the fixed banner layout
  "RFB ddd.ddd".  `sscanf` accepts fields with fewer digits or leading
  signs, which the model does not.
- `fprintf`/`printf` diagnostics, `cursor_up`, and the terminal output of
  `draw_ttyc8` and `draw_ttyramp` are output plumbing.  Only the colour,
  glyph and offset arithmetic is modelled.
- The LED device `write` in `draw_ledpanel` is not modelled.  Only the
  frame it would write is.
- The choice between the LED and the ascii callback is not modelled.  Each
  call is recorded in the ghost log `shown`.
- `read_rgb_file`, `main`'s argument handling and its `#else` branch are
  command-line and file I/O.
- zlib streams, the `#if 0` RRE/Hextile/ZRLE/Tight branches and
  `mkgamma_lut` are compiled out by default.
- `malloc`/`calloc` failure is not modelled: allocation always succeeds.
  C integer overflow of `3*width*height` and `n_text + 1` is not modelled,
  because widths and heights are at most 65535 and the product is exact here.
- The store `name[n_name] = 0` for a negative `n_name` writes outside the
  buffer.  The model reads no name bytes for a negative length and does
  not model the store.
- The CopyRect blit `vnc_framebuffer_copyrect` is a stub in the source.
  The model reads its four bytes and does nothing else.
- `vnc_connection_flush` does nothing in the source, so the model has no flush.
- A `read` or `write` that moves fewer bytes than asked is retried by
  the source's loop.  The model takes each call as moving everything it
  can at once, so those partial steps are not modelled.
- Wire.Channel: a shift of 32 or more is undefined behaviour in C.  The
  model gives 0, as a register-specified shift does on the ARM target.
- The blit's 32-bit pixel read in host order is fixed as little-endian.
- Viewport.ClampCoord: the coordinates of a control line are unbounded
  integers here.  In C they are `int`s, and adding the view's width or
  height to one above INT_MAX minus that size (vnc/vnc_tiny_view.c:855-856)
  overflows, which is undefined behaviour; with wrap-around that coordinate
  would escape the clamp.  `Viewport.MoveToInside` and
  `Viewport.RunStaysInside` hold for the unbounded sum only.
- The buffers `char version[13]` (vnc/vnc_tiny_view.c:533) and the scratch
  line `dst` from `malloc` (vnc/vnc_tiny_view.c:670) start uninitialised in C.
  The model gives both zeros as a stand-in.  Two results depend on it: a
  first RAW scanline cut short by the end of input keeps zero bytes, and a
  banner of at most 10 delivered bytes is parsed with zeros after them.
- Client.Connection.RunSession: the contract ties only the view to the
  events handled.  The writes, reads and framebuffer of each step are stated
  on `Client.Connection.ServerMessage`, and the loop does not repeat them.
- Client.Connection.Startup: the expose callback assignment and the LED
  device open are left out (see above); a connection that has not exited
  is handed to `Client.Connection.RunSession`.
