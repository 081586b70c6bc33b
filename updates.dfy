/** The server-to-client messages as the client handles them (section 7.6 of
    RFC 6143), stated over the input from a read position: FramebufferUpdate
    with its rectangles, ServerCutText, and an unknown type.  The state they
    act on is the read cursor, the sticky error flag, the framebuffer bytes
    and the frames passed to the expose callback so far. */
module Updates {
  import opened Wire
  import opened Stream
  import opened Messages
  import opened Framebuffer

  /** The cursor, the error flag, the W*H*3 framebuffer and the frames shown, oldest first. */
  datatype Screen = Screen(pos: nat, error: bool, fb: seq<byte>, shown: seq<seq<byte>>)

  /** The check of `validate_boundary`: the rectangle lies inside the framebuffer. */
  predicate InBounds(W: int, H: int, x: u16, y: u16, w: u16, h: u16) {
    x + w <= W && y + h <= H
  }

  /** The frame last shown is the current framebuffer (or nothing was shown yet). */
  predicate Current(s: Screen) {
    s.shown != [] ==> s.shown[|s.shown| - 1] == s.fb
  }

  /** One rectangle, after its header is read.  With an error already set
      nothing happens.  An encoding other than RAW and CopyRect, or a
      rectangle outside the framebuffer, sets the error.  CopyRect reads the
      source position and leaves the framebuffer as it is.  RAW reads h
      scanlines of 4*w bytes into one w-pixel scratch line and blits each;
      a pixel size other than 32 bits exits with status 11 at the first
      blit.  Both known encodings then show the framebuffer. */
  function Rect(input: seq<byte>, s: Screen, W: nat, H: nat, fmt: PixelFormat,
                etype: u16, x: u16, y: u16, w: u16, h: u16): (r: Outcome<Screen>)
    requires s.pos <= |input| && |s.fb| == 3 * W * H
    ensures r.Exit? <==> !s.error && etype == EncodingRaw && InBounds(W, H, x, y, w, h) && h > 0 && fmt.bitsPerPixel != 32
    ensures r.Exit? ==> r.code == 11
    ensures r.Done? ==> s.pos <= r.value.pos <= |input| && |r.value.fb| == |s.fb| && (s.error ==> r.value.error)
    ensures r.Done? && !r.value.error ==>
              (etype == EncodingRaw || etype == EncodingCopyRect) && InBounds(W, H, x, y, w, h)
              && r.value.shown == s.shown + [r.value.fb]
    ensures r.Done? && r.value.shown != s.shown ==> r.value.shown == s.shown + [r.value.fb]
    ensures r.Done? && r.value.fb != s.fb ==> r.value.shown == s.shown + [r.value.fb]
    ensures s.error ==> r == Done(s)
    ensures !s.error && !((etype == EncodingRaw || etype == EncodingCopyRect) && InBounds(W, H, x, y, w, h))
            ==> r == Done(s.(error := true))
  {
    if s.error then Done(s)
    else if etype != EncodingRaw && etype != EncodingCopyRect then Done(s.(error := true))
    else if !InBounds(W, H, x, y, w, h) then Done(s.(error := true))
    else if etype == EncodingCopyRect then
      Done(Screen(Advance(input, s.pos, 4), Short(input, s.pos, 4), s.fb, s.shown + [s.fb]))
    else if h > 0 && fmt.bitsPerPixel != 32 then Exit(11)
    else
      var n := RawSize(w, h);
      var fb := Paint(s.fb, W, H, x, y, w, ScratchLines(input, s.pos, 4 * w, h, Zeros(4 * w)), h, fmt);
      Done(Screen(Advance(input, s.pos, n), Short(input, s.pos, n), fb, s.shown + [fb]))
  }

  /** The bytes of a w*h RAW rectangle at 32 bits per pixel. */
  function RawSize(w: nat, h: nat): nat {
    4 * w * h
  }

  /** The 12-byte rectangle header at p: x, y, width, height, and the
      encoding read as a signed 32-bit value and passed on as 16 bits. */
  function HeaderX(input: seq<byte>, p: nat): u16 { FromBE(Window(input, p, 12)[0..2]) }
  function HeaderY(input: seq<byte>, p: nat): u16 { FromBE(Window(input, p, 12)[2..4]) }
  function HeaderW(input: seq<byte>, p: nat): u16 { FromBE(Window(input, p, 12)[4..6]) }
  function HeaderH(input: seq<byte>, p: nat): u16 { FromBE(Window(input, p, 12)[6..8]) }
  function HeaderEncoding(input: seq<byte>, p: nat): (e: u16)
    ensures e == FromBE(Window(input, p, 12)[8..12]) % 0x1_0000
  {
    Pow256Four();
    var s := S32(FromBE(Window(input, p, 12)[8..12]));
    NarrowSigned(FromBE(Window(input, p, 12)[8..12]));
    U16(s)
  }

  /** Narrowing the signed reading of a word to 16 bits keeps its low 16 bits. */
  lemma NarrowSigned(u: u32)
    ensures U16(S32(u)) == u % 0x1_0000
  {
  }

  /** The next rectangle of a FramebufferUpdate: its 12-byte header read
      at s.pos (a short read sets the error), then the rectangle. */
  function NextRect(input: seq<byte>, s: Screen, W: nat, H: nat, fmt: PixelFormat): (r: Outcome<Screen>)
    requires s.pos <= |input| && |s.fb| == 3 * W * H
    ensures r.Exit? ==> r.code == 11 && fmt.bitsPerPixel != 32
    ensures r.Done? ==> s.pos <= r.value.pos <= |input| && |r.value.fb| == |s.fb|
    ensures r.Done? ==> (r.value.shown == s.shown && r.value.fb == s.fb) || r.value.shown == s.shown + [r.value.fb]
    ensures r.Done? && !r.value.error ==> r.value.shown == s.shown + [r.value.fb]
  {
    var p := s.pos;
    var s1 := s.(pos := Advance(input, p, 12), error := s.error || Short(input, p, 12));
    Rect(input, s1, W, H, fmt, HeaderEncoding(input, p), HeaderX(input, p), HeaderY(input, p),
         HeaderW(input, p), HeaderH(input, p))
  }

  /** `count` rectangles; the loop stops after the first rectangle that leaves the error set. */
  function Rects(input: seq<byte>, s: Screen, W: nat, H: nat, fmt: PixelFormat, count: nat): (r: Outcome<Screen>)
    requires s.pos <= |input| && |s.fb| == 3 * W * H
    ensures r.Done? ==> s.pos <= r.value.pos <= |input| && |r.value.fb| == |s.fb|
    decreases count, 2
  {
    if count == 0 then Done(s) else RectsFrom(input, s, W, H, fmt, count)
  }

  /** At least one rectangle left: its header at s.pos, then the rectangle and the rest. */
  function RectsFrom(input: seq<byte>, s: Screen, W: nat, H: nat, fmt: PixelFormat, count: nat): (r: Outcome<Screen>)
    requires s.pos <= |input| && |s.fb| == 3 * W * H && count > 0
    ensures r.Done? ==> s.pos <= r.value.pos <= |input| && |r.value.fb| == |s.fb|
    decreases count, 1
  {
    var p := s.pos;
    RectThen(input, s.(pos := Advance(input, p, 12), error := s.error || Short(input, p, 12)), W, H, fmt,
             HeaderEncoding(input, p), HeaderX(input, p), HeaderY(input, p), HeaderW(input, p), HeaderH(input, p), count)
  }

  /** A rectangle after its header, then the rest unless it exits or fails. */
  function RectThen(input: seq<byte>, s: Screen, W: nat, H: nat, fmt: PixelFormat,
                    etype: u16, x: u16, y: u16, w: u16, h: u16, count: nat): (r: Outcome<Screen>)
    requires s.pos <= |input| && |s.fb| == 3 * W * H && count > 0
    ensures r.Done? ==> s.pos <= r.value.pos <= |input| && |r.value.fb| == |s.fb|
    decreases count, 0
  {
    match Rect(input, s, W, H, fmt, etype, x, y, w, h)
    case Exit(c) => Exit(c)
    case Done(s2) => if s2.error then Done(s2) else Rects(input, s2, W, H, fmt, count - 1)
  }

  /** One step of the rectangle loop: an exit or an error ends it, otherwise the rest follows. */
  lemma RectsNext(input: seq<byte>, s: Screen, W: nat, H: nat, fmt: PixelFormat, count: nat)
    requires s.pos <= |input| && |s.fb| == 3 * W * H && count > 0
    ensures var r := NextRect(input, s, W, H, fmt);
            (r.Exit? ==> Rects(input, s, W, H, fmt, count) == Exit(r.code))
            && (r.Done? && r.value.error ==> Rects(input, s, W, H, fmt, count) == r)
            && (r.Done? && !r.value.error ==> Rects(input, s, W, H, fmt, count) == Rects(input, r.value, W, H, fmt, count - 1))
  {
    var p := s.pos;
    var s1 := s.(pos := Advance(input, p, 12), error := s.error || Short(input, p, 12));
    assert Rects(input, s, W, H, fmt, count)
        == RectThen(input, s1, W, H, fmt, HeaderEncoding(input, p), HeaderX(input, p), HeaderY(input, p),
                    HeaderW(input, p), HeaderH(input, p), count);
  }

  /** A message from the server at s.pos: its type byte, then a FramebufferUpdate
      (a padding byte and the rectangle count), a ServerCutText (three padding
      bytes, the length, which above 32 MiB exits with status 9, and the text,
      read and dropped), or an unknown type, which sets the error. */
  function Incoming(input: seq<byte>, s: Screen, W: nat, H: nat, fmt: PixelFormat): (r: Outcome<Screen>)
    requires s.pos <= |input| && |s.fb| == 3 * W * H
    ensures r.Done? ==> s.pos <= r.value.pos <= |input| && |r.value.fb| == |s.fb|
    ensures r.Exit? ==> r.code == 9 || r.code == 11
  {
    var p1 := Advance(input, s.pos, 1);
    var error1 := s.error || Short(input, s.pos, 1);
    var msg := Window(input, s.pos, 1)[0];
    if msg == FramebufferUpdateType then
      var count := FromBE(Window(input, Advance(input, p1, 1), 2));
      var s3 := Screen(Advance(input, p1, 3), error1 || Short(input, p1, 3), s.fb, s.shown);
      RectsExit(input, s3, W, H, fmt, count);
      Rects(input, s3, W, H, fmt, count)
    else if msg == ServerCutTextType then
      Pow256Four();
      var n: u32 := FromBE(Window(input, Advance(input, p1, 3), 4));
      var p8 := Advance(input, p1, 7);
      if !CutTextAllowed(n) then Exit(9)
      else Done(s.(pos := Advance(input, p8, n), error := error1 || Short(input, p1, 7) || Short(input, p8, n)))
    else Done(s.(pos := p1, error := true))
  }

  // ---------------------------------------------------------------
  // Properties

  /** Rectangles only add frames: at most one each, after the ones shown
      before, and exactly one each when the message ends without an error. */
  lemma {:induction false} RectsShown(input: seq<byte>, s: Screen, W: nat, H: nat, fmt: PixelFormat, count: nat)
    requires s.pos <= |input| && |s.fb| == 3 * W * H
    ensures var r := Rects(input, s, W, H, fmt, count);
            r.Done? ==>
              |s.shown| <= |r.value.shown| <= |s.shown| + count
              && r.value.shown[..|s.shown|] == s.shown
              && (!r.value.error ==> |r.value.shown| == |s.shown| + count)
    decreases count
  {
    if count > 0 {
      RectsNext(input, s, W, H, fmt, count);
      var rr := NextRect(input, s, W, H, fmt);
      if rr.Done? && !rr.value.error {
        var s2 := rr.value;
        RectsShown(input, s2, W, H, fmt, count - 1);
        var r := Rects(input, s2, W, H, fmt, count - 1);
        if r.Done? {
          assert r.value.shown[..|s.shown|] == r.value.shown[..|s2.shown|][..|s.shown|];
          assert s2.shown[..|s.shown|] == s.shown;
        }
      } else if rr.Done? {
        assert rr.value.shown[..|s.shown|] == s.shown;
      }
    }
  }

  /** The only way rectangles end the client is a RAW rectangle in a pixel format other than 32 bits. */
  lemma {:induction false} RectsExit(input: seq<byte>, s: Screen, W: nat, H: nat, fmt: PixelFormat, count: nat)
    requires s.pos <= |input| && |s.fb| == 3 * W * H
    ensures Rects(input, s, W, H, fmt, count).Exit? ==> Rects(input, s, W, H, fmt, count).code == 11 && count > 0
                                                         && fmt.bitsPerPixel != 32
    decreases count
  {
    if count > 0 {
      RectsNext(input, s, W, H, fmt, count);
      var rr := NextRect(input, s, W, H, fmt);
      if rr.Done? && !rr.value.error {
        RectsExit(input, rr.value, W, H, fmt, count - 1);
      }
    }
  }

  /** The display is never stale: once the last frame shown is the
      framebuffer, it still is after any number of rectangles. */
  lemma {:induction false} RectsKeepCurrent(input: seq<byte>, s: Screen, W: nat, H: nat, fmt: PixelFormat, count: nat)
    requires s.pos <= |input| && |s.fb| == 3 * W * H
    requires Current(s)
    ensures Rects(input, s, W, H, fmt, count).Done? ==> Current(Rects(input, s, W, H, fmt, count).value)
    decreases count
  {
    if count > 0 {
      RectsNext(input, s, W, H, fmt, count);
      var rr := NextRect(input, s, W, H, fmt);
      if rr.Done? {
        assert Current(rr.value);
        if !rr.value.error {
          RectsKeepCurrent(input, rr.value, W, H, fmt, count - 1);
        }
      }
    }
  }

  /** A rectangle changes no byte outside itself. */
  lemma RectOutside(input: seq<byte>, s: Screen, W: nat, H: nat, fmt: PixelFormat,
                    etype: u16, x: u16, y: u16, w: u16, h: u16, k: nat)
    requires s.pos <= |input| && |s.fb| == 3 * W * H && k < |s.fb|
    requires !InRect(W, x, y, w, h, k)
    ensures var r := Rect(input, s, W, H, fmt, etype, x, y, w, h);
            r.Done? ==> r.value.fb[k] == s.fb[k]
  {
    var r := Rect(input, s, W, H, fmt, etype, x, y, w, h);
    if r.Done? && !s.error && etype == EncodingRaw && InBounds(W, H, x, y, w, h) {
      PaintAt(s.fb, W, H, x, y, w, ScratchLines(input, s.pos, 4 * w, h, Zeros(4 * w)), h, fmt, k);
    }
  }

  /** A RAW rectangle whose bytes are all there, in the 32-bit format: no
      error, the cursor moves past it, and pixel (x + j, y + i) holds the
      channels of the 32-bit pixel at input offset pos + 4*(w*i + j). */
  lemma RawRectPixel(input: seq<byte>, s: Screen, W: nat, H: nat, fmt: PixelFormat,
                     x: u16, y: u16, w: u16, h: u16, i: nat, j: nat, c: nat)
    requires s.pos <= |input| && |s.fb| == 3 * W * H && !s.error
    requires InBounds(W, H, x, y, w, h) && fmt.bitsPerPixel == 32 && s.pos + RawSize(w, h) <= |input|
    requires i < h && j < w && c < 3
    ensures var r := Rect(input, s, W, H, fmt, EncodingRaw, x, y, w, h);
            var q := s.pos + 4 * w * i + 4 * j;
            r.Done? && !r.value.error && r.value.pos == s.pos + RawSize(w, h)
            && RowBase(W, x, y + i) + 3 * j + c < |s.fb| && q + 4 <= |input|
            && r.value.fb[RowBase(W, x, y + i) + 3 * j + c] == Channel(Pixel32(input[q..q + 4]), ShiftOf(fmt, c))
  {
    RawRectWhole(input, s, W, H, fmt, x, y, w, h);
    RawPixel(s.fb, W, H, x, y, w, h, fmt, input, s.pos, i, j, c);
  }

  /** A rectangle header as a server puts it on the wire. */
  function HeaderMessage(x: u16, y: u16, w: u16, h: u16, etype: u32): (m: seq<byte>)
    ensures |m| == 12
  {
    BE16(x) + BE16(y) + BE16(w) + BE16(h) + BE32(etype)
  }

  /** Reading a header gives back the fields the server put in it, the encoding narrowed to 16 bits. */
  lemma HeaderRoundTrip(input: seq<byte>, p: nat, x: u16, y: u16, w: u16, h: u16, etype: u32)
    requires p + 12 <= |input| && input[p..p + 12] == HeaderMessage(x, y, w, h, etype)
    ensures HeaderX(input, p) == x && HeaderY(input, p) == y && HeaderW(input, p) == w && HeaderH(input, p) == h
    ensures HeaderEncoding(input, p) == etype % 0x1_0000
  {
    var m := HeaderMessage(x, y, w, h, etype);
    WindowOfMessage(input, p, m, 0, 12);
    assert m[0..12] == m;
    assert m[0..2] == BE16(x) && m[2..4] == BE16(y) && m[4..6] == BE16(w) && m[6..8] == BE16(h);
    assert m[8..12] == BE32(etype);
    BE16RoundTrip(x);
    BE16RoundTrip(y);
    BE16RoundTrip(w);
    BE16RoundTrip(h);
    BE32RoundTrip(etype);
  }

  /** A ServerCutText message as a server sends it. */
  function CutTextMessage(text: seq<byte>): (m: seq<byte>)
    requires |text| < 0x1_0000_0000
    ensures |m| == 8 + |text|
  {
    [ServerCutTextType, 0, 0, 0] + BE32(|text|) + text
  }

  /** A cut text of at most 32 MiB that arrives whole is read past without
      error; one longer than that ends the client with status 9 (even when
      the text itself is not there). */
  lemma CutTextHandled(input: seq<byte>, s: Screen, W: nat, H: nat, fmt: PixelFormat, text: seq<byte>)
    requires s.pos <= |input| && |s.fb| == 3 * W * H && |text| < 0x1_0000_0000
    requires s.pos + 8 <= |input| && input[s.pos..s.pos + 8] == CutTextMessage(text)[..8]
    ensures var r := Incoming(input, s, W, H, fmt);
            (|text| > MaxCutTextLength <==> r == Exit(9))
            && (|text| <= MaxCutTextLength && s.pos + 8 + |text| <= |input| ==>
                  r == Done(s.(pos := s.pos + 8 + |text|, error := s.error)))
  {
    var m := CutTextMessage(text)[..8];
    assert m == [ServerCutTextType, 0, 0, 0] + BE32(|text|);
    WindowOfMessage(input, s.pos, m, 0, 1);
    WindowOfMessage(input, s.pos, m, 4, 4);
    assert m[0..1] == [ServerCutTextType];
    FromBEOne([ServerCutTextType]);
    assert m[4..8] == BE32(|text|);
    BE32RoundTrip(|text|);
  }

  /** The text length the client accepts goes up to and including 32 MiB. */
  lemma CutTextLimit()
    ensures CutTextAllowed(MaxCutTextLength) && !CutTextAllowed(MaxCutTextLength + 1)
  {
  }

  /** A message of an unknown type sets the error after its type byte and changes nothing else. */
  lemma UnknownMessage(input: seq<byte>, s: Screen, W: nat, H: nat, fmt: PixelFormat)
    requires s.pos < |input| && |s.fb| == 3 * W * H
    requires input[s.pos] != FramebufferUpdateType && input[s.pos] != ServerCutTextType
    ensures Incoming(input, s, W, H, fmt) == Done(s.(pos := s.pos + 1, error := true))
  {
  }

  /** The head of a FramebufferUpdate message as a server sends it, for `count` rectangles. */
  function UpdateHead(count: u16): (m: seq<byte>)
    ensures |m| == 4
  {
    [FramebufferUpdateType, 0] + BE16(count)
  }

  /** The framebuffer after a whole RAW rectangle read from input position p. */
  function RawFrame(input: seq<byte>, p: nat, fb: seq<byte>, W: nat, H: nat, fmt: PixelFormat,
                    x: u16, y: u16, w: u16, h: u16): (r: seq<byte>)
    requires p <= |input| && |fb| == 3 * W * H && InBounds(W, H, x, y, w, h)
    ensures |r| == |fb|
  {
    Paint(fb, W, H, x, y, w, ScratchLines(input, p, 4 * w, h, Zeros(4 * w)), h, fmt)
  }

  /** Where a RAW rectangle in the 32-bit format stands after i of its h
      rows: the cursor and the error flag after the i*4*w bytes read from p0,
      the scratch line ready for the rows still to come, and the first i
      scratch lines painted over fb0. */
  predicate RawProgress(input: seq<byte>, p0: nat, e0: bool, fb0: seq<byte>, W: nat, H: nat, fmt: PixelFormat,
                        x: u16, y: u16, w: u16, h: u16, lines: seq<seq<byte>>, i: nat, consumed: nat,
                        dst: seq<byte>, pos: nat, error: bool, fb: seq<byte>)
  {
    p0 <= |input| && |fb0| == 3 * W * H && InBounds(W, H, x, y, w, h) && i <= h
    && |dst| == 4 * w && consumed == Times(4 * w, i) && |lines| == h && RowsWide(lines, w)
    && pos == Advance(input, p0, consumed) && error == (e0 || Short(input, p0, consumed))
    && lines[i..] == ScratchLines(input, pos, 4 * w, h - i, dst)
    && fb == Paint(fb0, W, H, x, y, w, lines, i, fmt)
  }

  /** One more row: its 4*w bytes read into the scratch line and the line blitted as row y + i. */
  lemma RawProgressNext(input: seq<byte>, p0: nat, e0: bool, fb0: seq<byte>, W: nat, H: nat, fmt: PixelFormat,
                        x: u16, y: u16, w: u16, h: u16, lines: seq<seq<byte>>, i: nat, consumed: nat,
                        dst: seq<byte>, pos: nat, error: bool, fb: seq<byte>,
                        line: seq<byte>, pos': nat, error': bool, fb': seq<byte>)
    requires RawProgress(input, p0, e0, fb0, W, H, fmt, x, y, w, h, lines, i, consumed, dst, pos, error, fb)
    requires i < h
    requires pos' == Advance(input, pos, |dst|) && error' == (error || Short(input, pos, |dst|))
    requires line == Refill(input, pos, |dst|, dst)
    requires RowBase(W, x, y + i) + 3 * w <= |fb| && 4 * w <= |line|
    requires fb' == BlitRow(fb, RowBase(W, x, y + i), line, w, fmt)
    ensures RawProgress(input, p0, e0, fb0, W, H, fmt, x, y, w, h, lines, i + 1, consumed + 4 * w, line,
                        pos', error', fb')
  {
    var n := 4 * w;
    RawNextLines(input, pos, n, h, dst, lines, i);
    RawNextPaint(fb0, W, H, fmt, x, y, w, h, lines, i, line, fb);
    RawNextCursor(input, p0, e0, n, i, consumed, pos, error, pos', error');
  }

  lemma RawNextCursor(input: seq<byte>, p0: nat, e0: bool, n: nat, i: nat, consumed: nat, pos: nat, error: bool,
                      pos': nat, error': bool)
    requires p0 <= |input| && consumed == Times(n, i)
    requires pos == Advance(input, p0, consumed) && error == (e0 || Short(input, p0, consumed))
    requires pos' == Advance(input, pos, n) && error' == (error || Short(input, pos, n))
    ensures consumed + n == Times(n, i + 1)
    ensures pos' == Advance(input, p0, consumed + n) && error' == (e0 || Short(input, p0, consumed + n))
  {
    AdvanceSplit(input, p0, consumed, n);
  }

  lemma RawNextLines(input: seq<byte>, pos: nat, n: nat, h: nat, dst: seq<byte>, lines: seq<seq<byte>>, i: nat)
    requires pos <= |input| && |dst| == n && i < h && |lines| == h
    requires lines[i..] == ScratchLines(input, pos, n, h - i, dst)
    ensures lines[i] == Refill(input, pos, n, dst)
    ensures lines[i + 1..] == ScratchLines(input, Advance(input, pos, n), n, h - (i + 1), Refill(input, pos, n, dst))
  {
    RawStep(input, pos, n, h - i, dst, lines, i);
  }

  lemma RawNextPaint(fb0: seq<byte>, W: nat, H: nat, fmt: PixelFormat, x: u16, y: u16, w: u16, h: u16,
                     lines: seq<seq<byte>>, i: nat, line: seq<byte>, fb: seq<byte>)
    requires |fb0| == 3 * W * H && InBounds(W, H, x, y, w, h) && i < h && |lines| == h && RowsWide(lines, w)
    requires lines[i] == line && fb == Paint(fb0, W, H, x, y, w, lines, i, fmt)
    ensures RowBase(W, x, y + i) + 3 * w <= |fb| && 4 * w <= |line|
    ensures BlitRow(fb, RowBase(W, x, y + i), line, w, fmt) == Paint(fb0, W, H, x, y, w, lines, i + 1, fmt)
  {
    PaintNextRow(fb0, W, H, x, y, w, lines, i, fmt);
  }

  /** Before the first row: nothing read, nothing painted, the scratch line all zeros. */
  lemma RawProgressStart(input: seq<byte>, p0: nat, e0: bool, fb0: seq<byte>, W: nat, H: nat, fmt: PixelFormat,
                         x: u16, y: u16, w: u16, h: u16)
    requires p0 <= |input| && |fb0| == 3 * W * H && InBounds(W, H, x, y, w, h)
    ensures RawProgress(input, p0, e0, fb0, W, H, fmt, x, y, w, h, ScratchLines(input, p0, 4 * w, h, Zeros(4 * w)),
                        0, 0, Zeros(4 * w), p0, e0, fb0)
  {
  }

  /** After all h rows the framebuffer holds the RAW frame and the cursor is past its 4*w*h bytes. */
  lemma RawProgressDone(input: seq<byte>, p0: nat, e0: bool, fb0: seq<byte>, W: nat, H: nat, fmt: PixelFormat,
                        x: u16, y: u16, w: u16, h: u16, consumed: nat, dst: seq<byte>, pos: nat, error: bool,
                        fb: seq<byte>)
    requires p0 <= |input|
    requires RawProgress(input, p0, e0, fb0, W, H, fmt, x, y, w, h, ScratchLines(input, p0, 4 * w, h, Zeros(4 * w)),
                         h, consumed, dst, pos, error, fb)
    ensures pos == Advance(input, p0, RawSize(w, h)) && error == (e0 || Short(input, p0, RawSize(w, h)))
    ensures fb == RawFrame(input, p0, fb0, W, H, fmt, x, y, w, h)
  {
    TimesIsProduct(4 * w, h);
  }

  /** A FramebufferUpdate of one whole RAW rectangle in the 32-bit format,
      from a server that follows the protocol: the client reads exactly the
      message, paints the scanlines that follow the header and shows the
      result, with no error. */
  lemma RawUpdateFromServer(input: seq<byte>, s: Screen, W: nat, H: nat, fmt: PixelFormat,
                            x: u16, y: u16, w: u16, h: u16)
    requires s.pos + 16 + RawSize(w, h) <= |input| && |s.fb| == 3 * W * H && !s.error
    requires InBounds(W, H, x, y, w, h) && fmt.bitsPerPixel == 32
    requires input[s.pos..s.pos + 4] == UpdateHead(1)
    requires input[s.pos + 4..s.pos + 16] == HeaderMessage(x, y, w, h, 0)
    ensures var fb := RawFrame(input, s.pos + 16, s.fb, W, H, fmt, x, y, w, h);
            Incoming(input, s, W, H, fmt) == Done(Screen(s.pos + 16 + RawSize(w, h), false, fb, s.shown + [fb]))
  {
    var s1 := s.(pos := s.pos + 4);
    var s2 := s1.(pos := s1.pos + 12);
    var fb := RawFrame(input, s.pos + 16, s.fb, W, H, fmt, x, y, w, h);
    var s3 := Screen(s.pos + 16 + RawSize(w, h), false, fb, s.shown + [fb]);
    IncomingUpdate(input, s, W, H, fmt, 1);
    NextRectFromHeader(input, s1, W, H, fmt, x, y, w, h, 0);
    assert Rect(input, s2, W, H, fmt, 0 % 0x1_0000, x, y, w, h) == Rect(input, s2, W, H, fmt, EncodingRaw, x, y, w, h);
    RawRectWhole(input, s2, W, H, fmt, x, y, w, h);
    assert Screen(s2.pos + RawSize(w, h), false, fb, s2.shown + [fb]) == s3;
    RectsNext(input, s1, W, H, fmt, 1);
    assert Rects(input, s3, W, H, fmt, 0) == Done(s3);
  }

  /** A FramebufferUpdate head leaves the cursor after its four bytes and
      hands the rest to the rectangle loop with the server's count. */
  lemma IncomingUpdate(input: seq<byte>, s: Screen, W: nat, H: nat, fmt: PixelFormat, count: u16)
    requires s.pos + 4 <= |input| && |s.fb| == 3 * W * H
    requires input[s.pos..s.pos + 4] == UpdateHead(count)
    ensures Incoming(input, s, W, H, fmt) == Rects(input, s.(pos := s.pos + 4), W, H, fmt, count)
  {
    UpdateHeadRead(input, s.pos, count);
  }

  /** A rectangle whose header is all there is drawn with the header's own fields. */
  lemma NextRectFromHeader(input: seq<byte>, s: Screen, W: nat, H: nat, fmt: PixelFormat,
                           x: u16, y: u16, w: u16, h: u16, etype: u32)
    requires s.pos + 12 <= |input| && |s.fb| == 3 * W * H
    requires input[s.pos..s.pos + 12] == HeaderMessage(x, y, w, h, etype)
    ensures NextRect(input, s, W, H, fmt) == Rect(input, s.(pos := s.pos + 12), W, H, fmt, etype % 0x1_0000, x, y, w, h)
  {
    HeaderRoundTrip(input, s.pos, x, y, w, h, etype);
  }

  /** The head of an update message: the type byte and the rectangle count. */
  lemma UpdateHeadRead(input: seq<byte>, p: nat, count: u16)
    requires p + 4 <= |input| && input[p..p + 4] == UpdateHead(count)
    ensures Window(input, p, 1)[0] == FramebufferUpdateType
    ensures FromBE(Window(input, p + 2, 2)) == count
  {
    var m := UpdateHead(count);
    WindowOfMessage(input, p, m, 0, 1);
    WindowOfMessage(input, p, m, 2, 2);
    assert m[0..1] == [FramebufferUpdateType];
    assert m[2..4] == BE16(count);
    BE16RoundTrip(count);
  }

  /** A RAW rectangle whose bytes are all there, in the 32-bit format. */
  lemma RawRectWhole(input: seq<byte>, s: Screen, W: nat, H: nat, fmt: PixelFormat, x: u16, y: u16, w: u16, h: u16)
    requires s.pos + RawSize(w, h) <= |input| && |s.fb| == 3 * W * H && !s.error
    requires InBounds(W, H, x, y, w, h) && fmt.bitsPerPixel == 32
    ensures var fb := RawFrame(input, s.pos, s.fb, W, H, fmt, x, y, w, h);
            Rect(input, s, W, H, fmt, EncodingRaw, x, y, w, h)
            == Done(Screen(s.pos + RawSize(w, h), false, fb, s.shown + [fb]))
  {
    MulMonotone(0, h, 4 * w);
  }
}
