/** The connection object of the client and the protocol engine that drives
    it: the byte transport with its sticky error flag, the handshake, the
    client messages, the decoding of rectangles into the framebuffer and the
    step of the main loop.  Every field the client updates in place is a
    field of `Connection`; the framebuffer is an array the blit writes. */
module Client {
  import opened Wire
  import opened Stream
  import opened Messages
  import Version
  import opened Handshake
  import opened Framebuffer
  import opened Viewport
  import opened Updates

  class Connection {
    /** Everything the server will send, and the cursor of the next read. */
    const input: seq<byte>
    var pos: nat
    /** Everything written so far; the server accepts at most outCap bytes. */
    var output: seq<byte>
    const outCap: nat
    /** Set by a short read, a short write or a protocol error; nothing clears it. */
    var hasError: bool

    var major: int
    var minor: int
    var authType: int
    var sharedFlag: byte
    var width: int
    var height: int
    var fmt: PixelFormat
    var name: seq<byte>
    var rgb: array<byte>
    var lastUpdateRequest: UpdateRequest
    var view: View
    /** The framebuffer contents at each call of the expose callback, oldest
        first; each call also gets the current view and the stride 3*width. */
    ghost var shown: seq<seq<byte>>

    ghost predicate Valid()
      reads this
    {
      pos <= |input| && |output| <= outCap
    }

    /** The fields hold what a ServerInit that starts at input position p
        carries, the name was accepted and the cursor is just past it. */
    ghost predicate HoldsServerInit(p: nat)
      requires p <= |input|
      reads this
    {
      var p4 := Advance(input, p, 4);
      var p20 := Advance(input, p4, 16);
      var n := S32(FromBE(Window(input, p20, 4)));
      width == FromBE(Window(input, p, 2))
      && height == FromBE(Window(input, Advance(input, p, 2), 2))
      && fmt == DecodePixelFormat(Window(input, p4, 16))
      && n <= MaxNameLength && name == Window(input, Advance(input, p20, 4), NameBytes(n))
      && pos == Advance(input, p20, 4 + NameBytes(n))
    }

    /** After a successful initialisation: the framebuffer holds 3*width*height bytes. */
    ghost predicate Ready()
      reads this
    {
      Valid() && 0 <= width < 0x1_0000 && 0 <= height < 0x1_0000 && rgb.Length == 3 * width * height
    }

    /** What the server messages act on, as a value. */
    ghost function ScreenState(): (s: Screen)
      reads this, rgb
      ensures s.pos == pos && s.error == hasError && s.fb == rgb[..] && s.shown == shown
    {
      Screen(pos, hasError, rgb[..], shown)
    }

    /** The connection as a fresh connect leaves it: nothing read or written,
        no error, the initial 32x32 view with a full update pending, the
        shared flag set, every other field zero. */
    constructor (input: seq<byte>, outCap: nat)
      ensures Valid()
      ensures this.input == input && this.outCap == outCap && pos == 0 && output == [] && !hasError
      ensures view == InitialView && sharedFlag == 1 && authType == 0 && major == 0 && minor == 0
      ensures width == 0 && height == 0 && name == [] && rgb.Length == 0 && shown == []
    {
      this.input := input;
      this.outCap := outCap;
      pos := 0;
      output := [];
      hasError := false;
      major, minor, authType := 0, 0, 0;
      sharedFlag := 1;
      width, height := 0, 0;
      fmt := PixelFormat(0, 0, 0, 0, 0, 0, 0, 0, 0, 0);
      name := [];
      rgb := new byte[0];
      lastUpdateRequest := UpdateRequest(false, 0, 0, 0, 0);
      view := InitialView;
      shown := [];
    }

    // ---------------------------------------------------------------
    // Transport

    /** `read(len)`: delivers the bytes the input still has, up to len; a read
        that comes up short sets the error and returns -1, otherwise the
        number of bytes read. */
    method Read(len: int) returns (got: seq<byte>, r: int)
      requires Valid()
      modifies this`pos, this`hasError
      ensures Valid()
      ensures pos == Advance(input, old(pos), len) && got == input[old(pos)..pos]
      ensures hasError == (old(hasError) || Short(input, old(pos), len))
      ensures r == if Short(input, old(pos), len) then -1 else |got|
    {
      got := [];
      r := 0;
      var remaining := len;
      while remaining > 0
        invariant old(pos) <= pos <= |input|
        invariant got == input[old(pos)..pos] && r == |got|
        invariant remaining == len - |got| && (len > 0 ==> remaining >= 0) && (len <= 0 ==> got == [])
        invariant hasError == old(hasError)
        decreases remaining
      {
        if pos == |input| {
          hasError := true;
          r := -1;
          return;
        }
        got := got + [input[pos]];
        pos := pos + 1;
        remaining := remaining - 1;
        r := r + 1;
      }
    }

    /** `read(n)` into an n-byte value that starts at zero: the window. */
    method ReadField(n: nat) returns (buf: seq<byte>)
      requires Valid()
      modifies this`pos, this`hasError
      ensures Valid()
      ensures buf == Window(input, old(pos), n) && pos == Advance(input, old(pos), n)
      ensures hasError == (old(hasError) || Short(input, old(pos), n))
    {
      var got, r := Read(n);
      WindowIsDeliveredThenZeros(input, old(pos), n);
      buf := got + Zeros(n - |got|);
      if r != n {
        hasError := true;
      }
    }

    method ReadU8() returns (v: byte)
      requires Valid()
      modifies this`pos, this`hasError
      ensures Valid()
      ensures v == Window(input, old(pos), 1)[0] && pos == Advance(input, old(pos), 1)
      ensures hasError == (old(hasError) || Short(input, old(pos), 1))
    {
      var buf := ReadField(1);
      v := buf[0];
    }

    method ReadU16() returns (v: u16)
      requires Valid()
      modifies this`pos, this`hasError
      ensures Valid()
      ensures v == FromBE(Window(input, old(pos), 2)) && pos == Advance(input, old(pos), 2)
      ensures hasError == (old(hasError) || Short(input, old(pos), 2))
    {
      var buf := ReadField(2);
      v := FromBE(buf);
    }

    method ReadU32() returns (v: u32)
      requires Valid()
      modifies this`pos, this`hasError
      ensures Valid()
      ensures v == FromBE(Window(input, old(pos), 4)) && pos == Advance(input, old(pos), 4)
      ensures hasError == (old(hasError) || Short(input, old(pos), 4))
    {
      var buf := ReadField(4);
      Pow256Four();
      v := FromBE(buf);
    }

    method ReadS32() returns (v: int)
      requires Valid()
      modifies this`pos, this`hasError
      ensures Valid()
      ensures v == S32(FromBE(Window(input, old(pos), 4))) && pos == Advance(input, old(pos), 4)
      ensures hasError == (old(hasError) || Short(input, old(pos), 4))
    {
      var u := ReadU32();
      v := S32(u);
    }

    /** `write(data)`: the server takes what it still accepts; a write that
        comes up short sets the error and returns -1, otherwise the length. */
    method Write(data: seq<byte>) returns (r: int)
      requires Valid()
      modifies this`output, this`hasError
      ensures Valid()
      ensures output == Emit(old(output), outCap, data)
      ensures hasError == (old(hasError) || Overflows(old(output), outCap, data))
      ensures r == if Overflows(old(output), outCap, data) then -1 else |data|
    {
      var i := 0;
      while i < |data|
        invariant 0 <= i <= |data|
        invariant output == old(output) + data[..i] && |output| <= outCap
        invariant hasError == old(hasError)
      {
        if |output| == outCap {
          hasError := true;
          r := -1;
          return;
        }
        output := output + [data[i]];
        i := i + 1;
      }
      assert data[..i] == data;
      r := |data|;
    }

    method WriteU8(v: byte) returns (r: int)
      requires Valid()
      modifies this`output, this`hasError
      ensures Valid()
      ensures output == Emit(old(output), outCap, [v])
      ensures hasError == (old(hasError) || Overflows(old(output), outCap, [v]))
    {
      r := Write([v]);
    }

    /** write_u16 takes a 32-bit value; htons keeps its low 16 bits. */
    method WriteU16(v: u32) returns (r: int)
      requires Valid()
      modifies this`output, this`hasError
      ensures Valid()
      ensures output == Emit(old(output), outCap, BE16(U16(v)))
      ensures hasError == (old(hasError) || Overflows(old(output), outCap, BE16(U16(v))))
    {
      r := Write(BE16(U16(v)));
    }

    method WriteU32(v: u32) returns (r: int)
      requires Valid()
      modifies this`output, this`hasError
      ensures Valid()
      ensures output == Emit(old(output), outCap, BE32(v))
      ensures hasError == (old(hasError) || Overflows(old(output), outCap, BE32(v)))
    {
      r := Write(BE32(v));
    }

    /** write_s32: the int32 value travels as its two's-complement pattern. */
    method WriteS32(v: int) returns (r: int)
      requires Valid() && -0x8000_0000 <= v < 0x8000_0000
      modifies this`output, this`hasError
      ensures Valid()
      ensures output == Emit(old(output), outCap, BE32(U32(v)))
      ensures hasError == (old(hasError) || Overflows(old(output), outCap, BE32(U32(v))))
    {
      r := Write(BE32(U32(v)));
    }
 
    // ---------------------------------------------------------------
    // Framebuffer updates

    /** `validate_boundary`: a rectangle reaching past the framebuffer sets the error. */
    method ValidateBoundary(x: u16, y: u16, w: u16, h: u16) returns (ok: bool)
      modifies this`hasError
      ensures hasError == (old(hasError) || !InBounds(width, height, x, y, w, h))
      ensures ok == !hasError
    {
      if x + w > width || y + h > height {
        hasError := true;
      }
      ok := !hasError;
    }

    /** The inner loop of the blit: the w pixels of one scanline, each
        turned into its red, green and blue bytes at d, d+1, d+2, ... */
    method BlitLine(row: seq<byte>, d: nat, w: nat) returns (d': nat)
      requires 4 * w == |row| && d + 3 * w <= rgb.Length
      modifies rgb
      ensures d' == d + 3 * w
      ensures rgb[..] == BlitRow(old(rgb[..]), d, row, w, fmt)
    {
      ghost var fb0 := rgb[..];
      d' := d;
      var j := 0;
      while j < w
        invariant 0 <= j <= w && d' == d + 3 * j
        invariant rgb[..] == BlitRow(fb0, d, row, j, fmt)
      {
        BlitRowStep(fb0, d, row, j, fmt);
        PutPixel(d', Pixel32(row[4 * j..4 * j + 4]));
        d', j := d' + 3, j + 1;
      }
    }

    /** One pixel of the blit: its red, green and blue bytes at d, d+1, d+2. */
    method PutPixel(d: nat, v: u32)
      requires d + 3 <= rgb.Length
      modifies rgb
      ensures rgb[..] == old(rgb[..])[d := Channel(v, fmt.redShift)][d + 1 := Channel(v, fmt.greenShift)]
                                     [d + 2 := Channel(v, fmt.blueShift)]
    {
      rgb[d] := Channel(v, fmt.redShift);
      rgb[d + 1] := Channel(v, fmt.greenShift);
      rgb[d + 2] := Channel(v, fmt.blueShift);
    }

    /** `blt`: h scanlines of w 32-bit pixels from `line` painted at (x, y),
        the destination moving on by a framebuffer row after each; any other
        pixel size exits with status 11 and writes nothing. */
    method Blt(line: seq<byte>, x: nat, y: nat, w: nat, h: nat) returns (o: Outcome<()>)
      requires Ready() && x + w <= width && y + h <= height
      requires fmt.bitsPerPixel == 32 ==> 4 * w * h <= |line|
      modifies rgb
      ensures fmt.bitsPerPixel != 32 ==> o == Exit(11) && rgb[..] == old(rgb[..])
      ensures fmt.bitsPerPixel == 32 ==>
                o == Done(()) && rgb[..] == Paint(old(rgb[..]), width, height, x, y, w, Scanlines(line, w, h), h, fmt)
    {
      if fmt.bitsPerPixel != 32 {
        return Exit(11);
      }
      ghost var fb0 := rgb[..];
      var s: nat, d: nat := 0, RowBase(width, x, y);
      var row := 0;
      while row < h
        invariant 0 <= row <= h && s == 4 * w * row && d == RowBase(width, x, y + row)
        invariant rgb[..] == Paint(fb0, width, height, x, y, w, Scanlines(line, w, h), row, fmt)
      {
        s, d := BltRow(fb0, line, s, d, x, y, w, h, row);
        row := row + 1;
      }
      o := Done(());
    }

    /** One pass of the row loop of `blt`: the scanline at s painted at d,
        then the destination moved on to the start of the next row. */
    method BltRow(ghost fb0: seq<byte>, line: seq<byte>, s: nat, d: nat, x: nat, y: nat, w: nat, h: nat, row: nat)
      returns (s': nat, d': nat)
      requires Ready() && x + w <= width && y + h <= height && row < h && 4 * w * h <= |line|
      requires s == 4 * w * row && d == RowBase(width, x, y + row) && |fb0| == rgb.Length
      requires rgb[..] == Paint(fb0, width, height, x, y, w, Scanlines(line, w, h), row, fmt)
      modifies rgb
      ensures s' == 4 * w * (row + 1) && d' == RowBase(width, x, y + row + 1)
      ensures rgb[..] == Paint(fb0, width, height, x, y, w, Scanlines(line, w, h), row + 1, fmt)
    {
      PaintNextRow(fb0, width, height, x, y, w, Scanlines(line, w, h), row, fmt);
      ScanlineAt(line, w, h, row);
      var d1 := BlitLine(line[s..s + 4 * w], d, w);
      s' := s + 4 * w;
      RowBaseNext(width, x, y + row, w, d);
      d' := d1 + width * 3 - w * 3;
    }

    /** `raw_update`: one scratch line of w*(bpp/8) bytes, taken as zeroed;
        for each of the h rows, a read into it (a short read leaves the tail
        of the previous contents) and a one-row blit.  In any format but the
        32-bit one the first blit exits, so only the first row is read. */
    method RawUpdate(x: u16, y: u16, w: u16, h: u16) returns (o: Outcome<()>)
      requires Ready() && InBounds(width, height, x, y, w, h)
      modifies this`pos, this`hasError, rgb
      ensures Ready()
      ensures h > 0 && fmt.bitsPerPixel != 32 ==> o == Exit(11)
      ensures !(h > 0 && fmt.bitsPerPixel != 32) ==>
                o == Done(()) && pos == Advance(input, old(pos), RawSize(w, h))
                && hasError == (old(hasError) || Short(input, old(pos), RawSize(w, h)))
                && rgb[..] == RawFrame(input, old(pos), old(rgb[..]), width, height, fmt, x, y, w, h)
    {
      if fmt.bitsPerPixel == 32 {
        RawRows(x, y, w, h);
        o := Done(());
      } else if h > 0 {
        var _, u := RawRow(Zeros(w * (fmt.bitsPerPixel / 8)), x, y, w);
        o := u;
      } else {
        o := Done(());
      }
    }

    /** The row loop of `raw_update` in the 32-bit format, where the scratch line holds 4*w bytes. */
    method RawRows(x: u16, y: u16, w: u16, h: u16)
      requires Ready() && InBounds(width, height, x, y, w, h) && fmt.bitsPerPixel == 32
      modifies this`pos, this`hasError, rgb
      ensures Ready()
      ensures pos == Advance(input, old(pos), RawSize(w, h))
      ensures hasError == (old(hasError) || Short(input, old(pos), RawSize(w, h)))
      ensures rgb[..] == RawFrame(input, old(pos), old(rgb[..]), width, height, fmt, x, y, w, h)
    {
      ghost var p0, e0, fb0 := pos, hasError, rgb[..];
      var dst := Zeros(4 * w);
      ghost var lines := ScratchLines(input, p0, 4 * w, h, dst);
      ghost var consumed: nat := 0;
      RawProgressStart(input, p0, e0, fb0, width, height, fmt, x, y, w, h);
      var i := 0;
      while i < h
        invariant Ready() && RawProgress(input, p0, e0, fb0, width, height, fmt, x, y, w, h,
                                         lines, i, consumed, dst, pos, hasError, rgb[..])
      {
        dst := RawNext(p0, e0, fb0, lines, x, y, w, h, i, consumed, dst);
        consumed := consumed + 4 * w;
        i := i + 1;
      }
      RawProgressDone(input, p0, e0, fb0, width, height, fmt, x, y, w, h, consumed, dst, pos, hasError, rgb[..]);
    }

    /** Row i of `raw_update`: one more row read and painted. */
    method RawNext(ghost p0: nat, ghost e0: bool, ghost fb0: seq<byte>, ghost lines: seq<seq<byte>>,
                   x: u16, y: u16, w: u16, h: u16, i: nat, ghost consumed: nat, dst: seq<byte>)
      returns (line: seq<byte>)
      requires Ready() && fmt.bitsPerPixel == 32 && i < h
      requires RawProgress(input, p0, e0, fb0, width, height, fmt, x, y, w, h, lines, i, consumed, dst, pos, hasError, rgb[..])
      modifies this`pos, this`hasError, rgb
      ensures Ready()
      ensures RawProgress(input, p0, e0, fb0, width, height, fmt, x, y, w, h, lines, i + 1, consumed + 4 * w, line,
                          pos, hasError, rgb[..])
    {
      ghost var p, e, fb := pos, hasError, rgb[..];
      assert |dst| == w * (fmt.bitsPerPixel / 8);
      var o;
      line, o := RawRow(dst, x, y + i, w);
      RawProgressNext(input, p0, e0, fb0, width, height, fmt, x, y, w, h, lines, i, consumed, dst, p, e, fb,
                      line, pos, hasError, rgb[..]);
    }

    /** One row of `raw_update`: the read into the scratch line, then the blit of that line as row y. */
    method RawRow(dst: seq<byte>, x: nat, y: nat, w: nat) returns (line: seq<byte>, o: Outcome<()>)
      requires Ready() && x + w <= width && y < height && |dst| == w * (fmt.bitsPerPixel / 8)
      modifies this`pos, this`hasError, rgb
      ensures Ready()
      ensures pos == Advance(input, old(pos), |dst|) && hasError == (old(hasError) || Short(input, old(pos), |dst|))
      ensures line == Refill(input, old(pos), |dst|, dst)
      ensures fmt.bitsPerPixel != 32 ==> o == Exit(11)
      ensures fmt.bitsPerPixel == 32 ==>
                o == Done(()) && RowBase(width, x, y) + 3 * w <= rgb.Length
                && rgb[..] == BlitRow(old(rgb[..]), RowBase(width, x, y), line, w, fmt)
    {
      var got, _ := Read(|dst|);
      line := got + dst[|got|..];
      o := Blt(line, x, y, w, 1);
      if fmt.bitsPerPixel == 32 {
        PaintOne(old(rgb[..]), width, height, x, y, w, line, fmt);
      }
    }

    /** `copyrect_update`: the source position is read; the copy itself is not implemented. */
    method CopyRectUpdate()
      requires Valid()
      modifies this`pos, this`hasError
      ensures Valid()
      ensures pos == Advance(input, old(pos), 4) && hasError == (old(hasError) || Short(input, old(pos), 4))
    {
      var _ := ReadU16();
      var _ := ReadU16();
      AdvanceSplit(input, old(pos), 2, 2);
    }

    /** `update`: the expose callback shows the view out of the framebuffer. */
    method Expose()
      modifies this`shown
      ensures shown == old(shown) + [rgb[..]]
    {
      shown := shown + [rgb[..]];
    }

    /** `framebuffer_update`: one rectangle, with its encoding narrowed to 16
        bits by the caller; the result is whether no error is set. */
    method FramebufferUpdate(etype: u16, x: u16, y: u16, w: u16, h: u16) returns (o: Outcome<bool>)
      requires Ready()
      modifies this`pos, this`hasError, rgb, this`shown
      ensures Ready()
      ensures var r := Rect(input, old(ScreenState()), width, height, fmt, etype, x, y, w, h);
              (r.Exit? ==> o == Exit(r.code)) && (r.Done? ==> o == Done(!r.value.error) && ScreenState() == r.value)
    {
      if hasError {
        return Done(false);
      }
      if etype == EncodingRaw {
        var ok := ValidateBoundary(x, y, w, h);
        if ok {
          var u := RawUpdate(x, y, w, h);
          if u.Exit? {
            return Exit(u.code);
          }
          Expose();
        }
      } else if etype == EncodingCopyRect {
        var ok := ValidateBoundary(x, y, w, h);
        if ok {
          CopyRectUpdate();
          Expose();
        }
      } else {
        hasError := true;
      }
      o := Done(!hasError);
    }

    /** The 12-byte header of a rectangle: x, y, width and height as u16 reads, then the encoding as an s32 read. */
    method ReadRectHeader() returns (x: u16, y: u16, w: u16, h: u16, etype: int)
      requires Valid()
      modifies this`pos, this`hasError
      ensures Valid()
      ensures x == HeaderX(input, old(pos)) && y == HeaderY(input, old(pos))
      ensures w == HeaderW(input, old(pos)) && h == HeaderH(input, old(pos))
      ensures U16(etype) == HeaderEncoding(input, old(pos))
      ensures pos == Advance(input, old(pos), 12) && hasError == (old(hasError) || Short(input, old(pos), 12))
    {
      ghost var p0 := pos;
      Field(input, p0, 12, 0, 2);
      x := ReadU16();
      Field(input, p0, 12, 2, 2);
      y := ReadU16();
      Field(input, p0, 12, 4, 2);
      w := ReadU16();
      Field(input, p0, 12, 6, 2);
      h := ReadU16();
      Field(input, p0, 12, 8, 4);
      etype := ReadS32();
    }

    /** One pass of the rectangle loop: the header, then the rectangle,
        stated as the first of the k rectangles still to come. */
    method NextRect(ghost k: nat) returns (o: Outcome<bool>)
      requires Ready() && k > 0
      modifies this`pos, this`hasError, rgb, this`shown
      ensures Ready()
      ensures var r := Rects(input, old(Screen(pos, hasError, rgb[..], shown)), width, height, fmt, k);
              (o.Exit? ==> r == Exit(o.code))
              && (o == Done(false) ==> hasError && r == Done(Screen(pos, hasError, rgb[..], shown)))
              && (o == Done(true) ==> !hasError && r == Rects(input, Screen(pos, hasError, rgb[..], shown), width, height, fmt, k - 1))
    {
      RectsNext(input, Screen(pos, hasError, rgb[..], shown), width, height, fmt, k);
      var x, y, w, h, etype := ReadRectHeader();
      o := FramebufferUpdate(U16(etype), x, y, w, h);
    }

    /** The rectangle loop of FramebufferUpdate: `count` rectangles, leaving
        the loop at the first one that fails. */
    method ReadRects(count: u16) returns (o: Outcome<bool>)
      requires Ready()
      modifies this`pos, this`hasError, rgb, this`shown
      ensures Ready()
      ensures var r := Rects(input, old(Screen(pos, hasError, rgb[..], shown)), width, height, fmt, count);
              (r.Exit? ==> o == Exit(r.code)) && (r.Done? ==> o == Done(!r.value.error) && Screen(pos, hasError, rgb[..], shown) == r.value)
    {
      ghost var s := Screen(pos, hasError, rgb[..], shown);
      ghost var goal := Rects(input, old(Screen(pos, hasError, rgb[..], shown)), width, height, fmt, count);
      var left: nat := count;
      while left > 0
        invariant Ready() && s == Screen(pos, hasError, rgb[..], shown)
        invariant goal == Rects(input, s, width, height, fmt, left)
      {
        var r := NextRect(left);
        s := Screen(pos, hasError, rgb[..], shown);
        if r.Exit? {
          return Exit(r.code);
        }
        if !r.value {
          return Done(false);
        }
        left := left - 1;
      }
      assert goal == Done(s);
      o := Done(!hasError);
    }

    // ---------------------------------------------------------------
    // Handshake


    /** The 16-byte PixelFormat record of ServerInit, read field by field in
        its three groups: the header bytes, the channel maxima, the shifts
        and the padding. */
    method ReadPixelFormat() returns (f: PixelFormat)
      requires Valid()
      modifies this`pos, this`hasError
      ensures Valid()
      ensures f == DecodePixelFormat(Window(input, old(pos), 16))
      ensures pos == Advance(input, old(pos), 16)
      ensures hasError == (old(hasError) || Short(input, old(pos), 16))
    {
      ghost var p0 := pos;
      var bpp, depth, order, trueColor := ReadFormatHeader();
      Field(input, p0, 16, 4, 6);
      var redMax, greenMax, blueMax := ReadChannelMaxima();
      Field(input, p0, 16, 10, 6);
      var redShift, greenShift, blueShift := ReadChannelShifts();
      PixelFormatGroups(input, p0);
      f := PixelFormat(bpp, depth, if order != 0 then BigEndianTag else LittleEndianTag, trueColor,
                       redMax, greenMax, blueMax, redShift, greenShift, blueShift);
    }

    /** Bits per pixel, depth, the big-endian flag and the true-colour flag: four u8 reads. */
    method ReadFormatHeader() returns (bpp: byte, depth: byte, order: byte, trueColor: byte)
      requires Valid()
      modifies this`pos, this`hasError
      ensures Valid()
      ensures [bpp, depth, order, trueColor] == Window(input, old(pos), 4)
      ensures pos == Advance(input, old(pos), 4)
      ensures hasError == (old(hasError) || Short(input, old(pos), 4))
    {
      ghost var p0, w := pos, Window(input, pos, 4);
      bpp := ReadU8();
      FieldByte(input, p0, 4, 0);
      depth := ReadU8();
      FieldByte(input, p0, 4, 1);
      order := ReadU8();
      FieldByte(input, p0, 4, 2);
      trueColor := ReadU8();
      FieldByte(input, p0, 4, 3);
    }

    /** The red, green and blue maxima: three u16 reads. */
    method ReadChannelMaxima() returns (redMax: u16, greenMax: u16, blueMax: u16)
      requires Valid()
      modifies this`pos, this`hasError
      ensures Valid()
      ensures var w := Window(input, old(pos), 6);
              redMax == FromBE(w[0..2]) && greenMax == FromBE(w[2..4]) && blueMax == FromBE(w[4..6])
      ensures pos == Advance(input, old(pos), 6)
      ensures hasError == (old(hasError) || Short(input, old(pos), 6))
    {
      ghost var p0 := pos;
      Field(input, p0, 6, 0, 2);
      redMax := ReadU16();
      Field(input, p0, 6, 2, 2);
      greenMax := ReadU16();
      Field(input, p0, 6, 4, 2);
      blueMax := ReadU16();
    }

    /** The red, green and blue shifts (three u8 reads), then three bytes of padding. */
    method ReadChannelShifts() returns (redShift: byte, greenShift: byte, blueShift: byte)
      requires Valid()
      modifies this`pos, this`hasError
      ensures Valid()
      ensures [redShift, greenShift, blueShift] == Window(input, old(pos), 6)[..3]
      ensures pos == Advance(input, old(pos), 6)
      ensures hasError == (old(hasError) || Short(input, old(pos), 6))
    {
      ghost var p0 := pos;
      redShift := ReadU8();
      FieldByte(input, p0, 6, 0);
      greenShift := ReadU8();
      FieldByte(input, p0, 6, 1);
      blueShift := ReadU8();
      FieldByte(input, p0, 6, 2);
      var _, _ := Read(3);
      AdvanceSplit(input, p0, 3, 3);
    }

    /** The ProtocolVersion phase: read the 12-byte banner (into a buffer
        taken as zeroed), exit with status 2 when it does not parse and 3
        when it is older than 3.3, settle on the version to use and echo it. */
    method VersionExchange() returns (o: Outcome<()>)
      requires Valid()
      modifies this`pos, this`hasError, this`output, this`major, this`minor
      ensures Valid()
      ensures pos == Advance(input, old(pos), 12)
      ensures var r := Version.Exchange(Window(input, old(pos), 12));
              (r.BadBanner? ==> o == Exit(2)) && (r.TooOld? ==> o == Exit(3))
              && (r.Agreed? ==>
                    o == Done(()) && major == r.major && minor == r.minor
                    && output == Emit(old(output), outCap, Version.FormatBanner(r.major, r.minor))
                    && hasError == (old(hasError) || Short(input, old(pos), 12)
                                    || Overflows(old(output), outCap, Version.FormatBanner(r.major, r.minor))))
    {
      var got, _ := Read(12);
      WindowIsDeliveredThenZeros(input, old(pos), 12);
      var banner := got + Zeros(12 - |got|);
      match Version.ParseBanner(banner)
      case None =>
        return Exit(2);
      case Some((ma, mi)) =>
        major, minor := ma, mi;
        if Version.Before(major, minor, 3, 3) {
          return Exit(3);
        } else if Version.Before(major, minor, 3, 7) {
          minor := 3;
        } else if Version.After(major, minor, 3, 8) {
          major, minor := 3, 8;
        }
        var _ := Write(Version.FormatBanner(major, minor));
        return Done(());
    }

    /** SecurityResult: a zero word is success; otherwise, from 3.8 on, the
        reason string is read (its length must be 1..1023, or exit 4) and the
        result is failure. */
    method CheckAuthResult() returns (o: Outcome<bool>)
      requires Valid()
      modifies this`pos, this`hasError
      ensures Valid()
      ensures var e := SecurityResult(input, old(pos), minor);
              o == e.outcome
              && (o.Done? ==> pos == Advance(input, old(pos), e.need)
                              && hasError == (old(hasError) || Short(input, old(pos), e.need)))
    {
      ghost var p0 := pos;
      var result := ReadU32();
      if result == 0 {
        return Done(true);
      }
      if minor >= 8 {
        var raw := ReadU32();
        var len := S32(raw);
        AdvanceSplit(input, p0, 4, 4);
        if len < 1 || len >= ReasonBufferSize {
          return Exit(4);
        }
        var _, _ := Read(len);
        AdvanceSplit(input, p0, 8, len);
        return Done(false);
      }
      return Done(false);
    }

    /** The offered security types, read one byte at a time and dropped. */
    method SkipTypes(n: nat)
      requires Valid()
      modifies this`pos, this`hasError
      ensures Valid() && pos == Advance(input, old(pos), n) && hasError == (old(hasError) || Short(input, old(pos), n))
    {
      ghost var p0, e0 := pos, hasError;
      var i := 0;
      while i < n
        invariant 0 <= i <= n
        invariant Valid() && pos == Advance(input, p0, i) && hasError == (e0 || Short(input, p0, i))
      {
        var _ := ReadU8();
        AdvanceSplit(input, p0, i, 1);
        i := i + 1;
      }
    }

    /** The Security phase: up to 3.6 the server's 32-bit security type is
        read and ignored; from 3.7 on the count (1..10, or exit 2) and the
        types are read and "None" is chosen and sent whatever was offered; at
        3.8 the SecurityResult follows. */
    method PerformAuth() returns (o: Outcome<bool>)
      requires Valid()
      modifies this`pos, this`hasError, this`output, this`authType
      ensures Valid()
      ensures var e := Security(input, old(pos), minor);
              o == e.outcome
              && (o.Done? ==>
                    pos == Advance(input, old(pos), e.need)
                    && output == Emit(old(output), outCap, e.sent)
                    && hasError == (old(hasError) || Short(input, old(pos), e.need)
                                    || Overflows(old(output), outCap, e.sent))
                    && authType == if minor > 6 then AuthNone as int else old(authType))
    {
      if minor <= 6 {
        var _ := ReadU32();
        return Done(true);
      }
      o := ChooseSecurity();
    }

    /** The Security phase from 3.7 on: the count, the types, "None" sent,
        and at 3.8 the SecurityResult. */
    method ChooseSecurity() returns (o: Outcome<bool>)
      requires Valid() && minor > 6
      modifies this`pos, this`hasError, this`output, this`authType
      ensures Valid()
      ensures var e := Security(input, old(pos), minor);
              o == e.outcome
              && (o.Done? ==>
                    pos == Advance(input, old(pos), e.need)
                    && output == Emit(old(output), outCap, e.sent)
                    && hasError == (old(hasError) || Short(input, old(pos), e.need)
                                    || Overflows(old(output), outCap, e.sent))
                    && authType == AuthNone as int)
    {
      ghost var p0 := pos;
      var nauth := ReadU8();
      FromBEOne(Window(input, p0, 1));
      if nauth < 1 || nauth > MaxSecurityTypes {
        return Exit(2);
      }
      SkipTypes(nauth as nat);
      AdvanceSplit(input, p0, 1, nauth as nat);
      authType := AuthNone;
      var _ := WriteU8(AuthNone);
      if minor == 8 {
        ghost var p1 := pos;
        o := CheckAuthResult();
        if o.Done? {
          AdvanceSplit(input, p0, 1 + nauth, SecurityResult(input, p1, minor).need);
        }
        return;
      }
      return Done(true);
    }

    /** ClientInit and ServerInit: send the shared flag, read the framebuffer
        size (returning false if an error is already set), allocate the
        zeroed 3*width*height framebuffer, read the pixel format and the
        desktop name. */
    method ClientServerInit() returns (ok: bool)
      requires Valid()
      modifies this`pos, this`hasError, this`output, this`width, this`height, this`rgb, this`fmt, this`name
      ensures Valid()
      ensures output == Emit(old(output), outCap, [sharedFlag])
      ensures width == FromBE(Window(input, old(pos), 2))
      ensures height == FromBE(Window(input, Advance(input, old(pos), 2), 2))
      ensures var failed := old(hasError) || Overflows(old(output), outCap, [sharedFlag]) || Short(input, old(pos), 4);
              failed ==> !ok && hasError && pos == Advance(input, old(pos), 4)
                         && rgb == old(rgb) && fmt == old(fmt) && name == old(name)
      ensures var failed := old(hasError) || Overflows(old(output), outCap, [sharedFlag]) || Short(input, old(pos), 4);
              var p4 := Advance(input, old(pos), 4);
              var p20 := Advance(input, p4, 16);
              var n := S32(FromBE(Window(input, p20, 4)));
              !failed ==>
                fresh(rgb) && rgb[..] == Zeros(3 * width * height) && fmt == DecodePixelFormat(Window(input, p4, 16))
                && (n > MaxNameLength ==>
                      !ok && name == old(name) && pos == Advance(input, p20, 4)
                      && hasError == (Short(input, p4, 16) || Short(input, p20, 4)))
                && (n <= MaxNameLength ==>
                      name == Window(input, Advance(input, p20, 4), NameBytes(n))
                      && pos == Advance(input, p20, 4 + NameBytes(n))
                      && hasError == (Short(input, p4, 16) || Short(input, p20, 4 + NameBytes(n)))
                      && ok == !hasError)
      ensures ok ==> Ready()
    {
      SendFlagReadSize();
      if hasError {
        return false;
      }
      var size := 3 * width * height;
      MulMonotone(0, height, 3 * width);
      rgb := new byte[size](_ => 0);
      fmt := ReadPixelFormat();
      ok := ReadDesktopName();
    }

    /** ClientInit (the shared flag) and the framebuffer size at the head of ServerInit. */
    method SendFlagReadSize()
      requires Valid()
      modifies this`pos, this`hasError, this`output, this`width, this`height
      ensures Valid()
      ensures output == Emit(old(output), outCap, [sharedFlag])
      ensures width == FromBE(Window(input, old(pos), 2))
      ensures height == FromBE(Window(input, Advance(input, old(pos), 2), 2))
      ensures pos == Advance(input, old(pos), 4)
      ensures hasError == (old(hasError) || Overflows(old(output), outCap, [sharedFlag]) || Short(input, old(pos), 4))
    {
      var _ := WriteU8(sharedFlag);
      var w16 := ReadU16();
      width := w16;
      var h16 := ReadU16();
      height := h16;
      AdvanceSplit(input, old(pos), 2, 2);
    }

    /** The desktop name: its length read into a signed int, refused above
        4096, then that many bytes read into a zeroed buffer (a negative
        length reads nothing). */
    method ReadDesktopName() returns (ok: bool)
      requires Valid()
      modifies this`pos, this`hasError, this`name
      ensures Valid()
      ensures var n := S32(FromBE(Window(input, old(pos), 4)));
              (n > MaxNameLength ==>
                 !ok && name == old(name) && pos == Advance(input, old(pos), 4)
                 && hasError == (old(hasError) || Short(input, old(pos), 4)))
              && (n <= MaxNameLength ==>
                    name == Window(input, Advance(input, old(pos), 4), NameBytes(n))
                    && pos == Advance(input, old(pos), 4 + NameBytes(n))
                    && hasError == (old(hasError) || Short(input, old(pos), 4 + NameBytes(n)))
                    && ok == !hasError)
    {
      var raw := ReadU32();
      var n := S32(raw);
      if n > MaxNameLength {
        return false;
      }
      var got, _ := Read(n);
      WindowIsDeliveredThenZeros(input, Advance(input, old(pos), 4), NameBytes(n));
      name := got + Zeros(NameBytes(n) - |got|);
      AdvanceSplit(input, old(pos), 4, NameBytes(n));
      ok := !hasError;
    }

    /** How the handshake from input position p0 ends: a bad banner is
        status 2, a version below 3.3 status 3; then the Security phase
        decides, where a failure it reports is status 4. */
    ghost predicate HandshakeEnds(p0: nat, o: Outcome<bool>)
      requires p0 <= |input|
    {
      var r := Version.Exchange(Window(input, p0, 12));
      (r.BadBanner? ==> o == Exit(2)) && (r.TooOld? ==> o == Exit(3))
      && (r.Agreed? ==> SecurityEnds(Advance(input, p0, 12), r.minor, o))
    }

    /** How the Security phase at input position p ends for the minor version:
        its own exit, status 4 for a failure it reports, otherwise whatever follows. */
    ghost predicate SecurityEnds(p: nat, minor: int, o: Outcome<bool>)
      requires p <= |input|
    {
      var e := Security(input, p, minor);
      (e.outcome.Exit? ==> o == e.outcome)
      && (e.outcome == Done(false) ==> o == Exit(4))
      && (e.outcome == Done(true) ==> o.Done?)
    }

    /** Once the Security phase at input position p has succeeded, the
        handshake is true exactly when no error is set and a whole ServerInit
        with an accepted name was read after the security bytes. */
    ghost predicate InitEnds(p: nat, o: Outcome<bool>)
      requires p <= |input|
      reads this
    {
      o.Done? ==> (o.value <==> !hasError && HoldsServerInit(Advance(input, p, Security(input, p, minor).need)))
    }

    /** The whole handshake: version, security, then ClientInit and
        ServerInit.  A failed SecurityResult exits with status 4; otherwise
        the result is that of ServerInit.  On success nothing came up short,
        and the state holds what the server sent. */
    method Initialize() returns (o: Outcome<bool>)
      requires Valid()
      modifies this`pos, this`hasError, this`output, this`major, this`minor, this`authType
      modifies this`width, this`height, this`rgb, this`fmt, this`name
      ensures Valid()
      ensures HandshakeEnds(old(pos), o)
      ensures var r := Version.Exchange(Window(input, old(pos), 12));
              r.Agreed? ==> major == r.major && minor == r.minor
      ensures o == Done(true) ==>
                Ready() && !hasError && fresh(rgb) && rgb[..] == Zeros(rgb.Length)
                && 0 <= major < 1000 && 0 <= minor < 1000
                && var p1 := Advance(input, old(pos), 12);
                   var e := Security(input, p1, minor);
                   output == old(output) + Version.FormatBanner(major, minor) + e.sent + [old(sharedFlag)]
                   && HoldsServerInit(Advance(input, p1, e.need))
      ensures InitEnds(Advance(input, old(pos), 12), o)
    {
      var v := VersionExchange();
      if v.Exit? {
        return Exit(v.code);
      }
      o := SecureAndInit();
      if o == Done(true) {
        EmitAll(old(output), outCap, Version.FormatBanner(major, minor));
      }
    }

    /** Security, ClientInit and ServerInit, after the version is settled. */
    method SecureAndInit() returns (o: Outcome<bool>)
      requires Valid()
      modifies this`pos, this`hasError, this`output, this`authType
      modifies this`width, this`height, this`rgb, this`fmt, this`name
      ensures Valid()
      ensures SecurityEnds(old(pos), minor, o)
      ensures o == Done(true) ==>
                Ready() && !hasError && !old(hasError) && fresh(rgb) && rgb[..] == Zeros(rgb.Length)
                && var e := Security(input, old(pos), minor);
                   output == old(output) + e.sent + [sharedFlag]
                   && HoldsServerInit(Advance(input, old(pos), e.need))
      ensures InitEnds(old(pos), o)
    {
      var a := PerformAuth();
      if a.Exit? {
        return Exit(a.code);
      }
      if !a.value {
        return Exit(4);
      }
      ghost var out1 := output;
      var ok := ClientServerInit();
      o := Done(ok);
      if ok {
        EmitAll(old(output), outCap, Security(input, old(pos), minor).sent);
        EmitAll(out1, outCap, [sharedFlag]);
      }
    }

    // ---------------------------------------------------------------
    // Client messages

    /** `framebuffer_update_request`: the request is recorded, then sent as
        the type byte, the incremental flag as 0 or 1 and the four u16
        fields; the result is whether no error is set. */
    method FramebufferUpdateRequest(incremental: bool, x: u16, y: u16, w: u16, h: u16) returns (ok: bool)
      requires Valid()
      modifies this`lastUpdateRequest, this`output, this`hasError
      ensures Valid()
      ensures lastUpdateRequest == UpdateRequest(incremental, x, y, w, h)
      ensures output == Emit(old(output), outCap, UpdateRequestMessage(lastUpdateRequest))
      ensures hasError == (old(hasError) || Overflows(old(output), outCap, UpdateRequestMessage(lastUpdateRequest)))
      ensures ok == !hasError
    {
      lastUpdateRequest := UpdateRequest(incremental, x, y, w, h);
      ghost var o0, e0 := output, hasError;
      var flag: byte := if incremental then 1 else 0;
      var _ := WriteU8(FramebufferUpdateRequestType);
      ghost var out, err := output, hasError;
      var _ := WriteU8(flag);
      EmitStep(o0, outCap, e0, [FramebufferUpdateRequestType], [flag], out, err, output, hasError);
      out, err := output, hasError;
      WriteRectFields(x, y, w, h);
      EmitStep(o0, outCap, e0, [FramebufferUpdateRequestType] + [flag], RectFields(x, y, w, h), out, err, output, hasError);
      UpdateRequestFields(lastUpdateRequest);
      ok := !hasError;
    }

    /** The four u16 fields of a request: x, y, width and height, one write each. */
    method WriteRectFields(x: u16, y: u16, w: u16, h: u16)
      requires Valid()
      modifies this`output, this`hasError
      ensures Valid()
      ensures output == Emit(old(output), outCap, RectFields(x, y, w, h))
      ensures hasError == (old(hasError) || Overflows(old(output), outCap, RectFields(x, y, w, h)))
    {
      ghost var o0, e0 := output, hasError;
      var _ := WriteU16(x);
      ghost var out, err := output, hasError;
      var _ := WriteU16(y);
      EmitStep(o0, outCap, e0, BE16(x), BE16(y), out, err, output, hasError);
      out, err := output, hasError;
      var _ := WriteU16(w);
      EmitStep(o0, outCap, e0, BE16(x) + BE16(y), BE16(w), out, err, output, hasError);
      out, err := output, hasError;
      var _ := WriteU16(h);
      EmitStep(o0, outCap, e0, BE16(x) + BE16(y) + BE16(w), BE16(h), out, err, output, hasError);
    }

    /** `set_encodings`: the type byte, a padding byte, the count as u16 and
        each encoding as an s32; the result is whether no error is set. */
    method SetEncodings(encodings: seq<u32>) returns (ok: bool)
      requires Valid() && |encodings| < 0x8000_0000
      modifies this`output, this`hasError
      ensures Valid()
      ensures output == Emit(old(output), outCap, SetEncodingsMessage(encodings))
      ensures hasError == (old(hasError) || Overflows(old(output), outCap, SetEncodingsMessage(encodings)))
      ensures ok == !hasError
    {
      ghost var o0, e0 := output, hasError;
      var _ := WriteU8(SetEncodingsType);
      ghost var out, err := output, hasError;
      var _ := Write([0]);
      EmitStep(o0, outCap, e0, [SetEncodingsType], [0], out, err, output, hasError);
      out, err := output, hasError;
      var _ := WriteU16(|encodings|);
      EmitStep(o0, outCap, e0, [SetEncodingsType] + [0], BE16(U16(|encodings|)), out, err, output, hasError);
      out, err := output, hasError;
      WriteEncodingList(encodings);
      EmitStep(o0, outCap, e0, [SetEncodingsType] + [0] + BE16(U16(|encodings|)), EncodingList(encodings),
               out, err, output, hasError);
      assert [SetEncodingsType] + [0] + BE16(U16(|encodings|)) + EncodingList(encodings) == SetEncodingsMessage(encodings);
      ok := !hasError;
    }

    /** The encodings of SetEncodings, each written as an s32. */
    method WriteEncodingList(encodings: seq<u32>)
      requires Valid()
      modifies this`output, this`hasError
      ensures Valid()
      ensures output == Emit(old(output), outCap, EncodingList(encodings))
      ensures hasError == (old(hasError) || Overflows(old(output), outCap, EncodingList(encodings)))
    {
      assert EncodingList(encodings[..0]) == [] by { assert encodings[..0] == []; }
      var i := 0;
      while i < |encodings|
        invariant 0 <= i <= |encodings| && Valid()
        invariant output == Emit(old(output), outCap, EncodingList(encodings[..i]))
        invariant hasError == (old(hasError) || Overflows(old(output), outCap, EncodingList(encodings[..i])))
      {
        ghost var out, err := output, hasError;
        var _ := WriteS32(S32(encodings[i]));
        EmitStep(old(output), outCap, old(hasError), EncodingList(encodings[..i]), BE32(encodings[i]),
                 out, err, output, hasError);
        EncodingListStep(encodings, i);
        i := i + 1;
      }
      assert encodings[..i] == encodings;
    }

    // ---------------------------------------------------------------
    // The main loop

    /** A control line that parsed `fields` numbers: with at least one, the
        origin is clamped into the framebuffer (a missing y keeps the current
        one) and a change of origin marks the view as moved. */
    method MoveView(fields: int, cx: int, cy: int)
      modifies this`view
      ensures view == MoveTo(old(view), fields, cx, cy, width, height)
    {
      var x, y := view.x, view.y;
      if fields >= 1 {
        x := cx;
        if fields >= 2 {
          y := cy;
        }
        if x < 0 {
          x := 0;
        }
        if y < 0 {
          y := 0;
        }
        if x + view.w > width {
          x := width - view.w;
        }
        if y + view.h > height {
          y := height - view.h;
        }
        if x != view.x || y != view.y {
          view := view.(moved := true);
        }
        view := view.(x := x, y := y);
      }
    }

    /** A message from the server: the type byte, then a FramebufferUpdate
        (padding, the count, the rectangles), a ServerCutText (padding, the
        length, refused above 32 MiB with status 9, the text read and
        dropped), or an unknown type, which sets the error. */
    method ReadServerMessage() returns (o: Outcome<bool>)
      requires Ready()
      modifies this`pos, this`hasError, rgb, this`shown
      ensures Ready()
      ensures var r := Incoming(input, old(ScreenState()), width, height, fmt);
              (r.Exit? ==> o == Exit(r.code)) && (r.Done? ==> o == Done(!r.value.error) && ScreenState() == r.value)
    {
      ghost var p0 := pos;
      var msg := ReadU8();
      ghost var p1 := pos;
      if msg == FramebufferUpdateType {
        var _, _ := Read(1);
        var count := ReadU16();
        AdvanceSplit(input, p1, 1, 2);
        o := ReadRects(count);
      } else if msg == ServerCutTextType {
        var _, _ := Read(3);
        var n := ReadU32();
        AdvanceSplit(input, p1, 3, 4);
        if !CutTextAllowed(n) {
          return Exit(9);
        }
        var _, _ := Read(n);
        o := Done(!hasError);
      } else {
        hasError := true;
        o := Done(!hasError);
      }
    }

    /** `server_message`: with an error set, false at once.  On a timeout the
        view is requested (in full if it moved) and the moved mark cleared; a
        control line moves the view (a failed read of it is false); data on the
        socket is a server message.  Otherwise the result is whether no error
        is set. */
    method ServerMessage(e: Event) returns (o: Outcome<bool>)
      requires Ready()
      modifies this`pos, this`hasError, rgb, this`shown, this`output, this`lastUpdateRequest, this`view
      ensures Ready()
      ensures old(hasError) ==>
                o == Done(false) && view == old(view) && pos == old(pos) && hasError
                && rgb[..] == old(rgb[..]) && shown == old(shown) && output == old(output)
      ensures !old(hasError) ==> view == ViewStep(old(view), e, width, height)
      ensures !old(hasError) && e.Timeout? ==>
                var m := UpdateRequestMessage(TimeoutRequest(old(view)));
                lastUpdateRequest == TimeoutRequest(old(view)) && output == Emit(old(output), outCap, m)
                && hasError == Overflows(old(output), outCap, m) && o == Done(!hasError)
      ensures !old(hasError) && e.Control? ==> o == Done(true) && !hasError
      ensures !old(hasError) && e.ControlReadFailed? ==> o == Done(false) && !hasError
      ensures !old(hasError) && (e.Control? || e.ControlReadFailed?) ==> output == old(output)
      ensures !(!old(hasError) && e.Timeout?) ==> lastUpdateRequest == old(lastUpdateRequest)
      ensures !old(hasError) && !e.SocketReady? ==> pos == old(pos) && rgb[..] == old(rgb[..]) && shown == old(shown)
      ensures !old(hasError) && e.SocketReady? ==>
                output == old(output)
                && var r := Incoming(input, old(ScreenState()), width, height, fmt);
                   (r.Exit? ==> o == Exit(r.code)) && (r.Done? ==> o == Done(!r.value.error) && ScreenState() == r.value)
    {
      if hasError {
        return Done(false);
      }
      match e
      case Timeout =>
        var _ := FramebufferUpdateRequest(!view.moved, U16(view.x), U16(view.y), U16(view.w), U16(view.h));
        view := view.(moved := false);
        o := Done(!hasError);
      case Control(fields, cx, cy) =>
        MoveView(fields, cx, cy);
        o := Done(true);
      case ControlReadFailed =>
        o := Done(false);
      case SocketReady =>
        o := ReadServerMessage();
    }

    /** `main` after the connection is made: the handshake (a failure is
        status 8), the view reset to the 32x32 window at the origin, then
        the first two client messages. */
    method Startup() returns (o: Outcome<()>, handshake: Outcome<bool>)
      requires Valid()
      modifies this`pos, this`hasError, this`output, this`major, this`minor, this`authType
      modifies this`width, this`height, this`rgb, this`fmt, this`name, this`view, this`lastUpdateRequest
      ensures Valid()
      ensures HandshakeEnds(old(pos), handshake)
      ensures handshake.Exit? ==> o == Exit(handshake.code)
      ensures handshake == Done(false) ==> o == Exit(8)
      ensures handshake == Done(true) ==> o == Done(())
      ensures o.Done? ==>
                Ready() && view == View(0, 0, 32, 32, old(view).moved)
                && 0 <= major < 1000 && 0 <= minor < 1000
                && var p1 := Advance(input, old(pos), 12);
                   var e := Security(input, p1, minor);
                   var init := old(output) + Version.FormatBanner(major, minor) + e.sent + [old(sharedFlag)];
                   HoldsServerInit(Advance(input, p1, e.need)) && |init| <= outCap
                   && Greeted(init, false)
    {
      handshake := Initialize();
      if handshake.Exit? {
        return Exit(handshake.code), handshake;
      }
      if !handshake.value {
        return Exit(8), handshake;
      }
      Welcome(old(pos), old(output), old(sharedFlag));
      o := Done(());
    }

    /** After a successful handshake from p0 on top of out0: the view reset
        to the 32x32 window at the origin, then `Greet`. */
    method Welcome(ghost p0: nat, ghost out0: seq<byte>, ghost flag0: byte)
      requires Ready() && !hasError && p0 <= |input| && 0 <= major < 1000 && 0 <= minor < 1000
      requires var p1 := Advance(input, p0, 12);
               var e := Security(input, p1, minor);
               output == out0 + Version.FormatBanner(major, minor) + e.sent + [flag0]
               && HoldsServerInit(Advance(input, p1, e.need))
      modifies this`output, this`hasError, this`lastUpdateRequest, this`view
      ensures Ready() && view == View(0, 0, 32, 32, old(view).moved)
              && 0 <= major < 1000 && 0 <= minor < 1000
              && var p1 := Advance(input, p0, 12);
                 var e := Security(input, p1, minor);
                 var init := out0 + Version.FormatBanner(major, minor) + e.sent + [flag0];
                 HoldsServerInit(Advance(input, p1, e.need)) && |init| <= outCap
                 && Greeted(init, false)
    {
      view := view.(x := 0, y := 0, w := 32, h := 32);
      Greet();
    }

    /** After `main`'s two client messages on top of `init`: RAW is the only
        encoding offered, a full update of the view at the origin is the last
        request, and the error is set exactly when a write came up short. */
    ghost predicate Greeted(init: seq<byte>, e0: bool)
      requires |init| <= outCap
      reads this
    {
      var sent := SetEncodingsMessage([EncodingRaw as u32]) + UpdateRequestMessage(UpdateRequest(false, 0, 0, 32, 32));
      lastUpdateRequest == UpdateRequest(false, 0, 0, 32, 32)
      && output == Emit(init, outCap, sent) && hasError == (e0 || Overflows(init, outCap, sent))
    }

    /** SetEncodings offering RAW only, then a non-incremental request for the 32x32 view at the origin. */
    method Greet()
      requires Valid()
      modifies this`output, this`hasError, this`lastUpdateRequest
      ensures Valid() && Greeted(old(output), old(hasError))
    {
      var _ := SetEncodings([EncodingRaw as u32]);
      var _ := FramebufferUpdateRequest(false, 0, 0, 32, 32);
      EmitConcat(old(output), outCap, SetEncodingsMessage([EncodingRaw as u32]), UpdateRequestMessage(lastUpdateRequest));
    }

    /** The loop of `main`: one `server_message` per event, until one is false;
        then `main` returns TRUE, which is exit status 1.  An exit inside ends
        the loop with its own status; running out of events leaves it running.
        The view follows the events the loop handled. */
    method RunSession(events: seq<Event>) returns (o: Outcome<()>, ghost handled: nat)
      requires Ready()
      modifies this`pos, this`hasError, rgb, this`shown, this`output, this`lastUpdateRequest, this`view
      ensures Ready()
      ensures handled <= |events| && view == Run(old(view), events[..handled], width, height)
      ensures o.Done? ==> handled == |events|
      ensures o.Exit? ==> o.code == 1 || o.code == 9 || o.code == 11
    {
      var k := 0;
      handled := 0;
      while k < |events|
        invariant Ready() && handled == k <= |events|
        invariant view == Run(old(view), events[..k], width, height)
      {
        ghost var failed := hasError;
        var r := ServerMessage(events[k]);
        if !failed {
          RunSnoc(old(view), events[..k], events[k], width, height);
          assert events[..k + 1] == events[..k] + [events[k]];
          handled := k + 1;
        }
        if r.Exit? {
          o := Exit(r.code);
          return;
        }
        if !r.value {
          o := Exit(1);
          return;
        }
        k := k + 1;
      }
      o := Done(());
    }
  }

  /** The number of name bytes read for a signed name length: a negative length reads nothing. */
  function NameBytes(n: int): (k: nat)
    ensures n >= 0 ==> k == n
    ensures n < 0 ==> k == 0
  {
    if n < 0 then 0 else n
  }

  /** The PixelFormat record decoded from its three groups of fields. */
  lemma PixelFormatGroups(input: seq<byte>, p0: nat)
    requires p0 <= |input|
    ensures var h, m, t := Window(input, p0, 4), Window(input, Advance(input, p0, 4), 6),
                           Window(input, Advance(input, p0, 10), 6);
            DecodePixelFormat(Window(input, p0, 16))
            == PixelFormat(h[0], h[1], if h[2] != 0 then BigEndianTag else LittleEndianTag, h[3],
                           FromBE(m[0..2]), FromBE(m[2..4]), FromBE(m[4..6]), t[0], t[1], t[2])
  {
    var w := Window(input, p0, 16);
    WindowSlice(input, p0, 16, 0, 4);
    WindowSlice(input, p0, 16, 4, 6);
    WindowSlice(input, p0, 16, 10, 6);
    assert Window(input, p0, 4) == w[0..4];
    assert w[4..6] == w[4..10][0..2] && w[6..8] == w[4..10][2..4] && w[8..10] == w[4..10][4..6];
  }

  /** Byte `off` of a record of `total` bytes, read on its own after the bytes before it. */
  lemma FieldByte(input: seq<byte>, p0: nat, total: nat, off: nat)
    requires p0 <= |input| && off < total
    ensures Advance(input, Advance(input, p0, off), 1) == Advance(input, p0, off + 1)
    ensures (Short(input, p0, off) || Short(input, Advance(input, p0, off), 1)) == Short(input, p0, off + 1)
    ensures Window(input, Advance(input, p0, off), 1)[0] == Window(input, p0, total)[off]
  {
    Field(input, p0, total, off, 1);
  }
}
