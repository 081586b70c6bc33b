/** What the two display callbacks make of the framebuffer: the LED panel
    frame (the 32x32 view copied row by row into a 3072-byte frame), the
    eight-colour terminal cell of a pixel, and the index into the ASCII
    brightness ramp.  Writing the frame to the device and printing to the
    terminal are not modelled; only what would be written is. */
module Render {
  import opened Wire
  import opened Viewport

  /** One terminal cell: foreground and background ANSI colour codes and the two-character glyph. */
  datatype Cell = Cell(fg: int, bg: int, glyph: string)

  /** The eight-colour classification of a pixel: a channel below 100 counts
      as off; the colour is the ANSI code of the channels that are on, and
      the cell is printed dim (blank) unless some channel reaches 200. */
  function Tty8c(r: byte, g: byte, b: byte): (cell: Cell)
    ensures cell.fg == 30 + (if r >= 100 then 1 else 0) + (if g >= 100 then 2 else 0) + (if b >= 100 then 4 else 0)
    ensures cell.bg == cell.fg + 10
    ensures cell.glyph == (if r < 200 && g < 200 && b < 200 then "  " else "@@")
  {
    var r' := if r < 100 then 0 else r;
    var g' := if g < 100 then 0 else g;
    var b' := if b < 100 then 0 else b;
    var dim := !(r' >= 200 || g' >= 200 || b' >= 200);
    var ansi :=
      if r' != 0 && g' != 0 && b' != 0 then 37      // white
      else if r' != 0 && g' != 0 then 33            // yellow
      else if r' != 0 && b' != 0 then 35            // magenta
      else if g' != 0 && b' != 0 then 36            // cyan
      else if r' != 0 then 31                       // red
      else if g' != 0 then 32                       // green
      else if b' != 0 then 34                       // blue
      else 30;                                      // black
    Cell(ansi, ansi + 10, if dim then "  " else "@@")
  }

  /** Only on/off matters for the colour: two pixels whose channels agree on
      the 100 threshold get the same colour codes. */
  lemma Tty8cThreshold(r: byte, g: byte, b: byte, r2: byte, g2: byte, b2: byte)
    requires (r >= 100) == (r2 >= 100) && (g >= 100) == (g2 >= 100) && (b >= 100) == (b2 >= 100)
    ensures Tty8c(r, g, b).fg == Tty8c(r2, g2, b2).fg && Tty8c(r, g, b).bg == Tty8c(r2, g2, b2).bg
  {
  }

  /** The brightness ramp, densest glyph first: 68 characters, written in four pieces of 17. */
  const Ramp: string := "$@B%8&WM#*oahkbdp" + "qwmZO0QLCJUYXzcvu" + "nxrjft/|()1{}[]?-" + "_+~<>i!lI;:,\"^'. "

  /** The ramp position of a pixel: its mean intensity scaled to 0..67 and
      counted from the bright end, so that brighter pixels get earlier glyphs. */
  function RampIndex(r: byte, g: byte, b: byte): (i: nat)
    ensures i < |Ramp|
    ensures r == 0 && g == 0 && b == 0 ==> i == |Ramp| - 1
    ensures r == 255 && g == 255 && b == 255 ==> i == 0
  {
    var v := (r + g + b) / 3;
    var scaled := v * (|Ramp| - 1) / 255;
    |Ramp| - 1 - scaled
  }

  /** A brighter pixel never gets a later glyph of the ramp. */
  lemma RampMonotone(r: byte, g: byte, b: byte, r2: byte, g2: byte, b2: byte)
    requires r + g + b <= r2 + g2 + b2
    ensures RampIndex(r2, g2, b2) <= RampIndex(r, g, b)
  {
    var v, v2 := (r + g + b) / 3, (r2 + g2 + b2) / 3;
    assert v <= v2;
    assert v * 67 / 255 <= v2 * 67 / 255;
  }

  /** Black pixels get the blank at the end of the ramp, white ones its densest glyph. */
  lemma RampEnds()
    ensures |Ramp| == 68
    ensures Ramp[RampIndex(0, 0, 0)] == ' ' && Ramp[RampIndex(255, 255, 255)] == '$'
  {
  }

  /** The size of the LED panel frame: 32 rows of 32 RGB pixels. */
  const FrameRows := 32
  const FrameRowBytes := 3 * 32

  /** Byte b of row `row` of the LED frame. */
  function FrameIndex(row: int, b: int): int {
    row * FrameRowBytes + b
  }

  /** The framebuffer byte the LED callback copies to byte b of frame row `row`. */
  function SourceIndex(v: View, stride: int, row: int, b: int): int {
    CropOffset(v, stride) + row * stride + b
  }

  /** Channel c of pixel col of a row is byte 3*col + c of that row, on both sides of the copy. */
  lemma SourceIndexIsCropIndex(v: View, stride: int, row: int, col: int, c: int)
    ensures SourceIndex(v, stride, row, 3 * col + c) == CropIndex(v, stride, row, col, c)
  {
  }

  /** The frame the LED callback writes to the panel: row by row, 96 bytes
      copied from the framebuffer starting at the view's origin, one stride apart. */
  method LedPanelFrame(rgb: array<byte>, v: View, stride: int) returns (led: seq<byte>)
    requires 0 <= stride && 0 <= CropOffset(v, stride)
    requires CropOffset(v, stride) + (FrameRows - 1) * stride + FrameRowBytes <= rgb.Length
    ensures |led| == FrameRows * FrameRowBytes
    ensures forall row, b | 0 <= row < FrameRows && 0 <= b < FrameRowBytes ::
              0 <= SourceIndex(v, stride, row, b) < rgb.Length
              && led[FrameIndex(row, b)] == rgb[SourceIndex(v, stride, row, b)]
  {
    led := [];
    var p := CropOffset(v, stride);
    var h := 0;
    while h < FrameRows
      invariant 0 <= h <= FrameRows
      invariant |led| == h * FrameRowBytes
      invariant p == SourceIndex(v, stride, h, 0)
      invariant forall row, b | 0 <= row < h && 0 <= b < FrameRowBytes ::
                  0 <= SourceIndex(v, stride, row, b) < rgb.Length
                  && led[FrameIndex(row, b)] == rgb[SourceIndex(v, stride, row, b)]
    {
      assert h * stride <= (FrameRows - 1) * stride by { Viewport.Mul(h, FrameRows - 1, stride); }
      var line := rgb[p..p + FrameRowBytes];
      ghost var before := led;
      led := led + line;
      forall row, b | 0 <= row < h + 1 && 0 <= b < FrameRowBytes
        ensures 0 <= SourceIndex(v, stride, row, b) < rgb.Length
        ensures led[FrameIndex(row, b)] == rgb[SourceIndex(v, stride, row, b)]
      {
        if row == h {
          assert led[FrameIndex(row, b)] == line[b];
        } else {
          assert FrameIndex(row, b) < |before|;
          assert led[FrameIndex(row, b)] == before[FrameIndex(row, b)];
        }
      }
      p := p + stride;
      h := h + 1;
    }
  }

  /** The terminal cell the ASCII-art callback prints for pixel (col, row) of the view. */
  function AsciiArtCell(fb: seq<byte>, v: View, width: int, height: int, row: int, col: int): (cell: Cell)
    requires 0 <= width && |fb| == 3 * width * height && Inside(v, width, height)
    requires 0 <= row < v.h && 0 <= col < v.w
    ensures var p := ((v.y + row) * width + v.x + col) * 3;
            0 <= p && p + 2 < |fb| && cell == Tty8c(fb[p], fb[p + 1], fb[p + 2])
  {
    CropInBounds(v, width, height, row, col, 0);
    CropInBounds(v, width, height, row, col, 2);
    CropIndexIsPixel(v, width, row, col, 0);
    var stride := 3 * width;
    Tty8c(fb[CropIndex(v, stride, row, col, 0)], fb[CropIndex(v, stride, row, col, 1)],
          fb[CropIndex(v, stride, row, col, 2)])
  }
}
