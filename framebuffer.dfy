/** The client's RGB24 framebuffer and what a RAW rectangle (section 7.7.1 of
    RFC 6143) does to it.  The framebuffer is W*H pixels of three bytes (R, G,
    B), row-major, so pixel (col, row) starts at byte (row*W + col)*3.  A RAW
    rectangle arrives as h scanlines of w 32-bit pixels; each pixel's channel
    is `(v >> shift) & 0xff` for the shifts of the pixel format, where v reads
    the four bytes in host order (little-endian here). */
module Framebuffer {
  import opened Wire
  import opened Messages
  import opened Stream

  /** The shift of channel c: 0 red, 1 green, 2 blue. */
  function ShiftOf(fmt: PixelFormat, c: nat): nat
    requires c < 3
  {
    if c == 0 then fmt.redShift else if c == 1 then fmt.greenShift else fmt.blueShift
  }

  /** A 32-bit pixel as `*src++` reads it on a little-endian host. */
  function Pixel32(p: seq<byte>): u32
    requires |p| == 4
  {
    Pow256Four();
    FromLE(p)
  }

  /** Channel c of pixel j of a scanline. */
  function PixelByte(line: seq<byte>, j: nat, c: nat, fmt: PixelFormat): byte
    requires 4 * j + 4 <= |line| && c < 3
  {
    Channel(Pixel32(line[4 * j..4 * j + 4]), ShiftOf(fmt, c))
  }

  /** The byte offset of pixel (x, row) in a W-wide framebuffer. */
  function RowBase(W: nat, x: nat, row: nat): nat {
    (row * W + x) * 3
  }

  /** The framebuffer after one scanline of w pixels is blitted at byte offset base. */
  function BlitRow(fb: seq<byte>, base: nat, line: seq<byte>, w: nat, fmt: PixelFormat): (r: seq<byte>)
    requires base + 3 * w <= |fb| && 4 * w <= |line|
    ensures |r| == |fb|
  {
    seq(|fb|, k requires 0 <= k < |fb| => BlitByte(fb, base, line, w, fmt, k))
  }

  function BlitByte(fb: seq<byte>, base: nat, line: seq<byte>, w: nat, fmt: PixelFormat, k: nat): byte
    requires k < |fb| && 4 * w <= |line|
  {
    if base <= k < base + 3 * w then PixelByte(line, (k - base) / 3, (k - base) % 3, fmt) else fb[k]
  }

  /** A w-wide rectangle of n rows at (x, y) lies inside a W*H framebuffer of |fb| bytes. */
  predicate Fits(fbLength: nat, W: nat, H: nat, x: nat, y: nat, w: nat, n: nat) {
    fbLength == 3 * W * H && x + w <= W && y + n <= H
  }

  predicate RowsWide(rows: seq<seq<byte>>, w: nat) {
    forall i :: 0 <= i < |rows| ==> |rows[i]| >= 4 * w
  }

  /** n added k times: the bytes of k rows of n bytes, unfolded one row at a time. */
  function Times(n: nat, k: nat): nat {
    if k == 0 then 0 else Times(n, k - 1) + n
  }

  lemma {:induction false} TimesIsProduct(n: nat, k: nat)
    ensures Times(n, k) == n * k
  {
    if k > 0 {
      TimesIsProduct(n, k - 1);
      MulPred(n, k);
    }
  }

  // Non-linear step for RawPixelAligned: a scanline offset is never negative.
  lemma MulNonNegative(a: nat, b: nat)
    ensures a * b >= 0
  {
  }

  // Non-linear step for RowFits, MulAtLeast, Scanlines, ScratchLinesFull, ScanlineAt and the size bounds in Updates and Client: fewer rows take fewer bytes.
  lemma MulMonotone(a: nat, b: nat, c: nat)
    requires a <= b
    ensures a * c <= b * c
  {
  }

  // Non-linear step for ScratchLinesFull: the next line starts one line length further.
  lemma MulSucc(n: nat, i: nat)
    ensures n * (i + 1) == n * i + n
  {
  }

  // Non-linear step for TimesIsProduct and ScratchLineAt: peel the last line off a product.
  lemma MulPred(n: nat, i: nat)
    requires i > 0
    ensures n * i == n * (i - 1) + n && n * i >= 0
  {
  }

  lemma RowFits(W: nat, H: nat, x: nat, w: nat, row: nat)
    requires x + w <= W && row < H
    ensures RowBase(W, x, row) + 3 * w <= 3 * W * H
  {
    MulMonotone(row + 1, H, W);
  }

  /** The framebuffer after rows 0..n-1 of `rows` are blitted, row i at framebuffer row y + i:
      what `raw_update` leaves after n scanlines. */
  function Paint(fb: seq<byte>, W: nat, H: nat, x: nat, y: nat, w: nat, rows: seq<seq<byte>>, n: nat,
                 fmt: PixelFormat): (r: seq<byte>)
    requires n <= |rows| && Fits(|fb|, W, H, x, y, w, n) && RowsWide(rows, w)
    ensures |r| == |fb|
    decreases n
  {
    if n == 0 then fb
    else
      RowFits(W, H, x, w, y + n - 1);
      BlitRow(Paint(fb, W, H, x, y, w, rows, n - 1, fmt), RowBase(W, x, y + n - 1), rows[n - 1], w, fmt)
  }

  /** Byte k of the framebuffer belongs to a pixel of the w*h rectangle at (x, y). */
  predicate InRect(W: nat, x: nat, y: nat, w: nat, h: nat, k: nat) {
    W > 0 && y <= (k / 3) / W < y + h && x <= (k / 3) % W < x + w
  }

  /** With the byte-aligned shifts 0, 8, 16 and 24 a channel is exactly one
      byte of the little-endian pixel: byte k of the four bytes read. */
  lemma ChannelSelectsByte(p: seq<byte>, k: nat)
    requires |p| == 4 && k < 4
    ensures FromLE(p) < 0x1_0000_0000
    ensures Channel(FromLE(p), 8 * k) == p[k]
  {
    var v := FromLE(p);
    var b0, b1, b2: nat := p[0], p[1], p[2];
    var r3: nat := p[3];
    var r2: nat := b2 + 256 * r3;
    var r1: nat := b1 + 256 * r2;
    FromLEFour(p);
    Pow2Values();
    if k == 0 {
      DivModUnique(v, 256, r1, b0);
    } else if k == 1 {
      DivModUnique(v, 256, r1, b0);
      DivModUnique(r1, 256, r2, b1);
    } else if k == 2 {
      DivModUnique(v, 0x1_0000, r2, b0 + 256 * b1);
      DivModUnique(r2, 256, r3, b2);
    } else {
      DivModUnique(v, 0x100_0000, r3, b0 + 256 * b1 + 0x1_0000 * b2);
    }
  }

  /** The value of four little-endian bytes. */
  lemma FromLEFour(p: seq<byte>)
    requires |p| == 4
    ensures var b0, b1, b2, b3: int := p[0], p[1], p[2], p[3];
            FromLE(p) == b0 + 256 * (b1 + 256 * (b2 + 256 * b3))
  {
    var b1, b2, b3: int := p[1], p[2], p[3];
    assert FromLE(p[3..]) == b3 by { assert p[3..][1..] == []; }
    assert FromLE(p[2..]) == b2 + 256 * b3 by { assert p[2..][1..] == p[3..]; }
    assert FromLE(p[1..]) == b1 + 256 * (b2 + 256 * b3) by { assert p[1..][1..] == p[2..]; }
  }

  lemma DivModUnique(p: int, W: int, q: int, r: int)
    requires W > 0 && 0 <= r < W && p == q * W + r
    ensures p / W == q && p % W == r
  {
    var q', r' := p / W, p % W;
    assert (q - q') * W == r' - r;
    MulAtLeast(q - q', W);
  }

  lemma MulAtLeast(d: int, W: nat)
    ensures d >= 1 ==> d * W >= W
    ensures d <= -1 ==> d * W + W <= 0
  {
    if d >= 1 {
      MulMonotone(1, d, W);
    } else if d <= -1 {
      MulMonotone(1, -d, W);
    }
  }

  /** The bytes of the scanline segment of row `row` are exactly the bytes of
      that row whose column lies in x..x+w-1; inside it, the offset from the
      segment's start gives the pixel index and the channel. */
  lemma SegmentIff(W: nat, x: nat, w: nat, row: nat, k: nat)
    requires W > 0 && x + w <= W
    ensures (RowBase(W, x, row) <= k < RowBase(W, x, row) + 3 * w)
        <==> ((k / 3) / W == row && x <= (k / 3) % W < x + w)
    ensures RowBase(W, x, row) <= k < RowBase(W, x, row) + 3 * w ==>
              (k - RowBase(W, x, row)) / 3 == (k / 3) % W - x && (k - RowBase(W, x, row)) % 3 == k % 3
  {
    var a := row * W + x;
    var p, c := k / 3, k % 3;
    assert k == 3 * p + c;
    if RowBase(W, x, row) <= k < RowBase(W, x, row) + 3 * w {
      assert a <= p < a + w;
      DivModUnique(p, W, row, p - row * W);
      assert k - RowBase(W, x, row) == 3 * (p - a) + c;
      DivModUnique(k - RowBase(W, x, row), 3, p - a, c);
    }
    if p / W == row && x <= p % W < x + w {
      assert p == row * W + p % W;
    }
  }

  /** Every byte of the painted framebuffer: inside the rectangle it is the
      channel of the matching pixel of the matching scanline, outside it is
      the byte that was there before. */
  lemma {:induction false} PaintAt(fb: seq<byte>, W: nat, H: nat, x: nat, y: nat, w: nat,
                                   rows: seq<seq<byte>>, n: nat, fmt: PixelFormat, k: nat)
    requires n <= |rows| && Fits(|fb|, W, H, x, y, w, n) && RowsWide(rows, w)
    requires k < |fb|
    ensures InRect(W, x, y, w, n, k) ==> (k / 3) / W - y < n && 4 * ((k / 3) % W - x) + 4 <= |rows[(k / 3) / W - y]|
    ensures Paint(fb, W, H, x, y, w, rows, n, fmt)[k]
         == if InRect(W, x, y, w, n, k)
            then PixelByte(rows[(k / 3) / W - y], (k / 3) % W - x, k % 3, fmt)
            else fb[k]
  {
    PaintCell(fb, W, H, x, y, w, rows, n, fmt, k, (k / 3) / W - y, (k / 3) % W - x, k % 3);
  }

  /** PaintAt with the scanline r, the pixel j and the channel c of byte k
      named: rows 0..n-1 cover byte k exactly when r < n and j < w. */
  lemma {:induction false} PaintCell(fb: seq<byte>, W: nat, H: nat, x: nat, y: nat, w: nat,
                                     rows: seq<seq<byte>>, n: nat, fmt: PixelFormat, k: nat, r: int, j: int, c: nat)
    requires n <= |rows| && Fits(|fb|, W, H, x, y, w, n) && RowsWide(rows, w)
    requires k < |fb| && W > 0 && r == (k / 3) / W - y && j == (k / 3) % W - x && c == k % 3
    ensures 0 <= r < n && 0 <= j < w ==> 4 * j + 4 <= |rows[r]|
    ensures Paint(fb, W, H, x, y, w, rows, n, fmt)[k]
         == if 0 <= r < n && 0 <= j < w then PixelByte(rows[r], j, c, fmt) else fb[k]
  {
    if n > 0 {
      PaintCell(fb, W, H, x, y, w, rows, n - 1, fmt, k, r, j, c);
      RowFits(W, H, x, w, y + n - 1);
      var prev := Paint(fb, W, H, x, y, w, rows, n - 1, fmt);
      var base := RowBase(W, x, y + n - 1);
      SegmentStep(W, x, y, w, n, k, base, r, j, c);
      assert Paint(fb, W, H, x, y, w, rows, n, fmt)[k] == BlitByte(prev, base, rows[n - 1], w, fmt, k);
    }
  }

  /** Row y + n - 1 is the last row of an n-row rectangle: its segment holds
      the bytes of scanline n - 1, at the pixel and channel they belong to. */
  lemma SegmentStep(W: nat, x: nat, y: nat, w: nat, n: nat, k: nat, base: nat, r: int, j: int, c: nat)
    requires W > 0 && n > 0 && x + w <= W && base == RowBase(W, x, y + n - 1)
    requires r == (k / 3) / W - y && j == (k / 3) % W - x && c == k % 3
    ensures (base <= k < base + 3 * w) <==> (r == n - 1 && 0 <= j < w)
    ensures base <= k < base + 3 * w ==> (k - base) / 3 == j && (k - base) % 3 == c
  {
    SegmentIff(W, x, w, y + n - 1, k);
  }

  /** The pixel form of PaintAt: pixel (x + j, y + i) holds the channels of pixel j of scanline i. */
  lemma PaintPixel(fb: seq<byte>, W: nat, H: nat, x: nat, y: nat, w: nat,
                   rows: seq<seq<byte>>, n: nat, fmt: PixelFormat, i: nat, j: nat, c: nat)
    requires n <= |rows| && Fits(|fb|, W, H, x, y, w, n) && RowsWide(rows, w)
    requires i < n && j < w && c < 3
    ensures RowBase(W, x, y + i) + 3 * j + c < |fb|
    ensures Paint(fb, W, H, x, y, w, rows, n, fmt)[RowBase(W, x, y + i) + 3 * j + c]
         == PixelByte(rows[i], j, c, fmt)
  {
    RowFits(W, H, x, w, y + i);
    var k := RowBase(W, x, y + i) + 3 * j + c;
    SegmentIff(W, x, w, y + i, k);
    DivModUnique(3 * j + c, 3, j, c);
    PaintAt(fb, W, H, x, y, w, rows, n, fmt, k);
  }

  /** Blitting one more pixel writes its three channels and nothing else. */
  lemma BlitRowStep(fb: seq<byte>, base: nat, line: seq<byte>, j: nat, fmt: PixelFormat)
    requires base + 3 * (j + 1) <= |fb| && 4 * (j + 1) <= |line|
    ensures BlitRow(fb, base, line, j + 1, fmt)
         == BlitRow(fb, base, line, j, fmt)[base + 3 * j := PixelByte(line, j, 0, fmt)]
                                           [base + 3 * j + 1 := PixelByte(line, j, 1, fmt)]
                                           [base + 3 * j + 2 := PixelByte(line, j, 2, fmt)]
  {
    var lhs := BlitRow(fb, base, line, j + 1, fmt);
    var rhs := BlitRow(fb, base, line, j, fmt)[base + 3 * j := PixelByte(line, j, 0, fmt)]
                                              [base + 3 * j + 1 := PixelByte(line, j, 1, fmt)]
                                              [base + 3 * j + 2 := PixelByte(line, j, 2, fmt)];
    forall k | 0 <= k < |fb| ensures lhs[k] == rhs[k] {
      if base + 3 * j <= k < base + 3 * j + 3 {
        DivModUnique(k - base, 3, j, k - base - 3 * j);
      }
    }
  }

  /** Row i of `rows` is the i-th run of 4*w bytes of data. */
  function Scanline(data: seq<byte>, w: nat, i: nat): (line: seq<byte>)
    requires 4 * w * i + 4 * w <= |data|
    ensures |line| == 4 * w
  {
    data[4 * w * i..4 * w * i + 4 * w]
  }

  /** The h scanlines of w 32-bit pixels in a buffer that the blit walks through. */
  function Scanlines(data: seq<byte>, w: nat, h: nat): (rows: seq<seq<byte>>)
    requires 4 * w * h <= |data|
    ensures |rows| == h && RowsWide(rows, w)
    ensures forall i :: 0 <= i < h ==> 4 * w * i + 4 * w <= |data| && rows[i] == Scanline(data, w, i)
    decreases h
  {
    if h == 0 then []
    else
      MulMonotone(h - 1, h, 4 * w);
      Scanlines(data, w, h - 1) + [Scanline(data, w, h - 1)]
  }

  /** Painting n rows looks at the first n rows only. */
  lemma {:induction false} PaintPrefix(fb: seq<byte>, W: nat, H: nat, x: nat, y: nat, w: nat,
                                       rows: seq<seq<byte>>, rows2: seq<seq<byte>>, n: nat, fmt: PixelFormat)
    requires n <= |rows| && n <= |rows2| && rows[..n] == rows2[..n]
    requires Fits(|fb|, W, H, x, y, w, n) && RowsWide(rows, w) && RowsWide(rows2, w)
    ensures Paint(fb, W, H, x, y, w, rows, n, fmt) == Paint(fb, W, H, x, y, w, rows2, n, fmt)
  {
    if n > 0 {
      assert rows[..n - 1] == rows2[..n - 1] by {
        assert rows[..n - 1] == rows[..n][..n - 1];
        assert rows2[..n - 1] == rows2[..n][..n - 1];
      }
      assert rows[n - 1] == rows[..n][n - 1];
      assert rows2[n - 1] == rows2[..n][n - 1];
      PaintPrefix(fb, W, H, x, y, w, rows, rows2, n - 1, fmt);
    }
  }

  /** The scratch line after reading n bytes into it from pos: the bytes the
      input still has, over what the line held before. */
  function Refill(input: seq<byte>, pos: nat, n: nat, prev: seq<byte>): (line: seq<byte>)
    requires pos <= |input| && |prev| == n
    ensures |line| == n
  {
    input[pos..Advance(input, pos, n)] + prev[Advance(input, pos, n) - pos..]
  }

  /** The contents of the one scratch line of a RAW rectangle after each of
      `count` reads of n bytes from pos, the line holding `prev` before the
      first: a short read leaves the tail of the previous scanline in place. */
  function ScratchLines(input: seq<byte>, pos: nat, n: nat, count: nat, prev: seq<byte>): (lines: seq<seq<byte>>)
    requires pos <= |input| && |prev| == n
    ensures |lines| == count
    ensures forall i :: 0 <= i < count ==> |lines[i]| == n
    decreases count
  {
    if count == 0 then []
    else
      var line := Refill(input, pos, n, prev);
      [line] + ScratchLines(input, Advance(input, pos, n), n, count - 1, line)
  }

  /** When the input holds all of it, scanline i is exactly the i-th run of n input bytes. */
  lemma ScratchLinesFull(input: seq<byte>, pos: nat, n: nat, count: nat, prev: seq<byte>, i: nat)
    requires |prev| == n && pos + n * count <= |input| && i < count
    ensures pos + n * i + n <= |input|
    ensures ScratchLines(input, pos, n, count, prev)[i] == input[pos + n * i..pos + n * i + n]
  {
    MulMonotone(i + 1, count, n);
    MulSucc(n, i);
    ScratchLineAt(input, pos, n, count, prev, i, n * i);
  }

  /** The same with the offset n*i of scanline i as a parameter, so that
      the induction steps on it linearly. */
  lemma {:induction false} ScratchLineAt(input: seq<byte>, pos: nat, n: nat, count: nat, prev: seq<byte>,
                                          i: nat, off: nat)
    requires |prev| == n && i < count && off == n * i && pos + off + n <= |input|
    ensures ScratchLines(input, pos, n, count, prev)[i] == input[pos + off..pos + off + n]
    decreases i
  {
    var line := Refill(input, pos, n, prev);
    assert Advance(input, pos, n) == pos + n;
    if i == 0 {
      assert prev[n..] == [];
      assert line == input[pos..pos + n];
    } else {
      MulPred(n, i);
      ScratchLineAt(input, pos + n, n, count - 1, line, i - 1, off - n);
      assert ScratchLines(input, pos, n, count, prev)[i] == ScratchLines(input, pos + n, n, count - 1, line)[i - 1];
    }
  }

  /** What a RAW rectangle leaves in a framebuffer when the input holds all of
      its h*w*4 bytes: pixel (x + j, y + i) holds the channels of the 32-bit
      pixel at input offset pos + 4*(w*i + j). */
  lemma RawPixel(fb: seq<byte>, W: nat, H: nat, x: nat, y: nat, w: nat, h: nat, fmt: PixelFormat,
                 input: seq<byte>, pos: nat, i: nat, j: nat, c: nat)
    requires Fits(|fb|, W, H, x, y, w, h) && pos + 4 * w * h <= |input|
    requires i < h && j < w && c < 3
    ensures RowBase(W, x, y + i) + 3 * j + c < |fb|
    ensures pos + 4 * w * i + 4 * j + 4 <= |input|
    ensures Paint(fb, W, H, x, y, w, ScratchLines(input, pos, 4 * w, h, Zeros(4 * w)), h, fmt)[RowBase(W, x, y + i) + 3 * j + c]
         == Channel(Pixel32(input[pos + 4 * w * i + 4 * j..pos + 4 * w * i + 4 * j + 4]), ShiftOf(fmt, c))
  {
    var lines := ScratchLines(input, pos, 4 * w, h, Zeros(4 * w));
    PaintPixel(fb, W, H, x, y, w, lines, h, fmt, i, j, c);
    RawLinePixel(input, pos, w, h, i, j);
  }

  /** Pixel j of scanline i of a RAW rectangle whose bytes the input holds. */
  lemma RawLinePixel(input: seq<byte>, pos: nat, w: nat, h: nat, i: nat, j: nat)
    requires pos + 4 * w * h <= |input| && i < h && j < w
    ensures pos + 4 * w * i + 4 * j + 4 <= |input|
    ensures ScratchLines(input, pos, 4 * w, h, Zeros(4 * w))[i][4 * j..4 * j + 4]
         == input[pos + 4 * w * i + 4 * j..pos + 4 * w * i + 4 * j + 4]
  {
    var n := 4 * w;
    ScratchLinesFull(input, pos, n, h, Zeros(n), i);
    SubSlice(input, pos + n * i, n, 4 * j, 4 * j + 4);
  }

  lemma SubSlice(s: seq<byte>, q: nat, n: nat, a: nat, b: nat)
    requires q + n <= |s| && a <= b <= n
    ensures s[q..q + n][a..b] == s[q + a..q + b]
  {
    var t, u := s[q..q + n][a..b], s[q + a..q + b];
    forall k | 0 <= k < |t| ensures t[k] == u[k] {
    }
  }

  /** With byte-aligned shifts, the RAW rectangle copies bytes: channel c of
      pixel (x + j, y + i) is byte shift/8 of the matching input pixel. */
  lemma RawPixelAligned(fb: seq<byte>, W: nat, H: nat, x: nat, y: nat, w: nat, h: nat, fmt: PixelFormat,
                        input: seq<byte>, pos: nat, i: nat, j: nat, c: nat)
    requires Fits(|fb|, W, H, x, y, w, h) && pos + 4 * w * h <= |input|
    requires i < h && j < w && c < 3
    requires ShiftOf(fmt, c) % 8 == 0 && ShiftOf(fmt, c) < 32
    ensures RowBase(W, x, y + i) + 3 * j + c < |fb|
    ensures pos + 4 * w * i + 4 * j + ShiftOf(fmt, c) / 8 < |input|
    ensures Paint(fb, W, H, x, y, w, ScratchLines(input, pos, 4 * w, h, Zeros(4 * w)), h, fmt)[RowBase(W, x, y + i) + 3 * j + c]
         == input[pos + 4 * w * i + 4 * j + ShiftOf(fmt, c) / 8]
  {
    RawPixel(fb, W, H, x, y, w, h, fmt, input, pos, i, j, c);
    MulNonNegative(4 * w, i);
    InputByte(input, pos + 4 * w * i + 4 * j, ShiftOf(fmt, c));
  }

  /** A byte-aligned channel of the 32-bit pixel at q is one input byte. */
  lemma InputByte(input: seq<byte>, q: int, shift: nat)
    requires 0 <= q && q + 4 <= |input| && shift % 8 == 0 && shift < 32
    ensures q + shift / 8 < |input|
    ensures Channel(Pixel32(input[q..q + 4]), shift) == input[q + shift / 8]
  {
    var px := input[q..q + 4];
    var k := shift / 8;
    ChannelSelectsByte(px, k);
    assert px[k] == input[q + k];
  }

  /** One read of the scratch line: the next line is the refill, and the
      remaining lines continue from after it. */
  lemma RawStep(input: seq<byte>, p: nat, n: nat, k: nat, before: seq<byte>, lines: seq<seq<byte>>, i: nat)
    requires p <= |input| && |before| == n && k > 0 && i <= |lines|
    requires lines[i..] == ScratchLines(input, p, n, k, before)
    ensures i < |lines| && lines[i] == Refill(input, p, n, before)
    ensures lines[i + 1..] == ScratchLines(input, Advance(input, p, n), n, k - 1, Refill(input, p, n, before))
  {
    assert lines[i] == lines[i..][0];
    assert lines[i + 1..] == lines[i..][1..];
  }

  /** A one-row paint is the blit of that row. */
  lemma PaintOne(fb: seq<byte>, W: nat, H: nat, x: nat, y: nat, w: nat, line: seq<byte>, fmt: PixelFormat)
    requires Fits(|fb|, W, H, x, y, w, 1) && |line| == 4 * w
    ensures RowBase(W, x, y) + 3 * w <= |fb|
    ensures Paint(fb, W, H, x, y, w, Scanlines(line, w, 1), 1, fmt) == BlitRow(fb, RowBase(W, x, y), line, w, fmt)
  {
    RowFits(W, H, x, w, y);
    assert Scanlines(line, w, 1)[0] == line[0..4 * w] == line;
  }

  /** Row `row` of the scanlines of a buffer, as the slice the blit walks over. */
  lemma ScanlineAt(line: seq<byte>, w: nat, h: nat, row: nat)
    requires 4 * w * h <= |line| && row < h
    ensures 4 * w * row + 4 * w == 4 * w * (row + 1) <= |line|
    ensures Scanlines(line, w, h)[row] == line[4 * w * row..4 * w * row + 4 * w]
  {
    MulMonotone(row + 1, h, 4 * w);
  }

  /** After a row of w pixels the blit skips the rest of the framebuffer row. */
  lemma RowBaseNext(W: nat, x: nat, row: nat, w: nat, d: nat)
    requires d == RowBase(W, x, row)
    ensures d + 3 * w + W * 3 - w * 3 == RowBase(W, x, row + 1)
  {
    assert (row + 1) * W == row * W + W;
  }

  /** Painting one more row is the blit of that row over the rows before. */
  lemma PaintNextRow(fb: seq<byte>, W: nat, H: nat, x: nat, y: nat, w: nat, rows: seq<seq<byte>>, i: nat,
                     fmt: PixelFormat)
    requires i < |rows| && Fits(|fb|, W, H, x, y, w, i + 1) && RowsWide(rows, w)
    ensures RowBase(W, x, y + i) + 3 * w <= |fb| && 4 * w <= |rows[i]|
    ensures Paint(fb, W, H, x, y, w, rows, i + 1, fmt)
         == BlitRow(Paint(fb, W, H, x, y, w, rows, i, fmt), RowBase(W, x, y + i), rows[i], w, fmt)
  {
    RowFits(W, H, x, w, y + i);
  }
}
