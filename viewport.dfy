/** The viewport: the 32x32 window of the remote framebuffer that the client
    shows, the way a position from the control channel moves it, the
    FramebufferUpdateRequest it sends on each refresh timeout, and the byte
    offsets at which the display callbacks read it out of the framebuffer. */
module Viewport {
  import opened Wire
  import opened Messages

  /** The shown window; `moved` makes the next request a full (non-incremental) one. */
  datatype View = View(x: int, y: int, w: int, h: int, moved: bool)

  /** The view a new connection starts with: origin (0, 0), 32x32, a full update pending. */
  const InitialView := View(0, 0, 32, 32, true)

  /** What the main loop's wait reports: the refresh timer ran out; a line was
      read from the control channel and `fields` of its two numbers parsed
      (a value below 1 also stands for an empty read); reading the control
      channel failed; or the server socket has data. */
  datatype Event = Timeout | Control(fields: int, x: int, y: int) | ControlReadFailed | SocketReady

  /** One coordinate of a requested origin, clamped: a negative value becomes 0,
      then a value whose window of `size` would run past `limit` becomes
      limit - size (which is negative when the window is larger than the framebuffer). */
  function ClampCoord(c: int, size: int, limit: int): (r: int)
    ensures r + size <= limit
    ensures size <= limit ==> 0 <= r
    ensures 0 <= c && c + size <= limit ==> r == c
    ensures c < 0 && size <= limit ==> r == 0
    ensures c >= 0 && c + size > limit ==> r == limit - size
    ensures size > limit ==> r == limit - size && r < 0
  {
    var c0 := if c < 0 then 0 else c;
    if c0 + size > limit then limit - size else c0
  }

  /** Clamping a clamped coordinate again changes nothing. */
  lemma ClampIdempotent(c: int, size: int, limit: int)
    ensures ClampCoord(ClampCoord(c, size, limit), size, limit) == ClampCoord(c, size, limit)
  {
  }

  /** When the window fits, the clamped coordinate is the position of
      0..limit-size nearest to the requested one. */
  lemma ClampNearest(c: int, size: int, limit: int, z: int)
    requires size <= limit && 0 <= z <= limit - size
    ensures var r := ClampCoord(c, size, limit);
            0 <= r <= limit - size && (r - c) * (r - c) <= (z - c) * (z - c)
  {
    var r := ClampCoord(c, size, limit);
    if c < 0 {
      assert r == 0;
      assert (r - c) * (r - c) <= (z - c) * (z - c) by {
        MulLe(-c, z - c);
      }
    } else if c > limit - size {
      assert r == limit - size;
      assert (r - c) * (r - c) <= (z - c) * (z - c) by {
        MulLe(c - r, c - z);
      }
    }
  }

  // Non-linear step for ClampNearest: a nearer coordinate has the smaller square distance.
  lemma MulLe(a: nat, b: nat)
    requires a <= b
    ensures a * a <= b * b
  {
  }

  /** The view after a control line that parsed `fields` numbers: with none
      nothing changes; with one only x was given and y keeps its value (and
      is clamped with it); `moved` is set if the origin changed and never cleared here. */
  function MoveTo(v: View, fields: int, cx: int, cy: int, width: int, height: int): (r: View)
    ensures fields < 1 ==> r == v
    ensures r.w == v.w && r.h == v.h
    ensures fields >= 1 ==> r.x == ClampCoord(cx, v.w, width)
    ensures fields >= 1 ==> r.y == ClampCoord(if fields >= 2 then cy else v.y, v.h, height)
    ensures r.moved <==> v.moved || r.x != v.x || r.y != v.y
  {
    if fields < 1 then v
    else
      var x := ClampCoord(cx, v.w, width);
      var y := ClampCoord(if fields >= 2 then cy else v.y, v.h, height);
      View(x, y, v.w, v.h, v.moved || x != v.x || y != v.y)
  }

  /** The view lies inside a width x height framebuffer. */
  predicate Inside(v: View, width: int, height: int) {
    0 <= v.x && v.x + v.w <= width && 0 <= v.y && v.y + v.h <= height
  }

  /** Whenever the window fits the framebuffer, a control line leaves the view inside it. */
  lemma MoveToInside(v: View, fields: int, cx: int, cy: int, width: int, height: int)
    requires v.w <= width && v.h <= height
    requires fields < 1 ==> Inside(v, width, height)
    ensures Inside(MoveTo(v, fields, cx, cy, width, height), width, height)
  {
  }

  /** The FramebufferUpdateRequest sent on a timeout: the current view,
      incremental unless the view has moved, each field narrowed to 16 bits. */
  function TimeoutRequest(v: View): (r: UpdateRequest)
    ensures r.incremental <==> !v.moved
    ensures 0 <= v.x < 0x1_0000 && 0 <= v.y < 0x1_0000 && 0 <= v.w < 0x1_0000 && 0 <= v.h < 0x1_0000 ==>
              r.x == v.x && r.y == v.y && r.width == v.w && r.height == v.h
  {
    UpdateRequest(!v.moved, U16(v.x), U16(v.y), U16(v.w), U16(v.h))
  }

  /** The view after one event of the main loop; only timeouts and control lines touch it. */
  function ViewStep(v: View, e: Event, width: int, height: int): (r: View)
    ensures e.Timeout? ==> r == v.(moved := false)
    ensures e.Control? ==> r == MoveTo(v, e.fields, e.x, e.y, width, height)
    ensures e.ControlReadFailed? || e.SocketReady? ==> r == v
  {
    match e
    case Timeout => v.(moved := false)
    case Control(fields, x, y) => MoveTo(v, fields, x, y, width, height)
    case ControlReadFailed => v
    case SocketReady => v
  }

  /** The view after a sequence of events. */
  function Run(v: View, events: seq<Event>, width: int, height: int): View
    decreases |events|
  {
    if events == [] then v else Run(ViewStep(v, events[0], width, height), events[1..], width, height)
  }

  /** One more event at the end of a run is one more step from where the run left the view. */
  lemma {:induction false} RunSnoc(v: View, events: seq<Event>, e: Event, width: int, height: int)
    ensures Run(v, events + [e], width, height) == ViewStep(Run(v, events, width, height), e, width, height)
    decreases |events|
  {
    if events == [] {
      assert (events + [e])[1..] == [];
    } else {
      assert (events + [e])[1..] == events[1..] + [e];
      RunSnoc(ViewStep(v, events[0], width, height), events[1..], e, width, height);
    }
  }

  /** Some event in the sequence changed the origin of the view. */
  predicate OriginChanged(v: View, events: seq<Event>, width: int, height: int)
    decreases |events|
  {
    events != [] &&
    var v' := ViewStep(v, events[0], width, height);
    (v'.x != v.x || v'.y != v.y || OriginChanged(v', events[1..], width, height))
  }

  predicate NoTimeout(events: seq<Event>) {
    forall i :: 0 <= i < |events| ==> !events[i].Timeout?
  }

  /** Between two timeouts the client asks for an incremental update exactly
      when the previous request left the view unmoved and no control line
      has changed its origin since. */
  lemma {:induction false} RequestAfterEvents(v: View, events: seq<Event>, width: int, height: int)
    requires NoTimeout(events)
    ensures TimeoutRequest(Run(v, events, width, height)).incremental
         <==> !v.moved && !OriginChanged(v, events, width, height)
    decreases |events|
  {
    if events != [] {
      var v' := ViewStep(v, events[0], width, height);
      assert NoTimeout(events[1..]) by {
        forall i | 0 <= i < |events[1..]| ensures !events[1..][i].Timeout? {
          assert events[1..][i] == events[i + 1];
        }
      }
      assert !events[0].Timeout?;
      RequestAfterEvents(v', events[1..], width, height);
    }
  }

  /** The first refresh after connecting asks for the whole view, whatever control lines came first. */
  lemma FirstRequestIsFull(events: seq<Event>, width: int, height: int)
    requires NoTimeout(events)
    ensures !TimeoutRequest(Run(InitialView, events, width, height)).incremental
  {
    RequestAfterEvents(InitialView, events, width, height);
  }

  /** A timeout clears the request for a full update: with no move in between, the next one is incremental. */
  lemma TimeoutThenTimeout(v: View, width: int, height: int)
    ensures TimeoutRequest(ViewStep(v, Timeout, width, height)).incremental
  {
  }

  /** The byte offset of the view's origin in a framebuffer of `stride` bytes per row:
      where the display callbacks start reading. */
  function CropOffset(v: View, stride: int): int {
    v.x * 3 + v.y * stride
  }

  /** The framebuffer byte a callback reads for channel c of pixel (col, row) of the view. */
  function CropIndex(v: View, stride: int, row: int, col: int, c: int): int {
    CropOffset(v, stride) + row * stride + 3 * col + c
  }

  /** With the stride the client passes (three bytes per framebuffer pixel),
      the callback reads exactly channel c of framebuffer pixel (x + col, y + row). */
  lemma CropIndexIsPixel(v: View, width: int, row: int, col: int, c: int)
    ensures CropIndex(v, 3 * width, row, col, c) == ((v.y + row) * width + v.x + col) * 3 + c
  {
  }

  /** A view inside the framebuffer is read inside the RGB array: every pixel
      of the window lies within the 3*width*height bytes. */
  lemma CropInBounds(v: View, width: int, height: int, row: int, col: int, c: int)
    requires Inside(v, width, height)
    requires 0 <= row < v.h && 0 <= col < v.w && 0 <= c < 3
    ensures 0 <= CropIndex(v, 3 * width, row, col, c) < 3 * width * height
  {
    CropIndexIsPixel(v, width, row, col, c);
    var py, px := v.y + row, v.x + col;
    assert 0 <= py < height && 0 <= px < width;
    assert py * width + px < height * width by {
      assert py * width <= (height - 1) * width by { Mul(py, height - 1, width); }
    }
  }

  // Non-linear step for CropInBounds and Render.LedPanelFrame: a lower row starts at a lower offset.
  lemma Mul(a: int, b: int, c: nat)
    requires a <= b
    ensures a * c <= b * c
  {
  }

  /** The 32x32 view the client uses stays readable after any sequence of
      events once the framebuffer is at least 32x32. */
  lemma {:induction false} RunStaysInside(v: View, events: seq<Event>, width: int, height: int)
    requires v.w <= width && v.h <= height && Inside(v, width, height)
    ensures Inside(Run(v, events, width, height), width, height)
    ensures Run(v, events, width, height).w == v.w && Run(v, events, width, height).h == v.h
    decreases |events|
  {
    if events != [] {
      var e := events[0];
      if e.Control? {
        MoveToInside(v, e.fields, e.x, e.y, width, height);
      }
      RunStaysInside(ViewStep(v, e, width, height), events[1..], width, height);
    }
  }
}
